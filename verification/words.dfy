/** Machine-word vocabulary shared by the model: the source's unsigned integer
    widths, single bits, and MSB-first packing of a bit sequence into a word. */
module Words {

  /** `uint16_t` in the source. */
  type U16 = x: int | 0 <= x < 0x1_0000

  /** `uint32_t` in the source. */
  type U32 = x: int | 0 <= x < 0x1_0000_0000

  /** One output bit: 1 is a mark (high), 0 a space (low). */
  type Bit = b: int | 0 <= b <= 1

  const WORD_BITS: nat := 32

  /** 2^32, the modulus of `uint32_t` arithmetic. */
  const WORD_RANGE: nat := 0x1_0000_0000

  function Pow2(n: nat): (r: nat)
    ensures r >= 1
  {
    if n == 0 then 1 else 2 * Pow2(n - 1)
  }

  /** Shifts `bits` into an accumulator from the left, first bit ending up most
      significant: the word that `acc = (acc << 1) | bit` builds. */
  function Pack(bits: seq<Bit>): (r: nat)
    ensures r < Pow2(|bits|)
  {
    if |bits| == 0 then 0
    else 2 * Pack(bits[..|bits| - 1]) + bits[|bits| - 1]
  }

  /** Bit `i` of a `width`-bit word, counting from the most significant end. */
  function BitOf(w: nat, width: nat, i: nat): Bit
    requires i < width
  {
    (w / Pow2(width - 1 - i)) % 2
  }

  lemma {:induction false} Pow2Add(a: nat, b: nat)
    ensures Pow2(a + b) == Pow2(a) * Pow2(b)
  {
    if b > 0 {
      Pow2Add(a, b - 1);
      assert Pow2(a + b) == 2 * Pow2(a + b - 1);
    }
  }

  lemma Pow2Values()
    ensures Pow2(16) == 0x1_0000
    ensures Pow2(32) == 0x1_0000_0000
  {
    assert Pow2(2) == 4;
    Pow2Add(2, 2);
    Pow2Add(4, 4);
    Pow2Add(8, 8);
    Pow2Add(16, 16);
  }

  /** Unpacking a packed word bit by bit, most significant first, gives back the
      bits that were shifted in. */
  lemma {:induction false} PackMsbFirst(bits: seq<Bit>, i: nat)
    requires i < |bits|
    ensures BitOf(Pack(bits), |bits|, i) == bits[i]
  {
    var n := |bits|;
    if i == n - 1 {
      PackLastBit(bits);
    } else {
      PackMsbFirst(bits[..n - 1], i);
      PackEarlierBit(bits, i);
    }
  }

  /** The last bit shifted in is the least significant one. */
  lemma PackLastBit(bits: seq<Bit>)
    requires |bits| > 0
    ensures BitOf(Pack(bits), |bits|, |bits| - 1) == bits[|bits| - 1]
  {
    var n := |bits|;
    var w, p := Pack(bits), Pack(bits[..n - 1]);
    assert w == 2 * p + bits[n - 1];
    assert Pow2(0) == 1;
    DivUnique(w, 2, p, bits[n - 1]);
    assert BitOf(w, n, n - 1) == (w / 1) % 2;
  }

  /** Shifting in one more bit moves every earlier bit up one place. */
  lemma PackEarlierBit(bits: seq<Bit>, i: nat)
    requires i < |bits| - 1
    ensures BitOf(Pack(bits), |bits|, i) == BitOf(Pack(bits[..|bits| - 1]), |bits| - 1, i)
  {
    var n := |bits|;
    var w, p := Pack(bits), Pack(bits[..n - 1]);
    assert w == 2 * p + bits[n - 1];
    var d := Pow2(n - 2 - i);
    assert Pow2(n - 1 - i) == 2 * d;
    DivTwice(p, bits[n - 1], d);
  }

  lemma DivTwice(x: nat, c: Bit, d: nat)
    requires d >= 1
    ensures (2 * x + c) / (2 * d) == x / d
  {
    var q := x / d;
    var r := x % d;
    DivMod(x, d);
    MulDouble(q, d);
    assert 0 <= 2 * r + c < 2 * d;
    DivUnique(2 * x + c, 2 * d, q, 2 * r + c);
  }

  lemma DivUnique(a: int, m: int, q: int, r: int)
    requires m > 0 && 0 <= r < m && a == q * m + r
    ensures a / m == q && a % m == r
  {
    var q0 := a / m;
    var r0 := a % m;
    assert q0 * m + r0 == q * m + r;
    assert (q0 - q) * m == r - r0;
    if q0 < q {
      MulAtLeast(q - q0, m);
    } else if q0 > q {
      MulAtLeast(q0 - q, m);
    }
  }

  lemma DivMod(x: int, m: int)
    requires m > 0
    ensures x == (x / m) * m + x % m && 0 <= x % m < m
  {
  }

  lemma MulDouble(a: int, b: int)
    ensures 2 * (a * b) == a * (2 * b)
  {
  }

  lemma MulSucc(x: nat, len: nat)
    ensures (x + 1) * len == x * len + len
  {
  }

  lemma MulMono(a: nat, b: nat, m: nat)
    ensures a <= b ==> a * m <= b * m
  {
    if a <= b {
      assert b * m == a * m + (b - a) * m;
    }
  }

  lemma MulAtLeast(k: int, m: int)
    requires k >= 1 && m > 0
    ensures k * m >= m
  {
    assert k * m == (k - 1) * m + m;
  }

  lemma {:induction false} PackAppend(a: seq<Bit>, b: seq<Bit>)
    ensures Pack(a + b) == Pack(a) * Pow2(|b|) + Pack(b)
  {
    if |b| == 0 {
      assert a + b == a;
    } else {
      var ab := a + b;
      var b' := b[..|b| - 1];
      var c := b[|b| - 1];
      assert ab[..|ab| - 1] == a + b';
      assert ab[|ab| - 1] == c;
      PackAppend(a, b');
      var pa, p := Pack(a), Pow2(|b'|);
      assert Pack(ab) == 2 * Pack(a + b') + c;
      assert Pack(b) == 2 * Pack(b') + c;
      assert Pow2(|b|) == 2 * p;
      MulDouble(pa, p);
    }
  }

  lemma {:induction false} PackConstant(n: nat, c: Bit)
    ensures Pack(seq(n, _ => c)) == c * (Pow2(n) - 1)
  {
    if n > 0 {
      var s := seq(n, _ => c);
      assert s[..n - 1] == seq(n - 1, _ => c);
      PackConstant(n - 1, c);
    }
  }

  /** `(acc << 1) | bit` on a `uint32_t` accumulator: the top bit falls off. */
  function ShiftIn(acc: nat, bit: Bit): U32 {
    (2 * acc + bit) % WORD_RANGE
  }

  /** One step of `sample = (sample << 1) | bit` on a 32-bit accumulator keeps
      the low k bits shifted up by one with `bit` appended, whatever the bits
      above them hold. */
  lemma ShiftInLowBits(x: nat, b: Bit, k: nat, low: nat)
    requires k < WORD_BITS && x % Pow2(k) == low
    ensures ShiftIn(x, b) % Pow2(k + 1) == 2 * low + b
  {
    Pow2Values();
    var m := Pow2(k);
    var f := Pow2(WORD_BITS - k - 1);
    Pow2Add(k + 1, WORD_BITS - k - 1);
    assert Pow2(k + 1) == 2 * m;
    assert Pow2(WORD_BITS) == (2 * m) * f;
    ModOfMod(2 * x + b, 2 * m, f);
    var q := x / m;
    var r := x % m;
    DivMod(x, m);
    MulDouble(q, m);
    DivUnique(2 * x + b, 2 * m, q, 2 * r + b);
  }

  /** The shift step in terms of packed words: if the accumulator's low bits
      hold all but the last of `bits`, one more shift makes them hold `bits`. */
  lemma ShiftInPacked(x: nat, bits: seq<Bit>)
    requires 0 < |bits| <= WORD_BITS
    requires x % Pow2(|bits| - 1) == Pack(bits[..|bits| - 1])
    ensures ShiftIn(x, bits[|bits| - 1]) % Pow2(|bits|) == Pack(bits)
  {
    ShiftInLowBits(x, bits[|bits| - 1], |bits| - 1, Pack(bits[..|bits| - 1]));
  }

  lemma ModOfMod(y: nat, m: nat, f: nat)
    requires m > 0 && f > 0
    ensures (y % (m * f)) % m == y % m
  {
    var mf := m * f;
    var Q := y / mf;
    var R := y % mf;
    var q2 := R / m;
    var r2 := R % m;
    assert y == Q * mf + R;
    assert R == q2 * m + r2;
    assert Q * mf == (Q * f) * m;
    assert y == (Q * f + q2) * m + r2;
    DivUnique(y, m, Q * f + q2, r2);
  }
}
