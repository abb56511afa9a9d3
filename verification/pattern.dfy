/** The mark/space pattern table: up to FILL_MAX records of (mark bits, space
    bits, repeat count) and the active size `markspaceSize`, with the setter
    that writes one record and the default pattern that `i2scBegin` installs. */
module Pattern {
  import opened Words

  /** Capacity of the table (`FILL_MAX`). */
  const FILL_MAX: nat := 100

  /** Space bits stored in place of a requested zero-mark, zero-space record. */
  const ZERO_RECORD_SPACE: U16 := 16

  /** One row of `markspaceBits`: `mark` high bits, then `space` low bits, the
      pair emitted `repeat` times before moving on (0 means hold forever). */
  datatype Record = Record(mark: U16, space: U16, repeat: U16)

  /** The table as a whole: every one of the FILL_MAX rows, and the active size. */
  datatype Table = Table(records: seq<Record>, size: U16)

  predicate Valid(t: Table) {
    |t.records| == FILL_MAX && t.size <= FILL_MAX
  }

  /** Records the encoder can reach: the first `size` of them, but at least
      record 0, since the encoder starts there even when the table is empty. */
  function Active(t: Table): (n: nat)
    requires Valid(t)
    ensures 1 <= n <= FILL_MAX
  {
    if t.size == 0 then 1 else t.size
  }

  /** A record that produces at least one bit per mark/space cycle. */
  predicate Productive(r: Record) {
    r.mark + r.space > 0
  }

  /** Every record the encoder can reach is productive: the condition under
      which the encoder loop terminates. */
  predicate WellFormed(t: Table) {
    && Valid(t)
    && forall i :: 0 <= i < Active(t) ==> Productive(t.records[i])
  }

  /** Every record below `size` is productive, as it is whenever each of them
      was last written by the setter. */
  predicate WrittenPrefix(t: Table) {
    && Valid(t)
    && forall i :: 0 <= i < t.size ==> Productive(t.records[i])
  }

  /** The statically initialised table: all rows zero, size 0. */
  function EmptyTable(): (t: Table)
    ensures Valid(t) && WrittenPrefix(t) && t.size == 0
    ensures forall i :: 0 <= i < FILL_MAX ==> t.records[i] == Record(0, 0, 0)
  {
    Table(seq(FILL_MAX, _ => Record(0, 0, 0)), 0)
  }

  /** `i2scSetMSArrayItem`. */
  function SetMSArrayItem(t: Table, index: U16, mark: U16, space: U16, repeat: U16): (r: Table)
    requires Valid(t)
    ensures Valid(r)
    ensures index < FILL_MAX ==>
              && r.size == index + 1
              && r.records[index].mark == mark
              && r.records[index].repeat == repeat
              && Productive(r.records[index])
              && (r.records[index].space == space <==> mark + space > 0)
              && (mark + space == 0 ==> r.records[index].space == ZERO_RECORD_SPACE)
    ensures index >= FILL_MAX ==> r.size == 0 && r.records == t.records
    ensures forall i :: 0 <= i < FILL_MAX && i != index ==> r.records[i] == t.records[i]
  {
    if index < FILL_MAX then
      var stored := if mark + space == 0 then ZERO_RECORD_SPACE else space;
      Table(t.records[index := Record(mark, stored, repeat)], index + 1)
    else
      t.(size := 0)
  }

  /** The default-pattern block of `i2scBegin`: an empty table becomes the single
      record 16 high, 16 low, held forever; any other table is left alone. */
  function InstallDefault(t: Table): (r: Table)
    requires Valid(t)
    ensures Valid(r)
    ensures t.size != 0 ==> r == t
    ensures t.size == 0 ==> r.size == 1 && r.records[0] == Record(16, 16, 0)
    ensures forall i :: 1 <= i < FILL_MAX ==> r.records[i] == t.records[i]
  {
    if t.size == 0 then
      Table(t.records[0 := Record(16, 16, 0)], t.size + 1)
    else t
  }

  /** Writing through the setter at an index no higher than the current size
      keeps every record below the size productive. */
  lemma SetterKeepsPrefix(t: Table, index: U16, mark: U16, space: U16, repeat: U16)
    requires WrittenPrefix(t)
    requires index <= t.size
    ensures WrittenPrefix(SetMSArrayItem(t, index, mark, space, repeat))
  {
  }

  /** A table built through the setter is safe to encode once `i2scBegin` has
      installed the default pattern. */
  lemma DefaultMakesWellFormed(t: Table)
    requires WrittenPrefix(t)
    ensures WellFormed(InstallDefault(t))
  {
  }

  /** Writing only index 5 of the initial table leaves records 0 to 4 zero below
      the new size, so the encoder's termination condition fails. */
  lemma SkippedIndexIsNotWellFormed()
    ensures !WellFormed(SetMSArrayItem(EmptyTable(), 5, 10, 10, 0))
  {
    var t := SetMSArrayItem(EmptyTable(), 5, 10, 10, 0);
    assert t.records[0] == Record(0, 0, 0);
    assert !Productive(t.records[0]);
  }
}
