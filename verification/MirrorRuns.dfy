/** Whole runs on the window over the copies of a table, against a single flat table. */
module MirrorRuns {
  import opened Prelude
  import opened Blocks
  import opened DiskSlice

  datatype Op = Read(n: nat) | Write(b: seq<byte>) | Seek(to: SeekFrom)

  datatype Answer = Bytes(d: seq<byte>) | Count(n: nat) | At(p: nat) | Refused

  /** One table, the position in it, and whether the volume has been marked as dirty already. */
  datatype Window = Window(table: seq<byte>, offset: nat, marked: bool)

  predicate Sound(t: Window) {
    t.offset <= |t.table|
  }

  function After(t: Window, op: Op): (r: (Answer, Window))
    requires Sound(t)
    ensures Sound(r.1) && |r.1.table| == |t.table|
  {
    match op
    case Read(n) =>
      var m := Min(|t.table| - t.offset, n);
      (Bytes(t.table[t.offset..t.offset + m]), t.(offset := t.offset + m))
    case Write(b) =>
      var m := Min(|t.table| - t.offset, |b|);
      (Count(m), Window(Splice(t.table, t.offset, b[..m]), t.offset + m, t.marked || m > 0))
    case Seek(to) =>
      var target := Target(to, t.offset, |t.table|);
      if 0 <= target <= |t.table| then (At(target), t.(offset := target)) else (Refused, t)
  }

  /** The same for a run of operations. */
  function AfterAll(t: Window, ops: seq<Op>): (r: (seq<Answer>, Window))
    requires Sound(t)
    ensures |r.0| == |ops| && Sound(r.1) && |r.1.table| == |t.table|
  {
    if ops == [] then ([], t)
    else
      var (log, u) := AfterAll(t, Front(ops));
      var (a, v) := After(u, Last(ops));
      (log + [a], v)
  }

  /** The bytes of the operation stay in one stretch, on a disk that takes up to `most` at once. */
  predicate StaysWhole(most: nat, t: Window, op: Op) {
    op.Write? ==> t.marked || Min(|t.table| - t.offset, |op.b|) <= most
  }

  predicate AllStayWhole(most: nat, t: Window, ops: seq<Op>)
    requires Sound(t)
  {
    ops == [] ||
    (AllStayWhole(most, t, Front(ops)) && StaysWhole(most, AfterAll(t, Front(ops)).1, Last(ops)))
  }

  lemma OneMore(most: nat, t: Window, ops: seq<Op>, i: nat)
    requires Sound(t) && i < |ops|
    ensures var (log, u) := AfterAll(t, ops[..i]);
      var (a, v) := After(u, ops[i]);
      && AfterAll(t, ops[..i + 1]) == (log + [a], v)
      && (AllStayWhole(most, t, ops[..i + 1]) ==> AllStayWhole(most, t, ops[..i]) && StaysWhole(most, u, ops[i]))
  {
    assert Front(ops[..i + 1]) == ops[..i];
  }

  /** Only what is written before the volume is marked can go astray, and only if the disk does not take it
      at once. */
  lemma {:induction false} ShortWritesStayWhole(most: nat, t: Window, ops: seq<Op>)
    requires Sound(t)
    requires t.marked || forall i :: 0 <= i < |ops| && ops[i].Write? ==> |ops[i].b| <= most
    ensures AllStayWhole(most, t, ops) && (t.marked ==> AfterAll(t, ops).1.marked)
  {
    if ops != [] {
      ShortWritesStayWhole(most, t, Front(ops));
    }
  }

  /** The copies, seen as the one table that they all hold. */
  ghost function Seen(s: Slice): (t: Window)
    requires s.Valid()
    reads s, s.inner
    ensures Sound(t)
  {
    Window(s.Copy(0), s.offset, !s.inner.Changes())
  }

  method Perform(s: Slice, op: Op) returns (a: Answer)
    requires s.Valid()
    modifies s`offset, s.inner
    ensures s.Valid()
    ensures old(s.Mirrored()) && StaysWhole(s.inner.most, old(Seen(s)), op) ==>
      && s.Mirrored() && (a, Seen(s)) == After(old(Seen(s)), op)
      && Untouched(old(s.inner.data), s.inner.data, s.begin, s.begin + Span(s.mirrors, s.size), s.inner.statusAt)
  {
    match op
    case Read(n) =>
      var d := s.Read(n);
      assert forall i :: 0 <= i < s.mirrors ==> s.Copy(i) == old(s.Copy(i));
      a := Bytes(d);
    case Write(b) =>
      var n := s.Write(b);
      a := Count(n);
    case Seek(to) =>
      var r := s.Seek(to);
      assert forall i :: 0 <= i < s.mirrors ==> s.Copy(i) == old(s.Copy(i));
      a := if r.Success? then At(r.value) else Refused;
  }

  /** Any run of reads, writes and seeks answers as one flat table would and leaves every copy equal to it,
      and touches nothing else on the disk but the status byte, as long as what is written stays whole. */
  method Run(s: Slice, ops: seq<Op>) returns (log: seq<Answer>)
    requires s.Valid()
    modifies s`offset, s.inner
    ensures s.Valid()
    ensures old(s.Mirrored()) && AllStayWhole(s.inner.most, old(Seen(s)), ops) ==>
      && s.Mirrored() && (log, Seen(s)) == AfterAll(old(Seen(s)), ops)
      && Untouched(old(s.inner.data), s.inner.data, s.begin, s.begin + Span(s.mirrors, s.size), s.inner.statusAt)
  {
    log := [];
    ghost var t, same, d := Seen(s), s.Mirrored(), s.inner.data;
    hide After, StaysWhole, Slice.Mirrored, Slice.Valid;
    for i := 0 to |ops|
      invariant s.Valid()
      invariant same && AllStayWhole(s.inner.most, t, ops[..i]) ==>
        && s.Mirrored() && (log, Seen(s)) == AfterAll(t, ops[..i])
        && Untouched(d, s.inner.data, s.begin, s.begin + Span(s.mirrors, s.size), s.inner.statusAt)
    {
      OneMore(s.inner.most, t, ops, i);
      var a := Perform(s, ops[i]);
      log := log + [a];
    }
    assert ops[..|ops|] == ops;
  }
}
