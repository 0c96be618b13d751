/** Entries of an allocation table that is read and written through the window over its copies. */
module MirroredTable {
  import opened Prelude
  import opened Blocks
  import opened FatCodec
  import opened DiskSlice

  /** All copies hold the same table, of the entries below `end`. */
  ghost predicate HoldsTable(t: Slice, ft: FatType, end: nat)
    reads t, t.inner
  {
    t.Valid() && t.Mirrored() && Holds(ft, t.Copy(0), end)
  }

  ghost function Table(t: Slice, ft: FatType, end: nat): (fat: seq<FatValue>)
    requires HoldsTable(t, ft, end)
    reads t, t.inner
    ensures |fat| == end
  {
    Entries(ft, t.Copy(0), end)
  }

  method SeekTo(t: Slice, p: nat)
    requires t.Valid() && p <= t.size
    modifies t`offset
    ensures t.Valid() && t.offset == p && t.Copy(0) == old(t.Copy(0)) && (old(t.Mirrored()) ==> t.Mirrored())
  {
    var _ := t.Seek(FromStart(p));
    assert forall i :: 0 <= i < t.mirrors ==> t.Copy(i) == old(t.Copy(i));
  }

  /** Reads the word that contains entry `c`. */
  method ReadWord(t: Slice, ft: FatType, c: nat) returns (w: nat)
    requires t.Valid() && Offset(ft, c) + Width(ft) <= t.size
    modifies t`offset, t.inner`pos
    ensures t.Valid() && w == Word(ft, t.Copy(0), c)
    ensures t.Copy(0) == old(t.Copy(0)) && (old(t.Mirrored()) ==> t.Mirrored())
  {
    SeekTo(t, Offset(ft, c));
    var b := t.Read(Width(ft));
    w := if ft.Fat32? then Le32(b, 0) else Le16(b, 0);
    assert forall i :: 0 <= i < t.mirrors ==> t.Copy(i) == old(t.Copy(i));
  }

  method Get(t: Slice, ft: FatType, c: nat, ghost end: nat) returns (v: FatValue)
    requires HoldsTable(t, ft, end) && c < end
    modifies t`offset, t.inner`pos
    ensures HoldsTable(t, ft, end) && Table(t, ft, end) == old(Table(t, ft, end)) && v == Table(t, ft, end)[c]
  {
    HoldsBelow(ft, t.Copy(0), end, c);
    var w := ReadWord(t, ft, c);
    v := FatCodec.Decode(ft, c, Unpack(ft, c, w));
  }

  /** Stores one entry: in every copy exactly that entry changes, where the volume is marked as dirty
      already, and else where the disk takes the bytes of an entry at once. */
  method Set(t: Slice, ft: FatType, c: nat, v: FatValue, ghost end: nat)
    requires HoldsTable(t, ft, end) && c < end && Storable(ft, v)
    modifies t`offset, t.inner
    ensures t.Valid()
    ensures old(t.Lands(Width(ft))) ==>
      HoldsTable(t, ft, end) && Table(t, ft, end) == old(Table(t, ft, end))[c := v]
    ensures old(t.Lands(Width(ft))) ==>
      Untouched(old(t.inner.data), t.inner.data, t.begin, t.begin + Span(t.mirrors, t.size), t.inner.statusAt)
  {
    hide Repack, Encode, Bytes, Splice, Word, Unpack, Entries, Slice.Copy, Slice.Mirrored, Untouched;
    HoldsBelow(ft, t.Copy(0), end, c);
    PutEntries(ft, t.Copy(0), end, c, v);
    var w := ReadWord(t, ft, c);
    var word := Repack(ft, c, w, Encode(ft, v));
    SeekTo(t, Offset(ft, c));
    var n := t.Write(Bytes(word, Width(ft)));
    assert old(t.Lands(Width(ft))) ==> t.Copy(0) == Put(ft, old(t.Copy(0)), c, Encode(ft, v));
  }
}
