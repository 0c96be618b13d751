/** Directory slots on a file handle: what a directory takes its bytes to be is what the handle of its
    cluster chain reads and writes. */
module DirStream {
  import opened Prelude
  import opened Blocks
  import opened DirEntry
  import opened DirChanges
  import opened Directory
  import FatHeap
  import ClusterSpace
  import FileCursor
  import opened FileSystem
  import opened File

  lemma {:induction false} SlotsInClusters(m: nat, n: nat)
    ensures Span(m, 32 * n) == 32 * Span(m, n)
  {
    if m > 0 { SlotsInClusters(m - 1, n); }
  }

  /** A slot does not straddle clusters. */
  lemma {:induction false} SlotInCluster(k: nat, n: nat)
    requires n > 0
    ensures Rem(32 * k, 32 * n) == 32 * Rem(k, n)
  {
    if k >= n { SlotInCluster(k - n, n); }
  }

  /** So a slot is read in one piece. */
  lemma OneSlot(k: nat, n: nat, len: nat)
    requires n > 0 && len % 32 == 0 && 32 * k <= len
    ensures Min(Min(32, 32 * n - Rem(32 * k, 32 * n)), len - 32 * k) == if 32 * k < len then 32 else 0
  {
    SlotInCluster(k, n);
    hide Rem;
  }

  /** The handle of a directory on clusters of `n` slots. */
  ghost predicate IsSlots(f: Handle, n: nat)
    reads f, f.fs, f.fs.fat, f.fs.fat.data
  {
    && f.Valid() && f.InPlace() && f.Size().None? && n > 0 && f.ClusterSize() == 32 * n
    && |f.Contents()| % 32 == 0 && |f.Contents()| <= U32_MAX
  }

  ghost function SlotsOf(f: Handle, n: nat): (r: seq<Slot>)
    requires IsSlots(f, n)
    reads f, f.fs, f.fs.fat, f.fs.fat.data
  {
    Slots(f.Contents())
  }

  lemma SlotAt(bytes: seq<byte>, k: nat)
    requires |bytes| % 32 == 0 && k < |Slots(bytes)|
    ensures Slots(bytes)[k] == Deserialize(bytes[32 * k..32 * k + 32])
  {
  }

  method SeekToSlot(f: Handle, k: nat, ghost n: nat)
    requires IsSlots(f, n) && 32 * k <= |f.Contents()|
    modifies f`offset, f`currentCluster, f.fs.fat`pos
    ensures IsSlots(f, n) && f.Contents() == old(f.Contents()) && f.offset == 32 * k
    ensures f.fs.fat.Map() == old(f.fs.fat.Map()) && (old(f.fs.Counted()) ==> f.fs.Counted())
  {
    hide Volume.Valid, Rem, Span, FileCursor.Under, Quot, FatHeap.FreeSet;
    var _ := f.Seek(Start(32 * k));
  }

  method ReadBytes(f: Handle, k: nat, ghost n: nat) returns (d: seq<byte>)
    requires IsSlots(f, n) && 32 * k <= |f.Contents()|
    modifies f`offset, f`currentCluster, f.fs.fat`pos
    ensures f.Valid() && f.InPlace() && f.Size().None? && f.Contents() == old(f.Contents())
    ensures d == if 32 * k < |f.Contents()| then f.Contents()[32 * k..32 * k + 32] else []
  {
    hide Volume.Valid, Rem, Span, FileCursor.Under, Quot, ClusterSpace.StandsOnDisk;
    ghost var len := |f.Contents()|;
    SeekToSlot(f, k, n);
    OneSlot(k, n, len);
    assert f.ReadSize(32) == if 32 * k < len then 32 else 0;
    d := f.Read(32);
  }

  /** Reads slot `k`; behind the last one there is an end marker. */
  method ReadSlot(f: Handle, k: nat, ghost n: nat) returns (s: Slot)
    requires IsSlots(f, n) && k <= |SlotsOf(f, n)|
    modifies f`offset, f`currentCluster, f.fs.fat`pos
    ensures IsSlots(f, n) && SlotsOf(f, n) == old(SlotsOf(f, n))
    ensures s == if k < |SlotsOf(f, n)| then SlotsOf(f, n)[k] else END
  {
    if k < |SlotsOf(f, n)| { SlotAt(f.Contents(), k); }
    hide Handle.Valid, Handle.InPlace, Slots, Deserialize;
    var d := ReadBytes(f, k, n);
    s := if d != [] then Deserialize(d) else END;
  }

  /** The bytes of one slot are written in one piece. */
  method WriteBytes(f: Handle, k: nat, d: seq<byte>, ghost n: nat) returns (ok: bool, ghost fill: seq<byte>)
    requires IsSlots(f, n) && 32 * k <= |f.Contents()| && |d| == 32 && 32 * k + f.ClusterSize() <= U32_MAX
    modifies f, f.fs, f.fs.fat, f.fs.fat.data
    ensures f.Valid() && f.InPlace() && f.Size().None? && f.OthersKept()
    ensures ok <==> 32 * k < |old(f.Contents())| || FatHeap.FreeSet(old(f.fs.fat.Map())) != {}
    ensures !ok ==> f.Contents() == old(f.Contents())
    ensures ok ==> |fill| == if 32 * k < |old(f.Contents())| then 0 else 32 * n
    ensures ok ==> f.Filled(fill) && 32 * k + 32 <= |old(f.Contents()) + fill|
    ensures ok ==> f.Contents() == Splice(old(f.Contents()) + fill, 32 * k, d)
    ensures old(f.fs.Counted()) ==> f.fs.Counted()
  {
    hide Volume.Valid, Rem, Span, FileCursor.Under, Quot, FatHeap.FreeSet, FileCursor.OthersKept,
      Splice, ClusterSpace.WrittenOnDisk;
    SlotInCluster(k, n);
    var _ := f.Seek(Start(32 * k));
    assert f.offset == 32 * k;
    var r;
    r, fill := f.Write(d);
    ok := r.Success?;
  }

  /** Putting one slot, where the slots to come begin with those of one cluster. */
  lemma PutOne(slots: seq<Slot>, more: seq<Slot>, rest: seq<Slot>, k: nat, s: Slot, n: nat)
    requires n > 0 && k <= |slots| && |more| == (if k < |slots| then 0 else n) && Rem(|more + rest|, n) == 0
    ensures var d := Extent(slots + more + rest, |slots|, n);
      d.Valid() && d.Put(k, [s]).S() == (slots + more)[k := s]
  {
    var d := Extent(slots + more + rest, |slots|, n);
    assert |d.all| - d.len == |more + rest|;
    assert GrownTo(|slots|, k + 1, n) == |slots + more|;
    assert d.Put(k, [s]).S() == Splice(d.all, k, [s])[..|slots + more|];
  }

  /** Writes slot `k`, behind the last one on a new cluster that is `fill` before, and fails exactly when
      there is none. */
  method WriteSlot(f: Handle, k: nat, s: Slot, ghost n: nat) returns (ok: bool, ghost fill: seq<byte>)
    requires IsSlots(f, n) && k <= |SlotsOf(f, n)| && s.Valid() && 32 * k + f.ClusterSize() <= U32_MAX
    modifies f, f.fs, f.fs.fat, f.fs.fat.data
    ensures IsSlots(f, n) && f.OthersKept()
    ensures ok <==> k < |old(SlotsOf(f, n))| || FatHeap.FreeSet(old(f.fs.fat.Map())) != {}
    ensures !ok ==> SlotsOf(f, n) == old(SlotsOf(f, n))
    ensures ok ==> |fill| == if k < |old(SlotsOf(f, n))| then 0 else 32 * n
    ensures ok ==> f.Filled(fill) && SlotsOf(f, n) == (old(SlotsOf(f, n)) + Slots(fill))[k := s]
    ensures old(f.fs.Counted()) ==> f.fs.Counted()
  {
    hide Handle.Valid, Handle.InPlace, Slots, FatHeap.FreeSet, Handle.OthersKept, Volume.Counted, Splice, Handle.Filled;
    ghost var was := f.Contents();
    ok, fill := WriteBytes(f, k, Serialize(s), n);
    if ok {
      SlotsJoin(was, fill);
      SlotsSplice(was + fill, k, s);
    }
  }
}
