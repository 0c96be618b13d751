/** Runs that interleave several open files of one volume, each against a flat byte sequence of its own,
    with one number of free clusters for all. */
module ManyFiles {
  import opened Prelude
  import FatHeap
  import opened FileSystem
  import opened FileCursor
  import opened File
  import opened FileRuns

  /** No cluster belongs to both. */
  ghost predicate Separate(f: Handle, g: Handle)
    reads f, g
  {
    f != g && (g.chain != [] ==> g.chain != f.chain)
  }

  /** All are open files of the volume, and no two share a cluster. */
  ghost predicate Together(vol: Volume, fs: seq<Handle>)
    reads vol, vol.fat, vol.fat.data, fs
  {
    && vol.Valid()
    && (forall i :: 0 <= i < |fs| ==> fs[i].fs == vol && fs[i].Valid() && fs[i].Size().Some?)
    && forall i, j :: 0 <= i < |fs| && 0 <= j < |fs| && i != j ==> Separate(fs[i], fs[j])
  }

  /** What is seen of the files. */
  ghost predicate Show(vol: Volume, fs: seq<Handle>, ts: seq<Flat>)
    requires Together(vol, fs)
    reads vol, vol.fat, vol.fat.data, fs
  {
    |ts| == |fs| && forall i :: 0 <= i < |fs| ==> Seen(fs[i]) == ts[i]
  }

  ghost predicate AllSound(cs: nat, ts: seq<Flat>) {
    forall i :: 0 <= i < |ts| ==> Sound(cs, ts[i])
  }

  /** An operation on file `i`: the others only see that the number of free clusters has changed. */
  ghost function AfterOn(cs: nat, ts: seq<Flat>, i: nat, op: Op): (r: (Answer, seq<Flat>))
    requires cs > 0 && AllSound(cs, ts) && i < |ts|
    ensures AllSound(cs, r.1) && |r.1| == |ts|
  {
    var (a, u) := After(cs, ts[i], op);
    (a, seq(|ts|, j requires 0 <= j < |ts| => if j == i then u else ts[j].(free := u.free)))
  }

  ghost function AfterMany(cs: nat, ts: seq<Flat>, ops: seq<(nat, Op)>): (r: (seq<Answer>, seq<Flat>))
    requires cs > 0 && AllSound(cs, ts) && forall k :: 0 <= k < |ops| ==> ops[k].0 < |ts|
    ensures |r.0| == |ops| && AllSound(cs, r.1) && |r.1| == |ts|
  {
    if ops == [] then ([], ts)
    else
      var (log, us) := AfterMany(cs, ts, Front(ops));
      var (a, vs) := AfterOn(cs, us, Last(ops).0, Last(ops).1);
      (log + [a], vs)
  }

  lemma OneMoreOn(cs: nat, ts: seq<Flat>, ops: seq<(nat, Op)>, k: nat)
    requires cs > 0 && AllSound(cs, ts) && k < |ops| && forall i :: 0 <= i < |ops| ==> ops[i].0 < |ts|
    ensures var (log, us) := AfterMany(cs, ts, ops[..k]);
      var (a, vs) := AfterOn(cs, us, ops[k].0, ops[k].1);
      AfterMany(cs, ts, ops[..k + 1]) == (log + [a], vs)
  {
    assert Front(ops[..k + 1]) == ops[..k] && Last(ops[..k + 1]) == ops[k];
  }

  /** An operation on one of the files. */
  method PerformOn(vol: Volume, fs: seq<Handle>, ghost ts: seq<Flat>, i: nat, op: Op) returns (a: Answer)
    requires Together(vol, fs) && Show(vol, fs, ts) && i < |fs|
    modifies vol, vol.fat, vol.fat.data, fs
    ensures Together(vol, fs) && vol.layout.ClusterSize() > 0 && AllSound(vol.layout.ClusterSize(), ts)
    ensures var (b, us) := AfterOn(vol.layout.ClusterSize(), ts, i, op); a == b && Show(vol, fs, us)
    ensures old(vol.Counted()) ==> vol.Counted()
  {
    hide After, Sound, Volume.Counted, FatHeap.Heap, FatHeap.FreeSet;
    a := Perform(fs[i], op);
    forall j | 0 <= j < |fs| && j != i
      ensures fs[j].Valid() && Separate(fs[i], fs[j]) && Separate(fs[j], fs[i])
      ensures fs[j].Contents() == old(fs[j].Contents())
    {
    }
  }

  /** Any interleaving of operations on files of one volume answers exactly as if each of them were a flat
      byte sequence of its own; all they share is the number of free clusters. */
  method Run(vol: Volume, fs: seq<Handle>, ghost ts: seq<Flat>, ops: seq<(nat, Op)>) returns (log: seq<Answer>)
    requires Together(vol, fs) && Show(vol, fs, ts) && forall k :: 0 <= k < |ops| ==> ops[k].0 < |fs|
    requires vol.layout.ClusterSize() > 0
    modifies vol, vol.fat, vol.fat.data, fs
    ensures Together(vol, fs) && AllSound(vol.layout.ClusterSize(), ts)
    ensures var (answers, us) := AfterMany(vol.layout.ClusterSize(), ts, ops); log == answers && Show(vol, fs, us)
    ensures old(vol.Counted()) ==> vol.Counted()
  {
    ghost var cs, us := vol.layout.ClusterSize(), ts;
    assert AllSound(cs, ts);
    hide AfterOn, Show, AllSound, Volume.Counted, Handle.Valid, Handle.Size, Separate;
    log := [];
    for k := 0 to |ops|
      invariant Together(vol, fs) && Show(vol, fs, us) && (log, us) == AfterMany(cs, ts, ops[..k])
      invariant old(vol.Counted()) ==> vol.Counted()
    {
      OneMoreOn(cs, ts, ops, k);
      var a := PerformOn(vol, fs, us, ops[k].0, ops[k].1);
      us := AfterOn(cs, us, ops[k].0, ops[k].1).1;
      log := log + [a];
    }
    assert ops[..|ops|] == ops;
  }
}
