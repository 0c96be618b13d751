/** Whole runs on one open file, against a flat byte sequence with a cursor. */
module FileRuns {
  import opened Prelude
  import opened Blocks
  import opened FatHeap
  import opened FileSystem
  import opened FileCursor
  import opened File

  datatype Op = Read(len: nat) | Write(buf: seq<byte>) | Seek(pos: SeekFrom) | Truncate

  datatype Answer = Bytes(d: seq<byte>) | Count(n: nat) | At(p: nat) | Done | Fails(error: Error)

  /** Contents, position, how many clusters the file has, and how many are free. */
  datatype Flat = Flat(s: seq<byte>, p: nat, clusters: nat, free: nat)

  ghost predicate Sound(cs: nat, t: Flat) {
    t.p <= |t.s| <= Span(t.clusters, cs) && |t.s| <= MAX_FILE_SIZE
  }

  function SeekTarget(t: Flat, to: SeekFrom): int {
    match to
    case Start(n) => n
    case Current(d) => t.p + d
    case End(d) => |t.s| + d
  }

  /** What a flat file on clusters of `cs` bytes answers, and what becomes of it. */
  ghost function After(cs: nat, t: Flat, op: Op): (r: (Answer, Flat))
    requires cs > 0 && Sound(cs, t)
    ensures Sound(cs, r.1)
  {
    var rest := cs - Rem(t.p, cs);
    match op
    case Read(len) =>
      var n := Min(Min(len, rest), |t.s| - t.p);
      (Bytes(t.s[t.p..t.p + n]), t.(p := t.p + n))
    case Write(buf) =>
      var n := Min(Min(|buf|, rest), MAX_FILE_SIZE - t.p);
      var taken := if n > 0 && t.p == Span(t.clusters, cs) then 1 else 0;
      if taken > t.free then (Fails(NotEnoughSpace), t)
      else
        WriteFits(cs, t.p, n, t.clusters);
        (Count(n), Flat(Overwrite(t.s, t.p, buf[..n]), t.p + n, t.clusters + taken, t.free - taken))
    case Seek(to) =>
      var target := SeekTarget(t, to);
      if 0 <= target <= U32_MAX then (At(Min(target, |t.s|)), t.(p := Min(target, |t.s|)))
      else (Fails(InvalidInput), t)
    case Truncate =>
      var kept := ClustersFromBytes(t.p, cs);
      CutFits(cs, t.p, t.clusters);
      (Done, Flat(t.s[..t.p], t.p, kept, t.free + (t.clusters - kept)))
  }

  /** A write inside one cluster stays on the clusters there are, or on one more. */
  lemma WriteFits(cs: nat, p: nat, n: nat, clusters: nat)
    requires cs > 0 && p <= Span(clusters, cs) && n <= cs - Rem(p, cs)
    ensures p + n <= Span(if n > 0 && p == Span(clusters, cs) then clusters + 1 else clusters, cs)
  {
    PositionCases(p, clusters, cs);
  }

  lemma CutFits(cs: nat, p: nat, clusters: nat)
    requires cs > 0 && p <= Span(clusters, cs)
    ensures ClustersFromBytes(p, cs) <= clusters && p <= Span(ClustersFromBytes(p, cs), cs)
  {
    ClustersOf(p, cs);
    if p > 0 {
      IndexBelow(p - 1, clusters, cs);
      DivSpan(p - 1, cs);
    }
  }

  /** The same for a run of operations. */
  ghost function AfterAll(cs: nat, t: Flat, ops: seq<Op>): (r: (seq<Answer>, Flat))
    requires cs > 0 && Sound(cs, t)
    ensures |r.0| == |ops| && Sound(cs, r.1)
  {
    if ops == [] then ([], t)
    else
      var (log, u) := AfterAll(cs, t, Front(ops));
      var (a, v) := After(cs, u, Last(ops));
      (log + [a], v)
  }

  lemma OneMore(cs: nat, t: Flat, ops: seq<Op>, i: nat)
    requires cs > 0 && Sound(cs, t) && i < |ops|
    ensures var (log, u) := AfterAll(cs, t, ops[..i]);
      var (a, v) := After(cs, u, ops[i]);
      AfterAll(cs, t, ops[..i + 1]) == (log + [a], v)
  {
    assert Front(ops[..i + 1]) == ops[..i];
  }

  /** Whatever the cluster size, nothing goes missing: a read gives bytes unless it stands at the end,
      a write takes bytes unless the file is as large as it can be, and fails only when nothing is
      free; clusters are never lost. */
  lemma AnyClusterSize(cs: nat, t: Flat, op: Op)
    requires cs > 0 && Sound(cs, t)
    ensures var (a, u) := After(cs, t, op);
      && u.clusters + u.free == t.clusters + t.free
      && (op.Read? && a == Bytes([]) ==> op.len == 0 || t.p == |t.s|)
      && (op.Write? && a == Count(0) ==> op.buf == [] || t.p == MAX_FILE_SIZE)
      && (op.Write? && a.Fails? ==> t.free == 0 && u == t)
  {
    if op.Truncate? { CutFits(cs, t.p, t.clusters); }
  }

  /** An open file, seen as a flat one. */
  ghost function Seen(f: Handle): (t: Flat)
    requires f.Valid() && f.Size().Some?
    reads f, f.fs, f.fs.fat, f.fs.fat.data
    ensures f.ClusterSize() > 0 && Sound(f.ClusterSize(), t)
  {
    Flat(f.Contents(), f.offset, |f.chain|, |FreeSet(f.fs.fat.Map())|)
  }

  /** The chain is none that other files had. */
  twostate predicate OwnChain(f: Handle)
    reads f, f.fs
  {
    f.chain == old(f.chain) || f.chain !in old(f.fs.chains)
  }

  /** The operation answers like a flat file, and all other files are left alone. */
  twostate predicate Performed(f: Handle, op: Op, a: Answer)
    requires old(f.Valid() && f.Size().Some?) && f.Valid() && f.Size().Some?
    reads f, f.fs, f.fs.fat, f.fs.fat.data
  {
    && (a, Seen(f)) == After(f.ClusterSize(), old(Seen(f)), op)
    && f.OthersKept() && OwnChain(f)
    && (old(f.fs.Counted()) ==> f.fs.Counted())
  }

  method PerformWrite(f: Handle, buf: seq<byte>) returns (a: Answer)
    requires f.Valid() && f.Size().Some?
    modifies f, f.fs, f.fs.fat, f.fs.fat.data
    ensures f.Valid() && f.Size().Some? && Performed(f, Op.Write(buf), a)
  {
    hide Overwrite, Rem, Quot, Span, ClustersFromBytes, FreeSet, Volume.Valid, FileCursor.OthersKept;
    var r, _ := f.Write(buf);
    a := if r.Success? then Count(r.value) else Fails(r.error);
  }

  /** Cutting at the position frees exactly the clusters behind it. */
  lemma FreedByCut(f: Handle)
    requires f.Valid() && f.ClusterSize() > 0
    ensures var kept := ClustersFromBytes(f.offset, f.ClusterSize());
      var free := FreeSet(f.fs.fat.Map());
      kept <= |f.chain| && |free + Elements(f.chain[kept..])| == |free| + (|f.chain| - kept)
  {
    var kept := ClustersFromBytes(f.offset, f.ClusterSize());
    var free := FreeSet(f.fs.fat.Map());
    CutFits(f.ClusterSize(), f.offset, |f.chain|);
    if f.chain == [] {
      assert free + Elements(f.chain[kept..]) == free;
    } else {
      ReleasedCount(f.fs.fat.Map(), f.chain, kept);
    }
  }

  method PerformTruncate(f: Handle) returns (a: Answer)
    requires f.Valid() && f.Size().Some?
    modifies f, f.fs, f.fs.fat, f.fs.fat.data
    ensures f.Valid() && f.Size().Some? && Performed(f, Op.Truncate, a)
  {
    hide Overwrite, Rem, Quot, Span, ClustersFromBytes, FreeSet, Volume.Valid, FileCursor.OthersKept;
    FreedByCut(f);
    hide Elements, Volume.Counted, Handle.Consistent;
    f.Truncate();
    a := Done;
  }

  method PerformRead(f: Handle, len: nat) returns (a: Answer)
    requires f.Valid() && f.Size().Some?
    modifies f, f.fs, f.fs.fat, f.fs.fat.data
    ensures f.Valid() && f.Size().Some? && Performed(f, Op.Read(len), a)
  {
    OthersUntouched(f.fs.fat.Map(), f.fs.layout.Area(), f.fs.disk, f.fs.chains, f.fs.chains, f.chain);
    hide Overwrite, Rem, Quot, Span, ClustersFromBytes, FreeSet, Volume.Valid, FileCursor.OthersKept;
    var d := f.Read(len);
    a := Bytes(d);
  }

  method PerformSeek(f: Handle, to: SeekFrom) returns (a: Answer)
    requires f.Valid() && f.Size().Some?
    modifies f, f.fs, f.fs.fat, f.fs.fat.data
    ensures f.Valid() && f.Size().Some? && Performed(f, Op.Seek(to), a)
  {
    OthersUntouched(f.fs.fat.Map(), f.fs.layout.Area(), f.fs.disk, f.fs.chains, f.fs.chains, f.chain);
    hide Overwrite, Rem, Quot, Span, ClustersFromBytes, FreeSet, Volume.Valid, FileCursor.OthersKept;
    var r := f.Seek(to);
    a := if r.Success? then At(r.value) else Fails(r.error);
  }

  method Perform(f: Handle, op: Op) returns (a: Answer)
    requires f.Valid() && f.Size().Some?
    modifies f, f.fs, f.fs.fat, f.fs.fat.data
    ensures f.Valid() && f.Size().Some? && Performed(f, op, a)
  {
    hide After, Sound, Volume.Valid, FileCursor.OthersKept;
    match op
    case Read(len) => a := PerformRead(f, len);
    case Write(buf) => a := PerformWrite(f, buf);
    case Seek(to) => a := PerformSeek(f, to);
    case Truncate => a := PerformTruncate(f);
  }

  /** Any run of reads, writes, seeks and truncations of a file, with any cluster size, answers
      exactly as a flat byte sequence would, leaves the bytes of all other files alone, and keeps the
      count of free clusters right. */
  method Run(f: Handle, ops: seq<Op>) returns (log: seq<Answer>)
    requires f.Valid() && f.Size().Some?
    modifies f, f.fs, f.fs.fat, f.fs.fat.data
    ensures f.Valid() && f.Size().Some?
    ensures (log, Seen(f)) == AfterAll(f.ClusterSize(), old(Seen(f)), ops)
    ensures f.OthersKept() && OwnChain(f)
    ensures old(f.fs.Counted()) ==> f.fs.Counted()
  {
    log := [];
    ghost var cs, t := f.ClusterSize(), Seen(f);
    OthersUntouched(f.fs.fat.Map(), f.fs.layout.Area(), f.fs.disk, f.fs.chains, f.fs.chains, f.chain);
    hide After, Sound;
    for i := 0 to |ops|
      invariant f.Valid() && f.Size().Some?
      invariant (log, Seen(f)) == AfterAll(cs, t, ops[..i])
      invariant f.OthersKept() && OwnChain(f)
      invariant old(f.fs.Counted()) ==> f.fs.Counted()
    {
      ghost var disk, chains, chain := f.fs.disk, f.fs.chains, f.chain;
      OneMore(cs, t, ops, i);
      var a := Perform(f, ops[i]);
      OthersTwice(f.fs.layout.Area(), f.fs.fat.end, old(f.fs.disk), disk, f.fs.disk,
                  old(f.fs.chains), chains, f.fs.chains, old(f.chain), chain);
      log := log + [a];
    }
    assert ops[..|ops|] == ops;
  }
}
