/** A file handle: a cursor over a cluster chain that behaves as one flat byte sequence. */
module File {
  import opened Prelude
  import opened FatCodec
  import FatHeap
  import opened FatTable
  import opened ClusterSpace
  import opened Blocks
  import opened FileSystem
  import opened FileCursor

  const MAX_FILE_SIZE := U32_MAX

  /** The parts of a directory entry that a handle keeps up to date. */
  datatype Entry = Entry(isDir: bool, size: nat, firstCluster: Option<nat>)

  datatype SeekFrom = Start(pos: nat) | Current(delta: int) | End(delta: int)

  class Handle {
    const fs: Volume
    var firstCluster: Option<nat>
    var currentCluster: Option<nat>
    var offset: nat
    /** None for the root directory. */
    var entry: Option<Entry>
    /** The chain of clusters that holds the contents. */
    ghost var chain: seq<nat>

    /** Opens the file whose contents lie on `chain`, at position 0. */
    constructor (fs: Volume, firstCluster: Option<nat>, entry: Option<Entry>, ghost chain: seq<nat>)
      requires fs.Valid() && ChainInSpace(chain, fs.fat.end)
      requires chain != [] ==> chain in fs.chains
      requires firstCluster == if chain == [] then None else Some(chain[0])
      requires entry.Some? ==> entry.value.firstCluster == firstCluster
      requires entry.Some? && !entry.value.isDir ==>
        entry.value.size <= Span(|chain|, fs.layout.ClusterSize()) && entry.value.size <= MAX_FILE_SIZE
      ensures Valid() && offset == 0
      ensures this.fs == fs && this.chain == chain && this.entry == entry
    {
      this.fs, this.firstCluster, this.entry, this.chain := fs, firstCluster, entry, chain;
      currentCluster, offset := None, 0;
    }

    function ClusterSize(): nat {
      fs.layout.ClusterSize()
    }

    /** The recorded size; directories have none. */
    function Size(): Option<nat>
      reads this
    {
      if entry.Some? && !entry.value.isDir then Some(entry.value.size) else None
    }

    predicate IsDir()
      reads this
    {
      entry.Some? && entry.value.isDir
    }

    /** How far the contents reach. */
    ghost function Limit(): nat
      reads this
    {
      if Size().Some? then Size().value else Span(|chain|, ClusterSize())
    }

    /** The fields agree with each other and with the chain. */
    ghost predicate Consistent()
      reads this, fs`disk
    {
      && InPlace()
      && firstCluster == (if chain == [] then None else Some(chain[0]))
      && (entry.Some? ==> entry.value.firstCluster == firstCluster)
      && offset <= Limit() && offset <= MAX_FILE_SIZE && (Size().Some? ==> Limit() <= MAX_FILE_SIZE)
      && currentCluster == Under(chain, offset, ClusterSize())
    }

    ghost predicate Valid()
      reads this, fs, fs.fat, fs.fat.data
    {
      fs.Valid() && Consistent() && (chain != [] ==> chain in fs.chains)
    }

    /** The chain lies on the disk and is long enough for the contents. */
    ghost predicate InPlace()
      reads this, fs`disk
    {
      fs.HasRoom() && ChainInSpace(chain, fs.fat.end) && Limit() <= Span(|chain|, ClusterSize())
    }

    /** All bytes of the chain. */
    ghost function Bytes(): (r: seq<byte>)
      requires InPlace()
      reads this, fs`disk
      ensures |r| == Span(|chain|, ClusterSize())
    {
      fs.BytesOf(chain)
    }

    /** The contents of the file. */
    ghost function Contents(): (r: seq<byte>)
      requires InPlace()
      reads this, fs`disk
      ensures |r| == Limit()
    {
      Bytes()[..Limit()]
    }

    /** Where on the disk the position is; between clusters, behind the cluster before it. */
    function AbsPos(): Option<nat>
      requires ClusterSize() > 0 && (currentCluster.Some? ==> currentCluster.value >= RESERVED_FAT_ENTRIES)
      reads this
    {
      if currentCluster.None? then None
      else
        var o := Rem(offset, ClusterSize());
        Some(fs.layout.OffsetFromCluster(currentCluster.value) + if o == 0 then ClusterSize() else o)
    }

    /** The byte before the absolute position is the byte before the position in the contents. */
    lemma AbsPosFollowsLastByte()
      requires Valid()
      ensures ClusterSize() > 0 && (currentCluster.Some? ==> currentCluster.value >= RESERVED_FAT_ENTRIES)
      ensures AbsPos().Some? <==> offset > 0
      ensures offset > 0 ==>
        0 < AbsPos().value <= |fs.disk| && fs.disk[AbsPos().value - 1] == Contents()[offset - 1]
    {
      hide Volume.Valid, ChainBytes;
      if offset > 0 {
        var sp, cs := fs.layout.Area(), ClusterSize();
        var k, o := Quot(offset - 1, cs), Rem(offset - 1, cs);
        DivSpan(offset, cs);
        DivSpan(offset - 1, cs);
        PreviousByte(offset, cs);
        IndexBelow(offset - 1, |chain|, cs);
        ByteHere(sp, fs.disk, fs.fat.end, chain, offset - 1);
        ClusterOffset(fs.layout, chain[k]);
      }
    }

    /** The cluster after the current one, at a cluster boundary. */
    method NextCluster() returns (r: Option<nat>)
      requires Valid() && Rem(offset, ClusterSize()) == 0
      modifies fs.fat`pos
      ensures Valid() && fs.fat.Map() == old(fs.fat.Map())
      ensures r == if Quot(offset, ClusterSize()) < |chain| then Some(chain[Quot(offset, ClusterSize())]) else None
    {
      if currentCluster.None? {
        r := firstCluster;
      } else {
        ghost var k := Quot(offset, ClusterSize());
        PreviousByte(offset, ClusterSize());
        IndexBelow(offset - 1, |chain|, ClusterSize());
        FatHeap.HeapLinks(fs.fat.Map(), fs.chains);
        HeapInSpace(fs.fat.Map(), fs.chains, chain);
        ChainNext(fs.fat.Map(), chain, k - 1);
        var iter := new ClusterIterator(fs.fat, currentCluster.value);
        r := iter.Next();
      }
    }

    /** The cluster that holds the byte at the position, if the chain reaches that far. */
    method ClusterHere() returns (r: Option<nat>)
      requires Valid()
      modifies fs.fat`pos
      ensures Valid() && fs.fat.Map() == old(fs.fat.Map())
      ensures r.Some? ==> Quot(offset, ClusterSize()) < |chain| && r.value == chain[Quot(offset, ClusterSize())]
      ensures r.None? <==> offset == Span(|chain|, ClusterSize())
      ensures r.None? ==> Rem(offset, ClusterSize()) == 0
    {
      PositionCases(offset, |chain|, ClusterSize());
      if Rem(offset, ClusterSize()) == 0 {
        r := NextCluster();
      } else {
        UnderInside(chain, offset, ClusterSize());
        r := currentCluster;
      }
    }

    /** How many bytes a read delivers: as many as the current cluster and the file still hold. */
    ghost function ReadSize(len: nat): nat
      requires offset <= Limit() && ClusterSize() > 0
      reads this
    {
      Min(Min(len, ClusterSize() - Rem(offset, ClusterSize())), Limit() - offset)
    }

    /** Reads up to `len` bytes. */
    method Read(len: nat) returns (d: seq<byte>)
      requires Valid() && (Size().None? ==> Limit() <= MAX_FILE_SIZE)
      modifies this`offset, this`currentCluster, fs.fat`pos
      ensures Valid() && fs.fat.Map() == old(fs.fat.Map()) && Contents() == old(Contents())
      ensures |d| == old(ReadSize(len)) && offset == old(offset) + |d|
      ensures d == Contents()[old(offset)..offset]
      ensures d != [] ==> StandsOnDisk(fs.layout, fs.disk, chain, old(offset), d)
    {
      var current := ClusterHere();
      if current.None? {
        return [];
      }
      var cs := ClusterSize();
      var o := Rem(offset, cs);
      PositionCases(offset, |chain|, cs);
      var left := if Size().Some? then Size().value - offset else cs - o;
      var n := Min(Min(len, cs - o), left);
      assert n == ReadSize(len);
      if n == 0 {
        return [];
      }
      d := ReadHere(current.value, o, n);
    }

    /** Moves the position; the contents stay. */
    method MoveTo(newOffset: nat, cluster: Option<nat>)
      requires Valid() && newOffset <= Min(Limit(), MAX_FILE_SIZE)
      requires cluster == Under(chain, newOffset, ClusterSize())
      modifies this`offset, this`currentCluster
      ensures Valid() && offset == newOffset
      ensures Limit() == old(Limit()) && Contents() == old(Contents())
    {
      offset := newOffset;
      currentCluster := cluster;
    }

    /** Reads inside the cluster that holds the position, and moves past what was read. */
    method ReadHere(cluster: nat, o: nat, n: nat) returns (d: seq<byte>)
      requires Valid() && Quot(offset, ClusterSize()) < |chain| && cluster == chain[Quot(offset, ClusterSize())]
      requires o == Rem(offset, ClusterSize()) && 0 < n <= ClusterSize() - o
      requires offset + n <= Min(Limit(), MAX_FILE_SIZE)
      modifies this`offset, this`currentCluster
      ensures Valid() && offset == old(offset) + n && Contents() == old(Contents())
      ensures d == Contents()[old(offset)..offset]
      ensures StandsOnDisk(fs.layout, fs.disk, chain, old(offset), d)
    {
      hide StandsOnDisk, Cluster, ChainBytes;
      ReadOnDisk(fs.layout, fs.disk, fs.fat.end, chain, offset, n);
      ReadSlice(fs.layout.Area(), fs.disk, fs.fat.end, chain, Limit(), offset, n);
      d := fs.ReadInCluster(cluster, o, n);
      Advance(chain, offset, n, ClusterSize());
      MoveTo(offset + n, Some(cluster));
    }

    /** Follows the chain for up to `skip` links. */
    method Walk(skip: nat) returns (cluster: nat, steps: nat)
      requires Valid() && firstCluster.Some?
      modifies fs.fat`pos
      ensures Valid() && fs.fat.Map() == old(fs.fat.Map()) && chain != []
      ensures steps == Min(skip, |chain| - 1) && cluster == chain[steps]
    {
      FatHeap.HeapLinks(fs.fat.Map(), fs.chains);
      HeapInSpace(fs.fat.Map(), fs.chains, chain);
      cluster := firstCluster.value;
      steps := 0;
      var iter := new ClusterIterator(fs.fat, cluster);
      ghost var fat := fs.fat.Map();
      while steps < skip
        invariant Valid() && iter.Valid() && fs.fat.Map() == fat
        invariant steps <= skip && steps < |chain| && cluster == chain[steps] && iter.cluster == Some(cluster)
      {
        ChainNext(fat, chain, steps);
        var next := iter.Next();
        if next.None? {
          return;
        }
        cluster := next.value;
        steps := steps + 1;
      }
    }

    /** The position that a seek asks for. */
    function Target(pos: SeekFrom): Option<nat>
      reads this
    {
      var t: Option<int> := match pos
        case Start(x) => Some(x)
        case Current(d) => Some(offset + d)
        case End(d) => if Size().Some? then Some(Size().value + d) else None;
      if t.Some? && 0 <= t.value <= U32_MAX then Some(t.value) else None
    }

    /** Only positions that are 32-bit numbers are asked for, and none from the end where there is no size. */
    lemma TargetExactly(pos: SeekFrom)
      ensures Target(pos).None? <==>
        match pos
        case Start(x) => x > 0xFFFF_FFFF
        case Current(d) => offset + d < 0 || offset + d > 0xFFFF_FFFF
        case End(d) => IsDir() || entry.None? || entry.value.size + d < 0 || entry.value.size + d > 0xFFFF_FFFF
      ensures Target(pos).Some? ==>
        match pos
        case Start(x) => Target(pos).value == x
        case Current(d) => Target(pos).value == offset + d
        case End(d) => Target(pos).value == entry.value.size + d
    {
    }

    /** Moves to the asked position, or to the end of the contents where that is nearer. Fails
        exactly when the position is not a 32-bit number. */
    method Seek(pos: SeekFrom) returns (r: Result<nat>)
      requires Valid()
      modifies this`offset, this`currentCluster, fs.fat`pos
      ensures Valid() && fs.fat.Map() == old(fs.fat.Map()) && Contents() == old(Contents())
      ensures old(Target(pos)).None? ==> r == Failure(InvalidInput) && offset == old(offset)
      ensures old(Target(pos)).Some? ==>
        r == Success(offset) && offset == Min(old(Target(pos)).value, Limit())
    {
      hide Quot, Rem, Span, ClustersFromBytes, Volume.Valid, FatHeap.FreeSet;
      var target := Target(pos);
      if target.None? {
        return Failure(InvalidInput);
      }
      var cs := ClusterSize();
      var newOffset := target.value;
      if Size().Some? && newOffset > Size().value {
        newOffset := Size().value;
      }
      if newOffset == offset {
        return Success(offset);
      }
      var newClusters := ClustersFromBytes(newOffset, cs);
      var newCluster := None;
      if newOffset == 0 {
      } else if newClusters == ClustersFromBytes(offset, cs) {
        SameCluster(chain, offset, newOffset, cs);
        newCluster := currentCluster;
      } else if firstCluster.Some? {
        SkipCases(chain, newOffset, cs);
        var cluster, steps := Walk(newClusters - 1);
        if steps < newClusters - 1 {
          UnderEnd(chain, cs);
          newOffset := AsU32(Span(steps + 1, cs));
        }
        newCluster := Some(cluster);
      } else {
        newOffset := 0;
      }
      MoveTo(newOffset, newCluster);
      r := Success(offset);
    }

    /** Every other file of the volume still has its chain and its bytes. */
    twostate predicate OthersKept()
      requires old(fs.HasRoom())
      reads this, fs
    {
      FileCursor.OthersKept(fs.layout.Area(), fs.fat.end, old(fs.disk), fs.disk,
                            old(fs.chains), fs.chains, old(chain))
    }

    /** The chain has taken exactly one free cluster; or else it and the whole table are as before. */
    twostate predicate Grew(grew: bool)
      requires old(fs.Valid()) && fs.Valid()
      reads this, fs, fs.fat, fs.fat.data
    {
      if grew then
        && |chain| == |old(chain)| + 1 && chain[..|old(chain)|] == old(chain) && chain !in old(fs.chains)
        && chain[|old(chain)|] in FatHeap.FreeSet(old(fs.fat.Map()))
        && FatHeap.FreeSet(fs.fat.Map()) == FatHeap.FreeSet(old(fs.fat.Map())) - {chain[|old(chain)|]}
      else chain == old(chain) && fs.fat.Map() == old(fs.fat.Map())
    }

    /** What a new cluster holds: zeros for a directory that has an entry, and else what it held before,
        the disk being as it was but for what is written. */
    twostate predicate Filled(fill: seq<byte>)
      requires old(fs.HasRoom())
      reads this, fs`disk
    {
      if IsDir() then fill == Zeros(|fill|)
      else fill != [] ==>
        && chain != [] && InSpace(chain[|chain| - 1], fs.fat.end)
        && fill == Cluster(fs.layout.Area(), old(fs.disk), fs.fat.end, chain[|chain| - 1])
    }

    /** The disk is as before, but that the new cluster `c` of a directory with an entry is cleared. */
    twostate predicate Prepared(c: nat, grew: bool)
      requires old(fs.HasRoom()) && (grew ==> InSpace(c, fs.fat.end))
      reads this, fs`disk
    {
      fs.disk == if grew && IsDir() then Poke(fs.layout.Area(), old(fs.disk), fs.fat.end, c, 0, Zeros(ClusterSize()))
                 else old(fs.disk)
    }

    /** The first `kept` clusters of the chain still reach the position. */
    ghost predicate Reaches(kept: nat)
      requires ClusterSize() > 0
      reads this
    {
      kept <= |chain| && (if offset == 0 then kept == 0 else kept == Quot(offset - 1, ClusterSize()) + 1)
    }

    /** Records that the file ends at the position, on the first `kept` clusters. */
    method RecordCut(ghost kept: nat)
      requires Consistent() && Size().Some? && Reaches(kept)
      modifies this`chain, this`firstCluster, this`entry
      ensures Consistent() && chain == old(chain)[..kept] && Size() == Some(offset)
      ensures Contents() == old(Contents())[..offset]
    {
      ghost var limit := Limit();
      entry := Some(entry.value.(size := offset));
      if offset == 0 {
        entry := Some(entry.value.(firstCluster := None));
        firstCluster := None;
      } else {
        UnderPrefix(chain, offset, ClusterSize());
      }
      CutSlice(fs.layout.Area(), fs.disk, fs.fat.end, chain, limit, kept, offset);
      chain := chain[..kept];
    }

    /** Cuts the file at the position: the clusters up to it are kept and all others become free. */
    method Truncate()
      requires Valid() && Size().Some?
      modifies this`chain, this`firstCluster, this`entry, fs, fs.fat, fs.fat.data
      ensures Valid() && Size() == Some(offset)
      ensures Contents() == old(Contents())[..offset]
      ensures var kept := ClustersFromBytes(offset, ClusterSize());
        && kept <= |old(chain)| && chain == old(chain)[..kept]
        && FatHeap.FreeSet(fs.fat.Map()) == FatHeap.FreeSet(old(fs.fat.Map())) + Elements(old(chain)[kept..])
      ensures fs.disk == old(fs.disk)
      ensures OthersKept() && (chain == old(chain) || chain !in old(fs.chains))
      ensures old(fs.Counted()) ==> fs.Counted()
    {
      hide FatHeap.Heap, FatHeap.FreeSet, FileCursor.OthersKept, ChainBytes, Volume.Counted, Quot, Rem;
      ghost var fat, disk, chains, was := fs.fat.Map(), fs.disk, fs.chains, chain;
      ClustersOf(offset, ClusterSize());
      if offset > 0 { IndexBelow(offset - 1, |chain|, ClusterSize()); }
      if chain != [] { PrefixIsNew(fat, chains, chain, ClustersFromBytes(offset, ClusterSize())); }
      if currentCluster.Some? {
        ghost var k := Quot(offset - 1, ClusterSize());
        UnderPrefix(chain, offset, ClusterSize());
        fs.TruncateClusterChain(currentCluster.value, chain, k);
        RecordCut(k + 1);
      } else {
        assert chain[0..] == chain;
        if firstCluster.Some? {
          fs.FreeClusterChain(firstCluster.value, chain);
        }
        RecordCut(0);
      }
      OthersUntouched(fat, fs.layout.Area(), disk, chains, fs.chains, was);
    }

    /** Records that the chain has grown by cluster `c`. */
    method AppendToChain(c: nat)
      requires Consistent() && offset == Span(|chain|, ClusterSize()) && InSpace(c, fs.fat.end)
      modifies this`chain, this`firstCluster, this`entry
      ensures Consistent() && chain == old(chain) + [c]
      ensures Size() == old(Size()) && IsDir() == old(IsDir())
    {
      GrowUnder(chain, offset, c, ClusterSize());
      chain := chain + [c];
      if firstCluster.None? {
        firstCluster := Some(c);
        if entry.Some? {
          entry := Some(entry.value.(firstCluster := firstCluster));
        }
      }
    }

    /** Takes a new cluster at the end of the chain; `fill` are the bytes it holds. */
    method TakeCluster() returns (r: Result<nat>, ghost fill: seq<byte>)
      requires Valid() && offset == Span(|chain|, ClusterSize())
      modifies this`chain, this`firstCluster, this`entry, fs, fs.fat, fs.fat.data
      ensures Valid() && Size() == old(Size()) && IsDir() == old(IsDir())
      ensures r.Failure? <==> FatHeap.FreeSet(old(fs.fat.Map())) == {}
      ensures r.Failure? ==> r.error == NotEnoughSpace && Bytes() == old(Bytes()) && chain == old(chain)
      ensures r.Success? ==> Bytes() == old(Bytes()) + fill && |fill| == ClusterSize()
      ensures r.Success? ==> chain == old(chain) + [r.value]
      ensures Grew(r.Success?)
      ensures r.Success? ==> Filled(fill) && (!IsDir() ==> fs.disk == old(fs.disk))
      ensures (r.Success? ==> InSpace(r.value, fs.fat.end)) && Prepared(if r.Success? then r.value else 0, r.Success?)
      ensures OthersKept()
      ensures old(fs.Counted()) ==> fs.Counted()
    {
      hide FatHeap.Heap, FatHeap.FreeSet, Cluster, ChainBytes, Poke, Zeros, Volume.Counted, Quot, Rem,
        FileCursor.OthersKept;
      ghost var fat, sp, disk, chains := fs.fat.Map(), fs.layout.Area(), fs.disk, fs.chains;
      if chain != [] { UnderEnd(chain, ClusterSize()); }
      r := fs.AllocCluster(currentCluster, IsDir(), chain);
      fill := [];
      if r.Failure? {
        OthersUntouched(fat, sp, disk, chains, chains, chain);
      } else {
        assert chain == [] ==> chain + [r.value] == [r.value];
        TakingGrows(fat, sp, disk, fs.disk, chains, fs.chains, chain, r.value, IsDir());
        fill := Cluster(sp, fs.disk, fs.fat.end, r.value);
        AppendToChain(r.value);
      }
    }

    /** The cluster that a write at the position goes to: the one that holds it, or at the end of
        the chain a new one. */
    method ClusterForWrite() returns (r: Result<nat>, ghost fill: seq<byte>)
      requires Valid()
      modifies this`chain, this`firstCluster, this`entry, fs, fs.fat, fs.fat.data
      ensures Valid() && Size() == old(Size()) && IsDir() == old(IsDir())
      ensures r.Failure? <==> old(offset == Span(|chain|, ClusterSize()) && FatHeap.FreeSet(fs.fat.Map()) == {})
      ensures r.Failure? ==> r.error == NotEnoughSpace && Bytes() == old(Bytes())
      ensures r.Success? ==> Bytes() == old(Bytes()) + fill
      ensures r.Success? ==> |fill| == if old(offset == Span(|chain|, ClusterSize())) then ClusterSize() else 0
      ensures r.Success? ==> Quot(offset, ClusterSize()) < |chain| && r.value == chain[Quot(offset, ClusterSize())]
      ensures r.Success? ==> Filled(fill)
      ensures r.Success? ==> InSpace(r.value, fs.fat.end)
      ensures Prepared(if r.Success? then r.value else 0, r.Success? && old(offset == Span(|chain|, ClusterSize())))
      ensures OthersKept()
      ensures Grew(r.Success? && old(offset == Span(|chain|, ClusterSize())))
      ensures old(fs.Counted()) ==> fs.Counted()
    {
      var current := ClusterHere();
      if current.Some? {
        OthersUntouched(fs.fat.Map(), fs.layout.Area(), fs.disk, fs.chains, fs.chains, chain);
        return Success(current.value), [];
      }
      GrowUnder(chain, offset, 0, ClusterSize());
      r, fill := TakeCluster();
    }

    /** Writes `d` inside the cluster that holds the position. */
    method WriteHere(cluster: nat, o: nat, d: seq<byte>)
      requires Valid() && Quot(offset, ClusterSize()) < |chain| && cluster == chain[Quot(offset, ClusterSize())]
      requires o == Rem(offset, ClusterSize()) && |d| <= ClusterSize() - o
      modifies fs`disk
      ensures Valid() && offset + |d| <= Span(|chain|, ClusterSize())
      ensures Bytes() == Splice(old(Bytes()), offset, d)
      ensures InSpace(cluster, fs.fat.end) && fs.disk == Poke(fs.layout.Area(), old(fs.disk), fs.fat.end, cluster, o, d)
      ensures OthersKept()
    {
      ghost var fat, sp, disk := fs.fat.Map(), fs.layout.Area(), fs.disk;
      HeapInSpace(fat, fs.chains, chain);
      PokeHere(sp, disk, fs.fat.end, chain, offset, d);
      PokeOthers(fat, sp, disk, fs.chains, chain, cluster, o, d);
      fs.WriteInCluster(cluster, o, d);
    }

    /** Moves past `n` written bytes and records a larger size. */
    method AdvanceBy(n: nat, cluster: nat)
      requires Valid() && Quot(offset, ClusterSize()) < |chain| && cluster == chain[Quot(offset, ClusterSize())]
      requires 0 < n <= ClusterSize() - Rem(offset, ClusterSize()) && offset + n <= MAX_FILE_SIZE
      modifies this`offset, this`currentCluster, this`entry
      ensures Valid() && offset == old(offset) + n && Bytes() == old(Bytes())
      ensures Size() == if old(Size()).Some? then Some(Max(old(Size()).value, offset)) else None
      ensures IsDir() == old(IsDir())
    {
      Advance(chain, offset, n, ClusterSize());
      offset := offset + n;
      currentCluster := Some(cluster);
      if Size().Some? && offset > Size().value {
        entry := Some(entry.value.(size := offset));
      }
    }

    /** How many bytes a write can take: the rest of the cluster, up to the largest file size. */
    function WriteSize(len: nat): nat
      requires offset <= MAX_FILE_SIZE && ClusterSize() > 0
      reads this
    {
      Min(Min(len, ClusterSize() - Rem(offset, ClusterSize())), MAX_FILE_SIZE - offset)
    }

    /** Writes all of `d`, which fits the cluster at the position. */
    method WriteSome(d: seq<byte>) returns (r: Result<nat>, ghost fill: seq<byte>)
      requires Valid() && 0 < |d| <= ClusterSize() - Rem(offset, ClusterSize()) && offset + |d| <= MAX_FILE_SIZE
      modifies this, fs, fs.fat, fs.fat.data
      ensures Valid() && OthersKept()
      ensures r.Failure? <==> old(offset == Span(|chain|, ClusterSize()) && FatHeap.FreeSet(fs.fat.Map()) == {})
      ensures r.Failure? ==> r.error == NotEnoughSpace && offset == old(offset)
      ensures r.Failure? ==> Bytes() == old(Bytes()) && Size() == old(Size())
      ensures r.Success? ==> r.value == |d| && offset == old(offset) + |d|
      ensures r.Success? ==>
        offset <= |old(Bytes()) + fill| && Bytes() == Splice(old(Bytes()) + fill, old(offset), d)
      ensures r.Success? ==> Size() == if old(Size()).Some? then Some(Max(old(Size()).value, offset)) else None
      ensures r.Success? ==> |fill| == if old(offset == Span(|chain|, ClusterSize())) then ClusterSize() else 0
      ensures IsDir() == old(IsDir())
      ensures r.Success? ==>
        WrittenOnDisk(fs.layout, old(fs.disk), fs.disk, chain, old(offset), d, fill != [] && IsDir())
      ensures r.Failure? ==> fs.disk == old(fs.disk)
      ensures r.Success? ==> Filled(fill)
      ensures Grew(r.Success? && old(offset == Span(|chain|, ClusterSize())))
      ensures old(fs.Counted()) ==> fs.Counted()
    {
      hide Quot, Rem, Span, Volume.Valid, FatHeap.FreeSet, FileCursor.OthersKept, Splice, Poke, WrittenOnDisk, Zeros,
        Under;
      r, fill := ClusterForWrite();
      if r.Failure? {
        return;
      }
      var cluster := r.value;
      ghost var disk := fs.disk;
      PokeOnDisk(fs.layout, old(fs.disk), fs.fat.end, chain, offset, d, fill != [] && IsDir());
      WriteHere(cluster, Rem(offset, ClusterSize()), d);
      OthersTwice(fs.layout.Area(), fs.fat.end, old(fs.disk), disk, fs.disk,
                  old(fs.chains), fs.chains, fs.chains, old(chain), chain);
      AdvanceBy(|d|, cluster);
      r := Success(|d|);
    }

    /** The same, seen from the contents. */
    method WriteChunk(d: seq<byte>) returns (r: Result<nat>, ghost fill: seq<byte>)
      requires Valid() && 0 < |d| <= ClusterSize() - Rem(offset, ClusterSize()) && offset + |d| <= MAX_FILE_SIZE
      modifies this, fs, fs.fat, fs.fat.data
      ensures Valid() && OthersKept()
      ensures r.Failure? <==> old(offset == Span(|chain|, ClusterSize()) && FatHeap.FreeSet(fs.fat.Map()) == {})
      ensures r.Failure? ==> r.error == NotEnoughSpace && offset == old(offset) && Contents() == old(Contents())
      ensures r.Success? ==> r.value == |d| && offset == old(offset) + |d|
      ensures r.Success? && Size().Some? ==> Contents() == Overwrite(old(Contents()), old(offset), d)
      ensures r.Success? && Size().None? ==> offset <= |old(Contents()) + fill|
      ensures r.Success? && Size().None? ==> Contents() == Splice(old(Contents()) + fill, old(offset), d)
      ensures r.Success? ==> |fill| == if old(offset == Span(|chain|, ClusterSize())) then ClusterSize() else 0
      ensures Size().Some? == old(Size()).Some? && IsDir() == old(IsDir())
      ensures r.Success? ==>
        WrittenOnDisk(fs.layout, old(fs.disk), fs.disk, chain, old(offset), d, fill != [] && IsDir())
      ensures r.Failure? ==> fs.disk == old(fs.disk)
      ensures r.Success? ==> Filled(fill)
      ensures Grew(r.Success? && old(offset == Span(|chain|, ClusterSize())))
      ensures old(fs.Counted()) ==> fs.Counted()
    {
      hide Quot, Rem, Span, Volume.Valid, FatHeap.FreeSet, FileCursor.OthersKept, Splice, Overwrite;
      ghost var was, limit := Bytes(), Limit();
      r, fill := WriteSome(d);
      if r.Success? {
        if Size().Some? {
          WrittenContents(was, fill, limit, old(offset), d);
        } else {
          assert was[..limit] == was && Contents() == Bytes();
        }
      }
    }

    /** Writes the first bytes of `buf` at the position, taking a new cluster (with the bytes
        `fill`) at the end of the chain. Fails exactly when it needs one and none is free. */
    method Write(buf: seq<byte>) returns (r: Result<nat>, ghost fill: seq<byte>)
      requires Valid()
      modifies this, fs, fs.fat, fs.fat.data
      ensures Valid() && OthersKept()
      ensures r.Failure? <==>
        old(WriteSize(|buf|) > 0 && offset == Span(|chain|, ClusterSize()) && FatHeap.FreeSet(fs.fat.Map()) == {})
      ensures r.Failure? ==> r.error == NotEnoughSpace && offset == old(offset) && Contents() == old(Contents())
      ensures r.Success? ==> r.value == old(WriteSize(|buf|)) && offset == old(offset) + r.value
      ensures r.Success? && Size().Some? ==> Contents() == Overwrite(old(Contents()), old(offset), buf[..r.value])
      ensures r.Success? && Size().None? ==> offset <= |old(Contents()) + fill|
      ensures r.Success? && Size().None? ==> Contents() == Splice(old(Contents()) + fill, old(offset), buf[..r.value])
      ensures r.Success? ==>
        |fill| == if r.value > 0 && old(offset == Span(|chain|, ClusterSize())) then ClusterSize() else 0
      ensures Size().Some? == old(Size()).Some? && IsDir() == old(IsDir())
      ensures r.Success? && r.value > 0 ==>
        WrittenOnDisk(fs.layout, old(fs.disk), fs.disk, chain, old(offset), buf[..r.value], fill != [] && IsDir())
      ensures r.Failure? || r.value == 0 ==> fs.disk == old(fs.disk)
      ensures r.Success? ==> Filled(fill)
      ensures Grew(r.Success? && r.value > 0 && old(offset == Span(|chain|, ClusterSize())))
      ensures old(fs.Counted()) ==> fs.Counted()
    {
      var n := WriteSize(|buf|);
      if n == 0 {
        OthersUntouched(fs.fat.Map(), fs.layout.Area(), fs.disk, fs.chains, fs.chains, chain);
        EmptyWrite(Contents(), offset);
        return Success(0), [];
      }
      r, fill := WriteChunk(buf[..n]);
    }
  }

  lemma EmptyWrite<T>(s: seq<T>, i: nat)
    requires i <= |s|
    ensures Splice(s, i, []) == s && s + [] == s && Overwrite(s, i, []) == s
  {
  }

  /** The first bytes of a written chain are the overwritten first bytes. */
  lemma WrittenContents(was: seq<byte>, fill: seq<byte>, limit: nat, offset: nat, d: seq<byte>)
    requires offset <= limit <= |was| && offset + |d| <= |was + fill|
    ensures Max(limit, offset + |d|) <= |was + fill|
    ensures Splice(was + fill, offset, d)[..Max(limit, offset + |d|)] == Overwrite(was[..limit], offset, d)
  {
  }

  /** Growing a chain at its end leaves the cluster under the position and puts the new one there
      for the next byte. */
  lemma GrowUnder(chain: seq<nat>, offset: nat, c: nat, cs: nat)
    requires cs > 0 && offset == Span(|chain|, cs)
    ensures Under(chain + [c], offset, cs) == Under(chain, offset, cs)
    ensures Quot(offset, cs) == |chain|
  {
    IndexOfSpan(offset, |chain|, cs, 0);
    if offset > 0 { IndexBelow(offset - 1, |chain|, cs); }
  }

  /** A cast to 32 bits. */
  function AsU32(n: nat): nat {
    if n <= U32_MAX then n else n % 0x1_0000_0000
  }
}
