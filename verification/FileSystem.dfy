/** A mounted volume: the allocation table, its cached counters and the data area. */
module FileSystem {
  import opened Prelude
  import opened FatCodec
  import opened FatHeap
  import opened FatTable
  import opened ClusterSpace
  import opened Blocks

  const TWO_32: nat := 0x1_0000_0000

  lemma FewFree(fat: Fat)
    ensures |FreeSet(fat)| <= |fat|
  {
    FewBelow(fat, |fat|);
    assert FreeBelow(fat, |fat|) == FreeSet(fat);
  }

  lemma FreeIsCluster(fat: Fat, c: nat)
    requires c in FreeSet(fat)
    ensures RESERVED_FAT_ENTRIES <= c < |fat|
  {
  }

  lemma {:induction false} FewBelow(fat: Fat, n: nat)
    requires n <= |fat|
    ensures |FreeBelow(fat, n)| <= n
  {
    if n > RESERVED_FAT_ENTRIES {
      FewBelow(fat, n - 1);
      FreeBelowStep(fat, n - 1);
    } else {
      assert FreeBelow(fat, n) == {};
    }
  }

  class Volume {
    const layout: Layout
    const fat: Table
    /** The storage, as the bytes it holds. */
    var disk: seq<byte>
    var freeClusterCount: Option<nat>
    var nextFreeCluster: Option<nat>
    /** The chains that the table consists of. */
    ghost var chains: set<seq<nat>>

    constructor (layout: Layout, fat: Table, disk: seq<byte>, ghost chains: set<seq<nat>>)
      requires fat.Valid() && Heap(fat.Map(), chains)
      requires Fits(layout.Area(), |disk|, fat.end)
      ensures Valid() && Counted() && this.chains == chains
      ensures this.layout == layout && this.fat == fat && this.disk == disk
    {
      this.layout, this.fat, this.disk := layout, fat, disk;
      this.freeClusterCount, this.nextFreeCluster := None, None;
      this.chains := chains;
    }

    ghost predicate HasRoom()
      reads this`disk
    {
      Fits(layout.Area(), |disk|, fat.end)
    }

    ghost predicate Valid()
      reads this, fat, fat.data
    {
      fat.Valid() && Heap(fat.Map(), chains) && HasRoom()
    }

    /** The cached number of free clusters, if any, is the number of free entries. */
    ghost predicate Counted()
      requires Valid()
      reads this, fat, fat.data
    {
      freeClusterCount.Some? ==> freeClusterCount.value == |FreeSet(fat.Map())|
    }

    /** The bytes of a chain. */
    ghost function BytesOf(ch: seq<nat>): (r: seq<byte>)
      requires HasRoom() && ChainInSpace(ch, fat.end)
      reads this`disk
      ensures |r| == Span(|ch|, layout.ClusterSize())
    {
      ChainBytes(layout.Area(), disk, fat.end, ch)
    }

    /** Writes bytes inside one cluster. */
    method WriteInCluster(c: nat, o: nat, d: seq<byte>)
      requires Valid() && InSpace(c, fat.end) && o + |d| <= layout.ClusterSize()
      modifies this`disk
      ensures Valid()
      ensures disk == Poke(layout.Area(), old(disk), fat.end, c, o, d)
    {
      ClusterFits(layout.Area(), disk, fat.end, c);
      ClusterOffset(layout, c);
      disk := Splice(disk, layout.OffsetFromCluster(c) + o, d);
    }

    method ReadInCluster(c: nat, o: nat, n: nat) returns (d: seq<byte>)
      requires Valid() && InSpace(c, fat.end) && o + n <= layout.ClusterSize()
      ensures d == Cluster(layout.Area(), disk, fat.end, c)[o..o + n]
    {
      ClusterFits(layout.Area(), disk, fat.end, c);
      ClusterOffset(layout, c);
      var start := layout.OffsetFromCluster(c) + o;
      SliceOfSlice(disk, layout.OffsetFromCluster(c), layout.OffsetFromCluster(c) + layout.ClusterSize(), o, n);
      d := disk[start..start + n];
    }

    /** Adds to the cached count, where it is known, on 32 bits. */
    method AddToFreeCount(n: nat)
      requires n < TWO_32
      modifies this`freeClusterCount
      ensures freeClusterCount.Some? <==> old(freeClusterCount).Some?
      ensures freeClusterCount.Some? ==>
        var sum := old(freeClusterCount).value + n;
        freeClusterCount.value == if sum < TWO_32 then sum else sum % TWO_32
    {
      if freeClusterCount.Some? {
        var sum := freeClusterCount.value + n;
        freeClusterCount := Some(if sum < TWO_32 then sum else sum % TWO_32);
      }
    }

    /** Subtracts one from the cached count, where it is known, on 32 bits. */
    method TakeFromFreeCount()
      modifies this`freeClusterCount
      ensures freeClusterCount.Some? <==> old(freeClusterCount).Some?
      ensures freeClusterCount.Some? ==>
        var n := old(freeClusterCount).value;
        freeClusterCount.value == if n > 0 then n - 1 else TWO_32 - 1
    {
      if freeClusterCount.Some? {
        var n := freeClusterCount.value;
        freeClusterCount := Some(if n > 0 then n - 1 else TWO_32 - 1);
      }
    }

    /** Allocates a cluster and appends it to the chain `ch`, whose last cluster is `prev`, or makes
        it a chain of its own. Fails, changing nothing, exactly when no cluster is free. */
    method AllocCluster(prev: Option<nat>, zero: bool, ghost ch: seq<nat>) returns (r: Result<nat>)
      requires Valid()
      requires prev.Some? ==> ch in chains && ch != [] && prev.value == ch[|ch| - 1]
      modifies this, fat, fat.data
      ensures Valid()
      ensures r == match Pick(old(fat.Map()), old(nextFreeCluster))
                   case Some(c) => Success(c)
                   case None => Failure(NotEnoughSpace)
      ensures r.Failure? <==> FreeSet(old(fat.Map())) == {}
      ensures r.Failure? ==> fat.Map() == old(fat.Map()) && chains == old(chains) && disk == old(disk)
      ensures r.Success? ==> InSpace(r.value, fat.end) && r.value in FreeSet(old(fat.Map()))
      ensures r.Success? ==> FreeSet(fat.Map()) == FreeSet(old(fat.Map())) - {r.value}
      ensures r.Success? ==> Takes(old(fat.Map()), old(nextFreeCluster), r.value)
      ensures nextFreeCluster == if r.Success? then Some(r.value + 1) else old(nextFreeCluster)
      ensures freeClusterCount.Some? == old(freeClusterCount).Some?
      ensures r.Success? && prev.Some? ==> chains == old(chains) - {ch} + {ch + [r.value]}
      ensures r.Success? && prev.None? ==> chains == old(chains) + {[r.value]}
      ensures r.Success? && !zero ==> disk == old(disk)
      ensures r.Success? && zero ==>
        disk == Poke(layout.Area(), old(disk), fat.end, r.value, 0, Zeros(layout.ClusterSize()))
      ensures old(Counted()) ==> Counted()
    {
      hide Takes, FreeSet, AllocIn, Pick, RawAt, Stored, AllChains, Disjoint, Exact, Poke;
      AllocEffect(fat.Map(), chains, ch, prev, nextFreeCluster);
      r := fat.AllocCluster(prev, nextFreeCluster);
      if r.Failure? {
        return;
      }
      FreeIsCluster(old(fat.Map()), r.value);
      chains := if prev.Some? then chains - {ch} + {ch + [r.value]} else chains + {[r.value]};
      if zero {
        WriteInCluster(r.value, 0, Zeros(layout.ClusterSize()));
      }
      nextFreeCluster := Some(r.value + 1);
      TakeFromFreeCount();
    }

    /** Cuts the chain `ch` after its cluster number `k`. */
    method TruncateClusterChain(cluster: nat, ghost ch: seq<nat>, ghost k: nat)
      requires Valid() && ch in chains && k < |ch| && cluster == ch[k]
      modifies this, fat, fat.data
      ensures Valid()
      ensures chains == old(chains) - {ch} + {ch[..k + 1]} && disk == old(disk)
      ensures FreeSet(fat.Map()) == FreeSet(old(fat.Map())) + Elements(ch[k + 1..])
      ensures nextFreeCluster == old(nextFreeCluster) && freeClusterCount.Some? == old(freeClusterCount).Some?
      ensures old(Counted()) ==> Counted()
    {
      hide FreeSet, ReleaseFrom, Released, Trail, TruncateAt, AllChains, Disjoint, Exact;
      TruncateEffect(fat.Map(), chains, ch, k);
      var iter := new ClusterIterator(fat, cluster);
      var numFree := iter.Truncate();
      chains := chains - {ch} + {ch[..k + 1]};
      AddToFreeCount(numFree);
    }

    /** Frees the chain `ch`, which starts at `cluster`. */
    method FreeClusterChain(cluster: nat, ghost ch: seq<nat>)
      requires Valid() && ch in chains && ch != [] && cluster == ch[0]
      modifies this, fat, fat.data
      ensures Valid()
      ensures chains == old(chains) - {ch} && disk == old(disk)
      ensures FreeSet(fat.Map()) == FreeSet(old(fat.Map())) + Elements(ch)
      ensures nextFreeCluster == old(nextFreeCluster) && freeClusterCount.Some? == old(freeClusterCount).Some?
      ensures old(Counted()) ==> Counted()
    {
      hide FreeSet, ReleaseFrom, Released, Trail, AllChains, Disjoint, Exact;
      ReleaseEffect(fat.Map(), chains, ch);
      var iter := new ClusterIterator(fat, cluster);
      var numFree := iter.Free();
      chains := chains - {ch};
      AddToFreeCount(numFree);
    }

    method RecalcFreeClusters() returns (n: nat)
      requires Valid()
      modifies this`freeClusterCount, fat
      ensures Valid() && Counted() && freeClusterCount == Some(n)
      ensures n == |FreeSet(fat.Map())| && fat.Map() == old(fat.Map())
    {
      n := fat.CountFree();
      freeClusterCount := Some(n);
    }

    /** Statistics: the cached count, computed on the first call. */
    method FreeClusters() returns (n: nat)
      requires Valid() && Counted()
      modifies this`freeClusterCount, fat
      ensures Valid() && Counted() && n == |FreeSet(fat.Map())| && fat.Map() == old(fat.Map())
    {
      if freeClusterCount.Some? {
        n := freeClusterCount.value;
      } else {
        n := RecalcFreeClusters();
      }
    }
  }

  /** Freeing the clusters of a chain from position `k` on adds exactly their number. */
  lemma ReleasedCount(fat: Fat, ch: seq<nat>, k: nat)
    requires IsChain(fat, ch) && k <= |ch|
    ensures |FreeSet(fat) + Elements(ch[k..])| == |FreeSet(fat)| + |ch[k..]|
  {
    DistinctCount(ch[k..]);
    forall c | c in Elements(ch[k..]) ensures c !in FreeSet(fat) {
      ChainInUse(fat, ch, c);
    }
    assert FreeSet(fat) !! Elements(ch[k..]);
  }

  /** Truncation: the chains afterwards, and the old number plus the walk's count is the new number
      of free clusters. */
  lemma TruncateEffect(fat: Fat, chains: set<seq<nat>>, ch: seq<nat>, k: nat)
    requires Heap(fat, chains) && ch in chains && k < |ch|
    ensures LinksInRange(fat) && IsCluster(fat, ch[k]) && LinksInRange(fat[ch[k] := EndOfChain])
    ensures var g := TruncateAt(fat, ch[k]);
      && Heap(g, chains - {ch} + {ch[..k + 1]})
      && FreeSet(g) == FreeSet(fat) + Elements(ch[k + 1..])
      && |FreeSet(fat)| + |Trail(fat[ch[k] := EndOfChain], Next(fat[ch[k]]))| == |FreeSet(g)| <= |fat|
  {
    TruncateKeepsPrefix(fat, chains, ch, k);
    TruncateValue(fat, ch, k);
    ReleasedCount(fat, ch, k + 1);
    FewFree(TruncateAt(fat, ch[k]));
  }

  lemma ReleaseEffect(fat: Fat, chains: set<seq<nat>>, ch: seq<nat>)
    requires Heap(fat, chains) && ch in chains
    ensures LinksInRange(fat) && ch != [] && IsCluster(fat, ch[0])
    ensures var g := ReleaseFrom(fat, Some(ch[0]));
      && Heap(g, chains - {ch})
      && FreeSet(g) == FreeSet(fat) + Elements(ch)
      && |FreeSet(fat)| + |Trail(fat, Some(ch[0]))| == |FreeSet(g)| <= |fat|
  {
    ReleaseRemovesChain(fat, chains, ch);
    assert ch[0..] == ch;
    ReleasedCount(fat, ch, 0);
    FewFree(ReleaseFrom(fat, Some(ch[0])));
  }

  /** Allocation: the chains afterwards, and one free cluster fewer. */
  lemma AllocEffect(fat: Fat, chains: set<seq<nat>>, ch: seq<nat>, prev: Option<nat>, hint: Option<nat>)
    requires Heap(fat, chains)
    requires prev.Some? ==> ch in chains && ch != [] && prev.value == ch[|ch| - 1]
    ensures prev.Some? ==> prev.value < |fat|
    ensures Pick(fat, hint).None? <==> FreeSet(fat) == {}
    ensures Pick(fat, hint).Some? ==>
      var c := Pick(fat, hint).value;
      var g := AllocIn(fat, prev, hint);
      && c in FreeSet(fat)
      && FreeSet(g) == FreeSet(fat) - {c}
      && Heap(g, if prev.Some? then chains - {ch} + {ch + [c]} else chains + {[c]})
      && |FreeSet(fat)| - 1 == |FreeSet(g)|
  {
    PickIsComplete(fat, hint);
    if prev.Some? { ChainInUse(fat, ch, prev.value); }
    if Pick(fat, hint).Some? {
      var c := Pick(fat, hint).value;
      if prev.Some? {
        AllocExtendsChain(fat, chains, ch, c);
      } else {
        AllocStartsChain(fat, chains, c);
      }
      assert |FreeSet(fat) - {c}| == |FreeSet(fat)| - 1;
    }
  }
}
