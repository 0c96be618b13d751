/** The arithmetic of a file position on a cluster chain, and what one file's operations mean for
    its own bytes and for everybody else's. */
module FileCursor {
  import opened Prelude
  import opened FatCodec
  import opened FatHeap
  import opened ClusterSpace
  import opened Blocks

  /** The cluster under a position: none at the start of the file, and at a boundary the cluster
      before it. */
  function Under(chain: seq<nat>, offset: nat, cs: nat): Option<nat>
    requires cs > 0 && offset <= Span(|chain|, cs)
  {
    if offset == 0 then None
    else
      IndexBelow(offset - 1, |chain|, cs);
      Some(chain[Quot(offset - 1, cs)])
  }

  /** Inside a cluster the previous byte is in the same cluster; at a boundary it is in the one
      before. */
  lemma PreviousByte(offset: nat, cs: nat)
    requires cs > 0 && offset > 0
    ensures Rem(offset, cs) != 0 ==> Quot(offset - 1, cs) == Quot(offset, cs)
    ensures Rem(offset, cs) == 0 ==> Quot(offset, cs) > 0 && Quot(offset - 1, cs) == Quot(offset, cs) - 1
  {
    DivSpan(offset, cs);
    var k, o := Quot(offset, cs), Rem(offset, cs);
    if o != 0 {
      IndexOfSpan(offset - 1, k, cs, o - 1);
    } else {
      assert k > 0;
      IndexOfSpan(offset - 1, k - 1, cs, cs - 1);
    }
  }

  /** Where a position on a chain of `count` clusters can lie. */
  lemma PositionCases(offset: nat, count: nat, cs: nat)
    requires cs > 0 && offset <= Span(count, cs)
    ensures Quot(offset, cs) <= count && Rem(offset, cs) < cs
    ensures Quot(offset, cs) == count <==> offset == Span(count, cs)
    ensures Quot(offset, cs) == count ==> Rem(offset, cs) == 0
    ensures Quot(offset, cs) < count ==> offset + (cs - Rem(offset, cs)) <= Span(count, cs)
  {
    DivSpan(offset, cs);
    if offset == Span(count, cs) {
      IndexOfSpan(offset, count, cs, 0);
    } else {
      IndexBelow(offset, count, cs);
      SpanStep(Quot(offset, cs), count, cs);
    }
  }

  /** After moving by up to the rest of the current cluster, that cluster is the one under the
      position. */
  lemma Advance(chain: seq<nat>, offset: nat, n: nat, cs: nat)
    requires cs > 0 && offset <= Span(|chain|, cs) && Quot(offset, cs) < |chain|
    requires 0 < n <= cs - Rem(offset, cs)
    ensures offset + n <= Span(|chain|, cs)
    ensures Under(chain, offset + n, cs) == Some(chain[Quot(offset, cs)])
  {
    PositionCases(offset, |chain|, cs);
    DivSpan(offset, cs);
    IndexOfSpan(offset + n - 1, Quot(offset, cs), cs, Rem(offset, cs) + n - 1);
  }

  /** The cluster under a position inside a cluster is the cluster of that position. */
  lemma UnderInside(chain: seq<nat>, offset: nat, cs: nat)
    requires cs > 0 && offset <= Span(|chain|, cs) && Rem(offset, cs) != 0
    ensures Quot(offset, cs) < |chain| && Under(chain, offset, cs) == Some(chain[Quot(offset, cs)])
  {
    PositionCases(offset, |chain|, cs);
    PreviousByte(offset, cs);
  }

  function ClustersFromBytes(n: nat, cs: nat): nat
    requires cs > 0
  {
    Quot(n + cs - 1, cs)
  }

  /** Rounding up counts the clusters up to and including the one of the last byte. */
  lemma ClustersOf(n: nat, cs: nat)
    requires cs > 0
    ensures n == 0 ==> ClustersFromBytes(n, cs) == 0
    ensures n > 0 ==> ClustersFromBytes(n, cs) == Quot(n - 1, cs) + 1
  {
    if n > 0 {
      DivSpan(n - 1, cs);
      IndexOfSpan(n + cs - 1, Quot(n - 1, cs) + 1, cs, Rem(n - 1, cs));
    } else {
      IndexOfSpan(cs - 1, 0, cs, cs - 1);
    }
  }

  /** The bytes at a position are those of its cluster at the position's offset in the cluster. */
  lemma BytesHere(sp: Space, disk: seq<byte>, end: nat, chain: seq<nat>, offset: nat, n: nat)
    requires Fits(sp, |disk|, end) && ChainInSpace(chain, end)
    requires Quot(offset, sp.cs) < |chain| && n <= sp.cs - Rem(offset, sp.cs)
    ensures offset + n <= |ChainBytes(sp, disk, end, chain)|
    ensures Cluster(sp, disk, end, chain[Quot(offset, sp.cs)])[Rem(offset, sp.cs)..Rem(offset, sp.cs) + n]
      == ChainBytes(sp, disk, end, chain)[offset..offset + n]
  {
    var k, o := Quot(offset, sp.cs), Rem(offset, sp.cs);
    DivSpan(offset, sp.cs);
    ChainBytesAt(sp, disk, end, chain, k);
    SliceOfSlice(ChainBytes(sp, disk, end, chain), Span(k, sp.cs), Span(k, sp.cs) + sp.cs, o, n);
  }

  /** Where on the disk the byte at a position lies. */
  lemma ByteHere(sp: Space, disk: seq<byte>, end: nat, chain: seq<nat>, offset: nat)
    requires Fits(sp, |disk|, end) && ChainInSpace(chain, end) && sp.cs > 0 && Quot(offset, sp.cs) < |chain|
    ensures offset < |ChainBytes(sp, disk, end, chain)|
    ensures var at := sp.Start(chain[Quot(offset, sp.cs)]) + Rem(offset, sp.cs);
      at < |disk| && disk[at] == ChainBytes(sp, disk, end, chain)[offset]
  {
    var c, o := chain[Quot(offset, sp.cs)], Rem(offset, sp.cs);
    BytesHere(sp, disk, end, chain, offset, 1);
    ClusterFits(sp, disk, end, c);
    assert disk[sp.Start(c) + o] == Cluster(sp, disk, end, c)[o..o + 1][0];
    hide ChainBytes;
    assert ChainBytes(sp, disk, end, chain)[offset] == ChainBytes(sp, disk, end, chain)[offset..offset + 1][0];
  }

  /** Reading at a position of the first `limit` bytes. */
  lemma ReadSlice(sp: Space, disk: seq<byte>, end: nat, chain: seq<nat>, limit: nat, offset: nat, n: nat)
    requires Fits(sp, |disk|, end) && ChainInSpace(chain, end)
    requires limit <= |ChainBytes(sp, disk, end, chain)| && offset + n <= limit
    requires Quot(offset, sp.cs) < |chain| && n <= sp.cs - Rem(offset, sp.cs)
    ensures Cluster(sp, disk, end, chain[Quot(offset, sp.cs)])[Rem(offset, sp.cs)..Rem(offset, sp.cs) + n]
      == ChainBytes(sp, disk, end, chain)[..limit][offset..offset + n]
  {
    BytesHere(sp, disk, end, chain, offset, n);
    SliceOfSlice(ChainBytes(sp, disk, end, chain), 0, limit, offset, n);
  }

  /** Cutting a file on the clusters that still reach the position keeps its first bytes. */
  lemma CutSlice(sp: Space, disk: seq<byte>, end: nat, chain: seq<nat>, limit: nat, kept: nat, offset: nat)
    requires Fits(sp, |disk|, end) && ChainInSpace(chain, end) && kept <= |chain|
    requires offset <= limit <= |ChainBytes(sp, disk, end, chain)| && offset <= Span(kept, sp.cs)
    ensures ChainBytes(sp, disk, end, chain[..kept])[..offset] == ChainBytes(sp, disk, end, chain)[..limit][..offset]
  {
    ChainBytesPrefix(sp, disk, end, chain, kept);
    var b, m := ChainBytes(sp, disk, end, chain), Span(kept, sp.cs);
    assert b[..m][..offset] == b[..offset] == b[..limit][..offset];
  }

  /** A write at a position is one splice of the chain's bytes. */
  lemma PokeHere(sp: Space, disk: seq<byte>, end: nat, chain: seq<nat>, offset: nat, d: seq<byte>)
    requires Fits(sp, |disk|, end) && ChainInSpace(chain, end) && Distinct(chain)
    requires Quot(offset, sp.cs) < |chain| && |d| <= sp.cs - Rem(offset, sp.cs)
    ensures offset + |d| <= |ChainBytes(sp, disk, end, chain)|
    ensures ChainBytes(sp, Poke(sp, disk, end, chain[Quot(offset, sp.cs)], Rem(offset, sp.cs), d), end, chain)
      == Splice(ChainBytes(sp, disk, end, chain), offset, d)
  {
    DivSpan(offset, sp.cs);
    PokeChain(sp, disk, end, chain, Quot(offset, sp.cs), Rem(offset, sp.cs), d);
  }

  /** `s` with `d` written at position `i`, growing where `d` reaches past the end. */
  ghost function Overwrite<T>(s: seq<T>, i: nat, d: seq<T>): (r: seq<T>)
    requires i <= |s|
  {
    if i + |d| <= |s| then Splice(s, i, d) else s[..i] + d
  }

  /** The link of a chain member leads to the next member, and the last one ends the chain. */
  lemma ChainNext(fat: Fat, ch: seq<nat>, i: nat)
    requires IsChain(fat, ch) && i < |ch|
    ensures IsCluster(fat, ch[i])
    ensures Next(fat[ch[i]]) == if i + 1 < |ch| then Some(ch[i + 1]) else None
  {
    if i + 1 < |ch| { assert fat[ch[i]] == Data(ch[i + 1]); }
  }

  lemma HeapInSpace(fat: Fat, chains: set<seq<nat>>, ch: seq<nat>)
    requires Heap(fat, chains) && ch in chains
    ensures IsChain(fat, ch) && ChainInSpace(ch, |fat|)
  {
    assert IsChain(fat, ch);
    forall i | 0 <= i < |ch| ensures InSpace(ch[i], |fat|) {
      assert RESERVED_FAT_ENTRIES <= ch[i] < |fat|;
    }
  }

  /** Every chain other than `own` is still a chain and still holds the same bytes. */
  ghost predicate OthersKept(sp: Space, end: nat, disk: seq<byte>, disk': seq<byte>,
                             chains: set<seq<nat>>, chains': set<seq<nat>>, own: seq<nat>)
    requires Fits(sp, |disk|, end)
  {
    |disk'| == |disk| &&
    forall ch :: ch in chains && ch != own ==>
      && ch in chains'
      && ChainInSpace(ch, end)
      && ChainBytes(sp, disk', end, ch) == ChainBytes(sp, disk, end, ch)
  }

  /** A proper prefix of a chain is not a chain beside it. */
  lemma PrefixIsNew(fat: Fat, chains: set<seq<nat>>, ch: seq<nat>, k: nat)
    requires Heap(fat, chains) && ch in chains && k <= |ch|
    ensures ch[..k] == ch || ch[..k] !in chains
  {
    forall other | other in chains && other != ch ensures other != ch[..k] {
      assert IsChain(fat, other) && IsChain(fat, ch) && Apart(ch, other);
      assert other[0] in other && ch[0] !in other;
    }
  }

  lemma OthersTwice(sp: Space, end: nat, d0: seq<byte>, d1: seq<byte>, d2: seq<byte>,
                    chains: set<seq<nat>>, chains': set<seq<nat>>, chains'': set<seq<nat>>,
                    own: seq<nat>, own': seq<nat>)
    requires Fits(sp, |d0|, end) && (own' == own || own' !in chains)
    requires OthersKept(sp, end, d0, d1, chains, chains', own)
    requires OthersKept(sp, end, d1, d2, chains', chains'', own')
    ensures OthersKept(sp, end, d0, d2, chains, chains'', own)
  {
  }

  /** A write inside a cluster of `own` leaves every other chain alone. */
  lemma PokeOthers(fat: Fat, sp: Space, disk: seq<byte>, chains: set<seq<nat>>, own: seq<nat>,
                   c: nat, o: nat, d: seq<byte>)
    requires Heap(fat, chains) && own in chains && c in own
    requires Fits(sp, |disk|, |fat|) && InSpace(c, |fat|) && o + |d| <= sp.cs
    ensures OthersKept(sp, |fat|, disk, Poke(sp, disk, |fat|, c, o, d), chains, chains, own)
  {
    forall ch | ch in chains && ch != own
      ensures ChainInSpace(ch, |fat|)
      ensures ChainBytes(sp, Poke(sp, disk, |fat|, c, o, d), |fat|, ch) == ChainBytes(sp, disk, |fat|, ch)
    {
      HeapInSpace(fat, chains, ch);
      assert Apart(own, ch);
      PokeElsewhere(sp, disk, |fat|, c, o, d, ch);
    }
  }

  /** Filling a free cluster leaves every chain alone. */
  lemma PokeFree(fat: Fat, sp: Space, disk: seq<byte>, chains: set<seq<nat>>, c: nat, d: seq<byte>, ch: seq<nat>)
    requires Heap(fat, chains) && c in FreeSet(fat) && ch in chains
    requires Fits(sp, |disk|, |fat|) && |d| <= sp.cs
    ensures InSpace(c, |fat|) && ChainInSpace(ch, |fat|)
    ensures ChainBytes(sp, Poke(sp, disk, |fat|, c, 0, d), |fat|, ch) == ChainBytes(sp, disk, |fat|, ch)
  {
    HeapInSpace(fat, chains, ch);
    FreeOutside(fat, chains, ch, c);
    PokeElsewhere(sp, disk, |fat|, c, 0, d, ch);
  }

  lemma OthersUntouched(
    fat: Fat, sp: Space, disk: seq<byte>, chains: set<seq<nat>>, chains': set<seq<nat>>, own: seq<nat>)
    requires Heap(fat, chains) && Fits(sp, |disk|, |fat|) && chains - {own} <= chains'
    ensures OthersKept(sp, |fat|, disk, disk, chains, chains', own)
  {
    forall ch | ch in chains && ch != own ensures ch in chains' && ChainInSpace(ch, |fat|) {
      assert ch in chains - {own};
      HeapInSpace(fat, chains, ch);
    }
  }

  /** A position in the same cluster count as another one has the same cluster under it. */
  lemma SameCluster(chain: seq<nat>, offset: nat, n: nat, cs: nat)
    requires cs > 0 && offset <= Span(|chain|, cs) && n > 0
    requires ClustersFromBytes(n, cs) == ClustersFromBytes(offset, cs)
    ensures n <= Span(|chain|, cs) && Under(chain, n, cs) == Under(chain, offset, cs)
  {
    ClustersOf(n, cs);
    ClustersOf(offset, cs);
    IndexBelow(offset - 1, |chain|, cs);
    DivSpan(n - 1, cs);
    SpanStep(Quot(n - 1, cs), |chain|, cs);
  }

  /** Skipping to the cluster of byte `n - 1`: either the chain has it, or it ends before `n`. */
  lemma SkipCases(chain: seq<nat>, n: nat, cs: nat)
    requires cs > 0 && n > 0
    ensures ClustersFromBytes(n, cs) > 0
    ensures var skip := ClustersFromBytes(n, cs) - 1;
      && (skip < |chain| ==> n <= Span(|chain|, cs) && Under(chain, n, cs) == Some(chain[skip]))
      && (skip >= |chain| ==> Span(|chain|, cs) < n)
  {
    ClustersOf(n, cs);
    var skip := ClustersFromBytes(n, cs) - 1;
    DivSpan(n - 1, cs);
    if skip < |chain| {
      SpanStep(skip, |chain|, cs);
    } else if skip > |chain| {
      SpanStep(|chain|, skip, cs);
    }
  }

  /** At the end of a non-empty chain the cluster under the position is the last one. */
  lemma UnderEnd(chain: seq<nat>, cs: nat)
    requires cs > 0 && chain != []
    ensures Under(chain, Span(|chain|, cs), cs) == Some(chain[|chain| - 1])
  {
    IndexOfSpan(Span(|chain|, cs) - 1, |chain| - 1, cs, cs - 1);
  }

  /** The disk after a free cluster has been taken, and cleared where that is asked for. */
  ghost function Taken(sp: Space, disk: seq<byte>, end: nat, c: nat, zero: bool): (r: seq<byte>)
    requires Fits(sp, |disk|, end) && InSpace(c, end)
    ensures |r| == |disk|
  {
    if zero then Poke(sp, disk, end, c, 0, Zeros(sp.cs)) else disk
  }

  /** A chain that grows by a free cluster keeps its bytes and gains that cluster's. */
  lemma GrowBytes(fat: Fat, sp: Space, disk: seq<byte>, chains: set<seq<nat>>, chain: seq<nat>, c: nat, zero: bool)
    requires Heap(fat, chains) && c in FreeSet(fat) && (chain != [] ==> chain in chains)
    requires Fits(sp, |disk|, |fat|) && ChainInSpace(chain, |fat|) && InSpace(c, |fat|)
    ensures ChainInSpace(chain + [c], |fat|)
    ensures var disk' := Taken(sp, disk, |fat|, c, zero);
      var fill := Cluster(sp, disk', |fat|, c);
      && ChainBytes(sp, disk', |fat|, chain + [c]) == ChainBytes(sp, disk, |fat|, chain) + fill
      && (zero ==> fill == Zeros(sp.cs))
  {
    var disk' := Taken(sp, disk, |fat|, c, zero);
    ChainBytesAppend(sp, disk', |fat|, chain, c);
    if zero {
      ClearedCluster(sp, disk, |fat|, c);
      if chain != [] { PokeFree(fat, sp, disk, chains, c, Zeros(sp.cs), chain); }
    }
  }

  lemma ClearedCluster(sp: Space, disk: seq<byte>, end: nat, c: nat)
    requires Fits(sp, |disk|, end) && InSpace(c, end)
    ensures Cluster(sp, Poke(sp, disk, end, c, 0, Zeros(sp.cs)), end, c) == Zeros(sp.cs)
  {
    PokeCluster(sp, disk, end, c, 0, Zeros(sp.cs), c);
  }

  lemma FreeOutside(fat: Fat, chains: set<seq<nat>>, ch: seq<nat>, c: nat)
    requires Heap(fat, chains) && c in FreeSet(fat) && ch in chains
    ensures c !in ch
  {
    assert IsChain(fat, ch);
    if c in ch { ChainInUse(fat, ch, c); }
  }

  /** A chain that has taken a free cluster was not there before. */
  lemma GrownIsNew(fat: Fat, chains: set<seq<nat>>, chain: seq<nat>, c: nat)
    requires Heap(fat, chains) && c in FreeSet(fat)
    ensures chain + [c] !in chains
  {
    forall ch | ch in chains ensures ch != chain + [c] {
      FreeOutside(fat, chains, ch, c);
      assert (chain + [c])[|chain|] == c;
    }
  }

  lemma GrowOthers(fat: Fat, sp: Space, disk: seq<byte>, chains: set<seq<nat>>, chains': set<seq<nat>>,
                   own: seq<nat>, c: nat, zero: bool)
    requires Heap(fat, chains) && c in FreeSet(fat) && chains - {own} <= chains'
    requires Fits(sp, |disk|, |fat|) && InSpace(c, |fat|)
    ensures OthersKept(sp, |fat|, disk, Taken(sp, disk, |fat|, c, zero), chains, chains', own)
  {
    OthersUntouched(fat, sp, disk, chains, chains', own);
    var disk' := Taken(sp, disk, |fat|, c, zero);
    forall ch | ch in chains && ch != own
      ensures ChainInSpace(ch, |fat|) && ChainBytes(sp, disk', |fat|, ch) == ChainBytes(sp, disk, |fat|, ch)
    {
      if zero { PokeFree(fat, sp, disk, chains, c, Zeros(sp.cs), ch); }
    }
  }

  /** What taking a free cluster at the end of `own` means for its bytes and for all other chains. */
  lemma TakingGrows(fat: Fat, sp: Space, disk: seq<byte>, disk': seq<byte>, chains: set<seq<nat>>,
                    chains': set<seq<nat>>, own: seq<nat>, c: nat, zero: bool)
    requires Heap(fat, chains) && c in FreeSet(fat) && (own != [] ==> own in chains) && chains - {own} <= chains'
    requires Fits(sp, |disk|, |fat|) && ChainInSpace(own, |fat|) && InSpace(c, |fat|)
    requires disk' == Taken(sp, disk, |fat|, c, zero)
    ensures ChainInSpace(own + [c], |fat|) && own + [c] !in chains
    ensures ChainBytes(sp, disk', |fat|, own + [c]) == ChainBytes(sp, disk, |fat|, own) + Cluster(sp, disk', |fat|, c)
    ensures zero ==> Cluster(sp, disk', |fat|, c) == Zeros(sp.cs)
    ensures OthersKept(sp, |fat|, disk, disk', chains, chains', own)
  {
    GrowBytes(fat, sp, disk, chains, own, c, zero);
    GrowOthers(fat, sp, disk, chains, chains', own, c, zero);
    GrownIsNew(fat, chains, own, c);
  }

  /** A prefix of a chain that still reaches the position has the same cluster under it. */
  lemma UnderPrefix(chain: seq<nat>, offset: nat, cs: nat)
    requires cs > 0 && 0 < offset <= Span(|chain|, cs)
    ensures var k := Quot(offset - 1, cs);
      && k < |chain|
      && Under(chain, offset, cs) == Some(chain[k])
      && offset <= Span(k + 1, cs)
      && Under(chain[..k + 1], offset, cs) == Some(chain[k])
  {
    IndexBelow(offset - 1, |chain|, cs);
    DivSpan(offset - 1, cs);
  }
}
