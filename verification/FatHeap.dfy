/** The allocation table as a heap of linked cluster chains: what allocating, truncating and
    releasing mean for the entries, and what they do to the set of chains. */
module FatHeap {
  import opened Prelude
  import opened FatCodec

  type Fat = seq<FatValue>

  // ---------- chains ----------

  /** `ch` is a whole chain of `fat`: in-range distinct clusters, each linking to the next one and
      the last one marked as the end. */
  ghost predicate IsChain(fat: Fat, ch: seq<nat>) {
    && ch != []
    && (forall i :: 0 <= i < |ch| ==> RESERVED_FAT_ENTRIES <= ch[i] < |fat|)
    && (forall i, j :: 0 <= i < j < |ch| && j == i + 1 ==> fat[ch[i]] == Data(ch[j]))
    && fat[ch[|ch| - 1]] == EndOfChain
    && Distinct(ch)
  }

  ghost predicate Covered(chains: set<seq<nat>>, c: nat) {
    exists ch :: ch in chains && c in ch
  }

  ghost predicate AllChains(fat: Fat, chains: set<seq<nat>>) {
    forall ch {:trigger IsChain(fat, ch)} :: ch in chains ==> IsChain(fat, ch)
  }

  ghost predicate Apart(a: seq<nat>, b: seq<nat>) {
    forall c :: c in a ==> c !in b
  }

  ghost predicate Disjoint(chains: set<seq<nat>>) {
    forall a, b {:trigger Apart(a, b)} :: a in chains && b in chains && a != b ==> Apart(a, b)
  }

  predicate InUse(v: FatValue) {
    v.Data? || v.EndOfChain?
  }

  ghost predicate Exact(fat: Fat, chains: set<seq<nat>>) {
    forall c {:trigger Covered(chains, c)} ::
      RESERVED_FAT_ENTRIES <= c < |fat| ==> (Covered(chains, c) <==> InUse(fat[c]))
  }

  /** `fat` is exactly the disjoint chains in `chains`, plus free and bad clusters; the two
      reserved entries are in use. */
  ghost predicate Heap(fat: Fat, chains: set<seq<nat>>) {
    && |fat| > RESERVED_FAT_ENTRIES
    && fat[0] != Free && fat[1] != Free
    && AllChains(fat, chains)
    && Disjoint(chains)
    && Exact(fat, chains)
  }

  /** The chain of `chains` that `c` lies on. */
  ghost function ChainOf(chains: set<seq<nat>>, c: nat): (ch: seq<nat>)
    requires Covered(chains, c)
    ensures ch in chains && c in ch
  {
    var ch :| ch in chains && c in ch;
    ch
  }

  ghost function IndexOf(ch: seq<nat>, c: nat): (i: nat)
    requires c in ch
    ensures i < |ch| && ch[i] == c
  {
    var i :| 0 <= i < |ch| && ch[i] == c;
    i
  }

  /** Free clusters, as a set. */
  ghost function FreeSet(fat: Fat): set<nat> {
    set c: nat | RESERVED_FAT_ENTRIES <= c < |fat| && fat[c] == Free
  }

  // ---------- searching ----------

  /** The least free entry in `lo..hi`. */
  ghost function FirstFree(fat: Fat, lo: nat, hi: nat): (r: Option<nat>)
    requires hi <= |fat|
    ensures r.Some? ==> lo <= r.value < hi && fat[r.value] == Free
    ensures forall c :: lo <= c < (if r.Some? then r.value else hi) ==> fat[c] != Free
    decreases hi - lo
  {
    if lo >= hi then None
    else if fat[lo] == Free then Some(lo)
    else FirstFree(fat, lo + 1, hi)
  }

  function StartCluster(hint: Option<nat>, end: nat): nat {
    if hint.Some? && hint.value < end then hint.value else RESERVED_FAT_ENTRIES
  }

  /** The entry that an allocation takes: the first free one from the hint, wrapping around once. */
  ghost function Pick(fat: Fat, hint: Option<nat>): (r: Option<nat>)
  {
    var start := StartCluster(hint, |fat|);
    var r := FirstFree(fat, start, |fat|);
    if r.None? && start > RESERVED_FAT_ENTRIES then FirstFree(fat, RESERVED_FAT_ENTRIES, start) else r
  }

  /** Whatever the hint, an allocation succeeds exactly when some cluster is free, and it takes a
      free one. */
  lemma PickIsComplete(fat: Fat, hint: Option<nat>)
    requires |fat| > RESERVED_FAT_ENTRIES && fat[0] != Free && fat[1] != Free
    ensures Pick(fat, hint).Some? <==> FreeSet(fat) != {}
    ensures Pick(fat, hint).Some? ==> Pick(fat, hint).value in FreeSet(fat)
  {
    var start := StartCluster(hint, |fat|);
    var r := Pick(fat, hint);
    if r.None? {
      forall c: nat | RESERVED_FAT_ENTRIES <= c < |fat| ensures fat[c] != Free {
        if c < start { assert start > RESERVED_FAT_ENTRIES; }
      }
      assert FreeSet(fat) == {};
    } else {
      assert r.value in FreeSet(fat);
    }
  }

  /** `c` is the least free entry from `lo` on. */
  ghost predicate LeastFree(fat: Fat, lo: nat, c: nat) {
    lo <= c < |fat| && fat[c] == Free && forall k :: lo <= k < c ==> fat[k] != Free
  }

  /** Which cluster an allocation takes: the least free one from the hint on, where the hint is a cluster
      and there is one; and else the least free one of all. */
  ghost predicate Takes(fat: Fat, hint: Option<nat>, c: nat) {
    if hint.Some? && 2 <= hint.value && exists k :: hint.value <= k < |fat| && fat[k] == Free
    then LeastFree(fat, hint.value, c) else LeastFree(fat, 2, c)
  }

  lemma PickIsLeast(fat: Fat, hint: Option<nat>)
    requires |fat| > 2 && fat[0] != Free && fat[1] != Free
    ensures Pick(fat, hint).Some? ==> Takes(fat, hint, Pick(fat, hint).value)
    ensures Pick(fat, hint).None? ==> forall c :: 2 <= c < |fat| ==> fat[c] != Free
  {
    var start := StartCluster(hint, |fat|);
    var first := FirstFree(fat, start, |fat|);
    assert forall k :: start <= k < |fat| && first.None? ==> fat[k] != Free;
  }

  // ---------- walking and releasing ----------

  ghost predicate LinksInRange(fat: Fat) {
    forall c :: RESERVED_FAT_ENTRIES <= c < |fat| && fat[c].Data? ==>
      RESERVED_FAT_ENTRIES <= fat[c].next < |fat|
  }

  predicate IsCluster(fat: Fat, c: nat) {
    RESERVED_FAT_ENTRIES <= c < |fat|
  }

  function Next(v: FatValue): Option<nat> {
    if v.Data? then Some(v.next) else None
  }

  ghost function DataSet(fat: Fat): set<nat> {
    set c: nat | RESERVED_FAT_ENTRIES <= c < |fat| && fat[c].Data?
  }

  lemma DataSetShrinks(fat: Fat, c: nat)
    requires IsCluster(fat, c)
    ensures DataSet(fat[c := Free]) == DataSet(fat) - {c}
  {
  }

  /** The clusters that a releasing walk visits, in order: it reads the link of a cluster, marks
      the cluster free and follows the link. */
  ghost function Trail(fat: Fat, c: Option<nat>): (t: seq<nat>)
    requires LinksInRange(fat) && (c.Some? ==> IsCluster(fat, c.value))
    ensures forall i :: 0 <= i < |t| ==> IsCluster(fat, t[i])
    ensures c.Some? ==> t != [] && t[0] == c.value
    decreases DataSet(fat), c.Some?
  {
    if c.None? then []
    else
      DataSetShrinks(fat, c.value);
      [c.value] + Trail(fat[c.value := Free], Next(fat[c.value]))
  }

  /** `fat` with every cluster of `s` free. */
  ghost function Released(fat: Fat, s: set<nat>): (r: Fat)
    ensures |r| == |fat|
    ensures forall c :: 0 <= c < |fat| ==> r[c] == if c in s then Free else fat[c]
  {
    seq(|fat|, c requires 0 <= c < |fat| => if c in s then Free else fat[c])
  }

  /** Table after the walk that starts at `c`. */
  ghost function ReleaseFrom(fat: Fat, c: Option<nat>): Fat
    requires LinksInRange(fat) && (c.Some? ==> IsCluster(fat, c.value))
  {
    Released(fat, Elements(Trail(fat, c)))
  }

  ghost function TruncateAt(fat: Fat, c: nat): Fat
    requires LinksInRange(fat) && IsCluster(fat, c)
  {
    ReleaseFrom(fat[c := EndOfChain], Next(fat[c]))
  }

  /** One turn of the walk. */
  lemma ReleaseStep(fat: Fat, c: nat)
    requires LinksInRange(fat) && IsCluster(fat, c)
    ensures LinksInRange(fat[c := Free])
    ensures ReleaseFrom(fat, Some(c)) == ReleaseFrom(fat[c := Free], Next(fat[c]))
    ensures |Trail(fat, Some(c))| == 1 + |Trail(fat[c := Free], Next(fat[c]))|
  {
    var rest := Trail(fat[c := Free], Next(fat[c]));
    DataSetShrinks(fat, c);
    assert Trail(fat, Some(c)) == [c] + rest;
    assert Elements([c] + rest) == {c} + Elements(rest);
  }

  ghost predicate IsPath(fat: Fat, p: seq<nat>) {
    && p != []
    && (forall i :: 0 <= i < |p| ==> IsCluster(fat, p[i]))
    && (forall i, j :: 0 <= i < j < |p| && j == i + 1 ==> fat[p[i]] == Data(p[j]))
  }

  /** `x` can be reached from `c` by following links. */
  ghost predicate Reaches(fat: Fat, c: nat, x: nat) {
    exists p :: IsPath(fat, p) && p[0] == c && p[|p| - 1] == x
  }

  lemma {:induction false} TrailIsReachable(fat: Fat, c: nat, x: nat)
    requires LinksInRange(fat) && IsCluster(fat, c) && x in Trail(fat, Some(c))
    ensures Reaches(fat, c, x)
    decreases DataSet(fat)
  {
    if x == c {
      assert IsPath(fat, [c]);
    } else {
      var g := fat[c := Free];
      DataSetShrinks(fat, c);
      assert x in Trail(g, Next(fat[c]));
      var n := fat[c].next;
      TrailIsReachable(g, n, x);
      var p :| IsPath(g, p) && p[0] == n && p[|p| - 1] == x;
      forall i, j | 0 <= i < j < |p| && j == i + 1 ensures fat[p[i]] == Data(p[j]) {
        assert g[p[i]] == Data(p[j]);
      }
      var q := [c] + p;
      assert IsPath(fat, q) && q[0] == c && q[|q| - 1] == x;
    }
  }

  lemma {:induction false} TrailIsClosed(fat: Fat, c: nat, x: nat)
    requires LinksInRange(fat) && IsCluster(fat, c)
    requires x in Trail(fat, Some(c)) && fat[x].Data?
    ensures fat[x].next in Trail(fat, Some(c))
    decreases DataSet(fat)
  {
    var g := fat[c := Free];
    DataSetShrinks(fat, c);
    var rest := Trail(g, Next(fat[c]));
    assert Trail(fat, Some(c)) == [c] + rest;
    if x == c {
      assert rest[0] == fat[c].next;
    } else {
      assert x in rest;
      TrailIsClosed(g, fat[c].next, x);
    }
  }

  lemma {:induction false} PathStaysOnTrail(fat: Fat, c: nat, p: seq<nat>)
    requires LinksInRange(fat) && IsCluster(fat, c) && IsPath(fat, p) && p[0] == c
    ensures p[|p| - 1] in Trail(fat, Some(c))
  {
    if |p| > 1 {
      var q := p[..|p| - 1];
      assert forall i :: 0 <= i < |q| ==> q[i] == p[i];
      PathStaysOnTrail(fat, c, q);
      assert fat[p[|q| - 1]] == Data(p[|q|]);
      TrailIsClosed(fat, c, q[|q| - 1]);
    }
  }

  /** On every table whose links are in range, cyclic or cross-linked ones included, releasing from
      `c` frees exactly the clusters reachable from `c` and changes no other entry. */
  lemma ReleaseFreesReachable(fat: Fat, c: nat, x: nat)
    requires LinksInRange(fat) && IsCluster(fat, c) && x < |fat|
    ensures ReleaseFrom(fat, Some(c))[x] == if Reaches(fat, c, x) then Free else fat[x]
  {
    if x in Trail(fat, Some(c)) {
      TrailIsReachable(fat, c, x);
    } else if Reaches(fat, c, x) {
      var p :| IsPath(fat, p) && p[0] == c && p[|p| - 1] == x;
      PathStaysOnTrail(fat, c, p);
    }
  }

  lemma {:induction false} TrailShape(fat: Fat, c: nat)
    requires LinksInRange(fat) && IsCluster(fat, c)
    ensures var t := Trail(fat, Some(c)); var n := |t| - 1;
      && Distinct(t[..n])
      && (forall i :: 0 <= i < n ==> fat[t[i]].Data?)
      && (t[n] !in t[..n] ==> !fat[t[n]].Data?)
    decreases DataSet(fat)
  {
    var g := fat[c := Free];
    DataSetShrinks(fat, c);
    var rest := Trail(g, Next(fat[c]));
    var t := Trail(fat, Some(c));
    assert t == [c] + rest;
    if fat[c].Data? {
      TrailShape(g, fat[c].next);
      var n := |t| - 1;
      assert t[..n] == [c] + rest[..n - 1];
      forall i | 0 <= i < n - 1 ensures rest[i] != c { assert g[rest[i]].Data?; }
      assert t[n] == rest[n - 1];
      assert forall x :: x in rest[..n - 1] || x == c ==> x in t[..n];
    }
  }

  /** The walk counts every cluster it frees once, except that on a closed loop (no reachable entry
      ends the walk) it comes back to a cluster it has freed and counts that one twice. */
  lemma ReleaseCount(fat: Fat, c: nat)
    requires LinksInRange(fat) && IsCluster(fat, c)
    ensures var freed := Elements(Trail(fat, Some(c)));
      |Trail(fat, Some(c))| == |freed| + if forall x :: x in freed ==> fat[x].Data? then 1 else 0
  {
    TrailShape(fat, c);
    var t := Trail(fat, Some(c));
    var n := |t| - 1;
    DistinctCount(t[..n]);
    assert t == t[..n] + [t[n]];
    assert Elements(t) == Elements(t[..n]) + {t[n]};
    if t[n] in t[..n] {
      assert Elements(t) == Elements(t[..n]);
      forall x | x in Elements(t) ensures fat[x].Data? {
        var i :| 0 <= i < n && t[..n][i] == x;
      }
    } else {
      assert t[n] in Elements(t);
    }
  }

  /** Two clusters that link to each other are counted as three. */
  lemma LoopCountsOneMore()
    ensures var fat := [EndOfChain, EndOfChain, Data(3), Data(2)];
      LinksInRange(fat) && Trail(fat, Some(2)) == [2, 3, 2] && Elements(Trail(fat, Some(2))) == {2, 3}
  {
    var fat := [EndOfChain, EndOfChain, Data(3), Data(2)];
    var once := fat[2 := Free];
    var twice := once[3 := Free];
    ReleaseStep(fat, 2);
    ReleaseStep(once, 3);
    ReleaseStep(twice, 2);
    assert Trail(twice, Some(2)) == [2] && Trail(once, Some(3)) == [3] + [2] && Trail(fat, Some(2)) == [2] + [3, 2];
  }

  // ---------- the operations on a heap of chains ----------

  lemma {:induction false} ChainTrail(fat: Fat, ch: seq<nat>)
    requires LinksInRange(fat) && IsChain(fat, ch)
    ensures Trail(fat, Some(ch[0])) == ch
    decreases |ch|
  {
    var g := fat[ch[0] := Free];
    if |ch| == 1 {
      assert Trail(g, None) == [];
    } else {
      var rest := ch[1..];
      forall i, j | 0 <= i < j < |rest| && j == i + 1 ensures g[rest[i]] == Data(rest[j]) {
        assert rest[i] == ch[i + 1] && rest[j] == ch[j + 1];
      }
      assert IsChain(g, rest);
      ChainTrail(g, rest);
      assert ch == [ch[0]] + rest;
    }
  }

  lemma HeapLinks(fat: Fat, chains: set<seq<nat>>)
    requires Heap(fat, chains)
    ensures LinksInRange(fat)
  {
    forall c | RESERVED_FAT_ENTRIES <= c < |fat| && fat[c].Data?
      ensures IsCluster(fat, fat[c].next)
    {
      assert Covered(chains, c);
      var ch := ChainOf(chains, c);
      assert IsChain(fat, ch);
      var i := IndexOf(ch, c);
      assert i < |ch| - 1;
      assert fat[ch[i]] == Data(ch[i + 1]);
    }
  }

  lemma ChainFrame(fat: Fat, g: Fat, ch: seq<nat>)
    requires IsChain(fat, ch) && |g| == |fat|
    requires forall c :: c in ch ==> g[c] == fat[c]
    ensures IsChain(g, ch)
  {
    forall i, j | 0 <= i < j < |ch| && j == i + 1 ensures g[ch[i]] == Data(ch[j]) {
      assert fat[ch[i]] == Data(ch[j]);
    }
  }

  /** The chains `out` are replaced by the chains `into`; the table changes only on `touched`. */
  ghost predicate Swap(fat: Fat, g: Fat, chains: set<seq<nat>>, out: set<seq<nat>>, into: set<seq<nat>>,
                       touched: set<nat>)
  {
    && out <= chains && |g| == |fat|
    && (forall c :: c in touched ==> IsCluster(fat, c) && (fat[c] == Free || Covered(out, c)))
    && (forall ch, c :: ch in out && c in ch ==> c in touched)
    && (forall c :: 0 <= c < |fat| && c !in touched ==> g[c] == fat[c])
    && AllChains(g, into)
    && (forall ch, c :: ch in into && c in ch ==> c in touched)
    && (forall a, b :: a in into && b in into ==> a == b)
    && (forall c {:trigger Covered(into, c)} :: c in touched ==> (Covered(into, c) <==> InUse(g[c])))
  }

  lemma NotCovered(chains: set<seq<nat>>, out: set<seq<nat>>, ch: seq<nat>, c: nat)
    requires Disjoint(chains) && out <= chains && ch in chains - out && c in ch
    ensures !Covered(out, c)
  {
    forall o | o in out ensures c !in o {
      assert Apart(ch, o);
    }
  }

  lemma ChainInUse(fat: Fat, ch: seq<nat>, c: nat)
    requires IsChain(fat, ch) && c in ch
    ensures IsCluster(fat, c) && InUse(fat[c])
  {
    var i := IndexOf(ch, c);
    if i < |ch| - 1 { assert fat[ch[i]] == Data(ch[i + 1]); }
  }

  /** The chains that stay do not meet the touched clusters. */
  lemma SwapKeeps(fat: Fat, g: Fat, chains: set<seq<nat>>, out: set<seq<nat>>, into: set<seq<nat>>,
                  touched: set<nat>, ch: seq<nat>)
    requires Heap(fat, chains) && Swap(fat, g, chains, out, into, touched) && ch in chains - out
    ensures forall c :: c in ch ==> c !in touched
  {
    forall c | c in ch ensures c !in touched {
      ChainInUse(fat, ch, c);
      NotCovered(chains, out, ch, c);
    }
  }

  lemma SwapChains(fat: Fat, g: Fat, chains: set<seq<nat>>, out: set<seq<nat>>, into: set<seq<nat>>,
                   touched: set<nat>)
    requires Heap(fat, chains) && Swap(fat, g, chains, out, into, touched)
    ensures AllChains(g, chains - out + into)
  {
    forall ch | ch in chains - out + into ensures IsChain(g, ch) {
      if ch in chains - out {
        SwapKeeps(fat, g, chains, out, into, touched, ch);
        assert IsChain(fat, ch);
        forall c | c in ch ensures g[c] == fat[c] {
          var i := IndexOf(ch, c);
          assert IsCluster(fat, ch[i]);
        }
        ChainFrame(fat, g, ch);
      }
    }
  }

  lemma SwapDisjoint(fat: Fat, g: Fat, chains: set<seq<nat>>, out: set<seq<nat>>, into: set<seq<nat>>,
                     touched: set<nat>)
    requires Heap(fat, chains) && Swap(fat, g, chains, out, into, touched)
    ensures Disjoint(chains - out + into)
  {
    forall a, b | a in chains - out + into && b in chains - out + into && a != b
      ensures Apart(a, b)
    {
      if a in chains - out {
        SwapKeeps(fat, g, chains, out, into, touched, a);
      }
      if b in chains - out {
        SwapKeeps(fat, g, chains, out, into, touched, b);
      }
    }
  }

  lemma SwapExact(fat: Fat, g: Fat, chains: set<seq<nat>>, out: set<seq<nat>>, into: set<seq<nat>>,
                  touched: set<nat>)
    requires Heap(fat, chains) && Swap(fat, g, chains, out, into, touched)
    ensures Exact(g, chains - out + into)
  {
    var chains' := chains - out + into;
    forall c | RESERVED_FAT_ENTRIES <= c < |g| ensures Covered(chains', c) <==> InUse(g[c]) {
      if Covered(chains', c) {
        var ch := ChainOf(chains', c);
        if ch in chains - out {
          SwapKeeps(fat, g, chains, out, into, touched, ch);
          assert Covered(chains, c);
        } else {
          assert Covered(into, c);
        }
      }
      if InUse(g[c]) {
        var ch := if c in touched then ChainOf(into, c) else ChainOf(chains, c);
        assert ch in chains';
      }
    }
  }

  lemma HeapSwap(fat: Fat, g: Fat, chains: set<seq<nat>>, out: set<seq<nat>>, into: set<seq<nat>>, touched: set<nat>)
    requires Heap(fat, chains) && Swap(fat, g, chains, out, into, touched)
    ensures Heap(g, chains - out + into)
  {
    SwapChains(fat, g, chains, out, into, touched);
    SwapDisjoint(fat, g, chains, out, into, touched);
    SwapExact(fat, g, chains, out, into, touched);
  }

  lemma CoveredByOne(ch: seq<nat>, c: nat)
    ensures Covered({ch}, c) <==> c in ch
  {
    if c in ch { assert ch in {ch}; }
  }

  /** One chain is replaced by another that uses its clusters and free ones. */
  lemma HeapReplace(fat: Fat, g: Fat, chains: set<seq<nat>>, ch: seq<nat>, ch': seq<nat>)
    requires Heap(fat, chains) && ch in chains && |g| == |fat| && IsChain(g, ch')
    requires forall c :: c in ch' && c !in ch ==> c < |fat| && fat[c] == Free
    requires forall c :: c in ch && c !in ch' ==> c < |fat| && !InUse(g[c])
    requires forall c :: 0 <= c < |fat| && c !in ch && c !in ch' ==> g[c] == fat[c]
    ensures Heap(g, chains - {ch} + {ch'})
  {
    var touched := Elements(ch) + Elements(ch');
    forall c | c in touched
      ensures IsCluster(fat, c) && (fat[c] == Free || Covered({ch}, c))
      ensures Covered({ch'}, c) <==> InUse(g[c])
    {
      CoveredByOne(ch, c);
      CoveredByOne(ch', c);
      if c in ch { ChainInUse(fat, ch, c); }
      if c in ch' { ChainInUse(g, ch', c); }
    }
    assert Swap(fat, g, chains, {ch}, {ch'}, touched);
    HeapSwap(fat, g, chains, {ch}, {ch'}, touched);
  }

  lemma SingleChain(fat: Fat, c: nat)
    requires IsCluster(fat, c) && fat[c] == Free
    ensures IsChain(fat[c := EndOfChain], [c])
    ensures Covered({[c]}, c)
  {
    CoveredByOne([c], c);
    assert [c][0] == c;
  }

  /** Taking a free cluster without a predecessor adds the one-cluster chain. */
  lemma AllocStartsChain(fat: Fat, chains: set<seq<nat>>, c: nat)
    requires Heap(fat, chains) && c in FreeSet(fat)
    ensures Heap(fat[c := EndOfChain], chains + {[c]})
    ensures FreeSet(fat[c := EndOfChain]) == FreeSet(fat) - {c}
  {
    var g := fat[c := EndOfChain];
    SingleChain(fat, c);
    FreeAfterUpdate(fat, c, EndOfChain);
    assert Heap(g, chains - {} + {[c]}) by {
      assert Swap(fat, g, chains, {}, {[c]}, {c});
      HeapSwap(fat, g, chains, {}, {[c]}, {c});
    }
    assert chains - {} == chains;
  }

  lemma ExtendedChain(fat: Fat, ch: seq<nat>, c: nat)
    requires IsChain(fat, ch) && IsCluster(fat, c) && fat[c] == Free
    ensures c !in ch
    ensures IsChain(fat[c := EndOfChain][ch[|ch| - 1] := Data(c)], ch + [c])
  {
    forall x | x in ch ensures x != c { ChainInUse(fat, ch, x); }
    var longer := ch + [c];
    var g := fat[c := EndOfChain][ch[|ch| - 1] := Data(c)];
    forall i, j | 0 <= i < j < |longer| && j == i + 1 ensures g[longer[i]] == Data(longer[j]) {
      if j < |ch| { assert fat[ch[i]] == Data(ch[j]); }
    }
  }

  /** Taking a free cluster after the last one of a chain appends exactly it to that chain. */
  lemma AllocExtendsChain(fat: Fat, chains: set<seq<nat>>, ch: seq<nat>, c: nat)
    requires Heap(fat, chains) && ch in chains && c in FreeSet(fat)
    ensures ch != [] && IsCluster(fat, ch[|ch| - 1])
    ensures var g := fat[c := EndOfChain][ch[|ch| - 1] := Data(c)];
      && Heap(g, chains - {ch} + {ch + [c]})
      && FreeSet(g) == FreeSet(fat) - {c}
  {
    var last := ch[|ch| - 1];
    ChainInUse(fat, ch, last);
    var g := fat[c := EndOfChain][last := Data(c)];
    FreeAfterUpdate(fat, c, EndOfChain);
    FreeAfterUpdate(fat[c := EndOfChain], last, Data(c));
    ExtendedChain(fat, ch, c);
    assert Heap(g, chains - {ch} + {ch + [c]}) by {
      HeapReplace(fat, g, chains, ch, ch + [c]);
    }
  }

  lemma FreeAfterUpdate(fat: Fat, c: nat, v: FatValue)
    requires IsCluster(fat, c) && v != Free
    ensures FreeSet(fat[c := v]) == FreeSet(fat) - {c}
  {
  }

  lemma FreeAfterRelease(fat: Fat, s: set<nat>)
    requires forall c :: c in s ==> IsCluster(fat, c)
    ensures FreeSet(Released(fat, s)) == FreeSet(fat) + s
  {
  }

  lemma HeapWithoutChain(fat: Fat, chains: set<seq<nat>>, ch: seq<nat>)
    requires Heap(fat, chains) && ch in chains
    ensures Heap(Released(fat, Elements(ch)), chains - {ch})
    ensures FreeSet(Released(fat, Elements(ch))) == FreeSet(fat) + Elements(ch)
  {
    var g := Released(fat, Elements(ch));
    assert IsChain(fat, ch);
    forall c | c in Elements(ch) ensures Covered({ch}, c) && IsCluster(fat, c) {
      CoveredByOne(ch, c);
      ChainInUse(fat, ch, c);
    }
    FreeAfterRelease(fat, Elements(ch));
    assert Swap(fat, g, chains, {ch}, {}, Elements(ch));
    HeapSwap(fat, g, chains, {ch}, {}, Elements(ch));
    assert chains - {ch} + {} == chains - {ch};
  }

  /** Releasing from the first cluster of a chain frees exactly that chain. */
  lemma ReleaseRemovesChain(fat: Fat, chains: set<seq<nat>>, ch: seq<nat>)
    requires Heap(fat, chains) && ch in chains
    ensures LinksInRange(fat) && ch != [] && IsCluster(fat, ch[0])
    ensures Trail(fat, Some(ch[0])) == ch
    ensures Heap(ReleaseFrom(fat, Some(ch[0])), chains - {ch})
    ensures FreeSet(ReleaseFrom(fat, Some(ch[0]))) == FreeSet(fat) + Elements(ch)
  {
    HeapLinks(fat, chains);
    ChainTrail(fat, ch);
    HeapWithoutChain(fat, chains, ch);
  }

  lemma PrefixFacts(fat: Fat, ch: seq<nat>, k: nat)
    requires IsChain(fat, ch) && k < |ch|
    ensures IsCluster(fat, ch[k])
    ensures forall c :: c in ch ==> c < |fat| && (c in ch[..k + 1] || c in ch[k + 1..])
    ensures FreeSet(Released(fat[ch[k] := EndOfChain], Elements(ch[k + 1..]))) == FreeSet(fat) + Elements(ch[k + 1..])
  {
    ChainInUse(fat, ch, ch[k]);
    var s := Elements(ch[k + 1..]);
    forall c | c in s ensures IsCluster(fat, c) { ChainInUse(fat, ch, c); }
    FreeAfterRelease(fat[ch[k] := EndOfChain], s);
    FreeAfterUpdate(fat, ch[k], EndOfChain);
    forall c | c in ch ensures c < |fat| && (c in ch[..k + 1] || c in s) {
      ChainInUse(fat, ch, c);
      assert ch == ch[..k + 1] + ch[k + 1..];
    }
  }

  lemma PrefixChange(fat: Fat, ch: seq<nat>, k: nat)
    requires IsChain(fat, ch) && k < |ch|
    ensures IsCluster(fat, ch[k])
    ensures var g := Released(fat[ch[k] := EndOfChain], Elements(ch[k + 1..]));
      && (forall c :: c in ch[..k + 1] ==> c in ch)
      && (forall c :: c in ch && c !in ch[..k + 1] ==> c < |fat| && !InUse(g[c]))
      && (forall c :: 0 <= c < |fat| && c !in ch ==> g[c] == fat[c])
  {
    PrefixFacts(fat, ch, k);
    assert forall c :: c in ch[k + 1..] ==> c in ch;
  }

  lemma HeapWithPrefix(fat: Fat, chains: set<seq<nat>>, ch: seq<nat>, k: nat)
    requires Heap(fat, chains) && ch in chains && k < |ch|
    ensures IsCluster(fat, ch[k])
    ensures Heap(Released(fat[ch[k] := EndOfChain], Elements(ch[k + 1..])), chains - {ch} + {ch[..k + 1]})
  {
    PrefixChange(fat, ch, k);
    PrefixChain(fat, ch, k);
    var g := Released(fat[ch[k] := EndOfChain], Elements(ch[k + 1..]));
    HeapReplace(fat, g, chains, ch, ch[..k + 1]);
  }

  lemma TruncateValue(fat: Fat, ch: seq<nat>, k: nat)
    requires LinksInRange(fat) && IsChain(fat, ch) && k < |ch|
    ensures IsCluster(fat, ch[k]) && LinksInRange(fat[ch[k] := EndOfChain])
    ensures Trail(fat[ch[k] := EndOfChain], Next(fat[ch[k]])) == ch[k + 1..]
    ensures TruncateAt(fat, ch[k]) == Released(fat[ch[k] := EndOfChain], Elements(ch[k + 1..]))
  {
    TruncatedTrail(fat, ch, k);
  }

  /** Truncating at a cluster keeps exactly the prefix of its chain that ends there. */
  lemma TruncateKeepsPrefix(fat: Fat, chains: set<seq<nat>>, ch: seq<nat>, k: nat)
    requires Heap(fat, chains) && ch in chains && k < |ch|
    ensures LinksInRange(fat) && IsCluster(fat, ch[k])
    ensures Heap(TruncateAt(fat, ch[k]), chains - {ch} + {ch[..k + 1]})
    ensures FreeSet(TruncateAt(fat, ch[k])) == FreeSet(fat) + Elements(ch[k + 1..])
  {
    HeapLinks(fat, chains);
    HeapWithPrefix(fat, chains, ch, k);
    PrefixFacts(fat, ch, k);
    TruncateValue(fat, ch, k);
  }

  lemma PrefixChain(fat: Fat, ch: seq<nat>, k: nat)
    requires IsChain(fat, ch) && k < |ch|
    ensures Apart(ch[..k + 1], ch[k + 1..])
    ensures IsChain(Released(fat[ch[k] := EndOfChain], Elements(ch[k + 1..])), ch[..k + 1])
  {
    var prefix := ch[..k + 1];
    var g := Released(fat[ch[k] := EndOfChain], Elements(ch[k + 1..]));
    forall c | c in prefix ensures c !in ch[k + 1..] {
      var i :| 0 <= i <= k && ch[i] == c;
    }
    forall i, j | 0 <= i < j < |prefix| && j == i + 1 ensures g[prefix[i]] == Data(prefix[j]) {
      assert fat[ch[i]] == Data(ch[j]) && prefix[i] in prefix;
    }
    assert prefix[k] in prefix;
  }

  lemma TruncatedTrail(fat: Fat, ch: seq<nat>, k: nat)
    requires LinksInRange(fat) && IsChain(fat, ch) && k < |ch|
    ensures LinksInRange(fat[ch[k] := EndOfChain])
    ensures Trail(fat[ch[k] := EndOfChain], Next(fat[ch[k]])) == ch[k + 1..]
  {
    var cut := fat[ch[k] := EndOfChain];
    if k == |ch| - 1 {
      assert Trail(cut, None) == [];
    } else {
      var tail := ch[k + 1..];
      assert fat[ch[k]] == Data(ch[k + 1]);
      forall i, j | 0 <= i < j < |tail| && j == i + 1 ensures cut[tail[i]] == Data(tail[j]) {
        assert fat[ch[k + 1 + i]] == Data(ch[k + 1 + j]);
      }
      assert IsChain(cut, tail);
      ChainTrail(cut, tail);
    }
  }

  // ---------- runs ----------

  datatype Op =
    | Alloc(prev: Option<nat>, hint: Option<nat>)
    | Truncate(cluster: nat)
    | Release(first: nat)

  /** What the file system passes: a chain's last cluster, a chain member, a chain's first cluster. */
  ghost predicate Legal(chains: set<seq<nat>>, op: Op) {
    match op
    case Alloc(prev, _) =>
      prev.Some? ==>
        Covered(chains, prev.value) && (var ch := ChainOf(chains, prev.value); prev.value == ch[|ch| - 1])
    case Truncate(c) => Covered(chains, c)
    case Release(c) => Covered(chains, c) && ChainOf(chains, c)[0] == c
  }

  /** The table after an allocation; unchanged when no cluster is free. */
  ghost function AllocIn(fat: Fat, prev: Option<nat>, hint: Option<nat>): Fat
    requires prev.Some? ==> prev.value < |fat|
  {
    var c := Pick(fat, hint);
    if c.None? then fat
    else if prev.None? then fat[c.value := EndOfChain]
    else fat[c.value := EndOfChain][prev.value := Data(c.value)]
  }

  /** The same step on chains alone: allocation appends to one chain or starts one, truncation cuts
      one, release removes one; all the others are the same chains as before. */
  ghost function ApplyToChains(fat: Fat, chains: set<seq<nat>>, op: Op): set<seq<nat>>
    requires Legal(chains, op)
  {
    match op
    case Alloc(prev, hint) =>
      var c := Pick(fat, hint);
      if c.None? then chains
      else if prev.None? then chains + {[c.value]}
      else var ch := ChainOf(chains, prev.value); chains - {ch} + {ch + [c.value]}
    case Truncate(c) =>
      var ch := ChainOf(chains, c);
      chains - {ch} + {ch[..IndexOf(ch, c) + 1]}
    case Release(c) => chains - {ChainOf(chains, c)}
  }

  lemma AllocKeepsHeap(fat: Fat, chains: set<seq<nat>>, prev: Option<nat>, hint: Option<nat>)
    requires Heap(fat, chains) && Legal(chains, Alloc(prev, hint))
    ensures prev.Some? ==> prev.value < |fat|
    ensures Heap(AllocIn(fat, prev, hint), ApplyToChains(fat, chains, Alloc(prev, hint)))
  {
    PickIsComplete(fat, hint);
    var c := Pick(fat, hint);
    if prev.Some? {
      var ch := ChainOf(chains, prev.value);
      ChainInUse(fat, ch, prev.value);
      if c.Some? { AllocExtendsChain(fat, chains, ch, c.value); }
    } else if c.Some? {
      AllocStartsChain(fat, chains, c.value);
    }
  }

  lemma TruncateKeepsHeap(fat: Fat, chains: set<seq<nat>>, c: nat)
    requires Heap(fat, chains) && Covered(chains, c)
    ensures LinksInRange(fat) && IsCluster(fat, c)
    ensures Heap(TruncateAt(fat, c), ApplyToChains(fat, chains, Truncate(c)))
  {
    var ch := ChainOf(chains, c);
    var k := IndexOf(ch, c);
    var chains' := ApplyToChains(fat, chains, Truncate(c));
    assert chains' == chains - {ch} + {ch[..k + 1]};
    TruncateKeepsPrefix(fat, chains, ch, k);
  }

  lemma ReleaseKeepsHeap(fat: Fat, chains: set<seq<nat>>, c: nat)
    requires Heap(fat, chains) && Legal(chains, Release(c))
    ensures LinksInRange(fat) && IsCluster(fat, c)
    ensures Heap(ReleaseFrom(fat, Some(c)), ApplyToChains(fat, chains, Release(c)))
  {
    ReleaseRemovesChain(fat, chains, ChainOf(chains, c));
  }

  ghost function Apply(fat: Fat, chains: set<seq<nat>>, op: Op): Fat
    requires Heap(fat, chains) && Legal(chains, op)
  {
    match op
    case Alloc(prev, hint) => AllocKeepsHeap(fat, chains, prev, hint); AllocIn(fat, prev, hint)
    case Truncate(c) => TruncateKeepsHeap(fat, chains, c); TruncateAt(fat, c)
    case Release(c) => ReleaseKeepsHeap(fat, chains, c); ReleaseFrom(fat, Some(c))
  }

  lemma StepKeepsHeap(fat: Fat, chains: set<seq<nat>>, op: Op)
    requires Heap(fat, chains) && Legal(chains, op)
    ensures Heap(Apply(fat, chains, op), ApplyToChains(fat, chains, op)) && |Apply(fat, chains, op)| == |fat|
  {
    match op
    case Alloc(prev, hint) => AllocKeepsHeap(fat, chains, prev, hint);
    case Truncate(c) => TruncateKeepsHeap(fat, chains, c);
    case Release(c) => ReleaseKeepsHeap(fat, chains, c);
  }

  /** A run in which every operation is legal when its turn comes. */
  ghost predicate LegalRun(fat: Fat, chains: set<seq<nat>>, ops: seq<Op>)
    requires Heap(fat, chains)
    decreases |ops|
  {
    ops != [] ==>
      && Legal(chains, ops[0])
      && (StepKeepsHeap(fat, chains, ops[0]);
          LegalRun(Apply(fat, chains, ops[0]), ApplyToChains(fat, chains, ops[0]), ops[1..]))
  }

  ghost function RunTable(fat: Fat, chains: set<seq<nat>>, ops: seq<Op>): (r: (Fat, set<seq<nat>>))
    requires Heap(fat, chains) && LegalRun(fat, chains, ops)
    decreases |ops|
  {
    if ops == [] then (fat, chains)
    else
      StepKeepsHeap(fat, chains, ops[0]);
      RunTable(Apply(fat, chains, ops[0]), ApplyToChains(fat, chains, ops[0]), ops[1..])
  }

  /** Every legal run from a heap of chains ends in a heap of chains. */
  lemma {:induction false} RunKeepsHeap(fat: Fat, chains: set<seq<nat>>, ops: seq<Op>)
    requires Heap(fat, chains) && LegalRun(fat, chains, ops)
    ensures var (g, after) := RunTable(fat, chains, ops); Heap(g, after) && |g| == |fat|
    decreases |ops|
  {
    if ops != [] {
      StepKeepsHeap(fat, chains, ops[0]);
      RunKeepsHeap(Apply(fat, chains, ops[0]), ApplyToChains(fat, chains, ops[0]), ops[1..]);
    }
  }
}
