/** Where clusters lie on the disk, and a chain of clusters as one flat byte sequence. */
module ClusterSpace {
  import opened Prelude
  import opened FatCodec
  import opened Blocks

  /** The layout numbers of the boot sector that place clusters on the disk. */
  datatype Layout = Layout(firstDataSector: nat, sectorsPerCluster: nat, bytesPerSector: nat) {
    predicate Valid() {
      sectorsPerCluster > 0 && bytesPerSector > 0
    }

    /** Sectors per cluster times bytes per sector. */
    function ClusterSize(): (r: nat)
      ensures Valid() ==> r > 0
    {
      Span(sectorsPerCluster, bytesPerSector)
    }

    function SectorFromCluster(c: nat): nat
      requires c >= RESERVED_FAT_ENTRIES
    {
      firstDataSector + (c - RESERVED_FAT_ENTRIES) * sectorsPerCluster
    }

    function OffsetFromCluster(c: nat): nat
      requires c >= RESERVED_FAT_ENTRIES
    {
      SectorFromCluster(c) * bytesPerSector
    }

    /** The clusters as equal blocks from the first data byte on. */
    function Area(): Space {
      Space(Span(firstDataSector, bytesPerSector), ClusterSize())
    }
  }

  datatype Space = Space(base: nat, cs: nat) {
    function Start(c: nat): nat
      requires c >= RESERVED_FAT_ENTRIES
    {
      base + Span(c - RESERVED_FAT_ENTRIES, cs)
    }
  }

  lemma Distribute(f: nat, k: nat, s: nat, b: nat)
    ensures (f + k * s) * b == f * b + k * (s * b)
  {
    assert (k * s) * b == k * (s * b);
  }

  /** The sector arithmetic places cluster `c` at block `c - 2` of the data area. */
  lemma ClusterOffset(l: Layout, c: nat)
    requires c >= RESERVED_FAT_ENTRIES
    ensures l.OffsetFromCluster(c) == l.Area().Start(c)
  {
    var k := c - RESERVED_FAT_ENTRIES;
    Distribute(l.firstDataSector, k, l.sectorsPerCluster, l.bytesPerSector);
    SpanIsProduct(l.firstDataSector, l.bytesPerSector);
    SpanIsProduct(l.sectorsPerCluster, l.bytesPerSector);
    SpanIsProduct(k, l.ClusterSize());
  }

  /** Where byte `o` of cluster `c` lies: the first data sector is that of cluster 2. */
  function Place(l: Layout, c: nat, o: nat): (at: nat)
    requires c >= 2
    ensures c == 2 ==> at == l.firstDataSector * l.bytesPerSector + o
  {
    (l.firstDataSector + (c - 2) * l.sectorsPerCluster) * l.bytesPerSector + o
  }

  /** The blocks lie there. */
  lemma PlaceOfCluster(l: Layout, c: nat, o: nat)
    requires c >= 2
    ensures l.OffsetFromCluster(c) + o == l.Area().Start(c) + o == Place(l, c, o)
    ensures l.ClusterSize() == l.sectorsPerCluster * l.bytesPerSector
  {
    ClusterOffset(l, c);
    SpanIsProduct(l.sectorsPerCluster, l.bytesPerSector);
  }

  /** Distinct clusters occupy disjoint byte ranges. */
  lemma ClustersApart(sp: Space, c: nat, d: nat)
    requires RESERVED_FAT_ENTRIES <= c < d
    ensures sp.Start(c) + sp.cs <= sp.Start(d)
  {
    SpanStep(c - RESERVED_FAT_ENTRIES, d - RESERVED_FAT_ENTRIES, sp.cs);
  }

  /** A disk of `size` bytes has room for the clusters below `end`. */
  predicate Fits(sp: Space, size: nat, end: nat) {
    end >= RESERVED_FAT_ENTRIES && sp.cs > 0 && sp.Start(end) <= size
  }

  ghost predicate InSpace(c: nat, end: nat) {
    RESERVED_FAT_ENTRIES <= c < end
  }

  lemma ClusterFits(sp: Space, disk: seq<byte>, end: nat, c: nat)
    requires Fits(sp, |disk|, end) && InSpace(c, end)
    ensures sp.Start(c) + sp.cs <= |disk|
  {
    ClustersApart(sp, c, end);
  }

  /** The bytes of one cluster. */
  ghost function Cluster(sp: Space, disk: seq<byte>, end: nat, c: nat): (r: seq<byte>)
    requires Fits(sp, |disk|, end) && InSpace(c, end)
    ensures |r| == sp.cs
  {
    ClusterFits(sp, disk, end, c);
    disk[sp.Start(c)..sp.Start(c) + sp.cs]
  }

  ghost predicate ChainInSpace(ch: seq<nat>, end: nat) {
    forall i :: 0 <= i < |ch| ==> InSpace(ch[i], end)
  }

  /** The bytes of a chain, cluster after cluster. */
  ghost function ChainBytes(sp: Space, disk: seq<byte>, end: nat, ch: seq<nat>): (r: seq<byte>)
    requires Fits(sp, |disk|, end) && ChainInSpace(ch, end)
    ensures |r| == Span(|ch|, sp.cs)
  {
    if ch == [] then []
    else
      var n := |ch| - 1;
      ChainBytes(sp, disk, end, ch[..n]) + Cluster(sp, disk, end, ch[n])
  }

  lemma ChainBytesAppend(sp: Space, disk: seq<byte>, end: nat, ch: seq<nat>, c: nat)
    requires Fits(sp, |disk|, end) && ChainInSpace(ch, end) && InSpace(c, end)
    ensures ChainInSpace(ch + [c], end)
    ensures ChainBytes(sp, disk, end, ch + [c]) == ChainBytes(sp, disk, end, ch) + Cluster(sp, disk, end, c)
  {
    assert (ch + [c])[..|ch|] == ch;
  }

  /** A prefix of the clusters is a prefix of the bytes. */
  lemma {:induction false} ChainBytesPrefix(sp: Space, disk: seq<byte>, end: nat, ch: seq<nat>, k: nat)
    requires Fits(sp, |disk|, end) && ChainInSpace(ch, end) && k <= |ch|
    ensures Span(k, sp.cs) <= Span(|ch|, sp.cs)
    ensures ChainBytes(sp, disk, end, ch[..k]) == ChainBytes(sp, disk, end, ch)[..Span(k, sp.cs)]
  {
    var cs, n := sp.cs, |ch| - 1;
    if k == |ch| {
      assert ch[..k] == ch;
    } else {
      assert ch[..n][..k] == ch[..k];
      ChainBytesPrefix(sp, disk, end, ch[..n], k);
      SpanStep(n, n + 1, cs);
    }
  }

  /** Cluster number `k` of a chain holds the bytes from `k` cluster sizes on. */
  lemma {:induction false} ChainBytesAt(sp: Space, disk: seq<byte>, end: nat, ch: seq<nat>, k: nat)
    requires Fits(sp, |disk|, end) && ChainInSpace(ch, end) && k < |ch|
    ensures Span(k, sp.cs) + sp.cs <= |ChainBytes(sp, disk, end, ch)|
    ensures Cluster(sp, disk, end, ch[k])
      == ChainBytes(sp, disk, end, ch)[Span(k, sp.cs)..Span(k, sp.cs) + sp.cs]
  {
    var cs := sp.cs;
    SpanStep(k, |ch|, cs);
    ChainBytesPrefix(sp, disk, end, ch, k + 1);
    assert ch[..k + 1][..k] == ch[..k];
    assert ChainBytes(sp, disk, end, ch[..k + 1]) == ChainBytes(sp, disk, end, ch[..k]) + Cluster(sp, disk, end, ch[k]);
  }

  /** `disk` with `d` written inside cluster `c` from byte `o` of the cluster. */
  ghost function Poke(sp: Space, disk: seq<byte>, end: nat, c: nat, o: nat, d: seq<byte>): (r: seq<byte>)
    requires Fits(sp, |disk|, end) && InSpace(c, end) && o + |d| <= sp.cs
    ensures |r| == |disk|
  {
    ClusterFits(sp, disk, end, c);
    Splice(disk, sp.Start(c) + o, d)
  }

  /** A write inside a cluster changes that cluster there and no other cluster. */
  lemma PokeCluster(sp: Space, disk: seq<byte>, end: nat, c: nat, o: nat, d: seq<byte>, c': nat)
    requires Fits(sp, |disk|, end) && InSpace(c, end) && InSpace(c', end) && o + |d| <= sp.cs
    ensures Cluster(sp, Poke(sp, disk, end, c, o, d), end, c')
      == if c' == c then Splice(Cluster(sp, disk, end, c), o, d) else Cluster(sp, disk, end, c')
  {
    ClusterFits(sp, disk, end, c);
    ClusterFits(sp, disk, end, c');
    if c < c' { ClustersApart(sp, c, c'); }
    if c' < c { ClustersApart(sp, c', c); }
  }

  lemma {:induction false} PokeElsewhere(
    sp: Space, disk: seq<byte>, end: nat, c: nat, o: nat, d: seq<byte>, ch: seq<nat>)
    requires Fits(sp, |disk|, end) && InSpace(c, end) && o + |d| <= sp.cs
    requires ChainInSpace(ch, end) && c !in ch
    ensures ChainBytes(sp, Poke(sp, disk, end, c, o, d), end, ch) == ChainBytes(sp, disk, end, ch)
  {
    if ch != [] {
      var n := |ch| - 1;
      PokeElsewhere(sp, disk, end, c, o, d, ch[..n]);
      PokeCluster(sp, disk, end, c, o, d, ch[n]);
    }
  }

  lemma PokeLastBytes(sp: Space, disk: seq<byte>, end: nat, ch: seq<nat>, o: nat, d: seq<byte>)
    requires Fits(sp, |disk|, end) && ChainInSpace(ch, end)
    requires ch != [] && ch[|ch| - 1] !in ch[..|ch| - 1] && o + |d| <= sp.cs
    ensures var n := |ch| - 1;
      ChainBytes(sp, Poke(sp, disk, end, ch[n], o, d), end, ch)
        == ChainBytes(sp, disk, end, ch[..n]) + Splice(Cluster(sp, disk, end, ch[n]), o, d)
  {
    var n := |ch| - 1;
    PokeCluster(sp, disk, end, ch[n], o, d, ch[n]);
    PokeElsewhere(sp, disk, end, ch[n], o, d, ch[..n]);
  }

  lemma PokeLast(sp: Space, disk: seq<byte>, end: nat, ch: seq<nat>, o: nat, d: seq<byte>)
    requires Fits(sp, |disk|, end) && ChainInSpace(ch, end)
    requires ch != [] && ch[|ch| - 1] !in ch[..|ch| - 1] && o + |d| <= sp.cs
    ensures var n := |ch| - 1;
      && Span(n, sp.cs) + sp.cs <= |ChainBytes(sp, disk, end, ch)|
      && ChainBytes(sp, Poke(sp, disk, end, ch[n], o, d), end, ch)
        == Splice(ChainBytes(sp, disk, end, ch), Span(n, sp.cs) + o, d)
  {
    var n := |ch| - 1;
    PokeLastBytes(sp, disk, end, ch, o, d);
    SpliceRight(ChainBytes(sp, disk, end, ch[..n]), Cluster(sp, disk, end, ch[n]), o, d);
  }

  /** A write inside cluster number `k` of a chain is one splice of the chain's bytes. */
  lemma {:induction false} PokeChain(sp: Space, disk: seq<byte>, end: nat, ch: seq<nat>, k: nat, o: nat, d: seq<byte>)
    requires Fits(sp, |disk|, end) && ChainInSpace(ch, end) && Distinct(ch)
    requires k < |ch| && o + |d| <= sp.cs
    ensures Span(k, sp.cs) + sp.cs <= |ChainBytes(sp, disk, end, ch)|
    ensures ChainBytes(sp, Poke(sp, disk, end, ch[k], o, d), end, ch)
      == Splice(ChainBytes(sp, disk, end, ch), Span(k, sp.cs) + o, d)
  {
    var cs, n := sp.cs, |ch| - 1;
    SpanStep(k, |ch|, cs);
    if k == n {
      assert ch[n] !in ch[..n];
      PokeLast(sp, disk, end, ch, o, d);
    } else {
      var init, last := ChainBytes(sp, disk, end, ch[..n]), Cluster(sp, disk, end, ch[n]);
      SpanStep(k, n, cs);
      assert ch[..n][k] == ch[k] && |Poke(sp, disk, end, ch[k], o, d)| == |disk|;
      PokeChain(sp, disk, end, ch[..n], k, o, d);
      PokeCluster(sp, disk, end, ch[k], o, d, ch[n]);
      SpliceLeft(init, last, Span(k, cs) + o, d);
    }
  }

  // ---------- a position of a file on the disk ----------

  /** The bytes `d` stand on the disk where the position `offset` of a chain lies. */
  predicate StandsOnDisk(l: Layout, disk: seq<byte>, chain: seq<nat>, offset: nat, d: seq<byte>) {
    var cs := l.sectorsPerCluster * l.bytesPerSector;
    && cs > 0 && offset / cs < |chain| && chain[offset / cs] >= 2
    && var at := Place(l, chain[offset / cs], offset % cs);
       at + |d| <= |disk| && disk[at..at + |d|] == d
  }

  /** And nothing else has changed, but that the cluster there was cleared first if it had to be. */
  predicate WrittenOnDisk(
    l: Layout, disk: seq<byte>, disk': seq<byte>, chain: seq<nat>, offset: nat, d: seq<byte>, cleared: bool)
  {
    StandsOnDisk(l, disk', chain, offset, d) &&
    var cs := l.sectorsPerCluster * l.bytesPerSector;
    var c, o := chain[offset / cs], offset % cs;
    && |disk'| == |disk| && Place(l, c, 0) + cs <= |disk| && o + |d| <= cs
    && forall i {:trigger disk'[i]} :: 0 <= i < |disk| && !(Place(l, c, o) <= i < Place(l, c, o) + |d|) ==>
         disk'[i] == if cleared && Place(l, c, 0) <= i < Place(l, c, 0) + cs then 0 else disk[i]
  }

  /** What lies in cluster number `Quot` of the chain, seen by division. */
  lemma ReadOnDisk(l: Layout, disk: seq<byte>, end: nat, chain: seq<nat>, offset: nat, n: nat)
    requires Fits(l.Area(), |disk|, end) && ChainInSpace(chain, end)
    requires Quot(offset, l.ClusterSize()) < |chain| && n <= l.ClusterSize() - Rem(offset, l.ClusterSize())
    ensures var c, o := chain[Quot(offset, l.ClusterSize())], Rem(offset, l.ClusterSize());
      StandsOnDisk(l, disk, chain, offset, Cluster(l.Area(), disk, end, c)[o..o + n])
  {
    var cs := l.ClusterSize();
    var c, o := chain[Quot(offset, cs)], Rem(offset, cs);
    QuotIsDivision(offset, cs);
    PlaceOfCluster(l, c, o);
    ClusterFits(l.Area(), disk, end, c);
    SliceOfSlice(disk, l.Area().Start(c), l.Area().Start(c) + cs, o, n);
  }

  lemma PokeOnDisk(l: Layout, disk: seq<byte>, end: nat, chain: seq<nat>, offset: nat, d: seq<byte>, cleared: bool)
    requires Fits(l.Area(), |disk|, end) && ChainInSpace(chain, end)
    requires Quot(offset, l.ClusterSize()) < |chain| && |d| <= l.ClusterSize() - Rem(offset, l.ClusterSize())
    ensures var c, o := chain[Quot(offset, l.ClusterSize())], Rem(offset, l.ClusterSize());
      var base := if cleared then Poke(l.Area(), disk, end, c, 0, Zeros(l.ClusterSize())) else disk;
      WrittenOnDisk(l, disk, Poke(l.Area(), base, end, c, o, d), chain, offset, d, cleared)
  {
    var cs := l.ClusterSize();
    var c, o := chain[Quot(offset, cs)], Rem(offset, cs);
    QuotIsDivision(offset, cs);
    PlaceOfCluster(l, c, 0);
    PlaceOfCluster(l, c, o);
    ClusterFits(l.Area(), disk, end, c);
  }
}
