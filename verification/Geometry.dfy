/** Volume geometry: choosing the cluster size, the FAT type and the size of the FAT, and what mounting
    checks of the result. */
module Geometry {
  import opened Prelude
  import opened FatCodec

  const KB := 0x400
  const MB := 0x10_0000
  const GB := 0x4000_0000
  const U32_BOUND := 0x1_0000_0000

  // ---------- FAT types ----------

  function FromClusters(n: nat): FatType {
    if n < 4085 then Fat12 else if n < 65525 then Fat16 else Fat32
  }

  function EntryBits(t: FatType): (n: nat)
    ensures 12 <= n <= 32
  {
    match t
    case Fat12 => 12
    case Fat16 => 16
    case Fat32 => 32
  }

  function MaxClusters(t: FatType): nat {
    match t
    case Fat12 => 4084
    case Fat16 => 65524
    case Fat32 => 0x0FFF_FFF4
  }

  // ---------- powers of two ----------

  function CountOnes(n: nat): nat {
    if n == 0 then 0 else n % 2 + CountOnes(n / 2)
  }

  /** `p` doubled until it reaches `n`. */
  function Doubled(n: nat, p: nat): (r: nat)
    requires p > 0
    ensures n <= r && p <= r && (r == p || r < 2 * n)
    decreases n - p
  {
    if n <= p then p else Doubled(n, 2 * p)
  }

  function NextPowerOfTwo(n: nat): nat {
    Doubled(n, 1)
  }

  /** Doubling may start later. */
  lemma Hop(n: nat, p: nat)
    requires p > 0 && n > 8 * p
    ensures Doubled(n, p) == Doubled(n, 16 * p)
  {
    assert Doubled(n, p) == Doubled(n, 2 * p) == Doubled(n, 4 * p) == Doubled(n, 8 * p);
  }

  // ---------- the cluster size ----------

  function EstimateFatType(totalBytes: nat): FatType {
    if totalBytes < 4 * MB then Fat12 else if totalBytes < 512 * MB then Fat16 else Fat32
  }

  function DetermineBytesPerCluster(totalBytes: nat, bytesPerSector: nat, override: Option<FatType>): nat {
    var t := if override.Some? then override.value else EstimateFatType(totalBytes);
    var n := match t
      case Fat12 => NextPowerOfTwo(totalBytes) / 0x10_0000 * 512 % U32_BOUND  // a cast to 32 bits
      case Fat16 =>
        if totalBytes <= 16 * MB then KB
        else if totalBytes <= 128 * MB then 2 * KB
        else NextPowerOfTwo(totalBytes) / 0x400_0000 * KB
      case Fat32 =>
        if totalBytes <= 260 * MB then 512
        else if totalBytes <= 8 * GB then 4 * KB
        else NextPowerOfTwo(totalBytes) / 0x8000_0000 * KB;
    Min(Max(n, bytesPerSector), 32 * KB)
  }

  /** The table that the formulas of the default case amount to, for 512-byte sectors. */
  function ClusterSizeTable(totalBytes: nat): nat {
    if totalBytes <= MB then 512
    else if totalBytes <= 2 * MB then KB
    else if totalBytes < 4 * MB then 2 * KB
    else if totalBytes <= 16 * MB then KB
    else if totalBytes <= 128 * MB then 2 * KB
    else if totalBytes <= 256 * MB then 4 * KB
    else if totalBytes < 512 * MB then 8 * KB
    else if totalBytes <= 8 * GB then 4 * KB
    else if totalBytes <= 16 * GB then 8 * KB
    else if totalBytes <= 32 * GB then 16 * KB
    else 32 * KB
  }

  /** How far doubling from 1 has come for a size above half a megabyte. */
  lemma HopToMegabyte(n: nat)
    requires n > 0x8_0000
    ensures NextPowerOfTwo(n) == Doubled(n, 0x10_0000)
  {
    Hop(n, 1);
    Hop(n, 0x10);
    Hop(n, 0x100);
    Hop(n, 0x1000);
    Hop(n, 0x1_0000);
  }

  lemma SmallVolumes(n: nat)
    requires n < 4 * MB
    ensures DetermineBytesPerCluster(n, 512, None) == ClusterSizeTable(n)
  {
    if n > 0x8_0000 {
      HopToMegabyte(n);
      assert Doubled(n, 0x40_0000) == 0x40_0000;
      assert Doubled(n, 0x20_0000) == if n <= 2 * MB then 0x20_0000 else 0x40_0000;
      assert Doubled(n, 0x10_0000) == if n <= MB then MB else if n <= 2 * MB then 2 * MB else 4 * MB;
    }
  }

  lemma MediumVolumes(n: nat)
    requires 4 * MB <= n < 512 * MB
    ensures DetermineBytesPerCluster(n, 512, None) == ClusterSizeTable(n)
  {
    if n > 128 * MB {
      HopToMegabyte(n);
      Hop(n, 0x10_0000);
      Hop(n, 0x100_0000);
      assert Doubled(n, 0x1000_0000) == if n <= 256 * MB then 0x1000_0000 else 0x2000_0000;
    }
  }

  lemma LargeVolumes(n: nat)
    requires 512 * MB <= n
    ensures DetermineBytesPerCluster(n, 512, None) == ClusterSizeTable(n)
  {
    if n > 8 * GB {
      HopToMegabyte(n);
      Hop(n, 0x10_0000);
      Hop(n, 0x100_0000);
      Hop(n, 0x1000_0000);
      if n <= 32 * GB {
        assert Doubled(n, 0x8_0000_0000) == 0x8_0000_0000;
        assert Doubled(n, 0x4_0000_0000) == if n <= 16 * GB then 0x4_0000_0000 else 0x8_0000_0000;
        assert Doubled(n, 0x2_0000_0000) == Doubled(n, 0x4_0000_0000);
        assert Doubled(n, 0x1_0000_0000) == if n <= 16 * GB then 0x4_0000_0000 else 0x8_0000_0000;
      } else {
        Hop(n, 0x1_0000_0000);
        assert Doubled(n, 0x10_0000_0000) >= 0x10_0000_0000;
      }
    }
  }

  /** The default cluster size is what the table says: a power of two from one sector to 32 KB. */
  lemma DefaultClusterSize(n: nat)
    ensures DetermineBytesPerCluster(n, 512, None) == ClusterSizeTable(n)
  {
    if n < 4 * MB { SmallVolumes(n); }
    else if n < 512 * MB { MediumVolumes(n); }
    else { LargeVolumes(n); }
  }

  /** And what they amount to for each FAT type, where that is given. */
  function ClusterSizeFor(t: FatType, totalBytes: nat): nat {
    match t
    case Fat12 =>
      if totalBytes <= MB then 512
      else if totalBytes <= 2 * MB then KB
      else if totalBytes <= 4 * MB then 2 * KB
      else if totalBytes <= 8 * MB then 4 * KB
      else if totalBytes <= 16 * MB then 8 * KB
      else if totalBytes <= 32 * MB then 16 * KB
      else if totalBytes <= 4096 * GB then 32 * KB
      else 512
    case Fat16 =>
      if totalBytes <= 16 * MB then KB
      else if totalBytes <= 128 * MB then 2 * KB
      else if totalBytes <= 256 * MB then 4 * KB
      else if totalBytes <= 512 * MB then 8 * KB
      else if totalBytes <= GB then 16 * KB
      else 32 * KB
    case Fat32 =>
      if totalBytes <= 260 * MB then 512
      else if totalBytes <= 8 * GB then 4 * KB
      else if totalBytes <= 16 * GB then 8 * KB
      else if totalBytes <= 32 * GB then 16 * KB
      else 32 * KB
  }

  lemma Doubled16(n: nat, p: nat)
    requires p > 0
    ensures n <= 16 * p ==>
      Doubled(n, p) == if n <= p then p else if n <= 2 * p then 2 * p else if n <= 4 * p then 4 * p
                       else if n <= 8 * p then 8 * p else 16 * p
    ensures n > 8 * p ==> Doubled(n, p) >= 16 * p
  {
    assert Doubled(n, 8 * p) == if n <= 8 * p then 8 * p else Doubled(n, 16 * p);
    assert Doubled(n, 4 * p) == if n <= 4 * p then 4 * p else Doubled(n, 8 * p);
    assert Doubled(n, 2 * p) == if n <= 2 * p then 2 * p else Doubled(n, 4 * p);
  }

  lemma {:induction false} DoubledIsMultiple(n: nat, p: nat) returns (q: nat)
    requires p > 0
    ensures Doubled(n, p) == q * p
    decreases n - p
  {
    if n <= p {
      q := 1;
    } else {
      var h := DoubledIsMultiple(n, 2 * p);
      q := 2 * h;
      assert h * (2 * p) == (2 * h) * p;
    }
  }

  /** Above 4 TB the cast leaves nothing of the number of bytes. */
  lemma NothingLeft(n: nat)
    requires n > 4096 * GB
    ensures NextPowerOfTwo(n) / 0x10_0000 * 512 % U32_BOUND == 0
  {
    HopToMegabyte(n);
    Hop(n, 0x10_0000);
    Hop(n, 0x100_0000);
    Hop(n, 0x1000_0000);
    Hop(n, 0x1_0000_0000);
    Hop(n, 0x10_0000_0000);
    assert Doubled(n, 0x100_0000_0000) == Doubled(n, 0x200_0000_0000) == Doubled(n, 0x400_0000_0000)
      == Doubled(n, 0x800_0000_0000);
    var q := DoubledIsMultiple(n, 0x800_0000_0000);
    assert NextPowerOfTwo(n) / 0x10_0000 == q * 0x80_0000;
    assert q * 0x80_0000 * 512 == q * U32_BOUND;
  }

  lemma SizeForFat12(n: nat)
    ensures DetermineBytesPerCluster(n, 512, Some(Fat12)) == ClusterSizeFor(Fat12, n)
  {
    if n > 4096 * GB {
      NothingLeft(n);
    } else {
      Fat12Power(n);
    }
    hide NextPowerOfTwo;
  }

  /** How many megabytes the power of two has. */
  lemma Fat12Power(n: nat)
    requires n <= 4096 * GB
    ensures NextPowerOfTwo(n) <= 1 || NextPowerOfTwo(n) < 2 * n
    ensures var q := NextPowerOfTwo(n) / 0x10_0000;
      if n <= MB then q <= 1
      else if n <= 32 * MB then q == if n <= 2 * MB then 2 else if n <= 4 * MB then 4 else if n <= 8 * MB then 8
                                     else if n <= 16 * MB then 16 else 32
      else 64 <= q
  {
    if n > 0x8_0000 {
      HopToMegabyte(n);
      Doubled16(n, 0x10_0000);
      if n > 8 * MB {
        Hop(n, 0x10_0000);
        Doubled16(n, 0x100_0000);
      }
    }
    hide Doubled;
  }

  lemma SizeForFat16(n: nat)
    ensures DetermineBytesPerCluster(n, 512, Some(Fat16)) == ClusterSizeFor(Fat16, n)
  {
    if n > 128 * MB {
      HopToMegabyte(n);
      Hop(n, 0x10_0000);
      Doubled16(n, 0x100_0000);
      Hop(n, 0x100_0000);
      Doubled16(n, 0x1000_0000);
    }
    hide Doubled;
  }

  lemma SizeForFat32(n: nat)
    ensures DetermineBytesPerCluster(n, 512, Some(Fat32)) == ClusterSizeFor(Fat32, n)
  {
    if n > 8 * GB {
      HopToMegabyte(n);
      Hop(n, 0x10_0000);
      Hop(n, 0x100_0000);
      Hop(n, 0x1000_0000);
      Doubled16(n, 0x1_0000_0000);
    }
    hide Doubled;
  }

  /** Where the FAT type is given, the cluster size is what the table says for it, or a sector where that is
      more. */
  lemma ClusterSizeByType(t: FatType, n: nat, bytesPerSector: nat)
    requires 512 <= bytesPerSector <= 32 * KB
    ensures DetermineBytesPerCluster(n, bytesPerSector, Some(t)) == Max(ClusterSizeFor(t, n), bytesPerSector)
  {
    match t {
      case Fat12 => SizeForFat12(n);
      case Fat16 => SizeForFat16(n);
      case Fat32 => SizeForFat32(n);
    }
    hide NextPowerOfTwo;
  }

  // ---------- the size of the FAT ----------

  function Product(a: nat, b: nat): nat {
    a * b
  }

  predicate SectorSize(n: nat) {
    512 <= n < 0x1_0000 && CountOnes(n) == 1
  }

  lemma SectorSizeIsEven(n: nat)
    requires SectorSize(n)
    ensures n % 4 == 0
  {
    HalfOfPower(n);
    HalfOfPower(n / 2);
  }

  lemma HalfOfPower(n: nat)
    requires CountOnes(n) == 1 && n > 1
    ensures n % 2 == 0 && CountOnes(n / 2) == 1
  {
    assert CountOnes(n / 2) == n / 2 % 2 + CountOnes(n / 2 / 2);
    assert n / 2 > 0;
    SomeOnes(n / 2);
  }

  lemma SomeOnes(n: nat)
    requires n > 0
    ensures CountOnes(n) > 0
  {
  }

  /** What is given when the size of the FAT is computed. */
  datatype Layout = Layout(
    total: nat, bytesPerSector: nat, sectorsPerCluster: nat, fatType: FatType, reserved: nat, rootDir: nat, fats: nat)
  {
    /** The volume passes the minimum-size test; one or two FATs. */
    predicate BigEnough() {
      && SectorSize(bytesPerSector) && 1 <= sectorsPerCluster <= 0xFF && 1 <= fats <= 2
      && total > reserved + rootDir + 8
    }

    /** Sectors for FATs and data. */
    function Room(): nat
      requires BigEnough()
    {
      total - reserved - rootDir
    }

    function EntriesPerCluster(): nat {
      Product(sectorsPerCluster, bytesPerSector * 8) / EntryBits(fatType)
    }

    function SectorsPerFat(): nat
      requires BigEnough()
    {
      var t1 := Room() + 2 * sectorsPerCluster;
      var t2 := EntriesPerCluster() + fats;
      (t1 + t2 - 1) / t2
    }

    function DataSectors(): (n: nat)
      requires BigEnough()
      ensures n > 0
    {
      FatFits(this);
      Room() - SectorsPerFat() * fats
    }

    function TotalClusters(): nat
      requires BigEnough()
    {
      DataSectors() / sectorsPerCluster
    }

    /** Entries that the FAT has, and entries in one sector of it. */
    function FatEntries(): nat
      requires BigEnough()
    {
      Product(SectorsPerFat(), bytesPerSector * 8) / EntryBits(fatType)
    }

    function EntriesPerSector(): nat {
      bytesPerSector * 8 / EntryBits(fatType)
    }
  }

  // ---------- products ----------

  lemma Distribute(a: nat, b: nat, c: nat)
    ensures a * (b + c) == a * b + a * c && (b + c) * a == b * a + c * a
  {
  }

  lemma Associate(a: nat, b: nat, c: nat)
    ensures (a * b) * c == a * (b * c)
  {
  }

  lemma MulMonotone(a: nat, b: nat, c: nat)
    requires a <= b
    ensures a * c <= b * c && c * a <= c * b
  {
  }

  lemma Cancel(a: nat, b: nat, c: nat)
    requires c > 0 && a * c <= b * c
    ensures a <= b
  {
    Distribute(c, b, 1);
    if a > b { MulMonotone(b + 1, a, c); }
  }

  lemma DivMod(y: nat, k: nat)
    requires k > 0
    ensures (y / k) * k <= y < (y / k) * k + k
  {
  }

  lemma DivideUp(a: nat, b: nat)
    requires a > 0 && b > 0
    ensures var q := (a + b - 1) / b; q >= 1 && a <= q * b && (q - 1) * b < a
  {
    DivMod(a + b - 1, b);
    var q := (a + b - 1) / b;
    assert q != 0;
    Distribute(b, q - 1, 1);
  }

  lemma DivideBelow(x: nat, y: nat, k: nat)
    requires k > 0 && x * k <= y
    ensures x <= y / k
  {
    DivMod(y, k);
    var q := y / k;
    assert y < (q + 1) * k by { Distribute(k, q, 1); }
    CancelStrict(x, q + 1, k);
  }

  lemma CancelStrict(a: nat, b: nat, c: nat)
    requires c > 0 && a * c < b * c
    ensures a < b
  {
    if a >= b { MulMonotone(b, a, c); }
  }

  lemma DivideAbove(y: nat, x: nat, k: nat)
    requires k > 0 && y <= x * k
    ensures y / k <= x
  {
    DivMod(y, k);
    Cancel(y / k, x, k);
  }

  // ---------- the sizing formula ----------

  /** At least 128 entries fit in a sector, and in a cluster at least as many times that as it has
      sectors. */
  lemma ManyEntries(l: Layout)
    requires l.BigEnough()
    ensures l.EntriesPerSector() >= 128
    ensures l.sectorsPerCluster * l.EntriesPerSector() <= l.EntriesPerCluster()
    ensures l.EntriesPerCluster() * EntryBits(l.fatType) <= l.sectorsPerCluster * (l.bytesPerSector * 8)
  {
    var b, k, spc := l.bytesPerSector * 8, EntryBits(l.fatType), l.sectorsPerCluster;
    DivMod(b, k);
    MulMonotone((b / k) * k, b, spc);
    Associate(spc, b / k, k);
    DivideBelow(spc * (b / k), spc * b, k);
    DivMod(spc * b, k);
  }

  /** `s` sectors suffice, because the formula counts the clusters that fit beside them. */
  lemma Suffices(s: nat, e: nat, fats: nat, room: nat, spc: nat, t: nat, k: nat, b: nat)
    requires spc > 0 && room + 2 * spc <= s * (e + fats)
    requires t * spc + s * fats <= room && e * k <= spc * b
    ensures (t + 2) * k <= s * b
  {
    Distribute(s, e, fats);
    Distribute(spc, t, 2);
    assert (t + 2) * spc <= s * e;
    MulMonotone((t + 2) * spc, s * e, k);
    MulMonotone(e * k, spc * b, s);
    Associate(s, e, k);
    Associate(s, spc, b);
    var x, y := (t + 2) * k, s * b;
    assert x * spc == ((t + 2) * spc) * k by { Associate(t + 2, k, spc); Associate(t + 2, spc, k); }
    assert y * spc == s * (spc * b) by { Associate(s, b, spc); }
    Cancel(x, y, spc);
  }

  /** And one sector less would not. */
  lemma Tight(s: nat, c: nat, e: nat, fats: nat, room: nat, spc: nat, t: nat)
    requires s >= 1 && spc > 0 && fats <= 2 && s * fats <= room
    requires (s - 1) * (c + fats) < room + 2 * spc && spc * e <= c
    requires room - s * fats < t * spc + spc
    ensures (s - 1) * e <= t + 3
  {
    Distribute(s - 1, c, fats);
    Distribute(fats, s - 1, 1);
    assert (s - 1) * c + s * fats - fats < room + 2 * spc;
    assert (s - 1) * c <= t * spc + 3 * spc + fats - 2;
    MulMonotone(spc * e, c, s - 1);
    var x := (s - 1) * e;
    assert x * spc == (s - 1) * (spc * e) by { Associate(s - 1, e, spc); }
    Distribute(spc, t, 3);
    Cancel(x, t + 3, spc);
  }

  /** The FATs are smaller than the room there is. */
  lemma Fits(s: nat, c: nat, fats: nat, room: nat, spc: nat)
    requires s >= 1 && spc > 0 && 1 <= fats <= 2 && room >= 9 && 128 * spc <= c
    requires (s - 1) * (c + fats) < room + 2 * spc
    ensures s * fats < room
  {
    MulMonotone(128 * spc, c + fats, s - 1);
    if s > 1 {
      var x := (s - 1) * spc;
      assert (s - 1) * (128 * spc) == 128 * x by { Associate(s - 1, 128, spc); Associate(128, s - 1, spc); }
      MulMonotone(1, spc, s - 1);
      MulMonotone(1, s - 1, spc);
      assert 126 * (s - 1) <= 126 * x < room;
      MulMonotone(fats, 2, s);
    }
  }

  /** The FATs leave room for data: the subtraction of their size cannot go below zero, and the size
      fits the type that it is cast to. */
  lemma FatFits(l: Layout)
    requires l.BigEnough()
    ensures 1 <= l.SectorsPerFat() && l.SectorsPerFat() * l.fats < l.Room() <= l.total
  {
    DivideUp(l.Room() + 2 * l.sectorsPerCluster, l.EntriesPerCluster() + l.fats);
    ManyEntries(l);
    MulMonotone(128, l.EntriesPerSector(), l.sectorsPerCluster);
    Fits(l.SectorsPerFat(), l.EntriesPerCluster(), l.fats, l.Room(), l.sectorsPerCluster);
  }

  /** The FAT always has an entry for every cluster and the two reserved ones. */
  lemma FatHoldsAllClusters(l: Layout)
    requires l.BigEnough()
    ensures l.FatEntries() >= l.TotalClusters() + 2
  {
    hide Layout.EntriesPerCluster;
    var s, b, k := l.SectorsPerFat(), l.bytesPerSector * 8, EntryBits(l.fatType);
    DivideUp(l.Room() + 2 * l.sectorsPerCluster, l.EntriesPerCluster() + l.fats);
    DivMod(l.DataSectors(), l.sectorsPerCluster);
    ManyEntries(l);
    Suffices(s, l.EntriesPerCluster(), l.fats, l.Room(), l.sectorsPerCluster, l.TotalClusters(), k, b);
    DivideBelow(l.TotalClusters() + 2, s * b, k);
  }

  /** One sector less would leave out some entries: the FAT is hardly larger than it has to be. */
  lemma FatIsTight(l: Layout)
    requires l.BigEnough()
    ensures (l.SectorsPerFat() - 1) * l.EntriesPerSector() <= l.TotalClusters() + 3
  {
    hide Layout.EntriesPerCluster, Layout.EntriesPerSector;
    FatFits(l);
    DivideUp(l.Room() + 2 * l.sectorsPerCluster, l.EntriesPerCluster() + l.fats);
    DivMod(l.DataSectors(), l.sectorsPerCluster);
    ManyEntries(l);
    Tight(l.SectorsPerFat(), l.EntriesPerCluster(), l.EntriesPerSector(), l.fats, l.Room(), l.sectorsPerCluster,
          l.TotalClusters());
  }

  /** When the number of clusters matches the FAT type, the FAT has at most two sectors' worth of entries
      more than it needs. */
  lemma FatIsNotTooBig(l: Layout)
    requires l.BigEnough() && FromClusters(l.TotalClusters()) == l.fatType
    ensures l.FatEntries() - 2 <= l.TotalClusters() + 2 * l.EntriesPerSector()
  {
    hide CountOnes, Layout.TotalClusters, Layout.SectorsPerFat;
    var s, b, k := l.SectorsPerFat(), l.bytesPerSector * 8, EntryBits(l.fatType);
    FatFits(l);
    FatIsTight(l);
    SectorSizeIsEven(l.bytesPerSector);
    NotTooBig(s, b, k, l.TotalClusters());
  }

  lemma NotTooBig(s: nat, b: nat, k: nat, t: nat)
    requires s >= 1 && b >= 0x1000 && b % 32 == 0 && (k == 16 || k == 32 || (k == 12 && t < 4085))
    requires (s - 1) * (b / k) <= t + 3
    ensures s * b / k - 2 <= t + 2 * (b / k)
  {
    var e := b / k;
    Distribute(e, s - 1, 1);
    if k == 12 {
      assert e >= 341;
      MulMonotone(341, e, s - 1);
      assert s <= 12;
      MulMonotone(b, (e + 1) * k, s);
      Associate(s, e + 1, k);
      DivideAbove(s * b, s * (e + 1), k);
      Distribute(s, e, 1);
    } else {
      assert b == e * k;
      Associate(s, e, k);
      DivideAbove(s * b, s * e, k);
    }
  }

  // ---------- choosing the FAT type ----------

  function RootDirSectors(entries: nat, bytesPerSector: nat): nat
    requires bytesPerSector > 0
  {
    (entries * 32 + bytesPerSector - 1) / bytesPerSector
  }

  /** The root directory takes as few sectors as hold its entries. */
  lemma RootDirExactly(entries: nat, bytesPerSector: nat)
    requires bytesPerSector > 0
    ensures var r := RootDirSectors(entries, bytesPerSector);
      && entries * 32 <= r * bytesPerSector
      && (r > 0 ==> (r - 1) * bytesPerSector < entries * 32)
  {
    if entries > 0 {
      DivideUp(entries * 32, bytesPerSector);
    } else {
      assert RootDirSectors(entries, bytesPerSector) == 0;
    }
  }

  /** A layout of the given type, if the volume has the right size for it. */
  function TryFsGeometry(l: Layout): (r: Option<nat>)
    requires SectorSize(l.bytesPerSector) && 1 <= l.sectorsPerCluster <= 0xFF && 1 <= l.fats <= 2
  {
    if l.total <= l.reserved + l.rootDir + 8 then None
    else if l.fatType != FromClusters(l.TotalClusters()) then None
    else if l.TotalClusters() > MaxClusters(l.fatType) then None
    else Some(l.SectorsPerFat())
  }

  /** Which volumes have the right size: by the number of clusters that come out. */
  lemma FitsExactly(l: Layout)
    requires SectorSize(l.bytesPerSector) && 1 <= l.sectorsPerCluster <= 0xFF && 1 <= l.fats <= 2
    ensures TryFsGeometry(l).Some? <==>
      l.BigEnough() &&
      match l.fatType
      case Fat12 => l.TotalClusters() < 4085
      case Fat16 => 4085 <= l.TotalClusters() < 65525
      case Fat32 => 65525 <= l.TotalClusters() <= 0x0FFF_FFF4
    ensures TryFsGeometry(l).Some? ==> TryFsGeometry(l).value == l.SectorsPerFat()
  {
    hide CountOnes;
  }

  function LayoutFor(
    t: FatType, total: nat, bytesPerSector: nat, sectorsPerCluster: nat, rootEntries: nat, fats: nat): Layout
    requires bytesPerSector > 0
  {
    Layout(total, bytesPerSector, sectorsPerCluster, t, if t.Fat32? then 8 else 1,
           if t.Fat32? then 0 else RootDirSectors(rootEntries, bytesPerSector), fats)
  }

  /** The layout of the first of the given types that the volume is right for. */
  function FirstFit(
    types: seq<FatType>, total: nat, bytesPerSector: nat, sectorsPerCluster: nat, rootEntries: nat, fats: nat)
    : (r: Option<Layout>)
    requires SectorSize(bytesPerSector) && 1 <= sectorsPerCluster <= 0xFF && 1 <= fats <= 2
    ensures r.Some? ==> r.value.BigEnough() && FromClusters(r.value.TotalClusters()) == r.value.fatType
    ensures r.Some? ==> r.value.TotalClusters() <= MaxClusters(r.value.fatType)
    ensures r.Some? ==>
      r.value == LayoutFor(r.value.fatType, total, bytesPerSector, sectorsPerCluster, rootEntries, fats)
  {
    if types == [] then None
    else
      var l := LayoutFor(types[0], total, bytesPerSector, sectorsPerCluster, rootEntries, fats);
      if TryFsGeometry(l).Some? then Some(l)
      else FirstFit(types[1..], total, bytesPerSector, sectorsPerCluster, rootEntries, fats)
  }

  function Chosen(
    total: nat, bytesPerSector: nat, sectorsPerCluster: nat, rootEntries: nat, fats: nat): Option<Layout>
    requires SectorSize(bytesPerSector) && 1 <= sectorsPerCluster <= 0xFF && 1 <= fats <= 2
  {
    FirstFit([Fat32, Fat16, Fat12], total, bytesPerSector, sectorsPerCluster, rootEntries, fats)
  }

  /** The volume has the right size for a FAT of type `t`. */
  predicate RightFor(
    t: FatType, total: nat, bytesPerSector: nat, sectorsPerCluster: nat, rootEntries: nat, fats: nat)
    requires SectorSize(bytesPerSector) && 1 <= sectorsPerCluster <= 0xFF && 1 <= fats <= 2
  {
    TryFsGeometry(LayoutFor(t, total, bytesPerSector, sectorsPerCluster, rootEntries, fats)).Some?
  }

  /** The largest type that the volume is right for is chosen, and none only when it is right for none. */
  lemma ChoosesLargest(total: nat, bytesPerSector: nat, sectorsPerCluster: nat, rootEntries: nat, fats: nat)
    requires SectorSize(bytesPerSector) && 1 <= sectorsPerCluster <= 0xFF && 1 <= fats <= 2
    ensures Largest(Chosen(total, bytesPerSector, sectorsPerCluster, rootEntries, fats), total, bytesPerSector,
                    sectorsPerCluster, rootEntries, fats)
  {
    FitOneMore(Fat12, [], total, bytesPerSector, sectorsPerCluster, rootEntries, fats);
    FitOneMore(Fat16, [Fat12], total, bytesPerSector, sectorsPerCluster, rootEntries, fats);
    FitOneMore(Fat32, [Fat16, Fat12], total, bytesPerSector, sectorsPerCluster, rootEntries, fats);
    assert [Fat12] + [] == [Fat12] && [Fat16] + [Fat12] == [Fat16, Fat12];
    assert [Fat32] + [Fat16, Fat12] == [Fat32, Fat16, Fat12];
    hide CountOnes, RightFor, FirstFit, LayoutFor;
  }

  lemma FitOneMore(t: FatType, types: seq<FatType>,
    total: nat, bytesPerSector: nat, sectorsPerCluster: nat, rootEntries: nat, fats: nat)
    requires SectorSize(bytesPerSector) && 1 <= sectorsPerCluster <= 0xFF && 1 <= fats <= 2
    ensures FirstFit([t] + types, total, bytesPerSector, sectorsPerCluster, rootEntries, fats) ==
      if RightFor(t, total, bytesPerSector, sectorsPerCluster, rootEntries, fats)
      then Some(LayoutFor(t, total, bytesPerSector, sectorsPerCluster, rootEntries, fats))
      else FirstFit(types, total, bytesPerSector, sectorsPerCluster, rootEntries, fats)
  {
    assert ([t] + types)[1..] == types;
    hide TryFsGeometry, CountOnes;
  }

  ghost predicate Largest(r: Option<Layout>,
    total: nat, bytesPerSector: nat, sectorsPerCluster: nat, rootEntries: nat, fats: nat)
    requires SectorSize(bytesPerSector) && 1 <= sectorsPerCluster <= 0xFF && 1 <= fats <= 2
  {
    && (r.None? ==> forall t :: !RightFor(t, total, bytesPerSector, sectorsPerCluster, rootEntries, fats))
    && (r.Some? ==>
          && RightFor(r.value.fatType, total, bytesPerSector, sectorsPerCluster, rootEntries, fats)
          && r.value == LayoutFor(r.value.fatType, total, bytesPerSector, sectorsPerCluster, rootEntries, fats)
          && forall t :: EntryBits(t) > EntryBits(r.value.fatType) ==>
               !RightFor(t, total, bytesPerSector, sectorsPerCluster, rootEntries, fats))
  }

  /** Tries the FAT types from the largest on. */
  method DetermineFsGeometry(
    total: nat, bytesPerSector: nat, sectorsPerCluster: nat, rootEntries: nat, fats: nat)
    returns (r: Option<Layout>)
    requires SectorSize(bytesPerSector) && 1 <= sectorsPerCluster <= 0xFF && 1 <= fats <= 2
    ensures r == Chosen(total, bytesPerSector, sectorsPerCluster, rootEntries, fats)
    ensures Largest(r, total, bytesPerSector, sectorsPerCluster, rootEntries, fats)
  {
    ChoosesLargest(total, bytesPerSector, sectorsPerCluster, rootEntries, fats);
    hide TryFsGeometry, CountOnes, LayoutFor;
    var types := [Fat32, Fat16, Fat12];
    for i := 0 to |types|
      invariant FirstFit(types, total, bytesPerSector, sectorsPerCluster, rootEntries, fats) ==
                FirstFit(types[i..], total, bytesPerSector, sectorsPerCluster, rootEntries, fats)
    {
      var l := LayoutFor(types[i], total, bytesPerSector, sectorsPerCluster, rootEntries, fats);
      SameInputs(types[i], total, bytesPerSector, sectorsPerCluster, rootEntries, fats);
      if TryFsGeometry(l).Some? {
        return Some(l);
      }
      assert types[i..][1..] == types[i + 1..];
    }
    r := None;
  }

  lemma SameInputs(
    t: FatType, total: nat, bytesPerSector: nat, sectorsPerCluster: nat, rootEntries: nat, fats: nat)
    requires bytesPerSector > 0
    ensures var l := LayoutFor(t, total, bytesPerSector, sectorsPerCluster, rootEntries, fats);
      l.bytesPerSector == bytesPerSector && l.sectorsPerCluster == sectorsPerCluster && l.fats == fats
  {
  }

  // ---------- the parameter block ----------

  datatype Bpb = Bpb(
    bytesPerSector: nat, sectorsPerCluster: nat, reservedSectors: nat, fats: nat, rootEntries: nat,
    totalSectors16: nat, sectorsPerFat16: nat, totalSectors32: nat, sectorsPerFat32: nat, fsVersion: nat,
    fsInfoSector: nat, backupBootSector: nat)
  {
    predicate IsFat32() {
      sectorsPerFat16 == 0
    }

    function SectorsPerFat(): nat {
      if IsFat32() then sectorsPerFat32 else sectorsPerFat16
    }

    function TotalSectors(): nat {
      if totalSectors16 == 0 then totalSectors32 else totalSectors16
    }

    function FirstDataSector(): nat
      requires bytesPerSector > 0
    {
      reservedSectors + fats * SectorsPerFat() + RootDirSectors(rootEntries, bytesPerSector)
    }

    function TotalClusters(): nat
      requires bytesPerSector > 0 && sectorsPerCluster > 0 && FirstDataSector() <= TotalSectors()
    {
      (TotalSectors() - FirstDataSector()) / sectorsPerCluster
    }

    predicate ValidSectors() {
      && CountOnes(bytesPerSector) == 1 && 512 <= bytesPerSector <= 4096
      && CountOnes(sectorsPerCluster) == 1 && 1 <= sectorsPerCluster <= 128
    }

    predicate ValidRegions() {
      && reservedSectors >= 1 && (IsFat32() ==> backupBootSector < reservedSectors && fsInfoSector < reservedSectors)
      && fats != 0 && (IsFat32() <==> rootEntries == 0)
    }

    predicate ValidTotals()
      requires ValidSectors()
    {
      && (IsFat32() ==> totalSectors16 == 0) && ((totalSectors16 == 0) != (totalSectors32 == 0))
      && TotalSectors() > FirstDataSector() && (IsFat32() ==> sectorsPerFat32 != 0)
    }

    predicate ValidClusters()
      requires ValidSectors() && ValidTotals()
    {
      && (IsFat32() <==> FromClusters(TotalClusters()) == Fat32)
      && (IsFat32() ==> TotalClusters() <= 0x0FFF_FFFF)
    }

    /** The checks that mounting makes. */
    predicate Validates() {
      fsVersion == 0 && ValidSectors() && ValidRegions() && ValidTotals() && ValidClusters()
    }

    /** Bits in the FAT, which the last check computes in 32 bits, and the entries that it takes off. */
    function FatBits(): nat {
      SectorsPerFat() * bytesPerSector * 8
    }

    predicate ArithmeticFits()
      requires Validates()
    {
      FatBits() < U32_BOUND && FatBits() / EntryBits(FromClusters(TotalClusters())) >= RESERVED_FAT_ENTRIES
    }

    /** The fields fit their widths in the boot sector. */
    predicate FieldsFit() {
      && bytesPerSector < 0x1_0000 && sectorsPerCluster < 0x100 && reservedSectors < 0x1_0000 && fats < 0x100
      && rootEntries < 0x1_0000 && totalSectors16 < 0x1_0000 && sectorsPerFat16 < 0x1_0000
      && totalSectors32 < U32_BOUND && sectorsPerFat32 < U32_BOUND
    }
  }

  /** The parameter block of a layout with room for 512 entries in the root directory. */
  function BpbOf(l: Layout): Bpb
    requires l.BigEnough()
  {
    var is32 := l.fatType.Fat32?;
    Bpb(l.bytesPerSector, l.sectorsPerCluster, l.reserved, l.fats, if is32 then 0 else 512,
        if l.total < 0x1_0000 then l.total else 0, if is32 then 0 else l.SectorsPerFat(),
        if l.total >= 0x1_0000 then l.total else 0, if is32 then l.SectorsPerFat() else 0, 0,
        if is32 then 1 else 0, if is32 then 6 else 0)
  }

  /** The parameter block for a volume, with the default options. */
  function FormatBpb(total: nat, bytesPerSector: nat): Option<Bpb>
    requires SectorSize(bytesPerSector)
    requires bytesPerSector <= 32 * KB
  {
    match Chosen(total, bytesPerSector, DefaultSpc(total, bytesPerSector), 512, 2)
    case None => None
    case Some(l) => Some(BpbOf(l))
  }

  /** The fields that the default options fix. */
  lemma DefaultFields(total: nat, bytesPerSector: nat)
    requires SectorSize(bytesPerSector) && bytesPerSector <= 32 * KB && FormatBpb(total, bytesPerSector).Some?
    ensures var b := FormatBpb(total, bytesPerSector).value;
      && b.bytesPerSector == bytesPerSector && b.sectorsPerCluster == DefaultSpc(total, bytesPerSector)
      && b.fats == 2 && b.fsVersion == 0
      && b.totalSectors16 == (if total < 0x1_0000 then total else 0)
      && b.totalSectors32 == (if total < 0x1_0000 then 0 else total)
      && if b.sectorsPerFat16 == 0
         then b.reservedSectors == 8 && b.rootEntries == 0 && b.fsInfoSector == 1 && b.backupBootSector == 6
         else b.reservedSectors == 1 && b.rootEntries == 512 && b.sectorsPerFat32 == 0
  {
    hide CountOnes, DetermineBytesPerCluster, TryFsGeometry, Layout.SectorsPerFat, Layout.TotalClusters;
    var l := Chosen(total, bytesPerSector, DefaultSpc(total, bytesPerSector), 512, 2).value;
    FatFits(l);
  }

  /** The default number of sectors in a cluster. */
  function DefaultSpc(total: nat, bytesPerSector: nat): (spc: nat)
    requires SectorSize(bytesPerSector) && bytesPerSector <= 32 * KB
    ensures 1 <= spc <= 64
  {
    ClusterSectors(total * bytesPerSector, bytesPerSector);
    DetermineBytesPerCluster(total * bytesPerSector, bytesPerSector, None) / bytesPerSector
  }

  lemma ClusterSectors(totalBytes: nat, bytesPerSector: nat)
    requires SectorSize(bytesPerSector) && bytesPerSector <= 32 * KB
    ensures 1 <= DetermineBytesPerCluster(totalBytes, bytesPerSector, None) / bytesPerSector <= 64
  {
    var n := DetermineBytesPerCluster(totalBytes, bytesPerSector, None);
    assert bytesPerSector <= n <= 32 * KB;
    DivideBelow(1, n, bytesPerSector);
    DivideAbove(n, 64, bytesPerSector);
  }

  // ---------- the default layout ----------

  /** The default layout for 512-byte sectors. */
  function DefaultLayout(total: nat): Option<Layout>
  {
    assert SectorSize(512);
    ClusterSectors(total * 512, 512);
    Chosen(total, 512, DetermineBytesPerCluster(total * 512, 512, None) / 512, 512, 2)
  }

  lemma DefaultLayoutShape(total: nat)
    requires DefaultLayout(total).Some?
    ensures var l := DefaultLayout(total).value;
      && l.BigEnough() && l.total == total && l.bytesPerSector == 512 && l.fats == 2
      && l.sectorsPerCluster == ClusterSizeTable(total * 512) / 512
      && l.reserved == (if l.fatType.Fat32? then 8 else 1) && l.rootDir == (if l.fatType.Fat32? then 0 else 32)
      && FromClusters(l.TotalClusters()) == l.fatType && l.TotalClusters() <= MaxClusters(l.fatType)
  {
    hide CountOnes, Layout.TotalClusters, ClusterSizeTable, DetermineBytesPerCluster;
    DefaultClusterSize(total * 512);
  }

  /** The default cluster size keeps the number of clusters far below what 32-bit arithmetic bears. */
  lemma FewClusters(total: nat)
    requires DefaultLayout(total).Some? && total < U32_BOUND
    ensures DefaultLayout(total).value.TotalClusters() <= 0x400_0000
  {
    hide CountOnes, DetermineBytesPerCluster;
    DefaultLayoutShape(total);
    var l := DefaultLayout(total).value;
    DivMod(l.DataSectors(), l.sectorsPerCluster);
    FewPerTable(total, l.sectorsPerCluster, l.TotalClusters());
  }

  lemma FewPerTable(total: nat, spc: nat, t: nat)
    requires total < U32_BOUND && spc == ClusterSizeTable(total * 512) / 512 && t * spc <= total
    ensures t <= 0x400_0000
  {
    var least := if total <= 0x100_0000 then 1 else if total <= 0x200_0000 then 16
                 else if total <= 0x400_0000 then 32 else 64;
    assert least <= spc;
    MulMonotone(least, spc, t);
  }

  // ---------- which volumes can be formatted ----------

  /** The quotients in the sizes of a layout with two FATs, as bounds. */
  lemma Sizes(l: Layout, spc: nat, t2: nat)
    requires l.BigEnough() && l.sectorsPerCluster == spc && l.EntriesPerCluster() + 2 == t2 && l.fats == 2
    ensures var s, t := l.SectorsPerFat(), l.TotalClusters();
      && (s - 1) * t2 < l.Room() + 2 * spc <= s * t2
      && t * spc <= l.Room() - 2 * s < t * spc + spc
      && (TryFsGeometry(l).Some? <==> FromClusters(t) == l.fatType && t <= MaxClusters(l.fatType))
  {
    hide CountOnes, Layout.EntriesPerCluster;
    FatFits(l);
    DivideUp(l.Room() + 2 * spc, t2);
    DivMod(l.DataSectors(), spc);
  }

  /** The volume is right for type `t`, by the size of its clusters in sectors. */
  predicate Right512(t: FatType, total: nat, spc: nat)
    requires SectorSize(512) && 1 <= spc <= 64
  {
    RightFor(t, total, 512, spc, 512, 2)
  }

  /** The same, for a layout with 512-byte sectors. */
  lemma Sizes512(t: FatType, total: nat, spc: nat, t2: nat) returns (s: nat, n: nat)
    requires SectorSize(512) && 1 <= spc <= 64 && total > 41 && t2 == spc * 0x1000 / EntryBits(t) + 2
    ensures var room := total - if t.Fat32? then 8 else 33;
      && (s - 1) * t2 < room + 2 * spc <= s * t2
      && n * spc <= room - 2 * s < n * spc + spc
      && (Right512(t, total, spc) <==> FromClusters(n) == t && n <= MaxClusters(t))
  {
    hide CountOnes, Layout.SectorsPerFat, Layout.TotalClusters, FromClusters;
    var l := LayoutFor(t, total, 512, spc, 512, 2);
    Sizes(l, spc, t2);
    s, n := l.SectorsPerFat(), l.TotalClusters();
  }

  lemma SmallRight(total: nat, spc: nat)
    requires SectorSize(512) && total < 8192 && (spc == 1 || spc == 2 || spc == 4)
    requires (spc == 1 ==> total <= 2048) && (spc == 2 ==> total <= 4096)
    ensures !Right512(Fat32, total, spc) && !Right512(Fat16, total, spc)
    ensures Right512(Fat12, total, spc) <==> total >= 42
  {
    hide CountOnes;
  }

  lemma GapRight(total: nat)
    requires SectorSize(512) && 8192 <= total <= 32768
    ensures !Right512(Fat32, total, 2)
    ensures Right512(Fat16, total, 2) <==> total >= 8235
    ensures Right512(Fat12, total, 2) <==> total <= 8226
  {
    hide CountOnes, Right512;
    var _, _ := Sizes512(Fat32, total, 2, 258);
    var _, _ := Sizes512(Fat16, total, 2, 514);
    var _, _ := Sizes512(Fat12, total, 2, 684);
  }

  lemma MediumRight(total: nat, spc: nat)
    requires SectorSize(512)
    requires || (spc == 4 && 32768 < total <= 0x4_0000) || (spc == 8 && 0x4_0000 < total <= 0x8_0000)
             || (spc == 16 && 0x8_0000 < total < 0x10_0000)
    ensures Right512(Fat16, total, spc)
  {
    hide CountOnes, Right512;
    if spc == 4 {
      var _, _ := Sizes512(Fat16, total, 4, 1026);
    } else if spc == 8 {
      var _, _ := Sizes512(Fat16, total, 8, 2050);
    } else {
      var _, _ := Sizes512(Fat16, total, 16, 4098);
    }
  }

  lemma LargeRight(total: nat, spc: nat)
    requires SectorSize(512) && total < U32_BOUND
    requires || (spc == 8 && 0x10_0000 <= total <= 0x100_0000) || (spc == 16 && 0x100_0000 < total <= 0x200_0000)
             || (spc == 32 && 0x200_0000 < total <= 0x400_0000) || (spc == 64 && 0x400_0000 < total)
    ensures Right512(Fat32, total, spc)
  {
    hide CountOnes, Right512;
    if spc == 8 {
      var _, _ := Sizes512(Fat32, total, 8, 1026);
    } else if spc == 16 {
      var _, _ := Sizes512(Fat32, total, 16, 2050);
    } else if spc == 32 {
      var _, _ := Sizes512(Fat32, total, 32, 4098);
    } else {
      var _, _ := Sizes512(Fat32, total, 64, 8194);
    }
  }

  /** A volume is formatted exactly when it is right for some FAT type. */
  lemma FormatsWhenRight(total: nat)
    requires SectorSize(512) && 1 <= ClusterSizeTable(total * 512) / 512 <= 64
    ensures var spc := ClusterSizeTable(total * 512) / 512;
      FormatBpb(total, 512).Some? <==>
        Right512(Fat32, total, spc) || Right512(Fat16, total, spc) || Right512(Fat12, total, spc)
  {
    DefaultClusterSize(total * 512);
    var spc := ClusterSizeTable(total * 512) / 512;
    ChoosesLargest(total, 512, spc, 512, 2);
    hide RightFor, CountOnes, Chosen, DetermineBytesPerCluster, ClusterSizeTable;
  }

  /** With default options and 512-byte sectors every volume can be formatted, but for those of fewer
      than 42 sectors and eight sizes just above 4 MB that suit neither FAT12 nor FAT16. */
  lemma FormatsExactly(total: nat)
    requires total < U32_BOUND
    ensures SectorSize(512)
    ensures FormatBpb(total, 512).Some? <==> total >= 42 && !(8227 <= total <= 8234)
  {
    assert SectorSize(512);
    FormatsWhenRight(total);
    hide Right512, CountOnes, FormatBpb;
    var spc := ClusterSizeTable(total * 512) / 512;
    if total < 8192 { SmallRight(total, spc); }
    else if total <= 32768 { GapRight(total); }
    else if total < 0x10_0000 { MediumRight(total, spc); }
    else { LargeRight(total, spc); }
  }

  // ---------- the last check of mounting ----------

  /** The powers of two from 512 to 32768. */
  predicate SectorOrCluster(n: nat) {
    n == 512 || n == 1024 || n == 2048 || n == 4096 || n == 8192 || n == 16384 || n == 32768
  }

  /** Sector sizes are the powers of two from 512 on. */
  lemma SectorSizes(n: nat)
    requires SectorSize(n)
    ensures SectorOrCluster(n)
  {
    var m := Halved(n, 9);
    assert n == 512 * m;
    SmallPowers(m);
  }

  lemma {:induction false} SmallPowers(m: nat)
    requires CountOnes(m) == 1 && m < 128
    ensures m in {1, 2, 4, 8, 16, 32, 64}
  {
    if m > 1 {
      HalfOfPower(m);
      SmallPowers(m / 2);
    }
  }

  lemma {:induction false} Halved(n: nat, k: nat) returns (m: nat)
    requires CountOnes(n) == 1 && n >= TwoTo(k)
    ensures n == m * TwoTo(k) && CountOnes(m) == 1
  {
    if k == 0 {
      m := n;
    } else {
      HalfOfPower(n);
      m := Halved(n / 2, k - 1);
    }
  }

  function TwoTo(k: nat): (n: nat)
    ensures n >= 1
  {
    if k == 0 then 1 else 2 * TwoTo(k - 1)
  }

  /** Above 32 GB clusters are as large as they can be. */
  lemma LargestClusters(totalBytes: nat, bytesPerSector: nat)
    requires totalBytes > 32 * GB && bytesPerSector <= 32 * KB
    ensures DetermineBytesPerCluster(totalBytes, bytesPerSector, None) == 32 * KB
  {
    DefaultClusterSize(totalBytes);
  }

  lemma EntriesOfLargest(l: Layout)
    requires Product(l.sectorsPerCluster, l.bytesPerSector * 8) == 0x4_0000
    ensures l.EntriesPerCluster() == match l.fatType case Fat12 => 21845 case Fat16 => 16384 case Fat32 => 8192
  {
  }

  lemma SmallRoot(bytesPerSector: nat)
    requires bytesPerSector >= 512
    ensures RootDirSectors(512, bytesPerSector) <= 33
  {
    DivideAbove(16384 + bytesPerSector - 1, 33, bytesPerSector);
  }

  /** A volume of more than a million of the largest clusters is formatted with FAT32. */
  lemma LargeIsFat32(total: nat, bps: nat, spc: nat)
    requires SectorSize(bps) && 1 <= spc <= 64 && Product(spc, bps * 8) == 0x4_0000 && total > 0x10_0000 * spc
    requires Chosen(total, bps, spc, 512, 2).Some?
    ensures var l := Chosen(total, bps, spc, 512, 2).value;
      && l.fatType == Fat32
      && (l.SectorsPerFat() - 1) * 8194 < total - 8 + 2 * spc <= l.SectorsPerFat() * 8194
  {
    var l := Chosen(total, bps, spc, 512, 2).value;
    assert l.BigEnough() && FromClusters(l.TotalClusters()) == l.fatType;
    assert l == LayoutFor(l.fatType, total, bps, spc, 512, 2);
    SmallRoot(bps);
    EntriesOfLargest(l);
    hide CountOnes, Layout.SectorsPerFat, Layout.TotalClusters, Chosen, RootDirSectors, Product,
      Layout.EntriesPerCluster;
    match l.fatType {
      case Fat12 => Sizes(l, spc, 21847);
      case Fat16 => Sizes(l, spc, 16386);
      case Fat32 => Sizes(l, spc, 8194);
    }
    if !l.fatType.Fat32? {
      MulMonotone(l.TotalClusters(), 65524, spc);
      assert false;
    }
  }

  /** The number of bits in the FAT of a volume of up to 32 GB is far below 2^32. */
  lemma SmallFat(l: Layout)
    requires l.BigEnough() && l.total <= 0x400_0000 && l.bytesPerSector <= 32 * KB
    ensures l.SectorsPerFat() * l.bytesPerSector * 8 < U32_BOUND
  {
    FatFits(l);
    FatIsTight(l);
    SectorSizeIsEven(l.bytesPerSector);
    DivMod(l.DataSectors(), l.sectorsPerCluster);
    hide CountOnes, Layout.SectorsPerFat, Layout.EntriesPerCluster;
    MulMonotone(1, l.sectorsPerCluster, l.TotalClusters());
    FewBits(l.SectorsPerFat(), l.bytesPerSector, EntryBits(l.fatType), l.TotalClusters());
  }

  lemma FewBits(s: nat, bps: nat, k: nat, t: nat)
    requires s >= 1 && 512 <= bps <= 32 * KB && bps % 4 == 0 && (k == 12 || k == 16 || k == 32)
    requires (s - 1) * (bps * 8 / k) <= t + 3 && t <= 0x400_0000
    ensures s * bps * 8 < U32_BOUND
  {
    var b, e := bps * 8, bps * 8 / k;
    assert b <= 32 * e;
    MulMonotone(b, 32 * e, s - 1);
    assert (s - 1) * (32 * e) == 32 * ((s - 1) * e) by { Associate(s - 1, 32, e); Associate(32, s - 1, e); }
    Distribute(b, s - 1, 1);
    Associate(s, bps, 8);
  }

  lemma BitsBelow(s: nat, bps: nat, spc: nat)
    requires spc * bps == 0x8000
    ensures s * bps * 8 < U32_BOUND <==> s < 0x4000 * spc
  {
    assert (0x4000 * spc) * bps == 0x2000_0000 by { Associate(0x4000, spc, bps); }
    if s < 0x4000 * spc {
      if s * bps >= 0x2000_0000 { Cancel(0x4000 * spc, s, bps); }
    } else {
      MulMonotone(0x4000 * spc, s, bps);
    }
  }

  lemma FatBitsOf(total: nat, bytesPerSector: nat)
    requires SectorSize(bytesPerSector) && bytesPerSector <= 32 * KB && FormatBpb(total, bytesPerSector).Some?
    ensures var l := Chosen(total, bytesPerSector, DefaultSpc(total, bytesPerSector), 512, 2);
      && l.Some? && l.value.BigEnough() && l.value.total == total && l.value.bytesPerSector == bytesPerSector
      && FormatBpb(total, bytesPerSector).value.FatBits() == l.value.SectorsPerFat() * bytesPerSector * 8
  {
    hide CountOnes, DetermineBytesPerCluster, TryFsGeometry, Layout.SectorsPerFat, Layout.TotalClusters;
    var l := Chosen(total, bytesPerSector, DefaultSpc(total, bytesPerSector), 512, 2).value;
    FatFits(l);
  }

  lemma LargestSectors(bytesPerSector: nat)
    requires SectorSize(bytesPerSector) && bytesPerSector <= 32 * KB
    ensures var spc := 32 * KB / bytesPerSector; spc * bytesPerSector == 0x8000 && 1 <= spc <= 64
  {
    SectorSizes(bytesPerSector);
    hide CountOnes, SectorSize, SectorOrCluster;
    Quotients(bytesPerSector);
  }

  lemma Quotients(b: nat)
    requires SectorOrCluster(b)
    ensures var q := 32 * KB / b; q * b == 0x8000 && 1 <= q <= 64
  {
    if b == 512 { assert 0x8000 / 512 == 64; }
    else if b == 1024 { assert 0x8000 / 1024 == 32; }
    else if b == 2048 { assert 0x8000 / 2048 == 16; }
    else if b == 4096 { assert 0x8000 / 4096 == 8; }
    else if b == 8192 { assert 0x8000 / 8192 == 4; }
    else if b == 16384 { assert 0x8000 / 16384 == 2; }
    else { assert 0x8000 / 32768 == 1; }
  }

  lemma LargeFitsExactly(total: nat, bps: nat, spc: nat)
    requires SectorSize(bps) && bps <= 32 * KB && FormatBpb(total, bps).Some?
    requires spc == 32 * KB / bps && spc * bps == 0x8000 && 1 <= spc <= 64 && total * bps > 32 * GB
    ensures FormatBpb(total, bps).value.FatBits() < U32_BOUND <==> total <= 134_250_494 * spc - 8186
  {
    FatBitsOf(total, bps);
    LargestClusters(total * bps, bps);
    hide CountOnes, SectorSize, Chosen, Layout.SectorsPerFat, FormatBpb, Bpb.FatBits, DetermineBytesPerCluster;
    LargestSpan(total, bps, spc);
    LargeIsFat32(total, bps, spc);
    var s := Chosen(total, bps, spc, 512, 2).value.SectorsPerFat();
    BitsBelow(s, bps, spc);
  }

  lemma SmallFitsExactly(total: nat, bps: nat, spc: nat)
    requires SectorSize(bps) && bps <= 32 * KB && FormatBpb(total, bps).Some?
    requires spc * bps == 0x8000 && 1 <= spc <= 64 && total * bps <= 32 * GB
    ensures FormatBpb(total, bps).value.FatBits() < U32_BOUND && total <= 134_250_494 * spc - 8186
  {
    FatBitsOf(total, bps);
    hide CountOnes, SectorSize, Chosen, Layout.SectorsPerFat, FormatBpb, Bpb.FatBits, DetermineBytesPerCluster;
    SmallSpan(total, bps, spc);
    SmallFat(Chosen(total, bps, DefaultSpc(total, bps), 512, 2).value);
  }

  /** The largest number of sectors for which the bits of the FAT fit 32 bits. */
  function MostSectors(bytesPerSector: nat): int
    requires bytesPerSector > 0
  {
    134_250_494 * (32 * KB / bytesPerSector) - 8186
  }

  /** The last check of mounting multiplies out the bits of the FAT in 32 bits. For a volume formatted
      with default options they fit exactly up to this number of sectors. */
  lemma FatBitsFitExactly(total: nat, bytesPerSector: nat)
    requires SectorSize(bytesPerSector) && bytesPerSector <= 32 * KB
    ensures FormatBpb(total, bytesPerSector).Some? ==>
      (FormatBpb(total, bytesPerSector).value.FatBits() < U32_BOUND <==> total <= MostSectors(bytesPerSector))
  {
    LargestSectors(bytesPerSector);
    var spc := 32 * KB / bytesPerSector;
    hide FormatBpb, Bpb.FatBits, SectorSize;
    if FormatBpb(total, bytesPerSector).Some? {
      if total * bytesPerSector > 32 * GB {
        LargeFitsExactly(total, bytesPerSector, spc);
      } else {
        SmallFitsExactly(total, bytesPerSector, spc);
      }
    }
  }

  /** So with sectors of up to 1024 bytes they always fit. */
  lemma SmallSectorsFit(total: nat, bytesPerSector: nat)
    requires SectorSize(bytesPerSector) && bytesPerSector <= KB && total < U32_BOUND
    ensures FormatBpb(total, bytesPerSector).Some? ==>
      FormatBpb(total, bytesPerSector).value.FatBits() < U32_BOUND
  {
    FatBitsFitExactly(total, bytesPerSector);
    hide FormatBpb, Bpb.FatBits, SectorSize, MostSectors;
    assert total <= MostSectors(bytesPerSector) by {
      SectorSizes(bytesPerSector);
      FewSectors();
    }
  }

  lemma FewSectors()
    ensures MostSectors(512) >= U32_BOUND && MostSectors(1024) >= U32_BOUND
    ensures MostSectors(2048) == 2_147_999_718 && MostSectors(4096) == 1_073_995_766
  {
  }

  lemma LargestSpan(total: nat, bps: nat, spc: nat)
    requires spc * bps == 0x8000 && total * bps > 32 * GB
    ensures total > 0x10_0000 * spc && Product(spc, bps * 8) == 0x4_0000
  {
    Associate(spc, bps, 8);
    Associate(0x10_0000, spc, bps);
    if total <= 0x10_0000 * spc { MulMonotone(total, 0x10_0000 * spc, bps); }
  }

  lemma SmallSpan(total: nat, bps: nat, spc: nat)
    requires spc * bps == 0x8000 && total * bps <= 32 * GB && 1 <= spc <= 64
    ensures total <= 0x10_0000 * spc
  {
    Associate(0x10_0000, spc, bps);
    Cancel(total, 0x10_0000 * spc, bps);
  }

  // ---------- what can be mounted ----------

  lemma PowersTo128(n: nat)
    requires 1 <= n <= 128
    ensures CountOnes(n) == 1 <==> n in {1, 2, 4, 8, 16, 32, 64, 128}
  {
    if CountOnes(n) == 1 {
      if n > 1 {
        HalfOfPower(n);
        SmallPowers(n / 2);
      }
    } else {
      FewOnes();
      assert CountOnes(128) == CountOnes(64);
    }
  }

  lemma SectorSizesTo4096(n: nat)
    requires 512 <= n <= 4096
    ensures CountOnes(n) == 1 <==> n in {512, 1024, 2048, 4096}
  {
    if CountOnes(n) == 1 {
      SectorSizes(n);
    } else {
      FewOnes();
      assert CountOnes(512) == CountOnes(256) == CountOnes(128) == CountOnes(64);
      assert CountOnes(4096) == CountOnes(2048) == CountOnes(1024) == CountOnes(512);
    }
  }

  predicate SizesInRange(b: Bpb) {
    && b.bytesPerSector in {512, 1024, 2048, 4096}
    && b.sectorsPerCluster in {1, 2, 4, 8, 16, 32, 64, 128}
  }

  lemma SectorsExactly(b: Bpb)
    ensures b.ValidSectors() <==> SizesInRange(b)
    ensures SizesInRange(b) ==> b.bytesPerSector > 0 && b.sectorsPerCluster > 0
  {
    hide CountOnes;
    if 512 <= b.bytesPerSector <= 4096 { SectorSizesTo4096(b.bytesPerSector); }
    if 1 <= b.sectorsPerCluster <= 128 { PowersTo128(b.sectorsPerCluster); }
  }

  lemma Regions(b: Bpb)
    requires b.bytesPerSector > 0
    ensures b.FirstDataSector() ==
      b.reservedSectors + b.fats * (b.sectorsPerFat16 + if b.sectorsPerFat16 == 0 then b.sectorsPerFat32 else 0)
      + RootDirSectors(b.rootEntries, b.bytesPerSector)
    ensures b.totalSectors16 == 0 || b.totalSectors32 == 0 ==> b.TotalSectors() == b.totalSectors16 + b.totalSectors32
  {
  }

  /** Which blocks pass the checks: sizes that are powers of two, regions in order, a volume that is FAT32 in all
      respects or in none, and as many clusters as that type has. */
  lemma ValidatesExactly(b: Bpb)
    ensures b.Validates() <==>
      && SizesInRange(b) && b.fsVersion == 0 && b.reservedSectors > 0 && b.fats > 0
      && var fat32 := b.sectorsPerFat16 == 0;
         var total := b.totalSectors16 + b.totalSectors32;
         var front := b.reservedSectors + b.fats * (b.sectorsPerFat16 + if fat32 then b.sectorsPerFat32 else 0)
                      + RootDirSectors(b.rootEntries, b.bytesPerSector);
         && fat32 == (b.rootEntries == 0)
         && (fat32 ==> b.backupBootSector < b.reservedSectors && b.fsInfoSector < b.reservedSectors)
         && (fat32 ==> b.totalSectors16 == 0 && b.sectorsPerFat32 > 0)
         && (b.totalSectors16 == 0 || b.totalSectors32 == 0) && front < total
         && var clusters := (total - front) / b.sectorsPerCluster;
            if fat32 then 65525 <= clusters < 0x1000_0000 else clusters < 65525
  {
    hide SizesInRange, Bpb.ValidSectors, RootDirSectors, Bpb.FirstDataSector, Bpb.TotalSectors;
    SectorsExactly(b);
    if b.bytesPerSector > 0 { Regions(b); }
  }

  // ---------- formatting and mounting agree ----------

  predicate Mounts(b: Bpb, total: nat) {
    && b.Validates() && b.ArithmeticFits() && b.FieldsFit()
    && b.TotalSectors() == total && (b.IsFat32() ==> b.totalSectors16 == 0)
  }

  /** Clusters are a power of two of sectors. */
  lemma ClustersArePowers(total: nat, bytesPerSector: nat)
    requires SectorSize(bytesPerSector) && bytesPerSector <= 32 * KB
    ensures CountOnes(DefaultSpc(total, bytesPerSector)) == 1
  {
    var n := total * bytesPerSector;
    hide DetermineBytesPerCluster, CountOnes, ClusterSizeTable, SectorOrCluster;
    SectorSizes(bytesPerSector);
    LargerSectors(n, bytesPerSector);
    PowerQuotient(ClusterSizeTable(n), bytesPerSector);
  }

  /** With larger sectors the table holds as well, but for clusters smaller than a sector. */
  lemma LargerSectors(totalBytes: nat, bytesPerSector: nat)
    requires 512 <= bytesPerSector <= 32 * KB
    ensures DetermineBytesPerCluster(totalBytes, bytesPerSector, None)
            == Max(ClusterSizeTable(totalBytes), bytesPerSector)
    ensures SectorOrCluster(ClusterSizeTable(totalBytes))
  {
    DefaultClusterSize(totalBytes);
  }

  lemma PowerQuotient(c: nat, b: nat)
    requires SectorOrCluster(c) && SectorOrCluster(b)
    ensures CountOnes(Max(c, b) / b) == 1
  {
    var q := Max(c, b) / b;
    assert q == 1 || q == 2 || q == 4 || q == 8 || q == 16 || q == 32 || q == 64 by { hide CountOnes; }
    FewOnes();
    hide CountOnes;
  }

  lemma FewOnes()
    ensures CountOnes(1) == 1 && CountOnes(2) == 1 && CountOnes(4) == 1 && CountOnes(8) == 1
    ensures CountOnes(16) == 1 && CountOnes(32) == 1 && CountOnes(64) == 1
  {
  }

  /** The bounds that the fields and the checks need. */
  lemma LayoutBounds(l: Layout)
    requires l.BigEnough() && FromClusters(l.TotalClusters()) == l.fatType && l.bytesPerSector <= 32 * KB
    requires l.fats == 2 && l.reserved == if l.fatType.Fat32? then 8 else 1
    ensures l.fatType.Fat32? ==> l.total >= 0x1_0000
    ensures !l.fatType.Fat32? ==> l.SectorsPerFat() <= 513
    ensures l.SectorsPerFat() * l.bytesPerSector * 8 / EntryBits(l.fatType) >= 2
  {
    hide CountOnes, SectorSize, Layout.SectorsPerFat, Layout.EntriesPerCluster;
    FatFits(l);
    FatIsTight(l);
    FatHoldsAllClusters(l);
    ManyEntries(l);
    DivMod(l.DataSectors(), l.sectorsPerCluster);
    var s, t := l.SectorsPerFat(), l.TotalClusters();
    Associate(s, l.bytesPerSector, 8);
    MulMonotone(128, l.EntriesPerSector(), s - 1);
    MulMonotone(1, l.sectorsPerCluster, t);
    MulMonotone(l.bytesPerSector * 8, 0x4_0000, s);
  }

  /** Formatting with default options makes a block that can be mounted exactly when sectors have at most
      4096 bytes and the bits of the FAT fit 32 bits; no number in it or in the checks is too wide then. */
  lemma FormatMountsExactly(total: nat, bytesPerSector: nat)
    requires SectorSize(bytesPerSector) && bytesPerSector <= 32 * KB && total < U32_BOUND
    ensures FormatBpb(total, bytesPerSector).Some? ==>
      (Mounts(FormatBpb(total, bytesPerSector).value, total)
       <==> bytesPerSector <= 4 * KB && total <= MostSectors(bytesPerSector))
  {
    hide FormatBpb, Mounts, Bpb.FatBits, MostSectors, CountOnes;
    if FormatBpb(total, bytesPerSector).Some? {
      FatBitsFitExactly(total, bytesPerSector);
      ClustersArePowers(total, bytesPerSector);
      FormattedChecks(total, bytesPerSector);
    }
  }

  lemma FormattedChecks(total: nat, bytesPerSector: nat)
    requires SectorSize(bytesPerSector) && bytesPerSector <= 32 * KB && total < U32_BOUND
    requires FormatBpb(total, bytesPerSector).Some? && CountOnes(DefaultSpc(total, bytesPerSector)) == 1
    ensures var b := FormatBpb(total, bytesPerSector).value;
      Mounts(b, total) <==> bytesPerSector <= 4 * KB && b.FatBits() < U32_BOUND
  {
    var spc := DefaultSpc(total, bytesPerSector);
    var l := Chosen(total, bytesPerSector, spc, 512, 2).value;
    assert l.BigEnough() && FromClusters(l.TotalClusters()) == l.fatType;
    assert l.TotalClusters() <= MaxClusters(l.fatType);
    assert l == LayoutFor(l.fatType, total, bytesPerSector, spc, 512, 2);
    hide Chosen, CountOnes, DefaultSpc, Mounts, Bpb.FatBits, BpbOf, Layout.BigEnough, Layout.TotalClusters;
    ChecksOf(l);
  }

  lemma ChecksOf(l: Layout)
    requires l.BigEnough() && l.total < U32_BOUND && l.bytesPerSector <= 32 * KB && l.sectorsPerCluster <= 64
    requires CountOnes(l.sectorsPerCluster) == 1 && l.fats == 2
    requires FromClusters(l.TotalClusters()) == l.fatType && l.TotalClusters() <= MaxClusters(l.fatType)
    requires l.reserved == (if l.fatType.Fat32? then 8 else 1)
    requires l.rootDir == if l.fatType.Fat32? then 0 else RootDirSectors(512, l.bytesPerSector)
    ensures Mounts(BpbOf(l), l.total) <==> l.bytesPerSector <= 4 * KB && BpbOf(l).FatBits() < U32_BOUND
  {
    hide CountOnes, Layout.SectorsPerFat;
    LayoutBounds(l);
    FatFits(l);
    NoRoot(l.bytesPerSector);
    var b := BpbOf(l);
    assert b.SectorsPerFat() == l.SectorsPerFat() && b.TotalSectors() == l.total;
    assert b.FirstDataSector() == l.total - l.DataSectors();
    assert b.ValidRegions();
    if b.ValidSectors() {
      assert b.ValidTotals();
      assert b.TotalClusters() == l.TotalClusters();
      assert b.ValidClusters();
      hide RootDirSectors, Layout.TotalClusters;
    }
  }

  lemma NoRoot(bytesPerSector: nat)
    requires bytesPerSector > 0
    ensures RootDirSectors(0, bytesPerSector) == 0
  {
  }

  /** With default options and 512-byte sectors, whatever the number of sectors, a volume that is
      formatted can be mounted: its parameter block passes every check, and no number in it, nor in the
      checks, is too wide. */
  lemma DefaultFormatMounts(total: nat)
    requires total < U32_BOUND
    ensures SectorSize(512)
    ensures FormatBpb(total, 512).Some? ==> Mounts(FormatBpb(total, 512).value, total)
  {
    assert SectorSize(512);
    FormatMountsExactly(total, 512);
    hide FormatBpb, Mounts;
  }

  /** With larger sectors the last check can overflow: a volume of 5 terabytes with 4096-byte sectors. */
  lemma LargeSectorsOverflow()
    ensures SectorSize(4096)
    ensures var b := FormatBpb(0x5000_0000, 4096); b.Some? && b.value.FatBits() >= U32_BOUND
  {
    assert SectorSize(4096);
    var bytes := 0x5000_0000 * 4096;
    assert DetermineBytesPerCluster(bytes, 4096, None) == 32 * KB by {
      assert NextPowerOfTwo(bytes) / 0x8000_0000 * KB >= 32 * KB;
    }
    LargeLayout();
  }

  lemma LargeLayout()
    requires SectorSize(4096)
    ensures var l := Chosen(0x5000_0000, 4096, 8, 512, 2);
      l.Some? && l.value.fatType == Fat32 && l.value.bytesPerSector == 4096 && l.value.SectorsPerFat() == 163801
  {
    hide CountOnes;
    var l := LayoutFor(Fat32, 0x5000_0000, 4096, 8, 512, 2);
    assert l == Layout(0x5000_0000, 4096, 8, Fat32, 8, 0, 2);
    assert l.EntriesPerCluster() == 8192 && l.Room() == 1342177272;
    assert l.SectorsPerFat() == 163801;
    assert l.DataSectors() == 1341849670 && l.TotalClusters() == 167731208;
    assert TryFsGeometry(l) == Some(163801);
  }
}
