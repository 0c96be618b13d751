/** A freshly formatted table: the state that every run of the file system starts from. */
module FormatFat {
  import opened Prelude
  import opened FatCodec
  import opened FatHeap
  import Geometry

  const FIRST_BAD := 0x0FFF_FFF0

  /** The entries that a table of `size` bytes has room for. */
  function EntryCount(ft: FatType, size: nat): nat {
    size * 8 / Geometry.EntryBits(ft)
  }

  /** Entries are counted as long as all their bits, and the word they are in, lie in the table. */
  lemma EntryHasRoom(ft: FatType, size: nat, c: nat)
    ensures c < EntryCount(ft, size) <==> Offset(ft, c) + Width(ft) <= size
    ensures c < EntryCount(ft, size) <==>
      (c + 1) * (match ft case Fat12 => 12 case Fat16 => 16 case Fat32 => 32) <= 8 * size
  {
  }

  function Head(ft: FatType, media: byte): seq<byte> {
    match ft
    case Fat12 => [media, 0xFF, 0xFF]
    case Fat16 => [media, 0xFF, 0xFF, 0xFF]
    case Fat32 => [media, 0xFF, 0xFF, 0x0F, 0xFF, 0xFF, 0xFF, 0xFF]
  }

  /** The raw value that formatting gives entry `c`, once the entries from `start` to `marked` have been
      marked as used, and the reserved numbers up to `bad` as bad. */
  function Value(ft: FatType, media: byte, start: nat, marked: nat, bad: nat, c: nat): nat {
    if c == 0 then RawLimit(ft) - 0x100 + media
    else if c == 1 then RawLimit(ft) - 1
    else if 0x0FFF_FFF0 <= c < bad then EntryLimit(ft)
    else if start <= c < marked then RawLimit(ft) - 1
    else 0
  }

  lemma BlankEntry(ft: FatType, media: byte, size: nat, c: nat)
    requires |Head(ft, media)| <= size && c < EntryCount(ft, size)
    ensures Offset(ft, c) + Width(ft) <= size
    ensures Raw(ft, Head(ft, media) + Zeros(size - |Head(ft, media)|), c) == Value(ft, media, 0, 0, 0, c)
  {
    EntryHasRoom(ft, size, c);
    var s := Head(ft, media) + Zeros(size - |Head(ft, media)|);
    match ft {
      case Fat12 => if c <= 1 { assert s[0] == media && s[1] == 0xFF && s[2] == 0xFF; }
      case Fat16 => if c <= 1 { assert s[Offset(ft, c) + 1] == 0xFF; }
      case Fat32 => if c <= 1 { assert s[Offset(ft, c) + 1] == 0xFF; }
    }
  }

  /** The first `n` entries have these values. */
  predicate AllFormatted(ft: FatType, s: seq<byte>, n: nat, media: byte, start: nat, marked: nat, bad: nat) {
    forall c: nat :: c < n ==>
      Offset(ft, c) + Width(ft) <= |s| && Raw(ft, s, c) == Value(ft, media, start, marked, bad, c)
  }

  lemma BlankTableBytes(ft: FatType, media: byte, size: nat, n: nat, start: nat)
    requires RESERVED_FAT_ENTRIES <= n <= EntryCount(ft, size)
    ensures |Head(ft, media)| <= size
    ensures AllFormatted(ft, Head(ft, media) + Zeros(size - |Head(ft, media)|), n, media, start, start, 0)
  {
    EntryHasRoom(ft, size, n - 1);
    forall d: nat | d < n
      ensures Offset(ft, d) + Width(ft) <= size
      ensures Raw(ft, Head(ft, media) + Zeros(size - |Head(ft, media)|), d) == Value(ft, media, start, start, 0, d)
    {
      BlankEntry(ft, media, size, d);
    }
  }

  lemma PutFormatted(ft: FatType, s: seq<byte>, n: nat, media: byte, start: nat, marked: nat, bad: nat, c: nat,
                     raw: nat)
    requires AllFormatted(ft, s, n, media, start, marked, bad)
    requires RESERVED_FAT_ENTRIES <= c < n && Offset(ft, c) + Width(ft) <= |s| && raw < RawLimit(ft)
    ensures bad == 0 && start <= c == marked && raw == RawLimit(ft) - 1 ==>
      AllFormatted(ft, Put(ft, s, c, raw), n, media, start, c + 1, 0)
    ensures c == Max(bad, FIRST_BAD) && raw == EntryLimit(ft) ==>
      AllFormatted(ft, Put(ft, s, c, raw), n, media, start, marked, c + 1)
  {
    forall d: nat | d < n ensures Raw(ft, Put(ft, s, c, raw), d) == if d == c then raw else Raw(ft, s, d) {
      PutRaw(ft, s, c, d, raw);
    }
  }

  lemma FormattedIsBlank(ft: FatType, s: seq<byte>, n: nat, media: byte, start: nat, marked: nat, bad: nat)
    requires start <= n && Holds(ft, s, start) && AllFormatted(ft, s, n, media, start, marked, bad)
    requires start <= FIRST_BAD || start <= bad
    ensures BlankTable(Entries(ft, s, start))
  {
    forall c: nat | c < start
      ensures var v := Entries(ft, s, start)[c];
        if c < RESERVED_FAT_ENTRIES then v != Free else v == if c < FIRST_BAD then Free else Bad
    {
      assert Raw(ft, s, c) == Value(ft, media, start, marked, bad, c);
    }
  }

  /** Formats the table: the reserved entries, the entries behind the last cluster as far as a 32-bit
      number of entries reaches, and the cluster numbers that FAT32 reserves. */
  method FormatFat(ft: FatType, media: byte, size: nat, totalClusters: nat) returns (s: seq<byte>)
    requires totalClusters + RESERVED_FAT_ENTRIES <= EntryLimit(ft)
    requires totalClusters + RESERVED_FAT_ENTRIES <= EntryCount(ft, size)
    ensures |s| == size && Holds(ft, s, totalClusters + RESERVED_FAT_ENTRIES)
    ensures var start, end := totalClusters + RESERVED_FAT_ENTRIES, EntryCount(ft, size) % 0x1_0000_0000;
      AllFormatted(ft, s, Max(start, end), media, start, Max(start, end), Min(0x1000_0000, end))
    ensures EntryCount(ft, size) <= U32_MAX ==>
      BlankTable(Entries(ft, s, totalClusters + RESERVED_FAT_ENTRIES))
  {
    hide AllFormatted, Raw, Put;
    var start, end := totalClusters + RESERVED_FAT_ENTRIES, EntryCount(ft, size) % 0x1_0000_0000;
    ghost var n := Max(start, end);
    EntryHasRoom(ft, size, start - 1);
    BlankTableBytes(ft, media, size, n, start);
    s := Head(ft, media) + Zeros(size - |Head(ft, media)|);
    for c := start to Max(start, end)
      invariant |s| == size && AllFormatted(ft, s, n, media, start, c, 0)
    {
      EntryHasRoom(ft, size, c);
      PutFormatted(ft, s, n, media, start, c, 0, c, RawLimit(ft) - 1);
      s := Put(ft, s, c, RawLimit(ft) - 1);
    }
    ghost var bad: nat := 0;
    if end > FIRST_BAD {
      var endBad := Min(0x0FFF_FFFF + 1, end);
      for c := FIRST_BAD to endBad
        invariant |s| == size && AllFormatted(ft, s, n, media, start, n, bad) && bad == if c == FIRST_BAD then 0 else c
      {
        EntryHasRoom(ft, size, c);
        PutFormatted(ft, s, n, media, start, n, bad, c, EntryLimit(ft));
        s := Put(ft, s, c, EntryLimit(ft));
        bad := c + 1;
      }
    }
    NoMoreBad(ft, s, n, media, start, n, bad, Min(0x1000_0000, end));
    if EntryCount(ft, size) <= U32_MAX {
      FormattedIsBlank(ft, s, n, media, start, n, Min(0x1000_0000, end));
    }
  }

  lemma NoMoreBad(ft: FatType, s: seq<byte>, n: nat, media: byte, start: nat, marked: nat, bad: nat, bad': nat)
    requires AllFormatted(ft, s, n, media, start, marked, bad)
    requires bad == bad' || (bad <= FIRST_BAD && bad' <= FIRST_BAD)
    ensures AllFormatted(ft, s, n, media, start, marked, bad')
  {
  }

  /** Nothing is in use but the reserved entries. */
  predicate BlankTable(fat: Fat) {
    forall c :: 0 <= c < |fat| ==>
      if c < RESERVED_FAT_ENTRIES then fat[c] != Free else fat[c] == if c < FIRST_BAD then Free else Bad
  }

  /** A blank table is a heap without chains, whose free clusters are all but the reserved numbers; so
      every legal run from it keeps a heap of chains. */
  lemma BlankIsHeap(fat: Fat)
    requires BlankTable(fat) && |fat| > RESERVED_FAT_ENTRIES
    ensures Heap(fat, {})
    ensures forall c: nat :: c in FreeSet(fat) <==> RESERVED_FAT_ENTRIES <= c < Min(|fat|, FIRST_BAD)
  {
    forall c: nat | RESERVED_FAT_ENTRIES <= c < |fat| ensures !Covered({}, c) && !InUse(fat[c]) {
    }
  }

  /** The table that the geometry reserves has room for the clusters that the volume has, and a number of
      entries that fits 32 bits. */
  lemma GeometryHasRoom(l: Geometry.Layout)
    requires l.BigEnough() && Geometry.FromClusters(l.TotalClusters()) == l.fatType
    requires l.TotalClusters() <= Geometry.MaxClusters(l.fatType)
    ensures l.TotalClusters() + RESERVED_FAT_ENTRIES <= EntryLimit(l.fatType)
    ensures var n := EntryCount(l.fatType, l.SectorsPerFat() * l.bytesPerSector);
      l.TotalClusters() + RESERVED_FAT_ENTRIES <= n <= U32_MAX
  {
    assert l.bytesPerSector < 0x1_0000;
    Geometry.FatIsNotTooBig(l);
    hide Geometry.SectorSize, Geometry.Layout.SectorsPerFat, Geometry.Layout.TotalClusters;
    Geometry.FatHoldsAllClusters(l);
    Geometry.DivideAbove(l.bytesPerSector * 8, 0x1_0000, Geometry.EntryBits(l.fatType));
    Geometry.Associate(l.SectorsPerFat(), l.bytesPerSector, 8);
  }
}
