/** Allocation-table entries as packed bytes: 12, 16 or 32 bits per entry. */
module FatCodec {
  import opened Prelude

  datatype FatType = Fat12 | Fat16 | Fat32

  datatype FatValue = Free | Data(next: nat) | Bad | EndOfChain

  const RESERVED_FAT_ENTRIES := 2

  /** Entry numbers below this limit are told apart from the bad-cluster and end-of-chain marks. */
  function EntryLimit(ft: FatType): nat {
    match ft
    case Fat12 => 0xFF7
    case Fat16 => 0xFFF7
    case Fat32 => 0x0FFF_FFF7
  }

  /** One more than the largest raw value: an entry has 12, 16 or (of its 32) 28 value bits. */
  function RawLimit(ft: FatType): nat {
    match ft
    case Fat12 => 0x1000
    case Fat16 => 0x1_0000
    case Fat32 => 0x1000_0000
  }

  function Offset(ft: FatType, c: nat): nat {
    match ft
    case Fat12 => c + c / 2
    case Fat16 => c * 2
    case Fat32 => c * 4
  }

  function Width(ft: FatType): nat {
    if ft.Fat32? then 4 else 2
  }

  /** The table `s` has room for the entries below `n`, and `n` stays below the special marks. */
  predicate Holds(ft: FatType, s: seq<byte>, n: nat) {
    n <= EntryLimit(ft) && (n > 0 ==> Offset(ft, n - 1) + Width(ft) <= |s|)
  }

  lemma HoldsBelow(ft: FatType, s: seq<byte>, n: nat, c: nat)
    requires Holds(ft, s, n) && c < n
    ensures Offset(ft, c) + Width(ft) <= |s|
  {
  }

  /** The little-endian word that contains entry `c`. */
  function Word(ft: FatType, s: seq<byte>, c: nat): nat
    requires Offset(ft, c) + Width(ft) <= |s|
  {
    if ft.Fat32? then Le32(s, Offset(ft, c)) else Le16(s, Offset(ft, c))
  }

  /** The value bits of entry `c` inside its word. */
  function Unpack(ft: FatType, c: nat, word: nat): nat {
    match ft
    case Fat12 => if c % 2 == 0 then word % 0x1000 else word / 0x10
    case Fat16 => word
    case Fat32 => word % 0x1000_0000
  }

  /** `word` with the value bits of entry `c` replaced: the neighbour's nibbles (FAT12) or the
      reserved nibble (FAT32) stay. */
  function Repack(ft: FatType, c: nat, word: nat, raw: nat): nat {
    match ft
    case Fat12 => if c % 2 == 0 then word / 0x1000 * 0x1000 + raw else word % 0x10 + raw * 0x10
    case Fat16 => raw
    case Fat32 => word / 0x1000_0000 * 0x1000_0000 + raw
  }

  function Raw(ft: FatType, s: seq<byte>, c: nat): nat
    requires Offset(ft, c) + Width(ft) <= |s|
  {
    Unpack(ft, c, Word(ft, s, c))
  }

  /** FAT32 cluster numbers that collide with the marks are never free and never linked. */
  predicate Special(ft: FatType, c: nat) {
    ft.Fat32? && 0x0FFF_FFF7 <= c <= 0x0FFF_FFFF
  }

  function Decode(ft: FatType, c: nat, raw: nat): FatValue {
    var mark := EntryLimit(ft);
    if raw == mark then Bad
    else if raw > mark then EndOfChain
    else if Special(ft, c) then Bad
    else if raw == 0 then Free
    else Data(raw)
  }

  function Encode(ft: FatType, v: FatValue): nat {
    match v
    case Free => 0
    case Bad => EntryLimit(ft)
    case EndOfChain => RawLimit(ft) - 1
    case Data(n) => n
  }

  /** A value that survives being stored. */
  predicate Storable(ft: FatType, v: FatValue) {
    v.Data? ==> 0 < v.next < EntryLimit(ft)
  }

  function Bytes(w: nat, width: nat): (r: seq<byte>)
    requires width == 2 || width == 4
    ensures |r| == width
  {
    if width == 2 then [w % 0x100, w / 0x100 % 0x100]
    else [w % 0x100, w / 0x100 % 0x100, w / 0x1_0000 % 0x100, w / 0x100_0000 % 0x100]
  }

  /** The table after `raw` is stored in entry `c`. */
  function Put(ft: FatType, s: seq<byte>, c: nat, raw: nat): (r: seq<byte>)
    requires Offset(ft, c) + Width(ft) <= |s|
    ensures |r| == |s|
  {
    Splice(s, Offset(ft, c), Bytes(Repack(ft, c, Word(ft, s, c), raw), Width(ft)))
  }

  lemma Le16Bytes(s: seq<byte>, i: nat, w: nat)
    requires i + 2 <= |s| && w < 0x1_0000
    ensures Le16(Splice(s, i, Bytes(w, 2)), i) == w
  {
  }

  lemma Le32Bytes(s: seq<byte>, i: nat, w: nat)
    requires i + 4 <= |s| && w < 0x1_0000_0000
    ensures Le32(Splice(s, i, Bytes(w, 4)), i) == w
  {
    var q1, q2, q3 := w / 0x100, w / 0x1_0000, w / 0x100_0000;
    assert w == w % 0x100 + 0x100 * q1 && q1 == q1 % 0x100 + 0x100 * q2 && q2 == q2 % 0x100 + 0x100 * q3;
    var t := Splice(s, i, Bytes(w, 4));
    assert t[i] == w % 0x100 && t[i + 1] == q1 % 0x100 && t[i + 2] == q2 % 0x100 && t[i + 3] == q3;
  }

  lemma UnpackRepack(ft: FatType, c: nat, word: nat, raw: nat)
    requires raw < RawLimit(ft)
    ensures Unpack(ft, c, Repack(ft, c, word, raw)) == raw
  {
  }

  lemma WordAfterPut(ft: FatType, s: seq<byte>, c: nat, raw: nat)
    requires Offset(ft, c) + Width(ft) <= |s| && raw < RawLimit(ft)
    ensures Word(ft, Put(ft, s, c, raw), c) == Repack(ft, c, Word(ft, s, c), raw)
  {
    var w := Repack(ft, c, Word(ft, s, c), raw);
    if ft.Fat32? { Le32Bytes(s, Offset(ft, c), w); } else { Le16Bytes(s, Offset(ft, c), w); }
  }

  /** FAT12 neighbours share a byte; each keeps its own nibble of it. */
  lemma EvenThenNext(a: byte, b: byte, raw: nat)
    requires raw < 0x1000
    ensures var w := Repack(Fat12, 0, a as int + 0x100 * b as int, raw);
      w / 0x100 % 0x100 / 0x10 == b / 0x10
  {
  }

  lemma OddThenPrevious(a: byte, b: byte, raw: nat)
    requires raw < 0x1000
    ensures var w := Repack(Fat12, 1, a as int + 0x100 * b as int, raw);
      w % 0x100 % 0x10 == a % 0x10
  {
  }

  /** An odd FAT12 entry is the high nibble of its first byte and all of its second. */
  lemma OddParts(a: byte, b: byte)
    ensures (a as int + 0x100 * b as int) / 0x10 == a as int / 0x10 + 0x10 * b as int
  {
  }

  /** An even FAT12 entry is all of its first byte and the low nibble of its second. */
  lemma EvenParts(a: byte, b: byte)
    ensures (a as int + 0x100 * b as int) % 0x1000 == a as int + 0x100 * (b as int % 0x10)
  {
    var q, r := b as int / 0x10, b as int % 0x10;
    assert a as int + 0x100 * b as int == 0x1000 * q + (a as int + 0x100 * r);
  }

  lemma PutNext(s: seq<byte>, c: nat, raw: nat)
    requires c % 2 == 0 && Offset(Fat12, c) + 3 <= |s| && raw < 0x1000
    ensures Raw(Fat12, Put(Fat12, s, c, raw), c + 1) == Raw(Fat12, s, c + 1)
  {
    var o := Offset(Fat12, c);
    EvenThenNext(s[o], s[o + 1], raw);
    var t := Put(Fat12, s, c, raw);
    assert Offset(Fat12, c + 1) == o + 1;
    assert t[o + 2] == s[o + 2] && t[o + 1] / 0x10 == s[o + 1] / 0x10;
    OddParts(t[o + 1], t[o + 2]);
    OddParts(s[o + 1], s[o + 2]);
  }

  lemma PutPrevious(s: seq<byte>, c: nat, raw: nat)
    requires c % 2 == 1 && Offset(Fat12, c) + 2 <= |s| && raw < 0x1000
    ensures Offset(Fat12, c - 1) + 2 <= |s|
    ensures Raw(Fat12, Put(Fat12, s, c, raw), c - 1) == Raw(Fat12, s, c - 1)
  {
    var o := Offset(Fat12, c);
    assert Offset(Fat12, c - 1) == o - 1;
    OddThenPrevious(s[o], s[o + 1], raw);
    var t := Put(Fat12, s, c, raw);
    assert t[o - 1] == s[o - 1] && t[o] % 0x10 == s[o] % 0x10;
    EvenParts(t[o - 1], t[o]);
    EvenParts(s[o - 1], s[o]);
  }

  /** Storing an entry and reading it back returns it, and every other entry keeps its value. */
  lemma PutRaw(ft: FatType, s: seq<byte>, c: nat, d: nat, raw: nat)
    requires Offset(ft, c) + Width(ft) <= |s| && Offset(ft, d) + Width(ft) <= |s|
    requires raw < RawLimit(ft)
    ensures Raw(ft, Put(ft, s, c, raw), d) == if d == c then raw else Raw(ft, s, d)
  {
    if d == c {
      WordAfterPut(ft, s, c, raw);
      UnpackRepack(ft, c, Word(ft, s, c), raw);
    } else if ft.Fat12? && d == c + 1 && c % 2 == 0 {
      PutNext(s, c, raw);
    } else if ft.Fat12? && c == d + 1 && c % 2 == 1 {
      PutPrevious(s, c, raw);
    } else {
      PutApart(ft, s, c, d, raw);
    }
  }

  lemma PutApart(ft: FatType, s: seq<byte>, c: nat, d: nat, raw: nat)
    requires Offset(ft, c) + Width(ft) <= |s| && Offset(ft, d) + Width(ft) <= |s|
    requires d != c && !(ft.Fat12? && c / 2 == d / 2)
    ensures Raw(ft, Put(ft, s, c, raw), d) == Raw(ft, s, d)
  {
    assert Offset(ft, d) + Width(ft) <= Offset(ft, c) || Offset(ft, c) + Width(ft) <= Offset(ft, d);
  }

  /** On FAT32 the four reserved bits of the entry are preserved. */
  lemma PutKeepsReservedBits(s: seq<byte>, c: nat, raw: nat)
    requires Offset(Fat32, c) + 4 <= |s| && raw < RawLimit(Fat32)
    ensures Word(Fat32, Put(Fat32, s, c, raw), c) / 0x1000_0000 == Word(Fat32, s, c) / 0x1000_0000
  {
    WordAfterPut(Fat32, s, c, raw);
  }

  function Get(ft: FatType, s: seq<byte>, c: nat): FatValue
    requires Offset(ft, c) + Width(ft) <= |s|
  {
    Decode(ft, c, Raw(ft, s, c))
  }

  /** The table as a map from entry number to value. */
  ghost function Entries(ft: FatType, s: seq<byte>, n: nat): (fat: seq<FatValue>)
    requires Holds(ft, s, n)
    ensures |fat| == n
    ensures forall c :: 0 <= c < n ==> Offset(ft, c) + Width(ft) <= |s| && fat[c] == Get(ft, s, c)
  {
    if n == 0 then [] else Entries(ft, s, n - 1) + [Get(ft, s, n - 1)]
  }

  // ---------- the formats, byte by byte ----------

  /** The value bits of entry `c`: 12 bits in a row, 16 bits, or 28 of 32 bits, low byte first. */
  function RawAt(ft: FatType, s: seq<byte>, c: nat): nat
    requires Offset(ft, c) + Width(ft) <= |s|
  {
    match ft
    case Fat12 =>
      var o := c * 3 / 2;
      if c % 2 == 0 then s[o] as int + 0x100 * (s[o + 1] as int % 0x10) else s[o] as int / 0x10 + 0x10 * s[o + 1] as int
    case Fat16 => s[2 * c] as int + 0x100 * s[2 * c + 1] as int
    case Fat32 =>
      s[4 * c] as int + 0x100 * s[4 * c + 1] as int + 0x1_0000 * s[4 * c + 2] as int
      + 0x100_0000 * (s[4 * c + 3] as int % 0x10)
  }

  /** What the value bits of entry `c` say. */
  function Meaning(ft: FatType, c: nat, raw: nat): FatValue {
    match ft
    case Fat12 => if raw == 0 then Free else if raw < 0xFF7 then Data(raw) else if raw == 0xFF7 then Bad else EndOfChain
    case Fat16 =>
      if raw == 0 then Free else if raw < 0xFFF7 then Data(raw) else if raw == 0xFFF7 then Bad else EndOfChain
    case Fat32 =>
      if raw >= 0x0FFF_FFF8 then EndOfChain
      else if raw == 0x0FFF_FFF7 || 0x0FFF_FFF7 <= c <= 0x0FFF_FFFF then Bad
      else if raw == 0 then Free
      else Data(raw)
  }

  /** The value bits that are stored. */
  function Stored(ft: FatType, v: FatValue): nat {
    match (v, ft)
    case (Free, _) => 0
    case (Data(n), _) => n
    case (Bad, Fat12) => 0xFF7
    case (Bad, Fat16) => 0xFFF7
    case (Bad, Fat32) => 0x0FFF_FFF7
    case (EndOfChain, Fat12) => 0xFFF
    case (EndOfChain, Fat16) => 0xFFFF
    case (EndOfChain, Fat32) => 0x0FFF_FFFF
  }

  lemma FormatIsExact(ft: FatType, s: seq<byte>, c: nat, v: FatValue)
    requires Offset(ft, c) + Width(ft) <= |s|
    ensures Raw(ft, s, c) == RawAt(ft, s, c) && Get(ft, s, c) == Meaning(ft, c, RawAt(ft, s, c))
    ensures Encode(ft, v) == Stored(ft, v)
  {
    match ft
    case Fat12 =>
      var o := Offset(ft, c);
      EvenParts(s[o], s[o + 1]);
      OddParts(s[o], s[o + 1]);
    case Fat16 =>
    case Fat32 => WordParts(s[4 * c], s[4 * c + 1], s[4 * c + 2], s[4 * c + 3]);
  }

  lemma WordParts(a: byte, b: byte, c: byte, d: byte)
    ensures (a as int + 0x100 * b as int + 0x1_0000 * c as int + 0x100_0000 * d as int) % 0x1000_0000
         == a as int + 0x100 * b as int + 0x1_0000 * c as int + 0x100_0000 * (d as int % 0x10)
  {
    var q, r := d as int / 0x10, d as int % 0x10;
    assert d as int == 0x10 * q + r;
  }

  lemma PutGet(ft: FatType, s: seq<byte>, n: nat, c: nat, d: nat, v: FatValue)
    requires Holds(ft, s, n) && c < n && d < n && Storable(ft, v)
    ensures Offset(ft, c) + Width(ft) <= |s| && Offset(ft, d) + Width(ft) <= |s|
    ensures Get(ft, Put(ft, s, c, Encode(ft, v)), d) == if d == c then v else Get(ft, s, d)
  {
    HoldsBelow(ft, s, n, c);
    HoldsBelow(ft, s, n, d);
    PutRaw(ft, s, c, d, Encode(ft, v));
  }

  /** Storing a value in the bytes is exactly one update of the map. */
  lemma PutEntries(ft: FatType, s: seq<byte>, n: nat, c: nat, v: FatValue)
    requires Holds(ft, s, n) && c < n && Storable(ft, v)
    ensures Offset(ft, c) + Width(ft) <= |s|
    ensures Holds(ft, Put(ft, s, c, Encode(ft, v)), n)
    ensures Entries(ft, Put(ft, s, c, Encode(ft, v)), n) == Entries(ft, s, n)[c := v]
  {
    HoldsBelow(ft, s, n, c);
    var t := Put(ft, s, c, Encode(ft, v));
    forall d | 0 <= d < n
      ensures Entries(ft, t, n)[d] == Entries(ft, s, n)[c := v][d]
    {
      PutGet(ft, s, n, c, d, v);
    }
  }
}
