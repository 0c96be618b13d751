/** The 32-byte slots of a directory: short-name entries and the pieces of long names. */
module DirEntry {
  import opened Prelude

  const SLOT_SIZE := 32
  const DELETED_FLAG: byte := 0xE5

  type RawName = s: seq<byte> | |s| == 11 witness seq(11, _ => 0 as byte)
  type LfnPart = s: seq<u16> | |s| == 13 witness seq(13, _ => 0 as u16)
  type Attrs = b: int | 0 <= b < 64
  type u32 = w: int | 0 <= w < 0x1_0000_0000

  datatype FileData = FileData(
    name: RawName, attrs: Attrs, reserved0: byte, createTime0: byte, createTime1: u16, createDate: u16,
    accessDate: u16, firstClusterHi: u16, modifyTime: u16, modifyDate: u16, firstClusterLo: u16, size: u32)
  {
    predicate IsVolume() {
      attrs / 8 % 2 == 1
    }

    predicate IsDir() {
      attrs / 16 % 2 == 1
    }

    /** The first cluster: only FAT32 looks at the high half. */
    function FirstCluster(fat32: bool): Option<nat> {
      var n := (if fat32 then 0x1_0000 * firstClusterHi else 0) + firstClusterLo;
      if n == 0 then None else Some(n)
    }

    function SetFirstCluster(cluster: Option<u32>, fat32: bool): FileData {
      var n := if cluster.Some? then cluster.value else 0;
      var d := this.(firstClusterLo := n % 0x1_0000);
      if fat32 then d.(firstClusterHi := n / 0x1_0000) else d
    }
  }

  /** A piece of a long name; its units are stored in three runs of 5, 6 and 2. */
  datatype LfnData = LfnData(
    order: byte, units: LfnPart, attrs: Attrs, entryType: byte, checksum: byte, reserved0: u16)

  datatype Slot = File(file: FileData) | Lfn(lfn: LfnData)
  {
    /** The attributes decide how the slot is read, so they must agree with what it holds. */
    predicate Valid() {
      match this
      case File(d) => !IsLfnAttrs(d.attrs)
      case Lfn(d) => IsLfnAttrs(d.attrs)
    }

    function FirstByte(): byte {
      match this
      case File(d) => d.name[0]
      case Lfn(d) => d.order
    }

    predicate IsEnd() {
      FirstByte() == 0
    }

    predicate IsDeleted() {
      FirstByte() == DELETED_FLAG
    }

    function SetDeleted(): (r: Slot)
      ensures r.IsDeleted() && !r.IsEnd()
      ensures Valid() ==> r.Valid()
    {
      match this
      case File(d) => File(d.(name := d.name[0 := DELETED_FLAG]))
      case Lfn(d) => Lfn(d.(order := DELETED_FLAG))
    }
  }

  predicate IsLfnAttrs(attrs: Attrs) {
    attrs % 16 == 15
  }

  function Lo(w: u16): byte { w % 0x100 }
  function Hi(w: u16): byte { w / 0x100 }

  function Word(b: seq<byte>, i: nat): u16
    requires i + 1 < |b|
  {
    b[i] as int + 0x100 * b[i + 1] as int
  }

  function Serialize(s: Slot): (b: seq<byte>)
    ensures |b| == SLOT_SIZE
    ensures b[0] == s.FirstByte()
  {
    match s
    case File(d) =>
      d.name + [
        d.attrs, d.reserved0, d.createTime0, Lo(d.createTime1), Hi(d.createTime1), Lo(d.createDate),
        Hi(d.createDate), Lo(d.accessDate), Hi(d.accessDate), Lo(d.firstClusterHi), Hi(d.firstClusterHi),
        Lo(d.modifyTime), Hi(d.modifyTime), Lo(d.modifyDate), Hi(d.modifyDate), Lo(d.firstClusterLo),
        Hi(d.firstClusterLo), Lo(d.size % 0x1_0000), Hi(d.size % 0x1_0000), Lo(d.size / 0x1_0000),
        Hi(d.size / 0x1_0000)]
    case Lfn(d) =>
      var u := d.units;
      [d.order, Lo(u[0]), Hi(u[0]), Lo(u[1]), Hi(u[1]), Lo(u[2]), Hi(u[2]), Lo(u[3]), Hi(u[3]), Lo(u[4]), Hi(u[4]),
       d.attrs, d.entryType, d.checksum,
       Lo(u[5]), Hi(u[5]), Lo(u[6]), Hi(u[6]), Lo(u[7]), Hi(u[7]),
       Lo(u[8]), Hi(u[8]), Lo(u[9]), Hi(u[9]), Lo(u[10]), Hi(u[10]),
       Lo(d.reserved0), Hi(d.reserved0), Lo(u[11]), Hi(u[11]), Lo(u[12]), Hi(u[12])]
  }

  /** Attribute bits 6 and 7 are dropped on reading. */
  function Deserialize(b: seq<byte>): (s: Slot)
    requires |b| == SLOT_SIZE
    ensures s.Valid() && s.FirstByte() == b[0]
  {
    var attrs: Attrs := b[11] % 64;
    if IsLfnAttrs(attrs) then
      Lfn(LfnData(
            b[0],
            [Word(b, 1), Word(b, 3), Word(b, 5), Word(b, 7), Word(b, 9), Word(b, 14), Word(b, 16),
             Word(b, 18), Word(b, 20), Word(b, 22), Word(b, 24), Word(b, 28), Word(b, 30)],
            attrs, b[12], b[13], Word(b, 26)))
    else
      File(FileData(
             b[..11], attrs, b[12], b[13], Word(b, 14), Word(b, 16), Word(b, 18), Word(b, 20), Word(b, 22),
             Word(b, 24), Word(b, 26), Word(b, 28) + 0x1_0000 * Word(b, 30)))
  }

  lemma Rejoins(w: u16)
    ensures Lo(w) as int + 0x100 * Hi(w) as int == w
  {
  }

  lemma LfnReadsBack(d: LfnData)
    requires IsLfnAttrs(d.attrs)
    ensures Deserialize(Serialize(Lfn(d))) == Lfn(d)
  {
    hide Lo, Hi;
    var r, u := Deserialize(Serialize(Lfn(d))), d.units;
    Rejoins(u[0]); Rejoins(u[1]); Rejoins(u[2]); Rejoins(u[3]); Rejoins(u[4]); Rejoins(u[5]); Rejoins(u[6]);
    Rejoins(u[7]); Rejoins(u[8]); Rejoins(u[9]); Rejoins(u[10]); Rejoins(u[11]); Rejoins(u[12]);
    Rejoins(d.reserved0);
    assert r.lfn.units == u;
  }

  lemma SizeRejoins(size: u32)
    ensures var lo, hi := size % 0x1_0000, size / 0x1_0000;
      Lo(lo) as int + 0x100 * Hi(lo) as int + 0x1_0000 * (Lo(hi) as int + 0x100 * Hi(hi) as int) == size
  {
  }

  lemma FileReadsBack(d: FileData)
    requires !IsLfnAttrs(d.attrs)
    ensures Deserialize(Serialize(File(d))) == File(d)
  {
    hide Lo, Hi;
    var r := Deserialize(Serialize(File(d))).file;
    Rejoins(d.createTime1); Rejoins(d.createDate); Rejoins(d.accessDate); Rejoins(d.firstClusterHi);
    Rejoins(d.modifyTime); Rejoins(d.modifyDate); Rejoins(d.firstClusterLo);
    SizeRejoins(d.size);
    assert r.name == d.name;
  }

  /** What is written to a slot is read back from it. */
  lemma ReadsBack(s: Slot)
    requires s.Valid()
    ensures Deserialize(Serialize(s)) == s
  {
    match s
    case File(d) => FileReadsBack(d);
    case Lfn(d) => LfnReadsBack(d);
  }

  lemma WordSplits(b: seq<byte>, i: nat)
    requires i + 1 < |b|
    ensures Lo(Word(b, i)) == b[i] && Hi(Word(b, i)) == b[i + 1]
  {
  }

  lemma HalvesSplit(lo: u16, hi: u16)
    ensures (lo as int + 0x1_0000 * hi as int) % 0x1_0000 == lo
    ensures (lo as int + 0x1_0000 * hi as int) / 0x1_0000 == hi
  {
  }

  lemma LfnWritesBack(b: seq<byte>)
    requires |b| == SLOT_SIZE && IsLfnAttrs(b[11] % 64)
    ensures Serialize(Deserialize(b)) == b[11 := b[11] % 64]
  {
    hide Lo, Hi, Word;
    WordSplits(b, 1); WordSplits(b, 3); WordSplits(b, 5); WordSplits(b, 7); WordSplits(b, 9);
    WordSplits(b, 14); WordSplits(b, 16); WordSplits(b, 18); WordSplits(b, 20); WordSplits(b, 22);
    WordSplits(b, 24); WordSplits(b, 26); WordSplits(b, 28); WordSplits(b, 30);
  }

  lemma FileWritesBack(b: seq<byte>)
    requires |b| == SLOT_SIZE && !IsLfnAttrs(b[11] % 64)
    ensures Serialize(Deserialize(b)) == b[11 := b[11] % 64]
  {
    var d := Deserialize(b).file;
    HalvesSplit(Word(b, 28), Word(b, 30));
    assert d.size % 0x1_0000 == Word(b, 28) && d.size / 0x1_0000 == Word(b, 30);
    WordSplits(b, 14); WordSplits(b, 16); WordSplits(b, 18); WordSplits(b, 20); WordSplits(b, 22);
    WordSplits(b, 24); WordSplits(b, 26); WordSplits(b, 28); WordSplits(b, 30);
    assert d.name + [b[11] % 64] + b[12..] == b[11 := b[11] % 64];
    hide Lo, Hi, Word;
    var tail := Serialize(File(d))[11..];
    assert tail == [b[11] % 64] + b[12..];
  }

  /** Rewriting a slot that was just read keeps every byte but the two unknown attribute bits. */
  lemma WritesBack(b: seq<byte>)
    requires |b| == SLOT_SIZE
    ensures Serialize(Deserialize(b)) == b[11 := b[11] % 64]
  {
    if IsLfnAttrs(b[11] % 64) { LfnWritesBack(b); } else { FileWritesBack(b); }
  }

  // ---------- the format, byte by byte ----------

  /** The bits of `n`, from the low end. */
  lemma BitsOf(n: nat)
    ensures Bit(n, 0) == (n % 2 == 1) && Bit(n, 1) == (n / 2 % 2 == 1) && Bit(n, 2) == (n / 4 % 2 == 1)
    ensures Bit(n, 3) == (n / 8 % 2 == 1) && Bit(n, 4) == (n / 16 % 2 == 1)
  {
    var n1, n2, n3 := n / 2, n / 4, n / 8;
    assert n1 / 2 == n2 && n2 / 2 == n3 && n3 / 2 == n / 16;
    assert Bit(n1, 0) == (n1 % 2 == 1) && Bit(n2, 0) == (n2 % 2 == 1) && Bit(n3, 0) == (n3 % 2 == 1);
    assert Bit(n / 16, 0) == (n / 16 % 2 == 1);
    assert Bit(n2, 1) == Bit(n3, 0) && Bit(n3, 1) == Bit(n / 16, 0);
    assert Bit(n1, 1) == Bit(n2, 0) && Bit(n1, 2) == Bit(n2, 1) && Bit(n2, 2) == Bit(n3, 1);
    assert Bit(n1, 3) == Bit(n2, 2);
  }

  lemma LowNibble(a: byte)
    ensures a % 16 == 15 <==> a % 2 == 1 && a / 2 % 2 == 1 && a / 4 % 2 == 1 && a / 8 % 2 == 1
  {
    var q, r := a as int / 16, a as int % 16;
    assert a as int / 2 == 8 * q + r / 2 && a as int / 4 == 4 * q + r / 4 && a as int / 8 == 2 * q + r / 8;
    assert r == 15 <==> r % 2 == 1 && r / 2 % 2 == 1 && r / 4 % 2 == 1 && r / 8 % 2 == 1;
  }

  lemma LowBits(a: byte)
    ensures a % 64 % 16 == a % 16 && a % 64 / 8 % 2 == a / 8 % 2 && a % 64 / 16 % 2 == a / 16 % 2
  {
    var q, r := a as int / 64, a as int % 64;
    assert a as int == 64 * q + r;
    assert a as int / 8 == 8 * q + r / 8;
    assert a as int / 16 == 4 * q + r / 16;
  }

  /** Byte 11 says what a slot is: a piece of a long name where its four low bits are set, and else an entry,
      which is a volume label by bit 3 and a directory by bit 4. */
  lemma AttributeBits(b: seq<byte>)
    requires |b| == 32
    ensures Deserialize(b).Lfn? <==> Bit(b[11], 0) && Bit(b[11], 1) && Bit(b[11], 2) && Bit(b[11], 3)
    ensures Deserialize(b).File? ==>
      && (Deserialize(b).file.IsVolume() <==> Bit(b[11], 3)) && (Deserialize(b).file.IsDir() <==> Bit(b[11], 4))
  {
    hide Bit, Word;
    BitsOf(b[11]);
    LowNibble(b[11]);
    LowBits(b[11]);
  }

  lemma KindBits(d: FileData)
    ensures (d.IsVolume() <==> Bit(d.attrs, 3)) && (d.IsDir() <==> Bit(d.attrs, 4))
  {
    BitsOf(d.attrs);
  }

  /** The two marks that the first byte can be. */
  lemma FirstByteMarks(b: seq<byte>)
    requires |b| == 32
    ensures (Deserialize(b).IsEnd() <==> b[0] == 0) && (Deserialize(b).IsDeleted() <==> b[0] == 0xE5)
    ensures Deserialize(b).SetDeleted().FirstByte() == 0xE5
  {
    hide Word;
  }

  /** Where the parts of an entry lie: words have their low byte first, and the first cluster is in two. */
  lemma FileLayout(b: seq<byte>)
    requires |b| == 32 && Deserialize(b).File?
    ensures var d := Deserialize(b).file;
      && d.name == b[..11] && d.attrs as int == b[11] as int % 64
      && d.size == b[28] as int + 0x100 * b[29] as int + 0x1_0000 * b[30] as int + 0x100_0000 * b[31] as int
    ensures var lo := b[26] as int + 0x100 * b[27] as int;
      var n := lo + 0x1_0000 * (b[20] as int + 0x100 * b[21] as int);
      && Deserialize(b).file.FirstCluster(false) == (if lo == 0 then None else Some(lo))
      && Deserialize(b).file.FirstCluster(true) == (if n == 0 then None else Some(n))
  {
  }

  /** Where the parts of a piece lie: its units in three runs, around the attributes and the checksum. */
  lemma PieceLayout(b: seq<byte>)
    requires |b| == 32 && Deserialize(b).Lfn?
    ensures var d := Deserialize(b).lfn; d.order == b[0] && d.checksum == b[13]
    ensures forall j: nat :: j < 13 ==>
      var at := if j < 5 then 1 + 2 * j else if j < 11 then 4 + 2 * j else 6 + 2 * j;
      Deserialize(b).lfn.units[j] == b[at] as int + 0x100 * b[at + 1] as int
  {
  }

  /** And so they are written. */
  lemma PieceBytes(d: LfnData)
    ensures var b := Serialize(Lfn(d));
      && b[0] == d.order && b[11] as int == d.attrs && b[12] == d.entryType && b[13] == d.checksum
      && b[26] as int + 0x100 * b[27] as int == d.reserved0
  {
    Rejoins(d.reserved0);
    hide Lo, Hi;
  }

  lemma PieceUnit(d: LfnData, j: nat)
    requires IsLfnAttrs(d.attrs) && j < 13
    ensures var at := if j < 5 then 1 + 2 * j else if j < 11 then 4 + 2 * j else 6 + 2 * j;
      var b := Serialize(Lfn(d));
      b[at] as int + 0x100 * b[at + 1] as int == d.units[j]
  {
    hide Serialize, Deserialize;
    ReadsBack(Lfn(d));
    PieceLayout(Serialize(Lfn(d)));
    assert d.units[j] == Deserialize(Serialize(Lfn(d))).lfn.units[j];
  }

  /** A first cluster is read back exactly when its number fits the field. */
  lemma FirstClusterReadsBack(d: FileData, cluster: Option<u32>, fat32: bool)
    requires cluster.Some? ==> cluster.value > 0
    ensures d.SetFirstCluster(cluster, fat32).FirstCluster(fat32) == cluster <==>
      (fat32 || cluster.None? || cluster.value < 0x1_0000)
  {
  }

  /** The slot that reading past the last slot of a directory gives. */
  const END: Slot := File(FileData([0, 0, 0, 0, 0, 0, 0, 0, 0, 0, 0], 0, 0, 0, 0, 0, 0, 0, 0, 0, 0, 0))

  lemma ZeroSlot()
    ensures Deserialize(Zeros(SLOT_SIZE)) == END
  {
    assert Zeros(SLOT_SIZE)[..11] == END.file.name;
  }
}
