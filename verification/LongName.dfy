/** Long names: cut into directory slots, and put together again when the slots are read back. */
module LongName {
  import opened Prelude
  import opened DirEntry

  const MAX_ENTRIES := 20
  const LAST_FLAG := 0x40
  const PADDING: u16 := 0xFFFF

  // ---------- the checksum that ties long-name slots to their short name ----------

  function ChecksumStep(c: byte, b: byte): byte {
    (c % 2 * 0x80 + c / 2 + b) % 0x100
  }

  function ChecksumOf(s: seq<byte>): byte {
    if s == [] then 0 else ChecksumStep(ChecksumOf(s[..|s| - 1]), s[|s| - 1])
  }

  method LfnChecksum(name: RawName) returns (chksum: byte)
    ensures chksum == ChecksumOf(name)
  {
    chksum := 0;
    for i := 0 to |name|
      invariant chksum == ChecksumOf(name[..i])
    {
      assert name[..i + 1][..i] == name[..i];
      chksum := ChecksumStep(chksum, name[i]);
    }
    assert name[..|name|] == name;
  }

  /** The checksum tells apart names that differ in one byte. */
  lemma {:induction false} OneByteMatters(s: seq<byte>, i: nat, b: byte)
    requires i < |s| && b != s[i]
    ensures ChecksumOf(s[i := b]) != ChecksumOf(s)
  {
    var n := |s| - 1;
    if i == n {
      assert s[i := b][..n] == s[..n];
      StepTellsBytes(ChecksumOf(s[..n]), s[n], b);
    } else {
      assert s[i := b][..n] == s[..n][i := b];
      OneByteMatters(s[..n], i, b);
      StepTellsChecksums(ChecksumOf(s[..n]), ChecksumOf(s[..n][i := b]), s[n]);
    }
  }

  lemma StepTellsBytes(c: byte, a: byte, b: byte)
    requires a != b
    ensures ChecksumStep(c, a) != ChecksumStep(c, b)
  {
  }

  lemma StepTellsChecksums(c: byte, d: byte, b: byte)
    requires c != d
    ensures ChecksumStep(c, b) != ChecksumStep(d, b)
  {
    assert c % 2 * 0x80 + c / 2 != d % 2 * 0x80 + d / 2;
  }

  lemma Rotated(c: byte)
    ensures var q := c as int % 2 * 0x80 + c as int / 2;
      0 <= q < 0x100 && 2 * q % 255 == c % 255 && (q == 0 <==> c == 0)
  {
    var q := c as int % 2 * 0x80 + c as int / 2;
    if c % 2 == 0 {
      assert 2 * q == c as int;
    } else {
      assert 2 * q == c as int + 255;
    }
  }

  lemma SumTakenOff(q: int, b: byte)
    requires 0 <= q < 0x100
    ensures ((q + b) % 0x100 - b) % 0x100 == q
  {
    if q + b < 0x100 {
      assert (q + b) % 0x100 == q + b;
    } else {
      assert (q + b) % 0x100 == q + b - 0x100;
    }
  }

  lemma StepRotates(c: byte, b: byte)
    ensures var q := (ChecksumStep(c, b) as int - b as int) % 0x100; 2 * q % 255 == c % 255 && (q == 0 <==> c == 0)
  {
    Rotated(c);
    SumTakenOff(c as int % 2 * 0x80 + c as int / 2, b);
  }

  /** One more byte: what is left when it is taken off again is the checksum before it, rotated by one bit to
      the right, so that doubling it gives that checksum back modulo 255. */
  lemma RotatesRight(s: seq<byte>, b: byte)
    ensures ChecksumOf([]) == 0
    ensures var c, q := ChecksumOf(s) as int, (ChecksumOf(s + [b]) as int - b as int) % 0x100;
      2 * q % 255 == c % 255 && (q == 0 <==> c == 0)
  {
    hide ChecksumStep;
    assert (s + [b])[..|s|] == s;
    StepRotates(ChecksumOf(s), b);
  }

  /** The short name `README  TXT`. */
  const README: RawName := [0x52, 0x45, 0x41, 0x44, 0x4D, 0x45, 0x20, 0x20, 0x54, 0x58, 0x54]

  lemma ChecksumNext(s: seq<byte>, k: nat, b: byte, c: byte, d: byte)
    requires k < |s| && s[k] == b && ChecksumOf(s[..k]) == c && d == ChecksumStep(c, b)
    ensures ChecksumOf(s[..k + 1]) == d
  {
    assert s[..k + 1][..k] == s[..k];
  }

  lemma ChecksumOfNone(s: seq<byte>)
    ensures ChecksumOf(s[..0]) == 0
  {
  }

  lemma FirstSix(r: RawName)
    requires r[0] == 0x52 && r[1] == 0x45 && r[2] == 0x41 && r[3] == 0x44 && r[4] == 0x4D && r[5] == 0x45
    ensures ChecksumOf(r[..6]) == 0x0B
  {
    hide ChecksumOf;
    ChecksumOfNone(r);
    ChecksumNext(r, 0, 0x52, 0x00, 0x52);
    ChecksumNext(r, 1, 0x45, 0x52, 0x6E);
    ChecksumNext(r, 2, 0x41, 0x6E, 0x78);
    ChecksumNext(r, 3, 0x44, 0x78, 0x80);
    ChecksumNext(r, 4, 0x4D, 0x80, 0x8D);
    ChecksumNext(r, 5, 0x45, 0x8D, 0x0B);
  }

  lemma LastFive(r: RawName)
    requires ChecksumOf(r[..6]) == 0x0B
    requires r[6] == 0x20 && r[7] == 0x20 && r[8] == 0x54 && r[9] == 0x58 && r[10] == 0x54
    ensures ChecksumOf(r) == 0x73
  {
    hide ChecksumOf;
    ChecksumNext(r, 6, 0x20, 0x0B, 0xA5);
    ChecksumNext(r, 7, 0x20, 0xA5, 0xF2);
    ChecksumNext(r, 8, 0x54, 0xF2, 0xCD);
    ChecksumNext(r, 9, 0x58, 0xCD, 0x3E);
    ChecksumNext(r, 10, 0x54, 0x3E, 0x73);
    assert r[..11] == r;
  }

  lemma ChecksumOfReadme()
    ensures ChecksumOf(README) == 0x73
  {
    hide ChecksumOf;
    FirstSix(README);
    LastFive(README);
  }

  // ---------- the builder, as a value ----------

  /** `index` is 0 when no long name is being read, else the number of the piece read last. */
  datatype Builder = Builder(buf: seq<u16>, chksum: byte, index: nat)
  {
    predicate Valid() {
      && index <= MAX_ENTRIES
      && (if index == 0 then buf == [] else 13 * index <= |buf|)
    }

    function Cleared(): Builder {
      Builder([], chksum, 0)
    }

    /** The state after the piece `d`; a piece that does not continue the name drops it. */
    function Process(d: LfnData): (r: Builder)
      requires Valid()
      ensures r.Valid()
    {
      var last, i := d.order / 0x40 % 2 == 1, d.order % 0x20;
      if i == 0 || i > MAX_ENTRIES then Cleared()
      else if last then Builder(Splice(Resize(buf, 13 * i), 13 * (i - 1), d.units), d.checksum, i)
      else if index == 0 || i != index - 1 || d.checksum != chksum then Cleared()
      else Builder(Splice(buf, 13 * (i - 1), d.units), chksum, i)
    }

    function Validated(name: RawName): Builder {
      if index != 0 && ChecksumOf(name) != chksum then Cleared() else this
    }

    /** The name that was read: nothing unless its pieces were complete. */
    function Finished(): seq<u16> {
      if index == 1 then Stripped(buf) else []
    }
  }

  const FRESH := Builder([], 0, 0)

  function Resize(s: seq<u16>, n: nat): (r: seq<u16>)
    ensures |r| == n
  {
    if n <= |s| then s[..n] else s + seq(n - |s|, _ => 0 as u16)
  }

  /** `s` without the padding at its end. */
  function Stripped(s: seq<u16>): seq<u16> {
    if s == [] || (s[|s| - 1] != 0 && s[|s| - 1] != PADDING) then s else Stripped(s[..|s| - 1])
  }

  lemma {:induction false} StrippedIsPrefix(s: seq<u16>)
    ensures Stripped(s) <= s
    ensures Stripped(s) != [] ==> Stripped(s)[|Stripped(s)| - 1] !in {0, PADDING}
    ensures forall i :: |Stripped(s)| <= i < |s| ==> s[i] == 0 || s[i] == PADDING
  {
    if s != [] && (s[|s| - 1] == 0 || s[|s| - 1] == PADDING) {
      StrippedIsPrefix(s[..|s| - 1]);
    }
  }

  /** Padding behind `s` makes no difference. */
  lemma {:induction false} StrippedPadding(s: seq<u16>, t: seq<u16>)
    requires forall i :: 0 <= i < |t| ==> t[i] == 0 || t[i] == PADDING
    ensures Stripped(s + t) == Stripped(s)
  {
    if t == [] {
      assert s + t == s;
    } else {
      var n := |t| - 1;
      assert (s + t)[..|s + t| - 1] == s + t[..n];
      StrippedPadding(s, t[..n]);
    }
  }

  /** Two builders that will behave alike: without a name being read the checksum is of no account. */
  predicate Alike(a: Builder, b: Builder) {
    a == b || (a.index == 0 && b.index == 0 && a.buf == b.buf)
  }

  lemma AlikeStays(a: Builder, b: Builder, d: LfnData)
    requires a.Valid() && b.Valid() && Alike(a, b)
    ensures Alike(a.Process(d), b.Process(d))
  {
  }

  lemma AlikeValidates(a: Builder, b: Builder, name: RawName)
    requires a.Valid() && b.Valid() && Alike(a, b)
    ensures a.Validated(name).Finished() == b.Validated(name).Finished()
  {
  }

  // ---------- the builder, as it is ----------

  class LongNameBuilder {
    var buf: seq<u16>
    var chksum: byte
    var index: nat

    function State(): Builder
      reads this
    {
      Builder(buf, chksum, index)
    }

    constructor ()
      ensures State() == FRESH
    {
      buf, chksum, index := [], 0, 0;
    }

    method Clear()
      modifies this
      ensures State() == old(State()).Cleared()
    {
      buf := [];
      index := 0;
    }

    method IntoBuf() returns (name: seq<u16>)
      requires State().Valid()
      modifies this
      ensures name == old(State()).Finished()
    {
      if index == 1 {
        Truncate();
      } else if index != 0 {
        Clear();
      }
      name := buf;
    }

    method Truncate()
      modifies this
      ensures State() == old(State()).(buf := Stripped(old(buf)))
    {
      var n := |buf|;
      assert buf[..n] == buf;
      while n > 0 && (buf[n - 1] == PADDING || buf[n - 1] == 0)
        invariant 0 <= n <= |buf|
        invariant Stripped(buf[..n]) == Stripped(buf)
      {
        assert buf[..n][..n - 1] == buf[..n - 1];
        n := n - 1;
      }
      buf := buf[..n];
    }

    /** Never writes outside the buffer, whatever the piece says. */
    method Process(d: LfnData)
      requires State().Valid()
      modifies this
      ensures State() == old(State()).Process(d) && State().Valid()
    {
      var isLast, i := d.order / 0x40 % 2 == 1, d.order % 0x20;
      if i == 0 || i > MAX_ENTRIES {
        Clear();
        return;
      }
      if isLast {
        index := i;
        chksum := d.checksum;
        buf := Resize(buf, 13 * i);
      } else if index == 0 || i != index - 1 || d.checksum != chksum {
        Clear();
        return;
      } else {
        index := index - 1;
      }
      var pos := 13 * (i - 1);
      buf := buf[..pos] + d.units + buf[pos + 13..];
    }

    method ValidateChksum(name: RawName)
      modifies this
      ensures State() == old(State()).Validated(name)
    {
      if index == 0 {
        return;
      }
      var c := LfnChecksum(name);
      if c != chksum {
        Clear();
      }
    }
  }

  // ---------- cutting a name into pieces ----------

  function Pieces(name: seq<u16>): nat {
    (|name| + 12) / 13
  }

  /** The name as its slots hold it: a terminating 0 and filling only where the last piece has room. */
  function Padded(name: seq<u16>): seq<u16> {
    seq(13 * Pieces(name), i requires 0 <= i =>
      if i < |name| then name[i] else if i == |name| then 0 else PADDING)
  }

  /** The slot that is written as number `i`: the last piece comes first. */
  function Piece(name: seq<u16>, chksum: byte, i: nat): LfnData
    requires i < Pieces(name) <= MAX_ENTRIES
  {
    var k := Pieces(name) - i;
    LfnData(if i == 0 then k + LAST_FLAG else k, Padded(name)[13 * (k - 1)..13 * k], 15, 0, chksum, 0)
  }

  function Generated(name: seq<u16>, chksum: byte): (r: seq<LfnData>)
    requires Pieces(name) <= MAX_ENTRIES
    ensures |r| == Pieces(name)
  {
    seq(Pieces(name), i requires 0 <= i < Pieces(name) => Piece(name, chksum, i))
  }

  lemma UnitOfPiece(name: seq<u16>, chksum: byte, i: nat, j: nat)
    requires i < Pieces(name) <= MAX_ENTRIES && j < 13
    ensures var k := 13 * (Pieces(name) - i - 1) + j;
      Piece(name, chksum, i).units[j] as int == if k < |name| then name[k] as int else if k == |name| then 0 else 0xFFFF
  {
    assert Piece(name, chksum, i).units[j] == Padded(name)[13 * (Pieces(name) - i - 1) + j];
  }

  /** What is written for a name: as many pieces of 13 units as it takes, numbered from the end of the name,
      with a mark on the first, the checksum, and behind the name a 0 and then units of all ones. */
  lemma PieceOnDisk(name: seq<u16>, chksum: byte, i: nat)
    requires i < Pieces(name) <= MAX_ENTRIES
    ensures 13 * (Pieces(name) - 1) < |name| <= 13 * Pieces(name)
    ensures var b := Serialize(Lfn(Generated(name, chksum)[i]));
      && b[0] as int == Pieces(name) - i + (if i == 0 then 0x40 else 0)
      && b[11] == 0x0F && b[12] == 0 && b[13] == chksum
      && b[26] == 0 && b[27] == 0
      && forall j: nat :: j < 13 ==>
           var at, k := if j < 5 then 1 + 2 * j else if j < 11 then 4 + 2 * j else 6 + 2 * j,
                        13 * (Pieces(name) - i - 1) + j;
           b[at] as int + 0x100 * b[at + 1] as int ==
             if k < |name| then name[k] as int else if k == |name| then 0 else 0xFFFF
  {
    var d := Generated(name, chksum)[i];
    PieceBytes(d);
    hide Serialize;
    forall j: nat | j < 13
      ensures var at, k := if j < 5 then 1 + 2 * j else if j < 11 then 4 + 2 * j else 6 + 2 * j,
                           13 * (Pieces(name) - i - 1) + j;
        var b := Serialize(Lfn(d));
        b[at] as int + 0x100 * b[at + 1] as int ==
          if k < |name| then name[k] as int else if k == |name| then 0 else 0xFFFF
    {
      PieceUnit(d, j);
      UnitOfPiece(name, chksum, i, j);
      hide Padded, Piece, Generated, Pieces;
    }
  }

  /** Gives the pieces of a name one by one. */
  class LfnEntriesGenerator {
    const name: seq<u16>
    const checksum: byte
    const num: nat
    var index: nat
    var remaining: nat  // chunks that the reverse iterator has not given yet
    var ended: bool

    predicate Valid()
      reads this
    {
      num == Pieces(name) <= MAX_ENTRIES && index + remaining == num && (ended ==> remaining == 0)
    }

    constructor (name: seq<u16>, checksum: byte)
      requires Pieces(name) <= MAX_ENTRIES
      ensures Valid() && index == 0
      ensures this.name == name && this.checksum == checksum
    {
      this.name, this.checksum := name, checksum;
      num := (|name| + 12) / 13;
      index, remaining, ended := 0, (|name| + 12) / 13, false;
    }

    method Next() returns (r: Option<LfnData>)
      requires Valid()
      modifies this
      ensures Valid()
      ensures r == if old(index) == num then None else Some(Generated(name, checksum)[old(index)])
      ensures index == if r.None? then old(index) else old(index) + 1
    {
      if ended { return None; }
      if remaining > 0 {
        remaining := remaining - 1;
        var chunk := name[13 * remaining..Min(13 * (remaining + 1), |name|)];
        var order := num - index;
        if index == 0 { order := order + LAST_FLAG; }
        var part := Splice(seq(13, _ => PADDING), 0, chunk);
        if |chunk| < 13 { part := part[|chunk| := 0]; }
        assert remaining < num - 1 ==> |chunk| == 13;
        forall i: nat | i < 13 ensures part[i] == Padded(name)[13 * remaining + i] {
        }
        assert part == Padded(name)[13 * remaining..13 * (remaining + 1)];
        r := Some(LfnData(order, part, 15, 0, checksum, 0));
        index := index + 1;
      } else {
        ended := true;
        r := None;
      }
    }

    function Len(): (n: nat)
      requires Valid()
      reads this
      ensures n == Pieces(name) - index
    {
      remaining
    }
  }

  // ---------- the round trip ----------

  function Feed(b: Builder, pieces: seq<LfnData>): (r: Builder)
    requires b.Valid()
    ensures r.Valid()
  {
    if pieces == [] then b else Feed(b, pieces[..|pieces| - 1]).Process(pieces[|pieces| - 1])
  }

  /** The order byte of a piece tells its number, and whether it is the last one of the name. */
  lemma OrderByte(name: seq<u16>, chksum: byte, i: nat)
    requires i < Pieces(name) <= MAX_ENTRIES
    ensures var d := Piece(name, chksum, i);
      && d.order % 0x20 == Pieces(name) - i && (d.order / 0x40 % 2 == 1 <==> i == 0)
      && d.order != 0 && d.order != DELETED_FLAG
  {
  }

  /** How far the builder has come: the padded name is in place from the piece read last on. */
  predicate Holds(b: Builder, name: seq<u16>, chksum: byte, index: nat) {
    && b.index == index && 1 <= index <= Pieces(name) && b.chksum == chksum
    && |b.buf| == 13 * Pieces(name)
    && b.buf[13 * (index - 1)..] == Padded(name)[13 * (index - 1)..]
  }

  lemma FirstPiece(b: Builder, name: seq<u16>, chksum: byte)
    requires b.Valid() && 1 <= Pieces(name) <= MAX_ENTRIES
    ensures Holds(b.Process(Piece(name, chksum, 0)), name, chksum, Pieces(name))
  {
    OrderByte(name, chksum, 0);
    var n := 13 * Pieces(name);
    var r := b.Process(Piece(name, chksum, 0));
    assert r.buf == Splice(Resize(b.buf, n), n - 13, Padded(name)[n - 13..n]);
  }

  lemma NextPiece(b: Builder, name: seq<u16>, chksum: byte, i: nat)
    requires b.Valid() && 1 <= i < Pieces(name) <= MAX_ENTRIES && Holds(b, name, chksum, Pieces(name) - i + 1)
    ensures Holds(b.Process(Piece(name, chksum, i)), name, chksum, Pieces(name) - i)
  {
    OrderByte(name, chksum, i);
    var at := 13 * (Pieces(name) - i - 1);
    var r := b.Process(Piece(name, chksum, i));
    assert r.buf == Splice(b.buf, at, Padded(name)[at..at + 13]);
    forall j | at <= j < |r.buf| ensures r.buf[j] == Padded(name)[j] {
      if j >= at + 13 { assert b.buf[j] == b.buf[at + 13..][j - at - 13]; }
    }
  }

  lemma FeedOneMore(b: Builder, pieces: seq<LfnData>, i: nat)
    requires b.Valid() && i < |pieces|
    ensures Feed(b, pieces[..i + 1]) == Feed(b, pieces[..i]).Process(pieces[i])
  {
    assert pieces[..i + 1][..i] == pieces[..i];
  }

  lemma {:induction false} FedPieces(b: Builder, name: seq<u16>, chksum: byte, i: nat)
    requires b.Valid() && i < Pieces(name) <= MAX_ENTRIES
    ensures Holds(Feed(b, Generated(name, chksum)[..i + 1]), name, chksum, Pieces(name) - i)
  {
    var g := Generated(name, chksum);
    FeedOneMore(b, g, i);
    if i == 0 {
      FirstPiece(Feed(b, g[..0]), name, chksum);
    } else {
      FedPieces(b, name, chksum, i - 1);
      NextPiece(Feed(b, g[..i]), name, chksum, i);
    }
  }

  /** Whatever pieces came before, the pieces of a name followed by its short name give the name back,
      without the padding units it may end in. */
  lemma RoundTrip(before: seq<LfnData>, name: seq<u16>, short: RawName)
    requires 1 <= |name| && Pieces(name) <= MAX_ENTRIES
    ensures
      var b := Feed(Feed(FRESH, before), Generated(name, ChecksumOf(short)));
      b.Validated(short).Finished() == Stripped(name)
  {
    RoundTripFrom(Feed(FRESH, before), name, short);
  }

  lemma RoundTripFrom(b: Builder, name: seq<u16>, short: RawName)
    requires b.Valid() && 1 <= |name| && Pieces(name) <= MAX_ENTRIES
    ensures Feed(b, Generated(name, ChecksumOf(short))).Validated(short).Finished() == Stripped(name)
  {
    var g, p := Generated(name, ChecksumOf(short)), Padded(name);
    FedPieces(b, name, ChecksumOf(short), Pieces(name) - 1);
    assert g[..|g|] == g;
    assert Feed(b, g).buf == Feed(b, g).buf[0..] == p[0..] == p;
    assert p == name + p[|name|..];
    StrippedPadding(name, p[|name|..]);
  }

  /** So exactly the names that do not end in 0 or 0xFFFF survive. */
  lemma SurvivesExactly(name: seq<u16>)
    requires 1 <= |name|
    ensures Stripped(name) == name <==> name[|name| - 1] !in {0, PADDING}
  {
    StrippedIsPrefix(name);
  }

  /** A short name with another checksum drops the long name. */
  lemma WrongChecksum(b: Builder, name: seq<u16>, chksum: byte, short: RawName)
    requires b.Valid() && 1 <= |name| && Pieces(name) <= MAX_ENTRIES && ChecksumOf(short) != chksum
    ensures Feed(b, Generated(name, chksum)).Validated(short).Finished() == []
  {
    var g := Generated(name, chksum);
    FedPieces(b, name, chksum, Pieces(name) - 1);
    assert g[..|g|] == g;
  }

  /** A name of at most 255 units takes at most 20 slots. */
  lemma NamesFit(name: seq<u16>)
    requires |name| <= 255
    ensures Pieces(name) <= MAX_ENTRIES
  {
  }

  // ---------- which pieces make a name ----------

  /** The pieces count down from `n`, of which the first alone has the mark, and agree on the checksum. */
  ghost predicate CountsDown(ps: seq<LfnData>, n: nat) {
    && 1 <= |ps| <= n <= 20
    && forall j :: 0 <= j < |ps| ==>
         && ps[j].order as int % 0x20 == n - j && (ps[j].order / 0x40 % 2 == 1 <==> j == 0)
         && ps[j].checksum == ps[0].checksum
  }

  /** What the builder holds once it has read such pieces: their units, each piece at its place. */
  ghost predicate HoldsRun(b: Builder, ps: seq<LfnData>, n: nat)
    requires CountsDown(ps, n)
  {
    && b.index == n - |ps| + 1 && b.chksum == ps[0].checksum && |b.buf| == 13 * n
    && forall j :: 0 <= j < |ps| ==> b.buf[13 * (n - j - 1)..13 * (n - j)] == ps[j].units
  }

  ghost predicate EndsInRun(ps: seq<LfnData>, a: nat, n: nat) {
    a < |ps| && CountsDown(ps[a..], n)
  }

  lemma RunStarts(b: Builder, d: LfnData, n: nat)
    requires b.Valid()
    ensures CountsDown([d], n) <==> 1 <= n <= 20 && d.order as int % 0x20 == n && d.order / 0x40 % 2 == 1
    ensures CountsDown([d], n) ==> HoldsRun(b.Process(d), [d], n)
  {
    if CountsDown([d], n) {
      assert [d][0] == d;
      var buf := b.Process(d).buf;
      assert buf == Splice(Resize(b.buf, 13 * n), 13 * (n - 1), d.units);
      assert buf[13 * (n - 1)..13 * n] == d.units;
    }
  }

  /** One more piece continues a run exactly when the builder takes it. */
  lemma RunGoesOn(b: Builder, ps: seq<LfnData>, n: nat, d: LfnData)
    requires b.Valid() && CountsDown(ps, n) && HoldsRun(b, ps, n) && d.order / 0x40 % 2 != 1
    ensures CountsDown(ps + [d], n) <==> b.Process(d).index != 0
    ensures CountsDown(ps + [d], n) ==> HoldsRun(b.Process(d), ps + [d], n)
  {
    var k := |ps|;
    var qs, i := ps + [d], d.order as int % 0x20;
    assert qs[k] == d && qs[0] == ps[0] && forall j :: 0 <= j < k ==> qs[j] == ps[j];
    assert CountsDown(qs, n) <==> k + 1 <= n && i == n - k && d.checksum == ps[0].checksum;
    if CountsDown(qs, n) {
      var r := b.Process(d);
      assert r.buf == Splice(b.buf, 13 * (i - 1), d.units);
      forall j | 0 <= j < |qs| ensures r.buf[13 * (n - j - 1)..13 * (n - j)] == qs[j].units {
        if j < k {
          assert b.buf[13 * (n - j - 1)..13 * (n - j)] == ps[j].units;
          assert 13 * (n - j - 1) >= 13 * i;
          assert r.buf[13 * (n - j - 1)..13 * (n - j)] == b.buf[13 * (n - j - 1)..13 * (n - j)];
        }
      }
    }
  }

  lemma RunEnds(ps: seq<LfnData>, a: nat, n: nat)
    requires ps != [] && EndsInRun(ps, a, n)
    ensures var m := |ps| - 1;
      if a < m then EndsInRun(ps[..m], a, n) && ps[m].order / 0x40 % 2 != 1 && ps[..m][a..] + [ps[m]] == ps[a..]
      else a == m && ps[a..] == [ps[m]]
  {
    var m, run := |ps| - 1, ps[a..];
    assert run[|run| - 1] == ps[m];
    if a < m {
      var less := ps[..m][a..];
      assert forall j :: 0 <= j < |less| ==> less[j] == run[j];
      assert CountsDown(less, n);
    }
  }

  /** Whatever pieces are read, the builder is reading a name exactly when the last ones count down from a
      marked one, and then it holds just their units. */
  lemma {:induction false} FedExactly(ps: seq<LfnData>)
    ensures Feed(FRESH, ps).index == 0 <==> forall a: nat, n: nat :: !EndsInRun(ps, a, n)
    ensures forall a: nat, n: nat :: EndsInRun(ps, a, n) ==> HoldsRun(Feed(FRESH, ps), ps[a..], n)
  {
    if ps != [] {
      var m := |ps| - 1;
      var b, d := Feed(FRESH, ps[..m]), ps[m];
      FedExactly(ps[..m]);
      assert Feed(FRESH, ps) == b.Process(d);
      forall a: nat, n: nat | EndsInRun(ps, a, n) ensures HoldsRun(b.Process(d), ps[a..], n) {
        RunEnds(ps, a, n);
        if a < m { RunGoesOn(b, ps[..m][a..], n, d); } else { RunStarts(b, d, n); }
      }
      if b.Process(d).index != 0 {
        RunFound(b, ps[..m], d);
        assert ps[..m] + [d] == ps;
      }
    }
  }

  /** Where the builder is reading a name after the piece `d`, there is such a run. */
  lemma RunFound(b: Builder, before: seq<LfnData>, d: LfnData)
    requires b.Valid() && b.Process(d).index != 0
    requires b.index == 0 <==> forall a: nat, n: nat :: !EndsInRun(before, a, n)
    requires forall a: nat, n: nat :: EndsInRun(before, a, n) ==> HoldsRun(b, before[a..], n)
    ensures exists a: nat, n: nat :: EndsInRun(before + [d], a, n)
  {
    var ps := before + [d];
    if d.order / 0x40 % 2 == 1 {
      RunStarts(b, d, d.order % 0x20);
      assert ps[|before|..] == [d];
      assert EndsInRun(ps, |before|, d.order % 0x20);
    } else {
      hide CountsDown, HoldsRun;
      var a: nat, n: nat :| EndsInRun(before, a, n);
      RunGoesOn(b, before[a..], n, d);
      assert before[a..] + [d] == ps[a..];
      assert EndsInRun(ps, a, n);
    }
  }

  /** The units of pieces that count down, in the order of the name. */
  function Joined(ps: seq<LfnData>): (r: seq<u16>)
    ensures |r| == 13 * |ps|
  {
    if ps == [] then [] else Joined(ps[1..]) + ps[0].units
  }

  lemma {:induction false} BufferIsJoined(buf: seq<u16>, ps: seq<LfnData>)
    requires var n := |ps|;
      |buf| == 13 * n && forall j :: 0 <= j < n ==> buf[13 * (n - j - 1)..13 * (n - j)] == ps[j].units
    ensures buf == Joined(ps)
  {
    if ps != [] {
      var n, less := |ps|, buf[..13 * (|ps| - 1)];
      forall j | 0 <= j < n - 1 ensures less[13 * (n - 1 - j - 1)..13 * (n - 1 - j)] == ps[1..][j].units {
        assert buf[13 * (n - (j + 1) - 1)..13 * (n - (j + 1))] == ps[j + 1].units;
        SliceOfSlice(buf, 0, 13 * (n - 1), 13 * (n - 1 - j - 1), 13);
      }
      BufferIsJoined(less, ps[1..]);
      assert buf[13 * (n - 0 - 1)..13 * (n - 0)] == ps[0].units;
    }
  }

  /** The pieces `ps[a..]` are the whole long name of `short`. */
  ghost predicate IsNameOf(ps: seq<LfnData>, a: nat, short: RawName) {
    a < |ps| && CountsDown(ps[a..], |ps| - a) && ps[a].checksum == ChecksumOf(short)
  }

  /** Whatever pieces come before a short name, its long name is made of the last ones that count down to 1
      from a marked one, with its checksum; where there are none it has no long name. */
  lemma NameExactly(ps: seq<LfnData>, short: RawName)
    ensures forall a: nat :: IsNameOf(ps, a, short) ==>
      Feed(FRESH, ps).Validated(short).Finished() == Stripped(Joined(ps[a..]))
    ensures (forall a: nat :: !IsNameOf(ps, a, short)) ==> Feed(FRESH, ps).Validated(short).Finished() == []
  {
    FedExactly(ps);
    var b := Feed(FRESH, ps);
    hide Feed, CountsDown, Joined;
    forall a: nat | IsNameOf(ps, a, short) ensures b.Validated(short).Finished() == Stripped(Joined(ps[a..])) {
      assert EndsInRun(ps, a, |ps| - a);
      BufferIsJoined(b.buf, ps[a..]);
    }
    if b.index == 1 && b.chksum == ChecksumOf(short) {
      var a: nat, n: nat :| EndsInRun(ps, a, n);
      assert HoldsRun(b, ps[a..], n);
      assert IsNameOf(ps, a, short);
    }
  }
}
