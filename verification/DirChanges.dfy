/** What adding, removing and renaming entries does to the slots of a directory and to its listing. */
module DirChanges {
  import opened Prelude
  import opened DirEntry
  import opened LongName
  import opened DirSlots
  import opened Blocks
  import SN = ShortName

  // ---------- names ----------

  predicate ValidChar(c: char) {
    'a' <= c <= 'z' || 'A' <= c <= 'Z' || '0' <= c <= '9' || '\U{80}' <= c <= '\U{FFFF}'
    || c == ' ' || c == '!' || '#' <= c <= ')' || '+' <= c <= '.' || c == ';' || c == '=' || c == '@' || c == '['
    || ']' <= c <= '`' || c == '{' || '}' <= c <= '~'
  }

  /** Of the printable ASCII characters all but nine can be in a name, and all that are not ASCII, as far as they
      take one unit. */
  lemma ValidChars(c: char)
    ensures ValidChar(c) <==> (' ' <= c <= '~' && c !in "\"*/:<>?\\|") || '\U{80}' <= c <= '\U{FFFF}'
  {
    var no := "\"*/:<>?\\|";
    if c == '"' { assert no[0] == c; }
    if c == '*' { assert no[1] == c; }
    if c == '/' { assert no[2] == c; }
    if c == ':' { assert no[3] == c; }
    if c == '<' { assert no[4] == c; }
    if c == '>' { assert no[5] == c; }
    if c == '?' { assert no[6] == c; }
    if c == '\\' { assert no[7] == c; }
    if c == '|' { assert no[8] == c; }
  }

  predicate ValidName(name: seq<char>) {
    1 <= Utf8Length(name) <= 255 && forall i :: 0 <= i < |name| ==> ValidChar(name[i])
  }

  function NameError(name: seq<char>): Error {
    if name == [] || Utf8Length(name) > 255 then InvalidFileNameLength else UnsupportedFileNameCharacter
  }

  method ValidateLongName(name: seq<char>) returns (error: Option<Error>)
    ensures error.None? <==> ValidName(name)
    ensures error.Some? ==> error.value == NameError(name)
  {
    if name == [] || Utf8Length(name) > 255 {
      return Some(InvalidFileNameLength);
    }
    for i := 0 to |name|
      invariant forall k :: 0 <= k < i ==> ValidChar(name[k])
    {
      if !ValidChar(name[i]) {
        return Some(UnsupportedFileNameCharacter);
      }
    }
    error := None;
  }

  /** The UTF-16 units of a valid name: none of its characters needs two. */
  function Units(name: seq<char>): (u: seq<u16>)
    requires ValidName(name)
    ensures |u| == |name| && 1 <= |u| && Pieces(u) <= MAX_ENTRIES
  {
    var u := seq(|name|, i requires 0 <= i < |name| => Unit(name[i]));
    NamesFit(u);
    u
  }

  function Unit(c: char): u16
    requires ValidChar(c)
  {
    c as int
  }

  const PADDED_NAME := "a\U{FFFF}"

  /** A valid name that ends in U+FFFF, which is also the unit that pads names; the builder cuts it off. */
  lemma PaddedNameShrinks()
    ensures ValidName(PADDED_NAME) && ValidName("a") && LongName.Stripped(Units(PADDED_NAME)) == Units("a")
  {
    var name, u := PADDED_NAME, [0x61, 0xFFFF];
    assert name[..1] == "a" && Utf8Length("a") == 1;
    assert LongName.Stripped(u) == LongName.Stripped(u[..1]);
    assert Units(name) == u && Units("a") == u[..1];
  }

  /** A valid name whose first character takes two bytes, so that the first byte cannot be sliced off. */
  lemma TwoByteNamePanics()
    ensures ValidName("\U{E9}") && !SN.IsBoundary("\U{E9}", 1)
  {
    SN.SlicesExactly("\U{E9}");
    assert Utf8Length("\U{E9}"[..0]) == 0;
  }

  // ---------- listings ----------

  predicate InsertedAt(l: seq<Entry>, l': seq<Entry>, i: nat, e: Entry) {
    i <= |l| && l' == l[..i] + [e] + l[i..]
  }

  predicate RemovedAt(l: seq<Entry>, l': seq<Entry>, i: nat) {
    i < |l| && l' == l[..i] + l[i + 1..]
  }

  function ShortNames(l: seq<Entry>): (r: seq<RawName>)
    ensures |r| == |l|
  {
    seq(|l|, i requires 0 <= i < |l| => l[i].data.name)
  }

  lemma NamesBefore(l: seq<Entry>, n: nat)
    requires n <= |l|
    ensures n == 0 ==> ShortNames(l[..n]) == []
    ensures n < |l| ==> ShortNames(l[..n + 1]) == ShortNames(l[..n]) + [l[n].data.name]
  {
  }

  lemma InsertedNames(l: seq<Entry>, l': seq<Entry>, i: nat, e: Entry)
    requires Distinct(ShortNames(l)) && e.data.name !in ShortNames(l) && InsertedAt(l, l', i, e)
    ensures Distinct(ShortNames(l'))
  {
    var s, s' := ShortNames(l), ShortNames(l');
    forall a, b | 0 <= a < b < |l'| ensures s'[a] != s'[b] {
      var a0, b0 := if a < i then a else a - 1, if b < i then b else b - 1;
      if a != i { assert s'[a] == s[a0]; }
      if b != i { assert s'[b] == s[b0]; }
    }
  }

  lemma RemovedNames(l: seq<Entry>, l': seq<Entry>, i: nat)
    requires RemovedAt(l, l', i)
    ensures Distinct(ShortNames(l)) ==> Distinct(ShortNames(l'))
    ensures forall n :: n in ShortNames(l') ==> n in ShortNames(l)
  {
    var s, s' := ShortNames(l), ShortNames(l');
    forall a | 0 <= a < |l'| ensures s'[a] == s[if a < i then a else a + 1] {
    }
  }

  /** The first entry that is the one looked for. */
  function FirstSame(l: seq<Entry>, same: Entry -> bool): (i: nat)
    ensures i <= |l| && (i < |l| ==> same(l[i])) && forall k :: 0 <= k < i ==> !same(l[k])
  {
    if l == [] then 0
    else
      var i := FirstSame(l[..|l| - 1], same);
      if i < |l| - 1 || same(l[|l| - 1]) then i else |l|
  }

  /** Looking for an entry, which may have to be a directory or a file. */
  function Found(l: seq<Entry>, same: Entry -> bool, isDir: Option<bool>): Result<Entry> {
    var i := FirstSame(l, same);
    if i == |l| then Failure(NotFound)
    else if isDir.Some? && l[i].data.IsDir() != isDir.value then Failure(InvalidInput)
    else Success(l[i])
  }

  lemma FirstIs(l: seq<Entry>, same: Entry -> bool, i: nat)
    requires i <= |l| && (i < |l| ==> same(l[i])) && forall k :: 0 <= k < i ==> !same(l[k])
    ensures FirstSame(l, same) == i
  {
  }

  /** Entry `i` is the first that is the one looked for. */
  ghost predicate IsFirst(l: seq<Entry>, same: Entry -> bool, i: nat) {
    i < |l| && same(l[i]) && forall k :: 0 <= k < i ==> !same(l[k])
  }

  /** A lookup gives the first entry that matches; it fails where there is none, or where it is of another
      kind, which is bit 4 of the attributes. */
  ghost predicate FindsFirst(l: seq<Entry>, same: Entry -> bool, isDir: Option<bool>, r: Result<Entry>) {
    && (r == Failure(NotFound) <==> forall i :: 0 <= i < |l| ==> !same(l[i]))
    && forall i: nat | IsFirst(l, same, i) ::
         r == if isDir.None? || (isDir.value <==> Bit(l[i].data.attrs, 4)) then Success(l[i]) else Failure(InvalidInput)
  }

  lemma FoundIsFirst(l: seq<Entry>, same: Entry -> bool, isDir: Option<bool>)
    ensures FindsFirst(l, same, isDir, Found(l, same, isDir))
  {
    hide Bit;
    forall i: nat | IsFirst(l, same, i)
      ensures FirstSame(l, same) == i && l[i].data.IsDir() == Bit(l[i].data.attrs, 4)
    {
      FirstIs(l, same, i);
      KindBits(l[i].data);
    }
  }

  /** What a lookup gives once it has come to entry `i`, or to the end. */
  lemma FoundAt(l: seq<Entry>, same: Entry -> bool, isDir: Option<bool>, i: nat, r: Result<Entry>)
    requires i <= |l| && (i < |l| ==> same(l[i])) && forall k :: 0 <= k < i ==> !same(l[k])
    requires r == if i == |l| then Failure(NotFound)
                  else if isDir.Some? && l[i].data.IsDir() != isDir.value then Failure(InvalidInput)
                  else Success(l[i])
    ensures r == Found(l, same, isDir) && FindsFirst(l, same, isDir, r)
  {
    hide FindsFirst, FirstSame;
    FirstIs(l, same, i);
    FoundIsFirst(l, same, isDir);
  }

  /** A removal fails where there is no match, and where the first one has bit 4 of its attributes set and is
      not empty. */
  ghost predicate RemovesFirst(l: seq<Entry>, same: Entry -> bool, isEmpty: Entry -> bool, error: Option<Error>) {
    && (error == Some(NotFound) <==> forall i :: 0 <= i < |l| ==> !same(l[i]))
    && forall i: nat | IsFirst(l, same, i) ::
         error == if Bit(l[i].data.attrs, 4) && !isEmpty(l[i]) then Some(DirectoryIsNotEmpty) else None
  }

  lemma RemovalIsFirst(d0: Extent, d1: Extent, same: Entry -> bool, isEmpty: Entry -> bool, error: Option<Error>)
    requires d0.Valid() && d1.Valid() && RemoveOutcome(d0, d1, same, isEmpty, error)
    ensures RemovesFirst(Listing(d0.S(), true), same, isEmpty, error) && (error.Some? ==> d1 == d0)
  {
    hide Bit, Listing, EntryErased;
    var l := Listing(d0.S(), true);
    forall i: nat | IsFirst(l, same, i)
      ensures FirstSame(l, same) == i && l[i].data.IsDir() == Bit(l[i].data.attrs, 4)
    {
      FirstIs(l, same, i);
      KindBits(l[i].data);
    }
  }

  datatype Existence = Existing(entry: Entry) | NewName(shortName: RawName)

  /** The entry `e` as it is listed: from the first of the pieces in a row before it on, and where its
      long name ends in padding units, without them. */
  function Listed(slots: seq<Slot>, e: Entry): Entry
    requires e.begin <= |slots|
  {
    Entry(e.data, LongName.Stripped(e.longName), RunStart(slots, e.begin), e.end)
  }

  const ORPHAN := Lfn(LfnData(0x41, [0x41, 0, 0xFFFF, 0xFFFF, 0xFFFF, 0xFFFF, 0xFFFF, 0xFFFF, 0xFFFF, 0xFFFF, 0xFFFF,
                                     0xFFFF, 0xFFFF], 15, 0, 0, 0))

  /** In a directory that holds a piece without a short name, an entry is written behind the piece and
      listed from the piece on. */
  lemma LeftOverPieceJoins(e: Entry)
    requires e.begin == FirstPlace([ORPHAN], 2)
    ensures Listed([ORPHAN], e).begin < e.begin
  {
    assert [ORPHAN][0] == ORPHAN && ORPHAN.FirstByte() == 0x41;
    assert Live([ORPHAN], 1) && !Unused([ORPHAN], 0);
    PlaceIsFirst([ORPHAN], 0, 1, 2);
  }

  /** The entry `e` has gone from the listing. */
  ghost predicate TakenOff(slots: seq<Slot>, slots': seq<Slot>, e: Entry, skipVolume: bool) {
    exists i: nat ::
      RemovedAt(Listing(slots, skipVolume), Listing(slots', skipVolume), i) && Listing(slots, skipVolume)[i] == e
  }

  lemma ShowableIsValid(raw: FileData)
    requires Showable(raw)
    ensures File(raw).Valid() && !File(raw).IsEnd()
  {
  }

  // ---------- the slots there are and those to come ----------

  /** How many slots there are once slots are got `step` at a time until there are `need`. */
  function GrownTo(len: nat, need: nat, step: nat): (n: nat)
    requires step > 0
    ensures len <= n && need <= n && (need <= len ==> n == len)
    decreases need - len
  {
    if need <= len then len else GrownTo(len + step, need, step)
  }

  lemma {:induction false} GrownFits(room: nat, len: nat, need: nat, step: nat)
    requires step > 0 && len <= room && need <= room && Rem(room - len, step) == 0
    ensures GrownTo(len, need, step) <= room && Rem(room - GrownTo(len, need, step), step) == 0
    decreases need - len
  {
    if need > len { GrownFits(room, len + step, need, step); }
  }

  lemma {:induction false} GrownTwice(len: nat, a: nat, b: nat, step: nat)
    requires step > 0 && a <= b
    ensures GrownTo(GrownTo(len, a, step), b, step) == GrownTo(len, b, step)
    decreases a - len
  {
    if a > len { GrownTwice(len + step, a, b, step); }
  }

  /** All slots that a directory has or can be given, as they are; it has the first `len` of them, and
      gets `step` at a time. */
  datatype Extent = Extent(all: seq<Slot>, len: nat, step: nat)
  {
    predicate Valid() {
      step > 0 && len <= |all| && Rem(|all| - len, step) == 0
    }

    function S(): seq<Slot>
      requires Valid()
    {
      all[..len]
    }

    /** The slots it has once it has got as many as `end`. */
    function Until(end: nat): (r: seq<Slot>)
      requires Valid() && end <= |all|
    {
      GrownFits(|all|, len, end, step);
      all[..GrownTo(len, end, step)]
    }

    /** It has been written from slot `p` on. */
    function Put(p: nat, ds: seq<Slot>): (r: Extent)
      requires Valid() && p + |ds| <= |all|
      ensures r.Valid() && |r.all| == |all|
    {
      GrownFits(|all|, len, p + |ds|, step);
      Extent(Splice(all, p, ds), GrownTo(len, p + |ds|, step), step)
    }

    function Erase(b: nat, e: nat): (r: Extent)
      requires Valid()
      ensures r.Valid() && |r.all| == |all|
    {
      Extent(EraseSlots(all, b, e), len, step)
    }

    /** The entries that come to be listed behind slot `end` when it is written up to there. */
    function Unveils(end: nat, skipVolume: bool): seq<Entry>
      requires Valid() && end <= |all|
    {
      Unveiled(S(), Until(end), end, skipVolume)
    }

    /** Behind slot `end` nothing is listed that was not listed before. */
    predicate Quiet(end: nat, skipVolume: bool)
      requires Valid() && end <= |all|
    {
      Live(S(), end) || Silent(Until(end), end, skipVolume)
    }

    /** The slots to come are end markers. */
    predicate Clean() {
      forall i :: len <= i < |all| ==> all[i].IsEnd()
    }
  }

  lemma UnveilsExactly(d: Extent, end: nat, skipVolume: bool)
    requires d.Valid() && end <= |d.all|
    ensures d.Unveils(end, skipVolume) == [] <==> d.Quiet(end, skipVolume)
  {
    SilentListsNothing(d.Until(end), end, Start(end), skipVolume);
  }

  lemma PutNothing(d: Extent, p: nat)
    requires d.Valid() && p <= d.len
    ensures d.Put(p, []) == d
  {
  }

  lemma SpliceMore<T>(a: seq<T>, p: nat, ds: seq<T>, s: T)
    requires p + |ds| < |a|
    ensures Splice(Splice(a, p, ds), p + |ds|, [s]) == Splice(a, p, ds + [s])
  {
  }

  /** Writing on behind what has been written. */
  lemma PutMore(d: Extent, p: nat, ds: seq<Slot>, s: Slot)
    requires d.Valid() && p + |ds| < |d.all|
    ensures d.Put(p, ds).Put(p + |ds|, [s]) == d.Put(p, ds + [s])
  {
    GrownTwice(d.len, p + |ds|, p + |ds| + 1, d.step);
    SpliceMore(d.all, p, ds, s);
    hide Splice, GrownTo, Rem;
  }

  lemma PutWrites(d: Extent, p: nat, ds: seq<Slot>)
    requires d.Valid() && p <= d.len && p + |ds| <= |d.all|
    ensures Written(d.S(), d.Put(p, ds).S(), p, ds)
    ensures SameFrom(d.Put(p, ds).S(), d.Until(p + |ds|), p + |ds|)
  {
    var s, s' := d.S(), d.Put(p, ds).S();
    assert s'[..p] == s[..p];
    forall i | 0 <= i < |ds| ensures s'[p + i] == ds[i] {
    }
    assert s'[p..p + |ds|] == ds;
  }

  /** Getting only end markers, a tidy directory stays tidy, and nothing is unveiled. */
  lemma CleanIsQuiet(d: Extent, p: nat, ds: seq<Slot>, skipVolume: bool)
    requires d.Valid() && Live(d.S(), p) && p + |ds| <= |d.all| && forall i :: 0 <= i < |ds| ==> !ds[i].IsEnd()
    requires Tidy(d.S()) && d.Clean()
    ensures d.Quiet(p + |ds|, skipVolume)
    ensures Tidy(d.Put(p, ds).S()) && d.Put(p, ds).Clean()
  {
    var n := p + |ds|;
    PutWrites(d, p, ds);
    ClearedIsSilent(d.S(), d.Put(p, ds).S(), p, ds, skipVolume);
    SilentListsNothing(d.Put(p, ds).S(), n, Start(n), skipVolume);
    SilentListsNothing(d.Until(n), n, Start(n), skipVolume);
    AlikeItself(Start(n));
    SuffixFrame(d.Put(p, ds).S(), d.Until(n), n, Start(n), Start(n), skipVolume);
  }

  /** After writing, the directory is tidy exactly when it is so behind what was written, as it was. */
  lemma TidyExactly(d: Extent, p: nat, ds: seq<Slot>)
    requires d.Valid() && Live(d.S(), p) && p + |ds| <= |d.all| && forall i :: 0 <= i < |ds| ==> !ds[i].IsEnd()
    ensures Tidy(d.Put(p, ds).S()) <==> TidyFrom(d.Until(p + |ds|), p + |ds|)
  {
    PutWrites(d, p, ds);
    TidyAfterWriting(d.S(), d.Put(p, ds).S(), p, ds);
  }

  // ---------- writing entries ----------

  /** The entry `e` has been added behind the entries that are listed before it, and what it unveils
      behind all. */
  predicate EntryAdded(d: Extent, slots': seq<Slot>, e: Entry, skipVolume: bool)
    requires d.Valid() && e.end <= |d.all|
  {
    && e.begin <= d.len
    && Inserts(Listing(d.S(), skipVolume), Listing(slots', skipVolume), ListedTo(d.S(), e.begin, skipVolume),
               Listed(d.S(), e), d.Unveils(e.end, skipVolume))
  }

  /** Exactly that entry is added if and only if the slots got on the way hold nothing to list behind it,
      which can be seen before. */
  lemma AddsExactly(d: Extent, slots': seq<Slot>, e: Entry, skipVolume: bool)
    requires d.Valid() && e.end <= |d.all| && EntryAdded(d, slots', e, skipVolume)
    ensures InsertedAt(Listing(d.S(), skipVolume), Listing(slots', skipVolume),
                       |ListedTo(d.S(), e.begin, skipVolume)|, Listed(d.S(), e))
            <==> d.Quiet(e.end, skipVolume)
  {
    UnveilsExactly(d, e.end, skipVolume);
    hide Listing, ListedTo, Extent.Unveils, Extent.Quiet, Listed;
    var l, l', before := Listing(d.S(), skipVolume), Listing(slots', skipVolume), ListedTo(d.S(), e.begin, skipVolume);
    assert l[..|before|] == before;
    var more := d.Unveils(e.end, skipVolume);
    assert |l'| == |l| + 1 + |more|;
  }

  /** What writing returns is what a listing gives exactly when no left-over piece stands before it
      and no padding unit ends its name. */
  lemma ReturnedIsListed(d: Extent, slots': seq<Slot>, e: Entry, skipVolume: bool)
    requires d.Valid() && e.end <= |d.all| && EntryAdded(d, slots', e, skipVolume) && e.longName != []
    ensures var i := |ListedTo(d.S(), e.begin, skipVolume)|;
      && i < |Listing(slots', skipVolume)|
      && (Listing(slots', skipVolume)[i] == e <==>
          && (e.begin == 0 || !IsPiece(d.S()[e.begin - 1]))
          && e.longName[|e.longName| - 1] !in {0, 0xFFFF})
  {
    SurvivesExactly(e.longName);
    hide Listing, ListedTo, Extent.Unveils;
  }

  /** Short names stay pairwise different exactly when those unveiled are, and are all new. */
  lemma ClashesExactly(d: Extent, slots': seq<Slot>, e: Entry)
    requires d.Valid() && e.end <= |d.all| && EntryAdded(d, slots', e, true)
    requires Distinct(ShortNames(Listing(d.S(), true))) && e.data.name !in ShortNames(Listing(d.S(), true))
    ensures var more := ShortNames(d.Unveils(e.end, true));
      Distinct(ShortNames(Listing(slots', true))) <==>
        && Distinct(more)
        && forall n :: n in more ==> n !in ShortNames(Listing(d.S(), true)) && n != e.data.name
  {
    hide Listing, ListedTo, Extent.Unveils, Distinct, ShortNames;
    var l, before, more := Listing(d.S(), true), ListedTo(d.S(), e.begin, true), d.Unveils(e.end, true);
    var x := before + [Listed(d.S(), e)] + l[|before|..];
    assert l[..|before|] == before;
    InsertedNames(l, x, |before|, Listed(d.S(), e));
    NamesOfInserted(l, x, |before|, Listed(d.S(), e));
    JoinedNames(x, more);
  }

  lemma NamesOfInserted(l: seq<Entry>, l': seq<Entry>, i: nat, e: Entry)
    requires InsertedAt(l, l', i, e)
    ensures forall n :: n in ShortNames(l') <==> n in ShortNames(l) || n == e.data.name
  {
    var s, s' := ShortNames(l), ShortNames(l');
    assert s' == s[..i] + [e.data.name] + s[i..];
    assert s == s[..i] + s[i..];
  }

  lemma JoinedNames(a: seq<Entry>, b: seq<Entry>)
    ensures Distinct(ShortNames(a + b)) <==>
      && Distinct(ShortNames(a)) && Distinct(ShortNames(b))
      && forall n :: n in ShortNames(b) ==> n !in ShortNames(a)
  {
    var s, t := ShortNames(a), ShortNames(b);
    assert ShortNames(a + b) == s + t;
    JoinDistinct(s, t);
  }

  lemma JoinDistinct<T>(s: seq<T>, t: seq<T>)
    ensures Distinct(s + t) <==> Distinct(s) && Distinct(t) && forall x :: x in t ==> x !in s
  {
    var u := s + t;
    assert forall i :: 0 <= i < |t| ==> u[|s| + i] == t[i];
    if Distinct(u) {
      forall i, j | 0 <= i < j < |t| ensures t[i] != t[j] {
        assert u[|s| + i] != u[|s| + j];
      }
      forall i, j | 0 <= i < |s| && 0 <= j < |t| ensures s[i] != t[j] {
        assert u[i] != u[|s| + j];
      }
      assert forall i, j :: 0 <= i < j < |s| ==> s[i] == u[i] && s[j] == u[j];
    } else if Distinct(s) && Distinct(t) && forall x :: x in t ==> x !in s {
      forall i, j | 0 <= i < j < |u| ensures u[i] != u[j] {
        if i < |s| <= j { assert u[j] in t; }
      }
    }
  }

  /** Slots in use are left alone. */
  predicate OnlyFreeChanged(s0: seq<Slot>, s1: seq<Slot>) {
    |s0| <= |s1| && forall i :: 0 <= i < |s0| ==> s1[i] == s0[i] || Unused(s0, i)
  }

  lemma NothingChanged(s: seq<Slot>)
    ensures OnlyFreeChanged(s, s)
  {
  }

  lemma WrittenOverFree(s0: seq<Slot>, s1: seq<Slot>, p: nat, ds: seq<Slot>, n: nat)
    requires Writable(s0, p, n) && |ds| <= n && Written(s0, s1, p, ds)
    ensures OnlyFreeChanged(s0, s1)
  {
    assert forall i :: 0 <= i < p ==> s1[i] == s1[..p][i] == s0[..p][i];
  }

  lemma GeneratedPieceAt(slots: seq<Slot>, p: nat, units: seq<u16>, chksum: byte, m: nat)
    requires Pieces(units) <= MAX_ENTRIES && m <= Pieces(units) && p + m <= |slots|
    requires slots[p..p + m] == AsSlots(LongName.Generated(units, chksum)[..m])
    ensures var g := LongName.Generated(units, chksum)[..m];
      && (forall i :: 0 <= i < m ==> PieceAt(slots, p, g, i))
      && (forall i :: 0 <= i < m ==> !AsSlots(g)[i].IsEnd())
  {
    var g := LongName.Generated(units, chksum);
    GeneratedArePieces(units, chksum);
    forall i: nat | i < m ensures PieceAt(slots, p, g[..m], i) && !AsSlots(g[..m])[i].IsEnd() {
      assert slots[p + i] == slots[p..p + m][i] == AsSlots(g)[i];
    }
  }

  /** The first `m` pieces of a name, written from slot `p` on. */
  function PutPieces(d: Extent, p: nat, units: seq<u16>, chksum: byte, m: nat): (r: Extent)
    requires d.Valid() && m <= Pieces(units) <= MAX_ENTRIES && p + m <= |d.all|
    ensures r.Valid() && |r.all| == |d.all|
  {
    d.Put(p, AsSlots(LongName.Generated(units, chksum)[..m]))
  }

  lemma PieceIsValid(units: seq<u16>, chksum: byte, m: nat)
    requires m < Pieces(units) <= MAX_ENTRIES
    ensures Lfn(LongName.Generated(units, chksum)[m]).Valid()
  {
  }

  lemma NoPieces(d: Extent, p: nat, units: seq<u16>, chksum: byte)
    requires d.Valid() && p <= d.len && Pieces(units) <= MAX_ENTRIES
    ensures PutPieces(d, p, units, chksum, 0) == d
  {
    assert AsSlots(LongName.Generated(units, chksum)[..0]) == [];
    PutNothing(d, p);
  }

  lemma OneMorePiece(d: Extent, p: nat, units: seq<u16>, chksum: byte, m: nat)
    requires d.Valid() && m < Pieces(units) <= MAX_ENTRIES && p + m < |d.all|
    ensures PutPieces(d, p, units, chksum, m).Put(p + m, [Lfn(LongName.Generated(units, chksum)[m])])
            == PutPieces(d, p, units, chksum, m + 1)
  {
    hide LongName.Generated, Piece;
    var g := LongName.Generated(units, chksum);
    PutMore(d, p, AsSlots(g[..m]), Lfn(g[m]));
    assert AsSlots(g[..m + 1]) == AsSlots(g[..m]) + [Lfn(g[m])];
  }

  /** The short name behind all pieces. */
  lemma NameBehindPieces(d: Extent, p: nat, units: seq<u16>, raw: FileData)
    requires d.Valid() && Pieces(units) <= MAX_ENTRIES && p + Pieces(units) < |d.all|
    ensures PutPieces(d, p, units, ChecksumOf(raw.name), Pieces(units)).Put(p + Pieces(units), [File(raw)])
            == d.Put(p, EntrySlots(units, raw))
  {
    hide LongName.Generated, Piece;
    var g := LongName.Generated(units, ChecksumOf(raw.name));
    assert g[..|g|] == g;
    PutMore(d, p, AsSlots(g), File(raw));
  }

  /** A directory that ran full while the pieces were written. */
  lemma PiecesOnly(d: Extent, p: nat, units: seq<u16>, short: RawName, m: nat)
    requires d.Valid() && Pieces(units) <= MAX_ENTRIES && m <= Pieces(units) && p + m == |d.all|
    requires Writable(d.S(), p, Pieces(units) + 1)
    ensures var s1 := PutPieces(d, p, units, ChecksumOf(short), m).S();
      OnlyFreeChanged(d.S(), s1) && forall sv :: Listing(s1, sv) == Listing(d.S(), sv)
  {
    hide Listing, LongName.Generated;
    var s0, s1 := d.S(), PutPieces(d, p, units, ChecksumOf(short), m).S();
    var g := LongName.Generated(units, ChecksumOf(short))[..m];
    PutWrites(d, p, AsSlots(g));
    assert |s1| == p + m;
    WrittenOverFree(s0, s1, p, AsSlots(g), Pieces(units) + 1);
    WrittenSlots(s0, s1, p, AsSlots(g));
    GeneratedPieceAt(s1, p, units, ChecksumOf(short), m);
    forall sv ensures Listing(s1, sv) == Listing(s0, sv) {
      UnfinishedAddsNothing(s0, s1, p, Pieces(units) + 1, g, sv);
    }
  }

  /** An entry that was written completely. */
  lemma WholeEntry(d: Extent, units: seq<u16>, e: Entry)
    requires d.Valid() && 1 <= |units| && Pieces(units) <= MAX_ENTRIES && Showable(e.data)
    requires e.longName == units && e.end == e.begin + Pieces(units) + 1 <= |d.all|
    requires Writable(d.S(), e.begin, Pieces(units) + 1)
    ensures var s1 := d.Put(e.begin, EntrySlots(units, e.data)).S();
      OnlyFreeChanged(d.S(), s1) && forall sv :: EntryAdded(d, s1, e, sv)
  {
    hide Listing, ListedTo, CursorAt, LongName.Generated, Inserts, OnlyFreeChanged, Written, EntrySlots, Unused,
      SameFrom, GrownTo, Pieces;
    var p, s0, s1 := e.begin, d.S(), d.Put(e.begin, EntrySlots(units, e.data)).S();
    PutWrites(d, p, EntrySlots(units, e.data));
    WrittenOverFree(s0, s1, p, EntrySlots(units, e.data), Pieces(units) + 1);
    forall sv ensures EntryAdded(d, s1, e, sv) {
      WritingAddsEntry(s0, s1, p, units, e.data, sv);
      AlikeItself(Start(e.end));
      SuffixFrame(s1, d.Until(e.end), e.end, Start(e.end), Start(e.end), sv);
    }
  }

  // ---------- what the operations do ----------

  /** How many slots in a row an entry of this name takes. */
  function SlotsFor(name: seq<char>): nat
    requires ValidName(name)
  {
    Pieces(Units(name)) + 1
  }

  /** A directory that can have `room` slots takes an entry of this name. */
  predicate CanWrite(slots: seq<Slot>, room: nat, name: seq<char>) {
    ValidName(name) && FirstPlace(slots, SlotsFor(name)) + SlotsFor(name) <= room
  }

  function WriteError(name: seq<char>, fixedRoot: bool): Error {
    if !ValidName(name) then NameError(name) else if fixedRoot then WriteZero else NotEnoughSpace
  }

  /** Where an entry of this name is written: from the first place on that is large enough. */
  function PlaceEnd(slots: seq<Slot>, name: seq<char>): nat
    requires ValidName(name)
  {
    FirstPlace(slots, SlotsFor(name)) + SlotsFor(name)
  }

  /** Writing succeeds exactly when it can; then there is one entry more, at the first place that is
      large enough, and else the listing is as before. */
  ghost predicate WriteOutcome(
    d0: Extent, d1: Extent, fixedRoot: bool, name: seq<char>, raw: FileData, r: Result<Entry>)
    requires d0.Valid() && d1.Valid()
  {
    && OnlyFreeChanged(d0.S(), d1.S())
    && if CanWrite(d0.S(), |d0.all|, name) then r.Success? && EntryWritten(d0, d1, name, raw, r.value)
       else
         && r == Failure(WriteError(name, fixedRoot))
         && (forall sv :: Listing(d1.S(), sv) == Listing(d0.S(), sv))
         && d1 == if ValidName(name) then RanFull(d0, name, ChecksumOf(raw.name)) else d0
  }

  /** All slots there can be, filled with pieces of the name from the first place on. */
  function RanFull(d: Extent, name: seq<char>, chksum: byte): Extent
    requires d.Valid() && ValidName(name) && !CanWrite(d.S(), |d.all|, name)
  {
    var p := FirstPlace(d.S(), SlotsFor(name));
    PutPieces(d, p, Units(name), chksum, |d.all| - p)
  }

  ghost predicate EntryWritten(d0: Extent, d1: Extent, name: seq<char>, raw: FileData, e: Entry)
    requires d0.Valid() && d1.Valid() && CanWrite(d0.S(), |d0.all|, name)
  {
    var p := FirstPlace(d0.S(), SlotsFor(name));
    && e == Entry(raw, Units(name), p, PlaceEnd(d0.S(), name))
    && d1 == d0.Put(p, EntrySlots(Units(name), raw))
    && forall sv :: EntryAdded(d0, d1.S(), e, sv)
  }

  lemma EntryFits(d: Extent, fixedRoot: bool, name: seq<char>, raw: FileData)
    requires d.Valid() && CanWrite(d.S(), |d.all|, name) && Showable(raw)
    ensures var p := FirstPlace(d.S(), SlotsFor(name));
      WriteOutcome(d, d.Put(p, EntrySlots(Units(name), raw)), fixedRoot, name, raw,
                   Success(Entry(raw, Units(name), p, PlaceEnd(d.S(), name))))
  {
    hide EntryAdded, Listing, OnlyFreeChanged, FirstPlace, EntrySlots, Extent.Put, Showable;
    var p := FirstPlace(d.S(), SlotsFor(name));
    PlaceIsWritable(d.S(), SlotsFor(name));
    WholeEntry(d, Units(name), Entry(raw, Units(name), p, PlaceEnd(d.S(), name)));
  }

  lemma EntryDoesNotFit(d: Extent, fixedRoot: bool, name: seq<char>, raw: FileData)
    requires d.Valid() && !CanWrite(d.S(), |d.all|, name)
    ensures WriteOutcome(d, if ValidName(name) then RanFull(d, name, ChecksumOf(raw.name)) else d, fixedRoot, name,
                         raw, Failure(WriteError(name, fixedRoot)))
  {
    hide Listing, OnlyFreeChanged, FirstPlace, PutPieces;
    NothingChanged(d.S());
    if ValidName(name) {
      var p := FirstPlace(d.S(), SlotsFor(name));
      PlaceIsWritable(d.S(), SlotsFor(name));
      PiecesOnly(d, p, Units(name), raw.name, |d.all| - p);
    }
  }

  /** Where an entry of this name can be written, that unveils nothing. */
  predicate WritesQuietly(d: Extent, name: seq<char>, skipVolume: bool)
    requires d.Valid()
  {
    CanWrite(d.S(), |d.all|, name) ==> d.Quiet(PlaceEnd(d.S(), name), skipVolume)
  }

  /** A tidy directory whose clusters to come are cleared unveils nothing, and stays tidy. */
  lemma ClearedIsQuiet(d: Extent, name: seq<char>, skipVolume: bool)
    requires d.Valid() && Tidy(d.S()) && d.Clean()
    ensures WritesQuietly(d, name, skipVolume)
  {
    if CanWrite(d.S(), |d.all|, name) {
      var n := SlotsFor(name);
      PlaceIsWritable(d.S(), n);
      hide SlotsFor, FirstPlace;
      CleanIsQuiet(d, FirstPlace(d.S(), n), seq(n, _ => ORPHAN), skipVolume);
    }
  }

  lemma ClearedStaysTidy(d0: Extent, d1: Extent, fixedRoot: bool, name: seq<char>, raw: FileData, r: Result<Entry>)
    requires d0.Valid() && d1.Valid() && WriteOutcome(d0, d1, fixedRoot, name, raw, r) && Showable(raw)
    requires Tidy(d0.S()) && d0.Clean()
    ensures Tidy(d1.S()) && d1.Clean()
  {
    hide EntryAdded, Listing, OnlyFreeChanged, LongName.Generated, FirstPlace, Tidy, Units, ValidName;
    if ValidName(name) {
      var units, chksum := Units(name), ChecksumOf(raw.name);
      PlaceIsWritable(d0.S(), SlotsFor(name));
      GeneratedArePieces(units, chksum);
      var g, p := LongName.Generated(units, chksum), FirstPlace(d0.S(), SlotsFor(name));
      if r.Success? {
        ShowableIsValid(raw);
        CleanIsQuiet(d0, p, EntrySlots(units, raw), true);
      } else {
        var m := |d0.all| - p;
        assert forall i :: 0 <= i < m ==> AsSlots(g[..m])[i] == AsSlots(g)[i];
        CleanIsQuiet(d0, p, AsSlots(g[..m]), true);
      }
    }
  }

  /** A short name for `name` that is not taken: an 8.3 name that is free stays what it is, and else it gets the
      first number that is free in the first round that has one. */
  ghost predicate NewShortName(name: seq<char>, taken: seq<RawName>, short: RawName) {
    && short !in taken && SN.Usable(short)
    && if SN.Is83(name) && SN.AsShortName(name) !in taken then short == SN.AsShortName(name)
       else exists k: nat :: SN.FoundInRound(SN.StemOf(name), taken, SN.ChecksumOf(name), k, short)
  }

  ghost predicate CheckOutcome(
    l: seq<Entry>, name: seq<char>, same: Entry -> bool, isDir: Option<bool>, r: Result<Existence>)
  {
    var found := Found(l, same, isDir);
    if found.Success? then r == Success(Existing(found.value))
    else if found.error != NotFound then r == Failure(found.error)
    else r.Success? && r.value.NewName? && NewShortName(name, ShortNames(l), r.value.shortName)
  }

  /** The entry is there already, or it is written under a new short name. */
  ghost predicate CreateOutcome(
    d0: Extent, d1: Extent, fixedRoot: bool, name: seq<char>, same: Entry -> bool, isDir: Option<bool>,
    template: FileData, r: Result<Entry>)
    requires d0.Valid() && d1.Valid()
  {
    var l := Listing(d0.S(), true);
    if Found(l, same, isDir) != Failure(NotFound) then r == Found(l, same, isDir) && d1 == d0
    else WrittenAsNew(d0, d1, fixedRoot, name, ShortNames(l), template, r)
  }

  /** The template has been written under a short name that is new. */
  ghost predicate WrittenAsNew(
    d0: Extent, d1: Extent, fixedRoot: bool, name: seq<char>, taken: seq<RawName>, template: FileData,
    r: Result<Entry>)
    requires d0.Valid() && d1.Valid()
  {
    exists short: RawName ::
      NewShortName(name, taken, short) && WriteOutcome(d0, d1, fixedRoot, name, template.(name := short), r)
  }

  /** The slots of the entry are deleted, which takes it off the listings, with and without labels. */
  ghost predicate EntryErased(d0: Extent, d1: Extent, e: Entry)
    requires d0.Valid() && d1.Valid()
  {
    d1 == d0.Erase(e.begin, e.end) && forall sv :: TakenOff(d0.S(), d1.S(), e, sv)
  }

  ghost predicate RemoveOutcome(
    d0: Extent, d1: Extent, same: Entry -> bool, isEmpty: Entry -> bool, error: Option<Error>)
    requires d0.Valid() && d1.Valid()
  {
    var found := Found(Listing(d0.S(), true), same, None);
    if found.Failure? then error == Some(found.error) && d1 == d0
    else if found.value.data.IsDir() && !isEmpty(found.value) then error == Some(DirectoryIsNotEmpty) && d1 == d0
    else error == None && EntryErased(d0, d1, found.value)
  }

  /** The two lookups of a rename find the entry, and find its new name free. */
  predicate RenameStarts(s0: seq<Slot>, d0: seq<Slot>, same: Entry -> bool, sameName: Entry -> bool) {
    Found(Listing(s0, true), same, None).Success? && Found(Listing(d0, true), sameName, None).Failure?
  }

  /** What a rename writes to: the destination `d0`, or where that is the `one` directory `s0`, what is
      left of it after the entry has been erased. */
  function Target(s0: Extent, d0: Extent, one: bool, same: Entry -> bool): (r: Extent)
    requires s0.Valid() && d0.Valid() && Found(Listing(s0.S(), true), same, None).Success?
    ensures r.Valid()
  {
    var e := Found(Listing(s0.S(), true), same, None).value;
    if one then s0.Erase(e.begin, e.end) else d0
  }

  /** A rename from a directory `s0` to a directory `d0`, which may be `one`. */
  ghost predicate RenameOutcome(
    s0: Extent, s1: Extent, d0: Extent, d1: Extent, one: bool, fixedRoot: bool, same: Entry -> bool,
    name: seq<char>, sameName: Entry -> bool, r: Result<Entry>)
    requires s0.Valid() && s1.Valid() && d0.Valid() && d1.Valid()
  {
    var found, other := Found(Listing(s0.S(), true), same, None), Found(Listing(d0.S(), true), sameName, None);
    if !RenameStarts(s0.S(), d0.S(), same, sameName) then
      && s1 == s0 && d1 == d0
      && r == if found.Failure? || (one && other.value.end == found.value.end) then found else Failure(AlreadyExists)
    else
      var e := found.value;
      var gone := s0.Erase(e.begin, e.end);
      && EntryErased(s0, gone, e) && s1 == (if one then d1 else gone)
      && WrittenAsNew(Target(s0, d0, one, same), d1, fixedRoot, name, ShortNames(Listing(d0.S(), true)), e.data, r)
  }

  /** Once both lookups have passed, a rename keeps the entry exactly when the new name is valid and its
      slots fit after the old ones are deleted; else it is lost. The number of entries tells, but for those
      that writing unveils. */
  lemma RenameKeepsExactly(
    s0: Extent, s1: Extent, d0: Extent, d1: Extent, one: bool, fixedRoot: bool, same: Entry -> bool,
    name: seq<char>, sameName: Entry -> bool, r: Result<Entry>)
    requires s0.Valid() && s1.Valid() && d0.Valid() && d1.Valid()
    requires RenameOutcome(s0, s1, d0, d1, one, fixedRoot, same, name, sameName, r)
    requires RenameStarts(s0.S(), d0.S(), same, sameName) && (one ==> d0 == s0)
    ensures
      var to := Target(s0, d0, one, same);
      var fits := CanWrite(to.S(), |to.all|, name);
      var lost := if fits then 0 else 1;
      var more := if fits then |to.Unveils(PlaceEnd(to.S(), name), true)| else 0;
      && (if fits then r.Success? else r == Failure(WriteError(name, fixedRoot)))
      && if one then |Listing(s1.S(), true)| == |Listing(s0.S(), true)| - lost + more
         else |Listing(s1.S(), true)| + |Listing(d1.S(), true)|
              == |Listing(s0.S(), true)| + |Listing(d0.S(), true)| - lost + more
  {
    hide Listing, EraseSlots, Found, FirstPlace, ValidName, NewShortName, ShortNames, OnlyFreeChanged,
      Extent.Unveils, Extent.Put, Extent.Valid, SlotsFor;
    var e := Found(Listing(s0.S(), true), same, None).value;
    assert TakenOff(s0.S(), s0.Erase(e.begin, e.end).S(), e, true);
    var to := Target(s0, d0, one, same);
    var short: RawName :| WriteOutcome(to, d1, fixedRoot, name, e.data.(name := short), r);
    if r.Success? { assert EntryAdded(to, d1.S(), r.value, true); }
  }

  lemma NewNameIsShowable(name: seq<char>, taken: seq<RawName>, raw: FileData)
    requires NewShortName(name, taken, raw.name) && !raw.IsVolume()
    ensures Showable(raw)
  {
  }

  /** Erasing the slots of a listed entry takes it off both listings. */
  lemma ErasingTakesOff(d: Extent, i: nat)
    requires d.Valid() && i < |Listing(d.S(), true)|
    ensures var e := Listing(d.S(), true)[i];
      var d1 := d.Erase(e.begin, e.end);
      && RemovedAt(Listing(d.S(), true), Listing(d1.S(), true), i) && EntryErased(d, d1, e)
      && (Tidy(d1.S()) <==> Tidy(d.S()))
  {
    hide Listing, Tidy;
    var s0, e := d.S(), Listing(d.S(), true)[i];
    var s1 := d.Erase(e.begin, e.end).S();
    assert Erased(s0, s1, e.begin, e.end);
    ErasingRemovesEntry(s0, s1, i, true);
    ListedWithLabels(s0, e);
    var j: nat :| j < |Listing(s0, false)| && Listing(s0, false)[j] == e;
    ErasingRemovesEntry(s0, s1, j, false);
    assert RemovedAt(Listing(s0, false), Listing(s1, false), j);
    assert TakenOff(s0, s1, e, true) && TakenOff(s0, s1, e, false);
  }

  /** Where writing unveils nothing, a short name that none of more names has keeps short names pairwise
      different. */
  lemma StillDistinct(
    d0: Extent, d1: Extent, fixedRoot: bool, name: seq<char>, taken: seq<RawName>, raw: FileData, r: Result<Entry>)
    requires d0.Valid() && d1.Valid()
    requires WriteOutcome(d0, d1, fixedRoot, name, raw, r) && NewShortName(name, taken, raw.name)
    requires forall n :: n in ShortNames(Listing(d0.S(), true)) ==> n in taken
    requires WritesQuietly(d0, name, true)
    ensures Distinct(ShortNames(Listing(d0.S(), true))) ==> Distinct(ShortNames(Listing(d1.S(), true)))
  {
    hide Listing, ShortNames, Distinct, FirstPlace, ValidName, OnlyFreeChanged, ListedTo, Extent.Quiet, Extent.Unveils,
      Extent.Put, Extent.Valid;
    if r.Success? && Distinct(ShortNames(Listing(d0.S(), true))) {
      assert EntryAdded(d0, d1.S(), r.value, true);
      AddsExactly(d0, d1.S(), r.value, true);
      InsertedNames(Listing(d0.S(), true), Listing(d1.S(), true), |ListedTo(d0.S(), r.value.begin, true)|,
                    Listed(d0.S(), r.value));
    }
  }

  // ---------- a directory whose new clusters are not cleared ----------

  function Plain(first: byte): FileData
    requires first > 0x20
  {
    FileData([first, 0x20, 0x20, 0x20, 0x20, 0x20, 0x20, 0x20, 0x20, 0x20, 0x20], 0, 0, 0, 0, 0, 0, 0, 0, 0, 0, 0)
  }

  /** A full directory of one cluster of 16 slots, and a cluster to come that holds old entries. */
  const FULL_ROOT := Extent(seq(16, _ => File(Plain(0x41))) + seq(16, _ => File(Plain(0x42))), 16, 16)

  /** Writing an entry of two slots there unveils the old entries behind it. */
  lemma OldEntriesShow(skipVolume: bool)
    ensures FULL_ROOT.Valid() && CanWrite(FULL_ROOT.S(), 32, "a") && PlaceEnd(FULL_ROOT.S(), "a") == 18
    ensures !WritesQuietly(FULL_ROOT, "a", skipVolume)
    ensures FULL_ROOT.Unveils(18, skipVolume) != []
    ensures FULL_ROOT.Unveils(18, skipVolume)[0].data == Plain(0x42)
  {
    var s, all := FULL_ROOT.S(), FULL_ROOT.all;
    assert Utf8Length("a"[..0]) == 0 && ValidName("a") && SlotsFor("a") == 2;
    assert forall q :: 0 <= q < 16 ==> s[q] == File(Plain(0x41));
    assert Live(s, 16);
    forall q: nat | q < 16 ensures !Writable(s, q, 2) {
      assert Live(s, q + 1) && !Unused(s, q);
    }
    PlaceIsFirst(s, 0, 16, 2);
    assert GrownTo(16, 18, 16) == 32 && FULL_ROOT.Until(18) == all && all[18] == File(Plain(0x42));
  }
}
