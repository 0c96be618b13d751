/** Directory slots as they are listed: long-name pieces are put together, the short-name slot behind
    them completes an entry, and changes to the slots change the listing. */
module DirSlots {
  import opened Prelude
  import opened DirEntry
  import opened LongName

  /** An entry as the iterator gives it: its data, its long name, and the slots it occupies. */
  datatype Entry = Entry(data: FileData, longName: seq<u16>, begin: nat, end: nat)

  type Reading = b: Builder | b.Valid() witness FRESH

  /** What the iterator carries from slot to slot. */
  datatype Cursor = Cursor(b: Reading, begin: nat)

  predicate Skipped(s: Slot, skipVolume: bool) {
    s.IsDeleted() || (skipVolume && s.File? && s.file.IsVolume())
  }

  function Start(p: nat): Cursor {
    Cursor(FRESH, p)
  }

  /** The cursor behind slot `p`. */
  function Step(s: Slot, p: nat, c: Cursor, skipVolume: bool): Cursor {
    if Skipped(s, skipVolume) then Cursor(c.b.Cleared(), p + 1)
    else
      match s
      case File(_) => Start(p + 1)
      case Lfn(d) => Cursor(c.b.Process(d), c.begin)
  }

  /** The entry that slot `p` completes, if any. */
  function Emit(s: Slot, p: nat, c: Cursor, skipVolume: bool): seq<Entry> {
    if s.File? && !Skipped(s, skipVolume) then
      [Entry(s.file, c.b.Validated(s.file.name).Finished(), c.begin, p + 1)]
    else []
  }

  /** The entries from slot `p` on, up to the end marker or the last slot. */
  function Entries(slots: seq<Slot>, p: nat, c: Cursor, skipVolume: bool): seq<Entry>
    decreases |slots| - p
  {
    if p >= |slots| || slots[p].IsEnd() then []
    else Emit(slots[p], p, c, skipVolume) + Entries(slots, p + 1, Step(slots[p], p, c, skipVolume), skipVolume)
  }

  function Listing(slots: seq<Slot>, skipVolume: bool): seq<Entry> {
    Entries(slots, 0, Start(0), skipVolume)
  }

  /** No end marker before slot `n`. */
  predicate Live(slots: seq<Slot>, n: nat) {
    n <= |slots| && forall i :: 0 <= i < n ==> !slots[i].IsEnd()
  }

  /** Behind an end marker there are only end markers. */
  predicate Tidy(slots: seq<Slot>) {
    forall i, j :: 0 <= i < j < |slots| && slots[i].IsEnd() ==> slots[j].IsEnd()
  }

  // ---------- single slots ----------

  predicate AlikeCursors(c: Cursor, c': Cursor) {
    c.begin == c'.begin && Alike(c.b, c'.b)
  }

  lemma StepAlike(s: Slot, p: nat, c: Cursor, c': Cursor, skipVolume: bool)
    requires AlikeCursors(c, c')
    ensures Emit(s, p, c, skipVolume) == Emit(s, p, c', skipVolume)
    ensures AlikeCursors(Step(s, p, c, skipVolume), Step(s, p, c', skipVolume))
  {
    match s
    case File(d) => AlikeValidates(c.b, c'.b, d.name);
    case Lfn(d) => AlikeStays(c.b, c'.b, d);
  }

  lemma DeletedStep(s: Slot, p: nat, c: Cursor, skipVolume: bool)
    requires s.IsDeleted()
    ensures !s.IsEnd() && Emit(s, p, c, skipVolume) == []
    ensures AlikeCursors(Step(s, p, c, skipVolume), Start(p + 1))
  {
  }

  /** A slot completes at most one entry, and then a new one begins behind it. */
  lemma EmitsOnce(s: Slot, p: nat, c: Cursor, skipVolume: bool)
    ensures var es, c' := Emit(s, p, c, skipVolume), Step(s, p, c, skipVolume);
      if es == [] then c'.begin == c.begin || AlikeCursors(c', Start(p + 1))
      else |es| == 1 && es[0].begin == c.begin && es[0].end == p + 1 && c' == Start(p + 1)
  {
  }

  lemma AlikeItself(c: Cursor)
    ensures AlikeCursors(c, c)
  {
  }

  // ---------- the listing, from the left ----------

  /** The cursor before slot `n`, and what has been listed so far. */
  function CursorAt(slots: seq<Slot>, n: nat, skipVolume: bool): Cursor
    requires n <= |slots|
  {
    if n == 0 then Start(0) else Step(slots[n - 1], n - 1, CursorAt(slots, n - 1, skipVolume), skipVolume)
  }

  function ListedTo(slots: seq<Slot>, n: nat, skipVolume: bool): seq<Entry>
    requires n <= |slots|
  {
    if n == 0 then []
    else
      ListedTo(slots, n - 1, skipVolume)
      + Emit(slots[n - 1], n - 1, CursorAt(slots, n - 1, skipVolume), skipVolume)
  }

  lemma {:induction false} SplitListing(slots: seq<Slot>, n: nat, skipVolume: bool)
    requires Live(slots, n)
    ensures Listing(slots, skipVolume) ==
      ListedTo(slots, n, skipVolume) + Entries(slots, n, CursorAt(slots, n, skipVolume), skipVolume)
  {
    hide Step, Emit;
    if n > 0 {
      SplitListing(slots, n - 1, skipVolume);
      var c := CursorAt(slots, n - 1, skipVolume);
      Regroup(ListedTo(slots, n - 1, skipVolume), Emit(slots[n - 1], n - 1, c, skipVolume),
              Entries(slots, n, Step(slots[n - 1], n - 1, c, skipVolume), skipVolume));
    }
  }

  lemma Regroup<T>(a: seq<T>, b: seq<T>, c: seq<T>)
    ensures a + (b + c) == (a + b) + c
  {
  }

  lemma {:induction false} PrefixFrame(slots: seq<Slot>, slots': seq<Slot>, n: nat, skipVolume: bool)
    requires n <= |slots| && n <= |slots'| && slots[..n] == slots'[..n]
    ensures CursorAt(slots, n, skipVolume) == CursorAt(slots', n, skipVolume)
    ensures ListedTo(slots, n, skipVolume) == ListedTo(slots', n, skipVolume)
  {
    hide Step, Emit;
    if n > 0 {
      assert slots[n - 1] == slots[..n][n - 1] == slots'[n - 1];
      assert slots[..n - 1] == slots[..n][..n - 1] == slots'[..n - 1];
      PrefixFrame(slots, slots', n - 1, skipVolume);
    }
  }

  /** From slot `p` on nothing has changed, but for end markers behind the last slot. */
  predicate SameFrom(slots: seq<Slot>, slots': seq<Slot>, p: nat) {
    && |slots| <= |slots'|
    && forall i :: p <= i < |slots'| ==> if i < |slots| then slots'[i] == slots[i] else slots'[i].IsEnd()
  }

  lemma {:induction false} SuffixFrame(
    slots: seq<Slot>, slots': seq<Slot>, p: nat, c: Cursor, c': Cursor, skipVolume: bool)
    requires AlikeCursors(c, c') && SameFrom(slots, slots', p)
    ensures Entries(slots, p, c, skipVolume) == Entries(slots', p, c', skipVolume)
    decreases |slots| - p
  {
    hide Step, Emit, AlikeCursors;
    if p < |slots| && !slots[p].IsEnd() {
      StepAlike(slots[p], p, c, c', skipVolume);
      SuffixFrame(slots, slots', p + 1,
                  Step(slots[p], p, c, skipVolume), Step(slots'[p], p, c', skipVolume), skipVolume);
    }
  }

  lemma {:induction false} EntriesFitSlots(slots: seq<Slot>, p: nat, c: Cursor, skipVolume: bool)
    requires p <= |slots|
    ensures |Entries(slots, p, c, skipVolume)| <= |slots| - p
    decreases |slots| - p
  {
    hide Step, Emit;
    if p < |slots| && !slots[p].IsEnd() {
      EmitsOnce(slots[p], p, c, skipVolume);
      EntriesFitSlots(slots, p + 1, Step(slots[p], p, c, skipVolume), skipVolume);
    }
  }

  /** No volume label is listed when they are skipped. */
  lemma {:induction false} EntriesAreFiles(slots: seq<Slot>, p: nat, c: Cursor, i: nat)
    requires i < |Entries(slots, p, c, true)|
    ensures !Entries(slots, p, c, true)[i].data.IsVolume()
    decreases |slots| - p
  {
    hide Step;
    if |Emit(slots[p], p, c, true)| <= i {
      EntriesAreFiles(slots, p + 1, Step(slots[p], p, c, true), i - |Emit(slots[p], p, c, true)|);
    }
  }

  lemma ListedAreFiles(slots: seq<Slot>, i: nat)
    requires i < |Listing(slots, true)|
    ensures !Listing(slots, true)[i].data.IsVolume()
  {
    EntriesAreFiles(slots, 0, Start(0), i);
  }

  // ---------- where entries begin ----------

  predicate IsPiece(s: Slot) {
    s.Lfn? && !s.IsDeleted() && !s.IsEnd()
  }

  /** Where the long-name pieces in a row that end before slot `n` begin. */
  function RunStart(slots: seq<Slot>, n: nat): (b: nat)
    requires n <= |slots|
    ensures b <= n && (b == n <==> n == 0 || !IsPiece(slots[n - 1]))
    ensures forall i :: b <= i < n ==> IsPiece(slots[i])
  {
    if n > 0 && IsPiece(slots[n - 1]) then RunStart(slots, n - 1) else n
  }

  /** An entry that ends at slot `n` is listed with all the pieces in a row before it, whether they
      are its own or not. */
  lemma {:induction false} BeginsAtRun(slots: seq<Slot>, n: nat, skipVolume: bool)
    requires Live(slots, n)
    ensures CursorAt(slots, n, skipVolume).begin == RunStart(slots, n)
  {
    if n > 0 { BeginsAtRun(slots, n - 1, skipVolume); }
  }

  /** Listing volume labels as well changes nothing for the other entries. */
  lemma {:induction false} LabelsBeside(slots: seq<Slot>, n: nat)
    requires n <= |slots|
    ensures AlikeCursors(CursorAt(slots, n, true), CursorAt(slots, n, false))
    ensures forall e :: e in ListedTo(slots, n, true) ==> e in ListedTo(slots, n, false)
  {
    if n > 0 {
      var s, c, d := slots[n - 1], CursorAt(slots, n - 1, true), CursorAt(slots, n - 1, false);
      LabelsBeside(slots, n - 1);
      StepAlike(s, n - 1, c, d, true);
    }
  }

  lemma ListedWithLabels(slots: seq<Slot>, e: Entry)
    requires e in Listing(slots, true)
    ensures e in Listing(slots, false)
  {
    ListingIsListed(slots, true);
    ListingIsListed(slots, false);
    LabelsBeside(slots, LiveEnd(slots, 0));
  }

  // ---------- what is listed ----------

  function PiecesIn(slots: seq<Slot>, b: nat, n: nat): (r: seq<LfnData>)
    requires b <= n <= |slots| && forall i :: b <= i < n ==> IsPiece(slots[i])
    ensures |r| == n - b
  {
    if b == n then [] else assert IsPiece(slots[n - 1]); PiecesIn(slots, b, n - 1) + [slots[n - 1].lfn]
  }

  lemma OneMoreIn(slots: seq<Slot>, b: nat, n: nat)
    requires b <= n < |slots| && forall i :: b <= i <= n ==> IsPiece(slots[i])
    ensures Feed(FRESH, PiecesIn(slots, b, n + 1)) == Feed(FRESH, PiecesIn(slots, b, n)).Process(slots[n].lfn)
  {
    hide Feed, Builder.Process;
    var ps := PiecesIn(slots, b, n + 1);
    assert ps[..n - b] == PiecesIn(slots, b, n) && ps[n - b] == slots[n].lfn && ps[..n - b + 1] == ps;
    FeedOneMore(FRESH, ps, n - b);
  }

  lemma NotFed(slots: seq<Slot>, n: nat, c: Cursor, skipVolume: bool)
    requires n < |slots| && !slots[n].IsEnd() && !IsPiece(slots[n])
    ensures Alike(Step(slots[n], n, c, skipVolume).b, Feed(FRESH, PiecesIn(slots, n + 1, n + 1)))
  {
    assert PiecesIn(slots, n + 1, n + 1) == [];
  }

  /** The builder has been fed just the pieces in a row before slot `n`. */
  lemma {:induction false} CursorIsFed(slots: seq<Slot>, n: nat, skipVolume: bool)
    requires Live(slots, n)
    ensures Alike(CursorAt(slots, n, skipVolume).b, Feed(FRESH, PiecesIn(slots, RunStart(slots, n), n)))
  {
    hide PiecesIn, Feed, Alike, Builder.Process;
    if n > 0 {
      CursorIsFed(slots, n - 1, skipVolume);
      var s, b, c := slots[n - 1], RunStart(slots, n - 1), CursorAt(slots, n - 1, skipVolume);
      if IsPiece(s) {
        OneMoreIn(slots, b, n - 1);
        AlikeStays(c.b, Feed(FRESH, PiecesIn(slots, b, n - 1)), s.lfn);
      } else {
        NotFed(slots, n - 1, c, skipVolume);
      }
    } else {
      FedNothing(slots);
    }
  }

  lemma FedNothing(slots: seq<Slot>)
    ensures Alike(FRESH, Feed(FRESH, PiecesIn(slots, 0, 0)))
  {
    assert PiecesIn(slots, 0, 0) == [];
  }

  /** The slot before `n` is an entry in use: no end marker up to there, not a piece, not deleted, and not a
      volume label where these are skipped. */
  predicate Shown(slots: seq<Slot>, n: nat, skipVolume: bool)
    requires 1 <= n <= |slots|
  {
    && (forall i :: 0 <= i < n ==> slots[i].FirstByte() != 0)
    && slots[n - 1].File? && slots[n - 1].FirstByte() != 0xE5 && !(skipVolume && Bit(slots[n - 1].file.attrs, 3))
  }

  /** The entry that ends at slot `n`, with the pieces in a row before it. */
  function EntryBefore(slots: seq<Slot>, n: nat): Entry
    requires 1 <= n <= |slots| && slots[n - 1].File?
  {
    var d, b := slots[n - 1].file, RunStart(slots, n - 1);
    Entry(d, Feed(FRESH, PiecesIn(slots, b, n - 1)).Validated(d.name).Finished(), b, n)
  }

  /** The entries in use, in the order of their slots. */
  function InUse(slots: seq<Slot>, n: nat, skipVolume: bool): seq<Entry>
    requires n <= |slots|
  {
    if n == 0 then []
    else InUse(slots, n - 1, skipVolume) + if Shown(slots, n, skipVolume) then [EntryBefore(slots, n)] else []
  }

  lemma EmitsShown(slots: seq<Slot>, n: nat, skipVolume: bool)
    requires n < |slots| && Live(slots, n + 1)
    ensures Emit(slots[n], n, CursorAt(slots, n, skipVolume), skipVolume) ==
      if Shown(slots, n + 1, skipVolume) then [EntryBefore(slots, n + 1)] else []
  {
    hide CursorAt, Feed, RunStart, Bit;
    CursorIsFed(slots, n, skipVolume);
    BeginsAtRun(slots, n, skipVolume);
    if slots[n].File? {
      KindBits(slots[n].file);
      AlikeValidates(CursorAt(slots, n, skipVolume).b, Feed(FRESH, PiecesIn(slots, RunStart(slots, n), n)),
                     slots[n].file.name);
    }
  }

  lemma {:induction false} ListedAreInUse(slots: seq<Slot>, n: nat, skipVolume: bool)
    requires n <= |slots|
    ensures Live(slots, n) ==> ListedTo(slots, n, skipVolume) == InUse(slots, n, skipVolume)
    ensures !Live(slots, n) ==>
      InUse(slots, n, skipVolume) == InUse(slots, LiveEnd(slots, 0), skipVolume)
  {
    hide Emit, Step, EntryBefore, CursorAt;
    if n > 0 {
      ListedAreInUse(slots, n - 1, skipVolume);
      if Live(slots, n) {
        EmitsShown(slots, n - 1, skipVolume);
      } else if Live(slots, n - 1) {
        assert LiveEnd(slots, 0) == n - 1;
      }
    }
  }

  /** A listing gives exactly the entries in use, in order. */
  lemma ListingIsInUse(slots: seq<Slot>, skipVolume: bool)
    ensures Listing(slots, skipVolume) == InUse(slots, |slots|, skipVolume)
  {
    ListingIsListed(slots, skipVolume);
    ListedAreInUse(slots, LiveEnd(slots, 0), skipVolume);
    ListedAreInUse(slots, |slots|, skipVolume);
  }

  // ---------- free slots ----------

  /** Slot `i` is deleted, or is an end marker or behind one. */
  predicate Unused(slots: seq<Slot>, i: nat)
    requires i < |slots|
  {
    slots[i].IsDeleted() || !Live(slots, i + 1)
  }

  /** The `n` slots from `p` on, as far as they exist, are unused. */
  predicate Writable(slots: seq<Slot>, p: nat, n: nat) {
    Live(slots, p) && forall i :: p <= i < p + n && i < |slots| ==> Unused(slots, i)
  }

  /** The first place from `p` on where `n` slots in a row hold nothing. */
  function PlaceFrom(slots: seq<Slot>, p: nat, n: nat): (r: nat)
    requires p <= |slots|
    ensures p <= r <= |slots| && (r == |slots| || Writable(slots, r, n))
    ensures forall q :: p <= q < r ==> !Writable(slots, q, n)
    decreases |slots| - p
  {
    if p == |slots| || Writable(slots, p, n) then p else PlaceFrom(slots, p + 1, n)
  }

  function FirstPlace(slots: seq<Slot>, n: nat): (r: nat)
    ensures r <= |slots| && forall q :: 0 <= q < r ==> !Writable(slots, q, n)
  {
    PlaceFrom(slots, 0, n)
  }

  lemma {:induction false} PlaceIsFirst(slots: seq<Slot>, p: nat, q: nat, n: nat)
    requires p <= q <= |slots| && Writable(slots, q, n) && forall k :: p <= k < q ==> !Writable(slots, k, n)
    ensures PlaceFrom(slots, p, n) == q
    decreases q - p
  {
    if p < q { PlaceIsFirst(slots, p + 1, q, n); }
  }

  /** There always is such a place, the end marker at the latest. */
  lemma PlaceIsWritable(slots: seq<Slot>, n: nat)
    ensures Writable(slots, FirstPlace(slots, n), n)
  {
    var end := LiveEnd(slots, 0);
    assert forall i :: end <= i < |slots| ==> Unused(slots, i);
    assert Writable(slots, end, n);
  }

  lemma {:induction false} SkipDeleted(slots: seq<Slot>, p: nat, n: nat, c: Cursor, skipVolume: bool)
    requires n > 0 && p + n <= |slots| && forall i :: p <= i < p + n ==> slots[i].IsDeleted()
    ensures Entries(slots, p, c, skipVolume) == Entries(slots, p + n, Start(p + n), skipVolume)
    decreases n
  {
    hide Step, Emit, AlikeCursors;
    DeletedStep(slots[p], p, c, skipVolume);
    if n == 1 {
      SuffixFrame(slots, slots, p + 1, Step(slots[p], p, c, skipVolume), Start(p + 1), skipVolume);
    } else {
      SkipDeleted(slots, p + 1, n - 1, Step(slots[p], p, c, skipVolume), skipVolume);
    }
  }

  /** Unused slots that reach the end marker or the last slot are the end of the listing. */
  lemma {:induction false} NothingFrom(slots: seq<Slot>, p: nat, n: nat, c: Cursor, skipVolume: bool)
    requires Writable(slots, p, n) && !Live(slots, p + n)
    ensures Entries(slots, p, c, skipVolume) == []
    decreases n
  {
    hide Step, Emit;
    if p < |slots| && !slots[p].IsEnd() {
      assert Unused(slots, p) && Live(slots, p + 1);
      DeletedStep(slots[p], p, c, skipVolume);
      NothingFrom(slots, p + 1, n - 1, Step(slots[p], p, c, skipVolume), skipVolume);
    }
  }

  lemma WritableIsDeleted(slots: seq<Slot>, p: nat, n: nat)
    requires Writable(slots, p, n) && Live(slots, p + n)
    ensures forall i :: p <= i < p + n ==> slots[i].IsDeleted()
  {
    forall i: nat | p <= i < p + n ensures slots[i].IsDeleted() {
      assert Unused(slots, i) && Live(slots, i + 1);
    }
  }

  /** The entries that are listed from slot `n` on, where the listing gets that far. */
  function Rest(slots: seq<Slot>, n: nat, skipVolume: bool): seq<Entry> {
    if Live(slots, n) then Entries(slots, n, Start(n), skipVolume) else []
  }

  /** Unused slots list nothing: what follows them is read as if they were not there. */
  lemma ListingAround(slots: seq<Slot>, p: nat, n: nat, skipVolume: bool)
    requires Writable(slots, p, n) && n > 0
    ensures Listing(slots, skipVolume) == ListedTo(slots, p, skipVolume) + Rest(slots, p + n, skipVolume)
  {
    hide Step, Emit;
    SplitListing(slots, p, skipVolume);
    if Live(slots, p + n) {
      WritableIsDeleted(slots, p, n);
      SkipDeleted(slots, p, n, CursorAt(slots, p, skipVolume), skipVolume);
    } else {
      NothingFrom(slots, p, n, CursorAt(slots, p, skipVolume), skipVolume);
    }
  }

  // ---------- writing ----------

  /** `slots'` is `slots` with `ds` written over it from `p` on. Slots are gained only where `ds` reaches
      past the last one; what the gained ones behind `ds` hold is not said. */
  predicate Written(slots: seq<Slot>, slots': seq<Slot>, p: nat, ds: seq<Slot>) {
    && p <= |slots| <= |slots'| && p + |ds| <= |slots'| && (p + |ds| <= |slots| ==> |slots'| == |slots|)
    && slots'[..p] == slots[..p] && slots'[p..p + |ds|] == ds
    && forall i :: p + |ds| <= i < |slots| ==> slots'[i] == slots[i]
  }

  lemma WrittenSlots(slots: seq<Slot>, slots': seq<Slot>, p: nat, ds: seq<Slot>)
    requires Written(slots, slots', p, ds)
    ensures p <= |slots| && p + |ds| <= |slots'| && slots'[p..p + |ds|] == ds
  {
  }

  lemma LiveFrame(slots: seq<Slot>, slots': seq<Slot>, p: nat)
    requires Live(slots, p) && p <= |slots'| && slots[..p] == slots'[..p]
    ensures Live(slots', p)
  {
    assert forall i :: 0 <= i < p ==> slots'[i] == slots'[..p][i] == slots[i];
  }

  /** The entries that come to be listed behind slot `end` when the end of the listing is written over up
      to there: whatever is left in the slots behind. */
  function Unveiled(slots: seq<Slot>, slots': seq<Slot>, end: nat, skipVolume: bool): seq<Entry> {
    if Live(slots, end) then [] else Entries(slots', end, Start(end), skipVolume)
  }

  /** From slot `n` on there is no short name to list before the first end marker. */
  predicate Silent(slots: seq<Slot>, n: nat, skipVolume: bool)
    decreases |slots| - n
  {
    n >= |slots| || slots[n].IsEnd()
    || ((slots[n].Lfn? || Skipped(slots[n], skipVolume)) && Silent(slots, n + 1, skipVolume))
  }

  lemma {:induction false} SilentListsNothing(slots: seq<Slot>, n: nat, c: Cursor, skipVolume: bool)
    ensures Entries(slots, n, c, skipVolume) == [] <==> Silent(slots, n, skipVolume)
    decreases |slots| - n
  {
    if n < |slots| && !slots[n].IsEnd() {
      SilentListsNothing(slots, n + 1, Step(slots[n], n, c, skipVolume), skipVolume);
    }
  }

  /** What is listed behind the written slots: what was listed there before, or else what is unveiled. */
  lemma ListedBehind(slots: seq<Slot>, slots': seq<Slot>, p: nat, ds: seq<Slot>, skipVolume: bool)
    requires Written(slots, slots', p, ds)
    ensures var n := p + |ds|;
      Entries(slots', n, Start(n), skipVolume) == Rest(slots, n, skipVolume) + Unveiled(slots, slots', n, skipVolume)
  {
    hide Entries, AlikeCursors;
    var n := p + |ds|;
    AlikeItself(Start(n));
    if Live(slots, n) { SuffixFrame(slots, slots', n, Start(n), Start(n), skipVolume); }
  }

  lemma WritingFrame(slots: seq<Slot>, slots': seq<Slot>, p: nat, ds: seq<Slot>)
    requires Writable(slots, p, |ds|) && Written(slots, slots', p, ds)
    ensures p <= |slots| && p <= |slots'| && slots[..p] == slots'[..p]
    ensures Live(slots, p) && Live(slots', p)
  {
    LiveFrame(slots, slots', p);
  }

  lemma WritingLists(slots: seq<Slot>, slots': seq<Slot>, p: nat, ds: seq<Slot>, e: Entry, skipVolume: bool)
    requires |ds| > 0 && Writable(slots, p, |ds|) && Written(slots, slots', p, ds)
    requires Entries(slots', p, CursorAt(slots, p, skipVolume), skipVolume) ==
             [e] + Entries(slots', p + |ds|, Start(p + |ds|), skipVolume)
    ensures Inserts(Listing(slots, skipVolume), Listing(slots', skipVolume), ListedTo(slots, p, skipVolume), e,
                    Unveiled(slots, slots', p + |ds|, skipVolume))
  {
    hide Step, Emit, Entries, Listing, ListedTo, CursorAt, Rest, Unveiled, Writable, Written, Live, Inserts;
    var n := p + |ds|;
    WritingFrame(slots, slots', p, ds);
    ListedBehind(slots, slots', p, ds, skipVolume);
    ListingAround(slots, p, |ds|, skipVolume);
    SplitListing(slots', p, skipVolume);
    PrefixFrame(slots, slots', p, skipVolume);
    Insertion(Listing(slots, skipVolume), Listing(slots', skipVolume), ListedTo(slots, p, skipVolume), e,
              Entries(slots', p, CursorAt(slots, p, skipVolume), skipVolume),
              Entries(slots', n, Start(n), skipVolume),
              Rest(slots, n, skipVolume), Unveiled(slots, slots', n, skipVolume));
  }

  lemma Insertion<T>(
    l: seq<T>, l': seq<T>, before: seq<T>, x: T, from: seq<T>, behind: seq<T>, tail: seq<T>, more: seq<T>)
    requires l == before + tail && l' == before + from && from == [x] + behind && behind == tail + more
    ensures Inserts(l, l', before, x, more)
  {
  }

  /** `l'` is `l` with `x` put in behind `before`, its first elements, and `more` behind all. */
  predicate Inserts<T(==)>(l: seq<T>, l': seq<T>, before: seq<T>, x: T, more: seq<T>) {
    before <= l && l' == before + [x] + l[|before|..] + more
  }

  /** From slot `n` on there are only end markers behind an end marker. */
  predicate TidyFrom(slots: seq<Slot>, n: nat) {
    forall i, j :: n <= i < j < |slots| && slots[i].IsEnd() ==> slots[j].IsEnd()
  }

  /** After writing, a directory is tidy exactly when it is so behind what was written. */
  lemma TidyAfterWriting(slots: seq<Slot>, slots': seq<Slot>, p: nat, ds: seq<Slot>)
    requires Live(slots, p) && Written(slots, slots', p, ds) && forall i :: 0 <= i < |ds| ==> !ds[i].IsEnd()
    ensures Tidy(slots') <==> TidyFrom(slots', p + |ds|)
    ensures Tidy(slots) && p + |ds| <= |slots| ==> Tidy(slots')
  {
    var n := |ds|;
    forall i | 0 <= i < p + n ensures !slots'[i].IsEnd() {
      if i < p { assert slots'[i] == slots'[..p][i] == slots[..p][i]; }
      else { assert slots'[i] == slots'[p..p + n][i - p]; }
    }
  }

  /** A tidy directory that gains only end markers unveils nothing, and stays tidy. */
  lemma ClearedIsSilent(slots: seq<Slot>, slots': seq<Slot>, p: nat, ds: seq<Slot>, skipVolume: bool)
    requires Tidy(slots) && Live(slots, p) && Written(slots, slots', p, ds)
    requires forall i :: 0 <= i < |ds| ==> !ds[i].IsEnd()
    requires forall i :: p + |ds| <= i < |slots'| && |slots| <= i ==> slots'[i].IsEnd()
    ensures Live(slots, p + |ds|) || Silent(slots', p + |ds|, skipVolume)
    ensures Tidy(slots')
  {
    TidyAfterWriting(slots, slots', p, ds);
    assert TidyFrom(slots', p + |ds|) by {
      forall i, j | p + |ds| <= i < j < |slots'| && slots'[i].IsEnd() ensures slots'[j].IsEnd() {
        assert i < |slots| ==> slots[i].IsEnd();
      }
    }
  }

  // ---------- the slots of an entry ----------

  function AsSlots(pieces: seq<LfnData>): (r: seq<Slot>)
    ensures |r| == |pieces|
  {
    seq(|pieces|, i requires 0 <= i < |pieces| => Lfn(pieces[i]))
  }

  lemma GeneratedArePieces(name: seq<u16>, chksum: byte)
    requires Pieces(name) <= MAX_ENTRIES
    ensures var ds := AsSlots(Generated(name, chksum));
      forall i :: 0 <= i < |ds| ==> IsPiece(ds[i]) && ds[i].Valid()
  {
    var ds := AsSlots(Generated(name, chksum));
    forall i: nat | i < |ds| ensures IsPiece(ds[i]) && ds[i].Valid() {
      OrderByte(name, chksum, i);
    }
  }

  lemma OnePiece(slots: seq<Slot>, p: nat, c: Cursor, d: LfnData, skipVolume: bool)
    requires p < |slots| && slots[p] == Lfn(d) && IsPiece(slots[p])
    ensures Entries(slots, p, c, skipVolume) == Entries(slots, p + 1, Cursor(c.b.Process(d), c.begin), skipVolume)
  {
  }

  predicate PieceAt(slots: seq<Slot>, p: nat, pieces: seq<LfnData>, i: nat)
    requires p + |pieces| <= |slots| && i < |pieces|
  {
    slots[p + i] == Lfn(pieces[i]) && IsPiece(slots[p + i])
  }

  /** Long-name pieces only feed the builder. */
  lemma {:induction false} SkipPieces(
    slots: seq<Slot>, p: nat, c: Cursor, pieces: seq<LfnData>, m: nat, skipVolume: bool)
    requires m <= |pieces| && p + |pieces| <= |slots|
    requires forall i :: 0 <= i < |pieces| ==> PieceAt(slots, p, pieces, i)
    ensures Entries(slots, p, c, skipVolume) ==
      Entries(slots, p + m, Cursor(Feed(c.b, pieces[..m]), c.begin), skipVolume)
  {
    hide Step, Emit, Entries, Builder.Process;
    if m == 0 {
      assert pieces[..0] == [];
    } else {
      SkipPieces(slots, p, c, pieces, m - 1, skipVolume);
      FeedOneMore(c.b, pieces, m - 1);
      assert PieceAt(slots, p, pieces, m - 1);
      OnePiece(slots, p + m - 1, Cursor(Feed(c.b, pieces[..m - 1]), c.begin), pieces[m - 1], skipVolume);
    }
  }

  /** The slots of an entry: the pieces of its long name and its short name. */
  function EntrySlots(name: seq<u16>, raw: FileData): (r: seq<Slot>)
    requires Pieces(name) <= MAX_ENTRIES
    ensures |r| == Pieces(name) + 1
  {
    AsSlots(Generated(name, ChecksumOf(raw.name))) + [File(raw)]
  }

  /** A short-name slot that the iterator will show. */
  predicate Showable(raw: FileData) {
    raw.name[0] != 0 && raw.name[0] != DELETED_FLAG && !raw.IsVolume()
  }

  lemma OneName(slots: seq<Slot>, p: nat, c: Cursor, raw: FileData, skipVolume: bool)
    requires p < |slots| && slots[p] == File(raw) && Showable(raw)
    ensures Entries(slots, p, c, skipVolume) ==
      [Entry(raw, c.b.Validated(raw.name).Finished(), c.begin, p + 1)]
      + Entries(slots, p + 1, Start(p + 1), skipVolume)
  {
  }

  lemma SlotsOfEntry(slots: seq<Slot>, p: nat, name: seq<u16>, raw: FileData)
    requires Pieces(name) <= MAX_ENTRIES
    requires var ds := EntrySlots(name, raw); p + |ds| <= |slots| && slots[p..p + |ds|] == ds
    ensures var g := Generated(name, ChecksumOf(raw.name));
      && slots[p + |g|] == File(raw)
      && forall i :: 0 <= i < |g| ==> PieceAt(slots, p, g, i)
  {
    var ds, g := EntrySlots(name, raw), Generated(name, ChecksumOf(raw.name));
    GeneratedArePieces(name, ChecksumOf(raw.name));
    forall i: nat | i < |g| ensures PieceAt(slots, p, g, i) {
      assert slots[p + i] == slots[p..p + |ds|][i] == AsSlots(g)[i];
    }
    assert slots[p + |g|] == slots[p..p + |ds|][|g|];
  }

  /** The slots of an entry read back as the entry, whatever the iterator carried before. */
  lemma EntryIsRead(slots: seq<Slot>, p: nat, c: Cursor, name: seq<u16>, raw: FileData, skipVolume: bool)
    requires 1 <= |name| && Pieces(name) <= MAX_ENTRIES && Showable(raw)
    requires var ds := EntrySlots(name, raw); p + |ds| <= |slots| && slots[p..p + |ds|] == ds
    ensures var end := p + Pieces(name) + 1;
      Entries(slots, p, c, skipVolume) ==
        [Entry(raw, LongName.Stripped(name), c.begin, end)] + Entries(slots, end, Start(end), skipVolume)
  {
    hide Step, Emit, Entries, Builder.Process, Feed, EntrySlots, LongName.Stripped, Showable;
    var g := Generated(name, ChecksumOf(raw.name));
    SlotsOfEntry(slots, p, name, raw);
    SkipPieces(slots, p, c, g, |g|, skipVolume);
    assert g[..|g|] == g;
    RoundTripFrom(c.b, name, raw.name);
    OneName(slots, p + |g|, Cursor(Feed(c.b, g), c.begin), raw, skipVolume);
  }

  lemma FreeIsLive(slots: seq<Slot>, p: nat, n: nat)
    requires Writable(slots, p, n)
    ensures Live(slots, p)
  {
  }

  /** Writing an entry over unused slots puts it into the listing behind the entries before it; the others
      stay, and entries may come behind them where the end of the listing was written over. */
  lemma WritingAddsEntry(
    slots: seq<Slot>, slots': seq<Slot>, p: nat, name: seq<u16>, raw: FileData, skipVolume: bool)
    requires 1 <= |name| && Pieces(name) <= MAX_ENTRIES && Showable(raw)
    requires Writable(slots, p, Pieces(name) + 1) && Written(slots, slots', p, EntrySlots(name, raw))
    ensures var end := p + Pieces(name) + 1;
      Inserts(Listing(slots, skipVolume), Listing(slots', skipVolume), ListedTo(slots, p, skipVolume),
              Entry(raw, LongName.Stripped(name), RunStart(slots, p), end),
              Unveiled(slots, slots', end, skipVolume))
  {
    hide Step, Emit, Entries, Listing, ListedTo, EntrySlots, LongName.Stripped, Showable, Writable, Written, Unveiled,
      RunStart, CursorAt, Live, Pieces, Inserts;
    WrittenSlots(slots, slots', p, EntrySlots(name, raw));
    var c := CursorAt(slots, p, skipVolume);
    FreeIsLive(slots, p, Pieces(name) + 1);
    BeginsAtRun(slots, p, skipVolume);
    EntryIsRead(slots', p, c, name, raw, skipVolume);
    WritingLists(slots, slots', p, EntrySlots(name, raw),
                 Entry(raw, LongName.Stripped(name), c.begin, p + Pieces(name) + 1), skipVolume);
  }

  /** Pieces written up to the last slot, with no short name behind them, list nothing. */
  lemma UnfinishedAddsNothing(
    slots: seq<Slot>, slots': seq<Slot>, p: nat, n: nat, pieces: seq<LfnData>, skipVolume: bool)
    requires n > 0 && Writable(slots, p, n) && !Live(slots, p + n)
    requires |slots'| == p + |pieces| && Written(slots, slots', p, AsSlots(pieces))
    requires forall i :: 0 <= i < |pieces| ==> PieceAt(slots', p, pieces, i)
    ensures Listing(slots', skipVolume) == Listing(slots, skipVolume)
  {
    hide Step, Emit;
    ListingAround(slots, p, n, skipVolume);
    LiveFrame(slots, slots', p);
    SplitListing(slots', p, skipVolume);
    PrefixFrame(slots, slots', p, skipVolume);
    SkipPieces(slots', p, CursorAt(slots', p, skipVolume), pieces, |pieces|, skipVolume);
  }

  // ---------- deleting ----------

  function LiveEnd(slots: seq<Slot>, p: nat): (n: nat)
    requires Live(slots, p)
    ensures Live(slots, n) && (n == |slots| || slots[n].IsEnd())
    decreases |slots| - p
  {
    if p == |slots| || slots[p].IsEnd() then p else LiveEnd(slots, p + 1)
  }

  lemma ListingIsListed(slots: seq<Slot>, skipVolume: bool)
    ensures Listing(slots, skipVolume) == ListedTo(slots, LiveEnd(slots, 0), skipVolume)
  {
    SplitListing(slots, LiveEnd(slots, 0), skipVolume);
  }

  /** A cursor has just been started at `p`. */
  predicate FreshAt(slots: seq<Slot>, p: nat, skipVolume: bool)
    requires p <= |slots|
  {
    AlikeCursors(CursorAt(slots, p, skipVolume), Start(p))
  }

  /** Nothing is listed between the slot a cursor was started at and the slot it has come to. */
  lemma {:induction false} NothingSinceBegin(slots: seq<Slot>, n: nat, skipVolume: bool)
    requires n <= |slots|
    ensures var b := CursorAt(slots, n, skipVolume).begin;
      b <= n && FreshAt(slots, b, skipVolume) && ListedTo(slots, b, skipVolume) == ListedTo(slots, n, skipVolume)
  {
    hide Step, Emit, AlikeCursors;
    if n == 0 {
      AlikeItself(Start(0));
    } else {
      var s, c := slots[n - 1], CursorAt(slots, n - 1, skipVolume);
      NothingSinceBegin(slots, n - 1, skipVolume);
      EmitsOnce(s, n - 1, c, skipVolume);
      AlikeItself(Start(n));
      AlikeBegins(CursorAt(slots, n, skipVolume), Start(n));
    }
  }

  lemma AlikeBegins(c: Cursor, c': Cursor)
    ensures AlikeCursors(c, c') ==> c.begin == c'.begin
  {
  }

  /** Where an entry stands: the entries before it are those listed before its first slot. */
  predicate StandsAt(slots: seq<Slot>, es: seq<Entry>, i: nat, skipVolume: bool)
    requires i < |es|
  {
    && es[i].begin < es[i].end <= |slots| && FreshAt(slots, es[i].begin, skipVolume)
    && CursorAt(slots, es[i].end, skipVolume) == Start(es[i].end)
    && ListedTo(slots, es[i].begin, skipVolume) == es[..i]
    && ListedTo(slots, es[i].end, skipVolume) == es[..i + 1]
  }

  lemma {:induction false} EntryStands(slots: seq<Slot>, n: nat, i: nat, skipVolume: bool)
    requires n <= |slots| && i < |ListedTo(slots, n, skipVolume)|
    ensures StandsAt(slots, ListedTo(slots, n, skipVolume), i, skipVolume)
    ensures ListedTo(slots, n, skipVolume)[i].end <= n
  {
    hide Step, Emit, FreshAt;
    var es, fewer := ListedTo(slots, n, skipVolume), ListedTo(slots, n - 1, skipVolume);
    if i < |fewer| {
      EntryStands(slots, n - 1, i, skipVolume);
      assert es[..i] == fewer[..i] && es[..i + 1] == fewer[..i + 1];
    } else {
      NothingSinceBegin(slots, n - 1, skipVolume);
      EmitsOnce(slots[n - 1], n - 1, CursorAt(slots, n - 1, skipVolume), skipVolume);
      assert es[..i] == fewer && es[..i + 1] == es;
    }
  }

  /** The entry `i` of the listing and its slots. */
  lemma EntryPlace(slots: seq<Slot>, i: nat, skipVolume: bool)
    requires i < |Listing(slots, skipVolume)|
    ensures StandsAt(slots, Listing(slots, skipVolume), i, skipVolume)
    ensures Live(slots, Listing(slots, skipVolume)[i].end)
  {
    hide Step, Emit, StandsAt;
    ListingIsListed(slots, skipVolume);
    EntryStands(slots, LiveEnd(slots, 0), i, skipVolume);
    assert StandsAt(slots, Listing(slots, skipVolume), i, skipVolume);
  }

  /** `slots'` is `slots` with the slots from `b` to `e` marked as deleted. */
  predicate Erased(slots: seq<Slot>, slots': seq<Slot>, b: nat, e: nat) {
    && |slots'| == |slots|
    && forall i :: 0 <= i < |slots| ==> slots'[i] == if b <= i < e then slots[i].SetDeleted() else slots[i]
  }

  function EraseSlots(slots: seq<Slot>, b: nat, e: nat): (r: seq<Slot>)
    ensures Erased(slots, r, b, e)
  {
    seq(|slots|, i requires 0 <= i < |slots| => if b <= i < e then slots[i].SetDeleted() else slots[i])
  }

  lemma ErasedSlots(slots: seq<Slot>, slots': seq<Slot>, b: nat, e: nat)
    requires Erased(slots, slots', b, e)
    ensures slots' == EraseSlots(slots, b, e)
  {
  }

  lemma ErasingFrame(slots: seq<Slot>, slots': seq<Slot>, b: nat, e: nat)
    requires b <= e && Live(slots, e) && Erased(slots, slots', b, e)
    ensures Live(slots', e) && forall i :: b <= i < e ==> slots'[i].IsDeleted()
    ensures slots'[..b] == slots[..b] && SameFrom(slots, slots', e)
    ensures Tidy(slots') <==> Tidy(slots)
  {
  }

  /** Deleting the slots of an entry takes exactly that entry off the listing. */
  lemma ErasingRemovesEntry(slots: seq<Slot>, slots': seq<Slot>, i: nat, skipVolume: bool)
    requires i < |Listing(slots, skipVolume)|
    requires var e := Listing(slots, skipVolume)[i]; Erased(slots, slots', e.begin, e.end)
    ensures Listing(slots', skipVolume) == Listing(slots, skipVolume)[..i] + Listing(slots, skipVolume)[i + 1..]
    ensures Tidy(slots') <==> Tidy(slots)
  {
    hide Step, Emit, FreshAt, Entries, Tidy;
    EntryPlace(slots, i, skipVolume);
    var l := Listing(slots, skipVolume);
    var b, e := l[i].begin, l[i].end;
    ErasingFrame(slots, slots', b, e);
    SplitListing(slots, e, skipVolume);
    SplitListing(slots', b, skipVolume);
    PrefixFrame(slots, slots', b, skipVolume);
    SkipDeleted(slots', b, e - b, CursorAt(slots', b, skipVolume), skipVolume);
    SuffixFrame(slots, slots', e, Start(e), Start(e), skipVolume);
    Removal(l, Listing(slots', skipVolume), i, Entries(slots, e, Start(e), skipVolume));
  }

  lemma Removal<T>(l: seq<T>, l': seq<T>, i: nat, tail: seq<T>)
    requires i < |l| && l == l[..i + 1] + tail && l' == l[..i] + tail
    ensures l' == l[..i] + l[i + 1..]
  {
  }
}
