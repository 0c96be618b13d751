/** A directory: its slots in the bytes of a stream, the entry iterator, and the operations that add,
    remove and rename entries. */
module Directory {
  import opened Prelude
  import opened DirEntry
  import opened LongName
  import opened DirSlots
  import opened DirChanges
  import opened Blocks
  import FatHeap
  import opened FileSystem
  import SN = ShortName

  // ---------- bytes and slots ----------

  function Slots(bytes: seq<byte>): (r: seq<Slot>)
    requires |bytes| % 32 == 0
    ensures |r| == |bytes| / 32
  {
    seq(|bytes| / 32, k requires 0 <= k < |bytes| / 32 => Deserialize(bytes[32 * k..32 * k + 32]))
  }

  lemma SlotsJoin(a: seq<byte>, b: seq<byte>)
    requires |a| % 32 == 0 && |b| % 32 == 0
    ensures |a + b| % 32 == 0 && Slots(a + b) == Slots(a) + Slots(b)
  {
    forall k: nat | k < |a + b| / 32
      ensures Slots(a + b)[k] == if k < |a| / 32 then Slots(a)[k] else Slots(b)[k - |a| / 32]
    {
      if k < |a| / 32 {
        assert (a + b)[32 * k..32 * k + 32] == a[32 * k..32 * k + 32];
      } else {
        var i := k - |a| / 32;
        assert (a + b)[32 * k..32 * k + 32] == b[32 * i..32 * i + 32];
      }
    }
  }

  lemma ZeroSlots(n: nat)
    requires n % 32 == 0
    ensures forall k :: 0 <= k < n / 32 ==> Slots(Zeros(n))[k] == END
  {
    ZeroSlot();
    forall k: nat | k < n / 32 ensures Slots(Zeros(n))[k] == END {
      assert Zeros(n)[32 * k..32 * k + 32] == Zeros(SLOT_SIZE);
    }
  }

  lemma SlotsSplice(bytes: seq<byte>, k: nat, s: Slot)
    requires |bytes| % 32 == 0 && 32 * k + 32 <= |bytes| && s.Valid()
    ensures Slots(Splice(bytes, 32 * k, Serialize(s))) == Slots(bytes)[k := s]
  {
    var b := Splice(bytes, 32 * k, Serialize(s));
    forall j: nat | j < |b| / 32 ensures Slots(b)[j] == Slots(bytes)[k := s][j] {
      if j == k {
        assert b[32 * k..32 * k + 32] == Serialize(s);
        ReadsBack(s);
      } else {
        assert b[32 * j..32 * j + 32] == bytes[32 * j..32 * j + 32];
      }
    }
  }

  // ---------- the clusters to come ----------

  /** A cluster as the directory gets it. */
  function Given(cluster: seq<byte>, cleared: bool): (r: seq<byte>)
    ensures |r| == |cluster|
  {
    if cleared then Zeros(|cluster|) else cluster
  }

  predicate AllClusters(spare: seq<seq<byte>>, n: nat) {
    forall i :: 0 <= i < |spare| ==> |spare[i]| == 32 * n
  }

  /** The slots of the clusters to come, of `n` slots each. */
  function Ahead(spare: seq<seq<byte>>, n: nat, cleared: bool): (r: seq<Slot>)
    requires AllClusters(spare, n)
    ensures |r| == Span(|spare|, n)
  {
    if spare == [] then [] else Slots(Given(spare[0], cleared)) + Ahead(spare[1..], n, cleared)
  }

  lemma {:induction false} AheadIsClean(spare: seq<seq<byte>>, n: nat)
    requires AllClusters(spare, n)
    ensures forall i :: 0 <= i < Span(|spare|, n) ==> Ahead(spare, n, true)[i].IsEnd()
  {
    if spare != [] {
      ZeroSlots(32 * n);
      AheadIsClean(spare[1..], n);
    }
  }

  /** Taking a cluster moves its slots from those to come to those there are. */
  lemma AheadMoves(bytes: seq<byte>, spare: seq<seq<byte>>, n: nat, cleared: bool)
    requires |bytes| % 32 == 0 && AllClusters(spare, n) && spare != []
    ensures AllClusters(spare[1..], n)
    ensures var more := bytes + Given(spare[0], cleared);
      && |more| % 32 == 0 && |Slots(more)| == |Slots(bytes)| + n
      && Slots(more) + Ahead(spare[1..], n, cleared) == Slots(bytes) + Ahead(spare, n, cleared)
  {
    hide Slots;
    var c := Given(spare[0], cleared);
    SlotsJoin(bytes, c);
    Regroup(Slots(bytes), Slots(c), Ahead(spare[1..], n, cleared));
  }

  lemma WholeClusters(m: nat, n: nat)
    requires n > 0
    ensures Rem(Span(m, n), n) == 0
  {
    IndexOfSpan(Span(m, n), m, n, 0);
  }

  /** Where the slots of a directory lie: the root of FAT12 and FAT16 is a slice of the disk; the root of
      FAT32 has no entry that would say that it is a directory, so that its new clusters are not cleared. */
  datatype Home = FixedRoot | Fat32Root | Subdirectory

  // ---------- the directory ----------

  class Dir {
    const clusterSlots: nat     // slots in a cluster
    const home: Home
    var bytes: seq<byte>
    var spare: seq<seq<byte>>   // the clusters that the directory can still be given, with what they hold

    constructor (bytes: seq<byte>, clusterSlots: nat, spare: seq<seq<byte>>, home: Home)
      requires |bytes| % 32 == 0 && clusterSlots > 0 && AllClusters(spare, clusterSlots)
      requires home.FixedRoot? ==> spare == []
      ensures Valid() && this.home == home
      ensures Reach() == Extent(Slots(bytes) + Ahead(spare, clusterSlots, home.Subdirectory?),
                                            |bytes| / 32, clusterSlots)
    {
      this.bytes, this.clusterSlots, this.spare, this.home := bytes, clusterSlots, spare, home;
    }

    predicate Valid()
      reads this
    {
      && |bytes| % 32 == 0 && clusterSlots > 0 && AllClusters(spare, clusterSlots)
      && (home.FixedRoot? ==> spare == [])
    }

    function S(): seq<Slot>
      requires Valid()
      reads this
    {
      Slots(bytes)
    }

    /** The slots it has, and those of the clusters it can still be given. */
    function Reach(): (d: Extent)
      requires Valid()
      reads this
      ensures d.Valid() && d.S() == S()
    {
      WholeClusters(|spare|, clusterSlots);
      Extent(S() + Ahead(spare, clusterSlots, home.Subdirectory?), |S()|, clusterSlots)
    }

    /** But for the root of FAT32, the clusters to come are cleared. */
    lemma ComesClean()
      requires Valid() && !home.Fat32Root?
      ensures Reach().Clean()
    {
      if home.Subdirectory? { AheadIsClean(spare, clusterSlots); }
    }

    /** So writing into a tidy directory other than that unveils nothing. */
    lemma WritesQuietlyHere(name: seq<char>, skipVolume: bool)
      requires Valid() && Tidy(S()) && !home.Fat32Root?
      ensures WritesQuietly(Reach(), name, skipVolume)
    {
      ComesClean();
      ClearedIsQuiet(Reach(), name, skipVolume);
    }

    /** The entries that are not volume labels. */
    function List(): seq<Entry>
      requires Valid()
      reads this
    {
      Listing(S(), true)
    }

    /** Behind the last slot an end marker is read. */
    method ReadSlot(k: nat) returns (s: Slot)
      requires Valid() && k <= |S()|
      ensures s == if k < |S()| then S()[k] else END
    {
      if 32 * k == |bytes| {
        return END;
      }
      s := Deserialize(bytes[32 * k..32 * k + 32]);
    }

    /** Gets the next cluster, if there is one left. */
    method Grow() returns (ok: bool)
      requires Valid()
      modifies this
      ensures Valid() && ok == (|old(S())| < |Reach().all|)
      ensures Reach() == if ok then old(Reach()).(len := |old(S())| + clusterSlots) else old(Reach())
      ensures ok ==> old(spare) != [] && spare == old(spare)[1..]
      ensures ok ==> bytes == old(bytes) + if home.Subdirectory? then Zeros(|old(spare)[0]|) else old(spare)[0]
    {
      if spare == [] {
        return false;
      }
      hide Slots, Ahead, Given;
      AheadMoves(bytes, spare, clusterSlots, home.Subdirectory?);
      bytes := bytes + Given(spare[0], home.Subdirectory?);
      spare := spare[1..];
      ok := true;
    }

    /** Behind the last slot the directory gets a cluster first. */
    method WriteSlot(k: nat, s: Slot) returns (ok: bool)
      requires Valid() && k <= |S()| && s.Valid()
      modifies this
      ensures Valid() && ok == (k < |old(Reach()).all|)
      ensures Reach() == if ok then old(Reach()).Put(k, [s]) else old(Reach())
    {
      hide Slots, Ahead;
      if 32 * k == |bytes| {
        ok := Grow();
        if !ok {
          return;
        }
      }
      SlotsSplice(bytes, k, s);
      bytes := Splice(bytes, 32 * k, Serialize(s));
      assert Reach().all == Splice(old(Reach()).all, k, [s]);
      ok := true;
    }

    /** The first place where `n` slots in a row can be written. */
    method FindFreeEntries(n: nat) returns (p: nat)
      requires Valid() && n > 0
      ensures p == FirstPlace(S(), n) && Writable(S(), p, n)
    {
      hide Slots;
      var firstFree, numFree, i := 0, 0, 0;
      while true
        invariant 0 <= numFree < n && numFree <= i <= |S()| && Live(S(), i)
        invariant numFree > 0 ==> firstFree == i - numFree
        invariant forall j :: i - numFree <= j < i ==> S()[j].IsDeleted()
        invariant forall q :: 0 <= q < i - numFree ==> !Writable(S(), q, n)
        decreases |S()| - i
      {
        var s := ReadSlot(i);
        if s.IsEnd() {
          if numFree == 0 { firstFree := i; }
          PlaceIsFirst(S(), 0, firstFree, n);
          return firstFree;
        } else if s.IsDeleted() {
          if numFree == 0 { firstFree := i; }
          numFree := numFree + 1;
          if numFree == n {
            PlaceIsFirst(S(), 0, firstFree, n);
            return firstFree;
          }
        } else {
          forall q: nat | q <= i ensures !Writable(S(), q, n) {
            assert q + n > i || q < i - numFree;
            assert !Unused(S(), i);
          }
          numFree := 0;
        }
        i := i + 1;
      }
    }

    /** Writes the pieces of a long name; `ok` is false when the directory ran full on the way. */
    method AllocAndWriteLfnEntries(name: seq<u16>, short: RawName) returns (start: nat, pos: nat, ok: bool)
      requires Valid() && 1 <= |name| && Pieces(name) <= MAX_ENTRIES
      modifies this
      ensures Valid()
      ensures start == FirstPlace(old(S()), Pieces(name) + 1) && Writable(old(S()), start, Pieces(name) + 1)
      ensures start <= pos <= start + Pieces(name) && pos <= |S()| <= |old(Reach()).all|
      ensures if ok then pos == start + Pieces(name) else pos == |old(Reach()).all| && pos < start + Pieces(name)
      ensures Reach() == PutPieces(old(Reach()), start, name, ChecksumOf(short), pos - start)
    {
      hide FirstPlace, PutPieces, Writable, LongName.Generated, Slots, ChecksumOf, Ahead;
      var chksum := LfnChecksum(short);
      var it := new LfnEntriesGenerator(name, chksum);
      start := FindFreeEntries(it.Len() + 1);
      pos := start;
      ghost var d := Reach();
      NoPieces(d, start, name, chksum);
      while true
        invariant Valid() && it.Valid() && it.name == name && it.checksum == chksum
        invariant start <= pos <= |S()| <= |d.all| && it.index == pos - start
        invariant Reach() == PutPieces(d, start, name, chksum, it.index)
        decreases it.remaining, !it.ended
      {
        var next := it.Next();
        if next.None? { break; }
        PieceIsValid(name, chksum, it.index - 1);
        ok := WriteSlot(pos, Lfn(next.value));
        if !ok { return; }
        OneMorePiece(d, start, name, chksum, it.index - 1);
        pos := pos + 1;
      }
      ok := true;
    }

    /** Adds an entry to the listing, or fails and leaves the listing as it was. */
    method WriteEntry(name: seq<char>, raw: FileData) returns (r: Result<Entry>)
      requires Valid() && Showable(raw)
      modifies this
      ensures Valid()
      ensures WriteOutcome(old(Reach()), Reach(), home.FixedRoot?, name, raw, r)
    {
      hide WriteOutcome, PutPieces, Writable, Slots, EntrySlots, Showable, FirstPlace, Ahead, Extent.Put, Extent.Valid,
        ChecksumOf, ValidName;
      ghost var d := Reach();
      if CanWrite(d.S(), |d.all|, name) {
        EntryFits(d, home.FixedRoot?, name, raw);
      } else {
        EntryDoesNotFit(d, home.FixedRoot?, name, raw);
      }
      var error := ValidateLongName(name);
      if error.Some? {
        return Failure(error.value);
      }
      var units := Units(name);
      var start, pos, ok := AllocAndWriteLfnEntries(units, raw.name);
      if ok {
        ShowableIsValid(raw);
        ok := WriteSlot(pos, File(raw));
      }
      if !ok {
        return Failure(if home.FixedRoot? then WriteZero else NotEnoughSpace);
      }
      NameBehindPieces(d, start, units, raw);
      r := Success(Entry(raw, units, start, pos + 1));
    }

    /** Marks the slots of entry `i` of the listing as deleted. */
    method Erase(e: Entry, ghost i: nat)
      requires Valid() && i < |List()| && e == List()[i]
      modifies this
      ensures Valid() && (Tidy(S()) <==> old(Tidy(S())))
      ensures RemovedAt(old(List()), List(), i) && EntryErased(old(Reach()), Reach(), e)
    {
      hide Listing, Tidy, Slots, Ahead;
      ghost var d := Reach();
      EntryPlace(S(), i, true);
      EraseNothing(d, e.begin);
      for k := e.begin to e.end
        invariant Valid() && Reach() == d.Erase(e.begin, k)
      {
        var s := ReadSlot(k);
        ValidSlots(bytes, k);
        var _ := WriteSlot(k, s.SetDeleted());
        EraseMore(d, e.begin, k);
      }
      ErasingTakesOff(d, i);
    }

    method FindEntry(same: Entry -> bool, isDir: Option<bool>, gen: SN.ShortNameGenerator?) returns (r: Result<Entry>)
      requires Valid() && (gen != null ==> gen.Valid())
      modifies gen
      ensures r == Found(List(), same, isDir)
      ensures FindsFirst(List(), same, isDir, r)
      ensures gen != null ==> gen.Valid() && gen.chksum == old(gen.chksum)
      ensures gen != null && r == Failure(NotFound) ==>
        && gen.seen == old(gen.seen) + ShortNames(List())
        && gen.exactMatch == (old(gen.exactMatch) || gen.stem.shortName in ShortNames(List()))
    {
      hide Listing, Slots, Entries, ShortNames, FirstSame, FindsFirst, Found, SN.ShortNameGenerator.Valid, AllClusters;
      var it := new DirIter(this, true);
      ghost var l, n := List(), 0;
      ListingFromStart(S());
      NamesBefore(l, 0);
      while true
        invariant fresh(it) && it.dir == this && it.skipVolume && it.pos <= |S()|
        invariant 0 <= n <= |l| && l[n..] == Entries(S(), it.pos, Start(it.pos), true)
        invariant forall k :: 0 <= k < n ==> !same(l[k])
        invariant gen != null ==> gen.Valid() && gen.chksum == old(gen.chksum)
        invariant gen != null ==> gen.seen == old(gen.seen) + ShortNames(l[..n])
        invariant gen != null ==>
          gen.exactMatch == (old(gen.exactMatch) || gen.stem.shortName in ShortNames(l[..n]))
        decreases |S()| - it.pos
      {
        var next := it.ReadDirEntry();
        if next.None? {
          assert n == |l| && l[..n] == l;
          FoundAt(l, same, isDir, n, Failure(NotFound));
          return Failure(NotFound);
        }
        var e := next.value;
        assert n < |l| && l[n] == e && l[n + 1..] == l[n..][1..];
        if same(e) {
          if isDir.Some? && e.data.IsDir() != isDir.value {
            FoundAt(l, same, isDir, n, Failure(InvalidInput));
            return Failure(InvalidInput);
          }
          FoundAt(l, same, isDir, n, Success(e));
          return Success(e);
        }
        if gen != null {
          gen.AddExisting(e.data.name);
        }
        NamesBefore(l, n);
        n := n + 1;
      }
    }

    /** Looks for an entry, or makes up a short name that no entry has. */
    method CheckForExistence(name: seq<char>, same: Entry -> bool, isDir: Option<bool>) returns (r: Result<Existence>)
      requires Valid() && SN.Sliceable(name) && |S()| < 9 * SN.CHECKSUMS
      ensures CheckOutcome(List(), name, same, isDir, r)
    {
      hide Listing, Slots, AllClusters, Found, SN.Usable, SN.Is83, SN.AsShortName, SN.ShortNameGenerator.Chosen,
        SN.UsersOf, SN.Users, SN.Numbered, SN.ChecksumOf, SN.StemOf, SN.Stem.TakesChecksum, SN.Stem.TakesNumber,
        SN.Stem.NumberTaken, SN.Round, SN.ShortNameGenerator.Valid, SN.Stem.Valid,
        SN.Stem.ChecksumTaken, SN.Choice, ShortNames;
      var gen := new SN.ShortNameGenerator(name);
      ghost var names, c, k := ShortNames(List()), gen.chksum, 0;
      SN.NextRound(c, 0);
      while true
        invariant fresh(gen) && gen.Valid() && gen.seen == [] && gen.chksum == SN.Round(c, k)
        invariant gen.exactMatch ==> gen.stem.shortName in names
        invariant k > 0 && SN.Is83(name) ==> gen.exactMatch
        invariant forall j: nat :: j < k ==> SN.Numbered(gen.stem, names, SN.Round(c, j), Failure(AlreadyExists))
        invariant 9 * k <= |SN.UsersOf(gen.stem, names, c, k)|
        decreases SN.CHECKSUMS - k
      {
        assert k < SN.CHECKSUMS by {
          ListingFits(S());
          SN.FewUsers(gen.stem, names, c, k);
        }
        var found := FindEntry(same, isDir, gen);
        if found.Success? {
          return Success(Existing(found.value));
        }
        if found.error != NotFound {
          return Failure(found.error);
        }
        assert gen.seen == names;
        var short := gen.Generate();
        if short.Success? {
          gen.ChoiceIsNew();
          assert !SN.Is83(name) || gen.exactMatch ==> SN.FoundInRound(gen.stem, names, c, k, short.value);
          return Success(NewName(short.value));
        }
        gen.NoChoiceLeft();
        SN.OneMoreFailure(gen.stem, names, c, k);
        SN.NextRound(c, k);
        gen.NextIteration();
        k := k + 1;
      }
    }

    /** Opens the entry if it exists, else adds it under a short name that no other entry has. Where that
        unveils no old entries, short names stay pairwise different. */
    method CreateEntry(name: seq<char>, same: Entry -> bool, isDir: Option<bool>, template: FileData)
      returns (r: Result<Entry>)
      requires Valid() && |S()| < 9 * SN.CHECKSUMS && !template.IsVolume()
      requires SN.Sliceable(name)
      modifies this
      ensures Valid()
      ensures CreateOutcome(old(Reach()), Reach(), home.FixedRoot?, name, same, isDir, template, r)
      ensures old(Tidy(S())) && !home.Fat32Root? ==> Tidy(S())
      ensures old(Distinct(ShortNames(List())) && WritesQuietly(Reach(), name, true)) ==> Distinct(ShortNames(List()))
    {
      hide Listing, Slots, Found, NewShortName, Distinct, WriteOutcome, Ahead, WritesQuietly, Tidy;
      var found := CheckForExistence(name, same, isDir);
      if found.Failure? {
        return Failure(found.error);
      }
      if found.value.Existing? {
        return Success(found.value.entry);
      }
      var data := template.(name := found.value.shortName);
      ghost var d, taken := Reach(), ShortNames(List());
      NewNameIsShowable(name, taken, data);
      if !home.Fat32Root? { ComesClean(); }
      r := WriteEntry(name, data);
      if Tidy(d.S()) && d.Clean() { ClearedStaysTidy(d, Reach(), home.FixedRoot?, name, data, r); }
      if WritesQuietly(d, name, true) { StillDistinct(d, Reach(), home.FixedRoot?, name, taken, data, r); }
    }

    /** Removes an entry and frees its clusters, unless it is a directory with entries. */
    method Remove(same: Entry -> bool, isEmpty: Entry -> bool, fs: Volume, fat32: bool) returns (error: Option<Error>)
      requires Valid()
      requires fs.Valid() && forall e :: e in List() ==> Backed(e, fat32, fs.chains)
      modifies this, fs, fs.fat, fs.fat.data
      ensures Valid() && (Tidy(S()) <==> old(Tidy(S())))
      ensures RemoveOutcome(old(Reach()), Reach(), same, isEmpty, error)
      ensures RemovesFirst(old(List()), same, isEmpty, error)
      ensures error.Some? ==> Reach() == old(Reach()) && fs.chains == old(fs.chains)
      ensures Distinct(ShortNames(old(List()))) ==> Distinct(ShortNames(List()))
      ensures fs.Valid() && fs.disk == old(fs.disk) && (old(fs.Counted()) ==> fs.Counted())
      ensures var n := if error.None? then Found(old(List()), same, None).value.data.FirstCluster(fat32) else None;
        ClustersFreed(n, old(fs.chains), fs.chains,
                      FatHeap.FreeSet(old(fs.fat.Map())), FatHeap.FreeSet(fs.fat.Map()))
    {
      hide Listing, Slots, Tidy, Distinct, Volume.Valid, FatHeap.FreeSet, Ahead, FindsFirst, RemovesFirst;
      ghost var d := Reach();
      var e := FindEntry(same, None, null);
      if e.Failure? {
        RemovalIsFirst(d, d, same, isEmpty, Some(e.error));
        return Some(e.error);
      }
      if e.value.data.IsDir() && !isEmpty(e.value) {
        RemovalIsFirst(d, d, same, isEmpty, Some(DirectoryIsNotEmpty));
        return Some(DirectoryIsNotEmpty);
      }
      ghost var l, i := List(), FirstSame(List(), same);
      assert Backed(e.value, fat32, fs.chains);
      var n := e.value.data.FirstCluster(fat32);
      if n.Some? {
        ghost var ch :| ch in fs.chains && StartsAt(ch, n.value);
        fs.FreeClusterChain(n.value, ch);
      }
      Erase(e.value, i);
      RemovedNames(l, List(), i);
      RemovalIsFirst(d, Reach(), same, isEmpty, None);
      error := None;
    }

    /** Renames an entry, into another directory or not. The old entry goes before the new one is
        written: if that fails it is lost. */
    method Rename(same: Entry -> bool, dst: Dir, name: seq<char>, sameName: Entry -> bool) returns (r: Result<Entry>)
      requires Valid() && dst.Valid() && |dst.S()| < 9 * SN.CHECKSUMS
      requires SN.Sliceable(name)
      modifies this, dst
      ensures Valid() && dst.Valid()
      ensures RenameOutcome(old(Reach()), Reach(), old(dst.Reach()), dst.Reach(), dst == this,
                            dst.home.FixedRoot?, same, name, sameName, r)
      ensures dst != this ==> (Tidy(S()) <==> old(Tidy(S())))
      ensures old(Tidy(dst.S())) && !dst.home.Fat32Root? ==> Tidy(dst.S())
      ensures dst != this && Distinct(ShortNames(old(List()))) ==> Distinct(ShortNames(List()))
      ensures
        Distinct(ShortNames(old(dst.List())))
        && (old(RenameStarts(S(), dst.S(), same, sameName)) ==>
              WritesQuietly(Target(old(Reach()), old(dst.Reach()), dst == this, same), name, true))
        ==> Distinct(ShortNames(dst.List()))
    {
      hide Listing, Slots, NewShortName, Distinct, WriteOutcome, TakenOff, Span, EraseSlots, Ahead, WritesQuietly, Tidy;
      var e := FindEntry(same, None, null);
      if e.Failure? {
        return Failure(e.error);
      }
      var found := dst.CheckForExistence(name, sameName, None);
      if found.value.Existing? {
        return if dst == this && found.value.entry.end == e.value.end then Success(e.value) else Failure(AlreadyExists);
      }
      ghost var l0, i, taken := List(), FirstSame(List(), same), ShortNames(dst.List());
      var data := e.value.data.(name := found.value.shortName);
      ListedAreFiles(S(), i);
      NewNameIsShowable(name, taken, data);
      Erase(e.value, i);
      ghost var d := dst.Reach();
      RemovedNames(l0, List(), i);
      if !dst.home.Fat32Root? { dst.ComesClean(); }
      r := dst.WriteEntry(name, data);
      if Tidy(d.S()) && d.Clean() { ClearedStaysTidy(d, dst.Reach(), dst.home.FixedRoot?, name, data, r); }
      if WritesQuietly(d, name, true) { StillDistinct(d, dst.Reach(), dst.home.FixedRoot?, name, taken, data, r); }
      assert WrittenAsNew(d, dst.Reach(), dst.home.FixedRoot?, name, taken, e.value.data, r);
    }
  }

  lemma OneShortEntry(raw: FileData)
    requires Showable(raw)
    ensures Listing([File(raw)], true) == [Entry(raw, [], 0, 1)]
  {
    OneName([File(raw)], 0, Start(0), raw, true);
    assert Entries([File(raw)], 1, Start(1), true) == [];
  }

  lemma OneSlot(s: Slot)
    requires s.Valid()
    ensures Slots(Serialize(s)) == [s]
  {
    ReadsBack(s);
    var b := Serialize(s);
    assert b[32 * 0..32 * 0 + 32] == b;
  }

  method OneEntryDir() returns (dir: Dir)
    ensures dir.Valid() && fresh(dir) && dir.home == FixedRoot
    ensures dir.S() == [File(Plain(0x41))] && dir.List() == [Entry(Plain(0x41), [], 0, 1)]
  {
    var slot := File(Plain(0x41));
    OneSlot(slot);
    OneShortEntry(slot.file);
    hide Listing, Slots, Serialize;
    dir := new Dir(Serialize(slot), 1, [], FixedRoot);
  }

  /** A directory with one entry, whose name is an 8.3 name, and a rename to a name that is not valid. */
  method RenameLoses() returns (dir: Dir, r: Result<Entry>, ghost before: seq<Entry>)
    ensures dir.Valid() && |before| == 1 && before[0].longName == []
    ensures r == Failure(UnsupportedFileNameCharacter) && dir.List() == []
  {
    hide Listing, Slots, Ahead, FirstPlace, RenameOutcome, Extent.Unveils, Extent.Erase, WritesQuietly, Distinct, Tidy,
      Plain;
    dir := OneEntryDir();
    before := dir.List();
    ghost var d := dir.Reach();
    var any, none := (e: Entry) => true, (e: Entry) => false;
    assert Found(before, any, None).Success? && Found(before, none, None).Failure?;
    r := dir.Rename(any, dir, "*", none);
    assert !ValidChar("*"[0]) && !ValidName("*");
    RenameKeepsExactly(d, dir.Reach(), d, dir.Reach(), true, true, any, "*", none, r);
  }

  ghost predicate StartsAt(ch: seq<nat>, n: nat) {
    ch != [] && ch[0] == n
  }

  /** The first cluster of the entry, if it has one, starts a chain. */
  ghost predicate Backed(e: Entry, fat32: bool, chains: set<seq<nat>>) {
    var n := e.data.FirstCluster(fat32);
    n.Some? ==> exists ch :: ch in chains && StartsAt(ch, n.value)
  }

  /** The chain that starts at `n`, if any, has gone, and its clusters are free. */
  ghost predicate ClustersFreed(
    n: Option<nat>, chains: set<seq<nat>>, chains': set<seq<nat>>, free: set<nat>, free': set<nat>)
  {
    if n.None? then chains' == chains && free' == free
    else
      exists ch ::
        ch in chains && StartsAt(ch, n.value) && chains' == chains - {ch} && free' == free + Elements(ch)
  }

  lemma EraseNothing(d: Extent, b: nat)
    requires d.Valid()
    ensures d.Erase(b, b) == d
  {
    assert EraseSlots(d.all, b, b) == d.all;
  }

  lemma EraseMore(d: Extent, b: nat, k: nat)
    requires d.Valid() && b <= k < d.len
    ensures k < d.Erase(b, k).len && d.Erase(b, k).S()[k] == d.all[k]
    ensures d.Erase(b, k).Put(k, [d.all[k].SetDeleted()]) == d.Erase(b, k + 1)
  {
    assert Splice(EraseSlots(d.all, b, k), k, [d.all[k].SetDeleted()]) == EraseSlots(d.all, b, k + 1);
  }

  lemma ListingFromStart(slots: seq<Slot>)
    ensures Listing(slots, true) == Entries(slots, 0, Start(0), true)
  {
  }

  lemma ListingFits(slots: seq<Slot>)
    ensures |Listing(slots, true)| <= |slots|
  {
    EntriesFitSlots(slots, 0, Start(0), true);
  }

  /** Iterates over the entries of a directory. */
  class DirIter {
    const dir: Dir
    const skipVolume: bool
    var pos: nat

    constructor (dir: Dir, skipVolume: bool)
      ensures this.dir == dir && this.skipVolume == skipVolume && pos == 0
    {
      this.dir, this.skipVolume, pos := dir, skipVolume, 0;
    }

    method ReadDirEntry() returns (r: Option<Entry>)
      requires dir.Valid() && pos <= |dir.S()|
      modifies this
      ensures pos <= |dir.S()|
      ensures var rest := Entries(dir.S(), old(pos), Start(old(pos)), skipVolume);
        if r.None? then rest == []
        else old(pos) < pos && rest == [r.value] + Entries(dir.S(), pos, Start(pos), skipVolume)
    {
      hide Slots, Builder.Process, AllClusters, Listing;
      var builder := new LongNameBuilder();
      var offset: nat, begin: nat := pos, pos;
      while true
        invariant fresh(builder) && builder.State().Valid() && begin <= offset <= |dir.S()| && pos == old(pos) <= offset
        invariant Entries(dir.S(), pos, Start(pos), skipVolume) ==
                  Entries(dir.S(), offset, Cursor(builder.State(), begin), skipVolume)
        decreases |dir.S()| - offset
      {
        var s := dir.ReadSlot(offset);
        if s.IsEnd() {
          pos := Min(offset + 1, |dir.S()|);
          return None;
        }
        offset := offset + 1;
        if Skipped(s, skipVolume) {
          builder.Clear();
          begin := offset;
          continue;
        }
        match s
        case File(data) =>
          builder.ValidateChksum(data.name);
          var name := builder.IntoBuf();
          pos := offset;
          return Some(Entry(data, name, begin, offset));
        case Lfn(data) =>
          builder.Process(data);
      }
    }
  }

  lemma ValidSlots(bytes: seq<byte>, k: nat)
    requires |bytes| % 32 == 0 && k < |Slots(bytes)|
    ensures Slots(bytes)[k].Valid()
  {
  }
}
