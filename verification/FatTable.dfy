/** The allocation table as a byte stream, updated in place. */
module FatTable {
  import opened Prelude
  import opened FatCodec
  import opened FatHeap

  class Table {
    const fatType: FatType
    const data: array<byte>
    /** One past the last cluster number. */
    const end: nat
    var pos: nat

    constructor (fatType: FatType, data: array<byte>, end: nat)
      requires Holds(fatType, data[..], end) && end > RESERVED_FAT_ENTRIES
      ensures Valid() && this.fatType == fatType && this.data == data && this.end == end
    {
      this.fatType, this.data, this.end, this.pos := fatType, data, end, 0;
    }

    ghost predicate Valid()
      reads this, data
    {
      end > RESERVED_FAT_ENTRIES && Holds(fatType, data[..], end)
    }

    /** What the bytes mean: the value of every entry. */
    ghost function Map(): (fat: Fat)
      requires Valid()
      reads this, data
      ensures |fat| == end
    {
      Entries(fatType, data[..], end)
    }

    method Seek(p: nat)
      modifies this`pos
      ensures pos == p
    {
      pos := p;
    }

    method ReadU8() returns (b: byte)
      requires pos < data.Length
      modifies this`pos
      ensures b == data[old(pos)] && pos == old(pos) + 1
    {
      b := data[pos];
      pos := pos + 1;
    }

    method ReadU16Le() returns (w: nat)
      requires pos + 2 <= data.Length
      modifies this`pos
      ensures w == Le16(data[..], old(pos)) && pos == old(pos) + 2
    {
      w := data[pos] as int + 0x100 * data[pos + 1] as int;
      pos := pos + 2;
    }

    method ReadU32Le() returns (w: nat)
      requires pos + 4 <= data.Length
      modifies this`pos
      ensures w == Le32(data[..], old(pos)) && pos == old(pos) + 4
    {
      w := data[pos] as int + 0x100 * data[pos + 1] as int
        + 0x1_0000 * data[pos + 2] as int + 0x100_0000 * data[pos + 3] as int;
      pos := pos + 4;
    }

    method WriteAll(d: seq<byte>)
      requires pos + |d| <= data.Length
      modifies this`pos, data
      ensures data[..] == Splice(old(data[..]), old(pos), d) && pos == old(pos) + |d|
    {
      for i := 0 to |d|
        invariant pos == old(pos)
        invariant forall k :: 0 <= k < data.Length ==>
          data[k] == if pos <= k < pos + i then d[k - pos] else old(data[..])[k]
      {
        data[pos + i] := d[i];
      }
      pos := pos + |d|;
    }

    method ReadWord() returns (w: nat)
      requires pos + Width(fatType) <= data.Length
      modifies this`pos
      ensures w == if fatType.Fat32? then Le32(data[..], old(pos)) else Le16(data[..], old(pos))
      ensures pos == old(pos) + Width(fatType)
    {
      if fatType.Fat32? { w := ReadU32Le(); } else { w := ReadU16Le(); }
    }

    method GetRaw(c: nat) returns (raw: nat)
      requires Valid() && c < end
      modifies this`pos
      ensures Valid() && Offset(fatType, c) + Width(fatType) <= data.Length
      ensures raw == Raw(fatType, data[..], c)
    {
      HoldsBelow(fatType, data[..], end, c);
      Seek(Offset(fatType, c));
      var w := ReadWord();
      raw := Unpack(fatType, c, w);
    }

    method Get(c: nat) returns (v: FatValue)
      requires Valid() && c < end
      modifies this`pos
      ensures Valid() && v == Map()[c]
      ensures Offset(fatType, c) + Width(fatType) <= data.Length
      ensures v == Meaning(fatType, c, RawAt(fatType, data[..], c))
    {
      HoldsBelow(fatType, data[..], end, c);
      FormatIsExact(fatType, data[..], c, Free);
      var raw := GetRaw(c);
      v := Decode(fatType, c, raw);
    }

    /** Stores one entry: in the map, exactly entry `c` changes. */
    method Set(c: nat, v: FatValue)
      requires Valid() && c < end && Storable(fatType, v)
      modifies this`pos, data
      ensures Valid() && Map() == old(Map())[c := v]
      ensures Offset(fatType, c) + Width(fatType) <= data.Length
      ensures RawAt(fatType, data[..], c) == Stored(fatType, v)
      ensures data[..] == Put(fatType, old(data[..]), c, Encode(fatType, v))
    {
      PutEntries(fatType, data[..], end, c, v);
      PutRaw(fatType, data[..], c, c, Encode(fatType, v));
      FormatIsExact(fatType, Put(fatType, data[..], c, Encode(fatType, v)), c, v);
      Seek(Offset(fatType, c));
      var w := ReadWord();
      var word := Repack(fatType, c, w, Encode(fatType, v));
      Seek(Offset(fatType, c));
      WriteAll(Bytes(word, Width(fatType)));
    }

    /** Advances the FAT12 window to entry `cluster` from the entry before it. */
    method Slide(cluster: nat, packed: nat) returns (w: nat)
      requires 0 < cluster && Offset(Fat12, cluster) + 2 <= data.Length
      requires Offset(Fat12, cluster - 1) + 2 <= data.Length
      requires packed == Word(Fat12, data[..], cluster - 1) && pos == Offset(Fat12, cluster - 1) + 2
      modifies this`pos
      ensures w == Word(Fat12, data[..], cluster) && pos == Offset(Fat12, cluster) + 2
    {
      OffsetStep(cluster - 1);
      if cluster % 2 == 0 {
        w := ReadU16Le();
      } else {
        SlideWindow(data[..], cluster - 1);
        var next := ReadU8();
        w := packed / 0x100 + 0x100 * next as int;
      }
    }

    /** The FAT12 scan keeps a sliding 16-bit window and reads one or two bytes per entry. */
    method FindFree12(start: nat, stop: nat) returns (r: Option<nat>)
      requires Valid() && fatType.Fat12? && start < stop <= end
      modifies this`pos
      ensures Valid() && r == FirstFree(Map(), start, stop)
    {
      ghost var s, fat := data[..], Map();
      var cluster := start;
      HoldsBelow(Fat12, s, end, cluster);
      Seek(Offset(Fat12, cluster));
      var packed := ReadU16Le();
      while true
        invariant start <= cluster < stop && data[..] == s
        invariant Offset(Fat12, cluster) + 2 <= |s|
        invariant packed == Word(Fat12, s, cluster) && pos == Offset(Fat12, cluster) + 2
        invariant FirstFree(fat, start, stop) == FirstFree(fat, cluster, stop)
        decreases stop - cluster
      {
        var val := Unpack(Fat12, cluster, packed);
        ZeroIsFree(Fat12, cluster, s, end);
        if val == 0 {
          return Some(cluster);
        }
        cluster := cluster + 1;
        if cluster == stop {
          return None;
        }
        HoldsBelow(Fat12, s, end, cluster);
        packed := Slide(cluster, packed);
      }
    }

    /** The FAT16 and FAT32 scan: one word per entry. */
    method FindFreeWide(start: nat, stop: nat) returns (r: Option<nat>)
      requires Valid() && !fatType.Fat12? && start <= stop <= end
      modifies this`pos
      ensures Valid() && r == FirstFree(Map(), start, stop)
    {
      ghost var s, fat := data[..], Map();
      var cluster := start;
      Seek(Offset(fatType, cluster));
      while cluster < stop
        invariant start <= cluster <= stop && data[..] == s
        invariant pos == Offset(fatType, cluster)
        invariant FirstFree(fat, start, stop) == FirstFree(fat, cluster, stop)
      {
        HoldsBelow(fatType, s, end, cluster);
        ZeroIsFree(fatType, cluster, s, end);
        var w := ReadWord();
        if Unpack(fatType, cluster, w) == 0 {
          return Some(cluster);
        }
        cluster := cluster + 1;
      }
      r := None;
    }

    method FindFree(start: nat, stop: nat) returns (r: Option<nat>)
      requires Valid() && start < stop <= end
      modifies this`pos
      ensures Valid() && r == FirstFree(Map(), start, stop)
    {
      if fatType.Fat12? { r := FindFree12(start, stop); } else { r := FindFreeWide(start, stop); }
    }

    /** Reads the next FAT12 entry of a count: the raw bytes read and a number that is zero exactly
        when the entry is. */
    method ScanStep12(cluster: nat, prev: nat) returns (packed: nat, val: nat)
      requires Offset(Fat12, cluster) + 2 <= data.Length
      requires pos == Offset(Fat12, cluster) + cluster % 2
      requires cluster % 2 == 1 ==>
        Offset(Fat12, cluster - 1) + 2 <= data.Length && prev == Le16(data[..], Offset(Fat12, cluster - 1))
      modifies this`pos
      ensures val == 0 <==> Raw(Fat12, data[..], cluster) == 0
      ensures cluster % 2 == 0 ==> packed == Le16(data[..], Offset(Fat12, cluster))
      ensures pos == Offset(Fat12, cluster) + 2
    {
      if cluster % 2 == 0 {
        packed := ReadU16Le();
        val := packed % 0x1000;
      } else {
        OffsetStep(cluster - 1);
        OddEntryZero(data[..], cluster);
        packed := ReadU8();
        val := packed * 0x100 + prev / 0x1000;
      }
    }

    /** The FAT12 count reads two bytes for an even entry and one for an odd one, and for the odd one
        combines that byte with the previous word's top nibble: zero exactly when the entry is. */
    method CountFree12() returns (count: nat)
      requires Valid() && fatType.Fat12?
      modifies this`pos
      ensures Valid() && count == |FreeSet(Map())|
    {
      ghost var s, fat := data[..], Map();
      var cluster := RESERVED_FAT_ENTRIES;
      Seek(cluster * 3 / 2);
      var prev := 0;
      count := 0;
      while cluster < end
        invariant RESERVED_FAT_ENTRIES <= cluster <= end && data[..] == s
        invariant pos == Offset(Fat12, cluster) + cluster % 2
        invariant cluster % 2 == 1 ==>
          Offset(Fat12, cluster - 1) + 2 <= |s| && prev == Le16(s, Offset(Fat12, cluster - 1))
        invariant count == |FreeBelow(fat, cluster)|
      {
        HoldsBelow(Fat12, s, end, cluster);
        ZeroIsFree(Fat12, cluster, s, end);
        OffsetStep(cluster);
        FreeBelowStep(fat, cluster);
        var packed, val := ScanStep12(cluster, prev);
        prev := packed;
        if val == 0 {
          count := count + 1;
        }
        cluster := cluster + 1;
      }
      assert FreeBelow(fat, end) == FreeSet(fat);
    }

    method CountFreeWide() returns (count: nat)
      requires Valid() && !fatType.Fat12?
      modifies this`pos
      ensures Valid() && count == |FreeSet(Map())|
    {
      ghost var s, fat := data[..], Map();
      var cluster := RESERVED_FAT_ENTRIES;
      Seek(Offset(fatType, cluster));
      count := 0;
      while cluster < end
        invariant RESERVED_FAT_ENTRIES <= cluster <= end && data[..] == s
        invariant pos == Offset(fatType, cluster)
        invariant count == |FreeBelow(fat, cluster)|
      {
        HoldsBelow(fatType, s, end, cluster);
        ZeroIsFree(fatType, cluster, s, end);
        FreeBelowStep(fat, cluster);
        var w := ReadWord();
        if Unpack(fatType, cluster, w) == 0 {
          count := count + 1;
        }
        cluster := cluster + 1;
      }
      assert FreeBelow(fat, end) == FreeSet(fat);
    }

    method CountFree() returns (count: nat)
      requires Valid()
      modifies this`pos
      ensures Valid() && count == |FreeSet(Map())|
    {
      if fatType.Fat12? { count := CountFree12(); } else { count := CountFreeWide(); }
    }

    /** Takes the first free cluster from the hint (wrapping around once), marks it as an end of
        chain and links `prev` to it. Fails, changing nothing, exactly when no cluster is free. */
    method AllocCluster(prev: Option<nat>, hint: Option<nat>) returns (r: Result<nat>)
      requires Valid() && (prev.Some? ==> prev.value < end)
      requires Map()[0] != Free && Map()[1] != Free
      modifies this`pos, data
      ensures Valid()
      ensures r.Success? ==> Takes(old(Map()), hint, r.value)
      ensures r.Success? ==> var fat := old(Map())[r.value := EndOfChain];
        Map() == if prev.Some? then fat[prev.value := Data(r.value)] else fat
      ensures r.Failure? ==> r.error == NotEnoughSpace && Map() == old(Map())
      ensures r.Failure? ==> forall c :: 2 <= c < end ==> Map()[c] != Free
      ensures r == match Pick(old(Map()), hint) case Some(c) => Success(c) case None => Failure(NotEnoughSpace)
      ensures Map() == AllocIn(old(Map()), prev, hint)
    {
      hide RawAt, Stored, Put, Encode, Entries, LeastFree, FreeSet, FirstFree;
      PickIsComplete(Map(), hint);
      PickIsLeast(Map(), hint);
      var start := StartCluster(hint, end);
      var found := FindFree(start, end);
      if found.None? && start > RESERVED_FAT_ENTRIES {
        found := FindFree(RESERVED_FAT_ENTRIES, start);
      }
      if found.None? {
        return Failure(NotEnoughSpace);
      }
      Set(found.value, EndOfChain);
      if prev.Some? {
        Set(prev.value, Data(found.value));
      }
      r := Success(found.value);
    }
  }

  lemma OffsetStep(c: nat)
    ensures Offset(Fat12, c + 1) == Offset(Fat12, c) + if c % 2 == 0 then 1 else 2
    ensures (c + 1) % 2 == 1 - c % 2
  {
  }

  /** From an even FAT12 entry to the odd one after it the window moves by one byte. */
  lemma SlideWindow(s: seq<byte>, c: nat)
    requires c % 2 == 0 && Offset(Fat12, c) + 3 <= |s|
    ensures Offset(Fat12, c + 1) == Offset(Fat12, c) + 1
    ensures Word(Fat12, s, c + 1) == Word(Fat12, s, c) / 0x100 + 0x100 * s[Offset(Fat12, c) + 2] as int
  {
  }

  /** What the FAT12 count computes for an odd entry is zero exactly when the entry is. */
  lemma OddEntryZero(s: seq<byte>, c: nat)
    requires c % 2 == 1 && Offset(Fat12, c) + 2 <= |s|
    ensures Offset(Fat12, c - 1) + 3 <= |s|
    ensures s[Offset(Fat12, c - 1) + 2] as int * 0x100 + Le16(s, Offset(Fat12, c - 1)) / 0x1000 == 0
      <==> Raw(Fat12, s, c) == 0
  {
    var o := Offset(Fat12, c);
    assert Offset(Fat12, c - 1) == o - 1;
    OddParts(s[o], s[o + 1]);
  }

  /** A scan sees zero in an entry exactly when the entry is free. */
  lemma ZeroIsFree(ft: FatType, c: nat, s: seq<byte>, n: nat)
    requires Holds(ft, s, n) && c < n
    ensures Offset(ft, c) + Width(ft) <= |s|
    ensures Raw(ft, s, c) == 0 <==> Entries(ft, s, n)[c] == Free
  {
    HoldsBelow(ft, s, n, c);
  }

  ghost function FreeBelow(fat: Fat, n: nat): set<nat>
    requires n <= |fat|
  {
    set c: nat | RESERVED_FAT_ENTRIES <= c < n && fat[c] == Free
  }

  lemma FreeBelowStep(fat: Fat, c: nat)
    requires RESERVED_FAT_ENTRIES <= c < |fat|
    ensures |FreeBelow(fat, c + 1)| == |FreeBelow(fat, c)| + if fat[c] == Free then 1 else 0
  {
    if fat[c] == Free {
      assert FreeBelow(fat, c + 1) == FreeBelow(fat, c) + {c};
    } else {
      assert FreeBelow(fat, c + 1) == FreeBelow(fat, c);
    }
  }

  /** A position on a cluster chain. */
  class ClusterIterator {
    const fat: Table
    var cluster: Option<nat>

    constructor (fat: Table, cluster: nat)
      ensures this.fat == fat && this.cluster == Some(cluster)
    {
      this.fat, this.cluster := fat, Some(cluster);
    }

    ghost predicate Valid()
      reads this, fat, fat.data
    {
      fat.Valid() && LinksInRange(fat.Map()) && (cluster.Some? ==> IsCluster(fat.Map(), cluster.value))
    }

    /** Moves to the cluster that the current one links to, and returns it. */
    method Next() returns (r: Option<nat>)
      requires Valid()
      modifies this, fat`pos
      ensures Valid() && r == cluster && fat.Map() == old(fat.Map())
      ensures cluster == if old(cluster).Some? then FatHeap.Next(fat.Map()[old(cluster).value]) else None
    {
      if cluster.Some? {
        var val := fat.Get(cluster.value);
        cluster := FatHeap.Next(val);
      }
      r := cluster;
    }

    /** Marks every cluster of the walk free and counts the marks. Terminates on every table whose
        links are in range: a pass over a linking entry removes that link. */
    method Free() returns (numFree: nat)
      requires Valid()
      modifies this, fat`pos, fat.data
      ensures Valid() && cluster.None?
      ensures fat.Map() == ReleaseFrom(old(fat.Map()), old(cluster))
      ensures numFree == |Trail(old(fat.Map()), old(cluster))|
    {
      hide RawAt, Stored, Put, Encode, Entries, Holds;
      numFree := 0;
      while cluster.Some?
        invariant Valid()
        invariant ReleaseFrom(fat.Map(), cluster) == ReleaseFrom(old(fat.Map()), old(cluster))
        invariant numFree + |Trail(fat.Map(), cluster)| == |Trail(old(fat.Map()), old(cluster))|
        decreases DataSet(fat.Map()), cluster.Some?
      {
        var n := cluster.value;
        ReleaseStep(fat.Map(), n);
        DataSetShrinks(fat.Map(), n);
        var _ := Next();
        fat.Set(n, FatValue.Free);
        numFree := numFree + 1;
      }
    }

    /** Marks the current cluster as the end of its chain and frees the rest. */
    method Truncate() returns (numFree: nat)
      requires Valid()
      modifies this, fat`pos, fat.data
      ensures Valid() && cluster.None?
      ensures old(cluster).None? ==> numFree == 0 && fat.Map() == old(fat.Map())
      ensures old(cluster).Some? ==> var n := old(cluster).value; var was := old(fat.Map());
        && fat.Map() == TruncateAt(was, n)
        && numFree == |Trail(was[n := EndOfChain], FatHeap.Next(was[n]))|
    {
      if cluster.Some? {
        var n := cluster.value;
        var _ := Next();
        fat.Set(n, EndOfChain);
        numFree := Free();
      } else {
        numFree := 0;
      }
    }
  }
}
