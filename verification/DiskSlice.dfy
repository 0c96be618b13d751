/** The window on the disk through which a file allocation table is read and written: every write goes
    to all copies of the table. */
module DiskSlice {
  import opened Prelude
  import opened Blocks

  datatype StatusFlags = StatusFlags(dirty: bool, ioError: bool)
  {
    function Encode(): byte {
      (if dirty then 1 else 0) + (if ioError then 2 else 0)
    }
  }

  function Decode(b: byte): StatusFlags {
    StatusFlags(Bit(b, 0), Bit(b, 1))
  }

  /** The status byte reads back: the dirty flag is bit 0, the error flag bit 1, and no other bit is set. */
  lemma FlagsReadBack(f: StatusFlags)
    ensures Decode(f.Encode()) == f && f.Encode() < 4
  {
    assert Bit(f.Encode(), 1) == Bit(f.Encode() / 2, 0);
  }

  /** The disk as the file system writes to it: the first write since mounting also marks the volume as
      dirty in the boot sector, which moves the disk position. */
  class Adapter {
    var data: seq<byte>
    var pos: nat
    const statusAt: nat  // 0x41 on FAT32, else 0x25
    const most: nat      // bytes that one write of the disk takes, at most
    const mounted: StatusFlags
    var current: StatusFlags

    predicate Valid()
      reads this
    {
      statusAt < |data| && most > 0
    }

    /** The next write will change the flags. */
    predicate Changes()
      reads this
    {
      current != mounted.(dirty := true)
    }

    /** The status byte that the next write stores, if it does. */
    function NewStatus(): Option<byte>
      reads this
    {
      if Changes() then Some(mounted.(dirty := true).Encode()) else None
    }

    constructor (data: seq<byte>, fat32: bool, mounted: StatusFlags, most: nat)
      requires |data| > 0x41 && most > 0
      ensures Valid() && this.data == data && statusAt == (if fat32 then 0x41 else 0x25)
      ensures this.mounted == mounted == current && this.most == most && pos == 0
    {
      this.data, this.mounted, current, this.most, pos := data, mounted, mounted, most, 0;
      statusAt := if fat32 then 0x41 else 0x25;
    }

    method Seek(p: nat)
      modifies this`pos
      ensures pos == p
    {
      pos := p;
    }

    method Read(n: nat) returns (b: seq<byte>)
      requires pos + n <= |data|
      modifies this`pos
      ensures b == data[old(pos)..old(pos) + n] && pos == old(pos) + n
    {
      b := data[pos..pos + n];
      pos := pos + n;
    }

    method SetDirtyFlag(dirty: bool)
      requires Valid()
      modifies this
      ensures Valid() && current == mounted.(dirty := mounted.dirty || dirty)
      ensures data == if current == old(current) then old(data) else old(data)[statusAt := current.Encode()]
      ensures pos == if current == old(current) then old(pos) else statusAt + 1
    {
      var flags := mounted.(dirty := mounted.dirty || dirty);
      if flags == current {
        return;
      }
      Seek(statusAt);
      data := data[pos := flags.Encode()];
      pos := pos + 1;
      current := flags;
    }

    /** Writes the first bytes, and marks the volume as dirty. */
    method Write(b: seq<byte>) returns (n: nat)
      requires Valid() && pos + |b| <= |data|
      modifies this
      ensures Valid() && n == Min(|b|, most)
      ensures n > 0 ==> !Changes() && NewStatus().None?
      ensures n == 0 ==> data == old(data) && pos == old(pos) && current == old(current)
      ensures n > 0 ==> data == Marked(Splice(old(data), old(pos), b[..n]), statusAt, old(NewStatus()))
      ensures n > 0 ==> pos == NextAt(old(pos), n, statusAt, old(NewStatus()))
    {
      n := Min(|b|, most);
      data := Splice(data, pos, b[..n]);
      pos := pos + n;
      if n > 0 {
        SetDirtyFlag(true);
      }
    }

    /** Writes until all is written. Where the first part has changed the flags, the others follow behind
        the status byte. */
    method WriteAll(b: seq<byte>)
      requires Valid() && pos + |b| <= |data| && statusAt + 1 + |b| <= |data|
      modifies this
      ensures Valid() && data == Landed(old(data), old(pos), b, most, statusAt, old(NewStatus()))
      ensures b != [] ==> !Changes()
      ensures b == [] ==> current == old(current)
    {
      ghost var all, status := Landed(data, pos, b, most, statusAt, NewStatus()), NewStatus();
      var rest := b;
      hide Splice, Landed, Marked, NextAt, Adapter.Changes, Adapter.NewStatus;
      while rest != []
        invariant Valid() && pos + |rest| <= |data| && statusAt + 1 + |rest| <= |data| && status == NewStatus()
        invariant Landed(data, pos, rest, most, statusAt, status) == all
        invariant if rest == b then current == old(current) else !Changes()
        decreases |rest|
      {
        LandedStep(data, pos, rest, most, statusAt, status);
        var n := Write(rest);
        rest, status := rest[n..], None;
      }
      NothingLanded(data, pos, most, statusAt, status);
    }
  }

  function Marked(d: seq<byte>, statusAt: nat, status: Option<byte>): (r: seq<byte>)
    requires statusAt < |d|
    ensures |r| == |d|
  {
    if status.None? then d else d[statusAt := status.value]
  }

  /** Where the disk stands after a part of `n` bytes. */
  function NextAt(pos: nat, n: nat, statusAt: nat, status: Option<byte>): nat {
    if status.None? then pos + n else statusAt + 1
  }

  lemma SpliceOn<T>(d: seq<T>, p: nat, a: seq<T>, c: seq<T>)
    requires p + |a| + |c| <= |d|
    ensures Splice(Splice(d, p, a), p + |a|, c) == Splice(d, p, a + c)
  {
  }

  /** The disk `d` after `b` has been written at `pos` in parts of up to `most` bytes, the first of which
      may change the status byte. */
  function Landed(d: seq<byte>, pos: nat, b: seq<byte>, most: nat, statusAt: nat, status: Option<byte>): (r: seq<byte>)
    requires pos + |b| <= |d| && statusAt + 1 + |b| <= |d|
    ensures |r| == |d|
  {
    if b == [] then d
    else
      var n := Min(|b|, most);
      Splice(Marked(Splice(d, pos, b[..n]), statusAt, status), NextAt(pos, n, statusAt, status), b[n..])
  }

  lemma NothingLanded(d: seq<byte>, pos: nat, most: nat, statusAt: nat, status: Option<byte>)
    requires pos <= |d| && statusAt < |d|
    ensures Landed(d, pos, [], most, statusAt, status) == d
  {
  }

  /** After the first part the rest is written as if on its own, to a volume that is marked. */
  lemma LandedStep(d: seq<byte>, pos: nat, b: seq<byte>, most: nat, statusAt: nat, status: Option<byte>)
    requires b != [] && most > 0 && pos + |b| <= |d| && statusAt + 1 + |b| <= |d|
    ensures NextAt(pos, Min(|b|, most), statusAt, status) + |b| - Min(|b|, most) <= |d|
    ensures var n := Min(|b|, most);
      Landed(Marked(Splice(d, pos, b[..n]), statusAt, status), NextAt(pos, n, statusAt, status), b[n..], most, statusAt,
             None)
      == Landed(d, pos, b, most, statusAt, status)
  {
    var n := Min(|b|, most);
    var d', pos', c := Marked(Splice(d, pos, b[..n]), statusAt, status), NextAt(pos, n, statusAt, status), b[n..];
    if c == [] {
      assert Splice(d', pos', c) == d';
    } else {
      var m := Min(|c|, most);
      SpliceOn(d', pos', c[..m], c[m..]);
      assert c[..m] + c[m..] == c;
    }
  }

  /** A write in parts that changes the flags, byte by byte: what is behind the first part ends up behind the
      status byte. */
  lemma Displaced(d: seq<byte>, pos: nat, b: seq<byte>, most: nat, statusAt: nat, v: byte, i: nat)
    requires statusAt + 1 + |b| <= pos && pos + |b| <= |d| && most < |b| && i < |d|
    ensures Landed(d, pos, b, most, statusAt, Some(v))[i] ==
      if i == statusAt then v
      else if statusAt < i <= statusAt + |b| - most then b[most + i - statusAt - 1]
      else if pos <= i < pos + most then b[i - pos]
      else d[i]
  {
    var first := Splice(d, pos, b[..most]);
    var marked := first[statusAt := v];
    assert Landed(d, pos, b, most, statusAt, Some(v)) == Splice(marked, statusAt + 1, b[most..]);
    hide Splice, Landed;
    assert marked[i] == if i == statusAt then v else first[i];
  }

  /** `w` stands in `d` from `at` on. */
  predicate Stands<T(==)>(d: seq<T>, at: nat, w: seq<T>)
    requires at + |w| <= |d|
  {
    forall i :: 0 <= i < |w| ==> d[at + i] == w[i]
  }

  lemma OnePieceLands(d: seq<byte>, pos: nat, b: seq<byte>, most: nat, statusAt: nat, status: Option<byte>)
    requires pos + |b| <= |d| && statusAt + 1 + |b| <= |d| && (status.None? || |b| <= most)
    ensures SameButStatus(Splice(d, pos, b), Landed(d, pos, b, most, statusAt, status), statusAt)
  {
    if b != [] {
      var n := Min(|b|, most);
      assert b[..n] + b[n..] == b;
      if status.None? {
        SpliceOn(d, pos, b[..n], b[n..]);
      }
    }
  }

  lemma StandsAt<T>(d: seq<T>, at: nat, w: seq<T>, i: nat)
    requires at + |w| <= |d| && Stands(d, at, w) && at <= i < at + |w|
    ensures d[i] == w[i - at]
  {
    assert d[at + (i - at)] == w[i - at];
  }

  lemma DisplacedLandsOnly(d: seq<byte>, pos: nat, b: seq<byte>, most: nat, statusAt: nat, v: byte)
    requires statusAt + 1 + |b| <= pos && pos + |b| <= |d| && most < |b|
    requires SameButStatus(Splice(d, pos, b), Landed(d, pos, b, most, statusAt, Some(v)), statusAt)
    ensures Stands(d, pos + most, b[most..]) && Stands(d, statusAt + 1, b[most..])
  {
    hide Splice, Landed;
    forall i | 0 <= i < |b| - most ensures d[pos + most + i] == b[most..][i] && d[statusAt + 1 + i] == b[most..][i] {
      Displaced(d, pos, b, most, statusAt, v, pos + most + i);
      Displaced(d, pos, b, most, statusAt, v, statusAt + 1 + i);
    }
  }

  lemma DisplacedLandsAt(d: seq<byte>, pos: nat, b: seq<byte>, most: nat, statusAt: nat, v: byte, i: nat)
    requires statusAt + 1 + |b| <= pos && pos + |b| <= |d| && most < |b| && i < |d| && i != statusAt
    requires Stands(d, pos + most, b[most..]) && Stands(d, statusAt + 1, b[most..])
    ensures Landed(d, pos, b, most, statusAt, Some(v))[i] == Splice(d, pos, b)[i]
  {
    hide Splice, Landed, Stands;
    Displaced(d, pos, b, most, statusAt, v, i);
    if statusAt < i <= statusAt + |b| - most {
      StandsAt(d, statusAt + 1, b[most..], i);
    } else if pos + most <= i < pos + |b| {
      StandsAt(d, pos + most, b[most..], i);
    }
  }

  lemma DisplacedLands(d: seq<byte>, pos: nat, b: seq<byte>, most: nat, statusAt: nat, v: byte)
    requires statusAt + 1 + |b| <= pos && pos + |b| <= |d| && most < |b|
    requires Stands(d, pos + most, b[most..]) && Stands(d, statusAt + 1, b[most..])
    ensures SameButStatus(Splice(d, pos, b), Landed(d, pos, b, most, statusAt, Some(v)), statusAt)
  {
    var good, got := Splice(d, pos, b), Landed(d, pos, b, most, statusAt, Some(v));
    hide Splice, Landed, Stands;
    forall i: nat | i < |d| && i != statusAt ensures got[i] == good[i] {
      DisplacedLandsAt(d, pos, b, most, statusAt, v, i);
    }
  }

  /** A write lands where it should exactly when it is one piece, or the flags do not change any more, or
      what is displaced happens to be there already. */
  lemma LandsExactly(d: seq<byte>, pos: nat, b: seq<byte>, most: nat, statusAt: nat, status: Option<byte>)
    requires statusAt + 1 + |b| <= pos && pos + |b| <= |d|
    ensures SameButStatus(Splice(d, pos, b), Landed(d, pos, b, most, statusAt, status), statusAt) <==>
      || status.None? || |b| <= most
      || (Stands(d, pos + most, b[most..]) && Stands(d, statusAt + 1, b[most..]))
  {
    hide Splice, Landed, SameButStatus, Stands;
    if status.None? || |b| <= most {
      OnePieceLands(d, pos, b, most, statusAt, status);
    } else if Stands(d, pos + most, b[most..]) && Stands(d, statusAt + 1, b[most..]) {
      DisplacedLands(d, pos, b, most, statusAt, status.value);
    } else if SameButStatus(Splice(d, pos, b), Landed(d, pos, b, most, statusAt, status), statusAt) {
      DisplacedLandsOnly(d, pos, b, most, statusAt, status.value);
    }
  }

  /** Two bytes written at 3 to a disk that takes one at a time: the second ends up behind the status byte. */
  lemma ByteAstray()
    ensures Landed([0, 0, 0, 0, 0], 3, [5, 6], 1, 0, Some(1)) == [1, 6, 0, 5, 0]
  {
    assert Splice([0, 0, 0, 0, 0], 3, [5]) == [0, 0, 0, 5, 0];
    assert Splice([1, 0, 0, 5, 0], 1, [6]) == [1, 6, 0, 5, 0];
  }

  predicate SameButStatus(d: seq<byte>, d': seq<byte>, statusAt: nat) {
    |d'| == |d| && forall i :: 0 <= i < |d| && i != statusAt ==> d'[i] == d[i]
  }

  /** The copy number `i` of the table. */
  function CopyAt(d: seq<byte>, begin: nat, size: nat, i: nat): (c: seq<byte>)
    requires begin + Span(i + 1, size) <= |d|
    ensures |c| == size
  {
    d[begin + Span(i, size)..begin + Span(i + 1, size)]
  }

  /** The copies lie one after another. */
  lemma CopyPlace(d: seq<byte>, begin: nat, size: nat, n: nat, i: nat)
    requires i < n && begin + n * size <= |d|
    ensures begin + Span(n, size) <= |d| && begin + i * size + size <= |d|
    ensures OneOf(d, begin, size, n, i) == d[begin + i * size..begin + i * size + size]
  {
    SpanIsProduct(n, size);
    SpanIsProduct(i, size);
    SpanStep(i, n, size);
  }

  lemma SpanMonotone(a: nat, b: nat, size: nat)
    requires a <= b
    ensures Span(a, size) <= Span(b, size)
  {
    if a < b { SpanStep(a, b, size); }
  }

  /** Writing into copy `i` changes that copy and no other. */
  lemma SpliceCopy(d: seq<byte>, d': seq<byte>, begin: nat, size: nat, n: nat, i: nat, j: nat, o: nat, w: seq<byte>,
                   statusAt: nat)
    requires i < n && j < n && begin + Span(n, size) <= |d| && o + |w| <= size && statusAt < begin
    requires begin + Span(i + 1, size) <= |d|
    requires SameButStatus(Splice(d, begin + Span(i, size) + o, w), d', statusAt)
    ensures begin + Span(j + 1, size) <= |d|
    ensures CopyAt(d', begin, size, j) ==
      if j == i then Splice(CopyAt(d, begin, size, j), o, w) else CopyAt(d, begin, size, j)
  {
    SpanMonotone(j + 1, n, size);
    if j < i { SpanMonotone(j + 1, i, size); }
    if i < j { SpanMonotone(i + 1, j, size); }
    var at, c := begin + Span(j, size), CopyAt(d, begin, size, j);
    forall k | 0 <= k < size
      ensures CopyAt(d', begin, size, j)[k] == (if j == i then Splice(c, o, w) else c)[k]
    {
      assert c[k] == d[at + k] && d'[at + k] == Splice(d, begin + Span(i, size) + o, w)[at + k];
    }
  }

  /** The same, of one of `n` copies. */
  ghost function OneOf(d: seq<byte>, begin: nat, size: nat, n: nat, i: nat): (c: seq<byte>)
    requires i < n && begin + Span(n, size) <= |d|
    ensures |c| == size
  {
    SpanMonotone(i + 1, n, size);
    CopyAt(d, begin, size, i)
  }

  /** The first `k` of `n` copies have got the bytes `w`, and nothing else has changed but the status byte. */
  ghost predicate Progress(d: seq<byte>, d': seq<byte>, begin: nat, size: nat, n: nat, k: nat, o: nat, w: seq<byte>,
                           statusAt: nat)
    requires begin + Span(n, size) <= |d| && o + |w| <= size
  {
    && Untouched(d, d', begin, begin + Span(n, size), statusAt)
    && forall i :: 0 <= i < n ==>
         OneOf(d', begin, size, n, i)
         == if i < k then Splice(OneOf(d, begin, size, n, i), o, w) else OneOf(d, begin, size, n, i)
  }

  lemma NoProgress(d: seq<byte>, begin: nat, size: nat, n: nat, o: nat, w: seq<byte>, statusAt: nat)
    requires begin + Span(n, size) <= |d| && o + |w| <= size
    ensures Progress(d, d, begin, size, n, 0, o, w, statusAt)
  {
  }

  lemma OneCopyMore(d: seq<byte>, d': seq<byte>, d'': seq<byte>, begin: nat, size: nat, n: nat, k: nat, o: nat,
                    w: seq<byte>, statusAt: nat)
    requires k < n && begin + Span(n, size) <= |d| && o + |w| <= size && statusAt < begin
    requires Progress(d, d', begin, size, n, k, o, w, statusAt)
    requires begin + Span(k, size) + o + |w| <= |d'|
    requires SameButStatus(Splice(d', begin + Span(k, size) + o, w), d'', statusAt)
    ensures Progress(d, d'', begin, size, n, k + 1, o, w, statusAt)
  {
    SpanMonotone(k + 1, n, size);
    assert Untouched(d, d'', begin, begin + Span(n, size), statusAt);
    hide CopyAt, Splice, SameButStatus, Untouched;
    forall i: nat | i < n
      ensures OneOf(d'', begin, size, n, i)
              == if i == k then Splice(OneOf(d', begin, size, n, i), o, w) else OneOf(d', begin, size, n, i)
    {
      SpliceCopy(d', d'', begin, size, n, k, i, o, w, statusAt);
    }
  }

  class Slice {
    const begin: nat
    const size: nat
    const mirrors: nat
    const inner: Adapter
    var offset: nat

    ghost predicate Valid()
      reads this, inner
    {
      && inner.Valid() && inner.statusAt < begin && 1 <= mirrors
      && begin + Span(mirrors, size) <= |inner.data| && size <= I64_MAX && offset <= size
    }

    /** The window starts behind the boot sector's status byte. */
    constructor (begin: nat, size: nat, mirrors: nat, inner: Adapter)
      requires inner.Valid() && inner.statusAt < begin && 1 <= mirrors && size <= I64_MAX
      requires begin + Span(mirrors, size) <= |inner.data|
      ensures Valid() && this.begin == begin && this.size == size && this.mirrors == mirrors
      ensures this.inner == inner && offset == 0
    {
      this.begin, this.size, this.mirrors, this.inner, offset := begin, size, mirrors, inner, 0;
    }

    ghost function Copy(i: nat): (c: seq<byte>)
      requires Valid() && i < mirrors
      reads this, inner
      ensures |c| == size
    {
      OneOf(inner.data, begin, size, mirrors, i)
    }

    /** A write of `n` bytes lands in one stretch: the flags do not change any more, or it is one piece. */
    predicate Lands(n: nat)
      reads inner
    {
      !inner.Changes() || n <= inner.most
    }

    /** All copies of the table are the same. */
    ghost predicate Mirrored()
      requires Valid()
      reads this, inner
    {
      forall i :: 0 <= i < mirrors ==> Copy(i) == Copy(0)
    }

    method Read(n: nat) returns (b: seq<byte>)
      requires Valid()
      modifies this`offset, inner`pos
      ensures Valid() && offset == old(offset) + |b| && |b| == Min(size - old(offset), n)
      ensures b == Copy(0)[old(offset)..offset]
    {
      SpanMonotone(1, mirrors, size);
      var readSize := Min(size - offset, n);
      inner.Seek(begin + offset);
      b := inner.Read(readSize);
      SliceOfSlice(inner.data, begin, begin + Span(1, size), offset, readSize);
      offset := offset + |b|;
    }

    /** Writes the same bytes into every copy and touches nothing outside them but the status byte, if they
        land in one stretch. */
    method Write(b: seq<byte>) returns (n: nat)
      requires Valid()
      modifies this`offset, inner
      ensures Valid() && n == Min(size - old(offset), |b|) && offset == old(offset) + n
      ensures n == 0 ==> inner.data == old(inner.data) && inner.current == old(inner.current)
      ensures n > 0 ==> !inner.Changes()
      ensures old(Lands(n)) ==>
        forall i :: 0 <= i < mirrors ==> Copy(i) == Splice(old(Copy(i)), old(offset), b[..n])
      ensures old(Lands(n)) ==> (old(Mirrored()) ==> Mirrored())
      ensures old(Lands(n)) ==>
        Untouched(old(inner.data), inner.data, begin, begin + Span(mirrors, size), inner.statusAt)
    {
      n := Min(size - offset, |b|);
      if n == 0 {
        assert forall i :: 0 <= i < mirrors ==> Splice(Copy(i), offset, b[..0]) == Copy(i);
        return;
      }
      WriteCopies(b[..n]);
      offset := offset + n;
    }

    method WriteCopies(w: seq<byte>)
      requires Valid() && w != [] && offset + |w| <= size
      modifies inner
      ensures Valid() && !inner.Changes() && |inner.data| == old(|inner.data|)
      ensures old(Lands(|w|)) ==>
        Progress(old(inner.data), inner.data, begin, size, mirrors, mirrors, offset, w, inner.statusAt)
    {
      hide CopyAt, Splice, SameButStatus, Untouched, Landed, Progress, StatusFlags.Encode;
      ghost var d, lands := inner.data, Lands(|w|);
      NoProgress(d, begin, size, mirrors, offset, w, inner.statusAt);
      for i := 0 to mirrors
        invariant Valid() && |inner.data| == |d|
        invariant lands ==> Progress(d, inner.data, begin, size, mirrors, i, offset, w, inner.statusAt)
        invariant if i > 0 then !inner.Changes() else inner.current == old(inner.current)
      {
        SpanMonotone(i + 1, mirrors, size);
        SpanMonotone(1, mirrors, size);
        ghost var before, status := inner.data, inner.NewStatus();
        inner.Seek(begin + offset + Span(i, size));
        inner.WriteAll(w);
        if lands {
          OnePieceLands(before, begin + Span(i, size) + offset, w, inner.most, inner.statusAt, status);
          OneCopyMore(d, before, inner.data, begin, size, mirrors, i, offset, w, inner.statusAt);
        }
      }
    }

    /** A position outside the window is refused and changes nothing. */
    method Seek(to: SeekFrom) returns (r: Result<nat>)
      requires Valid()
      modifies this`offset
      ensures Valid()
      ensures var t := Target(to, old(offset), size);
        if 0 <= t <= size then r == Success(t) && offset == t
        else r == Failure(InvalidInput) && offset == old(offset)
      ensures r.Success? ==>
        match to
        case FromStart(n) => offset == n
        case FromCurrent(d) => offset == old(offset) + d
        case FromEnd(d) => offset == size + d
    {
      var newOffset: Option<nat> := match to
        case FromStart(n) => Some(n)
        case FromCurrent(d) => CheckedAdd(offset, d)
        case FromEnd(d) => CheckedAdd(size, d);
      if newOffset.None? || newOffset.value > size {
        return Failure(InvalidInput);
      }
      offset := newOffset.value;
      r := Success(offset);
    }
  }

  /** Outside `lo` to `hi` nothing has changed but the status byte. */
  predicate Untouched(d: seq<byte>, d': seq<byte>, lo: nat, hi: nat, statusAt: nat) {
    |d'| == |d| && forall k :: 0 <= k < |d| && !(lo <= k < hi) && k != statusAt ==> d'[k] == d[k]
  }

  const I64_MAX: int := 0x7FFF_FFFF_FFFF_FFFF

  type i64 = d: int | -0x8000_0000_0000_0000 <= d <= 0x7FFF_FFFF_FFFF_FFFF

  datatype SeekFrom = FromStart(n: nat) | FromCurrent(d: i64) | FromEnd(d: i64)

  function Target(to: SeekFrom, offset: nat, size: nat): int {
    match to
    case FromStart(n) => n
    case FromCurrent(d) => offset + d
    case FromEnd(d) => size + d
  }

  /** Signed 64-bit addition with overflow check, for a result that has to be unsigned. */
  function CheckedAdd(n: nat, d: i64): Option<nat> {
    if n > I64_MAX || n + d > I64_MAX || n + d < 0 then None else Some(n + d)
  }
}
