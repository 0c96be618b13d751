/** A stream with a 512-byte buffer in front of it. Both streams are described by the same relations
    between contents, positions and results, which is what makes the buffer invisible. */
module BufStream {
  import opened Prelude

  const BUF_SIZE := 512

  datatype SeekFrom = FromStart(n: nat) | FromCurrent(d: int) | FromEnd(d: int)

  /** `s` with `b` written at `p`; a gap before `p` is filled with zeros. */
  function Overlay(s: seq<byte>, p: nat, b: seq<byte>): (r: seq<byte>)
    ensures |r| == if b == [] then |s| else Max(|s|, p + |b|)
    ensures forall i :: 0 <= i < |r| ==>
      r[i] == if b != [] && p <= i < p + |b| then b[i - p] else if i < |s| then s[i] else 0
  {
    if b == [] then s
    else
      var t := if |s| < p then s + Zeros(p - |s|) else s;
      t[..p] + b + if p + |b| <= |t| then t[p + |b|..] else []
  }

  lemma OverlayTwice(s: seq<byte>, p: nat, a: seq<byte>, b: seq<byte>)
    ensures Overlay(Overlay(s, p, a), p + |a|, b) == Overlay(s, p, a + b)
  {
    var l, r := Overlay(Overlay(s, p, a), p + |a|, b), Overlay(s, p, a + b);
    assert |l| == |r|;
    forall i | 0 <= i < |l| ensures l[i] == r[i] {
      if p + |a| <= i < p + |a| + |b| { assert l[i] == b[i - p - |a|] == (a + b)[i - p]; }
    }
  }

  /** What a stream promises of a read of up to `n` bytes: it may give fewer, but none only at the end. */
  predicate ReadLike(s: seq<byte>, p: nat, n: nat, chunk: seq<byte>, s': seq<byte>, p': nat) {
    && s' == s && p' == p + |chunk| && |chunk| <= n
    && (chunk != [] ==> p' <= |s| && chunk == s[p..p'])
    && (chunk == [] ==> n == 0 || p >= |s|)
  }

  /** Of a write of `b`, of which `n` bytes are taken. */
  predicate WriteLike(s: seq<byte>, p: nat, b: seq<byte>, n: nat, s': seq<byte>, p': nat) {
    n <= |b| && s' == Overlay(s, p, b[..n]) && p' == p + n
  }

  /** Writing on after a partial write. */
  lemma WriteOn(s: seq<byte>, p: nat, b: seq<byte>, k: nat, s': seq<byte>, p': nat, n: nat, s'': seq<byte>, p'': nat)
    requires WriteLike(s, p, b, k, s', p') && WriteLike(s', p', b[k..], n, s'', p'')
    ensures WriteLike(s, p, b, k + n, s'', p'')
  {
    hide Overlay;
    OverlayTwice(s, p, b[..k], b[k..][..n]);
    assert b[..k] + b[k..][..n] == b[..k + n];
  }

  function Target(s: seq<byte>, p: nat, to: SeekFrom): int {
    match to
    case FromStart(n) => n
    case FromCurrent(d) => p + d
    case FromEnd(d) => |s| + d
  }

  /** The stream underneath: it may move fewer bytes than it is asked to, and it may fail. */
  class Inner {
    var data: seq<byte>
    var pos: nat
    var broken: bool
    const most: nat      // bytes moved by one call, at most
    const capacity: nat  // no byte can be written from here on

    constructor (data: seq<byte>, most: nat, capacity: nat)
      requires most > 0
      ensures this.data == data && pos == 0 && this.most == most && this.capacity == capacity && !broken
    {
      this.data, this.most, this.capacity, pos, broken := data, most, capacity, 0, false;
    }

    method Read(n: nat) returns (r: Result<seq<byte>>)
      requires most > 0
      modifies this`pos
      ensures r.Failure? <==> broken
      ensures r.Success? ==> ReadLike(data, old(pos), n, r.value, data, pos)
      ensures r.Failure? ==> r.error == Io && pos == old(pos)
    {
      if broken {
        return Failure(Io);
      }
      if pos >= |data| {
        return Success([]);
      }
      var chunk := data[pos..pos + Min(Min(n, most), |data| - pos)];
      pos := pos + |chunk|;
      r := Success(chunk);
    }

    /** How many of `n` bytes one call writes. */
    function Takes(n: nat): nat
      reads this
    {
      Max(0, Min(Min(n, most), capacity - pos))
    }

    method Write(b: seq<byte>) returns (r: Result<nat>)
      modifies this`data, this`pos
      ensures r.Failure? <==> broken
      ensures r.Success? ==> r.value == old(Takes(|b|)) <= |b| && pos == old(pos) + r.value
      ensures r.Success? ==> WriteLike(old(data), old(pos), b, r.value, data, pos)
      ensures r.Failure? ==> r.error == Io && data == old(data) && pos == old(pos)
    {
      if broken {
        return Failure(Io);
      }
      var n := Takes(|b|);
      data := Overlay(data, pos, b[..n]);
      pos := pos + n;
      r := Success(n);
    }

    /** There is room for `n` bytes at the position, and the stream works. */
    predicate Accepts(n: nat)
      reads this
    {
      n == 0 || (!broken && pos + n <= capacity)
    }

    method WriteAll(b: seq<byte>) returns (error: Option<Error>)
      requires most > 0
      modifies this`data, this`pos
      ensures error.None? <==> old(Accepts(|b|))
      ensures error.None? ==> WriteLike(old(data), old(pos), b, |b|, data, pos)
      ensures error.Some? ==> error.value in {Io, WriteZero}
    {
      assert WriteLike(data, pos, b, 0, data, pos);
      hide Overlay, WriteLike;
      var rest := b;
      ghost var done: nat := 0;
      while rest != []
        invariant 0 <= done <= |b| && rest == b[done..]
        invariant WriteLike(old(data), old(pos), b, done, data, pos)
        invariant Accepts(|rest|) <==> old(Accepts(|b|))
        decreases |rest|
      {
        ghost var s, p := data, pos;
        var r := Write(rest);
        if r.Failure? {
          return Some(r.error);
        }
        var n := r.value;
        if n == 0 {
          return Some(WriteZero);
        }
        WriteOn(old(data), old(pos), b, done, s, p, n, data, pos);
        done := done + n;
        rest := rest[n..];
      }
      error := None;
    }

    method Seek(to: SeekFrom) returns (r: Result<nat>)
      modifies this`pos
      ensures var t := Target(data, old(pos), to);
        match r
        case Success(p) => !broken && p == t == pos
        case Failure(e) => pos == old(pos) && if broken then e == Io else e == InvalidInput && t < 0
      ensures r.Success? ==>
        match to
        case FromStart(n) => pos == n
        case FromCurrent(d) => pos == old(pos) + d
        case FromEnd(d) => pos == |data| + d
    {
      if broken {
        return Failure(Io);
      }
      var t := Target(data, pos, to);
      if t < 0 {
        return Failure(InvalidInput);
      }
      pos := t;
      r := Success(t);
    }
  }

  class BufStream {
    const inner: Inner
    const buf: array<byte>
    var len: nat
    var pos: nat
    var write: bool

    ghost predicate Valid()
      reads this, inner, buf
    {
      && inner.most > 0 && buf.Length == BUF_SIZE && pos <= BUF_SIZE && len <= BUF_SIZE
      && if write then len == 0
         else pos <= len && Buffered()
    }

    /** In read mode the rest of the buffer is what the inner stream has just passed. */
    ghost predicate Buffered()
      requires pos <= len <= buf.Length
      reads this, inner, buf
    {
      pos < len ==> len - pos <= inner.pos <= |inner.data|
                    && buf[pos..len] == inner.data[inner.pos - (len - pos)..inner.pos]
    }

    /** The contents and the position that the stream shows. */
    ghost function Contents(): seq<byte>
      requires Valid()
      reads this, inner, buf
    {
      if write then Overlay(inner.data, inner.pos, buf[..pos]) else inner.data
    }

    ghost function Pos(): nat
      requires Valid()
      reads this, inner, buf
    {
      if write then inner.pos + pos else inner.pos - (len - pos)
    }

    /** What waits to be written can be written. */
    ghost predicate CanFlush()
      reads this, inner
    {
      write ==> inner.Accepts(pos)
    }

    /** Some bytes were read ahead. */
    ghost predicate HasUnread()
      reads this
    {
      !write && pos < len
    }

    constructor (inner: Inner)
      requires inner.most > 0
      ensures Valid() && fresh(buf) && this.inner == inner
      ensures Contents() == inner.data && Pos() == inner.pos && !write
    {
      this.inner := inner;
      buf := new byte[512](_ => 0);
      pos, len, write := 0, 0, false;
    }

    /** On success nothing shows and nothing is left to be written. */
    method FlushBuf() returns (error: Option<Error>)
      requires Valid()
      modifies this`pos, inner`data, inner`pos
      ensures pos <= BUF_SIZE
      ensures error.None? <==> old(CanFlush())
      ensures error.None? ==> Valid() && Contents() == old(Contents()) && Pos() == old(Pos())
      ensures error.None? ==> if write then pos == 0 else pos == old(pos) && inner.pos == old(inner.pos)
      ensures error.None? ==> inner.data == Contents()
      ensures error != Some(InvalidInput)
    {
      if write {
        error := inner.WriteAll(buf[..pos]);
        if error.Some? {
          return;
        }
        assert buf[..pos][..pos] == buf[..pos];
        pos := 0;
        assert buf[..0] == [];
      }
      error := None;
    }

    method MakeReader() returns (error: Option<Error>)
      requires Valid()
      modifies this, inner`data, inner`pos
      ensures error.None? <==> old(CanFlush())
      ensures error.None? ==> (HasUnread() <==> old(HasUnread()))
      ensures error.None? ==> Valid() && !write && Contents() == old(Contents()) && Pos() == old(Pos())
    {
      if write {
        error := FlushBuf();
        if error.Some? {
          return;
        }
        write := false;
        len := 0;
        pos := 0;
      }
      error := None;
    }

    method MakeWritter() returns (error: Option<Error>)
      requires Valid()
      modifies this, inner`data, inner`pos
      ensures error.None? <==> old(write) || !inner.broken
      ensures Valid() && Contents() == old(Contents()) && Pos() == old(Pos())
      ensures error.None? ==> write && if old(write) then pos == old(pos) && inner.pos == old(inner.pos) else pos == 0
    {
      if !write {
        var r := inner.Seek(FromCurrent(-(len - pos)));
        if r.Failure? {
          return Some(r.error);
        }
        write := true;
        len := 0;
        pos := 0;
        assert buf[..0] == [];
      }
      error := None;
    }

    method FillBuf() returns (error: Option<Error>)
      requires Valid()
      modifies this, inner`data, inner`pos, buf
      ensures error.None? <==> old(CanFlush()) && (old(HasUnread()) || !inner.broken)
      ensures error.None? ==> Valid() && !write && Contents() == old(Contents()) && Pos() == old(Pos())
      ensures error.None? ==> (HasUnread() <==> Pos() < |Contents()|)
    {
      error := MakeReader();
      if error.Some? {
        return;
      }
      if pos >= len {
        var r := inner.Read(BUF_SIZE);
        if r.Failure? {
          return Some(r.error);
        }
        var chunk := r.value;
        forall i | 0 <= i < |chunk| {
          buf[i] := chunk[i];
        }
        assert buf[..|chunk|] == chunk;
        len := |chunk|;
        pos := 0;
      }
    }

    method Read(n: nat) returns (r: Result<seq<byte>>)
      requires Valid()
      modifies this, inner`data, inner`pos, buf
      ensures r.Success? <==> old(CanFlush()) && (old(HasUnread()) || !inner.broken)
      ensures r.Success? ==> Valid()
      ensures r.Success? ==> ReadLike(old(Contents()), old(Pos()), n, r.value, Contents(), Pos())
    {
      hide Overlay;
      var error := MakeReader();
      if error.Some? {
        return Failure(error.value);
      }
      if pos == len && n >= BUF_SIZE {
        r := inner.Read(n);
        return r;
      }
      error := FillBuf();
      if error.Some? {
        return Failure(error.value);
      }
      var chunk := TakeBuffered(Min(n, len - pos));
      r := Success(chunk);
    }

    /** Gives the next bytes of the buffer. */
    method TakeBuffered(n: nat) returns (chunk: seq<byte>)
      requires Valid() && !write && n <= len - pos
      modifies this`pos
      ensures Valid() && Pos() == old(Pos()) + n && |chunk| == n
      ensures n > 0 ==> Pos() <= |Contents()| && chunk == Contents()[old(Pos())..Pos()]
    {
      chunk := buf[pos..pos + n];
      assert chunk == buf[pos..len][..n];
      if n > 0 {
        SliceOfSlice(inner.data, inner.pos - (len - pos), inner.pos, 0, n);
        SliceOfSlice(inner.data, inner.pos - (len - pos), inner.pos, n, len - pos - n);
      }
      label L:
      pos := Min(pos + n, len);
      assert buf[pos..len] == old@L(buf[pos..len])[n..];
    }

    /** The buffer has no room for `n` bytes behind those that wait. */
    ghost predicate Overflows(n: nat)
      reads this
    {
      (if write then pos else 0) + n > BUF_SIZE
    }

    /** Takes all of `b`, unless that goes past the buffer to the inner stream. */
    method Write(b: seq<byte>) returns (r: Result<nat>)
      requires Valid()
      modifies this, inner`data, inner`pos, buf
      ensures r.Success? <==> old(
        && (write || !inner.broken)
        && (Overflows(|b|) ==> CanFlush() && (|b| >= BUF_SIZE ==> !inner.broken)))
      ensures r.Success? ==> Valid()
      ensures r.Success? ==> WriteLike(old(Contents()), old(Pos()), b, r.value, Contents(), Pos())
      ensures r.Success? && r.value < |b| ==>
        |b| >= BUF_SIZE && r.value == Max(0, Min(inner.most, inner.capacity - old(Pos())))
    {
      hide Overlay;
      var error := MakeWritter();
      if error.Some? {
        return Failure(error.value);
      }
      if pos + |b| > BUF_SIZE {
        error := FlushBuf();
        if error.Some? {
          return Failure(error.value);
        }
        if |b| >= BUF_SIZE {
          r := inner.Write(b);
          assert buf[..0] == [];
          return r;
        }
      }
      assert b[..|b|] == b;
      Append(b);
      r := Success(|b|);
    }

    /** Copies bytes behind those that wait to be written. */
    method Append(b: seq<byte>)
      requires Valid() && write && pos + |b| <= BUF_SIZE
      modifies this`pos, buf
      ensures Valid() && Contents() == Overlay(old(Contents()), old(Pos()), b) && Pos() == old(Pos()) + |b|
    {
      OverlayTwice(inner.data, inner.pos, buf[..pos], b);
      hide Overlay;
      label L:
      forall i | 0 <= i < |b| {
        buf[pos + i] := b[i];
      }
      assert buf[..pos + |b|] == old@L(buf[..pos]) + b;
      pos := pos + |b|;
    }

    method Flush() returns (error: Option<Error>)
      requires Valid()
      modifies this, inner`data, inner`pos
      ensures error.None? <==> old(CanFlush())
      ensures error.None? ==> Valid() && Contents() == old(Contents()) && Pos() == old(Pos())
      ensures error.None? ==> inner.data == Contents()
    {
      error := FlushBuf();
    }

    /** Like the inner stream, but for one thing: a seek to a negative position fails and still drops
        the bytes that were read ahead. */
    method Seek(to: SeekFrom) returns (r: Result<nat>)
      requires Valid()
      modifies this, inner`data, inner`pos
      ensures r.Success? <==> old(CanFlush()) && !inner.broken && Target(old(Contents()), old(Pos()), to) >= 0
      ensures r.Success? ==> Valid() && Contents() == old(Contents())
      ensures r.Success? ==> r.value == Pos() == Target(Contents(), old(Pos()), to)
      ensures r.Success? ==>
        match to
        case FromStart(n) => Pos() == n
        case FromCurrent(d) => Pos() == old(Pos()) + d
        case FromEnd(d) => Pos() == |Contents()| + d
      ensures r == Failure(InvalidInput) ==> Valid() && Contents() == old(Contents())
      ensures r == Failure(InvalidInput) <==>
        old(CanFlush()) && !inner.broken && Target(old(Contents()), old(Pos()), to) < 0
      ensures r == Failure(InvalidInput) ==> Pos() == old(Pos()) + if old(write) then 0 else old(len) - old(pos)
    {
      var error := FlushBuf();
      if error.Some? {
        return Failure(error.value);
      }
      var newPos := match to
        case FromCurrent(d) => FromCurrent(d - (len - pos))
        case _ => to;
      pos := 0;
      len := 0;
      assert buf[..0] == [];
      r := inner.Seek(newPos);
    }
  }

  /** One byte is read ahead, and a refused seek goes past it. */
  method RefusedSeekMoves() returns (r: Result<nat>, ghost before: nat, ghost after: nat)
    ensures r == Failure(InvalidInput) && before == 0 && after == 1
  {
    var inner := new Inner([7], 1, 1);
    var stream := new BufStream(inner);
    var error := stream.FillBuf();
    before := stream.Pos();
    r := stream.Seek(FromCurrent(-1));
    after := stream.Pos();
  }

  // ---------- whole runs ----------

  datatype Op = Read(n: nat) | Write(b: seq<byte>) | Seek(to: SeekFrom) | Flush

  /** What an operation answered. */
  datatype Answer = Bytes(chunk: seq<byte>) | Count(n: nat) | At(p: nat) | Done

  /** An unbuffered stream could have given these answers, and ended with these contents and position. */
  ghost predicate Plausible(s: seq<byte>, p: nat, ops: seq<Op>, log: seq<Answer>, s': seq<byte>, p': nat)
    requires |log| == |ops|
    decreases |ops|
  {
    if ops == [] then s' == s && p' == p
    else
      exists t: seq<byte>, q: nat ::
        Answers(s', p', Last(ops), Last(log), t, q) && Plausible(s, p, Front(ops), Front(log), t, q)
  }

  /** One operation leads from contents `t` at position `q` to `s` at `p`. */
  predicate Answers(s: seq<byte>, p: nat, op: Op, a: Answer, t: seq<byte>, q: nat) {
    match op
    case Read(n) => a.Bytes? && ReadLike(t, q, n, a.chunk, s, p)
    case Write(b) => a.Count? && WriteLike(t, q, b, a.n, s, p)
    case Seek(to) => a.At? && a.p == p == Target(t, q, to) && s == t
    case Flush => a.Done? && s == t && p == q
  }

  /** What asks nothing that a working stream of this capacity refuses. */
  predicate Allowed(s: seq<byte>, p: nat, op: Op, capacity: nat) {
    |s| <= capacity && (op.Seek? ==> Target(s, p, op.to) >= 0)
  }

  method Perform(stream: BufStream, op: Op) returns (r: Result<Answer>)
    requires stream.Valid()
    modifies stream, stream.inner`data, stream.inner`pos, stream.buf
    ensures !stream.inner.broken && Allowed(old(stream.Contents()), old(stream.Pos()), op, stream.inner.capacity)
      ==> r.Success?
    ensures r.Success? ==> stream.Valid()
    ensures r.Success? ==>
      Answers(stream.Contents(), stream.Pos(), op, r.value, old(stream.Contents()), old(stream.Pos()))
    ensures r.Success? && op.Flush? ==> stream.inner.data == stream.Contents()
  {
    match op
    case Read(n) =>
      var q := stream.Read(n);
      r := if q.Success? then Success(Bytes(q.value)) else Failure(q.error);
    case Write(b) =>
      var q := stream.Write(b);
      r := if q.Success? then Success(Count(q.value)) else Failure(q.error);
    case Seek(to) =>
      var q := stream.Seek(to);
      r := if q.Success? then Success(At(q.value)) else Failure(q.error);
    case Flush =>
      var error := stream.Flush();
      r := if error.None? then Success(Done) else Failure(error.value);
  }

  lemma PlausibleMore(
    s: seq<byte>, p: nat, ops: seq<Op>, i: nat, log: seq<Answer>, t: seq<byte>, q: nat, a: Answer,
    s': seq<byte>, p': nat)
    requires i < |ops| && |log| == i && Plausible(s, p, ops[..i], log, t, q) && Answers(s', p', ops[i], a, t, q)
    ensures Plausible(s, p, ops[..i + 1], log + [a], s', p')
  {
    assert Front(ops[..i + 1]) == ops[..i] && Front(log + [a]) == log;
  }

  /** However many bytes the reads and writes move, no operation of the run asks for a negative
      position or finds contents that exceed the capacity. */
  ghost predicate Harmless(s: seq<byte>, p: nat, ops: seq<Op>, capacity: nat) {
    forall i: nat, log: seq<Answer>, t: seq<byte>, q: nat {:trigger Plausible(s, p, ops[..i], log, t, q)} ::
      i < |ops| && |log| == i && Plausible(s, p, ops[..i], log, t, q) ==> Allowed(t, q, ops[i], capacity)
  }

  /** Any run on a stream that works and has room succeeds. Every run that succeeds answers as an
      unbuffered stream would; and once it ends in a flush, the stream underneath holds what the run
      made of the contents. */
  method Run(stream: BufStream, ops: seq<Op>) returns (r: Result<seq<Answer>>)
    requires stream.Valid()
    modifies stream, stream.inner`data, stream.inner`pos, stream.buf
    ensures !stream.inner.broken ==>
      Harmless(old(stream.Contents()), old(stream.Pos()), ops, stream.inner.capacity) ==> r.Success?
    ensures r.Success? ==> stream.Valid() && |r.value| == |ops|
    ensures r.Success? ==>
      Plausible(old(stream.Contents()), old(stream.Pos()), ops, r.value, stream.Contents(), stream.Pos())
    ensures r.Success? && ops != [] && Last(ops).Flush? ==> stream.inner.data == stream.Contents()
  {
    var log: seq<Answer> := [];
    assert Plausible(stream.Contents(), stream.Pos(), ops[..0], log, stream.Contents(), stream.Pos());
    hide Answers, Plausible;
    for i := 0 to |ops|
      invariant stream.Valid() && |log| == i
      invariant Plausible(old(stream.Contents()), old(stream.Pos()), ops[..i], log, stream.Contents(), stream.Pos())
      invariant i > 0 && ops[i - 1].Flush? ==> stream.inner.data == stream.Contents()
    {
      ghost var t, q := stream.Contents(), stream.Pos();
      var a := Perform(stream, ops[i]);
      if a.Failure? {
        return Failure(a.error);
      }
      PlausibleMore(old(stream.Contents()), old(stream.Pos()), ops, i, log, t, q, a.value,
                    stream.Contents(), stream.Pos());
      log := log + [a.value];
    }
    assert ops[..|ops|] == ops;
    r := Success(log);
  }
}
