/** Vocabulary shared by every module: failure types, bytes and their little-endian words. */
module Prelude {

  datatype Option<+T> = None | Some(value: T)

  /** The errors of the file-system crate that the model can produce. */
  datatype Error =
    | Io | NotEnoughSpace | InvalidInput | CorruptedFileSystem | UnexpectedEof | WriteZero | AlreadyExists | NotFound
    | InvalidFileNameLength | UnsupportedFileNameCharacter | DirectoryIsNotEmpty

  datatype Result<+T> = Success(value: T) | Failure(error: Error)

  type byte = b: int | 0 <= b < 0x100
  type u16 = w: int | 0 <= w < 0x1_0000

  const U32_MAX := 0xFFFF_FFFF

  function Min(a: int, b: int): (r: int)
    ensures r <= a && r <= b && (r == a || r == b)
  {
    if a <= b then a else b
  }

  function Max(a: int, b: int): (r: int)
    ensures r >= a && r >= b && (r == a || r == b)
  {
    if a <= b then b else a
  }

  /** Bit number `k` of `n`. */
  predicate Bit(n: nat, k: nat) {
    if k == 0 then n % 2 == 1 else Bit(n / 2, k - 1)
  }

  /** The 16-bit little-endian word that starts at `i`. */
  function Le16(s: seq<byte>, i: nat): u16
    requires i + 2 <= |s|
  {
    s[i] as int + 0x100 * s[i + 1] as int
  }

  /** The 32-bit little-endian word that starts at `i`. */
  function Le32(s: seq<byte>, i: nat): nat
    requires i + 4 <= |s|
  {
    s[i] as int + 0x100 * s[i + 1] as int + 0x1_0000 * s[i + 2] as int + 0x100_0000 * s[i + 3] as int
  }

  /** `s` with the bytes of `d` written over it from position `i`. */
  function Splice<T>(s: seq<T>, i: nat, d: seq<T>): (r: seq<T>)
    requires i + |d| <= |s|
    ensures |r| == |s|
    ensures forall k :: 0 <= k < |s| ==> r[k] == if i <= k < i + |d| then d[k - i] else s[k]
  {
    s[..i] + d + s[i + |d|..]
  }

  function Zeros(n: nat): (r: seq<byte>)
    ensures |r| == n && forall i :: 0 <= i < n ==> r[i] == 0
  {
    seq(n, _ => 0 as byte)
  }

  lemma SliceOfSlice<T>(s: seq<T>, a: nat, b: nat, o: nat, n: nat)
    requires a <= b <= |s| && o + n <= b - a
    ensures s[a..b][o..o + n] == s[a + o..a + o + n]
  {
    var l, r := s[a..b][o..o + n], s[a + o..a + o + n];
    forall i | 0 <= i < n ensures l[i] == r[i] {
      assert s[a..b][o + i] == s[a + o + i];
    }
  }

  lemma SpliceLeft<T>(a: seq<T>, b: seq<T>, i: nat, d: seq<T>)
    requires i + |d| <= |a|
    ensures Splice(a + b, i, d) == Splice(a, i, d) + b
  {
  }

  lemma SpliceRight<T>(a: seq<T>, b: seq<T>, i: nat, d: seq<T>)
    requires i + |d| <= |b|
    ensures Splice(a + b, |a| + i, d) == a + Splice(b, i, d)
  {
  }

  function Last<T>(l: seq<T>): T
    requires l != []
  {
    l[|l| - 1]
  }

  function Front<T>(l: seq<T>): seq<T>
    requires l != []
  {
    l[..|l| - 1]
  }

  /** No two positions of `s` hold the same value. */
  ghost predicate Distinct<T>(s: seq<T>) {
    forall i, j :: 0 <= i < j < |s| ==> s[i] != s[j]
  }

  /** The values of `s` as a set. */
  ghost function Elements<T>(s: seq<T>): set<T> {
    set x | x in s
  }

  lemma {:induction false} DistinctCount<T>(s: seq<T>)
    requires Distinct(s)
    ensures |Elements(s)| == |s|
  {
    if s == [] {
      assert Elements(s) == {};
    } else {
      var n := |s| - 1;
      DistinctCount(s[..n]);
      assert s == s[..n] + [s[n]];
      assert Elements(s) == Elements(s[..n]) + {s[n]};
    }
  }

  // ---------- text ----------

  function Utf8Width(c: char): nat {
    if c < '\U{80}' then 1 else if c < '\U{800}' then 2 else if c <= '\U{FFFF}' then 3 else 4
  }

  /** The UTF-8 form of a character: a lead byte that tells the length, and bytes of six bits. */
  function Utf8(c: char): seq<byte> {
    var n := c as int;
    if n < 0x80 then [n]
    else if n / 0x40 < 0x20 then [0xC0 + n / 0x40, 0x80 + n % 0x40]
    else if n / 0x1000 < 0x10 then [0xE0 + n / 0x1000, 0x80 + n / 0x40 % 0x40, 0x80 + n % 0x40]
    else [0xF0 + n / 0x4_0000, 0x80 + n / 0x1000 % 0x40, 0x80 + n / 0x40 % 0x40, 0x80 + n % 0x40]
  }

  lemma Utf8Exactly(c: char)
    ensures |Utf8(c)| == Utf8Width(c)
  {
  }

  function Utf8Length(name: seq<char>): (n: nat)
    ensures n >= |name|
  {
    if name == [] then 0 else Utf8Length(name[..|name| - 1]) + Utf8Width(name[|name| - 1])
  }
}
