/** Short names: deriving an 8.3 name from a long one, without colliding with the names that are
    already in the directory. */
module ShortName {
  import opened Prelude
  import opened DirEntry

  const SPACE: byte := 0x20
  const TILDE: byte := 0x7E
  const CHECKSUMS := 0x1_0000

  // ---------- characters ----------

  predicate Stripped(c: char) {
    c == ' ' || c == '.'
  }

  /** Characters that an 8.3 name can hold as they are, but for their case. */
  predicate Allowed(c: char) {
    'A' <= c <= 'Z' || 'a' <= c <= 'z' || '0' <= c <= '9' || c == '!' || '#' <= c <= ')'
    || c == '-' || c == '@' || '^' <= c <= '`' || c == '{' || '}' <= c <= '~'
  }

  function Fixed(c: char): (b: byte)
    ensures LegalByte(b)
    ensures b == 0x5F <== !Allowed(c)
  {
    if 'a' <= c <= 'z' then c as int - 0x20 else if Allowed(c) then c as int else '_' as int
  }

  const UPPER := "ABCDEFGHIJKLMNOPQRSTUVWXYZ"
  const LOWER := "abcdefghijklmnopqrstuvwxyz"
  const OTHERS := "0123456789!#$%&'()-@^_`{}~"

  lemma UpperLetters(c: char)
    ensures c in UPPER <==> 'A' <= c <= 'Z'
  {
    if 'A' <= c <= 'Z' { assert UPPER[c as int - 'A' as int] == c; }
  }

  lemma LowerLetters(c: char)
    ensures c in LOWER <==> 'a' <= c <= 'z'
  {
    if 'a' <= c <= 'z' { assert LOWER[c as int - 'a' as int] == c; }
  }

  lemma Cases(k: nat)
    requires k < 26
    ensures UPPER[k] as int == 'A' as int + k && LOWER[k] as int == 'a' as int + k
  {
  }

  predicate IsOther(c: char) {
    '0' <= c <= '9' || c == '!' || '#' <= c <= ')' || c == '-' || c == '@' || '^' <= c <= '`' || c == '{'
    || '}' <= c <= '~'
  }

  lemma OthersAreOther()
    ensures forall i :: 0 <= i < |OTHERS| ==> IsOther(OTHERS[i])
  {
  }

  lemma OtherChars(c: char)
    ensures c in OTHERS <==> IsOther(c)
  {
    hide IsOther;
    OthersAreOther();
    if !IsOther(c) {
      assert c !in OTHERS;
    } else {
      OtherIsFound(c);
    }
  }

  lemma OtherIsFound(c: char)
    requires IsOther(c)
    ensures c in OTHERS
  {
    var k := c as int;
    if '0' <= c <= '9' { assert OTHERS[k - '0' as int] == c; }
    else if c == '!' { assert OTHERS[10] == c; }
    else if '#' <= c <= ')' { assert OTHERS[11 + k - '#' as int] == c; }
    else if c == '-' { assert OTHERS[18] == c; }
    else if c == '@' { assert OTHERS[19] == c; }
    else if '^' <= c <= '`' { assert OTHERS[20 + k - '^' as int] == c; }
    else if c == '{' { assert OTHERS[23] == c; }
    else if '}' <= c <= '~' { assert OTHERS[24 + k - '}' as int] == c; }
  }

  /** Letters are stored in upper case, the other characters that are allowed as they are, and all others as
      underscores. */
  lemma FixedExactly(c: char)
    ensures Allowed(c) <==> c in UPPER || c in LOWER || c in OTHERS
    ensures c in UPPER || c in OTHERS ==> Fixed(c) == c as int
    ensures c !in UPPER && c !in LOWER && c !in OTHERS ==> Fixed(c) == '_' as int
    ensures forall k: nat :: k < 26 && LOWER[k] == c ==> Fixed(c) == UPPER[k] as int
  {
    UpperLetters(c);
    LowerLetters(c);
    OtherChars(c);
    forall k: nat | k < 26 && LOWER[k] == c ensures Fixed(c) == UPPER[k] as int {
      Cases(k);
    }
  }

  predicate LegalByte(b: byte) {
    SPACE < b <= TILDE && b != '.' as int && !('a' as int <= b <= 'z' as int)
  }

  /** Spaces and dots are dropped. */
  lemma KeptExactly(src: seq<char>, c: char)
    ensures Kept([]) == [] && Kept(src + [c]) == Kept(src) + if c in " ." then [] else [Fixed(c)]
  {
    assert (src + [c])[..|src|] == src;
    assert " ."[0] == ' ' && " ."[1] == '.';
  }

  function Kept(src: seq<char>): (r: seq<byte>)
    ensures |r| <= |src|
    ensures forall i :: 0 <= i < |r| ==> LegalByte(r[i])
  {
    if src == [] then []
    else
      var n := |src| - 1;
      Kept(src[..n]) + if Stripped(src[n]) then [] else [Fixed(src[n])]
  }

  function Upper(src: seq<char>): seq<byte> {
    seq(|src|, i requires 0 <= i < |src| => Fixed(src[i]))
  }

  predicate AllAllowed(src: seq<char>) {
    forall i :: 0 <= i < |src| ==> Allowed(src[i])
  }

  lemma {:induction false} AllowedIsKept(src: seq<char>)
    requires AllAllowed(src)
    ensures Kept(src) == Upper(src)
  {
    if src == [] {
      assert Upper(src) == [];
    } else {
      var n := |src| - 1;
      AllowedIsKept(src[..n]);
      assert Upper(src) == Upper(src[..n]) + [Fixed(src[n])];
    }
  }

  lemma {:induction false} KeptPrefix(src: seq<char>, n: nat)
    requires n <= |src|
    ensures Kept(src[..n]) <= Kept(src)
  {
    if n < |src| {
      KeptPrefix(src[..|src| - 1], n);
      assert src[..|src| - 1][..n] == src[..n];
    } else {
      assert src[..n] == src;
    }
  }

  lemma OneMoreChar(src: seq<char>, i: nat)
    requires i < |src|
    ensures Kept(src[..i + 1]) == Kept(src[..i]) + if Stripped(src[i]) then [] else [Fixed(src[i])]
    ensures AllAllowed(src[..i + 1]) <==> AllAllowed(src[..i]) && Allowed(src[i])
  {
    assert src[..i + 1][..i] == src[..i];
    if AllAllowed(src[..i + 1]) {
      assert forall k :: 0 <= k < i ==> src[..i][k] == src[..i + 1][k];
      assert src[..i + 1][i] == src[i];
    }
  }

  /** The first `i` characters have been copied, and there was room before each of them. */
  predicate Copied(dst0: seq<byte>, src: seq<char>, i: nat, dst: seq<byte>, pos: nat, lossy: bool)
    requires i <= |src|
  {
    var kept := Kept(src[..i]);
    && pos == |kept| <= |dst0| && dst == Splice(dst0, 0, kept)
    && (i > 0 ==> |Kept(src[..i - 1])| < |dst0|)
    && (lossy <==> !AllAllowed(src[..i]))
  }

  lemma CopiedOneMore(dst0: seq<byte>, src: seq<char>, i: nat, dst: seq<byte>, pos: nat, lossy: bool)
    requires i < |src| && Copied(dst0, src, i, dst, pos, lossy) && pos < |dst|
    ensures Stripped(src[i]) ==> Copied(dst0, src, i + 1, dst, pos, true)
    ensures !Stripped(src[i]) ==>
      Copied(dst0, src, i + 1, dst[pos := Fixed(src[i])], pos + 1, lossy || !Allowed(src[i]))
  {
    OneMoreChar(src, i);
    assert Splice(dst0, 0, Kept(src[..i]))[pos := Fixed(src[i])] == Splice(dst0, 0, Kept(src[..i]) + [Fixed(src[i])]);
  }

  lemma CopiedFull(dst0: seq<byte>, src: seq<char>, i: nat, dst: seq<byte>, pos: nat, lossy: bool)
    requires i < |src| && Copied(dst0, src, i, dst, pos, lossy) && pos == |dst|
    ensures pos == Min(|Kept(src)|, |dst0|) && dst == Splice(dst0, 0, Kept(src)[..pos])
    ensures |Kept(src[..|src| - 1])| >= |dst0|
  {
    KeptPrefix(src, i);
    KeptPrefix(src[..|src| - 1], i);
    assert src[..|src| - 1][..i] == src[..i];
  }

  /** Copies what `dst` has room for; full before the end of `src` is reported as not fitting. */
  method CopyShortNamePart(dst0: seq<byte>, src: seq<char>)
    returns (dst: seq<byte>, pos: nat, fits: bool, lossy: bool)
    ensures pos == Min(|Kept(src)|, |dst0|) && dst == Splice(dst0, 0, Kept(src)[..pos])
    ensures fits <==> src == [] || |Kept(src[..|src| - 1])| < |dst0|
    ensures fits ==> (lossy <==> !AllAllowed(src))
  {
    dst, pos, lossy := dst0, 0, false;
    var i := 0;
    while i < |src|
      invariant 0 <= i <= |src|
      invariant Copied(dst0, src, i, dst, pos, lossy)
    {
      if pos == |dst| {
        CopiedFull(dst0, src, i, dst, pos, lossy);
        return dst, pos, false, lossy;
      }
      CopiedOneMore(dst0, src, i, dst, pos, lossy);
      if Stripped(src[i]) {
        lossy := true;
        i := i + 1;
        continue;
      }
      lossy := lossy || !Allowed(src[i]);
      dst := dst[pos := Fixed(src[i])];
      pos := pos + 1;
      i := i + 1;
    }
    assert src[..i] == src;
    fits := true;
  }

  /** Nothing is lost exactly when every character is allowed and there is room for all of them. */
  lemma NothingLost(src: seq<char>, room: nat)
    ensures AllAllowed(src) ==> Kept(src) == Upper(src) && |Upper(src)| == |src|
    ensures AllAllowed(src) ==> ((src == [] || |Kept(src[..|src| - 1])| < room) <==> |src| <= room)
  {
    if AllAllowed(src) {
      AllowedIsKept(src);
      if src != [] { AllowedIsKept(src[..|src| - 1]); }
    }
  }

  // ---------- hexadecimal checksums ----------

  function HexDigit(n: nat): (b: byte)
    requires n < 16
    ensures LegalByte(b)
  {
    if n < 10 then '0' as int + n else 'A' as int + n - 10
  }

  function HexValue(b: byte): Option<nat> {
    if '0' as int <= b <= '9' as int then Some(b as int - '0' as int)
    else if 'A' as int <= b <= 'F' as int then Some(b as int - 'A' as int + 10)
    else if 'a' as int <= b <= 'f' as int then Some(b as int - 'a' as int + 10)
    else None
  }

  function ToHex(x: u16): (s: seq<byte>)
    ensures |s| == 4
  {
    [HexDigit(x / 0x1000), HexDigit(x / 0x100 % 0x10), HexDigit(x / 0x10 % 0x10), HexDigit(x % 0x10)]
  }

  /** Parsing takes lower-case digits and a plus sign as well. */
  function FromHex(s: seq<byte>): Option<nat>
    requires |s| == 4
  {
    var first := if s[0] == '+' as int then Some(0) else HexValue(s[0]);
    if first.None? || HexValue(s[1]).None? || HexValue(s[2]).None? || HexValue(s[3]).None? then None
    else Some(0x1000 * first.value + 0x100 * HexValue(s[1]).value + 0x10 * HexValue(s[2]).value + HexValue(s[3]).value)
  }

  const DIGITS := "0123456789ABCDEF"

  lemma HexParts(a: nat, b: nat, c: nat, d: nat)
    requires a < 16 && b < 16 && c < 16 && d < 16
    ensures var x := 0x1000 * a + 0x100 * b + 0x10 * c + d;
      x < 0x1_0000 && x / 0x1000 == a && x / 0x100 % 0x10 == b && x / 0x10 % 0x10 == c && x % 0x10 == d
  {
    var x := 0x1000 * a + 0x100 * b + 0x10 * c + d;
    assert x / 0x100 == 0x10 * a + b && x / 0x10 == 0x100 * a + 0x10 * b + c;
  }

  /** The digits from the high end, in upper case. */
  lemma HexExactly(a: nat, b: nat, c: nat, d: nat)
    requires a < 16 && b < 16 && c < 16 && d < 16
    ensures ToHex(0x1000 * a + 0x100 * b + 0x10 * c + d)
         == [DIGITS[a] as int, DIGITS[b] as int, DIGITS[c] as int, DIGITS[d] as int]
  {
    hide HexDigit;
    HexParts(a, b, c, d);
    DigitOf(a);
    DigitOf(b);
    DigitOf(c);
    DigitOf(d);
  }

  lemma DigitOf(n: nat)
    requires n < 16
    ensures HexDigit(n) == DIGITS[n] as int
  {
  }

  lemma HexDigitReadsBack(n: nat)
    requires n < 16
    ensures HexValue(HexDigit(n)) == Some(n) && HexDigit(n) != '+' as int
  {
  }

  lemma HexDigits(x: u16)
    ensures x == 0x1000 * (x / 0x1000) + 0x100 * (x / 0x100 % 0x10) + 0x10 * (x / 0x10 % 0x10) + x % 0x10
  {
    assert x / 0x100 == x / 0x10 / 0x10 && x / 0x1000 == x / 0x100 / 0x10;
  }

  lemma HexReadsBack(x: u16)
    ensures FromHex(ToHex(x)) == Some(x)
  {
    HexDigits(x);
    HexDigitReadsBack(x / 0x1000);
    HexDigitReadsBack(x / 0x100 % 0x10);
    HexDigitReadsBack(x / 0x10 % 0x10);
    HexDigitReadsBack(x % 0x10);
  }

  function ChecksumStep(c: u16, ch: char): u16 {
    (c / 2 + c % 2 * 0x8000 + ch as int % 0x1_0000) % 0x1_0000
  }

  function ChecksumOf(name: seq<char>): u16 {
    if name == [] then 0 else ChecksumStep(ChecksumOf(name[..|name| - 1]), name[|name| - 1])
  }

  lemma Rotated(c: u16)
    ensures var q := c as int / 2 + c as int % 2 * 0x8000;
      0 <= q < 0x1_0000 && 2 * q % 0xFFFF == c % 0xFFFF && (q == 0 <==> c == 0)
  {
    var q := c as int / 2 + c as int % 2 * 0x8000;
    if c % 2 == 0 {
      assert 2 * q == c as int;
    } else {
      assert 2 * q == c as int + 0xFFFF;
    }
  }

  lemma SumTakenOff(q: int, b: u16)
    requires 0 <= q < 0x1_0000
    ensures ((q + b) % 0x1_0000 - b) % 0x1_0000 == q
  {
    if q + b < 0x1_0000 {
      assert (q + b) % 0x1_0000 == q + b;
    } else {
      assert (q + b) % 0x1_0000 == q + b - 0x1_0000;
    }
  }

  lemma StepRotates(c: u16, ch: char)
    ensures var q := (ChecksumStep(c, ch) as int - ch as int % 0x1_0000) % 0x1_0000;
      2 * q % 0xFFFF == c % 0xFFFF && (q == 0 <==> c == 0)
  {
    Rotated(c);
    SumTakenOff(c as int / 2 + c as int % 2 * 0x8000, ch as int % 0x1_0000);
  }

  /** One more character: taken off again, it leaves the checksum before it, rotated to the right by one bit. */
  lemma RotatesRight(name: seq<char>, ch: char)
    ensures ChecksumOf([]) == 0
    ensures var c := ChecksumOf(name) as int;
      var q := (ChecksumOf(name + [ch]) as int - ch as int % 0x1_0000) % 0x1_0000;
      2 * q % 0xFFFF == c % 0xFFFF && (q == 0 <==> c == 0)
  {
    hide ChecksumStep;
    assert (name + [ch])[..|name|] == name;
    StepRotates(ChecksumOf(name), ch);
  }

  method Checksum(name: seq<char>) returns (chksum: u16)
    ensures chksum == ChecksumOf(name)
  {
    chksum := 0;
    var rest := name;
    while rest != []
      invariant |rest| <= |name| && rest == name[|name| - |rest|..]
      invariant chksum == ChecksumOf(name[..|name| - |rest|])
    {
      var n := |name| - |rest|;
      assert name[..n + 1][..n] == name[..n] && rest[0] == name[n];
      chksum := ChecksumStep(chksum, rest[0]);
      rest := rest[1..];
    }
    assert name[..|name|] == name;
  }

  // ---------- the shapes of generated names ----------

  /** What does not change while names are tried. */
  datatype Stem = Stem(shortName: RawName, basenameLen: nat)
  {
    predicate Valid() {
      basenameLen <= 8 && forall i :: 0 <= i < basenameLen ==> LegalByte(shortName[i])
    }

    function Ext(): seq<byte> {
      shortName[8..]
    }

    /** `TEXTFI~1.TXT`, or `TE021F~1.TXT` with a checksum. */
    function Prefix(chksum: Option<u16>): (p: seq<byte>)
      requires Valid()
      ensures |p| <= 6 && forall i :: 0 <= i < |p| ==> LegalByte(p[i])
    {
      match chksum
      case None => shortName[..Min(basenameLen, 6)]
      case Some(c) => shortName[..Min(basenameLen, 2)] + ToHex(c)
    }

    function Prefixed(num: nat, chksum: Option<u16>): RawName
      requires Valid() && num < 10
    {
      var p := Prefix(chksum);
      p + [TILDE, '0' as int + num] + seq(6 - |p|, _ => SPACE) + Ext()
    }

    /** The name `n` uses up the number `num` of the long-prefix form. */
    predicate TakesNumber(n: RawName, num: nat)
      requires Valid()
    {
      var k := Min(basenameLen, 6);
      n[k] == TILDE && n[k + 1] == '0' as int + num && num < 10 && n[..k] == shortName[..k] && n[8..] == Ext()
    }

    /** The name `n` uses up the number `num` of the form with the checksum `c`. */
    predicate TakesChecksum(n: RawName, c: u16, num: nat)
      requires Valid()
    {
      var k := Min(basenameLen, 2);
      && n[k + 4] == TILDE && n[k + 5] == '0' as int + num && num < 10
      && n[..k] == shortName[..k] && n[8..] == Ext() && FromHex(n[k..k + 4]) == Some(c)
    }

    predicate NumberTaken(names: seq<RawName>, num: nat)
      requires Valid()
    {
      exists j :: 0 <= j < |names| && TakesNumber(names[j], num)
    }

    predicate ChecksumTaken(names: seq<RawName>, c: u16, num: nat)
      requires Valid()
    {
      exists j :: 0 <= j < |names| && TakesChecksum(names[j], c, num)
    }
  }

  /** `TEXTFI~1.TXT`: at most six characters, the number, and the extension. `TE021F~1.TXT`: at most two, the
      four digits of the checksum, and the same. */
  lemma PrefixedExactly(stem: Stem, num: nat, c: u16)
    requires stem.Valid() && num < 10
    ensures var k, n := if stem.basenameLen < 6 then stem.basenameLen else 6, stem.Prefixed(num, None);
      && n[..k] == stem.shortName[..k] && n[k] == '~' as int && n[k + 1] == DIGITS[num] as int
      && (forall i :: k + 2 <= i < 8 ==> n[i] == ' ' as int) && n[8..] == stem.shortName[8..]
    ensures var k, n := if stem.basenameLen < 2 then stem.basenameLen else 2, stem.Prefixed(num, Some(c));
      && n[..k] == stem.shortName[..k] && n[k..k + 4] == ToHex(c)
      && n[k + 4] == '~' as int && n[k + 5] == DIGITS[num] as int
      && (forall i :: k + 6 <= i < 8 ==> n[i] == ' ' as int) && n[8..] == stem.shortName[8..]
  {
    hide ToHex;
  }

  /** A number that is free is free of the name built with it. */
  lemma PrefixedTakes(stem: Stem, num: nat, c: u16)
    requires stem.Valid() && num < 10
    ensures stem.TakesNumber(stem.Prefixed(num, None), num)
    ensures stem.TakesChecksum(stem.Prefixed(num, Some(c)), c, num)
  {
    HexReadsBack(c);
    var k := Min(stem.basenameLen, 2);
    var n := stem.Prefixed(num, Some(c));
    assert n[k..k + 4] == ToHex(c) && n[..k] == stem.shortName[..k] && n[8..] == stem.Ext();
    var m := stem.Prefixed(num, None);
    assert m[..Min(stem.basenameLen, 6)] == stem.shortName[..Min(stem.basenameLen, 6)] && m[8..] == stem.Ext();
  }

  function FirstFree(taken: set<nat>, i: nat, n: nat): (r: nat)
    requires i <= n
    ensures i <= r <= n && (r < n ==> r !in taken) && forall k :: i <= k < r ==> k in taken
    decreases n - i
  {
    if i == n || i !in taken then i else FirstFree(taken, i + 1, n)
  }

  /** The choice of a name, in order of preference. */
  function Choice(stem: Stem, asIs: bool, numbers: set<nat>, c: u16, checksums: set<nat>): Result<RawName>
    requires stem.Valid()
  {
    if asIs then Success(stem.shortName)
    else if FirstFree(numbers, 1, 5) < 5 then Success(stem.Prefixed(FirstFree(numbers, 1, 5), None))
    else if FirstFree(checksums, 1, 10) < 10 then Success(stem.Prefixed(FirstFree(checksums, 1, 10), Some(c)))
    else Failure(AlreadyExists)
  }

  /** The name with the least of the numbers 1 to 4 that none of the names takes, or else with the checksum and
      the least of 1 to 9. */
  ghost predicate Numbered(stem: Stem, names: seq<RawName>, c: u16, r: Result<RawName>)
    requires stem.Valid()
  {
    if exists d :: 1 <= d <= 4 && !stem.NumberTaken(names, d) then
      exists d: nat :: 1 <= d <= 4 && !stem.NumberTaken(names, d) && r == Success(stem.Prefixed(d, None))
                       && forall k :: 1 <= k < d ==> stem.NumberTaken(names, k)
    else if exists d :: 1 <= d <= 9 && !stem.ChecksumTaken(names, c, d) then
      exists d: nat :: 1 <= d <= 9 && !stem.ChecksumTaken(names, c, d) && r == Success(stem.Prefixed(d, Some(c)))
                       && forall k :: 1 <= k < d ==> stem.ChecksumTaken(names, c, k)
    else r == Failure(AlreadyExists)
  }

  /** The name that is found in round `k`, the first one with a number left. */
  ghost predicate FoundInRound(stem: Stem, names: seq<RawName>, c: u16, k: nat, short: RawName)
    requires stem.Valid()
  {
    && Numbered(stem, names, Round(c, k), Success(short))
    && forall j: nat :: j < k ==> Numbered(stem, names, Round(c, j), Failure(AlreadyExists))
  }

  /** A name that may be put in a slot: the slot will not look deleted, unused or nameless. */
  predicate Usable(n: RawName) {
    LegalByte(n[0])
  }

  // ---------- splitting at the last dot ----------

  /** The position of the last dot, not counting the first character. */
  function LastDot(name: seq<char>): (r: Option<nat>)
    ensures r.Some? ==> 1 <= r.value < |name| && name[r.value] == '.'
    ensures forall i :: (if r.Some? then r.value + 1 else 1) <= i < |name| ==> name[i] != '.'
  {
    if |name| <= 1 then None
    else if name[|name| - 1] == '.' then Some(|name| - 1)
    else LastDot(name[..|name| - 1])
  }

  function Base(name: seq<char>): seq<char> {
    if LastDot(name).Some? then name[..LastDot(name).value] else name
  }

  function Extension(name: seq<char>): seq<char> {
    if LastDot(name).Some? then name[LastDot(name).value + 1..] else []
  }

  /** The name is an 8.3 name already, but for the case of its letters. */
  predicate Is83(name: seq<char>) {
    && |Base(name)| <= 8 && |Extension(name)| <= 3 && AllAllowed(Base(name)) && AllAllowed(Extension(name))
  }

  /** An 8.3 name as it is stored. */
  function AsShortName(name: seq<char>): RawName
    requires Is83(name)
  {
    Splice(Splice(Blank(), 0, Upper(Base(name))), 8, Upper(Extension(name)))
  }

  function Blank(): RawName {
    seq(11, _ => SPACE)
  }

  /** The parts of a name: what is before its last dot, which is not its first character, and what is behind. */
  lemma PartsExactly(name: seq<char>)
    ensures if exists i :: 1 <= i < |name| && name[i] == '.' then
              name == Base(name) + ['.'] + Extension(name) && Base(name) != [] && '.' !in Extension(name)
            else Base(name) == name && Extension(name) == []
  {
  }

  /** The first `n` bytes of `s`, filled up with spaces. */
  function Field(s: seq<byte>, n: nat): (r: seq<byte>)
    ensures |r| == n
  {
    if |s| < n then s + seq(n - |s|, _ => 0x20 as byte) else s[..n]
  }

  /** What is kept of a name: at most eight characters before the last dot and three behind it. */
  function StemOf(name: seq<char>): (stem: Stem)
    ensures stem.Valid()
  {
    var base, ext := Kept(Base(name)), Kept(Extension(name));
    Stem(Field(base, 8) + Field(ext, 3), if |base| < 8 then |base| else 8)
  }

  method CopyParts(name: seq<char>) returns (stem: Stem, fits: bool, lossy: bool)
    requires |name| > 0
    ensures stem == StemOf(name) && (!lossy && fits ==> stem.basenameLen > 0)
    ensures (fits && !lossy) <==> Is83(name)
    ensures Is83(name) ==> stem.shortName == AsShortName(name)
  {
    var base, ext := Base(name), Extension(name);
    NothingLost(base, 8);
    NothingLost(ext, 3);
    hide AllAllowed, Kept;
    var blank: seq<byte> := Blank();
    var name8, n, baseFits, baseLossy := CopyShortNamePart(blank[..8], base);
    fits, lossy := baseFits, baseLossy;
    var name3 := blank[8..];
    if LastDot(name).Some? {
      var part, _, extFits, extLossy := CopyShortNamePart(blank[8..], ext);
      name3 := part;
      fits, lossy := baseFits && extFits, baseLossy || extLossy;
    }
    stem := Stem(name8 + name3, n);
    assert name8 == Field(Kept(base), 8) && name3 == Field(Kept(ext), 3);
  }

  /** Byte `n` of the UTF-8 form of the name is the start of a character, or the end. */
  ghost predicate IsBoundary(name: seq<char>, n: nat) {
    exists k: nat :: k <= |name| && Utf8Length(name[..k]) == n
  }

  /** The first byte of the name can be sliced off. */
  predicate Sliceable(name: seq<char>) {
    name != [] && name[0] < 128 as char
  }

  lemma SlicesExactly(name: seq<char>)
    ensures Sliceable(name) <==> IsBoundary(name, 1)
  {
    if name != [] {
      assert name[..1][..0] == [] && Utf8Length(name[..1]) == Utf8Width(name[0]);
      forall k: nat | 1 < k <= |name| ensures Utf8Length(name[..k]) != 1 {
        assert Utf8Length(name[..k]) >= |name[..k]|;
      }
    }
  }

  class ShortNameGenerator {
    const stem: Stem
    const nameFits: bool
    const lossyConv: bool
    var chksum: u16
    var longPrefixBitmap: set<nat>
    var prefixChksumBitmap: set<nat>
    var exactMatch: bool
    ghost var seen: seq<RawName>  // the names scanned since the checksum was chosen

    ghost predicate Valid()
      reads this
    {
      && stem.Valid() && (!lossyConv && nameFits ==> stem.basenameLen > 0)
      && (forall d :: d in longPrefixBitmap <==> stem.NumberTaken(seen, d))
      && (forall d :: d in prefixChksumBitmap <==> stem.ChecksumTaken(seen, chksum, d))
      && (stem.shortName in seen ==> exactMatch)
    }

    /** The source slices the first byte off the name, so the name needs a first one-byte character. */
    constructor (name: seq<char>)
      requires Sliceable(name)
      ensures Valid() && seen == [] && !exactMatch && chksum == ChecksumOf(name)
      ensures (nameFits && !lossyConv) <==> Is83(name)
      ensures Is83(name) ==> stem.shortName == AsShortName(name)
      ensures stem == StemOf(name)
    {
      var parts, fits, lossy := CopyParts(name);
      var c := Checksum(name);
      stem, nameFits, lossyConv, chksum := parts, fits, lossy, c;
      longPrefixBitmap, prefixChksumBitmap, exactMatch, seen := {}, {}, false, [];
    }

    method AddExisting(n: RawName)
      requires Valid()
      modifies this
      ensures Valid() && seen == old(seen) + [n] && chksum == old(chksum)
      ensures exactMatch == (old(exactMatch) || n == stem.shortName)
    {
      if n == stem.shortName {
        exactMatch := true;
      }
      CheckForLongPrefixCollision(n);
      CheckForShortPrefixCollision(n);
      seen := seen + [n];
      forall d: nat ensures stem.NumberTaken(seen, d) <==> stem.NumberTaken(old(seen), d) || stem.TakesNumber(n, d) {
        if stem.TakesNumber(n, d) { assert stem.TakesNumber(seen[|seen| - 1], d); }
        if stem.NumberTaken(old(seen), d) {
          var j :| 0 <= j < |old(seen)| && stem.TakesNumber(old(seen)[j], d);
          assert stem.TakesNumber(seen[j], d);
        }
      }
      forall d: nat
        ensures stem.ChecksumTaken(seen, chksum, d) <==>
          stem.ChecksumTaken(old(seen), chksum, d) || stem.TakesChecksum(n, chksum, d)
      {
        if stem.TakesChecksum(n, chksum, d) { assert stem.TakesChecksum(seen[|seen| - 1], chksum, d); }
        if stem.ChecksumTaken(old(seen), chksum, d) {
          var j :| 0 <= j < |old(seen)| && stem.TakesChecksum(old(seen)[j], chksum, d);
          assert stem.TakesChecksum(seen[j], chksum, d);
        }
      }
    }

    method CheckForLongPrefixCollision(n: RawName)
      requires stem.Valid()
      modifies this`longPrefixBitmap
      ensures forall d :: d in longPrefixBitmap <==> d in old(longPrefixBitmap) || stem.TakesNumber(n, d)
    {
      var k := Min(stem.basenameLen, 6);
      if n[k] != TILDE {
        return;
      }
      if '0' as int <= n[k + 1] <= '9' as int {
        var num := n[k + 1] as int - '0' as int;
        if n[..k] == stem.shortName[..k] && n[8..] == stem.Ext() {
          longPrefixBitmap := longPrefixBitmap + {num};
        }
      }
    }

    method CheckForShortPrefixCollision(n: RawName)
      requires stem.Valid()
      modifies this`prefixChksumBitmap
      ensures forall d :: d in prefixChksumBitmap <==>
        d in old(prefixChksumBitmap) || stem.TakesChecksum(n, chksum, d)
    {
      var k := Min(stem.basenameLen, 2);
      if n[k + 4] != TILDE {
        return;
      }
      if '0' as int <= n[k + 5] <= '9' as int {
        var num := n[k + 5] as int - '0' as int;
        if n[..k] == stem.shortName[..k] && n[8..] == stem.Ext() {
          if FromHex(n[k..k + 4]) == Some(chksum) {
            prefixChksumBitmap := prefixChksumBitmap + {num};
          }
        }
      }
    }

    method Generate() returns (r: Result<RawName>)
      requires Valid()
      ensures r == Chosen()
      ensures !lossyConv && nameFits && !exactMatch ==> r == Success(stem.shortName)
      ensures lossyConv || !nameFits || exactMatch ==> Numbered(stem, seen, chksum, r)
    {
      if !lossyConv && nameFits && !exactMatch {
        return Success(stem.shortName);
      }
      for i := 1 to 5
        invariant FirstFree(longPrefixBitmap, 1, 5) == FirstFree(longPrefixBitmap, i, 5)
      {
        if i !in longPrefixBitmap { return Success(stem.Prefixed(i, None)); }
      }
      for i := 1 to 10
        invariant FirstFree(prefixChksumBitmap, 1, 10) == FirstFree(prefixChksumBitmap, i, 10)
      {
        if i !in prefixChksumBitmap { return Success(stem.Prefixed(i, Some(chksum))); }
      }
      r := Failure(AlreadyExists);
    }

    method NextIteration()
      requires Valid()
      modifies this
      ensures Valid() && seen == [] && chksum == (old(chksum) + 1) % 0x1_0000 && exactMatch == old(exactMatch)
    {
      chksum := (chksum as int + 1) % 0x1_0000;
      longPrefixBitmap, prefixChksumBitmap, seen := {}, {}, [];
    }

    /** What `Generate` returns. */
    function Chosen(): Result<RawName>
      requires stem.Valid()
      reads this
    {
      Choice(stem, !lossyConv && nameFits && !exactMatch, longPrefixBitmap, chksum, prefixChksumBitmap)
    }

    /** No name can be generated only if all numbers of the checksum are taken. */
    lemma NoChoiceLeft()
      requires Valid() && Chosen().Failure?
      ensures Chosen() == Failure(AlreadyExists)
      ensures forall d :: 1 <= d < 10 ==> stem.ChecksumTaken(seen, chksum, d)
    {
    }

    /** The name that is generated is none of the names scanned, and it can be stored. */
    lemma ChoiceIsNew()
      requires Valid() && Chosen().Success?
      ensures Chosen().value !in seen && Usable(Chosen().value)
      ensures !lossyConv && nameFits && stem.shortName !in seen && !exactMatch ==> Chosen().value == stem.shortName
    {
      var i, k := FirstFree(longPrefixBitmap, 1, 5), FirstFree(prefixChksumBitmap, 1, 10);
      if i < 5 {
        PrefixedTakes(stem, i, chksum);
        assert !stem.NumberTaken(seen, i);
      }
      if k < 10 {
        PrefixedTakes(stem, k, chksum);
        assert !stem.ChecksumTaken(seen, chksum, k);
      }
    }
  }

  // ---------- why the search ends ----------

  /** The names, by position, that take a number of the checksum `c`. */
  ghost function Users(stem: Stem, names: seq<RawName>, c: u16): set<nat>
    requires stem.Valid()
  {
    set j: nat | j < |names| && exists d :: 1 <= d < 10 && stem.TakesChecksum(names[j], c, d)
  }

  /** When no number of a checksum is left, nine names use them up. */
  lemma NineUsers(stem: Stem, names: seq<RawName>, c: u16)
    requires stem.Valid() && forall d :: 1 <= d < 10 ==> stem.ChecksumTaken(names, c, d)
    ensures |Users(stem, names, c)| >= 9
  {
    var js := FirstUsers(stem, names, c, 10);
  }

  lemma {:induction false} FirstUsers(stem: Stem, names: seq<RawName>, c: u16, n: nat) returns (js: set<nat>)
    requires stem.Valid() && 1 <= n <= 10 && forall d :: 1 <= d < 10 ==> stem.ChecksumTaken(names, c, d)
    ensures |js| == n - 1
    ensures forall j :: j in js ==> j < |names| && exists d :: 1 <= d < n && stem.TakesChecksum(names[j], c, d)
    ensures js <= Users(stem, names, c) && |js| <= |Users(stem, names, c)|
  {
    if n == 1 {
      js := {};
    } else {
      js := FirstUsers(stem, names, c, n - 1);
      assert stem.ChecksumTaken(names, c, n - 1);
      var j: nat :| j < |names| && stem.TakesChecksum(names[j], c, n - 1);
      js := js + {j};
    }
    SubsetSize(js, Users(stem, names, c));
  }

  lemma {:induction false} SubsetSize(a: set<nat>, b: set<nat>)
    requires a <= b
    ensures |a| <= |b|
  {
    if a != {} {
      var x :| x in a;
      SubsetSize(a - {x}, b - {x});
    }
  }

  /** The checksum of round `k`. */
  function Round(c: u16, k: nat): u16 {
    (c as int + k) % 0x1_0000
  }

  lemma NextRound(c: u16, k: nat)
    ensures Round(c, 0) == c && Round(c, k + 1) == (Round(c, k) as int + 1) % 0x1_0000
  {
  }

  /** The names that use the checksums of the first `k` rounds. */
  ghost function UsersOf(stem: Stem, names: seq<RawName>, c: u16, k: nat): set<nat>
    requires stem.Valid()
  {
    if k == 0 then {} else UsersOf(stem, names, c, k - 1) + Users(stem, names, Round(c, k - 1))
  }

  lemma {:induction false} UserRound(stem: Stem, names: seq<RawName>, c: u16, k: nat, j: nat) returns (i: nat)
    requires stem.Valid() && j in UsersOf(stem, names, c, k)
    ensures j < |names| && i < k && j in Users(stem, names, Round(c, i))
  {
    if j in Users(stem, names, Round(c, k - 1)) {
      i := k - 1;
    } else {
      i := UserRound(stem, names, c, k - 1, j);
    }
  }

  /** A name parses to one checksum only. */
  lemma OneChecksum(stem: Stem, names: seq<RawName>, c: u16, d: u16, j: nat)
    requires stem.Valid() && j in Users(stem, names, c) && j in Users(stem, names, d)
    ensures c == d
  {
  }

  lemma RoundsDiffer(c: u16, i: nat, k: nat)
    requires i < k < CHECKSUMS
    ensures Round(c, i) != Round(c, k)
  {
  }

  /** Each failed round uses up nine more names. */
  lemma OneMoreFailure(stem: Stem, names: seq<RawName>, c: u16, k: nat)
    requires stem.Valid() && k < CHECKSUMS
    requires forall d :: 1 <= d < 10 ==> stem.ChecksumTaken(names, Round(c, k), d)
    ensures |UsersOf(stem, names, c, k + 1)| >= |UsersOf(stem, names, c, k)| + 9
  {
    var before, now := UsersOf(stem, names, c, k), Users(stem, names, Round(c, k));
    NineUsers(stem, names, Round(c, k));
    forall j | j in before ensures j !in now {
      var i := UserRound(stem, names, c, k, j);
      RoundsDiffer(c, i, k);
      if j in now { OneChecksum(stem, names, Round(c, i), Round(c, k), j); }
    }
    assert UsersOf(stem, names, c, k + 1) == before + now && before !! now;
  }

  lemma FewUsers(stem: Stem, names: seq<RawName>, c: u16, k: nat)
    requires stem.Valid()
    ensures |UsersOf(stem, names, c, k)| <= |names|
  {
    forall j | j in UsersOf(stem, names, c, k) ensures j in Below(|names|) {
      var _ := UserRound(stem, names, c, k, j);
    }
    SubsetSize(UsersOf(stem, names, c, k), Below(|names|));
  }

  ghost function Below(n: nat): (r: set<nat>)
    ensures |r| == n && forall j: nat :: j in r <==> j < n
  {
    if n == 0 then {} else Below(n - 1) + {n - 1}
  }
}
