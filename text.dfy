/** The Python string and byte-string built-ins the repository relies on.
    A `string` here stands for either a Python `str` or a `bytes` value: each
    character is one byte, and text is ASCII, so `encode`/`decode` are the
    identity. */
module Text {
  import opened Common

  // ---------------------------------------------------------------- prefixes

  predicate StartsWith(s: string, p: string) {
    |p| <= |s| && s[..|p|] == p
  }

  /** `sub in s` for strings. */
  predicate Contains(s: string, sub: string) {
    exists i | 0 <= i <= |s| :: StartsWith(s[i..], sub)
  }

  // ---------------------------------------------------------------- find

  /** `s.find(c, start)`: the first position at or after `start` holding `c`, or -1. */
  function Find(s: string, c: char, start: nat): (r: int)
    ensures r == -1 || (start <= r < |s| && s[r] == c)
    ensures r == -1 ==> forall k | start <= k < |s| :: s[k] != c
    ensures r != -1 ==> forall k | start <= k < r :: s[k] != c
    decreases |s| - start
  {
    if start >= |s| then -1
    else if s[start] == c then start
    else Find(s, c, start + 1)
  }

  lemma FindFirst(s: string, c: char, start: nat, k: nat)
    requires start <= k < |s| && s[k] == c
    requires forall j | start <= j < k :: s[j] != c
    ensures Find(s, c, start) == k
  {
  }

  // ---------------------------------------------------------------- whitespace

  /** The characters `str.isspace()` accepts. */
  predicate IsStrSpace(c: char) {
    var n := c as int;
    (9 <= n <= 13) || (28 <= n <= 32) || n == 0x85 || n == 0xA0 || n == 0x1680
    || (0x2000 <= n <= 0x200A) || n == 0x2028 || n == 0x2029 || n == 0x202F
    || n == 0x205F || n == 0x3000
  }

  /** The characters `bytes.isspace()` accepts. */
  predicate IsByteSpace(c: char) {
    var n := c as int;
    (9 <= n <= 13) || n == 32
  }

  function TrimLeft(s: string, sp: char -> bool): (r: string)
    ensures |r| <= |s|
    ensures r == [] || !sp(r[0])
    decreases |s|
  {
    if s == [] || !sp(s[0]) then s else TrimLeft(s[1..], sp)
  }

  /** What `TrimLeft` keeps is a suffix of its input. */
  lemma {:induction false} TrimLeftSuffix(s: string, sp: char -> bool)
    ensures TrimLeft(s, sp) == s[|s| - |TrimLeft(s, sp)|..]
    decreases |s|
  {
    if s != [] && sp(s[0]) {
      TrimLeftSuffix(s[1..], sp);
    }
  }

  /** Everything `TrimLeft` removes is a space. */
  lemma {:induction false} TrimLeftRemovesSpaces(s: string, sp: char -> bool, k: nat)
    requires k < |s| - |TrimLeft(s, sp)|
    ensures sp(s[k])
    decreases |s|
  {
    if k > 0 {
      TrimLeftRemovesSpaces(s[1..], sp, k - 1);
    }
  }

  function TrimRight(s: string, sp: char -> bool): (r: string)
    ensures |r| <= |s|
    ensures r == [] || !sp(r[|r| - 1])
    decreases |s|
  {
    if s == [] || !sp(s[|s| - 1]) then s else TrimRight(s[..|s| - 1], sp)
  }

  /** What `TrimRight` keeps is a prefix of its input. */
  lemma {:induction false} TrimRightPrefix(s: string, sp: char -> bool)
    ensures TrimRight(s, sp) == s[..|TrimRight(s, sp)|]
    decreases |s|
  {
    if s != [] && sp(s[|s| - 1]) {
      TrimRightPrefix(s[..|s| - 1], sp);
    }
  }

  /** Everything `TrimRight` removes is a space. */
  lemma {:induction false} TrimRightRemovesSpaces(s: string, sp: char -> bool, k: nat)
    requires |TrimRight(s, sp)| <= k < |s|
    ensures sp(s[k])
    decreases |s|
  {
    if k < |s| - 1 {
      TrimRightRemovesSpaces(s[..|s| - 1], sp, k);
    }
  }

  /** `str.strip()`. */
  function Strip(s: string): string {
    TrimRight(TrimLeft(s, IsStrSpace), IsStrSpace)
  }

  /** Text that neither starts nor ends with whitespace strips to itself,
      also with a newline after it. */
  lemma StripPlainText(s: string)
    requires s != [] && !IsStrSpace(s[0]) && !IsStrSpace(s[|s| - 1])
    ensures Strip(s) == s && Strip(s + "\n") == s
  {
    var t := s + "\n";
    assert TrimLeft(s, IsStrSpace) == s;
    assert TrimLeft(t, IsStrSpace) == t;
    assert t[..|t| - 1] == s;
    assert TrimRight(t, IsStrSpace) == TrimRight(s, IsStrSpace);
  }

  /** Number of leading characters that are not spaces. */
  function TokenLen(s: string, sp: char -> bool): (n: nat)
    ensures n <= |s|
    ensures forall k | 0 <= k < n :: !sp(s[k])
    ensures n < |s| ==> sp(s[n])
    decreases |s|
  {
    if s == [] || sp(s[0]) then 0 else 1 + TokenLen(s[1..], sp)
  }

  /** `s.split()` with no separator: the maximal runs of non-space characters. */
  function Words(s: string, sp: char -> bool): seq<string>
    decreases |s|
  {
    var t := TrimLeft(s, sp);
    if t == [] then []
    else
      var n := TokenLen(t, sp);
      [t[..n]] + Words(t[n..], sp)
  }

  predicate NoneSpace(s: string, sp: char -> bool) {
    forall k | 0 <= k < |s| :: !sp(s[k])
  }

  lemma TokenLenWhole(a: string, rest: string, sp: char -> bool)
    requires NoneSpace(a, sp)
    requires rest == [] || sp(rest[0])
    ensures TokenLen(a + rest, sp) == |a|
    decreases |a|
  {
    if a != [] {
      assert (a + rest)[1..] == a[1..] + rest;
      TokenLenWhole(a[1..], rest, sp);
    }
  }

  /** A leading word followed by a space (or nothing) is the first item of `split()`. */
  lemma WordsCons(a: string, rest: string, sp: char -> bool)
    requires a != [] && NoneSpace(a, sp)
    requires rest == [] || sp(rest[0])
    ensures Words(a + rest, sp) == [a] + Words(rest, sp)
  {
    var s := a + rest;
    assert TrimLeft(s, sp) == s;
    TokenLenWhole(a, rest, sp);
    assert s[..|a|] == a;
    assert s[|a|..] == rest;
  }

  /** Leading spaces do not change `split()`. */
  lemma WordsSkipSpace(c: char, b: string, sp: char -> bool)
    requires sp(c)
    ensures Words([c] + b, sp) == Words(b, sp)
  {
    var s := [c] + b;
    assert s[1..] == b;
    assert TrimLeft(s, sp) == TrimLeft(b, sp);
    var t := TrimLeft(b, sp);
    if t != [] {
      var n := TokenLen(t, sp);
      assert Words(s, sp) == [t[..n]] + Words(t[n..], sp);
      assert Words(b, sp) == [t[..n]] + Words(t[n..], sp);
    }
  }

  /** One space-free word splits into itself. */
  lemma WordsSingle(b: string, sp: char -> bool)
    requires b != [] && NoneSpace(b, sp)
    ensures Words(b, sp) == [b]
  {
    assert Words([], sp) == [] by {
      assert TrimLeft([], sp) == [];
    }
    assert b + [] == b;
    WordsCons(b, [], sp);
  }

  /** Two space-free words separated by one space split back into those two words. */
  lemma WordsPair(a: string, b: string, sp: char -> bool)
    requires a != [] && b != [] && NoneSpace(a, sp) && NoneSpace(b, sp) && sp(' ')
    ensures Words(a + " " + b, sp) == [a, b]
  {
    var rest := [' '] + b;
    assert a + " " + b == a + rest;
    WordsPairRest(a, b, rest, sp);
  }

  lemma WordsPairRest(a: string, b: string, rest: string, sp: char -> bool)
    requires a != [] && b != [] && NoneSpace(a, sp) && NoneSpace(b, sp) && sp(' ')
    requires rest == [' '] + b
    ensures Words(a + rest, sp) == [a, b]
  {
    WordsCons(a, rest, sp);
    WordsSkipSpace(' ', b, sp);
    WordsSingle(b, sp);
  }

  // ---------------------------------------------------------------- split and join

  /** `s.split(c)` with a one-character separator. */
  function Split(s: string, c: char): (r: seq<string>)
    ensures |r| >= 1
    decreases |s|
  {
    var k := Find(s, c, 0);
    if k < 0 then [s] else [s[..k]] + Split(s[k + 1..], c)
  }

  /** `s.split(c, 1)`: at most one cut, at the first `c`. */
  function SplitOnce(s: string, c: char): (r: seq<string>)
    ensures |r| == 1 || |r| == 2
    ensures |r| == 1 <==> c !in s
  {
    var k := Find(s, c, 0);
    if k < 0 then [s] else [s[..k], s[k + 1..]]
  }

  /** `sep.join(parts)` with a one-character separator. */
  function JoinWith(parts: seq<string>, c: char): string
    decreases |parts|
  {
    if |parts| == 0 then ""
    else if |parts| == 1 then parts[0]
    else parts[0] + [c] + JoinWith(parts[1..], c)
  }

  lemma {:induction false} SplitJoin(parts: seq<string>, c: char)
    requires |parts| >= 1
    requires forall i | 0 <= i < |parts| :: c !in parts[i]
    ensures Split(JoinWith(parts, c), c) == parts
    decreases |parts|
  {
    var s := JoinWith(parts, c);
    if |parts| == 1 {
      assert Find(s, c, 0) == -1;
    } else {
      var rest := JoinWith(parts[1..], c);
      assert s == parts[0] + [c] + rest;
      FindFirst(s, c, 0, |parts[0]|);
      assert s[..|parts[0]|] == parts[0];
      assert s[|parts[0]| + 1..] == rest;
      SplitJoin(parts[1..], c);
      assert parts == [parts[0]] + parts[1..];
    }
  }

  lemma {:induction false} JoinSplit(s: string, c: char)
    ensures JoinWith(Split(s, c), c) == s
    decreases |s|
  {
    var k := Find(s, c, 0);
    if k >= 0 {
      JoinSplit(s[k + 1..], c);
      JoinSplitStep(s, c, k);
    }
  }

  /** Joining the pieces around the first separator. */
  lemma {:induction false} JoinSplitStep(s: string, c: char, k: nat)
    requires k == Find(s, c, 0)
    requires JoinWith(Split(s[k + 1..], c), c) == s[k + 1..]
    ensures JoinWith(Split(s, c), c) == s
  {
    var tail := Split(s[k + 1..], c);
    assert Split(s, c) == [s[..k]] + tail;
    assert ([s[..k]] + tail)[1..] == tail;
    assert s == s[..k] + [c] + s[k + 1..];
  }

  /** The first line of text joined with newlines. */
  lemma FirstLineOfJoin(first: string, rest: seq<string>)
    requires '\n' !in first
    ensures Split(JoinWith([first] + rest, '\n'), '\n')[0] == first
  {
    var s := JoinWith([first] + rest, '\n');
    if rest == [] {
      assert s == first;
      assert Find(s, '\n', 0) == -1;
    } else {
      assert ([first] + rest)[1..] == rest;
      assert s == first + ['\n'] + JoinWith(rest, '\n');
      FindFirst(s, '\n', 0, |first|);
      assert s[..|first|] == first;
    }
  }

  /** Iterating over a text file: every line keeps its terminating newline,
      the last one may lack it, and an empty file has no lines. */
  function FileLines(s: string): seq<string>
    decreases |s|
  {
    if s == [] then []
    else
      var k := Find(s, '\n', 0);
      if k < 0 then [s] else [s[..k + 1]] + FileLines(s[k + 1..])
  }

  /** The characters at which `str.splitlines()` ends a line. */
  predicate IsLineBreak(c: char) {
    var n := c as int;
    n == 10 || n == 11 || n == 12 || n == 13 || n == 28 || n == 29 || n == 30
    || n == 0x85 || n == 0x2028 || n == 0x2029
  }

  function FirstBreak(s: string, i: nat): (r: nat)
    requires i <= |s|
    ensures i <= r <= |s|
    ensures forall k | i <= k < r :: !IsLineBreak(s[k])
    ensures r < |s| ==> IsLineBreak(s[r])
    decreases |s| - i
  {
    if i == |s| || IsLineBreak(s[i]) then i else FirstBreak(s, i + 1)
  }

  /** `s.splitlines()[0]`, which raises IndexError on an empty string. */
  function FirstLine(s: string): Option<string> {
    if s == [] then None else Some(s[..FirstBreak(s, 0)])
  }

  // ---------------------------------------------------------------- numbers

  function DigitChar(d: nat): (c: char)
    requires d < 10
    ensures '0' <= c <= '9'
  {
    "0123456789"[d]
  }

  /** `str(n)` for a natural number. */
  function Decimal(n: nat): (r: string)
    ensures |r| >= 1
    ensures forall k | 0 <= k < |r| :: '0' <= r[k] <= '9'
    decreases n
  {
    if n < 10 then [DigitChar(n)] else Decimal(n / 10) + [DigitChar(n % 10)]
  }

  // ---------------------------------------------------------------- case

  function LowerChar(c: char): char {
    if 'A' <= c <= 'Z' then (c as int + 32) as char else c
  }

  function UpperChar(c: char): char {
    if 'a' <= c <= 'z' then (c as int - 32) as char else c
  }

  /** `s.lower()` on ASCII text. */
  function Lower(s: string): (r: string)
    ensures |r| == |s| && forall k | 0 <= k < |s| :: r[k] == LowerChar(s[k])
  {
    seq(|s|, k requires 0 <= k < |s| => LowerChar(s[k]))
  }

  /** `s.upper()` on ASCII text. */
  function Upper(s: string): (r: string)
    ensures |r| == |s| && forall k | 0 <= k < |s| :: r[k] == UpperChar(s[k])
  {
    seq(|s|, k requires 0 <= k < |s| => UpperChar(s[k]))
  }

  // ---------------------------------------------------------------- hexadecimal

  /** The lower-case hexadecimal digit of value `d`. */
  function HexDigit(d: nat): (c: char)
    requires d < 16
  {
    if d < 10 then ('0' as int + d) as char else ('a' as int + d - 10) as char
  }

  predicate IsLowerHexChar(c: char) {
    ('0' <= c <= '9') || ('a' <= c <= 'f')
  }

  predicate IsHexChar(c: char) {
    IsLowerHexChar(LowerChar(c))
  }

  predicate AllLowerHex(s: string) {
    forall k | 0 <= k < |s| :: IsLowerHexChar(s[k])
  }

  /** `all(c in "0123456789abcdef" for c in s.lower())`. */
  predicate AllHex(s: string) {
    forall k | 0 <= k < |s| :: IsHexChar(s[k])
  }

  /** The text form of an object id: 40 lower-case hexadecimal characters. */
  predicate IsOid(s: string) {
    |s| == 40 && AllLowerHex(s)
  }

  type Oid = s: string | IsOid(s)
    witness "0000000000000000000000000000000000000000"

  function HexVal(c: char): (v: nat)
    requires IsLowerHexChar(c)
    ensures v < 16 && HexDigit(v) == c
  {
    if '0' <= c <= '9' then c as int - '0' as int else c as int - 'a' as int + 10
  }

  lemma HexDigitVal(d: nat)
    requires d < 16
    ensures IsLowerHexChar(HexDigit(d)) && HexVal(HexDigit(d)) == d
  {
  }

  /** The two digits of one byte value. */
  function ByteHex(v: nat): (r: string)
    requires v < 256
    ensures |r| == 2 && IsLowerHexChar(r[0]) && IsLowerHexChar(r[1])
  {
    HexDigitVal(v / 16);
    HexDigitVal(v % 16);
    [HexDigit(v / 16), HexDigit(v % 16)]
  }

  /** Reading back the two digits of `ByteHex(v)` gives `v`. */
  lemma ByteHexVal(v: nat)
    requires v < 256
    ensures HexVal(ByteHex(v)[0]) * 16 + HexVal(ByteHex(v)[1]) == v
  {
    HexDigitVal(v / 16);
    HexDigitVal(v % 16);
  }

  /** Writing back the value of two digits gives those digits. */
  lemma PairHexVal(c0: char, c1: char)
    requires IsLowerHexChar(c0) && IsLowerHexChar(c1)
    ensures HexVal(c0) * 16 + HexVal(c1) < 256
    ensures ByteHex(HexVal(c0) * 16 + HexVal(c1)) == [c0, c1]
  {
    var d0, d1 := HexVal(c0), HexVal(c1);
    var v := d0 * 16 + d1;
    assert v / 16 == d0 && v % 16 == d1;
  }

  /** `bytes.hex()`: two lower-case digits per byte. */
  function ToHex(b: string): (r: string)
    ensures |r| == 2 * |b| && AllLowerHex(r)
  {
    if b == [] then [] else ByteHex(b[0] as int % 256) + ToHex(b[1..])
  }

  /** `bytes.fromhex(h)` for lower-case hexadecimal text of even length. */
  function FromHex(h: string): (r: string)
    requires |h| % 2 == 0 && AllLowerHex(h)
    ensures |r| == |h| / 2
    ensures forall k | 0 <= k < |r| :: r[k] as int < 256
  {
    if h == [] then []
    else
      PairHexVal(h[0], h[1]);
      [(HexVal(h[0]) * 16 + HexVal(h[1])) as char] + FromHex(h[2..])
  }

  lemma {:induction false} HexRoundTrip(h: string)
    requires |h| % 2 == 0 && AllLowerHex(h)
    ensures ToHex(FromHex(h)) == h
    decreases |h|
  {
    if h != [] {
      var v := HexVal(h[0]) * 16 + HexVal(h[1]);
      PairHexVal(h[0], h[1]);
      assert AllLowerHex(h[2..]) by {
        forall k | 0 <= k < |h[2..]| ensures IsLowerHexChar(h[2..][k]) {
          assert h[2..][k] == h[k + 2];
        }
      }
      assert FromHex(h) == [v as char] + FromHex(h[2..]);
      ToHexCons(v as char, FromHex(h[2..]));
      HexRoundTrip(h[2..]);
      assert h == [h[0], h[1]] + h[2..];
    }
  }

  /** A byte in front puts its two digits in front. */
  lemma {:induction false} ToHexCons(x: char, rest: string)
    requires x as int < 256
    ensures ToHex([x] + rest) == ByteHex(x as int) + ToHex(rest)
  {
    assert ([x] + rest)[0] as int % 256 == x as int;
    assert ([x] + rest)[1..] == rest;
  }

  lemma {:induction false} BytesRoundTrip(b: string)
    requires forall k | 0 <= k < |b| :: b[k] as int < 256
    ensures FromHex(ToHex(b)) == b
    decreases |b|
  {
    if b != [] {
      BytesStep(b);
      BytesRoundTrip(b[1..]);
      assert b == [b[0]] + b[1..];
    }
  }

  /** The first byte comes back first. */
  lemma {:induction false} BytesStep(b: string)
    requires b != [] && b[0] as int < 256
    ensures FromHex(ToHex(b)) == [b[0]] + FromHex(ToHex(b[1..]))
  {
    var v := b[0] as int;
    var t := ToHex(b);
    assert t == ByteHex(v) + ToHex(b[1..]);
    assert t[2..] == ToHex(b[1..]);
    ByteHexVal(v);
  }

  lemma ToHexIsOid(b: string)
    requires |b| == 20
    ensures IsOid(ToHex(b))
  {
  }

  // ---------------------------------------------------------------- paths

  /** `os.path.join(a, b)` on POSIX. */
  function PathJoin(a: string, b: string): string {
    if StartsWith(b, "/") then b
    else if a == [] || a[|a| - 1] == '/' then a + b
    else a + "/" + b
  }

  /** `s.lstrip(c)`. */
  function LStrip(s: string, c: char): (r: string)
    ensures |r| <= |s|
    ensures r == [] || r[0] != c
    decreases |s|
  {
    if s != [] && s[0] == c then LStrip(s[1..], c) else s
  }

  /** What `LStrip` keeps is a suffix of its input. */
  lemma {:induction false} LStripSuffix(s: string, c: char)
    ensures LStrip(s, c) == s[|s| - |LStrip(s, c)|..]
    decreases |s|
  {
    if s != [] && s[0] == c {
      LStripSuffix(s[1..], c);
    }
  }

  // ---------------------------------------------------------------- ordering

  /** Python's `<` on strings: lexicographic by character code. */
  predicate Less(a: string, b: string)
    decreases |a|
  {
    if a == [] then b != []
    else if b == [] then false
    else if a[0] != b[0] then a[0] < b[0]
    else Less(a[1..], b[1..])
  }

  lemma {:induction false} LessIrreflexive(a: string)
    ensures !Less(a, a)
    decreases |a|
  {
    if a != [] { LessIrreflexive(a[1..]); }
  }

  lemma {:induction false} LessTransitive(a: string, b: string, c: string)
    requires Less(a, b) && Less(b, c)
    ensures Less(a, c)
    decreases |a|
  {
    if a != [] && b != [] && c != [] && a[0] == b[0] && b[0] == c[0] {
      LessTransitive(a[1..], b[1..], c[1..]);
    }
  }

  lemma {:induction false} LessTotal(a: string, b: string)
    requires a != b
    ensures Less(a, b) || Less(b, a)
    decreases |a|
  {
    if a != [] && b != [] && a[0] == b[0] {
      assert a == [a[0]] + a[1..] && b == [b[0]] + b[1..];
      LessTotal(a[1..], b[1..]);
    }
  }

  predicate StrictlySorted(s: seq<string>) {
    forall i, j | 0 <= i < j < |s| :: Less(s[i], s[j])
  }

  /** Insertion of one name into an ascending sequence. */
  function Insert(x: string, s: seq<string>): seq<string>
    decreases |s|
  {
    if s == [] then [x]
    else if Less(s[0], x) then [s[0]] + Insert(x, s[1..])
    else [x] + s
  }

  /** Insertion adds exactly the one name. */
  lemma {:induction false} InsertPerm(x: string, s: seq<string>)
    ensures multiset(Insert(x, s)) == multiset(s) + multiset{x}
    decreases |s|
  {
    if s != [] {
      assert s == [s[0]] + s[1..];
      if Less(s[0], x) {
        InsertPerm(x, s[1..]);
      }
    }
  }

  /** `sorted(names)`. */
  function Sort(s: seq<string>): seq<string>
    decreases |s|
  {
    if s == [] then [] else Insert(s[0], Sort(s[1..]))
  }

  /** Sorting permutes the names. */
  lemma {:induction false} SortPerm(s: seq<string>)
    ensures multiset(Sort(s)) == multiset(s)
    decreases |s|
  {
    if s != [] {
      SortPerm(s[1..]);
      InsertPerm(s[0], Sort(s[1..]));
      assert s == [s[0]] + s[1..];
    }
  }

  lemma SortedHeadLess(s: seq<string>, y: string)
    requires StrictlySorted(s) && |s| >= 1 && y in s[1..]
    ensures Less(s[0], y)
  {
    var m :| 0 <= m < |s[1..]| && s[1..][m] == y;
    assert s[1 + m] == y;
  }

  lemma {:induction false} InsertSorted(x: string, s: seq<string>)
    requires StrictlySorted(s) && x !in s
    ensures StrictlySorted(Insert(x, s))
    decreases |s|
  {
    if s != [] {
      if Less(s[0], x) {
        InsertSorted(x, s[1..]);
        InsertPerm(x, s[1..]);
        var r := Insert(x, s[1..]);
        forall j | 0 <= j < |r| ensures Less(s[0], r[j]) {
          assert r[j] in multiset(r);
          assert r[j] in multiset(s[1..]) + multiset{x};
          if r[j] != x {
            assert r[j] in multiset(s[1..]);
            assert r[j] in s[1..];
            SortedHeadLess(s, r[j]);
          }
        }
      } else {
        assert x != s[0];
        LessTotal(x, s[0]);
        forall j | 1 <= j < |s| ensures Less(x, s[j]) {
          LessTransitive(x, s[0], s[j]);
        }
      }
    }
  }

  lemma {:induction false} SortSorted(s: seq<string>)
    requires forall i, j | 0 <= i < j < |s| :: s[i] != s[j]
    ensures StrictlySorted(Sort(s))
    decreases |s|
  {
    if s != [] {
      SortSorted(s[1..]);
      assert s[0] !in s[1..] by {
        forall m | 0 <= m < |s[1..]| ensures s[1..][m] != s[0] {
          assert s[1 + m] != s[0];
        }
      }
      assert s[0] !in Sort(s[1..]) by {
        SortPerm(s[1..]);
        assert s[0] !in multiset(s[1..]);
      }
      InsertSorted(s[0], Sort(s[1..]));
    }
  }
}
