/**
  String operations of the JavaScript runtime that the archive-to-text
  pipeline relies on: prefix and suffix tests, `includes`, ASCII
  `toLowerCase`, `trim`, `split`/`join` on one separator character,
  the default code-unit order used by `Array.prototype.sort`, and the
  `toFixed(2)` rendering of a byte count divided by 1024.

  A `string` here is a `seq<char>`; each `char` is one Unicode code point,
  which is one UTF-16 code unit of the source's strings on the Basic
  Multilingual Plane.
*/
module Strings {

  predicate StartsWith(s: string, p: string) {
    |p| <= |s| && s[..|p|] == p
  }

  predicate EndsWith(s: string, p: string) {
    |p| <= |s| && s[|s| - |p|..] == p
  }

  /** `s.includes(p)`: `p` occurs in `s` at some position. */
  predicate Contains(s: string, p: string)
    decreases |s|
  {
    StartsWith(s, p) || (|s| > 0 && Contains(s[1..], p))
  }

  // ---------------------------------------------------------------------
  // Lower case (ASCII letters only)

  function LowerChar(c: char): char {
    if 'A' <= c <= 'Z' then (c as int + 32) as char else c
  }

  function Lower(s: string): (r: string)
    ensures |r| == |s|
    ensures forall i :: 0 <= i < |s| ==> r[i] == LowerChar(s[i])
  {
    seq(|s|, i requires 0 <= i < |s| => LowerChar(s[i]))
  }

  // ---------------------------------------------------------------------
  // trim(): the WhiteSpace and LineTerminator code points of ECMA-262

  predicate IsJsSpace(c: char) {
    c == '\t' || c == '\n' || c == '\U{000B}' || c == '\U{000C}' || c == '\r' || c == ' '
    || c == '\U{00A0}' || c == '\U{1680}' || ('\U{2000}' <= c <= '\U{200A}')
    || c == '\U{2028}' || c == '\U{2029}' || c == '\U{202F}' || c == '\U{205F}'
    || c == '\U{3000}' || c == '\U{FEFF}'
  }

  function TrimStart(s: string): (r: string)
    ensures |r| <= |s| && r == s[|s| - |r|..]
    ensures forall i :: 0 <= i < |s| - |r| ==> IsJsSpace(s[i])
    ensures r == [] || !IsJsSpace(r[0])
  {
    if s != [] && IsJsSpace(s[0]) then TrimStart(s[1..]) else s
  }

  function TrimEnd(s: string): (r: string)
    ensures |r| <= |s| && r == s[..|r|]
    ensures forall i :: |r| <= i < |s| ==> IsJsSpace(s[i])
    ensures r == [] || !IsJsSpace(r[|r| - 1])
  {
    if s != [] && IsJsSpace(s[|s| - 1]) then TrimEnd(s[..|s| - 1]) else s
  }

  /** `s.trim()`: `s` with its leading and trailing white space removed. */
  function Trim(s: string): string {
    TrimEnd(TrimStart(s))
  }

  /**
    `Trim(s)` is the infix of `s` that starts at offset `k`, with only white
    space before and after it, and neither starts nor ends with white space.
  */
  lemma TrimSpec(s: string)
    ensures var r, k := Trim(s), |s| - |TrimStart(s)|;
      0 <= k <= |s| - |r| && r == s[k..k + |r|]
      && (forall i :: 0 <= i < k ==> IsJsSpace(s[i]))
      && (forall i :: k + |r| <= i < |s| ==> IsJsSpace(s[i]))
      && (r == [] || (!IsJsSpace(r[0]) && !IsJsSpace(r[|r| - 1])))
  {
    var t := TrimStart(s);
    var r := TrimEnd(t);
    var k := |s| - |t|;
    assert t == s[k..];
    assert r == t[..|r|];
    assert r == s[k..k + |r|];
    forall i | k + |r| <= i < |s|
      ensures IsJsSpace(s[i])
    {
      assert s[i] == t[i - k];
    }
  }

  // ---------------------------------------------------------------------
  // split / join on a single separator character

  function Count(s: string, c: char): nat {
    if s == [] then 0 else (if s[0] == c then 1 else 0) + Count(s[1..], c)
  }

  /** `s.split(sep)`: the maximal separator-free pieces, always at least one. */
  function Split(s: string, sep: char): (parts: seq<string>)
    ensures |parts| >= 1
  {
    if s == [] then [[]]
    else
      var rest := Split(s[1..], sep);
      if s[0] == sep then [[]] + rest else [[s[0]] + rest[0]] + rest[1..]
  }

  /** `parts.join(sep)`. */
  function Join(parts: seq<string>, sep: char): string {
    if parts == [] then []
    else if |parts| == 1 then parts[0]
    else parts[0] + [sep] + Join(parts[1..], sep)
  }

  /** The last piece of `s.split(sep)`, as `pop()` returns it. */
  function LastPart(s: string, sep: char): string {
    var parts := Split(s, sep);
    parts[|parts| - 1]
  }

  lemma {:induction false} JoinSplit(s: string, sep: char)
    ensures Join(Split(s, sep), sep) == s
  {
    if s != [] {
      var rest := Split(s[1..], sep);
      JoinSplit(s[1..], sep);
      if s[0] == sep {
        assert Split(s, sep)[1..] == rest;
      } else if |rest| == 1 {
        assert s == [s[0]] + s[1..];
      } else {
        var parts := Split(s, sep);
        assert parts[1..] == rest[1..];
        assert Join(rest, sep) == rest[0] + [sep] + Join(rest[1..], sep);
        assert s == [s[0]] + s[1..];
      }
    }
  }

  lemma {:induction false} SplitPiecesFree(s: string, sep: char)
    ensures forall p :: p in Split(s, sep) ==> sep !in p
  {
    if s != [] {
      SplitPiecesFree(s[1..], sep);
    }
  }

  lemma {:induction false} SplitLength(s: string, sep: char)
    ensures |Split(s, sep)| == Count(s, sep) + 1
  {
    if s != [] {
      SplitLength(s[1..], sep);
    }
  }

  lemma {:induction false} SplitConcat(a: string, b: string, sep: char)
    ensures Split(a + [sep] + b, sep) == Split(a, sep) + Split(b, sep)
  {
    var s := a + [sep] + b;
    if a == [] {
      assert s[1..] == b;
    } else {
      assert s[1..] == a[1..] + [sep] + b;
      SplitConcat(a[1..], b, sep);
    }
  }

  lemma {:induction false} JoinAppend(xs: seq<string>, ys: seq<string>, sep: char)
    requires |xs| >= 1 && |ys| >= 1
    ensures Join(xs + ys, sep) == Join(xs, sep) + [sep] + Join(ys, sep)
  {
    if |xs| > 1 {
      assert (xs + ys)[1..] == xs[1..] + ys;
      JoinAppend(xs[1..], ys, sep);
    }
  }

  /** Joining separator-free pieces and splitting again gives the pieces back. */
  lemma {:induction false} SplitJoin(parts: seq<string>, sep: char)
    requires |parts| >= 1
    requires forall p :: p in parts ==> sep !in p
    ensures Split(Join(parts, sep), sep) == parts
  {
    if |parts| == 1 {
      SplitFree(parts[0], sep);
    } else {
      SplitJoin(parts[1..], sep);
      SplitConcat(parts[0], Join(parts[1..], sep), sep);
      SplitFree(parts[0], sep);
    }
  }

  lemma {:induction false} SplitFree(s: string, sep: char)
    requires sep !in s
    ensures Split(s, sep) == [s]
  {
    if s != [] {
      SplitFree(s[1..], sep);
      assert s == [s[0]] + s[1..];
    }
  }

  /**
    The strings `parts[..i]` joined, for `1 <= i <= |parts|` with
    `parts == s.split(sep)`, are exactly `s` and the prefixes of `s` that a
    separator follows.
  */
  lemma JoinedPrefix(s: string, sep: char, i: nat)
    requires 1 <= i <= |Split(s, sep)|
    ensures var m := Join(Split(s, sep)[..i], sep);
      if i == |Split(s, sep)| then m == s else StartsWith(s, m + [sep])
  {
    var parts := Split(s, sep);
    JoinSplit(s, sep);
    if i == |parts| {
      assert parts[..i] == parts;
    } else {
      JoinAppend(parts[..i], parts[i..], sep);
      assert parts[..i] + parts[i..] == parts;
    }
  }

  lemma PrefixIsJoined(s: string, sep: char, m: string)
    requires StartsWith(s, m + [sep])
    ensures exists i :: 1 <= i < |Split(s, sep)| && Join(Split(s, sep)[..i], sep) == m
  {
    var t := s[|m| + 1..];
    assert s == m + [sep] + t;
    SplitConcat(m, t, sep);
    var i := |Split(m, sep)|;
    assert Split(s, sep)[..i] == Split(m, sep);
    JoinSplit(m, sep);
  }

  lemma {:induction false} LastPartSuffix(s: string, sep: char)
    ensures sep !in LastPart(s, sep)
    ensures EndsWith(s, LastPart(s, sep))
    ensures LastPart(s, sep) == s
      || (|LastPart(s, sep)| < |s| && s[|s| - |LastPart(s, sep)| - 1] == sep)
  {
    var parts := Split(s, sep);
    SplitPiecesFree(s, sep);
    JoinSplit(s, sep);
    var n := |parts|;
    if n > 1 {
      JoinAppend(parts[..n - 1], [parts[n - 1]], sep);
      assert parts[..n - 1] + [parts[n - 1]] == parts;
    }
  }

  // ---------------------------------------------------------------------
  // Code-unit order of the default `sort()`

  predicate LexLe(a: string, b: string) {
    if a == [] then true
    else if b == [] then false
    else if a[0] != b[0] then a[0] < b[0]
    else LexLe(a[1..], b[1..])
  }

  lemma {:induction false} LexTotal(a: string, b: string)
    ensures LexLe(a, b) || LexLe(b, a)
  {
    if a != [] && b != [] && a[0] == b[0] {
      LexTotal(a[1..], b[1..]);
    }
  }

  lemma {:induction false} LexTransitive(a: string, b: string, c: string)
    requires LexLe(a, b) && LexLe(b, c)
    ensures LexLe(a, c)
  {
    if a != [] && b != [] && c != [] && a[0] == b[0] && b[0] == c[0] {
      LexTransitive(a[1..], b[1..], c[1..]);
    }
  }

  predicate SortedAdj(s: seq<string>) {
    forall i :: 0 < i < |s| ==> LexLe(s[i - 1], s[i])
  }

  predicate Distinct(s: seq<string>) {
    forall i, j :: 0 <= i < j < |s| ==> s[i] != s[j]
  }

  function Insert(x: string, s: seq<string>): (r: seq<string>)
    requires SortedAdj(s)
    ensures SortedAdj(r)
    ensures multiset(r) == multiset(s) + multiset{x}
    ensures |r| == |s| + 1
    ensures r[0] == x || (|s| > 0 && r[0] == s[0])
  {
    if s == [] then [x]
    else if LexLe(x, s[0]) then [x] + s
    else
      LexTotal(x, s[0]);
      assert s == [s[0]] + s[1..];
      var rest := Insert(x, s[1..]);
      [s[0]] + rest
  }

  /** The default `Array.prototype.sort()` on strings. */
  function Sort(s: seq<string>): (r: seq<string>)
    ensures SortedAdj(r)
    ensures multiset(r) == multiset(s)
  {
    if s == [] then []
    else
      assert s == s[..|s| - 1] + [s[|s| - 1]];
      Insert(s[|s| - 1], Sort(s[..|s| - 1]))
  }

  lemma {:induction false} InsertDistinct(x: string, s: seq<string>)
    requires SortedAdj(s) && Distinct(s) && x !in s
    ensures Distinct(Insert(x, s))
  {
    if s != [] && !LexLe(x, s[0]) {
      assert s == [s[0]] + s[1..];
      InsertDistinct(x, s[1..]);
      var rest := Insert(x, s[1..]);
      assert s[0] !in multiset(rest);
    }
  }

  /** Sorting keeps a duplicate-free sequence duplicate-free. */
  lemma {:induction false} SortDistinct(s: seq<string>)
    requires Distinct(s)
    ensures Distinct(Sort(s))
  {
    if s != [] {
      var front := s[..|s| - 1];
      SortDistinct(front);
      assert s[|s| - 1] !in multiset(front);
      InsertDistinct(s[|s| - 1], Sort(front));
    }
  }

  /** Adjacent order extends to every pair of positions. */
  lemma {:induction false} SortedAdjOrdered(s: seq<string>, i: nat, j: nat)
    requires SortedAdj(s) && i <= j < |s|
    ensures LexLe(s[i], s[j])
    decreases j - i
  {
    if i == j {
      LexReflexive(s[i]);
    } else {
      SortedAdjOrdered(s, i + 1, j);
      LexTransitive(s[i], s[i + 1], s[j]);
    }
  }

  lemma {:induction false} LexReflexive(a: string)
    ensures LexLe(a, a)
  {
    if a != [] {
      LexReflexive(a[1..]);
    }
  }

  // ---------------------------------------------------------------------
  // Decimal rendering

  function DigitChar(d: nat): char
    requires d < 10
  {
    ('0' as int + d) as char
  }

  predicate IsDigit(c: char) {
    '0' <= c <= '9'
  }

  function NatToString(n: nat): (r: string)
    ensures |r| >= 1
    ensures forall i :: 0 <= i < |r| ==> IsDigit(r[i])
  {
    if n < 10 then [DigitChar(n)] else NatToString(n / 10) + [DigitChar(n % 10)]
  }

  function DecimalValue(s: string): nat
    requires forall i :: 0 <= i < |s| ==> IsDigit(s[i])
  {
    if s == [] then 0
    else
      assert IsDigit(s[|s| - 1]);
      DecimalValue(s[..|s| - 1]) * 10 + (s[|s| - 1] as int - '0' as int)
  }

  lemma {:induction false} DecimalRoundTrip(n: nat)
    ensures DecimalValue(NatToString(n)) == n
  {
    if n >= 10 {
      DecimalRoundTrip(n / 10);
      var s := NatToString(n);
      assert s[..|s| - 1] == NatToString(n / 10);
    }
  }

  /**
    The hundredths in `(bytes / 1024).toFixed(2)`: the integer `h` with
    `h / 100` nearest to `bytes / 1024`, the larger one on a tie.
  */
  function KiBHundredths(bytes: nat): (h: nat)
    ensures 100 * bytes - 512 < 1024 * h <= 100 * bytes + 512
  {
    (bytes * 100 + 512) / 1024
  }

  /** `(bytes / 1024).toFixed(2)`. */
  function FormatKiB(bytes: nat): string {
    var h := KiBHundredths(bytes);
    NatToString(h / 100) + "." + [DigitChar(h % 100 / 10), DigitChar(h % 10)]
  }

  /** The text of `FormatKiB` reads back as the hundredths it was made from. */
  lemma FormatKiBReadsBack(bytes: nat)
    ensures var r := FormatKiB(bytes);
      |r| >= 4 && r[|r| - 3] == '.'
      && (forall i :: 0 <= i < |r| - 3 ==> IsDigit(r[i]))
      && IsDigit(r[|r| - 2]) && IsDigit(r[|r| - 1])
      && DecimalValue(r[..|r| - 3]) * 100
         + (r[|r| - 2] as int - '0' as int) * 10 + (r[|r| - 1] as int - '0' as int)
         == KiBHundredths(bytes)
  {
    var h := KiBHundredths(bytes);
    var r := FormatKiB(bytes);
    DecimalRoundTrip(h / 100);
    assert r[..|r| - 3] == NatToString(h / 100);
  }

  // ---------------------------------------------------------------------
  // UTF-8 length, as `new TextEncoder().encode(s).length` counts it

  function Utf8Width(c: char): nat {
    if c as int < 0x80 then 1
    else if c as int < 0x800 then 2
    else if c as int < 0x10000 then 3
    else 4
  }

  /** Bytes of the UTF-8 encoding of `s`: at least one and at most four per character. */
  function Utf8Length(s: string): (n: nat)
    ensures |s| <= n <= 4 * |s|
    ensures (forall i :: 0 <= i < |s| ==> s[i] as int < 0x80) ==> n == |s|
  {
    if s == [] then 0 else Utf8Width(s[0]) + Utf8Length(s[1..])
  }
}
