/**
 * The JavaScript string operations the application relies on, over `string`
 * (a sequence of Unicode scalar values): `split` on a one-character separator,
 * `join`, `trim`, `toUpperCase`, `toLowerCase`, `startsWith` and `includes`.
 */
module Text {

  /** ECMAScript WhiteSpace and LineTerminator: what `String.prototype.trim` removes. */
  predicate IsWhitespace(c: char) {
    c == ' ' || c == '\t' || c == '\n' || c == '\r' || c == '\U{B}' || c == '\U{C}'
    || c == '\U{A0}' || c == '\U{FEFF}' || c == '\U{1680}'
    || ('\U{2000}' <= c <= '\U{200A}')
    || c == '\U{2028}' || c == '\U{2029}' || c == '\U{202F}' || c == '\U{205F}' || c == '\U{3000}'
  }

  predicate AllWhitespace(s: string) {
    forall k :: 0 <= k < |s| ==> IsWhitespace(s[k])
  }

  /** Neither end of `s` is whitespace. */
  predicate IsTrimmed(s: string) {
    s == [] || (!IsWhitespace(s[0]) && !IsWhitespace(s[|s| - 1]))
  }

  /** The first position at or after i that is not whitespace (|s| if none). */
  function SkipStart(s: string, i: nat): (n: nat)
    requires i <= |s|
    ensures i <= n <= |s|
    ensures forall k :: i <= k < n ==> IsWhitespace(s[k])
    ensures n == |s| || !IsWhitespace(s[n])
    decreases |s| - i
  {
    if i < |s| && IsWhitespace(s[i]) then SkipStart(s, i + 1) else i
  }

  /** The end of s[..j] once trailing whitespace is dropped. */
  function SkipEnd(s: string, j: nat): (n: nat)
    requires j <= |s|
    ensures n <= j
    ensures forall k :: n <= k < j ==> IsWhitespace(s[k])
    ensures n == 0 || !IsWhitespace(s[n - 1])
    decreases j
  {
    if j > 0 && IsWhitespace(s[j - 1]) then SkipEnd(s, j - 1) else j
  }

  /** `s.trimStart()`. */
  function TrimStart(s: string): string {
    s[SkipStart(s, 0)..]
  }

  /** `s.trimEnd()`. */
  function TrimEnd(s: string): string {
    s[..SkipEnd(s, |s|)]
  }

  /** `s.trim()`. */
  function Trim(s: string): (r: string)
    ensures |r| <= |s|
    ensures IsTrimmed(r)
  {
    var t := TrimStart(s);
    var n := SkipEnd(t, |t|);
    assert n > 0 ==> t[0] == s[SkipStart(s, 0)];
    TrimEnd(t)
  }

  /** Whitespace before a and from b on, with the ends of s[a..b] not
      whitespace, make s[a..b] what s trims to. */
  lemma TrimBetween(s: string, a: nat, b: nat)
    requires a <= b <= |s|
    requires forall k :: 0 <= k < a ==> IsWhitespace(s[k])
    requires forall k :: b <= k < |s| ==> IsWhitespace(s[k])
    requires a == b || (!IsWhitespace(s[a]) && !IsWhitespace(s[b - 1]))
    ensures Trim(s) == s[a..b]
  {
    var i := SkipStart(s, 0);
    if a == b {
      assert forall k :: 0 <= k < |s| ==> IsWhitespace(s[k]) by {
        forall k | 0 <= k < |s| ensures IsWhitespace(s[k]) {
          if k >= a { assert b <= k; }
        }
      }
      assert i == |s|;
    } else {
      assert i == a;
      var t := s[a..];
      var j := SkipEnd(t, |t|);
      assert t[b - a - 1] == s[b - 1];
      assert j == b - a;
      assert t[..j] == s[a..b];
    }
  }

  /** Trimming leaves a string with no whitespace at either end unchanged. */
  lemma TrimTrimmed(s: string)
    requires IsTrimmed(s)
    ensures Trim(s) == s
  {
    TrimBetween(s, 0, |s|);
  }

  /** A string trims to nothing exactly when it is all whitespace. */
  lemma TrimEmpty(s: string)
    ensures AllWhitespace(s) <==> Trim(s) == []
  {
    var i := SkipStart(s, 0);
    var t := TrimStart(s);
    var j := SkipEnd(t, |t|);
    if i < |s| {
      assert t[0] == s[i];
      assert j > 0;
    }
  }

  /** Trimming only removes characters. */
  lemma TrimChars(s: string, c: char)
    requires c in Trim(s)
    ensures c in s
  {
    var i := SkipStart(s, 0);
    var t := TrimStart(s);
    var j := SkipEnd(t, |t|);
    var k :| 0 <= k < j && t[..j][k] == c;
    assert s[i + k] == c;
  }

  /** Where the part of x that trimming keeps starts and ends. */
  lemma TrimSpan(x: string) returns (a: nat, b: nat)
    ensures a <= b <= |x|
    ensures forall k :: 0 <= k < a ==> IsWhitespace(x[k])
    ensures forall k :: b <= k < |x| ==> IsWhitespace(x[k])
    ensures a == b || (!IsWhitespace(x[a]) && !IsWhitespace(x[b - 1]))
  {
    a := SkipStart(x, 0);
    var t := x[a..];
    var j := SkipEnd(t, |t|);
    b := a + j;
    assert forall k :: b <= k < |x| ==> x[k] == t[k - a];
    assert j > 0 ==> t[0] == x[a] && t[j - 1] == x[b - 1];
  }

  /** Padding x with whitespace moves its kept span by the left padding. */
  lemma PaddedSpan(w1: string, x: string, w2: string, a: nat, b: nat)
    requires AllWhitespace(w1) && AllWhitespace(w2)
    requires a <= b <= |x|
    requires forall k :: 0 <= k < a ==> IsWhitespace(x[k])
    requires forall k :: b <= k < |x| ==> IsWhitespace(x[k])
    requires a == b || (!IsWhitespace(x[a]) && !IsWhitespace(x[b - 1]))
    ensures var y, n := w1 + x + w2, |w1|;
            && (forall k :: 0 <= k < n + a ==> IsWhitespace(y[k]))
            && (forall k :: n + b <= k < |y| ==> IsWhitespace(y[k]))
            && (a == b || (!IsWhitespace(y[n + a]) && !IsWhitespace(y[n + b - 1])))
            && y[n + a..n + b] == x[a..b]
  {
    var y := w1 + x + w2;
    var n := |w1|;
    forall k | 0 <= k < n + a ensures IsWhitespace(y[k]) {
      if k < n { assert y[k] == w1[k]; } else { assert y[k] == x[k - n]; }
    }
    forall k | n + b <= k < |y| ensures IsWhitespace(y[k]) {
      if k < n + |x| { assert y[k] == x[k - n]; } else { assert y[k] == w2[k - n - |x|]; }
    }
    assert a < b ==> y[n + a] == x[a] && y[n + b - 1] == x[b - 1];
    assert y[n + a..n + b] == x[a..b];
  }

  /** Whitespace around a string does not change what it trims to. */
  lemma TrimPadded(w1: string, x: string, w2: string)
    requires AllWhitespace(w1) && AllWhitespace(w2)
    ensures Trim(w1 + x + w2) == Trim(x)
  {
    var a, b := TrimSpan(x);
    TrimBetween(x, a, b);
    PaddedSpan(w1, x, w2, a, b);
    TrimBetween(w1 + x + w2, |w1| + a, |w1| + b);
  }

  /** `s.startsWith(p)`. */
  predicate StartsWith(s: string, p: string) {
    |p| <= |s| && s[..|p|] == p
  }

  /** `s.includes(t)`: `t` occurs in `s` as a contiguous substring. */
  predicate Contains(s: string, t: string)
    decreases |s|
  {
    StartsWith(s, t) || (|s| > 0 && Contains(s[1..], t))
  }

  /** `s.split(sep)` for a one-character separator: the pieces between
      separators, always at least one. */
  function Split(s: string, sep: char): (r: seq<string>)
    ensures |r| >= 1
    ensures forall k :: 0 <= k < |r| ==> sep !in r[k]
    decreases |s|
  {
    if |s| == 0 then [""]
    else
      var rest := Split(s[1..], sep);
      if s[0] == sep then [""] + rest else [[s[0]] + rest[0]] + rest[1..]
  }

  /** `parts.join(sep)`. */
  function Join(parts: seq<string>, sep: string): string
    decreases |parts|
  {
    if |parts| == 0 then ""
    else if |parts| == 1 then parts[0]
    else parts[0] + sep + Join(parts[1..], sep)
  }

  lemma {:induction false} JoinHead(x: string, y: string, tail: seq<string>, sep: string)
    ensures Join([x + y] + tail, sep) == x + Join([y] + tail, sep)
  {
    if |tail| > 0 {
      assert ([x + y] + tail)[1..] == tail;
      assert ([y] + tail)[1..] == tail;
    }
  }

  /** Joining the pieces of a split gives back the original string. */
  lemma {:induction false} JoinSplit(s: string, sep: char)
    ensures Join(Split(s, sep), [sep]) == s
    decreases |s|
  {
    if |s| > 0 {
      var rest := Split(s[1..], sep);
      JoinSplit(s[1..], sep);
      if s[0] == sep {
        assert ([""] + rest)[1..] == rest;
      } else {
        JoinHead([s[0]], rest[0], rest[1..], [sep]);
        assert [rest[0]] + rest[1..] == rest;
      }
      assert s == [s[0]] + s[1..];
    }
  }

  lemma {:induction false} SplitPrefix(a: string, t: string, sep: char)
    requires sep !in a
    ensures Split(a + t, sep) == [a + Split(t, sep)[0]] + Split(t, sep)[1..]
    decreases |a|
  {
    if a != [] {
      assert (a + t)[0] == a[0];
      assert (a + t)[1..] == a[1..] + t;
      SplitPrefix(a[1..], t, sep);
      assert [a[0]] + (a[1..] + Split(t, sep)[0]) == a + Split(t, sep)[0];
    } else {
      var r := Split(t, sep);
      assert a + t == t;
      assert a + r[0] == r[0];
      assert [r[0]] + r[1..] == r;
    }
  }

  /** A separator splits the text into the pieces before it followed by the
      pieces after it. */
  lemma {:induction false} SplitAppend(a: string, b: string, sep: char)
    ensures Split(a + [sep] + b, sep) == Split(a, sep) + Split(b, sep)
    decreases |a|
  {
    if a == [] {
      assert a + [sep] + b == [sep] + b;
      assert ([sep] + b)[1..] == b;
    } else {
      var t := a + [sep] + b;
      assert t[0] == a[0];
      assert t[1..] == a[1..] + [sep] + b;
      SplitAppend(a[1..], b, sep);
    }
  }

  /** Splitting a join of separator-free pieces gives back the pieces. */
  lemma {:induction false} SplitJoin(parts: seq<string>, sep: char)
    requires |parts| >= 1
    requires forall k :: 0 <= k < |parts| ==> sep !in parts[k]
    ensures Split(Join(parts, [sep]), sep) == parts
    decreases |parts|
  {
    if |parts| == 1 {
      SplitPrefix(parts[0], "", sep);
      assert parts[0] + "" == parts[0];
    } else {
      var rest := Join(parts[1..], [sep]);
      SplitJoin(parts[1..], sep);
      assert Join(parts, [sep]) == parts[0] + ([sep] + rest);
      SplitPrefix(parts[0], [sep] + rest, sep);
      assert ([sep] + rest)[1..] == rest;
      assert Split([sep] + rest, sep) == [""] + parts[1..];
      assert parts[0] + "" == parts[0];
    }
  }

  /** A character in neither the pieces nor the separator is not in the join. */
  lemma {:induction false} JoinFree(parts: seq<string>, sep: string, c: char)
    requires c !in sep
    requires forall k :: 0 <= k < |parts| ==> c !in parts[k]
    ensures c !in Join(parts, sep)
    decreases |parts|
  {
    if |parts| > 1 {
      JoinFree(parts[1..], sep, c);
    }
  }

  /** A join of pieces whose first piece is non-empty is non-empty. */
  lemma JoinNonEmpty(parts: seq<string>, sep: string)
    requires |parts| >= 1 && parts[0] != ""
    ensures Join(parts, sep) != ""
  {
  }

  /** Upper case of one character: the ASCII letters, and the letters
      outside ASCII whose upper case is made of ASCII letters. */
  function UpperChar(c: char): string {
    if 'a' <= c <= 'z' then [(c as int - 32) as char]
    else if c == '\U{131}' then "I"      // dotless i
    else if c == '\U{17F}' then "S"      // long s
    else if c == '\U{DF}' then "SS"      // sharp s
    else if c == '\U{FB00}' then "FF"
    else if c == '\U{FB01}' then "FI"
    else if c == '\U{FB02}' then "FL"
    else if c == '\U{FB03}' then "FFI"
    else if c == '\U{FB04}' then "FFL"
    else if c == '\U{FB05}' || c == '\U{FB06}' then "ST"
    else [c]
  }

  /** `s.toUpperCase()`. */
  function ToUpper(s: string): string
    decreases |s|
  {
    if s == [] then [] else UpperChar(s[0]) + ToUpper(s[1..])
  }

  lemma {:induction false} ToUpperAppend(a: string, b: string)
    ensures ToUpper(a + b) == ToUpper(a) + ToUpper(b)
    decreases |a|
  {
    if a != [] {
      assert (a + b)[0] == a[0];
      assert (a + b)[1..] == a[1..] + b;
      ToUpperAppend(a[1..], b);
    } else {
      assert a + b == b;
    }
  }

  lemma UpperCharWhitespace(c: char)
    requires IsWhitespace(c)
    ensures UpperChar(c) == [c]
  {
  }

  /** Whitespace has no case. */
  lemma {:induction false} ToUpperWhitespace(w: string)
    requires AllWhitespace(w)
    ensures ToUpper(w) == w
    decreases |w|
  {
    if w != [] {
      UpperCharWhitespace(w[0]);
      ToUpperWhitespace(w[1..]);
      assert w == [w[0]] + w[1..];
    }
  }

  lemma UpperCharUpper(c: char)
    ensures ToUpper(UpperChar(c)) == UpperChar(c)
  {
    var u := UpperChar(c);
    if |u| == 1 {
      assert ToUpper(u) == UpperChar(u[0]) + ToUpper(u[1..]);
    } else if |u| == 2 {
      assert ToUpper(u) == UpperChar(u[0]) + ToUpper(u[1..]);
      assert ToUpper(u[1..]) == UpperChar(u[1]) + ToUpper(u[2..]);
    } else {
      assert ToUpper(u) == UpperChar(u[0]) + ToUpper(u[1..]);
      assert ToUpper(u[1..]) == UpperChar(u[1]) + ToUpper(u[2..]);
      assert ToUpper(u[2..]) == UpperChar(u[2]) + ToUpper(u[3..]);
    }
  }

  /** Upper-casing twice is upper-casing once. */
  lemma {:induction false} ToUpperIdempotent(s: string)
    ensures ToUpper(ToUpper(s)) == ToUpper(s)
    decreases |s|
  {
    if s != [] {
      ToUpperIdempotent(s[1..]);
      ToUpperAppend(UpperChar(s[0]), ToUpper(s[1..]));
      UpperCharUpper(s[0]);
    }
  }

  function LowerChar(c: char): char {
    if 'A' <= c <= 'Z' then (c as int + 32) as char else c
  }

  /** `s.toLowerCase()` on ASCII letters. */
  function ToLower(s: string): (r: string)
    ensures |r| == |s|
    ensures forall k :: 0 <= k < |s| ==> r[k] == LowerChar(s[k])
  {
    seq(|s|, k requires 0 <= k < |s| => LowerChar(s[k]))
  }
}
