/**
 * The JavaScript string and number primitives the core relies on:
 * `String.prototype.trim`, `startsWith`, `includes`, global `parseInt` with
 * radix 10 (section 19.2.5 of ECMA-262) and `String(n)` for integral numbers.
 * Strings are sequences of characters; numbers are unbounded integers.
 */
module JsText {
  import opened Types

  // ---------------------------------------------------------------------------
  // White space and trim
  // ---------------------------------------------------------------------------

  /**
   * ECMAScript WhiteSpace and LineTerminator code points: the set both
   * `trim` and `parseInt` strip.
   */
  predicate IsWhiteSpace(c: char) {
    c == '\t' || c == '\n' || c == '\U{000B}' || c == '\U{000C}' || c == '\r' || c == ' '
    || c == '\U{00A0}' || c == '\U{1680}' || ('\U{2000}' <= c <= '\U{200A}')
    || c == '\U{2028}' || c == '\U{2029}' || c == '\U{202F}' || c == '\U{205F}'
    || c == '\U{3000}' || c == '\U{FEFF}'
  }

  predicate AllWhiteSpace(s: string) {
    forall k :: 0 <= k < |s| ==> IsWhiteSpace(s[k])
  }

  /** Drops leading white space. */
  function TrimStart(s: string): string {
    if |s| > 0 && IsWhiteSpace(s[0]) then TrimStart(s[1..]) else s
  }

  /** Drops trailing white space. */
  function TrimEnd(s: string): string {
    if |s| > 0 && IsWhiteSpace(s[|s| - 1]) then TrimEnd(s[..|s| - 1]) else s
  }

  /** `s.trim()`. */
  function Trim(s: string): string {
    TrimEnd(TrimStart(s))
  }

  /** `TrimStart` cuts off a prefix of white space and stops at the first other character. */
  lemma {:induction false} TrimStartCuts(s: string)
    ensures |TrimStart(s)| <= |s| && TrimStart(s) == s[|s| - |TrimStart(s)|..]
    ensures TrimStart(s) == [] || !IsWhiteSpace(TrimStart(s)[0])
    ensures AllWhiteSpace(s[..|s| - |TrimStart(s)|])
  {
    if |s| > 0 && IsWhiteSpace(s[0]) {
      TrimStartCuts(s[1..]);
      var r := TrimStart(s[1..]);
      assert s[1..][..|s[1..]| - |r|] == s[1..|s| - |r|];
    }
  }

  /** `TrimEnd` cuts off a suffix of white space and stops at the last other character. */
  lemma {:induction false} TrimEndCuts(s: string)
    ensures |TrimEnd(s)| <= |s| && TrimEnd(s) == s[..|TrimEnd(s)|]
    ensures TrimEnd(s) == [] || !IsWhiteSpace(TrimEnd(s)[|TrimEnd(s)| - 1])
    ensures AllWhiteSpace(s[|TrimEnd(s)|..])
  {
    if |s| > 0 && IsWhiteSpace(s[|s| - 1]) {
      TrimEndCuts(s[..|s| - 1]);
      var r := TrimEnd(s[..|s| - 1]);
      assert s[..|s| - 1][|r|..] + [s[|s| - 1]] == s[|r|..];
    }
  }

  /**
   * `trim` removes exactly the white space at both ends: the result is a slice
   * of `s`, everything cut off is white space, and the result neither starts
   * nor ends with white space.
   */
  lemma TrimSlice(s: string)
    ensures exists i, j ::
      (0 <= i <= j <= |s| && Trim(s) == s[i..j] && AllWhiteSpace(s[..i]) && AllWhiteSpace(s[j..]))
    ensures Trim(s) == [] || (!IsWhiteSpace(Trim(s)[0]) && !IsWhiteSpace(Trim(s)[|Trim(s)| - 1]))
  {
    TrimStartCuts(s);
    var t := TrimStart(s);
    TrimEndCuts(t);
    var r := TrimEnd(t);
    var i := |s| - |t|;
    var j := i + |r|;
    assert r == s[i..j];
    assert s[j..] == t[|r|..];
    if r != [] {
      assert r[0] == t[0];
    }
  }

  /** A string trims to "" exactly when it is all white space. */
  lemma {:induction false} TrimEmptyIff(s: string)
    ensures Trim(s) == [] <==> AllWhiteSpace(s)
  {
    var t := TrimStart(s);
    TrimStartCuts(s);
    TrimEndCuts(t);
    if Trim(s) == [] {
      assert AllWhiteSpace(t[0..]);
      assert s == s[..|s| - |t|] + t;
    } else {
      TrimSlice(s);
      var r := Trim(s);
      var i, j :| 0 <= i <= j <= |s| && r == s[i..j];
      assert s[i] == r[0];
    }
  }

  // ---------------------------------------------------------------------------
  // startsWith and includes
  // ---------------------------------------------------------------------------

  /** `s.startsWith(p)`. */
  predicate StartsWith(s: string, p: string) {
    p <= s
  }

  /** `s.includes(p)`, as a scan over the start positions. */
  predicate Includes(s: string, p: string)
    decreases |s|
  {
    p <= s || (|s| > 0 && Includes(s[1..], p))
  }

  /** `p` occurs in `s` starting at index `i`. */
  predicate OccursAt(s: string, p: string, i: int) {
    0 <= i <= |s| - |p| && s[i..i + |p|] == p
  }

  /** `Includes` holds exactly when `p` occurs at some position of `s`. */
  lemma {:induction false} IncludesIff(s: string, p: string)
    ensures Includes(s, p) <==> exists i :: OccursAt(s, p, i)
    decreases |s|
  {
    if p <= s {
      assert OccursAt(s, p, 0);
    } else if |s| > 0 {
      IncludesIff(s[1..], p);
      if Includes(s[1..], p) {
        var i :| OccursAt(s[1..], p, i);
        assert OccursAt(s, p, i + 1);
      }
      if exists i :: OccursAt(s, p, i) {
        var i :| OccursAt(s, p, i);
        if i > 0 {
          assert OccursAt(s[1..], p, i - 1);
        }
      }
    }
  }

  /** Whatever occurs in the middle part of `a + b + c` is included in the whole. */
  lemma IncludesInContext(a: string, b: string, c: string, p: string)
    requires Includes(b, p)
    ensures Includes(a + b + c, p)
  {
    IncludesIff(b, p);
    var i :| OccursAt(b, p, i);
    assert OccursAt(a + b + c, p, |a| + i);
    IncludesIff(a + b + c, p);
  }

  /** Every string includes itself. */
  lemma IncludesSelf(s: string)
    ensures Includes(s, s)
  {
  }

  /** Inclusion is transitive: what occurs in a part occurs in the whole. */
  lemma IncludesTrans(a: string, b: string, p: string)
    requires Includes(a, b) && Includes(b, p)
    ensures Includes(a, p)
  {
    IncludesIff(a, b);
    IncludesIff(b, p);
    var i :| OccursAt(a, b, i);
    var j :| OccursAt(b, p, j);
    forall k | 0 <= k < |p|
      ensures a[i + j..i + j + |p|][k] == p[k]
    {
      assert p[k] == b[j..j + |p|][k] == b[j + k];
      assert b[j + k] == a[i..i + |b|][j + k] == a[i + j + k];
    }
    assert OccursAt(a, p, i + j);
    IncludesIff(a, p);
  }

  /** The left part of a concatenation occurs in it. */
  lemma IncludesLeft(a: string, b: string)
    ensures Includes(a + b, a)
  {
    IncludesSelf(a);
    IncludesInContext("", a, b, a);
    assert "" + a + b == a + b;
  }

  /** The right part of a concatenation occurs in it. */
  lemma IncludesRight(a: string, b: string)
    ensures Includes(a + b, b)
  {
    IncludesSelf(b);
    IncludesInContext(a, b, "", b);
    assert a + b + "" == a + b;
  }

  /** `s.endsWith(p)`. */
  predicate EndsWith(s: string, p: string) {
    |p| <= |s| && s[|s| - |p|..] == p
  }

  /** A prefix of the left part is a prefix of the whole. */
  lemma StartsWithAppend(a: string, b: string, p: string)
    requires StartsWith(a, p)
    ensures StartsWith(a + b, p)
  {
    assert (a + b)[..|p|] == a[..|p|];
  }

  /** Whatever extends a string that starts with `p` starts with `p`. */
  lemma StartsWithExtensions(p: string)
    ensures forall a, b {:trigger StartsWith(a + b, p)} | StartsWith(a, p) :: StartsWith(a + b, p)
  {
    forall a, b | StartsWith(a, p)
      ensures StartsWith(a + b, p)
    {
      StartsWithAppend(a, b, p);
    }
  }

  /** A suffix of the right part is a suffix of the whole. */
  lemma EndsWithAppend(a: string, b: string, p: string)
    requires EndsWith(b, p)
    ensures EndsWith(a + b, p)
  {
    assert (a + b)[|a + b| - |p|..] == b[|b| - |p|..];
  }

  // ---------------------------------------------------------------------------
  // Array.prototype.slice(0, end) and join(sep)
  // ---------------------------------------------------------------------------

  /** The index where `slice(0, end)` stops: a negative `end` counts from the back. */
  function SliceEnd(len: nat, end: int): (k: nat)
    ensures k <= len
  {
    if end < 0 then (if len + end < 0 then 0 else len + end)
    else if end > len then len
    else end
  }

  /** `s.slice(0, end)` for an integral `end`. */
  function Slice<T>(s: seq<T>, end: int): seq<T> {
    s[..SliceEnd(|s|, end)]
  }

  /** `xs.join(sep)`. */
  function Join(xs: seq<string>, sep: string): string
    decreases |xs|
  {
    if |xs| == 0 then "" else if |xs| == 1 then xs[0] else xs[0] + sep + Join(xs[1..], sep)
  }

  /** Every joined element occurs in the joined string. */
  lemma {:induction false} JoinIncludes(xs: seq<string>, sep: string, i: int)
    requires 0 <= i < |xs|
    ensures Includes(Join(xs, sep), xs[i])
    decreases |xs|
  {
    if i == 0 {
      IncludesSelf(xs[0]);
      var rest := if |xs| == 1 then "" else sep + Join(xs[1..], sep);
      IncludesInContext("", xs[0], rest, xs[0]);
      assert "" + xs[0] + rest == Join(xs, sep);
    } else {
      JoinIncludes(xs[1..], sep, i - 1);
      IncludesInContext(xs[0] + sep, Join(xs[1..], sep), "", xs[i]);
      assert xs[0] + sep + Join(xs[1..], sep) + "" == Join(xs, sep);
    }
  }

  /** The pieces of a long text written one after another, `xs.join('')`. */
  function Concat(xs: seq<string>): string
    decreases |xs|
  {
    if |xs| == 0 then "" else Concat(xs[..|xs| - 1]) + xs[|xs| - 1]
  }

  /** A text written in pieces starts with its first piece and ends with its last. */
  lemma {:induction false} ConcatEnds(xs: seq<string>)
    requires |xs| > 0
    ensures StartsWith(Concat(xs), xs[0])
    ensures EndsWith(Concat(xs), xs[|xs| - 1])
    decreases |xs|
  {
    var n := |xs| - 1;
    if n > 0 {
      ConcatEnds(xs[..n]);
      assert xs[..n][0] == xs[0];
      StartsWithAppend(Concat(xs[..n]), xs[n], xs[0]);
    } else {
      assert Concat(xs) == "" + xs[0];
    }
    assert xs[n][|xs[n]| - |xs[n]|..] == xs[n];
    EndsWithAppend(Concat(xs[..n]), xs[n], xs[n]);
  }

  /** The first and last characters of a text written in nonempty pieces. */
  lemma ConcatFirstLast(xs: seq<string>)
    requires |xs| > 0 && |xs[0]| > 0 && |xs[|xs| - 1]| > 0
    ensures |Concat(xs)| > 0
    ensures Concat(xs)[0] == xs[0][0]
    ensures Concat(xs)[|Concat(xs)| - 1] == xs[|xs| - 1][|xs[|xs| - 1]| - 1]
  {
    ConcatEnds(xs);
    var s, f, l := Concat(xs), xs[0], xs[|xs| - 1];
    assert s[..|f|][0] == f[0];
    assert s[|s| - |l|..][|l| - 1] == l[|l| - 1];
  }

  /**
   * A template literal: its string parts `lits` with the substitutions
   * `holes` between them, `${holes[0]}` after `lits[0]` and so on.
   */
  function Fill(lits: seq<string>, holes: seq<string>): string
    requires |lits| == |holes| + 1
    decreases |holes|
  {
    if |holes| == 0 then lits[0]
    else Fill(lits[..|holes|], holes[..|holes| - 1]) + holes[|holes| - 1] + lits[|holes|]
  }

  /** Every substituted value occurs in the filled template. */
  lemma {:induction false} FillIncludesHole(lits: seq<string>, holes: seq<string>, i: int)
    requires |lits| == |holes| + 1 && 0 <= i < |holes|
    ensures Includes(Fill(lits, holes), holes[i])
    decreases |holes|
  {
    var n := |holes|;
    var front := Fill(lits[..n], holes[..n - 1]);
    if i == n - 1 {
      IncludesSelf(holes[i]);
      IncludesInContext(front, holes[i], lits[n], holes[i]);
    } else {
      FillIncludesHole(lits[..n], holes[..n - 1], i);
      assert holes[..n - 1][i] == holes[i];
      IncludesSelf(front);
      IncludesInContext("", front, holes[n - 1] + lits[n], front);
      assert "" + front + (holes[n - 1] + lits[n]) == Fill(lits, holes);
      IncludesTrans(Fill(lits, holes), front, holes[i]);
    }
  }

  // ---------------------------------------------------------------------------
  // Decimal digits, parseInt and String(n)
  // ---------------------------------------------------------------------------

  predicate IsDigit(c: char) {
    '0' <= c <= '9'
  }

  predicate AllDigits(s: string) {
    forall k :: 0 <= k < |s| ==> IsDigit(s[k])
  }

  function DigitValue(c: char): (d: nat)
    requires IsDigit(c)
    ensures d < 10
  {
    c as int - '0' as int
  }

  function DigitChar(d: nat): (c: char)
    requires d < 10
    ensures IsDigit(c) && DigitValue(c) == d
  {
    ('0' as int + d) as char
  }

  /** The longest prefix of `s` made of decimal digits. */
  function LeadingDigits(s: string): (z: string)
    ensures z <= s && AllDigits(z)
    ensures |z| < |s| ==> !IsDigit(s[|z|])
  {
    if |s| > 0 && IsDigit(s[0]) then [s[0]] + LeadingDigits(s[1..]) else []
  }

  /** The value of a decimal numeral, most significant digit first. */
  function DigitsValue(z: string): nat
    requires AllDigits(z)
  {
    if z == [] then 0 else DigitsValue(z[..|z| - 1]) * 10 + DigitValue(z[|z| - 1])
  }

  /**
   * `parseInt(s, 10)`: skip leading white space, take an optional sign, then
   * the longest run of decimal digits; no digits gives NaN (`None`). A
   * negative zero is returned as 0.
   */
  function ParseInt(s: string): Option<int> {
    var t := TrimStart(s);
    var negative := |t| > 0 && t[0] == '-';
    var u := if |t| > 0 && (t[0] == '+' || t[0] == '-') then t[1..] else t;
    var z := LeadingDigits(u);
    if z == [] then None
    else
      var v: int := DigitsValue(z);
      Some(if negative then -v else v)
  }

  /** The decimal numeral of a natural number, without leading zeros. */
  function NatToString(n: nat): (s: string)
    ensures |s| >= 1 && AllDigits(s)
    ensures s[0] == '0' ==> n == 0
  {
    if n < 10 then [DigitChar(n)] else NatToString(n / 10) + [DigitChar(n % 10)]
  }

  /** `String(n)` for an integral number. */
  function IntToString(n: int): (s: string)
    ensures |s| >= 1
  {
    if n < 0 then "-" + NatToString(-n) else NatToString(n)
  }

  /** Reading back a numeral gives the number it was written from. */
  lemma {:induction false} DigitsValueOfNatToString(n: nat)
    ensures DigitsValue(NatToString(n)) == n
  {
    if n >= 10 {
      DigitsValueOfNatToString(n / 10);
      var s := NatToString(n);
      assert s[..|s| - 1] == NatToString(n / 10);
    }
  }

  /** The leading-digit scan takes the whole of an all-digit string. */
  lemma {:induction false} LeadingDigitsOfDigits(z: string)
    requires AllDigits(z)
    ensures LeadingDigits(z) == z
  {
    if z != [] {
      LeadingDigitsOfDigits(z[1..]);
    }
  }

  /** `parseInt(String(n), 10) == n`: the two conversions are inverse. */
  lemma ParseIntOfIntToString(n: int)
    ensures ParseInt(IntToString(n)) == Some(n)
  {
    var m: nat := if n < 0 then -n else n;
    var digits := NatToString(m);
    LeadingDigitsOfDigits(digits);
    DigitsValueOfNatToString(m);
    var s := IntToString(n);
    assert s[0] == '-' || IsDigit(s[0]);
    assert TrimStart(s) == s;
    var u := if s[0] == '+' || s[0] == '-' then s[1..] else s;
    assert u == digits;
  }

  /**
   * `parseInt` is NaN exactly when no digit follows the leading white space
   * and the optional sign; without a `-` sign the value is never negative.
   */
  lemma ParseIntShape(s: string)
    ensures var t := TrimStart(s);
      var u := if |t| > 0 && (t[0] == '+' || t[0] == '-') then t[1..] else t;
      && (ParseInt(s).None? <==> (u == [] || !IsDigit(u[0])))
      && (ParseInt(s).Some? && !(|t| > 0 && t[0] == '-') ==> ParseInt(s).value >= 0)
  {
  }

  /** `String(n)` writes only decimal digits, after a minus sign for a negative `n`. */
  lemma IntToStringChars(n: int)
    ensures forall i :: 0 <= i < |IntToString(n)| ==>
      IsDigit(IntToString(n)[i]) || (i == 0 && n < 0 && IntToString(n)[i] == '-')
  {
  }
}
