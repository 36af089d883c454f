/**
 * Counting the occurrences of a marker in generated markup, as a test's
 * `output.match(/marker/g).length` does. `Count` counts every start position;
 * for the markers used here (no proper suffix is also a prefix) occurrences
 * cannot overlap, so this is the number of matches of the global regex.
 */
module Occurrences {
  import opened JsText

  /** `s` starts with `m`, compared character by character. */
  predicate Leads(m: string, s: string)
    decreases |m|
  {
    |m| == 0 || (|s| > 0 && s[0] == m[0] && Leads(m[1..], s[1..]))
  }

  /** `Leads` is the prefix relation. */
  lemma {:induction false} LeadsIff(m: string, s: string)
    ensures Leads(m, s) <==> |m| <= |s| && s[..|m|] == m
    decreases |m|
  {
    if |m| > 0 && |s| > 0 {
      LeadsIff(m[1..], s[1..]);
      if |m| <= |s| && s[..|m|] == m {
        assert s[1..][..|m| - 1] == s[..|m|][1..];
      }
      if s[0] == m[0] && |m| - 1 <= |s| - 1 && s[1..][..|m| - 1] == m[1..] {
        assert s[..|m|] == [s[0]] + s[1..][..|m| - 1];
        assert m == [m[0]] + m[1..];
      }
    }
  }

  /** The number of positions of `s` at which `m` starts (none for an empty `m`). */
  function Count(s: string, m: string): nat
    decreases |s|
  {
    if |m| == 0 || |s| < |m| then 0
    else (if Leads(m, s) then 1 else 0) + Count(s[1..], m)
  }

  /** `x` immediately followed by `y` somewhere in `m`. */
  predicate IsBigram(x: char, y: char, m: string) {
    exists j | 0 <= j < |m| - 1 :: m[j] == x && m[j + 1] == y
  }

  /** The first character of `m` does not occur among the last `|m| - 1` characters of `a`. */
  predicate LeadFreeTail(a: string, m: string) {
    forall i | 0 <= i < |a| && |a| - i < |m| :: a[i] != m[0]
  }

  /**
   * No occurrence of `m` in `a + b` starts in `a` and ends in `b`: either the
   * characters meeting at the join are not adjacent anywhere in `m`, or no
   * occurrence can start near the end of `a`.
   */
  predicate Seam(a: string, b: string, m: string) {
    |a| == 0 || |b| == 0 || !IsBigram(a[|a| - 1], b[0], m) || LeadFreeTail(a, m)
  }

  /** Counting is additive over a join no occurrence can straddle. */
  lemma {:induction false} CountAppend(a: string, b: string, m: string)
    requires |m| > 0
    requires Seam(a, b, m)
    ensures Count(a + b, m) == Count(a, m) + Count(b, m)
    decreases |a|
  {
    if |a| == 0 {
      assert a + b == b;
    } else if |b| == 0 {
      assert a + b == a;
    } else if |a + b| < |m| {
    } else {
      var s := a + b;
      assert s[1..] == a[1..] + b;
      LeadsIff(m, s);
      if |a| >= |m| {
        LeadsIff(m, a);
        assert s[..|m|] == a[..|m|];
        assert Seam(a[1..], b, m) by {
          if LeadFreeTail(a, m) {
            forall i | 0 <= i < |a[1..]| && |a[1..]| - i < |m|
              ensures a[1..][i] != m[0]
            {
              assert a[1..][i] == a[i + 1];
            }
          } else {
            assert a[1..][|a[1..]| - 1] == a[|a| - 1];
          }
        }
        CountAppend(a[1..], b, m);
      } else {
        var t := s[..|m|];
        if LeadFreeTail(a, m) {
          assert t[0] == a[0] != m[0];
        } else {
          var j := |a| - 1;
          assert t[j] == a[|a| - 1] && t[j + 1] == b[0];
          assert !(m[j] == a[|a| - 1] && m[j + 1] == b[0]);
        }
        assert t != m;
        assert Count(a, m) == 0;
        if |a| == 1 {
          assert s[1..] == b;
        } else {
          assert Seam(a[1..], b, m) by {
            if LeadFreeTail(a, m) {
              forall i | 0 <= i < |a[1..]| && |a[1..]| - i < |m|
                ensures a[1..][i] != m[0]
              {
                assert a[1..][i] == a[i + 1];
              }
            } else {
              assert a[1..][|a[1..]| - 1] == a[|a| - 1];
            }
          }
          CountAppend(a[1..], b, m);
          assert Count(a[1..], m) == 0;
        }
      }
    }
  }

  /** A string missing one of the marker's characters holds no occurrence of it. */
  lemma {:induction false} CountAbsent(s: string, m: string, c: char)
    requires |m| > 0 && c in m && c !in s
    ensures Count(s, m) == 0
    decreases |s|
  {
    if |s| >= |m| {
      LeadsIff(m, s);
      assert c !in s[..|m|];
      CountAbsent(s[1..], m, c);
    }
  }

  /** The marker occurs once in itself. */
  lemma CountSelf(m: string)
    requires |m| > 0
    ensures Count(m, m) == 1
  {
    LeadsIff(m, m);
    assert m[..|m|] == m;
  }

  /** A character missing from the marker ends or starts no occurrence across a join. */
  lemma NotBigramOutside(x: char, y: char, m: string)
    requires x !in m || y !in m
    ensures !IsBigram(x, y, m)
  {
    forall j | 0 <= j < |m| - 1
      ensures !(m[j] == x && m[j + 1] == y)
    {
      assert m[j] in m && m[j + 1] in m;
    }
  }

  /** A string whose only copy of the marker's first character is too far from its end. */
  lemma LeadFreeTailOf(c: string, m: string)
    requires |m| > 0
    requires m[0] !in c || (|c| >= |m| && m[0] !in c[1..])
    ensures LeadFreeTail(c, m)
  {
    forall i | 0 <= i < |c| && |c| - i < |m|
      ensures c[i] != m[0]
    {
      if m[0] in c {
        assert c[i] == c[1..][i - 1];
      }
    }
  }

  /**
   * Text starting with a character that occurs in the marker at most as its
   * first character adds its own occurrences to whatever comes before it.
   */
  lemma CountAfterAny(b: string, m: string)
    requires |m| > 0 && |b| > 0 && forall j | 1 <= j < |m| :: m[j] != b[0]
    ensures forall a :: Count(a + b, m) == Count(a, m) + Count(b, m)
  {
    forall a
      ensures Count(a + b, m) == Count(a, m) + Count(b, m)
    {
      CountAppend(a, b, m);
    }
  }

  /**
   * Text that holds no occurrence of the marker and starts with a character
   * that can only begin one, so that it completes none begun before it.
   */
  predicate Transparent(x: string, m: string) {
    |x| == 0 || (Count(x, m) == 0 && forall j | 1 <= j < |m| :: m[j] != x[0])
  }

  /** Transparent text adds no occurrence to whatever comes before it. */
  lemma TransparentAfter(x: string, m: string)
    requires |m| > 0 && Transparent(x, m)
    ensures forall a :: Count(a + x, m) == Count(a, m)
  {
    if |x| == 0 {
      forall a
        ensures Count(a + x, m) == Count(a, m)
      {
        assert a + x == a;
      }
    } else {
      CountAfterAny(x, m);
    }
  }

  /** Two transparent pieces are transparent together. */
  lemma TransparentAppend(x: string, y: string, m: string)
    requires |m| > 0 && Transparent(x, m) && Transparent(y, m)
    ensures Transparent(x + y, m)
  {
    if |x| == 0 {
      assert x + y == y;
    } else if |y| == 0 {
      assert x + y == x;
    } else {
      CountAfterAny(y, m);
      assert (x + y)[0] == x[0];
    }
  }

  /** Text ending with a character the marker lacks adds its own occurrences to whatever follows it. */
  lemma CountBeforeAny(a: string, m: string)
    requires |m| > 0 && |a| > 0 && a[|a| - 1] !in m
    ensures forall b :: Count(a + b, m) == Count(a, m) + Count(b, m)
  {
    forall b
      ensures Count(a + b, m) == Count(a, m) + Count(b, m)
    {
      SeamAfter(a, b, m);
      CountAppend(a, b, m);
    }
  }

  /** A join after a character the marker lacks cannot be straddled. */
  lemma SeamAfter(a: string, b: string, m: string)
    requires |m| > 0 && |a| > 0 && a[|a| - 1] !in m
    ensures Seam(a, b, m)
  {
    if |b| > 0 {
      NotBigramOutside(a[|a| - 1], b[0], m);
    }
  }

  /** A join before a character the marker lacks cannot be straddled. */
  lemma SeamBefore(a: string, b: string, m: string)
    requires |m| > 0 && |b| > 0 && b[0] !in m
    ensures Seam(a, b, m)
  {
    if |a| > 0 {
      NotBigramOutside(a[|a| - 1], b[0], m);
    }
  }

  /** The tail of `x + c` is that of `c` when `c` is long enough. */
  lemma LeadFreeTailLong(x: string, c: string, m: string)
    requires |m| > 0 && |c| >= |m| - 1 && LeadFreeTail(c, m)
    ensures LeadFreeTail(x + c, m)
  {
    var s := x + c;
    forall i | 0 <= i < |s| && |s| - i < |m|
      ensures s[i] != m[0]
    {
      assert s[i] == c[i - |x|];
    }
  }

  /** Appending text without the marker's first character keeps the tail free of it. */
  lemma LeadFreeTailExtend(x: string, c: string, m: string)
    requires |m| > 0 && LeadFreeTail(x, m) && m[0] !in c
    ensures LeadFreeTail(x + c, m)
  {
    var s := x + c;
    forall i | 0 <= i < |s| && |s| - i < |m|
      ensures s[i] != m[0]
    {
      if i < |x| {
        assert s[i] == x[i];
      } else {
        assert s[i] == c[i - |x|];
      }
    }
  }

  /**
   * Joining strings that each hold the marker once, with a separator that
   * holds none of its characters, holds it once per string.
   */
  lemma {:induction false} CountJoin(xs: seq<string>, sep: string, m: string)
    requires |m| > 0 && |sep| > 0
    requires forall c :: c in sep ==> c !in m
    requires forall i :: 0 <= i < |xs| ==> Count(xs[i], m) == 1
    ensures Count(Join(xs, sep), m) == |xs|
    decreases |xs|
  {
    if |xs| == 1 {
    } else if |xs| > 1 {
      var rest := Join(xs[1..], sep);
      assert sep[0] in sep && m[0] in m;
      assert |xs[0]| > 0 by {
        assert Count(xs[0], m) == 1;
      }
      NotBigramOutside(xs[0][|xs[0]| - 1], sep[0], m);
      CountAbsent(sep, m, m[0]);
      CountAppend(xs[0], sep, m);
      assert (xs[0] + sep)[|xs[0] + sep| - 1] == sep[|sep| - 1];
      assert sep[|sep| - 1] in sep;
      if |rest| > 0 {
        NotBigramOutside(sep[|sep| - 1], rest[0], m);
      }
      CountAppend(xs[0] + sep, rest, m);
      CountJoin(xs[1..], sep, m);
    }
  }
  /**
   * A filled template whose substitutions lack the marker's first character,
   * and whose parts before a substitution end far enough from it, holds the
   * marker as often as its first part does when the other parts hold none.
   */
  lemma {:induction false} FillCount(lits: seq<string>, holes: seq<string>, m: string)
    requires |m| > 0 && |lits| == |holes| + 1
    requires forall i | 0 <= i < |holes| :: m[0] !in holes[i]
    requires forall i | 0 <= i < |holes| :: |lits[i]| >= |m| - 1 && LeadFreeTail(lits[i], m)
    requires forall i | 1 <= i < |lits| :: Count(lits[i], m) == 0
    ensures Count(Fill(lits, holes), m) == Count(lits[0], m)
    ensures |holes| > 0 ==> LeadFreeTail(Fill(lits[..|holes|], holes[..|holes| - 1]), m)
    decreases |holes|
  {
    var n := |holes|;
    if n > 0 {
      var front := Fill(lits[..n], holes[..n - 1]);
      FillCount(lits[..n], holes[..n - 1], m);
      assert lits[..n][0] == lits[0];
      if n == 1 {
        assert front == lits[0];
      } else {
        var before := Fill(lits[..n - 1], holes[..n - 2]);
        assert lits[..n][..n - 1] == lits[..n - 1] && holes[..n - 1][..n - 2] == holes[..n - 2];
        assert front == before + holes[n - 2] + lits[n - 1];
        LeadFreeTailLong(before + holes[n - 2], lits[n - 1], m);
      }
      assert m[0] in m;
      CountAbsent(holes[n - 1], m, m[0]);
      CountAppend(front, holes[n - 1], m);
      LeadFreeTailExtend(front, holes[n - 1], m);
      CountAppend(front + holes[n - 1], lits[n], m);
    }
  }

  /**
   * Pieces each shorter than the marker, no two neighbours of which meet in
   * two adjacent characters of the marker.
   */
  predicate ShortPieces(xs: seq<string>, m: string)
    requires |m| > 0
  {
    (forall i | 0 <= i < |xs| :: 0 < |xs[i]| < |m|) &&
    (forall i | 1 <= i < |xs| :: !IsBigram(xs[i - 1][|xs[i - 1]| - 1], xs[i][0], m))
  }

  /** Text written in such pieces holds no occurrence of the marker. */
  lemma {:induction false} ShortPiecesCount(xs: seq<string>, m: string)
    requires |m| > 0 && ShortPieces(xs, m)
    ensures Count(Concat(xs), m) == 0
    decreases |xs|
  {
    if |xs| > 0 {
      var n := |xs| - 1;
      assert ShortPieces(xs[..n], m) by {
        forall i | 1 <= i < n
          ensures !IsBigram(xs[..n][i - 1][|xs[..n][i - 1]| - 1], xs[..n][i][0], m)
        {
          assert xs[..n][i - 1] == xs[i - 1] && xs[..n][i] == xs[i];
        }
      }
      ShortPiecesCount(xs[..n], m);
      if n > 0 {
        var front := Concat(xs[..n]);
        assert xs[..n][..n - 1] == xs[..n - 1];
        assert front[|front| - 1] == xs[n - 1][|xs[n - 1]| - 1];
      }
      CountAppend(Concat(xs[..n]), xs[n], m);
    }
  }

  /** Text whose last two pieces end far enough from the marker's first character. */
  lemma ConcatLeadFreeTail(xs: seq<string>, m: string)
    requires |m| > 0 && |xs| >= 2
    requires |xs[|xs| - 2] + xs[|xs| - 1]| >= |m| - 1 && LeadFreeTail(xs[|xs| - 2] + xs[|xs| - 1], m)
    ensures |Concat(xs)| >= |m| - 1 && LeadFreeTail(Concat(xs), m)
  {
    var n := |xs|;
    assert xs[..n - 1][..n - 2] == xs[..n - 2];
    assert Concat(xs) == Concat(xs[..n - 2]) + (xs[n - 2] + xs[n - 1]);
    LeadFreeTailLong(Concat(xs[..n - 2]), xs[n - 2] + xs[n - 1], m);
  }
}
