/**
 * The entity escaping shared by the two renderers: `escapeXml` in
 * lib/svg-renderer.ts and `escapeHtml` in lib/widget-renderer.ts. Both are a
 * chain of five global single-character replacements, differing only in the
 * entity written for the apostrophe.
 */
module Escaping {
  import opened JsText
  /** `str.replace(/c/g, entity)`: every occurrence of `c` becomes `entity`. */
  function ReplaceChar(s: string, c: char, entity: string): string
    decreases |s|
  {
    if s == [] then [] else (if s[0] == c then entity else [s[0]]) + ReplaceChar(s[1..], c, entity)
  }

  /** The five replacements, applied in the source's order: &, <, >, ", '. */
  function EscapeWith(s: string, apos: string): string {
    ReplaceChar(ReplaceChar(ReplaceChar(ReplaceChar(ReplaceChar(s, '&', "&amp;"), '<', "&lt;"), '>', "&gt;"), '"', "&quot;"), '\'', apos)
  }

  const XmlApos: string := "&apos;"
  const HtmlApos: string := "&#39;"

  /** `escapeXml` of lib/svg-renderer.ts: the replacement chain, which escapes each character once. */
  function EscapeXml(s: string): (r: string)
    ensures r == PerChar(s, XmlApos)
  {
    EscapeWithIsPerChar(s, XmlApos);
    EscapeWith(s, XmlApos)
  }

  /** `escapeHtml` of lib/widget-renderer.ts: the replacement chain, which escapes each character once. */
  function EscapeHtml(s: string): (r: string)
    ensures r == PerChar(s, HtmlApos)
  {
    EscapeWithIsPerChar(s, HtmlApos);
    EscapeWith(s, HtmlApos)
  }

  /** Reference definition: the entity for one character, or the character itself. */
  function EscapeChar(c: char, apos: string): string {
    if c == '&' then "&amp;"
    else if c == '<' then "&lt;"
    else if c == '>' then "&gt;"
    else if c == '"' then "&quot;"
    else if c == '\'' then apos
    else [c]
  }

  /** Reference definition: each character escaped on its own. */
  function PerChar(s: string, apos: string): string
    decreases |s|
  {
    if s == [] then [] else EscapeChar(s[0], apos) + PerChar(s[1..], apos)
  }

  lemma {:induction false} ReplaceCharAppend(a: string, b: string, c: char, entity: string)
    ensures ReplaceChar(a + b, c, entity) == ReplaceChar(a, c, entity) + ReplaceChar(b, c, entity)
    decreases |a|
  {
    if a == [] {
      assert a + b == b;
    } else {
      assert (a + b)[1..] == a[1..] + b;
      ReplaceCharAppend(a[1..], b, c, entity);
    }
  }

  lemma {:induction false} ReplaceCharAbsent(s: string, c: char, entity: string)
    requires c !in s
    ensures ReplaceChar(s, c, entity) == s
    decreases |s|
  {
    if s != [] {
      ReplaceCharAbsent(s[1..], c, entity);
    }
  }

  lemma EscapeWithAppend(a: string, b: string, apos: string)
    ensures EscapeWith(a + b, apos) == EscapeWith(a, apos) + EscapeWith(b, apos)
  {
    var a1, b1 := ReplaceChar(a, '&', "&amp;"), ReplaceChar(b, '&', "&amp;");
    ReplaceCharAppend(a, b, '&', "&amp;");
    var a2, b2 := ReplaceChar(a1, '<', "&lt;"), ReplaceChar(b1, '<', "&lt;");
    ReplaceCharAppend(a1, b1, '<', "&lt;");
    var a3, b3 := ReplaceChar(a2, '>', "&gt;"), ReplaceChar(b2, '>', "&gt;");
    ReplaceCharAppend(a2, b2, '>', "&gt;");
    var a4, b4 := ReplaceChar(a3, '"', "&quot;"), ReplaceChar(b3, '"', "&quot;");
    ReplaceCharAppend(a3, b3, '"', "&quot;");
    ReplaceCharAppend(a4, b4, '\'', apos);
  }

  lemma ReplaceCharSingle(x: char, c: char, entity: string)
    ensures ReplaceChar([x], c, entity) == if x == c then entity else [x]
  {
    assert [x][1..] == [];
  }

  /** The replacements after the one for `c`, applied to a text that holds none of their characters. */
  lemma ReplaceRestAbsent(e: string, apos: string, from: nat)
    requires 1 <= from <= 5
    requires from <= 1 ==> '<' !in e
    requires from <= 2 ==> '>' !in e
    requires from <= 3 ==> '"' !in e
    requires from <= 4 ==> '\'' !in e
    ensures from <= 1 ==> ReplaceChar(e, '<', "&lt;") == e
    ensures from <= 2 ==> ReplaceChar(e, '>', "&gt;") == e
    ensures from <= 3 ==> ReplaceChar(e, '"', "&quot;") == e
    ensures from <= 4 ==> ReplaceChar(e, '\'', apos) == e
  {
    if from <= 1 { ReplaceCharAbsent(e, '<', "&lt;"); }
    if from <= 2 { ReplaceCharAbsent(e, '>', "&gt;"); }
    if from <= 3 { ReplaceCharAbsent(e, '"', "&quot;"); }
    if from <= 4 { ReplaceCharAbsent(e, '\'', apos); }
  }

  /** An entity written early contains none of the characters replaced after it. */
  lemma EscapeWithChar(x: char, apos: string)
    ensures EscapeWith([x], apos) == EscapeChar(x, apos)
  {
    if x == '&' {
      ReplaceCharSingle(x, '&', "&amp;");
      assert "&amp;" == ['&', 'a', 'm', 'p', ';'];
      ReplaceRestAbsent("&amp;", apos, 1);
    } else if x == '<' {
      ReplaceRestAbsent([x], apos, 2);
      ReplaceCharAbsent([x], '&', "&amp;");
      ReplaceCharSingle(x, '<', "&lt;");
      assert "&lt;" == ['&', 'l', 't', ';'];
      ReplaceRestAbsent("&lt;", apos, 2);
    } else if x == '>' {
      ReplaceCharAbsent([x], '&', "&amp;");
      ReplaceCharAbsent([x], '<', "&lt;");
      ReplaceCharSingle(x, '>', "&gt;");
      assert "&gt;" == ['&', 'g', 't', ';'];
      ReplaceRestAbsent("&gt;", apos, 3);
    } else if x == '"' {
      ReplaceCharAbsent([x], '&', "&amp;");
      ReplaceCharAbsent([x], '<', "&lt;");
      ReplaceCharAbsent([x], '>', "&gt;");
      ReplaceCharSingle(x, '"', "&quot;");
      assert "&quot;" == ['&', 'q', 'u', 'o', 't', ';'];
      ReplaceRestAbsent("&quot;", apos, 4);
    } else {
      ReplaceCharAbsent([x], '&', "&amp;");
      ReplaceCharAbsent([x], '<', "&lt;");
      ReplaceCharAbsent([x], '>', "&gt;");
      ReplaceCharAbsent([x], '"', "&quot;");
      ReplaceCharSingle(x, '\'', apos);
    }
  }

  /**
   * The chain of global replacements equals escaping each character on its
   * own: no entity is escaped a second time by a later replacement.
   */
  lemma {:induction false} EscapeWithIsPerChar(s: string, apos: string)
    ensures EscapeWith(s, apos) == PerChar(s, apos)
    decreases |s|
  {
    if s == [] {
    } else {
      assert s == [s[0]] + s[1..];
      EscapeWithAppend([s[0]], s[1..], apos);
      EscapeWithChar(s[0], apos);
      EscapeWithIsPerChar(s[1..], apos);
    }
  }

  /** The markup-significant characters. */
  predicate IsSpecial(c: char) {
    c == '<' || c == '>' || c == '"' || c == '\''
  }

  lemma {:induction false} PerCharHasNoSpecial(s: string, apos: string)
    requires forall i :: 0 <= i < |apos| ==> !IsSpecial(apos[i])
    ensures forall i :: 0 <= i < |PerChar(s, apos)| ==> !IsSpecial(PerChar(s, apos)[i])
    decreases |s|
  {
    if s != [] {
      PerCharHasNoSpecial(s[1..], apos);
      var e, t := EscapeChar(s[0], apos), PerChar(s[1..], apos);
      assert PerChar(s, apos) == e + t;
      assert forall i :: 0 <= i < |e| ==> !IsSpecial(e[i]);
    }
  }

  /** Escaped text can neither open nor close a tag, nor end an attribute value. */
  lemma EscapedHasNoSpecial(s: string)
    ensures forall i :: 0 <= i < |EscapeXml(s)| ==> !IsSpecial(EscapeXml(s)[i])
    ensures forall i :: 0 <= i < |EscapeHtml(s)| ==> !IsSpecial(EscapeHtml(s)[i])
  {
    EscapeWithIsPerChar(s, XmlApos);
    EscapeWithIsPerChar(s, HtmlApos);
    PerCharHasNoSpecial(s, XmlApos);
    PerCharHasNoSpecial(s, HtmlApos);
  }

  /** Escaped text holds no `<` and no `"`, so it can neither open a tag nor close an attribute. */
  lemma EscapedOmitsMarkup(s: string)
    ensures '<' !in EscapeXml(s) && '"' !in EscapeXml(s)
    ensures '<' !in EscapeHtml(s) && '"' !in EscapeHtml(s)
  {
    EscapedHasNoSpecial(s);
  }

  /** Reference decoder: the five entities (both apostrophe spellings) back to characters. */
  function Unescape(t: string): string
    decreases |t|
  {
    if t == [] then []
    else if "&amp;" <= t then "&" + Unescape(t[5..])
    else if "&lt;" <= t then "<" + Unescape(t[4..])
    else if "&gt;" <= t then ">" + Unescape(t[4..])
    else if "&quot;" <= t then "\"" + Unescape(t[6..])
    else if "&apos;" <= t then "'" + Unescape(t[6..])
    else if "&#39;" <= t then "'" + Unescape(t[5..])
    else [t[0]] + Unescape(t[1..])
  }

  lemma UnescapeStep(c: char, apos: string, rest: string)
    requires apos == XmlApos || apos == HtmlApos
    ensures Unescape(EscapeChar(c, apos) + rest) == [c] + Unescape(rest)
  {
    var e := EscapeChar(c, apos);
    var t := e + rest;
    assert t[..|e|] == e && t[|e|..] == rest;
    if c == '&' {
      assert "&amp;" <= t;
    } else if c == '<' {
      assert t[1] == 'l';
    } else if c == '>' {
      assert t[1] == 'g';
    } else if c == '"' {
      assert t[1] == 'q';
    } else if c == '\'' && apos == XmlApos {
      assert t[2] == 'p' && t[1] == 'a';
    } else if c == '\'' {
      assert t[1] == '#';
    } else {
      assert t[0] == c && t[1..] == rest;
    }
  }

  /** Escaping loses nothing: decoding the entities gives back the original text. */
  lemma {:induction false} UnescapeEscape(s: string)
    ensures Unescape(EscapeXml(s)) == s
    ensures Unescape(EscapeHtml(s)) == s
  {
    EscapeWithIsPerChar(s, XmlApos);
    EscapeWithIsPerChar(s, HtmlApos);
    UnescapePerChar(s, XmlApos);
    UnescapePerChar(s, HtmlApos);
  }

  lemma {:induction false} UnescapePerChar(s: string, apos: string)
    requires apos == XmlApos || apos == HtmlApos
    ensures Unescape(PerChar(s, apos)) == s
    decreases |s|
  {
    if s != [] {
      UnescapeStep(s[0], apos, PerChar(s[1..], apos));
      UnescapePerChar(s[1..], apos);
    }
  }

  /** Text free of the five characters is written unchanged. */
  lemma {:induction false} EscapePlain(s: string, apos: string)
    requires forall i :: 0 <= i < |s| ==> s[i] != '&' && !IsSpecial(s[i])
    ensures EscapeWith(s, apos) == s
    decreases |s|
  {
    EscapeWithIsPerChar(s, apos);
    PerCharPlain(s, apos);
  }

  lemma {:induction false} PerCharPlain(s: string, apos: string)
    requires forall i :: 0 <= i < |s| ==> s[i] != '&' && !IsSpecial(s[i])
    ensures PerChar(s, apos) == s
    decreases |s|
  {
    if s != [] {
      PerCharPlain(s[1..], apos);
      assert s == [s[0]] + s[1..];
    }
  }

  /** A number written by `String` needs no escaping. */
  lemma EscapeNumeral(n: int)
    ensures EscapeXml(IntToString(n)) == IntToString(n)
    ensures EscapeHtml(IntToString(n)) == IntToString(n)
  {
    IntToStringChars(n);
    EscapePlain(IntToString(n), XmlApos);
    EscapePlain(IntToString(n), HtmlApos);
  }
}
