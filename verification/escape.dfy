/**
 * The two HTML escapers of the converter (MarkdownToHtmlConverter.escapeHtml and
 * escapeHtmlAttr). Each is a chain of Java `String.replace` calls; the lemmas show
 * that the chain, applied in the source's order, acts char by char, that the
 * output holds none of the reserved chars, and that decoding the entities again
 * gives back the input.
 */
module Escape {
  import opened Text

  /** Java `s.replace(String.valueOf(c), rep)`: every occurrence of `c`, left to right. */
  function Replace(s: string, c: char, rep: string): (r: string)
    ensures c !in rep ==> c !in r
    ensures forall x :: x in r ==> x in rep || (x in s && x != c)
  {
    if s == [] then "" else (if s[0] == c then rep else [s[0]]) + Replace(s[1..], c, rep)
  }

  lemma {:induction false} ReplaceAppend(a: string, b: string, c: char, rep: string)
    ensures Replace(a + b, c, rep) == Replace(a, c, rep) + Replace(b, c, rep)
  {
    if a != [] {
      assert (a + b)[1..] == a[1..] + b;
      ReplaceAppend(a[1..], b, c, rep);
    } else {
      assert a + b == b;
    }
  }

  lemma ReplaceAbsent(s: string, c: char, rep: string)
    requires c !in s
    ensures Replace(s, c, rep) == s
  {
  }

  /** escapeHtml: `&` first, then `<`, then `>`. */
  function EscapeHtml(s: string): (r: string)
    ensures '<' !in r && '>' !in r
  {
    Replace(Replace(Replace(s, '&', "&amp;"), '<', "&lt;"), '>', "&gt;")
  }

  /** escapeHtmlAttr: `&`, then `"`, then `<`, then `>`. */
  function EscapeHtmlAttr(s: string): (r: string)
    ensures '"' !in r && '<' !in r && '>' !in r
  {
    Replace(Replace(Replace(Replace(s, '&', "&amp;"), '"', "&quot;"), '<', "&lt;"), '>', "&gt;")
  }

  /** What escapeHtml makes of one char. */
  function EscapeTextChar(c: char): string
  {
    if c == '&' then "&amp;" else if c == '<' then "&lt;" else if c == '>' then "&gt;" else [c]
  }

  /** What escapeHtmlAttr makes of one char. */
  function EscapeAttrChar(c: char): string
  {
    if c == '"' then "&quot;" else EscapeTextChar(c)
  }

  function EscapeTextEach(s: string): string
  {
    if s == [] then "" else EscapeTextChar(s[0]) + EscapeTextEach(s[1..])
  }

  function EscapeAttrEach(s: string): string
  {
    if s == [] then "" else EscapeAttrChar(s[0]) + EscapeAttrEach(s[1..])
  }

  lemma ReplaceOne(c: char, d: char, rep: string)
    ensures Replace([c], d, rep) == if c == d then rep else [c]
  {
    assert [c][1..] == [];
  }

  /** One step of the replace chain: the head char is escaped on its own. */
  lemma EscapeHtmlCons(c: char, t: string)
    ensures EscapeHtml([c] + t) == EscapeTextChar(c) + EscapeHtml(t)
  {
    var t1 := Replace(t, '&', "&amp;");
    var t2 := Replace(t1, '<', "&lt;");
    ReplaceAppend([c], t, '&', "&amp;");
    ReplaceOne(c, '&', "&amp;");
    var e1 := if c == '&' then "&amp;" else [c];
    ReplaceAppend(e1, t1, '<', "&lt;");
    var e2 := if c == '<' then "&lt;" else e1;
    if c == '&' { ReplaceAbsent("&amp;", '<', "&lt;"); } else { ReplaceOne(c, '<', "&lt;"); }
    ReplaceAppend(e2, t2, '>', "&gt;");
    if c == '&' {
      ReplaceAbsent("&amp;", '>', "&gt;");
    } else if c == '<' {
      ReplaceAbsent("&lt;", '>', "&gt;");
    } else {
      ReplaceOne(c, '>', "&gt;");
    }
  }

  /** A prefix free of the replaced char passes through unchanged. */
  lemma ReplaceKeepsPrefix(e: string, t: string, d: char, rep: string)
    requires d !in e
    ensures Replace(e + t, d, rep) == e + Replace(t, d, rep)
  {
    ReplaceAppend(e, t, d, rep);
    ReplaceAbsent(e, d, rep);
  }

  /** The replace hits the head char. */
  lemma ReplaceHead(d: char, t: string, rep: string)
    ensures Replace([d] + t, d, rep) == rep + Replace(t, d, rep)
  {
    ReplaceAppend([d], t, d, rep);
    ReplaceOne(d, d, rep);
  }

  lemma EscapeHtmlAttrCons(c: char, t: string)
    ensures EscapeHtmlAttr([c] + t) == EscapeAttrChar(c) + EscapeHtmlAttr(t)
  {
    var t1 := Replace(t, '&', "&amp;");
    var t2 := Replace(t1, '"', "&quot;");
    var t3 := Replace(t2, '<', "&lt;");
    if c == '&' {
      ReplaceHead('&', t, "&amp;");
      ReplaceKeepsPrefix("&amp;", t1, '"', "&quot;");
      ReplaceKeepsPrefix("&amp;", t2, '<', "&lt;");
      ReplaceKeepsPrefix("&amp;", t3, '>', "&gt;");
    } else if c == '"' {
      ReplaceKeepsPrefix([c], t, '&', "&amp;");
      ReplaceHead('"', t1, "&quot;");
      ReplaceKeepsPrefix("&quot;", t2, '<', "&lt;");
      ReplaceKeepsPrefix("&quot;", t3, '>', "&gt;");
    } else if c == '<' {
      ReplaceKeepsPrefix([c], t, '&', "&amp;");
      ReplaceKeepsPrefix([c], t1, '"', "&quot;");
      ReplaceHead('<', t2, "&lt;");
      ReplaceKeepsPrefix("&lt;", t3, '>', "&gt;");
    } else if c == '>' {
      ReplaceKeepsPrefix([c], t, '&', "&amp;");
      ReplaceKeepsPrefix([c], t1, '"', "&quot;");
      ReplaceKeepsPrefix([c], t2, '<', "&lt;");
      ReplaceHead('>', t3, "&gt;");
    } else {
      ReplaceKeepsPrefix([c], t, '&', "&amp;");
      ReplaceKeepsPrefix([c], t1, '"', "&quot;");
      ReplaceKeepsPrefix([c], t2, '<', "&lt;");
      ReplaceKeepsPrefix([c], t3, '>', "&gt;");
    }
  }

  /** The replace chain in the source's order acts char by char (no double escaping). */
  lemma {:induction false} EscapeHtmlPerChar(s: string)
    ensures EscapeHtml(s) == EscapeTextEach(s)
  {
    if s != [] {
      assert s == [s[0]] + s[1..];
      EscapeHtmlCons(s[0], s[1..]);
      EscapeHtmlPerChar(s[1..]);
    }
  }

  lemma {:induction false} EscapeHtmlAttrPerChar(s: string)
    ensures EscapeHtmlAttr(s) == EscapeAttrEach(s)
  {
    if s != [] {
      assert s == [s[0]] + s[1..];
      EscapeHtmlAttrCons(s[0], s[1..]);
      EscapeHtmlAttrPerChar(s[1..]);
    }
  }

  /** Decodes the four entities the escapers write; every other char stands for itself. */
  function Unescape(s: string): string
    decreases |s|
  {
    if s == [] then ""
    else if |s| >= 5 && s[..5] == "&amp;" then "&" + Unescape(s[5..])
    else if |s| >= 4 && s[..4] == "&lt;" then "<" + Unescape(s[4..])
    else if |s| >= 4 && s[..4] == "&gt;" then ">" + Unescape(s[4..])
    else if |s| >= 6 && s[..6] == "&quot;" then "\"" + Unescape(s[6..])
    else [s[0]] + Unescape(s[1..])
  }

  /** Round trip: no character of the input is lost or changed by escapeHtml. */
  lemma {:induction false} UnescapeEscapeHtml(s: string)
    ensures Unescape(EscapeHtml(s)) == s
  {
    EscapeHtmlPerChar(s);
    UnescapeEachText(s);
  }

  lemma UnescapeAmp(rest: string)
    ensures Unescape("&amp;" + rest) == "&" + Unescape(rest)
  {
    var s := "&amp;" + rest;
    assert s[..5] == "&amp;" && s[5..] == rest;
  }

  /** `&lt;` and `&gt;` decode to the angle bracket they stand for. */
  lemma UnescapeAngle(c: char, rest: string)
    requires c == '<' || c == '>'
    ensures Unescape(EscapeTextChar(c) + rest) == [c] + Unescape(rest)
  {
    var e := EscapeTextChar(c);
    var s := e + rest;
    assert s[..4] == e && s[4..] == rest;
    assert |s| >= 5 ==> s[1] == e[1];
  }

  lemma UnescapeQuot(rest: string)
    ensures Unescape("&quot;" + rest) == "\"" + Unescape(rest)
  {
    var s := "&quot;" + rest;
    assert s[..6] == "&quot;" && s[6..] == rest;
    assert s[1] == 'q';
  }

  lemma UnescapePlain(c: char, rest: string)
    requires c != '&'
    ensures Unescape([c] + rest) == [c] + Unescape(rest)
  {
    var s := [c] + rest;
    assert s[0] == c && s[1..] == rest;
  }

  /** Decoding undoes the escaping of one char, whatever follows it. */
  lemma UnescapeCons(c: char, rest: string)
    ensures Unescape(EscapeAttrChar(c) + rest) == [c] + Unescape(rest)
  {
    if c == '&' {
      UnescapeAmp(rest);
    } else if c == '<' || c == '>' {
      UnescapeAngle(c, rest);
    } else if c == '"' {
      UnescapeQuot(rest);
    } else {
      UnescapePlain(c, rest);
    }
  }

  lemma {:induction false} UnescapeEachText(s: string)
    ensures Unescape(EscapeTextEach(s)) == s
  {
    if s != [] {
      assert EscapeTextChar(s[0]) == EscapeAttrChar(s[0]) || s[0] == '"';
      if s[0] == '"' {
        UnescapePlain('"', EscapeTextEach(s[1..]));
      } else {
        UnescapeCons(s[0], EscapeTextEach(s[1..]));
      }
      UnescapeEachText(s[1..]);
      assert s == [s[0]] + s[1..];
    }
  }

  /** Round trip for attribute values. */
  lemma {:induction false} UnescapeEscapeHtmlAttr(s: string)
    ensures Unescape(EscapeHtmlAttr(s)) == s
  {
    EscapeHtmlAttrPerChar(s);
    UnescapeEachAttr(s);
  }

  lemma {:induction false} UnescapeEachAttr(s: string)
    ensures Unescape(EscapeAttrEach(s)) == s
  {
    if s != [] {
      UnescapeCons(s[0], EscapeAttrEach(s[1..]));
      UnescapeEachAttr(s[1..]);
      assert s == [s[0]] + s[1..];
    }
  }

  /** escapeHtml as declared: "" for null, otherwise escaped text that decodes back to the argument. */
  function EscapeHtmlNullable(s: Option<string>): (r: string)
    ensures s.None? ==> r == ""
    ensures s.Some? ==> '<' !in r && '>' !in r && Unescape(r) == s.value
  {
    if s.None? then ""
    else
      UnescapeEscapeHtml(s.value);
      EscapeHtml(s.value)
  }

  /** escapeHtmlAttr as declared: "" for null, otherwise an attribute value that decodes back to the argument. */
  function EscapeHtmlAttrNullable(s: Option<string>): (r: string)
    ensures s.None? ==> r == ""
    ensures s.Some? ==> '"' !in r && '<' !in r && '>' !in r && Unescape(r) == s.value
  {
    if s.None? then ""
    else
      UnescapeEscapeHtmlAttr(s.value);
      EscapeHtmlAttr(s.value)
  }
}
