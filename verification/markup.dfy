/**
 * The restricted markup dialect the converter emits (Telegram's HTML subset):
 * `<b>`, `<i>`, `<code>`, `<pre>` and `<a href="…">` with their closing tags;
 * every other char is text. `Scan` reads a string left to right with a stack of
 * open tags; a string is `Balanced` when every tag it holds is well formed, every
 * closing tag closes the innermost open one, no `<pre>` opens inside another, and
 * nothing is left open at the end.
 */
module Markup {
  import opened Text

  datatype Tag = Open(name: string) | Close(name: string)

  /** First index of `c` in `s` at or after `i`, as `String.indexOf(char, int)`. */
  function Find(s: string, c: char, i: nat): (r: Option<nat>)
    ensures r.Some? ==> i <= r.value < |s| && s[r.value] == c
    ensures r.Some? ==> forall k :: i <= k < r.value ==> s[k] != c
    ensures r.None? ==> forall k :: i <= k < |s| ==> s[k] != c
    decreases |s| - i
  {
    if i >= |s| then None else if s[i] == c then Some(i) else Find(s, c, i + 1)
  }

  /** The tag written between `<` and `>`, if it is one of the dialect's. */
  function TagOf(body: string): Option<Tag>
  {
    if body in {"b", "i", "code", "pre"} then Some(Open(body))
    else if |body| >= 2 && body[0] == '/' && body[1..] in {"b", "i", "code", "pre", "a"} then Some(Close(body[1..]))
    else if |body| >= 9 && body[..8] == "a href=\"" && body[|body| - 1] == '"' && '"' !in body[8..|body| - 1]
    then Some(Open("a"))
    else None
  }

  /** Reads the tag that starts `s` (at its `<`) and its length. */
  function ReadTag(s: string): (r: Option<(Tag, nat)>)
    requires |s| > 0
    ensures r.Some? ==> 2 <= r.value.1 <= |s| && s[r.value.1 - 1] == '>'
  {
    match Find(s, '>', 1)
    case None => None
    case Some(j) =>
      match TagOf(s[1..j])
      case None => None
      case Some(t) => Some((t, j + 1))
  }

  /** Scans `s` with the stack `open` of tag names opened so far; None on any violation. */
  function Scan(s: string, open: seq<string>): Option<seq<string>>
    decreases |s|, 1
  {
    if s == [] then Some(open)
    else if s[0] != '<' then Scan(s[1..], open)
    else ScanTag(s, open, ReadTag(s))
  }

  /** The scan at a `<`, given the tag read there and its length. */
  function ScanTag(s: string, open: seq<string>, read: Option<(Tag, nat)>): Option<seq<string>>
    requires read.Some? ==> 2 <= read.value.1 <= |s|
    decreases |s|, 0
  {
    if read.None? then None
    else if read.value.0.Open? then
      if read.value.0.name == "pre" && "pre" in open then None
      else Scan(s[read.value.1..], open + [read.value.0.name])
    else if open != [] && open[|open| - 1] == read.value.0.name then Scan(s[read.value.1..], open[..|open| - 1])
    else None
  }

  /** Every tag well formed, properly nested and closed. */
  predicate Balanced(s: string)
  {
    Scan(s, []) == Some([])
  }

  /** Text without `<` holds no tag at all. */
  lemma {:induction false} ScanText(s: string, open: seq<string>)
    requires '<' !in s
    ensures Scan(s, open) == Some(open)
    decreases |s|
  {
    if s != [] {
      ScanText(s[1..], open);
    }
  }

  /** Text without `<` is balanced. */
  lemma BalancedText(s: string)
    requires '<' !in s
    ensures Balanced(s)
  {
    ScanText(s, []);
  }

  /** A tag read from a prefix is read the same way when more text follows. */
  lemma ReadTagExtend(a: string, b: string)
    requires |a| > 0 && ReadTag(a).Some?
    ensures ReadTag(a + b) == ReadTag(a)
  {
    var j := Find(a, '>', 1).value;
    var j' := Find(a + b, '>', 1);
    assert (a + b)[j] == '>';
    assert j' == Some(j);
    assert (a + b)[1..j] == a[1..j];
  }

  /** Scanning a concatenation scans the second part from where the first one left off. */
  lemma {:induction false} ScanAppend(a: string, b: string, open: seq<string>)
    requires Scan(a, open).Some?
    ensures Scan(a + b, open) == Scan(b, Scan(a, open).value)
    decreases |a|
  {
    if a == [] {
      assert a + b == b;
    } else if a[0] != '<' {
      assert (a + b)[1..] == a[1..] + b;
      ScanAppend(a[1..], b, open);
    } else {
      ReadTagExtend(a, b);
      var k := ReadTag(a).value.1;
      assert (a + b)[k..] == a[k..] + b;
      match ReadTag(a).value.0
      case Open(n) => ScanAppend(a[k..], b, open + [n]);
      case Close(n) => ScanAppend(a[k..], b, open[..|open| - 1]);
    }
  }

  /** A scan that succeeds on its own stack succeeds the same on top of enclosing tags. */
  lemma {:induction false} ScanFrame(s: string, base: seq<string>, open: seq<string>)
    requires "pre" !in base && Scan(s, open).Some?
    ensures Scan(s, base + open) == Some(base + Scan(s, open).value)
    decreases |s|
  {
    if s != [] {
      if s[0] != '<' {
        ScanFrame(s[1..], base, open);
      } else {
        var k := ReadTag(s).value.1;
        match ReadTag(s).value.0
        case Open(n) =>
          assert (base + open) + [n] == base + (open + [n]);
          ScanFrame(s[k..], base, open + [n]);
        case Close(n) =>
          assert (base + open)[..|base + open| - 1] == base + open[..|open| - 1];
          ScanFrame(s[k..], base, open[..|open| - 1]);
      }
    }
  }

  lemma BalancedInside(s: string, name: string)
    requires Balanced(s) && name != "pre"
    ensures Scan(s, [name]) == Some([name])
  {
    ScanFrame(s, [name], []);
    assert [name] + [] == [name];
  }

  lemma BalancedConcat(a: string, b: string)
    requires Balanced(a) && Balanced(b)
    ensures Balanced(a + b)
  {
    ScanAppend(a, b, []);
  }

  lemma ScanOpen(name: string, rest: string, open: seq<string>)
    requires name in {"b", "i", "code", "pre"} && !(name == "pre" && "pre" in open)
    ensures Scan("<" + name + ">" + rest, open) == Scan(rest, open + [name])
  {
    var s := "<" + name + ">" + rest;
    var j := |name| + 1;
    assert s[j] == '>';
    assert forall k :: 1 <= k < j ==> s[k] == name[k - 1];
    assert Find(s, '>', 1) == Some(j);
    assert s[1..j] == name;
    assert s[j + 1..] == rest;
  }

  lemma ScanClose(name: string, rest: string, open: seq<string>)
    requires name in {"b", "i", "code", "pre", "a"} && open != [] && open[|open| - 1] == name
    ensures Scan("</" + name + ">" + rest, open) == Scan(rest, open[..|open| - 1])
  {
    var s := "</" + name + ">" + rest;
    CloseTagRead(name, rest);
    CloseTagOf(name);
    assert ReadTag(s) == Some((Close(name), |name| + 3));
    ScanAtTag(s, open);
    assert s[|name| + 3..] == rest;
  }

  lemma CloseTagOf(name: string)
    requires name in {"b", "i", "code", "pre", "a"}
    ensures TagOf("/" + name) == Some(Close(name))
  {
    assert ("/" + name)[1..] == name;
  }

  /** The closing tag of a dialect name is read as that tag. */
  lemma CloseTagRead(name: string, rest: string)
    requires name in {"b", "i", "code", "pre", "a"}
    ensures Find("</" + name + ">" + rest, '>', 1) == Some(|name| + 2)
    ensures ("</" + name + ">" + rest)[1..|name| + 2] == "/" + name
  {
    var s := "</" + name + ">" + rest;
    assert '>' !in name;
    NoCharBefore(s, '>', 1, |name| + 2);
  }

  /** The scan at a `<`. */
  lemma ScanAtTag(s: string, open: seq<string>)
    requires |s| > 0 && s[0] == '<'
    ensures Scan(s, open) == ScanTag(s, open, ReadTag(s))
  {
  }

  /** `Find` stops at the first occurrence. */
  lemma NoCharBefore(s: string, c: char, i: nat, j: nat)
    requires i <= j < |s| && s[j] == c && forall k :: i <= k < j ==> s[k] != c
    ensures Find(s, c, i) == Some(j)
  {
  }

  /** A tag opened on `open`, a part that leaves the stack as it found it, and the matching close. */
  lemma ScanWrap(name: string, o: string, c: string, inner: string, open: seq<string>)
    requires name in {"b", "i", "code", "pre"} && !(name == "pre" && "pre" in open)
    requires o == "<" + name + ">" && c == "</" + name + ">"
    requires Scan(inner, open + [name]) == Some(open + [name])
    ensures Scan(o + inner + c, open) == Some(open)
  {
    assert o + inner + c == "<" + name + ">" + (inner + c);
    ScanOpen(name, inner + c, open);
    ScanAppend(inner, c, open + [name]);
    assert c == "</" + name + ">" + "";
    ScanClose(name, "", open + [name]);
    assert (open + [name])[..|open + [name]| - 1] == open;
    assert Scan("", open) == Some(open);
  }

  /** `<name>` + balanced + `</name>` is balanced, for the four plain tags except `pre`. */
  lemma BalancedWrap(name: string, o: string, c: string, inner: string)
    requires name == "b" || name == "i" || name == "code"
    requires o == "<" + name + ">" && c == "</" + name + ">"
    requires Balanced(inner)
    ensures Balanced(o + inner + c)
  {
    BalancedInside(inner, name);
    assert [] + [name] == [name];
    ScanWrap(name, o, c, inner, []);
  }

  /** `<pre>` + text + `</pre>` is balanced when the text holds no `<`. */
  lemma BalancedPreText(text: string)
    requires '<' !in text
    ensures Balanced("<pre>" + text + "</pre>")
  {
    ScanText(text, ["pre"]);
    assert [] + ["pre"] == ["pre"];
    ScanWrap("pre", "<pre>", "</pre>", text, []);
  }

  /** `<pre><code>` + text + `</code></pre>` is balanced when the text holds no `<`. */
  lemma BalancedCodeBlock(text: string)
    requires '<' !in text
    ensures Balanced("<pre><code>" + text + "</code></pre>")
  {
    var code := "<code>" + text + "</code>";
    CodeInPre(text);
    ScanWrap("pre", "<pre>", "</pre>", code, []);
    CodeBlockShape(text);
  }

  /** The code element scanned inside an open `pre` leaves just the `pre` open. */
  lemma CodeInPre(text: string)
    requires '<' !in text
    ensures Scan("<code>" + text + "</code>", [] + ["pre"]) == Some([] + ["pre"])
  {
    ScanText(text, ["pre", "code"]);
    assert ["pre"] + ["code"] == ["pre", "code"];
    ScanWrap("code", "<code>", "</code>", text, ["pre"]);
    assert [] + ["pre"] == ["pre"];
  }

  lemma CodeBlockShape(text: string)
    ensures "<pre>" + ("<code>" + text + "</code>") + "</pre>" == "<pre><code>" + text + "</code></pre>"
  {
  }

  /** The opening anchor tag: `<a href="` + v + `">` with no `"` and no `>` in `v`. */
  lemma ScanAnchorOpen(v: string, rest: string, open: seq<string>)
    requires '"' !in v && '>' !in v
    ensures Scan("<a href=\"" + v + "\">" + rest, open) == Scan(rest, open + ["a"])
  {
    var s := "<a href=\"" + v + "\">" + rest;
    var j := |v| + 10;
    AnchorEnd(v, rest);
    var body := s[1..j];
    AnchorBody(v, rest);
    assert TagOf(body) == Some(Open("a"));
    assert s[j + 1..] == rest;
  }

  lemma AnchorEnd(v: string, rest: string)
    requires '>' !in v
    ensures Find("<a href=\"" + v + "\">" + rest, '>', 1) == Some(|v| + 10)
  {
    var s := "<a href=\"" + v + "\">" + rest;
    var j := |v| + 10;
    assert s[j] == '>';
    assert forall k :: 1 <= k < 9 ==> s[k] == "a href=\""[k - 1];
    assert forall k :: 9 <= k < j - 1 ==> s[k] == v[k - 9];
    assert s[j - 1] == '"';
  }

  lemma AnchorBody(v: string, rest: string)
    ensures ("<a href=\"" + v + "\">" + rest)[1..|v| + 10] == "a href=\"" + v + "\""
  {
  }

  /** `<a href="v">` + balanced + `</a>` is balanced when `v` holds no `"` and no `>`. */
  lemma BalancedAnchor(v: string, inner: string)
    requires '"' !in v && '>' !in v && Balanced(inner)
    ensures Balanced("<a href=\"" + v + "\">" + inner + "</a>")
  {
    var close := "</a>";
    assert "<a href=\"" + v + "\">" + inner + close == "<a href=\"" + v + "\">" + (inner + close);
    ScanAnchorOpen(v, inner + close, []);
    BalancedInside(inner, "a");
    assert [] + ["a"] == ["a"];
    ScanAppend(inner, close, ["a"]);
    assert close == "</" + "a" + ">" + "";
    ScanClose("a", "", ["a"]);
  }

  /** Leading text without `<` does not change a scan. */
  lemma {:induction false} ScanSkipPrefix(p: string, x: string, open: seq<string>)
    requires '<' !in p
    ensures Scan(p + x, open) == Scan(x, open)
    decreases |p|
  {
    if p == [] {
      assert p + x == x;
    } else {
      assert (p + x)[1..] == p[1..] + x;
      ScanSkipPrefix(p[1..], x, open);
    }
  }

  lemma ReadTagShrink(x: string, w: string)
    requires |x| > 0 && '>' !in w && ReadTag(x + w).Some?
    ensures ReadTag(x + w).value.1 <= |x| && ReadTag(x) == ReadTag(x + w)
  {
    var j := Find(x + w, '>', 1).value;
    assert j < |x|;
    assert x[j] == '>';
    assert forall k :: 1 <= k < j ==> x[k] == (x + w)[k];
    assert Find(x, '>', 1) == Some(j);
    assert (x + w)[1..j] == x[1..j];
  }

  /** Trailing text without `<` or `>` can be cut off without changing a successful scan. */
  lemma {:induction false} ScanDropSuffix(x: string, w: string, open: seq<string>)
    requires '<' !in w && '>' !in w && Scan(x + w, open).Some?
    ensures Scan(x, open) == Scan(x + w, open)
    decreases |x|
  {
    if x == [] {
      assert x + w == w;
      ScanText(w, open);
    } else if x[0] != '<' {
      assert (x + w)[1..] == x[1..] + w;
      ScanDropSuffix(x[1..], w, open);
    } else {
      ReadTagShrink(x, w);
      var k := ReadTag(x).value.1;
      assert (x + w)[k..] == x[k..] + w;
      match ReadTag(x).value.0
      case Open(n) => ScanDropSuffix(x[k..], w, open + [n]);
      case Close(n) => ScanDropSuffix(x[k..], w, open[..|open| - 1]);
    }
  }

  /** What `trim()` cuts off the front holds no tag char. */
  lemma TrimStartCut(s: string, t: string)
    requires t == TrimStart(s)
    ensures s == s[..|s| - |t|] + t && '<' !in s[..|s| - |t|]
  {
    var n := |s| - |t|;
    var p := s[..n];
    SplitAt(s, n);
    forall k | 0 <= k < n
      ensures p[k] != '<'
    {
      assert p[k] == s[k] && IsTrimmed(s[k]);
    }
  }

  /** What `trim()` cuts off the back holds no tag char. */
  lemma TrimEndCut(t: string, e: string)
    requires e == TrimEnd(t)
    ensures t == e + t[|e|..] && '<' !in t[|e|..] && '>' !in t[|e|..]
  {
    var w := t[|e|..];
    forall k | 0 <= k < |w|
      ensures w[k] != '<' && w[k] != '>'
    {
      assert w[k] == t[|e| + k] && IsTrimmed(t[|e| + k]);
    }
    SplitAt(t, |e|);
  }

  /** `String.trim()` keeps a balanced string balanced: it only removes text outside every tag. */
  lemma BalancedTrim(s: string)
    requires Balanced(s)
    ensures Balanced(Trim(s))
  {
    var t := TrimStart(s);
    var e := TrimEnd(t);
    TrimStartCut(s, t);
    ScanSkipPrefix(s[..|s| - |t|], t, []);
    TrimEndCut(t, e);
    ScanDropSuffix(e, t[|e|..], []);
  }
}
