/**
 * The Markdown-to-Telegram-HTML converter. Flexmark parses the Markdown and
 * Jsoup turns the produced HTML into a DOM tree; both are libraries, so the tree
 * of the `<body>` is a parameter here. The converter walks that tree and writes
 * only the tags Telegram accepts, escaping every piece of text, and trims the
 * result.
 */
module Render {
  import opened Text
  import opened Escape
  import opened Markup
  import Table

  /** A Jsoup node: a text node, or an element with its tag name, its `href` ("" when absent) and its child nodes. */
  datatype Node = TextNode(content: string) | Element(tag: string, href: string, children: seq<Node>)

  const Headings: set<string> := {"h1", "h2", "h3", "h4", "h5", "h6"}

  /** `Element.text()`: the text of every descendant text node, in document order. */
  function TextOfSeq(ns: seq<Node>): string
    decreases ns
  {
    if ns == [] then "" else TextOfSeq(ns[..|ns| - 1]) + TextOf(ns[|ns| - 1])
  }

  function TextOf(n: Node): string
    decreases n
  {
    match n
    case TextNode(c) => c
    case Element(_, _, ch) => TextOfSeq(ch)
  }

  /** `select(names)`: every descendant element whose tag is in `names`, in document order. */
  function SelectSeq(ns: seq<Node>, names: set<string>): (r: seq<Node>)
    ensures forall i :: 0 <= i < |r| ==> r[i].Element? && r[i].tag in names
    decreases ns
  {
    if ns == [] then [] else SelectSeq(ns[..|ns| - 1], names) + SelectNode(ns[|ns| - 1], names)
  }

  function SelectNode(n: Node, names: set<string>): (r: seq<Node>)
    ensures forall i :: 0 <= i < |r| ==> r[i].Element? && r[i].tag in names
    decreases n
  {
    match n
    case TextNode(_) => []
    case Element(tag, _, ch) => (if tag in names then [n] else []) + SelectSeq(ch, names)
  }

  /** The pre-order walk of a forest: every node, each before its descendants, in document order. */
  function WalkSeq(ns: seq<Node>): seq<Node>
    decreases ns
  {
    if ns == [] then [] else WalkSeq(ns[..|ns| - 1]) + WalkNode(ns[|ns| - 1])
  }

  function WalkNode(n: Node): seq<Node>
    decreases n
  {
    match n
    case TextNode(_) => [n]
    case Element(_, _, ch) => [n] + WalkSeq(ch)
  }

  /** A node a selector of tag names matches. */
  predicate Tagged(n: Node, names: set<string>)
  {
    n.Element? && n.tag in names
  }

  /** The nodes of a list that the selector matches, in list order. */
  function TagFilter(s: seq<Node>, names: set<string>): seq<Node>
  {
    if s == [] then [] else TagFilter(s[..|s| - 1], names) + (if Tagged(s[|s| - 1], names) then [s[|s| - 1]] else [])
  }

  /** The indices of the matched nodes, in increasing order. */
  function TagFilterAt(s: seq<Node>, names: set<string>): seq<nat>
  {
    if s == [] then [] else TagFilterAt(s[..|s| - 1], names) + (if Tagged(s[|s| - 1], names) then [|s| - 1] else [])
  }

  /** The i-th matched node is the node at the i-th matched index. */
  lemma {:induction false} TagFilterExactly(s: seq<Node>, names: set<string>)
    ensures |TagFilterAt(s, names)| == |TagFilter(s, names)|
    ensures forall i :: 0 <= i < |TagFilterAt(s, names)| ==>
              TagFilterAt(s, names)[i] < |s| && TagFilter(s, names)[i] == s[TagFilterAt(s, names)[i]]
    decreases |s|
  {
    if s != [] {
      var n := |s| - 1;
      var f := s[..n];
      TagFilterExactly(f, names);
      var idx, r := TagFilterAt(s, names), TagFilter(s, names);
      var fi, fr := TagFilterAt(f, names), TagFilter(f, names);
      assert r == fr + (if Tagged(s[n], names) then [s[n]] else []);
      forall i | 0 <= i < |idx|
        ensures idx[i] < |s| && r[i] == s[idx[i]]
      {
        if i < |fi| {
          assert idx[i] == fi[i] && r[i] == fr[i];
          assert f[fi[i]] == s[fi[i]];
        }
      }
    }
  }

  /** The matched indices increase, and an index is matched exactly when its node is. */
  lemma {:induction false} TagFilterInOrder(s: seq<Node>, names: set<string>)
    ensures forall i :: 0 <= i < |TagFilterAt(s, names)| ==> TagFilterAt(s, names)[i] < |s|
    ensures forall i, k :: 0 <= i < k < |TagFilterAt(s, names)| ==> TagFilterAt(s, names)[i] < TagFilterAt(s, names)[k]
    ensures forall j :: 0 <= j < |s| ==> (Tagged(s[j], names) <==> j in TagFilterAt(s, names))
    decreases |s|
  {
    if s != [] {
      var n := |s| - 1;
      var f := s[..n];
      TagFilterInOrder(f, names);
      var idx, fi := TagFilterAt(s, names), TagFilterAt(f, names);
      assert idx == fi + (if Tagged(s[n], names) then [n] else []);
      forall i, k | 0 <= i < k < |idx|
        ensures idx[i] < idx[k]
      {
        if k < |fi| {
          assert idx[i] == fi[i] && idx[k] == fi[k];
        }
      }
      forall j | 0 <= j < |s|
        ensures Tagged(s[j], names) <==> j in idx
      {
        assert j in idx <==> j in fi || (j == n && Tagged(s[n], names));
        if j < n {
          assert f[j] == s[j];
        }
      }
    }
  }

  lemma {:induction false} TagFilterAppend(a: seq<Node>, b: seq<Node>, names: set<string>)
    ensures TagFilter(a + b, names) == TagFilter(a, names) + TagFilter(b, names)
    decreases |b|
  {
    if b == [] {
      assert a + b == a;
    } else {
      var n := |b| - 1;
      var x := if Tagged(b[n], names) then [b[n]] else [];
      assert (a + b)[..|a + b| - 1] == a + b[..n];
      TagFilterAppend(a, b[..n], names);
      Assoc(TagFilter(a, names), TagFilter(b[..n], names), x);
    }
  }

  /** `select(names)` is the pre-order walk of the descendants with the unmatched nodes taken out. */
  lemma {:induction false} SelectIsWalkFiltered(ns: seq<Node>, names: set<string>)
    ensures SelectSeq(ns, names) == TagFilter(WalkSeq(ns), names)
    decreases ns
  {
    if ns != [] {
      var front, last := ns[..|ns| - 1], ns[|ns| - 1];
      SelectIsWalkFiltered(front, names);
      SelectNodeIsWalkFiltered(last, names);
      TagFilterAppend(WalkSeq(front), WalkNode(last), names);
    }
  }

  lemma {:induction false} SelectNodeIsWalkFiltered(n: Node, names: set<string>)
    ensures SelectNode(n, names) == TagFilter(WalkNode(n), names)
    decreases n
  {
    assert [n][..0] == [];
    match n
    case TextNode(_) =>
    case Element(_, _, ch) =>
      SelectIsWalkFiltered(ch, names);
      TagFilterAppend([n], WalkSeq(ch), names);
  }

  /** The `th`/`td` cells of one `tr`, as the table formatter reads them. */
  function RowOf(tr: Node): seq<Table.Cell>
  {
    var cells := SelectSeq(if tr.Element? then tr.children else [], {"th", "td"});
    seq(|cells|, i requires 0 <= i < |cells| => Table.Cell(TextOf(cells[i]), cells[i].tag == "th"))
  }

  /** The rows of a `table` element with children `ch`: its `tr` descendants, each with its cells. */
  function TableCells(ch: seq<Node>): seq<seq<Table.Cell>>
  {
    var rows := SelectSeq(ch, {"tr"});
    seq(|rows|, i requires 0 <= i < |rows| => RowOf(rows[i]))
  }

  /** A direct child that `select("> li")` picks. */
  predicate IsLi(n: Node)
  {
    n.Element? && n.tag == "li"
  }

  function LiCount(ns: seq<Node>): nat
  {
    if ns == [] then 0 else LiCount(ns[..|ns| - 1]) + (if IsLi(ns[|ns| - 1]) then 1 else 0)
  }

  /** What renderTelegramHtml writes for a list of sibling nodes: each node's text, in order. */
  function RenderSeq(ns: seq<Node>): string
    decreases ns, 0
  {
    if ns == [] then "" else RenderSeq(ns[..|ns| - 1]) + RenderNode(ns[|ns| - 1])
  }

  /** What renderTelegramHtml writes for one child node. */
  function RenderNode(n: Node): string
    decreases n, 0
  {
    match n
    case TextNode(c) => EscapeHtml(c)
    case Element(tag, href, ch) => RenderElement(tag, href, ch)
  }

  /** What renderTelegramHtml writes for an element, by its tag name. */
  function RenderElement(tag: string, href: string, ch: seq<Node>): string
    decreases ch, 1
  {
    if tag in Headings then "<b>" + RenderSeq(ch) + "</b>\n\n"
    else if tag == "p" then RenderSeq(ch) + "\n\n"
    else if tag == "strong" || tag == "b" then "<b>" + RenderSeq(ch) + "</b>"
    else if tag == "em" || tag == "i" then "<i>" + RenderSeq(ch) + "</i>"
    else if tag == "code" then "<code>" + EscapeHtml(TextOfSeq(ch)) + "</code>"
    else if tag == "pre" then CodeBlock(TextOfSeq(ch))
    else if tag == "ul" then Bullets(ch) + "\n"
    else if tag == "ol" then Numbered(ch) + "\n"
    else if tag == "a" then "<a href=\"" + EscapeHtmlAttr(href) + "\">" + RenderSeq(ch) + "</a>"
    else if tag == "br" then "\n"
    else if tag == "table" then PreBlock(Table.Monospace(TableCells(ch)))
    else RenderSeq(ch)
  }

  /** A code block: the escaped text inside `<pre><code>`, then a blank line. */
  function CodeBlock(text: string): string
  {
    "<pre><code>" + EscapeHtml(text) + "</code></pre>\n\n"
  }

  /** A preformatted block (a table): the escaped text inside `<pre>`, then a blank line. */
  function PreBlock(text: string): string
  {
    "<pre>" + EscapeHtml(text) + "</pre>\n\n"
  }

  /** The items of a `ul`: "• " + item + newline for every `li` child. */
  function Bullets(ch: seq<Node>): string
    decreases ch, 0
  {
    if ch == [] then "" else Bullets(ch[..|ch| - 1]) + BulletItem(ch[|ch| - 1])
  }

  /** The line a `ul` child adds: its bullet line when it is an `li`, nothing otherwise. */
  function BulletItem(n: Node): string
    decreases n, 0
  {
    if IsLi(n) then "• " + RenderSeq(n.children) + "\n" else ""
  }

  /** The items of an `ol`: the item's number from 1, ". ", the item and a newline for every `li` child. */
  function Numbered(ch: seq<Node>): string
    decreases ch, 0
  {
    if ch == [] then ""
    else Numbered(ch[..|ch| - 1]) + NumberedItem(LiCount(ch[..|ch| - 1]) + 1, ch[|ch| - 1])
  }

  /** The line an `ol` child adds as item number `k`: nothing unless it is an `li`. */
  function NumberedItem(k: nat, n: Node): string
    decreases n, 0
  {
    if IsLi(n) then NatToString(k) + ". " + RenderSeq(n.children) + "\n" else ""
  }

  /** What convertMarkdownToTelegramHtml returns, given the body Jsoup built for a non-empty input. */
  function Converted(markdown: Option<string>, body: Node): string
  {
    if markdown.None? || markdown.value == "" then ""
    else Trim(RenderSeq(if body.Element? then body.children else []))
  }

  method ConvertMarkdownToTelegramHtml(markdown: Option<string>, body: Node) returns (r: string)
    ensures r == Converted(markdown, body)
  {
    if markdown.None? || markdown.value == "" {
      return "";
    }
    var html := RenderTelegramHtml(body);
    r := Trim(html);
  }

  /** Renders the child nodes of `node` one after the other. */
  method RenderTelegramHtml(node: Node) returns (out: string)
    ensures out == RenderSeq(if node.Element? then node.children else [])
    decreases node, 1
  {
    if node.TextNode? {
      return "";
    }
    var children := node.children;
    out := "";
    for k := 0 to |children|
      invariant out == RenderSeq(children[..k])
    {
      var piece := RenderChild(children[k]);
      assert children[..k + 1][..k] == children[..k];
      out := out + piece;
    }
    assert children[..|children|] == children;
  }

  /** One turn of the loop of renderTelegramHtml: the text written for `child`. */
  method RenderChild(child: Node) returns (out: string)
    ensures out == RenderNode(child)
    decreases child, 2
  {
    if child.TextNode? {
      return EscapeHtml(child.content);
    }
    var tag, ch := child.tag, child.children;
    if tag in Headings {
      var inner := RenderTelegramHtml(child);
      out := "<b>" + inner + "</b>\n\n";
    } else if tag == "p" {
      var inner := RenderTelegramHtml(child);
      out := inner + "\n\n";
    } else if tag == "strong" || tag == "b" {
      var inner := RenderTelegramHtml(child);
      out := "<b>" + inner + "</b>";
    } else if tag == "em" || tag == "i" {
      var inner := RenderTelegramHtml(child);
      out := "<i>" + inner + "</i>";
    } else if tag == "code" {
      out := "<code>" + EscapeHtml(TextOfSeq(ch)) + "</code>";
    } else if tag == "pre" {
      out := "<pre><code>" + EscapeHtml(TextOfSeq(ch)) + "</code></pre>\n\n";
      assert out == CodeBlock(TextOfSeq(ch));
    } else if tag == "ul" {
      out := RenderBullets(ch);
      out := out + "\n";
    } else if tag == "ol" {
      out := RenderNumbered(ch);
      out := out + "\n";
    } else if tag == "a" {
      var inner := RenderTelegramHtml(child);
      out := "<a href=\"" + EscapeHtmlAttr(child.href) + "\">" + inner + "</a>";
    } else if tag == "br" {
      out := "\n";
    } else if tag == "table" {
      var text := Table.ParseTableToMonospace(TableCells(ch));
      out := "<pre>" + EscapeHtml(text) + "</pre>\n\n";
    } else {
      out := RenderTelegramHtml(child);
    }
  }

  /** The `li` children of a `ul`, each as a bullet line. */
  method RenderBullets(ch: seq<Node>) returns (out: string)
    ensures out == Bullets(ch)
    decreases ch, 3
  {
    out := "";
    for i := 0 to |ch|
      invariant out == Bullets(ch[..i])
    {
      assert ch[..i + 1][..i] == ch[..i];
      var line := "";
      if IsLi(ch[i]) {
        var inner := RenderTelegramHtml(ch[i]);
        line := "• " + inner + "\n";
      }
      assert line == BulletItem(ch[i]);
      out := out + line;
    }
    assert ch[..|ch|] == ch;
  }

  /** The `li` children of an `ol`, numbered from 1 in a running counter. */
  method RenderNumbered(ch: seq<Node>) returns (out: string)
    ensures out == Numbered(ch)
    decreases ch, 3
  {
    out := "";
    var idx := 1;
    for i := 0 to |ch|
      invariant out == Numbered(ch[..i])
      invariant idx == LiCount(ch[..i]) + 1
    {
      assert ch[..i + 1][..i] == ch[..i];
      var line := "";
      if IsLi(ch[i]) {
        var inner := RenderTelegramHtml(ch[i]);
        line := NatToString(idx) + ". " + inner + "\n";
      }
      assert line == NumberedItem(idx, ch[i]);
      out := out + line;
      if IsLi(ch[i]) {
        idx := idx + 1;
      }
    }
    assert ch[..|ch|] == ch;
  }

  /** Whatever the tree, the rendered text is well-formed Telegram markup: every tag is closed, in order. */
  lemma {:induction false} RenderSeqBalanced(ns: seq<Node>)
    ensures Balanced(RenderSeq(ns))
    decreases ns
  {
    if ns == [] {
      BalancedText("");
    } else {
      RenderSeqBalanced(ns[..|ns| - 1]);
      RenderNodeBalanced(ns[|ns| - 1]);
      BalancedConcat(RenderSeq(ns[..|ns| - 1]), RenderNode(ns[|ns| - 1]));
    }
  }

  lemma {:induction false} RenderNodeBalanced(n: Node)
    ensures Balanced(RenderNode(n))
    decreases n
  {
    match n
    case TextNode(c) =>
      EscapedBalanced(c);
    case Element(tag, href, ch) =>
      if tag in Headings {
        RenderSeqBalanced(ch);
        BoldBalanced(RenderSeq(ch));
      } else if tag == "p" {
        RenderSeqBalanced(ch);
        BalancedText("\n\n");
        BalancedConcat(RenderSeq(ch), "\n\n");
      } else if tag == "strong" || tag == "b" {
        RenderSeqBalanced(ch);
        BoldBalanced(RenderSeq(ch));
      } else if tag == "em" || tag == "i" {
        RenderSeqBalanced(ch);
        ItalicBalanced(RenderSeq(ch));
      } else if tag == "code" {
        CodeBalanced(TextOfSeq(ch));
      } else if tag == "pre" {
        CodeBlockBalanced(TextOfSeq(ch));
      } else if tag == "ul" {
        BulletsBalanced(ch);
        BalancedText("\n");
        BalancedConcat(Bullets(ch), "\n");
      } else if tag == "ol" {
        NumberedBalanced(ch);
        BalancedText("\n");
        BalancedConcat(Numbered(ch), "\n");
      } else if tag == "a" {
        RenderSeqBalanced(ch);
        AnchorBalanced(href, RenderSeq(ch));
      } else if tag == "br" {
        BalancedText("\n");
      } else if tag == "table" {
        PreBlockBalanced(Table.Monospace(TableCells(ch)));
      } else {
        RenderSeqBalanced(ch);
      }
  }

  lemma EscapedBalanced(s: string)
    ensures Balanced(EscapeHtml(s))
  {
    BalancedText(EscapeHtml(s));
  }

  lemma BoldBalanced(inner: string)
    requires Balanced(inner)
    ensures Balanced("<b>" + inner + "</b>") && Balanced("<b>" + inner + "</b>\n\n")
  {
    BalancedWrap("b", "<b>", "</b>", inner);
    BalancedText("\n\n");
    BalancedConcat("<b>" + inner + "</b>", "\n\n");
    assert "<b>" + inner + "</b>" + "\n\n" == "<b>" + inner + "</b>\n\n";
  }

  lemma ItalicBalanced(inner: string)
    requires Balanced(inner)
    ensures Balanced("<i>" + inner + "</i>")
  {
    BalancedWrap("i", "<i>", "</i>", inner);
  }

  lemma CodeBalanced(text: string)
    ensures Balanced("<code>" + EscapeHtml(text) + "</code>")
  {
    var e := EscapeHtml(text);
    EscapedBalanced(text);
    BalancedWrap("code", "<code>", "</code>", e);
  }

  lemma CodeBlockBalanced(text: string)
    ensures Balanced(CodeBlock(text))
  {
    var e := EscapeHtml(text);
    var block := "<pre><code>" + e + "</code></pre>";
    BalancedCodeBlock(e);
    BalancedText("\n\n");
    BalancedConcat(block, "\n\n");
    assert block + "\n\n" == "<pre><code>" + e + "</code></pre>\n\n";
  }

  lemma PreBlockBalanced(text: string)
    ensures Balanced(PreBlock(text))
  {
    var e := EscapeHtml(text);
    var block := "<pre>" + e + "</pre>";
    BalancedPreText(e);
    BalancedText("\n\n");
    BalancedConcat(block, "\n\n");
    assert block + "\n\n" == "<pre>" + e + "</pre>\n\n";
  }

  lemma AnchorBalanced(href: string, inner: string)
    requires Balanced(inner)
    ensures Balanced("<a href=\"" + EscapeHtmlAttr(href) + "\">" + inner + "</a>")
  {
    BalancedAnchor(EscapeHtmlAttr(href), inner);
  }

  lemma {:induction false} BulletsBalanced(ch: seq<Node>)
    ensures Balanced(Bullets(ch))
    decreases ch
  {
    if ch == [] {
      BalancedText("");
    } else {
      var last := ch[|ch| - 1];
      BulletsBalanced(ch[..|ch| - 1]);
      if IsLi(last) {
        RenderSeqBalanced(last.children);
        ItemBalanced("• ", RenderSeq(last.children));
      } else {
        BalancedText("");
      }
      BalancedConcat(Bullets(ch[..|ch| - 1]), BulletItem(last));
    }
  }

  lemma {:induction false} NumberedBalanced(ch: seq<Node>)
    ensures Balanced(Numbered(ch))
    decreases ch
  {
    if ch == [] {
      BalancedText("");
    } else {
      var last := ch[|ch| - 1];
      var prefix := ch[..|ch| - 1];
      var k := LiCount(prefix) + 1;
      NumberedBalanced(prefix);
      if IsLi(last) {
        RenderSeqBalanced(last.children);
        ItemBalanced(NatToString(k) + ". ", RenderSeq(last.children));
      } else {
        BalancedText("");
      }
      BalancedConcat(Numbered(prefix), NumberedItem(k, last));
    }
  }

  /** A list item: a mark without tags, a balanced item and a newline. */
  lemma ItemBalanced(mark: string, item: string)
    requires '<' !in mark && Balanced(item)
    ensures Balanced(mark + item + "\n")
  {
    BalancedText(mark);
    BalancedText("\n");
    BalancedConcat(mark, item);
    BalancedConcat(mark + item, "\n");
  }

  /** The converter's output is balanced Telegram markup, as the Bot API requires of an HTML message. */
  lemma ConvertedBalanced(markdown: Option<string>, body: Node)
    ensures Balanced(Converted(markdown, body))
  {
    if markdown.None? || markdown.value == "" {
      BalancedText("");
    } else {
      var html := RenderSeq(if body.Element? then body.children else []);
      RenderSeqBalanced(if body.Element? then body.children else []);
      BalancedTrim(html);
    }
  }

  /** The output never starts or ends with whitespace, and is empty for an empty input. */
  lemma ConvertedTrimmed(markdown: Option<string>, body: Node)
    ensures Converted(markdown, body) == []
            || (!IsTrimmed(Converted(markdown, body)[0]) && !IsTrimmed(Converted(markdown, body)[|Converted(markdown, body)| - 1]))
    ensures markdown.None? || markdown.value == "" ==> Converted(markdown, body) == ""
  {
    TrimEnds(RenderSeq(if body.Element? then body.children else []));
  }


  /** Rendering is compositional: siblings are rendered one after the other. */
  lemma {:induction false} RenderSeqAppend(a: seq<Node>, b: seq<Node>)
    ensures RenderSeq(a + b) == RenderSeq(a) + RenderSeq(b)
    decreases |b|
  {
    if b == [] {
      assert a + b == a;
    } else {
      var b', last := b[..|b| - 1], b[|b| - 1];
      DropLast(a, b);
      RenderSeqLast(a + b);
      RenderSeqLast(b);
      RenderSeqAppend(a, b');
      Assoc(RenderSeq(a), RenderSeq(b'), RenderNode(last));
    }
  }

  lemma RenderSeqLast(ns: seq<Node>)
    requires ns != []
    ensures RenderSeq(ns) == RenderSeq(ns[..|ns| - 1]) + RenderNode(ns[|ns| - 1])
  {
  }

  /** Escaping loses nothing: the text of a text node comes back from its rendering. */
  lemma TextNodeRoundTrip(c: string)
    ensures Unescape(RenderNode(TextNode(c))) == c
  {
    UnescapeEscapeHtml(c);
  }

  /** The body of a code block is the escaped text, and unescapes back to it. */
  lemma CodeBlockRoundTrip(text: string)
    ensures var r := CodeBlock(text);
            |r| >= 26 && r[..11] == "<pre><code>" && r[|r| - 15..] == "</code></pre>\n\n"
            && Unescape(r[11..|r| - 15]) == text
  {
    EnclosedRoundTrip("<pre><code>", text, "</code></pre>\n\n");
  }

  /** The body of a preformatted block (a table's monospace layout) unescapes back to the text. */
  lemma PreBlockRoundTrip(text: string)
    ensures var r := PreBlock(text);
            |r| >= 13 && r[..5] == "<pre>" && r[|r| - 8..] == "</pre>\n\n"
            && Unescape(r[5..|r| - 8]) == text
  {
    EnclosedRoundTrip("<pre>", text, "</pre>\n\n");
  }

  lemma EnclosedRoundTrip(before: string, text: string, after: string)
    ensures var r := before + EscapeHtml(text) + after;
            |r| >= |before| + |after| && r[..|before|] == before && r[|r| - |after|..] == after
            && Unescape(r[|before|..|r| - |after|]) == text
  {
    var r := before + EscapeHtml(text) + after;
    assert r[|before|..|r| - |after|] == EscapeHtml(text);
    UnescapeEscapeHtml(text);
  }
}
