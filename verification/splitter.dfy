/**
 * MessageSplitter: cuts a converted message into chunks Telegram accepts. A
 * cursor walks the text; plain text is cut every `maxLength` chars, a cut is
 * forced before every `<pre><code>` marker, and the payload of a code block is
 * cut into slices that are each wrapped in their own `<pre><code>…</code></pre>`.
 */
module Splitter {
  import opened Text

  const OpenMarker: string := "<pre><code>"
  const CloseMarker: string := "</code></pre>"

  /** |"<pre><code></code></pre>"|: what wrapping a slice of code adds to it. */
  const WrapLength: nat := 24

  /** `p` occurs in `t` starting at index `k`. */
  predicate OccursAt(t: string, p: string, k: nat)
  {
    k + |p| <= |t| && t[k..k + |p|] == p
  }

  /** `t.indexOf(p, from)`: the first occurrence of `p` at or after `from`, or -1. */
  function IndexOf(t: string, p: string, from: nat): (r: int)
    ensures r == -1 || from <= r <= |t| - |p|
    decreases |t| - from
  {
    if from + |p| > |t| then -1
    else if t[from..from + |p|] == p then from
    else IndexOf(t, p, from + 1)
  }

  /** `IndexOf` finds an occurrence, and no earlier one; -1 means there is none at all. */
  lemma {:induction false} IndexOfFirst(t: string, p: string, from: nat)
    ensures var r := IndexOf(t, p, from);
            (r == -1 || OccursAt(t, p, r))
            && forall k :: from <= k && (r == -1 || k < r) ==> !OccursAt(t, p, k)
    decreases |t| - from
  {
    if from + |p| <= |t| && t[from..from + |p|] != p {
      IndexOfFirst(t, p, from + 1);
    }
  }

  /** A chunk: a slice of plain text, or a slice of a code payload that goes out wrapped. */
  datatype Chunk = Plain(text: string) | Code(payload: string)

  /** The chunk as it is sent. */
  function Wire(c: Chunk): string
  {
    match c
    case Plain(t) => t
    case Code(p) => OpenMarker + p + CloseMarker
  }

  /** The text the chunk carries, without markers. */
  function Body(c: Chunk): string
  {
    match c
    case Plain(t) => t
    case Code(p) => p
  }

  function Wires(cs: seq<Chunk>): seq<string>
  {
    if cs == [] then [] else [Wire(cs[0])] + Wires(cs[1..])
  }

  function Bodies(cs: seq<Chunk>): seq<string>
  {
    if cs == [] then [] else [Body(cs[0])] + Bodies(cs[1..])
  }

  /** The code chunks of a payload: consecutive slices of `size` chars, the last one shorter. */
  function Slices(payload: string, size: nat): seq<Chunk>
    requires size > 0
    decreases |payload|
  {
    if payload == [] then []
    else [Code(payload[..Min(size, |payload|)])] + Slices(payload[Min(size, |payload|)..], size)
  }

  /** Where the payload of a code block opened at `next` ends: its closing marker, or the end of the text. */
  function CodeEnd(text: string, next: nat): (r: nat)
    requires next + |OpenMarker| <= |text|
    ensures next + |OpenMarker| <= r <= |text|
    ensures r == |text| <==> IndexOf(text, CloseMarker, next + |OpenMarker|) == -1
  {
    if IndexOf(text, CloseMarker, next + |OpenMarker|) == -1 then |text|
    else IndexOf(text, CloseMarker, next + |OpenMarker|)
  }

  /** One turn of the scan at cursor `pos`: the chunks it emits and where the cursor moves. */
  function Step(text: string, maxLength: int, pos: nat): (r: (seq<Chunk>, nat))
    requires maxLength > WrapLength && pos < |text|
    ensures r.1 > pos
  {
    StepAt(text, maxLength, pos, IndexOf(text, OpenMarker, pos))
  }

  /** A marker at or after `pos`, or -1. */
  predicate NextMarker(text: string, pos: nat, next: int)
  {
    next == -1 || pos <= next <= |text| - |OpenMarker|
  }

  /** One turn, given where the next opening marker is. */
  function StepAt(text: string, maxLength: int, pos: nat, next: int): (r: (seq<Chunk>, nat))
    requires maxLength > WrapLength && pos < |text| && NextMarker(text, pos, next)
    ensures r.1 > pos
  {
    if next == -1 || next >= pos + maxLength then
      ([Plain(text[pos..Min(pos + maxLength, |text|)])], Min(pos + maxLength, |text|))
    else
      (Lead(text, pos, next) + Slices(text[next + |OpenMarker|..CodeEnd(text, next)], maxLength - WrapLength),
       CodeEnd(text, next) + |CloseMarker|)
  }

  /** The plain text before a marker, as a chunk of its own when there is any. */
  function Lead(text: string, pos: nat, next: nat): seq<Chunk>
    requires pos <= next <= |text|
  {
    if next > pos then [Plain(text[pos..next])] else []
  }

  /** The chunks the scan emits from cursor `pos` on. */
  function SplitFrom(text: string, maxLength: int, pos: nat): seq<Chunk>
    requires maxLength > WrapLength
    decreases |text| - pos
  {
    if pos >= |text| then []
    else Step(text, maxLength, pos).0 + SplitFrom(text, maxLength, Step(text, maxLength, pos).1)
  }

  /** One unfolding of the scan at a cursor inside the text. */
  lemma SplitFromStep(text: string, maxLength: int, pos: nat)
    requires maxLength > WrapLength && pos < |text|
    ensures SplitFrom(text, maxLength, pos)
            == Step(text, maxLength, pos).0 + SplitFrom(text, maxLength, Step(text, maxLength, pos).1)
  {
  }

  /** What splitMessageForTelegram returns, as chunks. */
  function Split(text: string, maxLength: int): seq<Chunk>
    requires maxLength > WrapLength
  {
    SplitFrom(text, maxLength, 0)
  }

  /**
   * The scan; it terminates only when `maxLength` leaves room for code, so a
   * non-empty text needs maxLength > 24.
   */
  method SplitMessageForTelegram(text: Option<string>, maxLength: int) returns (chunks: seq<string>)
    requires text.None? || text.value == "" || maxLength > WrapLength
    ensures text.None? || text.value == "" ==> chunks == []
    ensures text.Some? && text.value != "" ==> chunks == Wires(Split(text.value, maxLength))
  {
    chunks := [];
    if text.None? || text.value == "" {
      return;
    }
    var t := text.value;
    var pos := 0;
    ghost var full := Wires(Split(t, maxLength));
    while pos < |t|
      invariant chunks + Wires(SplitFrom(t, maxLength, pos)) == full
      decreases |t| - pos
    {
      var emitted, next := ScanTurn(t, maxLength, pos);
      Advance(t, maxLength, pos, chunks, emitted, full);
      chunks := chunks + emitted;
      pos := next;
    }
  }

  /**
   * One turn of the scan at `pos`: the plain text up to the next opening marker
   * or `maxLength` chars, whichever comes first, then, if a marker was reached,
   * the wrapped slices of the code block behind it.
   */
  method ScanTurn(t: string, maxLength: int, pos: nat) returns (emitted: seq<string>, next: nat)
    requires maxLength > WrapLength && pos < |t|
    ensures emitted == Wires(Step(t, maxLength, pos).0) && next == Step(t, maxLength, pos).1
  {
    var nextPre := IndexOf(t, OpenMarker, pos);
    if nextPre == -1 || nextPre >= pos + maxLength {
      var end := Min(pos + maxLength, |t|);
      emitted := [t[pos..end]];
      next := end;
      assert Step(t, maxLength, pos).0 == [Plain(t[pos..end])];
      assert Wires([Plain(t[pos..end])]) == [Wire(Plain(t[pos..end]))] + Wires([]);
    } else {
      emitted := [];
      if nextPre > pos {
        emitted := [t[pos..nextPre]];
      }
      ghost var lead := emitted;
      var codeStart := nextPre + |OpenMarker|;
      var codeEnd := IndexOf(t, CloseMarker, codeStart);
      if codeEnd == -1 {
        codeEnd := |t|;
      }
      assert codeEnd == CodeEnd(t, nextPre);
      var codeBlock := t[codeStart..codeEnd];
      assert codeBlock == t[nextPre + |OpenMarker|..CodeEnd(t, nextPre)];
      var safeLength := maxLength - WrapLength;
      var codeChunks := CodeChunks(codeBlock, safeLength);
      emitted := emitted + codeChunks;
      next := codeEnd + |CloseMarker|;
      CodeTurn(t, maxLength, pos, lead, codeChunks);
    }
  }

  /** What the code branch of one turn emits: the text before the marker, then the wrapped slices. */
  lemma CodeTurn(t: string, maxLength: int, pos: nat, lead: seq<string>, codeChunks: seq<string>)
    requires maxLength > WrapLength && pos < |t|
    requires var next := IndexOf(t, OpenMarker, pos); next != -1 && next < pos + maxLength
    requires var next := IndexOf(t, OpenMarker, pos);
             lead == (if next > pos then [t[pos..next]] else [])
             && codeChunks == Wires(Slices(t[next + |OpenMarker|..CodeEnd(t, next)], maxLength - WrapLength))
    ensures lead + codeChunks == Wires(Step(t, maxLength, pos).0)
    ensures Step(t, maxLength, pos).1 == CodeEnd(t, IndexOf(t, OpenMarker, pos)) + |CloseMarker|
  {
    var next := IndexOf(t, OpenMarker, pos);
    var leading := Lead(t, pos, next);
    var code := Slices(t[next + |OpenMarker|..CodeEnd(t, next)], maxLength - WrapLength);
    assert Step(t, maxLength, pos).0 == leading + code;
    WiresAppend(leading, code);
    assert Wires(leading) == lead;
  }

  /** Appending what one turn emits and moving the cursor where it says keeps the loop invariant. */
  lemma Advance(t: string, maxLength: int, pos: nat, before: seq<string>, emitted: seq<string>, full: seq<string>)
    requires maxLength > WrapLength && pos < |t|
    requires before + Wires(SplitFrom(t, maxLength, pos)) == full
    requires emitted == Wires(Step(t, maxLength, pos).0)
    ensures (before + emitted) + Wires(SplitFrom(t, maxLength, Step(t, maxLength, pos).1)) == full
  {
    var step := Step(t, maxLength, pos);
    var rest := SplitFrom(t, maxLength, step.1);
    assert SplitFrom(t, maxLength, pos) == step.0 + rest;
    WiresAppend(step.0, rest);
    assert before + (Wires(step.0) + Wires(rest)) == before + Wires(step.0) + Wires(rest);
  }

  /** The inner loop: every slice of the payload, wrapped in its own code block. */
  method CodeChunks(codeBlock: string, safeLength: int) returns (out: seq<string>)
    requires safeLength > 0
    ensures out == Wires(Slices(codeBlock, safeLength))
  {
    out := [];
    var codePos := 0;
    while codePos < |codeBlock|
      invariant codePos <= |codeBlock|
      invariant out + Wires(Slices(codeBlock[codePos..], safeLength)) == Wires(Slices(codeBlock, safeLength))
      decreases |codeBlock| - codePos
    {
      var len := Min(safeLength, |codeBlock| - codePos);
      var chunk := OpenMarker + codeBlock[codePos..codePos + len] + CloseMarker;
      ghost var rest := codeBlock[codePos..];
      ghost var later := Slices(codeBlock[codePos + len..], safeLength);
      assert rest[..len] == codeBlock[codePos..codePos + len];
      assert rest[len..] == codeBlock[codePos + len..];
      assert Slices(rest, safeLength) == [Code(rest[..len])] + later;
      assert Wires(Slices(rest, safeLength)) == [chunk] + Wires(later);
      assert out + [chunk] + Wires(later) == out + ([chunk] + Wires(later));
      out := out + [chunk];
      codePos := codePos + len;
    }
  }

  lemma {:induction false} WiresAppend(a: seq<Chunk>, b: seq<Chunk>)
    ensures Wires(a + b) == Wires(a) + Wires(b)
  {
    if a != [] {
      assert (a + b)[1..] == a[1..] + b;
      WiresAppend(a[1..], b);
    } else {
      assert a + b == b;
    }
  }

  lemma {:induction false} BodiesAppend(a: seq<Chunk>, b: seq<Chunk>)
    ensures Bodies(a + b) == Bodies(a) + Bodies(b)
  {
    if a != [] {
      assert (a + b)[1..] == a[1..] + b;
      BodiesAppend(a[1..], b);
    } else {
      assert a + b == b;
    }
  }

  /** Every chunk is non-empty and at most `maxLength` chars long once wrapped. */
  predicate Fits(cs: seq<Chunk>, maxLength: int)
  {
    forall i :: 0 <= i < |cs| ==> 0 < |Wire(cs[i])| <= maxLength
  }

  /** Every slice of a payload is non-empty and at most `size` chars. */
  lemma {:induction false} SlicesFit(payload: string, size: nat)
    requires size > 0
    ensures forall i :: 0 <= i < |Slices(payload, size)| ==>
              Slices(payload, size)[i].Code? && 0 < |Slices(payload, size)[i].payload| <= size
    ensures Slices(payload, size) == [] <==> payload == []
    decreases |payload|
  {
    if payload != [] {
      SlicesFit(payload[Min(size, |payload|)..], size);
    }
  }

  /** The slices of a payload, put back together, are the payload. */
  lemma {:induction false} SlicesJoin(payload: string, size: nat)
    requires size > 0
    ensures Join(Bodies(Slices(payload, size))) == payload
    decreases |payload|
  {
    if payload != [] {
      var len := Min(size, |payload|);
      var rest := Slices(payload[len..], size);
      SlicesJoin(payload[len..], size);
      assert Bodies([Code(payload[..len])] + rest) == [payload[..len]] + Bodies(rest);
      JoinAppend([payload[..len]], Bodies(rest));
      assert Join([payload[..len]]) == payload[..len] by {
        assert [payload[..len]][..0] == [];
      }
      assert payload[..len] + payload[len..] == payload;
    }
  }

  lemma StepFits(t: string, maxLength: int, pos: nat)
    requires maxLength > WrapLength && pos < |t|
    ensures Fits(Step(t, maxLength, pos).0, maxLength)
  {
    var next := IndexOf(t, OpenMarker, pos);
    if next != -1 && next < pos + maxLength {
      var codeEnd := CodeEnd(t, next);
      var payload := t[next + |OpenMarker|..codeEnd];
      var lead := if next > pos then [Plain(t[pos..next])] else [];
      var code := Slices(payload, maxLength - WrapLength);
      assert Step(t, maxLength, pos).0 == lead + code;
      SlicesFit(payload, maxLength - WrapLength);
      assert Fits(code, maxLength) by {
        forall i | 0 <= i < |code|
          ensures 0 < |Wire(code[i])| <= maxLength
        {
          assert |Wire(code[i])| == |OpenMarker| + |code[i].payload| + |CloseMarker|;
        }
      }
      assert Fits(lead, maxLength);
      FitsAppend(lead, code, maxLength);
    } else {
      var end := Min(pos + maxLength, |t|);
      assert Step(t, maxLength, pos).0 == [Plain(t[pos..end])];
    }
  }

  lemma FitsAppend(a: seq<Chunk>, b: seq<Chunk>, maxLength: int)
    requires Fits(a, maxLength) && Fits(b, maxLength)
    ensures Fits(a + b, maxLength)
  {
    forall i | 0 <= i < |a + b|
      ensures 0 < |Wire((a + b)[i])| <= maxLength
    {
      if i >= |a| {
        assert (a + b)[i] == b[i - |a|];
      }
    }
  }

  lemma {:induction false} SplitFromFits(t: string, maxLength: int, pos: nat)
    requires maxLength > WrapLength
    ensures Fits(SplitFrom(t, maxLength, pos), maxLength)
    decreases |t| - pos
  {
    if pos < |t| {
      var step := Step(t, maxLength, pos);
      StepFits(t, maxLength, pos);
      SplitFromFits(t, maxLength, step.1);
      assert SplitFrom(t, maxLength, pos) == step.0 + SplitFrom(t, maxLength, step.1);
      FitsAppend(step.0, SplitFrom(t, maxLength, step.1), maxLength);
    }
  }

  /**
   * Bound: every chunk the splitter returns is non-empty and at most `maxLength`
   * chars, the code chunks included, because each code slice leaves room for the
   * 24 chars of markers around it.
   */
  lemma ChunksFit(t: string, maxLength: int)
    requires maxLength > WrapLength
    ensures forall i :: 0 <= i < |Wires(Split(t, maxLength))| ==>
              0 < |Wires(Split(t, maxLength))[i]| <= maxLength
  {
    SplitFromFits(t, maxLength, 0);
    WiresAt(Split(t, maxLength));
  }

  lemma {:induction false} WiresAt(cs: seq<Chunk>)
    ensures |Wires(cs)| == |cs| && forall i :: 0 <= i < |cs| ==> Wires(cs)[i] == Wire(cs[i])
  {
    if cs != [] {
      WiresAt(cs[1..]);
    }
  }

  /** The text with every code marker taken out: a reference for what the chunks carry, whatever `maxLength`. */
  function Unwrapped(t: string, pos: nat): string
    decreases |t| - pos, 1
  {
    if pos >= |t| then "" else UnwrappedAt(t, pos, IndexOf(t, OpenMarker, pos))
  }

  /** `Unwrapped`, given where the next opening marker is. */
  function UnwrappedAt(t: string, pos: nat, next: int): string
    requires pos < |t| && NextMarker(t, pos, next)
    decreases |t| - pos, 0
  {
    if next == -1 then t[pos..]
    else t[pos..next] + t[next + |OpenMarker|..CodeEnd(t, next)] + Unwrapped(t, CodeEnd(t, next) + |CloseMarker|)
  }

  /** The first occurrence from `a` is also the first one from any later start up to it. */
  lemma {:induction false} IndexOfLater(t: string, p: string, a: nat, b: nat)
    requires a <= b
    requires IndexOf(t, p, a) == -1 || b <= IndexOf(t, p, a)
    ensures IndexOf(t, p, b) == IndexOf(t, p, a)
    decreases b - a
  {
    if a < b {
      assert IndexOf(t, p, a) == IndexOf(t, p, a + 1) by {
        IndexOfFirst(t, p, a);
        assert !OccursAt(t, p, a);
      }
      IndexOfLater(t, p, a + 1, b);
    }
  }

  lemma PlainUnwrapped(t: string, maxLength: int, pos: nat)
    requires maxLength > WrapLength && pos < |t|
    requires IndexOf(t, OpenMarker, pos) == -1 || IndexOf(t, OpenMarker, pos) >= pos + maxLength
    ensures Unwrapped(t, pos) == t[pos..Min(pos + maxLength, |t|)] + Unwrapped(t, Min(pos + maxLength, |t|))
  {
    var next := IndexOf(t, OpenMarker, pos);
    var end := Min(pos + maxLength, |t|);
    IndexOfLater(t, OpenMarker, pos, end);
    if next == -1 {
      NoMarkerUnwrapped(t, pos, end);
    } else {
      MarkerAheadUnwrapped(t, pos, end, next);
    }
  }

  /** With no marker ahead, the rest of the text is carried as it is. */
  lemma NoMarkerUnwrapped(t: string, pos: nat, end: nat)
    requires pos < end <= |t| && IndexOf(t, OpenMarker, pos) == -1 && IndexOf(t, OpenMarker, end) == -1
    ensures Unwrapped(t, pos) == t[pos..end] + Unwrapped(t, end)
  {
    assert Unwrapped(t, pos) == UnwrappedAt(t, pos, -1) == t[pos..];
    if end < |t| {
      assert Unwrapped(t, end) == UnwrappedAt(t, end, -1) == t[end..];
      assert t[pos..] == t[pos..end] + t[end..];
    }
  }

  /** A cut before the next marker leaves the text between the cut and the marker to the next turn. */
  lemma MarkerAheadUnwrapped(t: string, pos: nat, end: nat, next: nat)
    requires pos < end <= next && next == IndexOf(t, OpenMarker, pos) && next == IndexOf(t, OpenMarker, end)
    ensures Unwrapped(t, pos) == t[pos..end] + Unwrapped(t, end)
  {
    UnwrappedMarker(t, pos, next);
    UnwrappedMarker(t, end, next);
    var p := t[next + |OpenMarker|..CodeEnd(t, next)];
    var r := Unwrapped(t, CodeEnd(t, next) + |CloseMarker|);
    assert t[pos..next] == t[pos..end] + t[end..next];
    Assoc3(t[pos..end], t[end..next], p, r);
  }

  /** `Unwrapped` at a cursor with a marker ahead. */
  lemma UnwrappedMarker(t: string, pos: nat, next: int)
    requires pos < |t| && next == IndexOf(t, OpenMarker, pos) && next != -1
    ensures Unwrapped(t, pos)
            == t[pos..next] + t[next + |OpenMarker|..CodeEnd(t, next)] + Unwrapped(t, CodeEnd(t, next) + |CloseMarker|)
  {
    assert Unwrapped(t, pos) == UnwrappedAt(t, pos, next);
  }

  lemma Assoc3(a: string, b: string, c: string, d: string)
    ensures (a + b) + c + d == a + (b + c + d)
  {
  }

  /** The lead chunk carries exactly the text before the marker. */
  lemma LeadBody(t: string, pos: nat, next: nat)
    requires pos <= next <= |t|
    ensures Join(Bodies(Lead(t, pos, next))) == t[pos..next]
  {
    if next > pos {
      assert Bodies(Lead(t, pos, next)) == [t[pos..next]] + Bodies([]);
      assert [t[pos..next]][..0] == [];
    }
  }

  lemma CodeUnwrapped(t: string, maxLength: int, pos: nat, next: nat, step: (seq<Chunk>, nat))
    requires maxLength > WrapLength && pos < |t|
    requires next == IndexOf(t, OpenMarker, pos) && next < pos + maxLength
    requires step == Step(t, maxLength, pos)
    ensures Unwrapped(t, pos) == Join(Bodies(step.0)) + Unwrapped(t, step.1)
  {
    CodeStepBodies(t, maxLength, pos);
    UnwrappedMarker(t, pos, next);
  }

  /** What one turn with a marker within reach carries, and where it leaves the cursor. */
  lemma CodeStepBodies(t: string, maxLength: int, pos: nat)
    requires maxLength > WrapLength && pos < |t|
    requires IndexOf(t, OpenMarker, pos) != -1 && IndexOf(t, OpenMarker, pos) < pos + maxLength
    ensures Join(Bodies(Step(t, maxLength, pos).0))
            == t[pos..IndexOf(t, OpenMarker, pos)]
               + t[IndexOf(t, OpenMarker, pos) + |OpenMarker|..CodeEnd(t, IndexOf(t, OpenMarker, pos))]
    ensures Step(t, maxLength, pos).1 == CodeEnd(t, IndexOf(t, OpenMarker, pos)) + |CloseMarker|
  {
    var next := IndexOf(t, OpenMarker, pos);
    var payload := t[next + |OpenMarker|..CodeEnd(t, next)];
    CodeStep(t, maxLength, pos);
    CodeBodies(t, pos, next, payload, maxLength - WrapLength);
  }

  /** One turn of the scan when a marker lies within reach. */
  lemma CodeStep(t: string, maxLength: int, pos: nat)
    requires maxLength > WrapLength && pos < |t|
    requires IndexOf(t, OpenMarker, pos) != -1 && IndexOf(t, OpenMarker, pos) < pos + maxLength
    ensures Step(t, maxLength, pos)
            == (Lead(t, pos, IndexOf(t, OpenMarker, pos))
                + Slices(t[IndexOf(t, OpenMarker, pos) + |OpenMarker|..CodeEnd(t, IndexOf(t, OpenMarker, pos))], maxLength - WrapLength),
                CodeEnd(t, IndexOf(t, OpenMarker, pos)) + |CloseMarker|)
  {
    assert Step(t, maxLength, pos) == StepAt(t, maxLength, pos, IndexOf(t, OpenMarker, pos));
  }

  /** The text the lead chunk and the slices of a payload carry. */
  lemma CodeBodies(t: string, pos: nat, next: nat, payload: string, size: nat)
    requires pos <= next <= |t| && size > 0
    ensures Join(Bodies(Lead(t, pos, next) + Slices(payload, size))) == t[pos..next] + payload
  {
    var lead := Lead(t, pos, next);
    var code := Slices(payload, size);
    BodiesAppend(lead, code);
    JoinAppend(Bodies(lead), Bodies(code));
    SlicesJoin(payload, size);
    LeadBody(t, pos, next);
  }

  lemma {:induction false} SplitFromUnwrapped(t: string, maxLength: int, pos: nat)
    requires maxLength > WrapLength
    ensures Join(Bodies(SplitFrom(t, maxLength, pos))) == Unwrapped(t, pos)
    decreases |t| - pos
  {
    if pos < |t| {
      var step := Step(t, maxLength, pos);
      var rest := SplitFrom(t, maxLength, step.1);
      SplitFromUnwrapped(t, maxLength, step.1);
      assert SplitFrom(t, maxLength, pos) == step.0 + rest;
      BodiesAppend(step.0, rest);
      JoinAppend(Bodies(step.0), Bodies(rest));
      var next := IndexOf(t, OpenMarker, pos);
      if next == -1 || next >= pos + maxLength {
        PlainUnwrapped(t, maxLength, pos);
        var end := Min(pos + maxLength, |t|);
        assert Join(Bodies(step.0)) == t[pos..end] by {
          assert Bodies(step.0) == [t[pos..end]];
          assert [t[pos..end]][..0] == [];
        }
      } else {
        CodeUnwrapped(t, maxLength, pos, next, step);
      }
    }
  }

  /**
   * Coverage: the plain chunks and the code payloads, in order, are the input
   * with the code markers taken out; nothing is lost or repeated.
   */
  lemma SplitCoversText(t: string, maxLength: int)
    requires maxLength > WrapLength
    ensures Join(Bodies(Split(t, maxLength))) == Unwrapped(t, 0)
  {
    SplitFromUnwrapped(t, maxLength, 0);
  }

  /** A text without markers that fits in one message goes out as it is, in one chunk. */
  lemma ShortTextOneChunk(t: string, maxLength: int)
    requires maxLength > WrapLength && 0 < |t| <= maxLength
    requires IndexOf(t, OpenMarker, 0) == -1
    ensures Split(t, maxLength) == [Plain(t)]
  {
    assert t[0..|t|] == t;
    assert Step(t, maxLength, 0) == StepAt(t, maxLength, 0, -1);
    assert StepAt(t, maxLength, 0, -1) == ([Plain(t)], |t|);
    assert Split(t, maxLength) == [Plain(t)] + SplitFrom(t, maxLength, |t|);
  }

  /**
   * A marker within reach forces a cut: the turn that reaches it ends its plain
   * chunk exactly where the marker starts, although more text would fit, and
   * everything else the turn emits is code.
   */
  lemma MarkerForcesCut(t: string, maxLength: int, pos: nat)
    requires maxLength > WrapLength && pos < |t|
    requires pos < IndexOf(t, OpenMarker, pos) < pos + maxLength
    ensures Step(t, maxLength, pos).0 != []
    ensures Step(t, maxLength, pos).0[0] == Plain(t[pos..IndexOf(t, OpenMarker, pos)])
    ensures OccursAt(t, OpenMarker, IndexOf(t, OpenMarker, pos)) && IndexOf(t, OpenMarker, pos) - pos < maxLength
    ensures forall i :: 1 <= i < |Step(t, maxLength, pos).0| ==> Step(t, maxLength, pos).0[i].Code?
  {
    var next := IndexOf(t, OpenMarker, pos);
    var code := Slices(t[next + |OpenMarker|..CodeEnd(t, next)], maxLength - WrapLength);
    IndexOfFirst(t, OpenMarker, pos);
    CodeStep(t, maxLength, pos);
    SlicesFit(t[next + |OpenMarker|..CodeEnd(t, next)], maxLength - WrapLength);
    assert Step(t, maxLength, pos).0 == [Plain(t[pos..next])] + code;
  }

  /** No opening marker occurs anywhere in `s`. */
  predicate MarkerFree(s: string)
  {
    forall k :: 0 <= k < |s| ==> !OccursAt(s, OpenMarker, k)
  }

  /** Every plain chunk is free of opening markers. */
  predicate PlainMarkerFree(cs: seq<Chunk>)
  {
    forall i :: 0 <= i < |cs| && cs[i].Plain? ==> MarkerFree(cs[i].text)
  }

  /** A slice of `t` that no marker of `t` starts inside of is marker-free. */
  lemma SliceMarkerFree(t: string, pos: nat, e: nat)
    requires pos <= e <= |t|
    requires forall k :: pos <= k && k + |OpenMarker| <= e ==> !OccursAt(t, OpenMarker, k)
    ensures MarkerFree(t[pos..e])
  {
    forall j | 0 <= j < e - pos
      ensures !OccursAt(t[pos..e], OpenMarker, j)
    {
      var k := pos + j;
      if j + |OpenMarker| <= e - pos {
        SliceOfSlice(t, pos, e, j, j + |OpenMarker|);
        assert pos <= k && k + |OpenMarker| <= e;
        assert !OccursAt(t, OpenMarker, k);
      }
    }
  }

  lemma SliceOfSlice(s: string, a: nat, b: nat, i: nat, j: nat)
    requires a <= b <= |s| && i <= j <= b - a
    ensures s[a..b][i..j] == s[a + i..a + j]
  {
    forall k | 0 <= k < j - i
      ensures s[a..b][i..j][k] == s[a + i..a + j][k]
    {
    }
  }

  lemma StepMarkerFree(t: string, maxLength: int, pos: nat)
    requires maxLength > WrapLength && pos < |t|
    ensures PlainMarkerFree(Step(t, maxLength, pos).0)
  {
    var next := IndexOf(t, OpenMarker, pos);
    IndexOfFirst(t, OpenMarker, pos);
    if next == -1 || next >= pos + maxLength {
      var end := Min(pos + maxLength, |t|);
      SliceMarkerFree(t, pos, end);
      assert Step(t, maxLength, pos).0 == [Plain(t[pos..end])];
    } else {
      var code := Slices(t[next + |OpenMarker|..CodeEnd(t, next)], maxLength - WrapLength);
      CodeStep(t, maxLength, pos);
      SlicesFit(t[next + |OpenMarker|..CodeEnd(t, next)], maxLength - WrapLength);
      SliceMarkerFree(t, pos, next);
      MarkerFreeAppend(Lead(t, pos, next), code);
    }
  }

  lemma MarkerFreeAppend(a: seq<Chunk>, b: seq<Chunk>)
    requires PlainMarkerFree(a) && PlainMarkerFree(b)
    ensures PlainMarkerFree(a + b)
  {
    forall i | 0 <= i < |a + b| && (a + b)[i].Plain?
      ensures MarkerFree((a + b)[i].text)
    {
      if i >= |a| {
        assert (a + b)[i] == b[i - |a|];
      }
    }
  }

  lemma {:induction false} SplitFromMarkerFree(t: string, maxLength: int, pos: nat)
    requires maxLength > WrapLength
    ensures PlainMarkerFree(SplitFrom(t, maxLength, pos))
    decreases |t| - pos
  {
    if pos < |t| {
      var step := Step(t, maxLength, pos);
      StepMarkerFree(t, maxLength, pos);
      SplitFromMarkerFree(t, maxLength, step.1);
      assert SplitFrom(t, maxLength, pos) == step.0 + SplitFrom(t, maxLength, step.1);
      MarkerFreeAppend(step.0, SplitFrom(t, maxLength, step.1));
    }
  }

  /**
   * Every `<pre><code>` marker of the input is seen: no plain chunk the
   * splitter emits contains one.
   */
  lemma PlainChunksMarkerFree(t: string, maxLength: int)
    requires maxLength > WrapLength
    ensures forall i :: 0 <= i < |Split(t, maxLength)| && Split(t, maxLength)[i].Plain? ==>
              MarkerFree(Split(t, maxLength)[i].text)
  {
    SplitFromMarkerFree(t, maxLength, 0);
  }
}
