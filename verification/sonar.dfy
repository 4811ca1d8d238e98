/**
 * The history normaliser of the Sonar (Perplexity) client and the message list
 * of a text request. Perplexity accepts system messages first and then a
 * dialogue that strictly alternates user and assistant, starting with user; the
 * normaliser drops blank entries, moves the system messages to the front and
 * repairs the alternation of the rest.
 */
module Sonar {
  import opened Text

  /** A history entry: the two-entry map whose `get("role")` and `get("content")` may be null. */
  datatype Entry = Entry(role: Option<string>, content: Option<string>)

  /** A message of the request: the `Map.of("role", …, "content", …)` the request body carries. */
  datatype RequestMessage = RequestMessage(role: string, content: string)

  const System: string := "system"
  const User: string := "user"
  const Assistant: string := "assistant"

  /** The assistant reply inserted where one is missing. */
  const Filler: Entry := Entry(Some(Assistant), Some("Понял."))

  /** An entry the normaliser skips: no content, or content made only of chars `trim()` removes. */
  predicate Blank(e: Entry)
  {
    e.content.None? || forall k :: 0 <= k < |e.content.value| ==> IsTrimmed(e.content.value[k])
  }

  /** Blank is exactly the source's test: null content, or content whose `trim()` is empty. */
  lemma BlankIsTrimEmpty(e: Entry)
    ensures Blank(e) <==> e.content.None? || Trim(e.content.value) == ""
  {
    if e.content.Some? {
      BlankIffAllTrimmed(e.content.value);
    }
  }

  predicate HasRole(e: Entry, role: string)
  {
    e.role == Some(role)
  }

  /** An entry the first loop keeps in a list for `roles`: not blank, and its role is one of them. */
  predicate Picks(e: Entry, roles: set<string>)
  {
    !Blank(e) && e.role.Some? && e.role.value in roles
  }

  /** The entries of the history that `roles` picks, in history order. */
  function Picked(h: seq<Entry>, roles: set<string>): (r: seq<Entry>)
    ensures forall i :: 0 <= i < |r| ==> Picks(r[i], roles)
    ensures |r| <= |h|
  {
    if h == [] then []
    else Picked(h[..|h| - 1], roles) + (if Picks(h[|h| - 1], roles) then [h[|h| - 1]] else [])
  }

  /** The indices of the picked entries, in increasing order. */
  function PickedAt(h: seq<Entry>, roles: set<string>): seq<nat>
  {
    if h == [] then []
    else PickedAt(h[..|h| - 1], roles) + (if Picks(h[|h| - 1], roles) then [|h| - 1] else [])
  }

  /** The i-th picked entry is the history entry at the i-th picked index. */
  lemma {:induction false} PickedExactly(h: seq<Entry>, roles: set<string>)
    ensures |PickedAt(h, roles)| == |Picked(h, roles)|
    ensures forall i :: 0 <= i < |PickedAt(h, roles)| ==>
              PickedAt(h, roles)[i] < |h| && Picked(h, roles)[i] == h[PickedAt(h, roles)[i]]
    decreases |h|
  {
    if h != [] {
      var n := |h| - 1;
      var f := h[..n];
      PickedExactly(f, roles);
      var idx, r := PickedAt(h, roles), Picked(h, roles);
      var fi, fr := PickedAt(f, roles), Picked(f, roles);
      assert r == fr + (if Picks(h[n], roles) then [h[n]] else []);
      forall i | 0 <= i < |idx|
        ensures idx[i] < |h| && r[i] == h[idx[i]]
      {
        if i < |fi| {
          assert idx[i] == fi[i] && r[i] == fr[i];
          assert f[fi[i]] == h[fi[i]];
        }
      }
    }
  }

  /**
   * Picking loses and reorders nothing: the picked indices increase, and an
   * index is picked exactly when its entry is non-blank with one of the roles.
   */
  lemma {:induction false} PickedInOrder(h: seq<Entry>, roles: set<string>)
    ensures forall i :: 0 <= i < |PickedAt(h, roles)| ==> PickedAt(h, roles)[i] < |h|
    ensures forall i, k :: 0 <= i < k < |PickedAt(h, roles)| ==> PickedAt(h, roles)[i] < PickedAt(h, roles)[k]
    ensures forall j :: 0 <= j < |h| ==> (Picks(h[j], roles) <==> j in PickedAt(h, roles))
    decreases |h|
  {
    if h != [] {
      var n := |h| - 1;
      var f := h[..n];
      PickedInOrder(f, roles);
      var idx, fi := PickedAt(h, roles), PickedAt(f, roles);
      assert idx == fi + (if Picks(h[n], roles) then [n] else []);
      forall i, k | 0 <= i < k < |idx|
        ensures idx[i] < idx[k]
      {
        if k < |fi| {
          assert idx[i] == fi[i] && idx[k] == fi[k];
        }
      }
      forall j | 0 <= j < |h|
        ensures Picks(h[j], roles) <==> j in idx
      {
        assert j in idx <==> j in fi || (j == n && Picks(h[n], roles));
        if j < n {
          assert f[j] == h[j];
        }
      }
    }
  }

  /** The non-blank system entries of the history, in their order. */
  function Systems(h: seq<Entry>): seq<Entry>
  {
    Picked(h, {System})
  }

  /** The non-blank user and assistant entries of the history, in their order; other roles are dropped. */
  function Dialogue(h: seq<Entry>): seq<Entry>
  {
    Picked(h, {User, Assistant})
  }

  /** The role that follows `role` in the dialogue. */
  function Flip(role: string): string
  {
    if role == User then Assistant else User
  }

  /**
   * The dialogue after the alternation repair, given the role expected next:
   * an entry in turn is kept; a user entry where an assistant reply is expected
   * gets the filler before it; an assistant entry where a user entry is
   * expected is skipped.
   */
  function Alternate(d: seq<Entry>, expected: string): seq<Entry>
    decreases |d|
  {
    if d == [] then []
    else if HasRole(d[0], expected) then [d[0]] + Alternate(d[1..], Flip(expected))
    else if HasRole(d[0], User) && expected == Assistant then [Filler, d[0]] + Alternate(d[1..], Assistant)
    else Alternate(d[1..], expected)
  }

  /** What `fixPerplexityMessageStructure` returns; `None` is a null history. */
  function Fixed(history: Option<seq<Entry>>): seq<Entry>
  {
    if history.None? || history.value == [] then []
    else Systems(history.value) + Alternate(Dialogue(history.value), User)
  }

  /** The role at position `i` of a dialogue that alternates from `first`. */
  function RoleAt(first: string, i: nat): string
  {
    if i % 2 == 0 then first else Flip(first)
  }

  /** The repaired dialogue alternates strictly, starting with the role expected first. */
  lemma {:induction false} AlternateAlternates(d: seq<Entry>, expected: string)
    requires expected == User || expected == Assistant
    ensures var r := Alternate(d, expected);
            forall i :: 0 <= i < |r| ==> HasRole(r[i], RoleAt(expected, i))
    decreases |d|
  {
    var r := Alternate(d, expected);
    if d == [] {
    } else if HasRole(d[0], expected) {
      AlternateAlternates(d[1..], Flip(expected));
      var t := Alternate(d[1..], Flip(expected));
      forall i | 0 <= i < |r|
        ensures HasRole(r[i], RoleAt(expected, i))
      {
        if i > 0 {
          assert r[i] == t[i - 1];
          assert RoleAt(Flip(expected), i - 1) == RoleAt(expected, i);
        }
      }
    } else if HasRole(d[0], User) && expected == Assistant {
      AlternateAlternates(d[1..], Assistant);
      var t := Alternate(d[1..], Assistant);
      forall i | 0 <= i < |r|
        ensures HasRole(r[i], RoleAt(expected, i))
      {
        if i > 1 {
          assert r[i] == t[i - 2];
          assert RoleAt(Assistant, i - 2) == RoleAt(expected, i);
        }
      }
    } else {
      AlternateAlternates(d[1..], expected);
    }
  }

  /** The user entries of a list, in order. */
  function Users(s: seq<Entry>): seq<Entry>
  {
    if s == [] then [] else (if HasRole(s[0], User) then [s[0]] else []) + Users(s[1..])
  }

  lemma {:induction false} UsersAppend(a: seq<Entry>, b: seq<Entry>)
    ensures Users(a + b) == Users(a) + Users(b)
    decreases |a|
  {
    if a != [] {
      assert (a + b)[0] == a[0] && (a + b)[1..] == a[1..] + b;
      UsersAppend(a[1..], b);
      Assoc(if HasRole(a[0], User) then [a[0]] else [], Users(a[1..]), Users(b));
    } else {
      assert a + b == b;
    }
  }

  /** No user entry is lost or reordered by the repair, and the filler is never a user entry. */
  lemma {:induction false} AlternateKeepsUsers(d: seq<Entry>, expected: string)
    requires expected == User || expected == Assistant
    ensures Users(Alternate(d, expected)) == Users(d)
    decreases |d|
  {
    if d != [] {
      var rest := d[1..];
      if HasRole(d[0], expected) {
        AlternateKeepsUsers(rest, Flip(expected));
        UsersAppend([d[0]], Alternate(rest, Flip(expected)));
      } else if HasRole(d[0], User) && expected == Assistant {
        AlternateKeepsUsers(rest, Assistant);
        UsersAppend([Filler, d[0]], Alternate(rest, Assistant));
        assert Users([Filler, d[0]]) == [d[0]] by {
          assert [Filler, d[0]][1..] == [d[0]];
        }
      } else {
        AlternateKeepsUsers(rest, expected);
      }
    }
  }

  /** The user entries of the dialogue are the non-blank user entries of the history, in order. */
  lemma {:induction false} DialogueUsers(h: seq<Entry>)
    ensures Users(Dialogue(h)) == Picked(h, {User})
    decreases |h|
  {
    if h != [] {
      var n := |h| - 1;
      var e := h[n];
      DialogueUsers(h[..n]);
      var one := if Picks(e, {User, Assistant}) then [e] else [];
      assert Dialogue(h) == Dialogue(h[..n]) + one;
      UsersAppend(Dialogue(h[..n]), one);
      if one != [] {
        assert one[1..] == [];
      }
    }
  }

  /** The filler has content that survives `trim()`. */
  lemma FillerNotBlank()
    ensures !Blank(Filler)
  {
    assert !IsTrimmed(Filler.content.value[0]);
  }

  /** An entry the request can carry: it has a role, and content that is not blank. */
  predicate Complete(e: Entry)
  {
    e.role.Some? && !Blank(e)
  }

  /** Every entry of the list is complete. */
  predicate AllComplete(s: seq<Entry>)
  {
    forall i :: 0 <= i < |s| ==> Complete(s[i])
  }

  /** Every entry of the repaired dialogue is a dialogue entry or the filler, so it is complete. */
  lemma {:induction false} AlternateEntries(d: seq<Entry>, expected: string)
    requires AllComplete(d)
    ensures AllComplete(Alternate(d, expected))
    decreases |d|
  {
    if d != [] {
      var rest := d[1..];
      assert AllComplete(rest) by {
        forall i | 0 <= i < |rest| ensures Complete(rest[i]) {
          assert rest[i] == d[i + 1];
        }
      }
      if HasRole(d[0], expected) {
        AlternateEntries(rest, Flip(expected));
        CompleteAppend([d[0]], Alternate(rest, Flip(expected)));
      } else if HasRole(d[0], User) && expected == Assistant {
        AlternateEntries(rest, Assistant);
        FillerNotBlank();
        CompleteAppend([Filler, d[0]], Alternate(rest, Assistant));
      } else {
        AlternateEntries(rest, expected);
      }
    }
  }

  lemma CompleteAppend(a: seq<Entry>, b: seq<Entry>)
    requires AllComplete(a) && AllComplete(b)
    ensures AllComplete(a + b)
  {
    forall i | 0 <= i < |a + b| ensures Complete((a + b)[i]) {
      if i >= |a| {
        assert (a + b)[i] == b[i - |a|];
      }
    }
  }

  /** The system entries come first, in their order. */
  lemma FixedSystemsFirst(history: seq<Entry>)
    requires history != []
    ensures Systems(history) <= Fixed(Some(history))
  {
    AppendParts(Systems(history), Alternate(Dialogue(history), User));
  }

  /** After the system entries, the roles alternate strictly, starting with user. */
  lemma FixedAlternates(history: seq<Entry>)
    requires history != []
    ensures forall i :: |Systems(history)| <= i < |Fixed(Some(history))| ==>
              HasRole(Fixed(Some(history))[i], RoleAt(User, i - |Systems(history)|))
  {
    var s, a := Systems(history), Alternate(Dialogue(history), User);
    AlternateAlternates(Dialogue(history), User);
    AppendParts(s, a);
  }

  /** The dialogue part holds exactly the non-blank user entries of the history, in order. */
  lemma FixedKeepsUsers(history: seq<Entry>)
    requires history != []
    ensures Users(Fixed(Some(history))[|Systems(history)|..]) == Picked(history, {User})
  {
    var s, a := Systems(history), Alternate(Dialogue(history), User);
    AlternateKeepsUsers(Dialogue(history), User);
    DialogueUsers(history);
    AppendParts(s, a);
  }

  /** No normalised entry is blank or lacks a role. */
  lemma FixedAllComplete(history: Option<seq<Entry>>)
    ensures AllComplete(Fixed(history))
  {
    if history.Some? && history.value != [] {
      var s, d := Systems(history.value), Dialogue(history.value);
      assert AllComplete(s);
      assert AllComplete(d);
      AlternateEntries(d, User);
      CompleteAppend(s, Alternate(d, User));
    }
  }

  /** The parts of `s + a`, seen from the whole. */
  lemma AppendParts(s: seq<Entry>, a: seq<Entry>)
    ensures s <= s + a && (s + a)[|s|..] == a
    ensures forall i :: 0 <= i < |s| ==> (s + a)[i] == s[i]
    ensures forall i :: |s| <= i < |s + a| ==> (s + a)[i] == a[i - |s|]
  {
    assert (s + a)[..|s|] == s;
  }

  /** No normalised entry lacks a role or content. */
  lemma FixedComplete(history: Option<seq<Entry>>)
    ensures forall i :: 0 <= i < |Fixed(history)| ==> Fixed(history)[i].role.Some? && Fixed(history)[i].content.Some?
  {
    FixedAllComplete(history);
  }

  /** The message list of a text request: the normalised history, then the user's new message. */
  function RequestMessages(userMessage: string, history: Option<seq<Entry>>): seq<RequestMessage>
  {
    FixedComplete(history);
    Pairs(Fixed(history)) + [RequestMessage(User, userMessage)]
  }

  /** `Map.of("role", role, "content", content)` for every entry. */
  function Pairs(s: seq<Entry>): (r: seq<RequestMessage>)
    requires forall i :: 0 <= i < |s| ==> s[i].role.Some? && s[i].content.Some?
    ensures |r| == |s|
    ensures forall i :: 0 <= i < |s| ==> r[i] == RequestMessage(s[i].role.value, s[i].content.value)
  {
    if s == [] then []
    else Pairs(s[..|s| - 1]) + [RequestMessage(s[|s| - 1].role.value, s[|s| - 1].content.value)]
  }

  /**
   * `fixPerplexityMessageStructure`: first sort the entries into system and
   * dialogue lists, then append the dialogue while repairing its alternation.
   */
  method FixPerplexityMessageStructure(history: Option<seq<Entry>>) returns (fixed: seq<Entry>)
    ensures fixed == Fixed(history)
  {
    if history.None? || history.value == [] {
      return [];
    }
    var systemMessages, conversationMessages := SortEntries(history.value);
    fixed := systemMessages;
    if conversationMessages != [] {
      fixed := RepairAlternation(fixed, conversationMessages);
    }
  }

  /** The first loop: the non-blank system entries and the non-blank dialogue entries, each in order. */
  method SortEntries(h: seq<Entry>) returns (systemMessages: seq<Entry>, conversationMessages: seq<Entry>)
    ensures systemMessages == Systems(h) && conversationMessages == Dialogue(h)
  {
    systemMessages, conversationMessages := [], [];
    for k := 0 to |h|
      invariant systemMessages == Systems(h[..k]) && conversationMessages == Dialogue(h[..k])
    {
      SortStep(h, k);
      var message := h[k];
      var skip := IsBlank(message);
      if skip {
        continue;
      }
      if message.role == Some(System) {
        systemMessages := systemMessages + [message];
      } else if message.role == Some(User) || message.role == Some(Assistant) {
        conversationMessages := conversationMessages + [message];
      }
    }
    WholePrefix(h);
  }

  /** The skip test of the first loop: null content, or content that `trim()` empties. */
  method IsBlank(message: Entry) returns (b: bool)
    ensures b <==> Blank(message)
  {
    BlankIsTrimEmpty(message);
    b := message.content.None? || Trim(message.content.value) == "";
  }

  /** One more entry of the history extends the system list or the dialogue, or neither. */
  lemma SortStep(h: seq<Entry>, k: nat)
    requires k < |h|
    ensures Systems(h[..k + 1]) == Systems(h[..k]) + (if !Blank(h[k]) && HasRole(h[k], System) then [h[k]] else [])
    ensures Dialogue(h[..k + 1]) == Dialogue(h[..k]) + (if !Blank(h[k]) && (HasRole(h[k], User) || HasRole(h[k], Assistant)) then [h[k]] else [])
  {
    PrefixStep(h, k);
  }

  /** The second loop: append the dialogue to `fixed`, expecting a user entry first. */
  method RepairAlternation(start: seq<Entry>, conversationMessages: seq<Entry>) returns (fixed: seq<Entry>)
    ensures fixed == start + Alternate(conversationMessages, User)
  {
    fixed := start;
    var expectedRole := User;
    ghost var full := start + Alternate(conversationMessages, User);
    for k := 0 to |conversationMessages|
      invariant expectedRole == User || expectedRole == Assistant
      invariant fixed + Alternate(conversationMessages[k..], expectedRole) == full
    {
      var message := conversationMessages[k];
      ghost var rest := conversationMessages[k + 1..];
      assert conversationMessages[k..][0] == message && conversationMessages[k..][1..] == rest;
      if message.role == Some(expectedRole) {
        Assoc(fixed, [message], Alternate(rest, Flip(expectedRole)));
        fixed := fixed + [message];
        expectedRole := if expectedRole == User then Assistant else User;
      } else if message.role == Some(User) && expectedRole == Assistant {
        Assoc(fixed, [Filler, message], Alternate(rest, Assistant));
        assert fixed + [Filler] + [message] == fixed + [Filler, message];
        fixed := fixed + [Filler] + [message];
        expectedRole := Assistant;
      } else if message.role == Some(Assistant) && expectedRole == User {
        continue;
      }
    }
    assert conversationMessages[|conversationMessages|..] == [];
  }

  /** The message-list assembly of `createSonarRequestBody`. */
  method CreateRequestMessages(userMessage: string, history: Option<seq<Entry>>) returns (messages: seq<RequestMessage>)
    ensures messages == RequestMessages(userMessage, history)
  {
    var fixedHistory := FixPerplexityMessageStructure(history);
    FixedComplete(history);
    messages := [];
    for k := 0 to |fixedHistory|
      invariant messages == Pairs(fixedHistory[..k])
    {
      PrefixStep(fixedHistory, k);
      var m := fixedHistory[k];
      messages := messages + [RequestMessage(m.role.value, m.content.value)];
    }
    WholePrefix(fixedHistory);
    messages := messages + [RequestMessage(User, userMessage)];
  }

  /** The request holds one message per normalised entry, then the user's new text as the last one. */
  lemma RequestComplete(userMessage: string, history: Option<seq<Entry>>)
    ensures var f := Fixed(history);
            var m := RequestMessages(userMessage, history);
            |m| == |f| + 1 && m[|f|] == RequestMessage(User, userMessage)
            && forall i :: 0 <= i < |f| ==> f[i].role == Some(m[i].role) && f[i].content == Some(m[i].content)
  {
    FixedComplete(history);
  }
}
