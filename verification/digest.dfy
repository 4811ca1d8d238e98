/**
 * DigestContext: the topics each chat has chosen for its news digest. Every
 * chat id maps to the list of its topics, in the order they were added; the
 * limit of three topics is a check the caller makes, not one `addTopic` enforces.
 */
module Digest {
  import opened Text

  /** A Telegram chat id (a Java `Long`). */
  type ChatId = int

  const MaxTopics: nat := 3
  const NoTopicsText: string := "У вас нет выбранных тем для дайджеста"
  const Header: string := "📋 Ваши темы:\n\n"

  /** The index of the first occurrence of `x`, the element `List.remove(Object)` takes out. */
  function FirstIndex(s: seq<string>, x: string): (i: nat)
    requires x in s
    ensures i < |s| && s[i] == x
    ensures forall j :: 0 <= j < i ==> s[j] != x
  {
    if s[0] == x then 0 else 1 + FirstIndex(s[1..], x)
  }

  /** The list after `remove(x)`: its first `x` taken out when there is one, otherwise unchanged. */
  function RemoveFirst(s: seq<string>, x: string): seq<string>
  {
    if x in s then s[..FirstIndex(s, x)] + s[FirstIndex(s, x) + 1..] else s
  }

  /** Removing takes out exactly one copy of a present topic and keeps the others in order. */
  lemma RemoveFirstCount(s: seq<string>, x: string)
    ensures x in s ==> |RemoveFirst(s, x)| == |s| - 1 && multiset(RemoveFirst(s, x)) == multiset(s) - multiset{x}
    ensures x !in s ==> RemoveFirst(s, x) == s
  {
    if x in s {
      var i := FirstIndex(s, x);
      assert s == s[..i] + [x] + s[i + 1..];
      assert multiset(s) == multiset(s[..i]) + multiset{x} + multiset(s[i + 1..]);
    }
  }

  /** The elements before the removed one stay where they were; those after move up by one. */
  lemma RemoveFirstShift(s: seq<string>, x: string, k: nat)
    requires x in s && k < |s| - 1
    ensures var i := FirstIndex(s, x);
            RemoveFirst(s, x)[k] == if k < i then s[k] else s[k + 1]
  {
    var i := FirstIndex(s, x);
    var front, back := s[..i], s[i + 1..];
    assert RemoveFirst(s, x) == front + back;
    if k < i {
      assert (front + back)[k] == front[k];
    } else {
      assert (front + back)[k] == back[k - i];
    }
  }

  /** The line of the `n`-th topic: "n. topic" and a newline. */
  function Line(n: nat, topic: string): string
  {
    NatToString(n) + ". " + topic + "\n"
  }

  /** The numbered lines of a topic list, numbered from 1 in list order. */
  function Lines(topics: seq<string>): string
  {
    if topics == [] then "" else Lines(topics[..|topics| - 1]) + Line(|topics|, topics[|topics| - 1])
  }

  /** What `getTopicsFormatted` returns for a chat's topics. */
  function Formatted(topics: seq<string>): string
  {
    if topics == [] then NoTopicsText else Header + Lines(topics)
  }

  /** The numbered lines are the lines of every topic, each with its 1-based number, joined in order. */
  lemma {:induction false} LinesJoin(topics: seq<string>)
    ensures Lines(topics) == Join(seq(|topics|, i requires 0 <= i < |topics| => Line(i + 1, topics[i])))
  {
    var parts := seq(|topics|, i requires 0 <= i < |topics| => Line(i + 1, topics[i]));
    if topics != [] {
      var front := topics[..|topics| - 1];
      LinesJoin(front);
      assert parts[..|parts| - 1] == seq(|front|, i requires 0 <= i < |front| => Line(i + 1, front[i]));
    }
  }

  /** The formatted text is the header and the numbered lines exactly when there are topics. */
  lemma FormattedShape(topics: seq<string>)
    ensures topics == [] ==> Formatted(topics) == NoTopicsText
    ensures topics != [] ==> Header <= Formatted(topics) && Formatted(topics)[|Header|..] == Lines(topics)
    ensures Formatted(topics) != NoTopicsText <==> topics != []
  {
    if topics != [] {
      assert Formatted(topics)[..|Header|] == Header;
      assert Formatted(topics)[0] != NoTopicsText[0];
    }
  }

  /** `DigestContext`. */
  class DigestContext {
    var topicsByChat: map<ChatId, seq<string>>

    constructor()
      ensures topicsByChat == map[]
    {
      topicsByChat := map[];
    }

    /** `getTopics`: the chat's list, an empty one for a chat without a list (which is not registered). */
    function GetTopics(chatId: ChatId): (r: seq<string>)
      reads this
      ensures chatId in topicsByChat ==> r == topicsByChat[chatId]
      ensures chatId !in topicsByChat ==> r == []
    {
      if chatId in topicsByChat then topicsByChat[chatId] else []
    }

    /** `hasTopics`: a list exists and is not empty. */
    function HasTopics(chatId: ChatId): (r: bool)
      reads this
      ensures r <==> GetTopics(chatId) != []
    {
      chatId in topicsByChat && topicsByChat[chatId] != []
    }

    /** `canAddMoreTopics`: no list yet, or fewer than three topics in it. */
    function CanAddMoreTopics(chatId: ChatId): (r: bool)
      reads this
      ensures r <==> |GetTopics(chatId)| < MaxTopics
      ensures !HasTopics(chatId) ==> r
    {
      chatId !in topicsByChat || |topicsByChat[chatId]| < MaxTopics
    }

    /** `getAllUsersWithDigest`: every chat with a list, even an emptied one. */
    function AllUsersWithDigest(): (r: set<ChatId>)
      reads this
      ensures forall id :: HasTopics(id) ==> id in r
      ensures forall id :: id in r <==> id in topicsByChat
    {
      topicsByChat.Keys
    }

    /** `addTopic`: the topic is appended to the chat's list, which is created when missing. */
    method AddTopic(chatId: ChatId, topic: string)
      modifies this
      ensures topicsByChat == old(topicsByChat)[chatId := old(GetTopics(chatId)) + [topic]]
      ensures AllUsersWithDigest() == old(AllUsersWithDigest()) + {chatId}
    {
      var topics := if chatId in topicsByChat then topicsByChat[chatId] else [];
      topicsByChat := topicsByChat[chatId := topics + [topic]];
    }

    /** `removeTopic`: take out the first occurrence; true exactly when the topic was there. */
    method RemoveTopic(chatId: ChatId, topic: string) returns (removed: bool)
      modifies this
      ensures removed <==> topic in old(GetTopics(chatId))
      ensures removed ==> topicsByChat == old(topicsByChat)[chatId := RemoveFirst(old(topicsByChat[chatId]), topic)]
      ensures !removed ==> topicsByChat == old(topicsByChat)
      ensures topicsByChat.Keys == old(topicsByChat.Keys)
      ensures AllUsersWithDigest() == old(AllUsersWithDigest())
    {
      if chatId !in topicsByChat {
        return false;
      }
      var topics := topicsByChat[chatId];
      var i := 0;
      while i < |topics| && topics[i] != topic
        invariant 0 <= i <= |topics|
        invariant forall j :: 0 <= j < i ==> topics[j] != topic
      {
        i := i + 1;
      }
      if i == |topics| {
        return false;
      }
      assert topic in topics && FirstIndex(topics, topic) == i by {
        var f := FirstIndex(topics, topic);
        assert !(f < i) && !(i < f);
      }
      topicsByChat := topicsByChat[chatId := topics[..i] + topics[i + 1..]];
      removed := true;
    }

    /** `clearTopics`: the chat loses its list and its place among the digest users. */
    method ClearTopics(chatId: ChatId)
      modifies this
      ensures topicsByChat == old(topicsByChat) - {chatId}
      ensures chatId !in AllUsersWithDigest() && AllUsersWithDigest() == old(AllUsersWithDigest()) - {chatId}
    {
      topicsByChat := topicsByChat - {chatId};
    }

    /** `getTopicsFormatted`: the fixed notice, or the header and one numbered line per topic. */
    method GetTopicsFormatted(chatId: ChatId) returns (text: string)
      ensures text == Formatted(GetTopics(chatId))
    {
      var topics := GetTopics(chatId);
      if topics == [] {
        return NoTopicsText;
      }
      text := Header;
      for i := 0 to |topics|
        invariant text == Header + Lines(topics[..i])
      {
        PrefixStep(topics, i);
        var line := NatToString(i + 1) + ". " + topics[i] + "\n";
        Assoc(Header, Lines(topics[..i]), line);
        text := text + line;
      }
      WholePrefix(topics);
    }
  }
}
