/**
 * ConversationContext: the per-chat store of recent messages. Each chat has a
 * ChatContext holding a history window of at most seven messages, the oldest
 * evicted first, and the key of the model the chat currently talks to.
 */
module Conversation {
  import opened Text

  /** A Telegram chat id (a Java `Long`). */
  type ChatId = int

  const MaxMessages: nat := 7
  const DefaultModel: string := "gpt-5-nano"

  /** One history entry, the two-entry map `{role, content}`. */
  datatype Message = Message(role: string, content: string)

  /** What a ChatContext holds, as a value. */
  datatype Chat = Chat(history: seq<Message>, model: string)

  /** A context as `new ChatContext()` creates it. */
  const DefaultChat: Chat := Chat([], DefaultModel)

  /** The chat `get` would return: the stored one, or a fresh default. */
  function StateOf(v: map<ChatId, Chat>, id: ChatId): Chat
  {
    if id in v then v[id] else DefaultChat
  }

  /** Chats other than `id` are present in `w` exactly when in `v`, with the same content. */
  ghost predicate SameElsewhere(v: map<ChatId, Chat>, w: map<ChatId, Chat>, id: ChatId)
  {
    forall k :: k != id ==> (k in v <==> k in w) && (k in v ==> v[k] == w[k])
  }

  /** Every history window is within the limit. */
  predicate Bounded(v: map<ChatId, Chat>)
  {
    forall k :: k in v ==> |v[k].history| <= MaxMessages
  }

  /** The newest `n` entries of `s` (all of them when there are fewer). */
  function Newest(s: seq<Message>, n: nat): (r: seq<Message>)
    ensures |r| == Min(|s|, n)
  {
    s[|s| - Min(|s|, n)..]
  }

  /** The history after `add` and the overflow check: one eviction at most. */
  function Appended(h: seq<Message>, m: Message): seq<Message>
  {
    if |h + [m]| > MaxMessages then (h + [m])[1..] else h + [m]
  }

  /** Within the limit, adding a message keeps exactly the newest seven of the old window plus the message. */
  lemma AppendedWindow(h: seq<Message>, m: Message)
    ensures |h| <= MaxMessages ==> Appended(h, m) == Newest(h + [m], MaxMessages) && |Appended(h, m)| <= MaxMessages
    ensures Appended(h, m) != [] && Appended(h, m)[|Appended(h, m)| - 1] == m
  {
  }

  /** The history after adding each of `ms` in turn. */
  function AppendedAll(h: seq<Message>, ms: seq<Message>): seq<Message>
  {
    if ms == [] then h else Appended(AppendedAll(h, ms[..|ms| - 1]), ms[|ms| - 1])
  }

  /**
   * Whatever has been said, the window holds the newest seven messages of the
   * whole conversation, in the order they were added.
   */
  lemma {:induction false} AppendedAllWindow(h: seq<Message>, ms: seq<Message>)
    requires |h| <= MaxMessages
    ensures AppendedAll(h, ms) == Newest(h + ms, MaxMessages)
    decreases |ms|
  {
    if ms != [] {
      var front, m := ms[..|ms| - 1], ms[|ms| - 1];
      AppendedAllWindow(h, front);
      var w := Newest(h + front, MaxMessages);
      assert AppendedAll(h, ms) == Appended(w, m);
      AppendedWindow(w, m);
      NewestStep(h + front, m, MaxMessages);
      Snoc(h, ms);
    }
  }

  /** The newest `n` of `s + [m]` are the newest `n` of (the newest `n` of `s`) + [m]. */
  lemma NewestStep(s: seq<Message>, m: Message, n: nat)
    ensures Newest(s + [m], n) == Newest(Newest(s, n) + [m], n)
  {
    var w := Newest(s, n);
    assert (s + [m])[|s + [m]| - Min(|s| + 1, n)..] == (w + [m])[|w + [m]| - Min(|w| + 1, n)..];
  }

  /** `get`: the chat is registered if it was not, and nothing else changes. */
  function Touched(v: map<ChatId, Chat>, id: ChatId): (r: map<ChatId, Chat>)
    ensures id in r && r[id] == StateOf(v, id) && SameElsewhere(v, r, id)
    ensures id in v ==> r == v
  {
    v[id := StateOf(v, id)]
  }

  /** `addMessage`: the message becomes the newest entry of the chat's window; the model is kept. */
  function WithMessage(v: map<ChatId, Chat>, id: ChatId, m: Message): (r: map<ChatId, Chat>)
    ensures id in r && r[id].model == StateOf(v, id).model && SameElsewhere(v, r, id)
    ensures Bounded(v) ==> Bounded(r) && r[id].history == Newest(StateOf(v, id).history + [m], MaxMessages)
  {
    AppendedWindow(StateOf(v, id).history, m);
    v[id := Chat(Appended(StateOf(v, id).history, m), StateOf(v, id).model)]
  }

  /** `clearHistory`: a known chat loses its messages but keeps its model; an unknown chat stays unknown. */
  function HistoryCleared(v: map<ChatId, Chat>, id: ChatId): (r: map<ChatId, Chat>)
    ensures SameElsewhere(v, r, id) && (id in r <==> id in v)
    ensures id in v ==> r[id] == Chat([], v[id].model)
    ensures Bounded(v) ==> Bounded(r)
  {
    if id in v then v[id := Chat([], v[id].model)] else v
  }

  /** `setCurrentModel`: the chat's model becomes `key`; its history is kept. */
  function WithModel(v: map<ChatId, Chat>, id: ChatId, key: string): (r: map<ChatId, Chat>)
    ensures id in r && r[id] == Chat(StateOf(v, id).history, key) && SameElsewhere(v, r, id)
    ensures Bounded(v) ==> Bounded(r)
  {
    v[id := Chat(StateOf(v, id).history, key)]
  }

  /** `clearAll`: the chat is forgotten, so a later `get` sees the defaults again. */
  function Forgotten(v: map<ChatId, Chat>, id: ChatId): (r: map<ChatId, Chat>)
    ensures id !in r && StateOf(r, id) == DefaultChat && SameElsewhere(v, r, id)
    ensures Bounded(v) ==> Bounded(r)
  {
    v - {id}
  }

  /** `ConversationContext.ChatContext`. */
  class ChatContext {
    var history: seq<Message>
    var currentModel: string

    constructor()
      ensures history == [] && currentModel == DefaultModel
    {
      history := [];
      currentModel := DefaultModel;
    }
  }

  /** `ConversationContext`: one ChatContext object per chat id. */
  class ConversationContext {
    var contexts: map<ChatId, ChatContext>

    /** No two chats share a context object, and every window is within the limit. */
    ghost predicate Valid()
      reads this, contexts.Values
    {
      (forall a, b :: a in contexts && b in contexts && a != b ==> contexts[a] != contexts[b])
      && Bounded(View())
    }

    /** The contents of every context, as values. */
    ghost function View(): map<ChatId, Chat>
      reads this, contexts.Values
    {
      map id | id in contexts :: Chat(contexts[id].history, contexts[id].currentModel)
    }

    constructor()
      ensures Valid() && View() == map[]
    {
      contexts := map[];
    }

    /** `get`: the chat's context, created with the defaults when the chat is new. */
    method Get(chatId: ChatId) returns (ctx: ChatContext)
      requires Valid()
      modifies this
      ensures Valid() && View() == Touched(old(View()), chatId)
      ensures chatId in contexts && ctx == contexts[chatId]
      ensures chatId in old(contexts) ==> ctx == old(contexts[chatId]) && contexts == old(contexts)
      ensures chatId !in old(contexts) ==> fresh(ctx) && contexts == old(contexts)[chatId := ctx]
    {
      if chatId in contexts {
        ctx := contexts[chatId];
      } else {
        ctx := new ChatContext();
        contexts := contexts[chatId := ctx];
        assert View() == old(View())[chatId := DefaultChat];
      }
    }

    /** `addMessage`: append `{role, content}` and evict the oldest entry when the window overflows. */
    method AddMessage(chatId: ChatId, role: string, content: string)
      requires Valid()
      modifies this, contexts.Values
      ensures Valid() && View() == WithMessage(old(View()), chatId, Message(role, content))
    {
      var ctx := Get(chatId);
      label got:
      ctx.history := ctx.history + [Message(role, content)];
      if |ctx.history| > MaxMessages {
        ctx.history := ctx.history[1..];
      }
      ViewUpdated@got(chatId);
      AppendedWindow(StateOf(old(View()), chatId).history, Message(role, content));
    }

    /** When only the context of `id` changed, the view changes at `id` alone. */
    twostate lemma ViewUpdated(id: ChatId)
      requires old(Valid()) && contexts == old(contexts) && id in contexts
      requires forall k :: k in contexts && k != id ==> unchanged(contexts[k])
      ensures View() == old(View())[id := Chat(contexts[id].history, contexts[id].currentModel)]
      ensures forall a, b :: a in contexts && b in contexts && a != b ==> contexts[a] != contexts[b]
    {
      var u := old(View())[id := Chat(contexts[id].history, contexts[id].currentModel)];
      forall k | k in contexts
        ensures k in View() && k in u && View()[k] == u[k]
      {
        if k != id {
          assert old(View())[k] == Chat(old(contexts[k].history), old(contexts[k].currentModel));
        }
      }
      assert View().Keys == u.Keys;
    }

    /** `getHistory`: the chat's window (a copy here: the source hands out the live list). */
    method GetHistory(chatId: ChatId) returns (h: seq<Message>)
      requires Valid()
      modifies this
      ensures Valid() && View() == Touched(old(View()), chatId)
      ensures h == StateOf(old(View()), chatId).history
    {
      var ctx := Get(chatId);
      h := ctx.history;
    }

    /** `clearHistory`: no context is created for an unknown chat. */
    method ClearHistory(chatId: ChatId)
      requires Valid()
      modifies contexts.Values
      ensures contexts == old(contexts)
      ensures Valid() && View() == HistoryCleared(old(View()), chatId)
    {
      if chatId in contexts {
        var ctx := contexts[chatId];
        ctx.history := [];
        ViewUpdated(chatId);
      }
    }

    /** `setCurrentModel`. */
    method SetCurrentModel(chatId: ChatId, modelKey: string)
      requires Valid()
      modifies this, contexts.Values
      ensures Valid() && View() == WithModel(old(View()), chatId, modelKey)
    {
      var ctx := Get(chatId);
      label got:
      ctx.currentModel := modelKey;
      ViewUpdated@got(chatId);
    }

    /** `getCurrentModel`: the chat's model, the default one for a new chat. */
    method GetCurrentModel(chatId: ChatId) returns (model: string)
      requires Valid()
      modifies this
      ensures Valid() && View() == Touched(old(View()), chatId)
      ensures model == StateOf(old(View()), chatId).model
    {
      var ctx := Get(chatId);
      model := ctx.currentModel;
    }

    /** `clearAll`: forget the chat's context altogether. */
    method ClearAll(chatId: ChatId)
      requires Valid()
      modifies this
      ensures Valid() && View() == Forgotten(old(View()), chatId)
    {
      contexts := contexts - {chatId};
      assert View() == old(View()) - {chatId};
    }
  }
}
