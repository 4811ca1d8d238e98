# Telegram AI bot: text utilities, chat state and request shaping

This project is a Dafny model of the core of a Java Telegram bot that relays user
messages to several AI providers. It covers the parts of the bot that transform
text or keep per-chat state:

- **MarkdownToHtmlConverter.** It turns the DOM of a rendered Markdown answer into
  the HTML dialect of the Telegram Bot API:
  - it escapes text and attribute values;
  - it lays out tables as aligned monospace text;
  - it trims the result.
- **MessageSplitter.** It cuts a long answer into chunks of at most `maxLength`
  chars, and re-wraps every slice of a `<pre><code>` block in its own code block.
- **ConversationContext.** This is the per-chat window of the seven most recent
  messages and the chat's current model.
- **DigestContext.** This holds the topics each chat has chosen for its news digest.
- **SonarClient.** Its history normaliser puts the system messages first and
  repairs the user/assistant alternation for Perplexity. Its request assembly
  turns the normalised history into the message list of a request.
- **AiModelsConfig.** It looks up models and providers, falls back to the default
  model, and validates the configuration at start-up.

Modules, one per file:

- `Text` (`text.dfy`): `Option` for Java's nullable references, `String.trim()`,
  decimal rendering of ints, and small sequence facts.
- `Escape` (`escape.dfy`): `escapeHtml` and `escapeHtmlAttr`, with a decoder
  `Unescape` that serves as their inverse.
- `Markup` (`markup.dfy`): a reference definition of well-formed Telegram markup.
  A scanner reads the tags `b`, `i`, `code`, `pre` and `a href="…"`, keeps a
  stack of open tags, and `Balanced` holds when every tag is known, properly
  nested and closed (no `pre` inside `pre`).
- `Table` (`table.dfy`): `parseTableToMonospace`, with its three passes as
  methods over an `array<int>` of column widths, plus `padRight` and `repeatChar`.
- `Render` (`render.dfy`): the recursive `renderTelegramHtml` and the trim wrapper
  `convertMarkdownToTelegramHtml`. The DOM is the datatype `Node`.
- `Splitter` (`splitter.dfy`): `splitMessageForTelegram`. The chunks are
  specified by `Split`, a function that builds tagged chunks (plain, or a code
  slice that goes out wrapped).
- `Conversation` (`conversation.dfy`): the classes `ChatContext` and
  `ConversationContext`, specified through a value view `map<ChatId, Chat>`.
- `Digest` (`digest.dfy`): the class `DigestContext` over a
  `map<ChatId, seq<string>>` field.
- `Sonar` (`sonar.dfy`): `fixPerplexityMessageStructure` and the message list
  of `createSonarRequestBody`.
- `AiModels` (`config.dfy`): `getProvider`, `getModel` and `validate` over a
  configuration value.

Every imperative operation is a method proved against a specification function.
The properties the bot relies on are lemmas about those functions:

- the converter always produces balanced Telegram markup;
- escaping can be undone;
- table lines are aligned;
- every chunk fits in `maxLength` and no text is lost;
- the history window holds the newest seven messages;
- the normalised history alternates and keeps every non-blank user message, in order;
- a validated configuration always yields a model.

## Model

| member | source | states |
|---|---|---|
| `Text.TrimStart` | src/main/java/ru/practicum/utils/MarkdownToHtmlConverter.java:40 | the result is a suffix of the input; everything cut off is whitespace (a char `<= ' '`); the result does not start with whitespace |
| `Text.TrimEnd` | src/main/java/ru/practicum/utils/MarkdownToHtmlConverter.java:40 | the result is a prefix of the input; everything cut off is whitespace; the result does not end with whitespace |
| `Text.TrimEnds` | src/main/java/ru/practicum/utils/MarkdownToHtmlConverter.java:40 | `trim()` output neither starts nor ends with whitespace, and trimming again changes nothing |
| `Text.BlankIffAllTrimmed` | src/main/java/ru/practicum/client/SonarClient.java:123 | `trim()` is empty exactly when every char of the string is whitespace |
| `Text.NatToString` | src/main/java/ru/practicum/utils/MarkdownToHtmlConverter.java:93 | the decimal text of a natural number is non-empty, all digits, and has no leading zero |
| `Text.ParseNatToString` | src/main/java/ru/practicum/utils/DigestContext.java:68 | reading the decimal text back gives the number (no two numbers print alike) |
| `Escape.Replace` | src/main/java/ru/practicum/utils/MarkdownToHtmlConverter.java:197-199 | every output char comes from the replacement or is an input char other than the replaced one, so when the replacement does not contain that char none is left |
| `Escape.ReplaceAppend` | src/main/java/ru/practicum/utils/MarkdownToHtmlConverter.java:197-199 | `String.replace` of a concatenation is the concatenation of the replaced parts |
| `Escape.EscapeHtmlCons` | src/main/java/ru/practicum/utils/MarkdownToHtmlConverter.java:195-200 | the replace chain escapes the first char on its own: `&` is replaced first, so the `&` of a new entity is never escaped again |
| `Escape.EscapeHtmlAttrCons` | src/main/java/ru/practicum/utils/MarkdownToHtmlConverter.java:202-208 | the same for the four-step attribute chain |
| `Escape.EscapeHtmlPerChar` | src/main/java/ru/practicum/utils/MarkdownToHtmlConverter.java:195-200 | `escapeHtml` equals a char-by-char reference escaper: `&`, `<`, `>` become entities, every other char is unchanged |
| `Escape.EscapeHtmlAttrPerChar` | src/main/java/ru/practicum/utils/MarkdownToHtmlConverter.java:202-208 | `escapeHtmlAttr` equals the char-by-char escaper that also maps `"` to `&quot;` |
| `Escape.EscapeHtml` | src/main/java/ru/practicum/utils/MarkdownToHtmlConverter.java:195-200 | the output of `escapeHtml` holds no raw `<` or `>`, so it can never be read as a tag |
| `Escape.EscapeHtmlAttr` | src/main/java/ru/practicum/utils/MarkdownToHtmlConverter.java:202-208 | the output of `escapeHtmlAttr` holds no raw `"`, `<` or `>`, so it cannot end the attribute or the tag |
| `Escape.UnescapeEscapeHtml` | src/main/java/ru/practicum/utils/MarkdownToHtmlConverter.java:195-200 | round trip: decoding the entities of `escapeHtml(s)` gives back `s` |
| `Escape.UnescapeEscapeHtmlAttr` | src/main/java/ru/practicum/utils/MarkdownToHtmlConverter.java:202-208 | round trip for `escapeHtmlAttr` |
| `Escape.EscapeHtmlNullable` | src/main/java/ru/practicum/utils/MarkdownToHtmlConverter.java:195-200 | null gives `""`; otherwise the output has no `<` or `>` and decodes back to the argument |
| `Escape.EscapeHtmlAttrNullable` | src/main/java/ru/practicum/utils/MarkdownToHtmlConverter.java:202-208 | null gives `""`; otherwise the output has no `"`, `<` or `>` and decodes back to the argument |
| `Markup.ScanAppend` | src/main/java/ru/practicum/utils/MarkdownToHtmlConverter.java:45-124 | scanning text appended to a StringBuilder continues from the tag stack the earlier text left |
| `Markup.BalancedConcat` | src/main/java/ru/practicum/utils/MarkdownToHtmlConverter.java:45-124 | appending balanced markup to balanced markup stays balanced |
| `Markup.BalancedWrap` | src/main/java/ru/practicum/utils/MarkdownToHtmlConverter.java:63-69 | `<b>`/`<i>`/`<code>` around balanced markup is balanced |
| `Markup.BalancedAnchor` | src/main/java/ru/practicum/utils/MarkdownToHtmlConverter.java:102-107 | `<a href="v">` + balanced + `</a>` is balanced when `v` has no `"` or `>` |
| `Markup.BalancedCodeBlock` | src/main/java/ru/practicum/utils/MarkdownToHtmlConverter.java:78-80 | `<pre><code>` + text + `</code></pre>` is balanced when the text has no `<` |
| `Markup.BalancedPreText` | src/main/java/ru/practicum/utils/MarkdownToHtmlConverter.java:115 | `<pre>` + text + `</pre>` is balanced when the text has no `<` |
| `Markup.BalancedTrim` | src/main/java/ru/practicum/utils/MarkdownToHtmlConverter.java:40 | `trim()` of balanced markup is balanced: it only removes text outside every tag |
| `Table.Repeated` | src/main/java/ru/practicum/utils/MarkdownToHtmlConverter.java:187-192 | `count` copies of the char, and nothing for a count of zero or less |
| `Table.RepeatChar` | src/main/java/ru/practicum/utils/MarkdownToHtmlConverter.java:187-192 | the loop builds exactly `Repeated(ch, count)` |
| `Table.Padded` | src/main/java/ru/practicum/utils/MarkdownToHtmlConverter.java:179-185 | the string, then spaces up to `width`; its length is `max(|s|, width)`; a string already that long is kept |
| `Table.PadRight` | src/main/java/ru/practicum/utils/MarkdownToHtmlConverter.java:179-185 | the loop builds exactly `Padded(s, width)` |
| `Table.CellTexts` | src/main/java/ru/practicum/utils/MarkdownToHtmlConverter.java:136-138 | one text per cell |
| `Table.CellTextsTrimmed` | src/main/java/ru/practicum/utils/MarkdownToHtmlConverter.java:136-138 | the i-th text is `trim()` of the i-th cell's text |
| `Table.AnyTh` | src/main/java/ru/practicum/utils/MarkdownToHtmlConverter.java:135-139 | a row is a header row exactly when some cell is a `th` |
| `Table.KeptRows` | src/main/java/ru/practicum/utils/MarkdownToHtmlConverter.java:142-145 | rows without cells are dropped; every kept row has a cell |
| `Table.KeptExactly` | src/main/java/ru/practicum/utils/MarkdownToHtmlConverter.java:133-145 | the i-th kept row is built from the `tr` at the i-th kept index: its trimmed cell texts and its `th` flag |
| `Table.KeptInOrder` | src/main/java/ru/practicum/utils/MarkdownToHtmlConverter.java:133-145 | the kept indices increase, and a `tr` is kept exactly when it has a cell: no row with cells is lost, none is reordered |
| `Table.ColumnCount` | src/main/java/ru/practicum/utils/MarkdownToHtmlConverter.java:141 | the column count is the largest number of cells of any row, including rows that are dropped |
| `Table.ColumnWidth` | src/main/java/ru/practicum/utils/MarkdownToHtmlConverter.java:149-154 | a column is as wide as its longest cell, and no wider |
| `Table.ParseTableToMonospace` | src/main/java/ru/practicum/utils/MarkdownToHtmlConverter.java:128-177 | the three passes produce `Monospace(table)` |
| `Table.CollectRows` | src/main/java/ru/practicum/utils/MarkdownToHtmlConverter.java:129-146 | the first pass computes the column count and the kept rows with their header flags |
| `Table.RowCells` | src/main/java/ru/practicum/utils/MarkdownToHtmlConverter.java:134-140 | the cell loop gives the trimmed texts and the `th` flag |
| `Table.ColumnWidths` | src/main/java/ru/practicum/utils/MarkdownToHtmlConverter.java:149-154 | the width array holds `ColumnWidth` of every column |
| `Table.Widen` | src/main/java/ru/practicum/utils/MarkdownToHtmlConverter.java:151-153 | each column the row reaches grows to the row's cell length; the other columns are unchanged |
| `Table.LayOut` | src/main/java/ru/practicum/utils/MarkdownToHtmlConverter.java:156-174 | the third pass writes each kept row's line, plus a separator under each header row |
| `Table.RowBlock` | src/main/java/ru/practicum/utils/MarkdownToHtmlConverter.java:158-173 | one row's text: its line, and the separator when it is a header row |
| `Table.RowLine` | src/main/java/ru/practicum/utils/MarkdownToHtmlConverter.java:159-164 | every column's cell (`""` past the row's end) is padded to the column width, with a space, a bar and a space between columns |
| `Table.SeparatorLine` | src/main/java/ru/practicum/utils/MarkdownToHtmlConverter.java:168-172 | dashes to each column width, with `-+-` between columns |
| `Table.KeptWithinColumns` | src/main/java/ru/practicum/utils/MarkdownToHtmlConverter.java:141-145 | no kept row has more cells than there are columns, so `widths[i]` is never out of bounds |
| `Table.CellsLineWidth` | src/main/java/ru/practicum/utils/MarkdownToHtmlConverter.java:159-163 | a row line is as long as the column widths plus 3 per joint |
| `Table.SepLineWidth` | src/main/java/ru/practicum/utils/MarkdownToHtmlConverter.java:168-171 | a separator line has that same length |
| `Table.TableLinesAligned` | src/main/java/ru/practicum/utils/MarkdownToHtmlConverter.java:157-173 | every row line of a table is exactly as long as its separator line: the layout is aligned |
| `Table.CellsLineHoldsCells` | src/main/java/ru/practicum/utils/MarkdownToHtmlConverter.java:159-163 | column `c` of the row line is the padded cell `c`, after the earlier columns |
| `Render.SelectSeq` | src/main/java/ru/practicum/utils/MarkdownToHtmlConverter.java:133-136 | `select(names)` returns only elements whose tag is one of the names |
| `Render.SelectIsWalkFiltered` | src/main/java/ru/practicum/utils/MarkdownToHtmlConverter.java:133-136 | `select(names)` is the pre-order walk of the descendants with every node whose tag is not in `names` taken out |
| `Render.TagFilterExactly` | src/main/java/ru/practicum/utils/MarkdownToHtmlConverter.java:133-136 | the i-th selected node is the walk's node at the i-th matched index |
| `Render.TagFilterInOrder` | src/main/java/ru/practicum/utils/MarkdownToHtmlConverter.java:133-136 | the matched indices increase, and a node of the walk is selected exactly when it is an element with one of the tags |
| `Render.TagFilterAppend` | src/main/java/ru/practicum/utils/MarkdownToHtmlConverter.java:133-136 | filtering a concatenation filters each part |
| `Render.ConvertMarkdownToTelegramHtml` | src/main/java/ru/practicum/utils/MarkdownToHtmlConverter.java:31-41 | `""` for null or empty input; otherwise the trimmed rendering of the body's children |
| `Render.RenderTelegramHtml` | src/main/java/ru/practicum/utils/MarkdownToHtmlConverter.java:44-125 | the loop appends the rendering of every child node in order |
| `Render.RenderChild` | src/main/java/ru/practicum/utils/MarkdownToHtmlConverter.java:48-120 | the text written for one child, by node kind and by tag |
| `Render.RenderBullets` | src/main/java/ru/practicum/utils/MarkdownToHtmlConverter.java:83-88 | `"• " + item + "\n"` for each direct `li` child |
| `Render.RenderNumbered` | src/main/java/ru/practicum/utils/MarkdownToHtmlConverter.java:90-96 | `n + ". " + item + "\n"` for each direct `li` child, numbered from 1 |
| `Render.RenderSeqBalanced` | src/main/java/ru/practicum/utils/MarkdownToHtmlConverter.java:44-125 | whatever the DOM, the rendered text is balanced Telegram markup |
| `Render.RenderNodeBalanced` | src/main/java/ru/practicum/utils/MarkdownToHtmlConverter.java:48-120 | every node renders to balanced markup |
| `Render.CodeBlockBalanced` | src/main/java/ru/practicum/utils/MarkdownToHtmlConverter.java:76-81 | a `pre` element renders to balanced markup, whatever its text |
| `Render.PreBlockBalanced` | src/main/java/ru/practicum/utils/MarkdownToHtmlConverter.java:113-116 | a table renders to balanced markup, whatever its cells |
| `Render.AnchorBalanced` | src/main/java/ru/practicum/utils/MarkdownToHtmlConverter.java:102-107 | a link renders to balanced markup, whatever its `href` |
| `Render.BulletsBalanced` | src/main/java/ru/practicum/utils/MarkdownToHtmlConverter.java:83-88 | the items of a `ul` are balanced |
| `Render.NumberedBalanced` | src/main/java/ru/practicum/utils/MarkdownToHtmlConverter.java:90-96 | the items of an `ol` are balanced |
| `Render.ConvertedBalanced` | src/main/java/ru/practicum/utils/MarkdownToHtmlConverter.java:31-41 | the converter's output is always balanced Telegram markup |
| `Render.ConvertedTrimmed` | src/main/java/ru/practicum/utils/MarkdownToHtmlConverter.java:31-41 | the output never starts or ends with whitespace, and is empty for null or empty input |
| `Render.RenderSeqAppend` | src/main/java/ru/practicum/utils/MarkdownToHtmlConverter.java:47-122 | rendering is compositional: the rendering of siblings `a + b` is that of `a` followed by that of `b` |
| `Render.TextNodeRoundTrip` | src/main/java/ru/practicum/utils/MarkdownToHtmlConverter.java:48-49 | the text of a text node comes back intact from its rendering |
| `Render.CodeBlockRoundTrip` | src/main/java/ru/practicum/utils/MarkdownToHtmlConverter.java:76-81 | a code block is `<pre><code>`, the escaped text, `</code></pre>\n\n`, and its body decodes back to the text |
| `Render.PreBlockRoundTrip` | src/main/java/ru/practicum/utils/MarkdownToHtmlConverter.java:113-116 | a table block is `<pre>`, the escaped layout, `</pre>\n\n`, and its body decodes back to the layout |
| `Splitter.IndexOf` | src/main/java/ru/practicum/utils/MessageSplitter.java:18 | `indexOf(p, from)` is -1, or a position at or after `from` where `p` fits |
| `Splitter.IndexOfFirst` | src/main/java/ru/practicum/utils/MessageSplitter.java:18 | `indexOf` finds an occurrence and no earlier one; -1 means there is none |
| `Splitter.CodeEnd` | src/main/java/ru/practicum/utils/MessageSplitter.java:32-34 | the payload ends at the closing marker, or at the end of the text exactly when there is none |
| `Splitter.Step` | src/main/java/ru/practicum/utils/MessageSplitter.java:17-51 | every turn of the outer loop moves the cursor forward |
| `Splitter.SplitMessageForTelegram` | src/main/java/ru/practicum/utils/MessageSplitter.java:12-55 | no chunks for null or empty text; otherwise exactly the wire texts of `Split(text, maxLength)` |
| `Splitter.ScanTurn` | src/main/java/ru/practicum/utils/MessageSplitter.java:18-50 | one turn of the outer loop emits `Step`'s chunks and moves the cursor where `Step` says |
| `Splitter.CodeTurn` | src/main/java/ru/practicum/utils/MessageSplitter.java:25-50 | with a marker within reach: the text before it, then the wrapped slices; the cursor moves past the closing marker |
| `Splitter.CodeChunks` | src/main/java/ru/practicum/utils/MessageSplitter.java:39-48 | the inner loop wraps every slice of the payload in its own code block |
| `Splitter.SlicesFit` | src/main/java/ru/practicum/utils/MessageSplitter.java:41-47 | every slice of a payload is non-empty and at most `safeLength` long; an empty payload gives no slices |
| `Splitter.SlicesJoin` | src/main/java/ru/practicum/utils/MessageSplitter.java:41-47 | the slices, joined, are the payload |
| `Splitter.SplitFromFits` | src/main/java/ru/practicum/utils/MessageSplitter.java:16-52 | every chunk from any cursor fits |
| `Splitter.ChunksFit` | src/main/java/ru/practicum/utils/MessageSplitter.java:12-55 | every chunk sent is non-empty and at most `maxLength` chars, wrapping included |
| `Splitter.SplitFromUnwrapped` | src/main/java/ru/practicum/utils/MessageSplitter.java:16-52 | the chunks from a cursor carry exactly the rest of the text with its code markers removed |
| `Splitter.SplitCoversText` | src/main/java/ru/practicum/utils/MessageSplitter.java:12-55 | no text is lost or duplicated: the chunk bodies, joined, are the text without markers, whatever `maxLength` |
| `Splitter.ShortTextOneChunk` | src/main/java/ru/practicum/utils/MessageSplitter.java:20-24 | a text without code that fits in one message goes out as it is, in one chunk |
| `Splitter.MarkerForcesCut` | src/main/java/ru/practicum/utils/MessageSplitter.java:20-30 | when a marker lies within `maxLength` of the cursor, the turn's first chunk is the text from the cursor up to exactly where the marker starts (shorter than `maxLength`, although more text would fit), and the rest of the turn is code slices |
| `Splitter.PlainChunksMarkerFree` | src/main/java/ru/practicum/utils/MessageSplitter.java:18-24 | no plain chunk contains an opening `<pre><code>` marker |
| `Conversation.AppendedWindow` | src/main/java/ru/practicum/utils/ConversationContext.java:31-37 | after adding a message and evicting at most one, the window is the newest seven messages and ends with the new one |
| `Conversation.AppendedAllWindow` | src/main/java/ru/practicum/utils/ConversationContext.java:29-41 | after any sequence of additions, the window holds the newest seven messages of the whole conversation, in order |
| `Conversation.Touched` | src/main/java/ru/practicum/utils/ConversationContext.java:25-27 | `get` registers a new chat with the defaults and changes nothing else |
| `Conversation.WithMessage` | src/main/java/ru/practicum/utils/ConversationContext.java:29-37 | `addMessage` keeps the model, keeps the other chats, and leaves the newest seven messages |
| `Conversation.HistoryCleared` | src/main/java/ru/practicum/utils/ConversationContext.java:49-56 | a known chat loses its messages and keeps its model; an unknown chat stays unknown |
| `Conversation.WithModel` | src/main/java/ru/practicum/utils/ConversationContext.java:58-62 | the model changes and the history is kept |
| `Conversation.Forgotten` | src/main/java/ru/practicum/utils/ConversationContext.java:69-72 | the chat is removed, so a later `get` sees the defaults again |
| `Conversation.ChatContext.constructor` | src/main/java/ru/practicum/utils/ConversationContext.java:20-23 | an empty history and the model `gpt-5-nano` |
| `Conversation.ConversationContext.constructor` | src/main/java/ru/practicum/utils/ConversationContext.java:16 | no chats |
| `Conversation.ConversationContext.Get` | src/main/java/ru/practicum/utils/ConversationContext.java:25-27 | returns the chat's context object, creating a fresh one only for a new chat |
| `Conversation.ConversationContext.AddMessage` | src/main/java/ru/practicum/utils/ConversationContext.java:29-41 | the new state is `WithMessage` of the old; the window bound and distinct context objects are preserved |
| `Conversation.ConversationContext.GetHistory` | src/main/java/ru/practicum/utils/ConversationContext.java:43-47 | the chat's window; the chat is registered if new |
| `Conversation.ConversationContext.ClearHistory` | src/main/java/ru/practicum/utils/ConversationContext.java:49-56 | the new state is `HistoryCleared` of the old; no context is created |
| `Conversation.ConversationContext.SetCurrentModel` | src/main/java/ru/practicum/utils/ConversationContext.java:58-62 | the new state is `WithModel` of the old |
| `Conversation.ConversationContext.GetCurrentModel` | src/main/java/ru/practicum/utils/ConversationContext.java:64-67 | the chat's model (the default for a new chat), registering the chat |
| `Conversation.ConversationContext.ClearAll` | src/main/java/ru/practicum/utils/ConversationContext.java:69-72 | the new state is `Forgotten` of the old |
| `Digest.FirstIndex` | src/main/java/ru/practicum/utils/DigestContext.java:24 | the index of the first occurrence, the one `List.remove(Object)` takes out |
| `Digest.RemoveFirstCount` | src/main/java/ru/practicum/utils/DigestContext.java:22-29 | removing a present topic takes out exactly one copy (as multisets); an absent topic leaves the list unchanged |
| `Digest.RemoveFirstShift` | src/main/java/ru/practicum/utils/DigestContext.java:24 | topics before the removed one keep their place; topics after it move up by one |
| `Digest.LinesJoin` | src/main/java/ru/practicum/utils/DigestContext.java:66-69 | the numbered lines are `"i. topic\n"` for every topic, numbered from 1, in list order |
| `Digest.FormattedShape` | src/main/java/ru/practicum/utils/DigestContext.java:60-71 | the fixed notice for no topics; otherwise the header followed by the lines; the two cases cannot be confused |
| `Digest.DigestContext.constructor` | src/main/java/ru/practicum/utils/DigestContext.java:12 | no chats |
| `Digest.DigestContext.GetTopics` | src/main/java/ru/practicum/utils/DigestContext.java:32-34 | the chat's list; an empty list for a chat that has none |
| `Digest.DigestContext.HasTopics` | src/main/java/ru/practicum/utils/DigestContext.java:37-40 | true exactly when `getTopics` is non-empty |
| `Digest.DigestContext.CanAddMoreTopics` | src/main/java/ru/practicum/utils/DigestContext.java:43-46 | true exactly when `getTopics` holds fewer than three topics; a chat without topics can always add one |
| `Digest.DigestContext.AllUsersWithDigest` | src/main/java/ru/practicum/utils/DigestContext.java:55-57 | exactly the chats that have a stored list, so every chat with topics is in it; `addTopic` adds the chat, and `removeTopic` keeps it even when its list becomes empty |
| `Digest.DigestContext.AddTopic` | src/main/java/ru/practicum/utils/DigestContext.java:16-19 | the topic is appended to the chat's list, which is created when missing; other chats are unchanged; the chat becomes a digest user |
| `Digest.DigestContext.RemoveTopic` | src/main/java/ru/practicum/utils/DigestContext.java:22-29 | true exactly when the topic was listed; then its first occurrence is removed, otherwise nothing changes; no chat is added or removed, so the digest users stay the same |
| `Digest.DigestContext.ClearTopics` | src/main/java/ru/practicum/utils/DigestContext.java:49-57 | the chat's list is removed and the chat leaves the digest users |
| `Digest.DigestContext.GetTopicsFormatted` | src/main/java/ru/practicum/utils/DigestContext.java:60-71 | the loop builds `Formatted(getTopics(chatId))` |
| `Sonar.BlankIsTrimEmpty` | src/main/java/ru/practicum/client/SonarClient.java:122-125 | an entry is skipped exactly when its content is null or trims to nothing |
| `Sonar.Picked` | src/main/java/ru/practicum/client/SonarClient.java:118-132 | the system list and the dialogue hold only non-blank entries with one of their roles, and are no longer than the history |
| `Sonar.PickedExactly` | src/main/java/ru/practicum/client/SonarClient.java:118-132 | the i-th entry of the system list (or the dialogue) is the history entry at the i-th picked index |
| `Sonar.PickedInOrder` | src/main/java/ru/practicum/client/SonarClient.java:118-132 | nothing is lost or reordered: the picked indices increase, and an index is picked exactly when its entry is non-blank with one of the roles |
| `Sonar.AlternateAlternates` | src/main/java/ru/practicum/client/SonarClient.java:138-160 | the repaired dialogue alternates strictly, starting with the expected role |
| `Sonar.AlternateKeepsUsers` | src/main/java/ru/practicum/client/SonarClient.java:138-160 | no user message is dropped or reordered by the repair |
| `Sonar.DialogueUsers` | src/main/java/ru/practicum/client/SonarClient.java:118-132 | the user entries of the dialogue are exactly the non-blank user entries of the history, in order |
| `Sonar.FillerNotBlank` | src/main/java/ru/practicum/client/SonarClient.java:150 | the inserted assistant reply is not blank |
| `Sonar.AlternateEntries` | src/main/java/ru/practicum/client/SonarClient.java:138-160 | every repaired entry has a role and non-blank content |
| `Sonar.FixedSystemsFirst` | src/main/java/ru/practicum/client/SonarClient.java:135 | the system entries come first, in their order |
| `Sonar.FixedAlternates` | src/main/java/ru/practicum/client/SonarClient.java:137-160 | after the system entries the roles alternate user, assistant, user, … |
| `Sonar.FixedKeepsUsers` | src/main/java/ru/practicum/client/SonarClient.java:118-160 | after the system entries, the user messages are the non-blank user entries of the history, in order |
| `Sonar.FixedAllComplete` | src/main/java/ru/practicum/client/SonarClient.java:107-164 | no normalised entry is blank or lacks a role |
| `Sonar.FixedComplete` | src/main/java/ru/practicum/client/SonarClient.java:174-176 | every normalised entry has a role and content, so `Map.of` in the request assembly never sees null |
| `Sonar.Pairs` | src/main/java/ru/practicum/client/SonarClient.java:174-176 | one request message per entry, with the entry's role and content |
| `Sonar.FixPerplexityMessageStructure` | src/main/java/ru/practicum/client/SonarClient.java:107-164 | the method returns `Fixed(history)` |
| `Sonar.SortEntries` | src/main/java/ru/practicum/client/SonarClient.java:118-132 | the first loop builds exactly the system list and the dialogue |
| `Sonar.IsBlank` | src/main/java/ru/practicum/client/SonarClient.java:122-125 | the skip test is `Blank` |
| `Sonar.RepairAlternation` | src/main/java/ru/practicum/client/SonarClient.java:138-160 | the second loop appends exactly `Alternate(dialogue, user)` |
| `Sonar.CreateRequestMessages` | src/main/java/ru/practicum/client/SonarClient.java:166-179 | the message list is the normalised history as role/content pairs, then the user's message |
| `Sonar.RequestComplete` | src/main/java/ru/practicum/client/SonarClient.java:171-179 | one request message per normalised entry, carrying its role and content, then the new user text as the last one |
| `AiModels.Lookup` | src/main/java/ru/practicum/config/AiModelsConfig.java:37 | `HashMap.get`: the value when the key is present, null otherwise |
| `AiModels.GetProvider` | src/main/java/ru/practicum/config/AiModelsConfig.java:36-38 | the provider under the key, null exactly when the key is absent |
| `AiModels.GetModel` | src/main/java/ru/practicum/config/AiModelsConfig.java:40-47 | `models[key]` for a known key; otherwise the default model, or null when that is missing too |
| `AiModels.Validate` | src/main/java/ru/practicum/config/AiModelsConfig.java:50-57 | fails exactly when the default model is null or not a key of `models`, with the message naming it |
| `AiModels.ValidatedModelsFound` | src/main/java/ru/practicum/config/AiModelsConfig.java:40-57 | after a successful validation, `getModel` never returns null, and an unknown key gets the default model |
| `AiModels.ModelIsConfigured` | src/main/java/ru/practicum/config/AiModelsConfig.java:40-47 | every model `getModel` returns is one of the configured models |
| `AiModels.UnknownKeyIsDefault` | src/main/java/ru/practicum/config/AiModelsConfig.java:42-44 | an unknown key answers as the default model's own key does |
| `AiModels.InvalidUnknownKeyIsNull` | src/main/java/ru/practicum/config/AiModelsConfig.java:42-54 | without a valid default, an unknown key yields null |
| `AiModels.ValidationMessageNames` | src/main/java/ru/practicum/config/AiModelsConfig.java:52-53 | the exception message starts with `Default model '` followed by the default's name, or `null` |

## Left out

- **Parsing.** flexmark's Markdown parsing, HTML rendering and Jsoup's DOM
  building are foreign libraries. The converter takes the DOM as a `Node` value.
- **Jsoup text.** `Element.text()` is the concatenation of descendant text nodes.
  Jsoup's whitespace normalisation is not modelled.
- **Selectors.** Jsoup's `select` is a pre-order search for `tr` and `th, td`;
  `> li` is modelled as the direct `li` children.
- **Other node kinds.** `Node` has only text nodes and elements. Jsoup's
  comments and data nodes, which the render loop skips
  (MarkdownToHtmlConverter.java:47-50), cannot be represented.
- Escape.EscapeHtml: takes a non-null string. Every call in the converter passes
  `text()` or `attr()`, which never return null. The declared methods' null case
  is `EscapeHtmlNullable` / `EscapeHtmlAttrNullable`.
- Table.PadRight: takes a non-null string. Its only caller passes a cell text or
  `""`, so the `s == null` branch is unreachable and is not modelled.
- Splitter.SplitMessageForTelegram: requires `maxLength > 24` for non-empty
  text. For smaller values the source behaves as follows:
  - `maxLength < 0`: the plain branch is taken and `substring` throws, because
    `end` is below `pos` (MessageSplitter.java:22-23).
  - `maxLength == 0`: the plain branch never moves the cursor, so the loop
    never ends.
  - `1 <= maxLength <= 23` with a non-empty code payload: `safeLength` is
    negative and `substring` throws (MessageSplitter.java:42-44).
  - `maxLength == 24` with a non-empty code payload: each slice is empty, so
    the inner loop never ends.
  - With `1 <= maxLength <= 24`, text without markers and text whose code
    payloads are all empty are split correctly by the source. The
    precondition excludes these inputs too, so the model says nothing about
    them.
- **Java integers.** `int` overflow of `pos + maxLength` and of the counters is not
  modelled; Dafny integers are unbounded.
- **String lengths.** They are counted in chars of `seq<char>`, read as UTF-16
  code units. The emoji in the digest header is one char in the model and two
  code units in Java; no property here depends on the header's length.
- **Concurrency.** `ConcurrentHashMap` and concurrent access to one chat's
  `ArrayList` are not modelled; every operation is atomic here.
- Digest.DigestContext.GetTopics: returns the list as a value. The source hands
  out the live `ArrayList` stored in the map, so a caller could change a chat's
  topics behind the context's back; that aliasing is not modelled.
- Digest.DigestContext.AllUsersWithDigest: returns the set of chats as a value.
  The source returns the live `keySet()` view of the map, which follows later
  additions and removals and lets a caller remove a chat through it; that
  aliasing is not modelled.
- Conversation.ConversationContext.GetHistory: returns the window as a value.
  The source hands out the live `ArrayList`, so a caller could change it behind
  the context's back; that aliasing is not modelled.
- **Null map values.** A null topic, role or content is not modelled, and
  `Map.of` rejects a null role or content with an exception. In Sonar, an entry
  whose role or content `get` returns as null is modelled with `Option`. A null
  map in the history list is not modelled. The chat ids of `ConversationContext`
  and `DigestContext` are boxed `Long`s, and a null id makes `ConcurrentHashMap`
  throw a `NullPointerException`; the model's `ChatId = int` has no null, so
  that exception is not modelled.
- **Null config keys.** A null key passed to `getModel` / `getProvider` is not
  modelled (keys are strings). A null `defaultModel` is modelled.
- **Side effects.** Logging (`log.debug`, `log.info`, `log.warn`), HTTP, JSON
  serialisation, and the model name, `max_tokens` and `temperature` fields of
  the Sonar request body are not modelled.
