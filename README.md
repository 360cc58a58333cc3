# react-chat conversation view, modelled in Dafny

This project models the conversation screen of a small real-time chat client
built on a remote document store (`src/ChatRoom.js`). It covers four pieces:

* the **send pipeline** (`sendMessage`). The form value is trimmed and blank
  input is dropped. Otherwise one message object is written twice in a single
  batch: once as a new document of the conversation's `messages`
  sub-collection, and once as the conversation's `lastMessage` summary. The
  batch commits all or nothing (module `SendPipeline`, class `Conversation`);
* the **timeline** of an open conversation (`ChatMessageList`). It is a list of
  messages, newest first, changed in three ways: seeded once from the first
  page, extended at the tail with older pages on scroll-to-top, and extended
  at the head by the `'added'` changes of the live subscription. Together with
  `canLoadMore`, `isLoading` and the conversation's `lastRead` map, this is
  module `MessageList`, class `ConversationView`;
* the **render model** (`parseMessages` with `isSameDay`). It walks the list
  from the oldest message to the newest and emits a date separator whenever the
  calendar day changes. Each message then gets a bubble with the `showTime` and
  `showRead` flags (module `Rendering`; `ConversationView.ParseMessages` is the
  loop itself);
* JavaScript's `String.prototype.trim`, as the send guard uses it
  (module `Trimming`).

Times are the record `Stamp(year, month, day, minute)`, which keeps only what
the render rules read from a `Date`: the calendar day and the minute of the
hour (the `Stamp` line under "## Left out" lists what else the code reads). A message's `createdAt` is an `Option<Stamp>`:
`None` stands for a server timestamp that is pending or missing. Document ids,
the server's commit time, the outcome of a commit, the pages a query returns
and the changes a snapshot carries are all parameters of the operations that
receive them.

The model follows the code as written at these points:

* The live merge is a blind prepend (`OnSnapshot`). It does not deduplicate
  and does not re-sort: a redelivered `'added'` change appears twice
  (`MessageList.ReplayIsKept`).
* The time label is forced on the **oldest** message of the list. Index
  `messages.length - 1` is the oldest in a newest-first list.
* The five-minute gap compares only `getMinutes()` values
  (`Rendering.MinuteOfHourScenario`). A missing time on either side makes the
  JavaScript difference `NaN`, so the comparison is false.
* The read marker is set to the first id of each incoming batch. It can move
  back to an older message.
* `onScroll` has no guard against a second request in flight. It crashes with
  a `TypeError` when the list is empty or the oldest message has no time. It
  raises `isLoading` before that crash and never lowers it again.
* The subscribing effect throws the same `TypeError` when the seeded page is
  empty or its newest message has no time (`SubscribeCrashed`).
* A rejected older-page query ends `onScroll` at its `await` with `isLoading`
  still on and the list and `canLoadMore` unchanged (`FetchFailed`).

## Model

| member | source | states |
|---|---|---|
| `Model.FromDocs` | src/ChatRoom.js:97-101 | the forEach/push conversion yields one record per document, in document order, each `FromDoc` of its document: the record `{id: doc.id, ...doc.data()}`, the document's id attached to its data fields |
| `Trimming.SkipSpaceFrom` | src/ChatRoom.js:23 | the start of the trimmed text: everything skipped is white space (the ECMAScript WhiteSpace and LineTerminator code points), and the scan stops at the end or at a non-space |
| `Trimming.SkipSpaceBack` | src/ChatRoom.js:23 | the end of the trimmed text: everything dropped from the end is white space, and the scan stops at the start or just after a non-space |
| `Trimming.TrimIsSlice` | src/ChatRoom.js:23 | `Trim`, that is `formValue.trim()`: the trimmed text is a contiguous slice of the input with only white space outside it, and it neither starts nor ends with white space |
| `Trimming.TrimEmptyIffAllSpace` | src/ChatRoom.js:23-26 | the send guard's test `text === ''` holds exactly when every character of the form value is white space (including the empty value) |
| `Trimming.TrimIdempotent` | src/ChatRoom.js:23 | trimming the trimmed text changes nothing |
| `SendPipeline.Conversation.constructor` | src/ChatRoom.js:28-40 | a loaded conversation holds the given message documents and `lastMessage` summary |
| `SendPipeline.Conversation.SendMessage` | src/ChatRoom.js:21-51 | blank input is dropped with no write and the form is kept; otherwise one object (trimmed text, author `cuid`, server time) is appended once as a message document with the new id and also set as `lastMessage`, both or neither depending on the commit; the form is cleared only after a commit that went through, and afterwards the summary equals the newest message's data |
| `MessageList.AddedMessagesAt` | src/ChatRoom.js:123-129 | `AddedMessages`, the `'added'` filter: the k-th message of the live batch is `FromDoc` (line 126) of the document of the change at the k-th selected position, and every selected change is of type `'added'` |
| `MessageList.AddedPositionsOrdered` | src/ChatRoom.js:123-129 | the selected positions are strictly increasing, so the batch keeps the relative order of the changes, and every `'added'` change is selected |
| `MessageList.CollectPage` | src/ChatRoom.js:97-101 | the forEach/push loop over a fetched page yields exactly the page's documents converted, in fetched order |
| `MessageList.CollectAdded` | src/ChatRoom.js:123-129 | the forEach/push loop over a snapshot's changes yields exactly the converted `'added'` documents, in change order |
| `MessageList.ReplayIsKept` | src/ChatRoom.js:123-130 | a scenario: seeded with one message and then sent the same `'added'` change again, the list holds that message twice, since the merge does not deduplicate |
| `MessageList.ReplayShowsReadTwice` | src/ChatRoom.js:130 | a scenario: with the viewer's message in the list twice and the friend's marker on its id, the read icon shows twice, so the at-most-once property needs distinct ids, which the blind prepend does not keep |
| `MessageList.ConversationView.constructor` | src/ChatRoom.js:83-88 | the view starts with an empty list, `canLoadMore` true, not loading, not seeded, not subscribed |
| `MessageList.ConversationView.SeedInitialPage` | src/ChatRoom.js:108-119 | only on the first call, the list and the kept first page become the fetched page, and `lastRead[cuid]` becomes the page's first (newest) id when the page is not empty, else stays; later calls change nothing; the list stays live part + seeded page + older pages |
| `MessageList.ConversationView.OnScroll` | src/ChatRoom.js:90-107 | away from the top, or when `canLoadMore` is false, nothing happens; at the top with an empty list or an oldest message without a time it crashes with the list and `canLoadMore` unchanged and `isLoading` left on; a rejected query (bound: the oldest message's time) leaves the same state; otherwise the query bound is the oldest message's time, the old list is kept as a prefix followed by the fetched page in fetched order, `canLoadMore` becomes true exactly when 10 messages came back, and `isLoading` goes off |
| `MessageList.ConversationView.Subscribe` | src/ChatRoom.js:120-122 | the subscription opens only once after seeding, bounded below by the seeded page's newest time; with an empty seeded page or a missing time it crashes; nothing else changes |
| `MessageList.ConversationView.OnSnapshot` | src/ChatRoom.js:122-135 | the `'added'` messages of the batch go in front of the otherwise unchanged list, with no deduplication; `lastRead[cuid]` becomes the id of the batch's first message when the batch is not empty, and an empty batch leaves the map untouched |
| `MessageList.ConversationView.ParseMessages` | src/ChatRoom.js:148-172 | the index loop from `messages.length - 1` down to 0 produces exactly the render model `Render` of the current list, with the friend's entry of `lastRead` as read marker |
| `Rendering.ReversedAt` | src/ChatRoom.js:157 | the reference order of the walk: the k-th element of the reversed list is msgs[n-1-k] |
| `Rendering.RenderFromMessages` | src/ChatRoom.js:157-170 | the bubbles of the walk over indices n-1 down to j carry exactly msgs[j..] reversed, that is msgs[n-1], …, msgs[j], each once |
| `Rendering.RenderEmitsEachMessageOnce` | src/ChatRoom.js:157-170 | the bubbles of the output carry every message exactly once, oldest to newest: the k-th bubble is msgs[n-1-k] |
| `Rendering.RenderFromPrefix` | src/ChatRoom.js:157-170 | `Step`, `RenderFrom` and `Render`, the loop as pushes: what the walk has pushed for the older indices is a prefix of what it pushes later, so each iteration only appends |
| `Rendering.RenderFromLength` | src/ChatRoom.js:157-170 | a partial walk's output is the messages walked plus the separators emitted, with between one and one-per-message separators |
| `Rendering.RenderLength` | src/ChatRoom.js:157-170 | the output length is the number of messages plus the number of date separators; a non-empty list has at least one separator and at most one per message; an empty list renders nothing |
| `Rendering.SameDayIsEquivalence` | src/ChatRoom.js:151-156 | `IsSameDay` (`isSameDay`): same year, month and day is reflexive, symmetric and transitive on present times, and a missing time is never on the same day as anything |
| `Rendering.SeparatorBefore` | src/ChatRoom.js:158-162 | `NeedsSeparator`: a separator with the message's time precedes its bubble exactly when it is the oldest, a time is missing on either side, or year, month or day differ; otherwise the older neighbour's bubble does; the oldest message's separator opens the output |
| `Rendering.TimeLabelAt` | src/ChatRoom.js:164 | `ShowTime`: the bubble of msgs[i] shows its time exactly when it is the oldest, or both times exist and their minutes of the hour differ by at least 5 |
| `Rendering.ReadIconAt` | src/ChatRoom.js:166 | `ShowRead`: the bubble of msgs[i] shows the read icon exactly when the friend's read marker is its id and the viewer wrote it |
| `Rendering.RenderFromSeparators` | src/ChatRoom.js:157-162 | a partial walk pushes exactly one separator per walked message that opens a new day (the oldest, a missing time, or another calendar day than its older neighbour), and no other |
| `Rendering.RenderFromSeparatorThenBubble` | src/ChatRoom.js:157-169 | in a partial walk every separator is directly followed by a bubble, since each iteration pushes its separator just before its bubble |
| `Rendering.RenderSeparators` | src/ChatRoom.js:157-170 | the whole output holds one separator per message that opens a new day, each directly followed by a bubble |
| `Rendering.RenderAt` | src/ChatRoom.js:157-170 | `Step` placed in the output: the bubble of msgs[i] stands at its position with the flags of the time and read rules; just before it stands its date separator when the day test fires and otherwise its older neighbour's bubble; the oldest message's bubble is the second element |
| `Rendering.StepShape` | src/ChatRoom.js:158-169 | one iteration pushes exactly one bubble, for msgs[i], preceded by exactly one separator when the day test fires and by none otherwise; its read icon is on exactly when the condition holds |
| `Rendering.RenderFromReadCount` | src/ChatRoom.js:157-170 | a partial walk shows the read icon once for each walked message that meets the condition |
| `Rendering.MatchCountBounds` | src/ChatRoom.js:166 | no walked message meets the read condition exactly when their count is zero, and with distinct ids at most one does |
| `Rendering.ReadIconAtMostOnce` | src/ChatRoom.js:166 | with distinct message ids at most one bubble shows the read icon, and one does exactly when some message of the viewer carries the marked id |
| `Rendering.SameDayScenario` | src/ChatRoom.js:157-166 | messages at 09:00:00, 09:00:10 and 09:06:00 of one day give one separator, a time on the oldest and on 09:06, none on 09:00:10 |
| `Rendering.MinuteOfHourScenario` | src/ChatRoom.js:164 | equal minutes of the hour suppress the time even an hour apart, and 58 → 1 across the hour shows it |

## Left out

- Every store call (`collection`, `where`, `orderBy`, `limit`, `get`, `onSnapshot`, `batch`, `commit`, `update`, `serverTimestamp`) is not modelled as a client; its results are parameters of the operations. Nothing checks that a page holds at most 20 or 10 messages, that it is ordered newest first, or that its messages lie on the correct side of the query bound: those are promises of the store.
- React scheduling, the order in which effects run and async interleaving are left out. In particular, overlapping `onScroll` calls are not modelled, although the code has no guard against them.
- Subscription teardown (src/ChatRoom.js:141-145), `scrollIntoView` (136) and the `scrollTop` adjustment (105) are left out, because they are UI side effects.
- The `Loader` markup and all JSX are left out, and so is the `toLocaleString` text of separators and times (160-161): a separator carries the `Option<Stamp>` it would format.
- The `ChatMessage` component (185-199) is left out. It only picks CSS classes and toggles the time on click.
- `src/App.js` is not part of this model: sign-in, routing, sign-out and the friend list.
- The `lastRead` writes (114-116, 132-134) are fire-and-forget. The model applies them at once to the view's `lastRead` map; a failed write is not modelled.
- The friend's own writes to `lastRead` reach the view through the live chat document, and are not modelled: `ReadMark` reads the view's map.
- A conversation document without a `lastRead` field, which makes `chat.data().lastRead[uid]` throw, is not modelled: the map always exists, and a missing friend entry gives no read icon.
- `sendMessage` before the conversation document has loaded (`chat.docs[0]` undefined) is not modelled: `Conversation` stands for a loaded conversation.
- A store-supplied `id` field inside the document data, which the spread `{id: doc.id, ...doc.data()}` would let override the document id, is not modelled.
- A `Stamp` keeps only the local year, month, day and minute of the hour; hours, seconds, milliseconds and time zones are not modelled. The render rules read only those fields, but the code reads more elsewhere. The query bounds (src/ChatRoom.js:93, 122) pass the full instant to the store, whereas `Loaded(before)`, `FetchFailed(before)` and `Opened(after)` carry only its minute-level `Stamp`. The separator's React key reads `createdAt?.seconds` (160), and `ChatMessage` formats the hour (194). Neither affects the model.
- MessageList.ConversationView.Subscribe: on `SubscribeCrashed` the `TypeError` is thrown inside a `useEffect` body, not an async handler, and no error boundary exists in src/ChatRoom.js or src/App.js, so React unmounts the tree. The model keeps the view usable for later `OnScroll`, `OnSnapshot` and `ParseMessages` calls; it does not capture the unmounting.
- SendPipeline.Conversation.SendMessage: requires `newId` to be unused, as the auto-id of `.doc()` (28) always is. The overwrite that `batch.set` (36) would perform on a reused id is not modelled.
- `e.preventDefault()` and the input's `onChange` are left out: the form value is a parameter of `SendMessage`.
