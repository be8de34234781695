# Sin-app chat: message-list bookkeeping

A Dafny model of the two-party chat screen of Sin-app (`ChatView`). The screen holds
two pieces of state: the list of messages it shows and the text buffer of its input
field. Four kinds of event change them:

- a **history load** replaces the list with the rows the backend returned, or leaves it
  alone when the query fails;
- an **optimistic send** appends a placeholder message at once, with a random id from
  1 000 000 to 2 000 000, and clears the input;
- a **send failure** removes every entry carrying that placeholder id and puts the text
  back in the input;
- a **realtime insert** is ignored unless it belongs to this conversation (in either
  direction); otherwise every entry with an id of at least 1 000 000 is swept away, and
  the message is appended unless an entry with its id is still listed.

Modules:

- `Results` — `Option` and `Result` for the outcomes of backend calls.
- `Messages` — the `Message` record, the pending-id range, and the conversation test.
  User ids (UUIDs) and dates are plain integers: the chat only compares or carries them.
- `MessageList` — the list operations as functions on `seq<Message>`: `RemoveAll`
  (the array's `removeAll(where:)`), `WithoutId` (the rollback), `Confirmed` (the sweep
  of pending entries), `Reconcile` (sweep, then conditional append). Lemmas about them
  state what is kept, what is dropped, and that order and id-uniqueness are preserved.
- `Chat` — the class `ChatView` with fields `messages` and `input` and one method per
  event. `EditInput`, `LoadHistory` and `SendMessage` state the new state directly;
  `SendFailed` and `ReceiveInsert` give it as a `MessageList` function of the old list.
  Two composed scenarios (`OfflineSendRestores`, `SendThenConfirm`) are proved from the
  method contracts alone. `DecodeDate` is the custom date strategy's loop over its
  formatters.

## Behaviour worth noting

- Placeholder ids share their range with server ids. A placeholder is any entry with
  `id >= 1_000_000`, and a confirmed server row with such an id is swept by the next
  realtime insert as well. A placeholder id can collide with a listed server id. In that
  case the rollback also removes the server entry (`RollbackRemovesCollision`).
- Sending checks for an empty input itself, and then does nothing: `SendMessage` with
  an empty input is a no-op, not an error.
- A realtime message is appended at the end of the list, wherever its timestamp
  falls. The client never sorts; the only ordering is the history query's.

## Model

| member | source | states |
|---|---|---|
| Chat.ChatView.constructor | Sin-app/Sin-app/Chat/ChatView.swift:13-17 | a new screen has an empty list and an empty input, for the given pair of users |
| Chat.ChatView.EditInput | Sin-app/Sin-app/Chat/ChatView.swift:40 | editing the text field sets the input buffer and does not touch the list |
| Chat.ChatView.LoadHistory | Sin-app/Sin-app/Chat/ChatView.swift:102-115 | a successful load makes the list exactly the fetched rows; a failed one leaves the list unchanged; the input is never touched |
| Chat.ChatView.SendMessage | Sin-app/Sin-app/Chat/ChatView.swift:120-148 | an empty input changes nothing and returns nothing; otherwise exactly one placeholder is appended after the unchanged earlier entries, with the old input as content, the current user as sender, the recipient as receiver, an id in [1 000 000, 2 000 000]; the input becomes "" and the returned pending send carries that id and the sent text |
| Chat.ChatView.SendFailed | Sin-app/Sin-app/Chat/ChatView.swift:157-163 | the list becomes the old list without the entries carrying the placeholder id, and the input is the sent text again |
| Chat.ChatView.ReceiveInsert | Sin-app/Sin-app/Chat/ChatView.swift:217-232 | an undecodable record or a message outside the {current user, recipient} pair leaves the list unchanged; a matching one turns the list into `Reconcile` of the old list; the input never changes |
| Chat.DecodeDate | Sin-app/Sin-app/Chat/ChatView.swift:77-99 | the result is the date of the first formatter that accepts the string, every earlier formatter having rejected it; an error is returned exactly when every formatter rejects it |
| Chat.OfflineSendRestores | Sin-app/Sin-app/Chat/ChatView.swift:120-163 | with no pending-range ids listed, a non-empty send followed by its failure restores both the list and the input |
| Chat.SendThenConfirm | Sin-app/Sin-app/Chat/ChatView.swift:136-227 | with no pending-range ids listed, a send followed by the realtime echo of a new server row (whatever its id) leaves the earlier entries followed by that row, and an empty input |
| MessageList.RemoveAll | Sin-app/Sin-app/Chat/ChatView.swift:223 | the result is no longer than the list and holds exactly the list's entries the predicate does not match |
| MessageList.WithoutId | Sin-app/Sin-app/Chat/ChatView.swift:161 | after the rollback no entry carries the placeholder id, every entry with another id is still there, and nothing new appears |
| MessageList.Confirmed | Sin-app/Sin-app/Chat/ChatView.swift:223 | no entry with an id of at least 1 000 000 survives, every entry below it does, and nothing new appears |
| MessageList.Reconcile | Sin-app/Sin-app/Chat/ChatView.swift:223-227 | the swept list is a prefix of the result, the incoming id is present, and the only pending-range entry that can remain is the incoming message itself |
| MessageList.RemoveAllAppend | Sin-app/Sin-app/Chat/ChatView.swift:161 | removing from a concatenation is removing from each part and concatenating |
| MessageList.RemoveAllKeepsOrder | Sin-app/Sin-app/Chat/ChatView.swift:223 | a kept entry stays after the kept entries that preceded it and before those that followed it |
| MessageList.RemoveAllCount | Sin-app/Sin-app/Chat/ChatView.swift:161 | every copy of a kept entry survives and no copy of a removed one does |
| MessageList.RemoveAllNoop | Sin-app/Sin-app/Chat/ChatView.swift:219-223 | removal leaves the list unchanged exactly when no entry matches the predicate |
| MessageList.RemoveAllKeepsDistinct | Sin-app/Sin-app/Chat/ChatView.swift:223 | removal never introduces a duplicate id |
| MessageList.RollbackUndoesSend | Sin-app/Sin-app/Chat/ChatView.swift:145-161 | if no listed entry has the placeholder's id, rolling back the appended placeholder gives back exactly the list before the send |
| MessageList.RollbackRemovesCollision | Sin-app/Sin-app/Chat/ChatView.swift:137-161 | if a listed entry shares the placeholder's id, the rollback removes it too, so the list does not return to its state before the send |
| MessageList.ReconcileAppendsIff | Sin-app/Sin-app/Chat/ChatView.swift:225-227 | the incoming message is appended at the end exactly when no entry of the list before the sweep that has an id below 1 000 000 shares its id; otherwise the result is exactly the swept list |
| MessageList.ReconcileIdOnce | Sin-app/Sin-app/Chat/ChatView.swift:223-227 | on a list without duplicate ids, reconciliation keeps ids distinct and leaves exactly one entry with the incoming id |
| MessageList.ReconcileIdempotent | Sin-app/Sin-app/Chat/ChatView.swift:219-228 | delivering the same realtime insert twice leaves the same list as delivering it once |

## Left out

- Rendering: the view body, `MessageView`, scrolling, and the disabled state of the send button. These are display only.
- The backend calls: the history query, the insert, and the realtime channel's creation, subscription and unsubscription. Their outcomes enter the model as `Result` values and as separate events (`LoadHistory`, `SendFailed`, `ReceiveInsert`). A successful insert changes nothing locally, so it has no event of its own.
- Concurrency: `Task`, `MainActor.run` and the `for await` loop over realtime changes. Each event is one atomic method call. Any interleaving of calls is allowed, including realtime inserts between a send and its failure.
- ISO 8601 parsing by the platform formatters. `DecodeDate` takes the formatters as opaque functions, and a `Date` is an integer.
- `Int.random`: the placeholder id is an unconstrained choice in the closed range, not a generator.
- `Date()` at send time: the clock reading is the `now` parameter of `SendMessage`.
- The decoding of a whole realtime record or history response. Its failure is modelled only as an error outcome.
- The debug logging on every error path. It has no effect on state.
- Swift's 64-bit `Int`: ids are unbounded integers. Ids are never computed, so no overflow can arise.
