# Chat store model

This is a Dafny model of the data layer of a chat server. The server keeps conversations,
the messages posted to them, the participants (human or AI personas) taking part, and the
metadata of uploaded files. It keeps them in four database tables, which are tied together by
foreign keys:

- each message, participant and file upload belongs to a conversation (`ON DELETE CASCADE`);
- a message may name the participant who wrote it (`ON DELETE SET NULL`).

Eleven handlers act on the tables. Eight of them write rows: create a conversation, update
it, delete it; create a message; create a participant, update it, delete it; create a file
upload. Three only read: get a conversation, get a conversation's messages (newest first,
with `limit` and `offset`), and get a conversation's participants.

The model has four layers:

- `Schema` (`schema.dfy`): the four enumerations and their text names. It also holds the
  handler inputs. A field that is optional and nullable is a tri-state `Wrappers.Field`
  (absent, null, or a value). A field that is only optional is an `Option`.
- `Db` (`tables.dfy`): the rows, the tables as sequences in insertion order, and the
  constraints (`WellFormed`). It also holds the two deletes with their cascades, as
  functions on the tables.
- `Rows` (`rows.dfy`) and `Queries` (`queries.dfy`):
  - `Rows` builds the rows the writers store: the `|| null` and `?? true` coercions of
    create, and the field-by-field partial updates;
  - `Queries` holds the three read-only handlers as functions.
- `ChatStore` (`store.dfy`): the store itself, the class `Store`. It has:
  - the tables;
  - the next value of each table's serial sequence;
  - a logical clock;
  - one method per writing handler.

  `Valid()` is the store's invariant: every constraint holds, and every id and timestamp in
  the tables was already issued. Each method is proved against a "step" lemma on values,
  which shows that the handler keeps the invariant.

`Seqs` (`seqs.dfy`) provides the generic table operations used throughout: filter, lookup,
replace-by-key, sort by key descending, and limit/offset.

Time is a logical clock. It moves forward by one just before a timestamp is written, so later
writes carry strictly later times and no two messages share a `created_at`. A serial id is
drawn from its sequence before the foreign keys are checked. So, as in Postgres, an insert
that the foreign keys reject still uses up an id.

The read-only handlers leave the store unchanged by construction, because they are
functions of the tables.

The input schemas do not say whether an empty string counts as "no value". The create
handlers read `''` (and a participant id of `0`) as null, through `|| null`, and the model
follows that code. The update handler keeps `''` as given (`EmptyTextCreateVersusUpdate`).

## Model

| member | source | states |
|---|---|---|
| Schema.ParseChatMode | server/src/schema.ts:5 | exactly `smart_answer`, `group_chat` and `autopilot` are accepted, each as the one mode whose name it is |
| Schema.ParseAiModel | server/src/schema.ts:8 | exactly `chatgpt`, `gemini`, `deepseek` and `grok` are accepted, each as the one model it names |
| Schema.ParseMessageRole | server/src/schema.ts:11 | exactly `user`, `assistant` and `system` are accepted, each as the one role it names |
| Schema.ParseParticipantRole | server/src/schema.ts:14 | exactly the five participant roles are accepted, each as the one role it names |
| Schema.ValidPagination | server/src/schema.ts:138-139 | a limit, when given, is at least 1, and an offset, when given, is at least 0 |
| Schema.ChangesSomething | server/src/schema.ts:117-125 | at least one of the six optional fields of a participant update is given, a null counting as given |
| Db.ReferencesHold | server/src/db/schema.ts:23-47 | every message, participant and file upload names an existing conversation, and every non-null message author names an existing participant |
| Db.KeysIncrease | server/src/db/schema.ts:13-46 | serial ids grow along each of the four tables, and message creation times grow along the messages table |
| Db.WellFormed | server/src/db/schema.ts:12-53 | the whole constraint set: foreign keys resolve and serial keys grow |
| Db.InsertConversationKeepsWellFormed | server/src/db/schema.ts:12-18 | appending a conversation whose id is above every existing id keeps every constraint, and its id joins the table's ids |
| Db.InsertMessageKeepsWellFormed | server/src/db/schema.ts:21-29 | a message with the newest id and time, an existing conversation, and an author that is null or existing keeps every constraint |
| Db.InsertParticipantKeepsWellFormed | server/src/db/schema.ts:32-42 | a participant with the newest id in an existing conversation keeps every constraint, and its id joins the participant ids |
| Db.InsertFileUploadKeepsWellFormed | server/src/db/schema.ts:45-53 | a file upload with the newest id in an existing conversation keeps every constraint |
| Db.ReplaceConversationKeepsWellFormed | server/src/db/schema.ts:12-18 | rewriting a conversation in place under the same id keeps every constraint and the set of ids |
| Db.ReplaceParticipantKeepsWellFormed | server/src/db/schema.ts:32-42 | rewriting a participant in place, under the same id and an existing conversation, keeps every constraint |
| Db.Unlink | server/src/db/schema.ts:27 | SET NULL on one message: only the author can change; it becomes null exactly when it names a deleted participant |
| Db.Detach | server/src/db/schema.ts:27 | SET NULL on the messages table: same length, each message unlinked in place, unchanged when no author is deleted |
| Db.DetachOrigin | server/src/db/schema.ts:27 | every message after SET NULL is an original message, unchanged or with its author nulled when it named a removed participant |
| Db.DetachKeepsKeys | server/src/db/schema.ts:22-28 | SET NULL keeps message ids and creation times in increasing order |
| Db.ConversationsExcept | server/src/handlers/delete_conversation.ts:9-11 | exactly the conversations without the deleted id, in increasing id order when the table is; unchanged when no row has the id |
| Db.MessagesOutside | server/src/db/schema.ts:23 | exactly the messages of other conversations, keeping ids and creation times increasing; unchanged when the conversation has no messages |
| Db.ParticipantsOutside | server/src/db/schema.ts:34 | exactly the participants of other conversations, keeping ids increasing; unchanged when the conversation has no participants |
| Db.FileUploadsOutside | server/src/db/schema.ts:47 | exactly the file uploads of other conversations, keeping ids increasing; unchanged when the conversation has no uploads |
| Db.ParticipantsExcept | server/src/handlers/delete_participant.ts:9-11 | exactly the participants without the deleted id, keeping ids increasing; unchanged when no row has the id |
| Db.DeleteConversation | server/src/handlers/delete_conversation.ts:9-11 | the conversation and all its messages, participants and file uploads go, and every other conversation, participant and file upload stays; every message of another conversation stays, unlinked from the removed participants |
| Db.DeleteConversationMessageOrigin | server/src/db/schema.ts:23 | every message left after the delete belongs to another conversation and is an original message with the removed participants unlinked |
| Db.DeleteConversationKeepsWellFormed | server/src/db/schema.ts:23-47 | after the cascade every foreign key still points at an existing row, and keys still grow |
| Db.DeleteConversationNullsForeignAuthors | server/src/db/schema.ts:27 | a message in another conversation written by a participant of the deleted one is kept, with its author null, and that participant is removed |
| Db.DeleteConversationRemoves | server/src/handlers/delete_conversation.ts:9-11 | after the delete no conversation has the id |
| Db.DeleteMissingConversation | server/src/handlers/delete_conversation.ts:9-11 | deleting an id that no conversation has changes nothing and raises nothing |
| Db.DeleteParticipant | server/src/handlers/delete_participant.ts:9-11 | the participant goes; conversations, file uploads and other participants stay; every message stays, with its author nulled only if it was that participant |
| Db.DeleteParticipantKeepsWellFormed | server/src/db/schema.ts:27 | after SET NULL no message names a missing participant, and every other constraint holds |
| Db.DeleteParticipantRemoves | server/src/handlers/delete_participant.ts:9-11 | after the delete no participant has the id |
| Db.DeleteMissingParticipant | server/src/handlers/delete_participant.ts:9-11 | deleting an id that no participant has changes nothing and raises nothing |
| Rows.TextOrNull | server/src/handlers/create_participant.ts:12-15 | a text is stored exactly when it is given and non-empty, and then as given |
| Rows.IdOrNull | server/src/handlers/create_message.ts:14 | an author id is stored exactly when it is given and non-zero, and then as given |
| Rows.ModelOrNull | server/src/handlers/create_message.ts:13 | a model tag is stored exactly when it is given, and then as given |
| Rows.ActiveOrDefault | server/src/handlers/create_participant.ts:16 | a missing activity flag is true, and a given one, false included, is kept |
| Rows.UpdatedConversation | server/src/handlers/update_conversation.ts:10-16 | `updated_at` is the current time; the title becomes the given one only if one is given; id, mode and creation time are kept |
| Rows.UpdatedParticipant | server/src/handlers/update_participant.ts:10-34 | each of the six fields is kept when absent; otherwise it takes the given value, and an explicit null clears a nullable field; id, conversation and creation time are kept |
| Rows.EmptyTextCreateVersusUpdate | server/src/handlers/update_participant.ts:16-18 | an empty description is stored as null by create but as the empty string by update |
| Queries.GetConversation | server/src/handlers/get_conversation.ts:9-18 | a row comes back exactly when a conversation has the id, and it is that conversation; otherwise the result is null |
| Queries.GetConversationFinds | server/src/handlers/get_conversation.ts:9-18 | in a table of unique ids, the lookup of a row's id returns that very row |
| Queries.GetParticipants | server/src/handlers/get_participants.ts:9-14 | exactly the participants of the conversation, with all their fields, and in increasing id order when the table is |
| Queries.MessagesIn | server/src/handlers/get_messages.ts:12 | exactly the messages of the conversation, in creation order when the table is |
| Queries.Timeline | server/src/handlers/get_messages.ts:10-13 | exactly the conversation's messages, each once, ordered by `created_at` newest first |
| Queries.TimelineStrict | server/src/handlers/get_messages.ts:13 | with distinct creation times the timeline is strictly newest first |
| Queries.TimelineIsTheOrder | server/src/handlers/get_messages.ts:13 | any strictly newest-first listing of exactly the conversation's messages equals the timeline |
| Queries.GetMessages | server/src/handlers/get_messages.ts:10-28 | the page is the slice [offset, offset + limit) of the timeline, clipped to it, and holds only the conversation's messages, newest first |
| Queries.LimitKeepsNewest | server/src/handlers/get_messages.ts:19-21 | with a limit and no offset, every message of the conversation left off the page is older than every message on it |
| Queries.NoMessagesEmptyPage | server/src/handlers/get_messages.ts:10-28 | a conversation without messages yields an empty page for every limit and offset |
| Queries.ListConversations | server/src/tests/get_conversations.test.ts:64-86 | all conversations, each once, most recently updated first |
| Queries.ListConversationsNewestFirst | server/src/tests/get_conversations.test.ts:64-86 | the conversation updated last is listed first |
| Seqs.IncreasingUnique | server/src/db/schema.ts:13 | in a table whose serial ids increase, an id names at most one row |
| Seqs.Where | server/src/handlers/get_participants.ts:11 | a WHERE clause: exactly the rows that satisfy the condition, and no more rows than the table has |
| Seqs.Lookup | server/src/handlers/get_conversation.ts:9-16 | a row comes back exactly when some row has the key, and it is a row of the table with that key; otherwise null |
| Seqs.Replace | server/src/handlers/update_participant.ts:37-41 | an UPDATE by key: same length, each row keeps its key, rows with another key are unchanged, rows with the key become the new row, and no other row appears |
| Seqs.SortDescSorts | server/src/handlers/get_messages.ts:13 | ORDER BY … DESC keeps exactly the rows it is given and orders them largest key first |
| Seqs.SortIncreasing | server/src/handlers/get_messages.ts:13 | sorting rows inserted in key order yields them in reverse, strictly largest first |
| Seqs.StrictlyDescendingUnique | server/src/handlers/get_messages.ts:13 | two strictly descending orders of the same rows are the same sequence |
| Seqs.Paginate | server/src/handlers/get_messages.ts:16-27 | each of the four limit/offset branches yields the rows from the offset on, at most `limit` of them |
| Seqs.PaginateKeepsDescending | server/src/handlers/get_messages.ts:16-27 | a page of a newest-first listing is newest first |
| ChatStore.Invariant | server/src/db/schema.ts:12-53 | the constraints hold, every sequence is positive, every id lies below its table's next sequence value, and no timestamp is later than the clock, with a conversation's `updated_at` no earlier than its `created_at` |
| ChatStore.CreateConversationStep | server/src/handlers/create_conversation.ts:8-16 | a conversation with the next id, stamped after the clock, has a fresh id, keeps the invariant, is then found by its id and is listed first |
| ChatStore.UpdateConversationStep | server/src/handlers/update_conversation.ts:19-23 | a conversation rewritten under its id and creation time, touched after the clock, keeps the invariant and is touched after it was created |
| ChatStore.CreateMessageStep | server/src/handlers/create_message.ts:8-17 | a message with the next id, an existing conversation and an existing or null author has a fresh id and keeps the invariant |
| ChatStore.CreateParticipantStep | server/src/handlers/create_participant.ts:8-19 | a participant with the next id in an existing conversation has a fresh id and keeps the invariant |
| ChatStore.UpdateParticipantStep | server/src/handlers/update_participant.ts:37-41 | a participant rewritten under its id, conversation and creation time keeps the invariant |
| ChatStore.CreateFileUploadStep | server/src/handlers/create_file_upload.ts:9-18 | a file upload with the next id in an existing conversation has a fresh id and keeps the invariant |
| ChatStore.DeleteConversationStep | server/src/handlers/delete_conversation.ts:9-11 | the cascading delete keeps the invariant |
| ChatStore.DeleteParticipantStep | server/src/handlers/delete_participant.ts:9-11 | the SET NULL delete keeps the invariant |
| ChatStore.Store.Valid | server/src/db/schema.ts:12-53 | the store's fields satisfy `ChatStore.Invariant` |
| ChatStore.Store.constructor | server/src/db/schema.ts:12-53 | an empty store is valid, every sequence starts at 1, and the clock at 0 |
| ChatStore.Store.CreateConversation | server/src/handlers/create_conversation.ts:8-16 | the row has the given title and mode, a fresh id, and both timestamps at the insertion time; it is appended and nothing else changes; it is then found by id and listed first |
| ChatStore.Store.UpdateConversation | server/src/handlers/update_conversation.ts:10-27 | missing id: "not found" and no change; otherwise the row is replaced by its update at the next time, `updated_at > created_at`, and nothing else changes |
| ChatStore.Store.DeleteConversation | server/src/handlers/delete_conversation.ts:9-11 | the tables become those of the cascading delete; sequences and clock stay |
| ChatStore.Store.CreateMessage | server/src/handlers/create_message.ts:8-19 | a missing conversation, then a given author that does not exist, is a foreign-key error that changes no row; otherwise the coerced message with a fresh id is appended; an id is drawn either way |
| ChatStore.Store.CreateParticipant | server/src/handlers/create_participant.ts:8-21 | an error exactly when the conversation is missing, with no row changed; otherwise the coerced participant with a fresh id is appended |
| ChatStore.Store.UpdateParticipant | server/src/handlers/update_participant.ts:10-45 | missing id: "not found" and no change; otherwise the row is replaced by its field-by-field update and nothing else changes |
| ChatStore.Store.DeleteParticipant | server/src/handlers/delete_participant.ts:9-11 | the tables become those of the SET NULL delete; sequences and clock stay |
| ChatStore.Store.CreateFileUpload | server/src/handlers/create_file_upload.ts:9-21 | an error exactly when the conversation is missing, with no row changed; otherwise the metadata, as given, with a fresh id is appended |

## Left out

- The HTTP/RPC server, CORS and transport encoding in `server/src/index.ts` are left out. It only routes each validated input to its handler. Input validation is modelled as the input datatypes and `Schema.ValidPagination`.
- The database driver, the query builder, SQL text and Postgres execution are replaced by in-memory tables. So is `console.error` logging.
- Wall-clock `Date` values are replaced by the logical clock. Messages with equal `created_at`, whose order SQL leaves unspecified, cannot arise in the model.
- Several requests running at once, and transactions, are not modelled. Each handler call is one atomic step.
- The React client `client/src/App.tsx` is not part of this model.
- The handler that lists all conversations is not part of this model. Only the order its test asserts (most recently updated first) is modelled, as `Queries.ListConversations`.
- Every id in the input schemas is a plain number, so a validated input may carry a non-integer id such as 1.5. Ids in the model are integers, so non-integer ids are not modelled.
- ChatStore.Store.CreateConversation, ChatStore.Store.UpdateConversation, ChatStore.Store.CreateMessage, ChatStore.Store.CreateParticipant, ChatStore.Store.UpdateParticipant and ChatStore.Store.CreateFileUpload: these store any string as given. A Postgres `text` column cannot hold the character U+0000, so the database rejects a text containing it; the model assumes there is none and accepts such a text. Strings in the model are sequences of Unicode scalar values, so a JavaScript string with an unpaired UTF-16 surrogate, which the database stores with U+FFFD in its place, is not modelled.
- Ids are unbounded integers: the 32-bit limit of `serial` and `integer` columns is not modelled. `file_size` is an integer, although the input schema accepts any number; a non-integer size is not modelled.
- ChatStore.Store.UpdateParticipant: requires at least one optional field (`Schema.ChangesSomething`). With none, the outcome depends on how the query builder treats an empty SET list, which is not shown.
- Queries.GetParticipants: returns the rows in table order. The source has no ORDER BY and promises no order, so no order is part of what the source guarantees.
- ChatStore.Store.CreateMessage: when both foreign keys fail, it reports the conversation key. The database does not fix which violation it reports.
- A participant update does not move the clock, because the participants table has no `updated_at` column.
