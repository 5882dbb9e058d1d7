# Chat service model

A Dafny model of the conversation and messaging service of the rydleap
backend (`src/app/modules/chat/chat.service.ts`). The service stores users,
conversations with participant rows, and messages. It offers four operations:

- `createConversation` finds or creates the conversation for a list of user ids.
- `sendMessage` appends a message.
- `getMessagesInConversation` lists a conversation's messages by creation time.
- `getAllConversations` lists the conversations a user takes part in.

The database is modelled as an immutable `Store` holding three sequences:
users, conversations (each with the `userId`s of its participant rows) and
messages. Each operation is a pure function. It returns either the error it
raises (`ChatError`) or its result. The two writing operations also return the
new store. A failure returns no store, so a failed call changes nothing. The id
and timestamp that the database would assign to a new row are parameters.

Modules, in dependency order:

- `Wrappers`: `Option` and `Result`.
- `Seqs`: element sets, distinctness, and an order-preserving `Filter`. Every
  `where` clause of the queries and the JavaScript `filter` are modelled with it.
- `ChatStore`: rows, the store, and the invariant `Valid`. The invariant says:
  user ids are unique, conversation ids are unique, every conversation has at
  least two distinct participants who are all users, and no two conversations
  share a participant set.
- `ParticipantCheck`: the batch user lookup and the missing-id report.
- `Matcher`: the participant prefilter and the exact comparison. It also holds
  `FirstMatch`, an independent reference definition of "first match in store order".
- `MessageOrder`: ordering by `createdAt`.
- `ChatService`: the four operations.
- `ChatProperties`: properties that relate several calls, or a call and the invariant.
- `ChatExamples`: worked examples proved on a two-user store.

The model follows the code as written, including these behaviours:

- Repeated ids in `userIds` are not collapsed into a set. They always fail the
  existence check with NOT_FOUND. The report still lists every requested id
  that names no user, so when every id names a user the list of missing ids
  is empty.
- Conversation creation is a plain check-then-act. There is no uniqueness
  constraint and no retry on conflict. The "one conversation per participant
  set" property is therefore proved only for sequential calls
  (`CreateConversationPreservesValid`).
- `sendMessage` checks only that its three fields are present and non-empty.
  It does not check that the conversation exists or that the sender belongs to
  it, and it raises its validation error with status OK (200).
- Listing the messages of an unknown conversation returns an empty sequence,
  not an error.
- A too-short `userIds` raises a plain `Error` that carries no HTTP status.

## Model

| member | source | states |
|---|---|---|
| ChatService.CreateConversation | src/app/modules/chat/chat.service.ts:4-72 | Fails with TooFewUsers exactly when `userIds` is missing or has fewer than two ids. Otherwise the only possible failure is NOT_FOUND, and it reports the requested ids that name no user, in request order. On success, users and messages are untouched and the returned conversation matches the request. If some stored conversation matches, the first one in store order is returned and the store is unchanged. Otherwise exactly one conversation `(freshId, userIds)` is appended and returned. |
| ChatService.SendMessage | src/app/modules/chat/chat.service.ts:74-94 | Succeeds exactly when all three fields are present and non-empty. A failure is MessageFieldsRequired carrying HTTP status 200. On success, exactly one message carrying the three fields and the timestamp is appended, and users and conversations are unchanged. No membership or existence check is made. |
| ChatService.GetMessagesInConversation | src/app/modules/chat/chat.service.ts:96-111 | Fails exactly on an empty id. Otherwise it returns a sequence that is sorted non-decreasingly by `createdAt` and holds each message of that conversation exactly as often as the store does, and no other message. |
| ChatService.GetAllConversations | src/app/modules/chat/chat.service.ts:113-133 | Fails exactly on an empty id. Otherwise it returns exactly the stored conversations with a participant of that user id, with their participant lists and their multiplicity. |
| ParticipantCheck.FoundUsers | src/app/modules/chat/chat.service.ts:15-19 | The batch lookup returns exactly the stored user rows whose id is among the requested ids. |
| ParticipantCheck.ExistenceCheck | src/app/modules/chat/chat.service.ts:15-30 | When the check fails, the report holds exactly the requested ids that name no stored user, as the subsequence of the request that keeps those ids in request order. |
| ParticipantCheck.FoundCount | src/app/modules/chat/chat.service.ts:15-21 | With unique user ids, the lookup returns as many rows as there are distinct requested ids that exist. |
| ParticipantCheck.ExistenceCheckExact | src/app/modules/chat/chat.service.ts:15-30 | With unique user ids, the count comparison passes if and only if the requested ids are pairwise distinct and all name stored users. |
| Matcher.Find | src/app/modules/chat/chat.service.ts:47-53 | The `find` over the candidates returns the first candidate, in candidate order, that passes the exact comparison. It returns nothing exactly when no candidate passes. |
| Matcher.FindMatch | src/app/modules/chat/chat.service.ts:33-53 | The prefiltered search returns a stored conversation that matches the request. It returns nothing exactly when no stored conversation matches. |
| Matcher.FirstMatch | src/app/modules/chat/chat.service.ts:33-53 | Reference definition: it returns nothing if and only if no stored conversation passes both conditions. Otherwise it returns the one at the smallest such index in store order. |
| Matcher.FindMatchIsFirstMatch | src/app/modules/chat/chat.service.ts:33-53 | Prefiltering and then finding yields exactly the first conversation in store order that passes both conditions. |
| Matcher.MatchIsSetEquality | src/app/modules/chat/chat.service.ts:33-53 | A match has exactly the requested participant set, so no subset or superset group is matched. When neither side repeats an id, set equality implies a match. |
| Matcher.PrefilterImpliedByDistinctRequest | src/app/modules/chat/chat.service.ts:33-53 | For a request without repeats, the length-and-cover comparison alone implies the prefilter, and the matched conversation repeats no participant. |
| Matcher.FirstMatchSameRequest | src/app/modules/chat/chat.service.ts:46-53 | Two requests with the same ids and length, in any order, find the same conversation. |
| MessageOrder.SortByCreatedAt | src/app/modules/chat/chat.service.ts:101-108 | The result is a permutation of the input, sorted non-decreasingly by `createdAt`. |
| ChatService.HttpStatus | src/app/modules/chat/chat.service.ts:26-82 | The missing-users error carries NOT_FOUND (404). The `sendMessage` validation error carries OK (200). The errors raised as a plain `Error` carry no status. |
| ChatProperties.CreateConversationNotFound | src/app/modules/chat/chat.service.ts:14-30 | With unique user ids and at least two requested ids, creation fails if and only if some id is unknown or some id is repeated. |
| ChatProperties.CreateConversationReturnsFirstMatch | src/app/modules/chat/chat.service.ts:46-58 | For a request that passes validation, when conversation `k` is the first match in store order, creation succeeds, returns conversation `k` and writes nothing. |
| ChatProperties.CreateConversationPreservesValid | src/app/modules/chat/chat.service.ts:32-71 | A successful creation on a valid store, with a fresh conversation id, leaves a valid store. In particular, no two conversations have the same participant set. |
| ChatProperties.AppendNewConversationPreservesValid | src/app/modules/chat/chat.service.ts:60-69 | Appending a conversation for a request that passed validation and matched no stored conversation keeps a valid store valid. |
| ChatProperties.OneConversationPerParticipantSet | src/app/modules/chat/chat.service.ts:46-71 | After a creation on a valid store for a request that passes validation, the returned conversation is stored, and it is the only stored conversation with the requested participant set. |
| ChatProperties.RepeatedIdsReportNothingMissing | src/app/modules/chat/chat.service.ts:21-30 | With unique user ids, a request whose ids all exist but repeat one fails with NOT_FOUND and an empty missing list. |
| ChatProperties.RepeatReturnsSameConversation | src/app/modules/chat/chat.service.ts:46-71 | A request that passes validation succeeds. Repeating it with any permutation of the ids returns the same conversation and writes nothing. |
| ChatProperties.CreatedConversationListedForEachParticipant | src/app/modules/chat/chat.service.ts:113-132 | After a creation for a request that passes validation, listing the conversations of any requested (non-empty) user id succeeds and includes the returned conversation. |
| ChatProperties.SentMessageIsListed | src/app/modules/chat/chat.service.ts:84-108 | After a send, the conversation's history gains exactly the sent message. |
| ChatProperties.SendMessageLeavesOtherHistories | src/app/modules/chat/chat.service.ts:84-108 | A send leaves the history of every other conversation unchanged. |
| ChatProperties.UnreferencedConversationHasNoMessages | src/app/modules/chat/chat.service.ts:96-110 | A non-empty id that no message refers to yields an empty history, not an error. |
| ChatExamples.FirstRequestCreates | src/app/modules/chat/chat.service.ts:60-71 | The first request for {u1, u2} creates conversation `(c1, [u1, u2])`. |
| ChatExamples.SwappedRequestReuses | src/app/modules/chat/chat.service.ts:46-58 | Asking again with [u2, u1] returns the same conversation and store. |
| ChatExamples.HistoryInSendingOrder | src/app/modules/chat/chat.service.ts:84-108 | Sending "hi" at time 1 and then "yo" at time 2 lists them in that order. |
| ChatExamples.TooFewIdsRejected | src/app/modules/chat/chat.service.ts:8-12 | A single id, or no array at all, is rejected with TooFewUsers. |
| ChatExamples.UnknownIdRejected | src/app/modules/chat/chat.service.ts:21-30 | A request for [u1, u3] is rejected with NOT_FOUND naming u3. |
| ChatExamples.RepeatedIdRejected | src/app/modules/chat/chat.service.ts:21-30 | A request for [u1, u1] is rejected with NOT_FOUND, with nothing reported missing. |

## Left out

- Database access: query translation, connection handling, and database-assigned ids and timestamps. New rows take their id and `createdAt` as parameters. The order in which a query without `orderBy` returns rows is modelled as store order.
- Concurrent requests: the source has no uniqueness constraint, lock or retry, so only sequential calls are modelled.
- Error construction: error messages and the `ApiError` class are not modelled. An error is a `ChatError` kind, and `HttpStatus` gives the status it carries (404, 200, or none for a plain `Error`).
- Payload typing: `userIds` is an optional sequence of string ids, and the `sendMessage` fields are optional strings. JavaScript truthiness of non-string values, such as numbers or objects, is not modelled.
- ChatService.CreateConversation: the source returns a newly created row without its participant list, and with a database-assigned `createdAt`. The model returns the stored record, which includes the participants. Conversation timestamps are not modelled.
- ChatService.GetMessagesInConversation: the relative order of messages with equal `createdAt` is not stated, because the query leaves it undefined. Only sortedness and the permutation are stated.
- `src/app/modules/User/user.controller.ts` and `src/app/modules/User/user.route.ts`: Express request and response glue over a user service that is not part of this model.
