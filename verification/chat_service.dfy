/** The chat service's four operations over an immutable store. Each returns
    either the error it raises or its result; the two writing operations also
    return the store they leave behind. Ids and timestamps the database would
    assign to a new row are parameters. */
module ChatService {
  import opened Wrappers
  import opened Seqs
  import opened ChatStore
  import opened ParticipantCheck
  import opened Matcher
  import opened MessageOrder

  /** What each operation can raise. */
  datatype ChatError =
    | TooFewUsers                          // plain Error: userIds is not an array of two or more
    | UsersNotFound(missing: seq<UserId>)  // ApiError NOT_FOUND, listing the ids reported missing
    | MessageFieldsRequired                // ApiError raised with status OK
    | ConversationIdRequired               // plain Error
    | UserIdRequired                       // plain Error

  /** The HTTP status an error carries; a plain Error carries none. */
  function HttpStatus(e: ChatError): (status: Option<nat>)
    ensures e.UsersNotFound? ==> status == Some(404)
    ensures e.MessageFieldsRequired? ==> status == Some(200)
    ensures e.TooFewUsers? || e.ConversationIdRequired? || e.UserIdRequired? ==> status.None?
  {
    match e
    case UsersNotFound(_) => Some(404)
    case MessageFieldsRequired => Some(200)
    case _ => None
  }

  /** A result together with the store after the operation. */
  datatype Reply<T> = Reply(item: T, store: Store)

  /** A request field JavaScript treats as truthy: present and not the empty string. */
  predicate Provided(f: Option<string>)
  {
    f.Some? && f.value != ""
  }

  /** `createConversation`: rejects a missing or too short `userIds`, then
      rejects unknown (or repeated) ids, then returns the first stored
      conversation with exactly those participants, or else appends a new one
      with participant rows for `userIds` in request order. */
  function CreateConversation(st: Store, userIds: Option<seq<UserId>>, freshId: ConversationId)
    : (r: Result<Reply<Conversation>, ChatError>)
    ensures r == Failure(TooFewUsers) <==> userIds.None? || |userIds.value| < 2
    ensures r.Failure? ==> r.error.TooFewUsers? || r.error.UsersNotFound?
    ensures r.Failure? && r.error.UsersNotFound? ==>
              r.error.missing == Filter(userIds.value, Unknown(st.users))
    ensures r.Success? ==>
              && r.value.store.users == st.users
              && r.value.store.messages == st.messages
              && IsMatch(r.value.item, userIds.value)
    ensures r.Success? ==>
              r.value == if FirstMatch(st.conversations, userIds.value).Some?
                         then Reply(FirstMatch(st.conversations, userIds.value).value, st)
                         else Reply(Conversation(freshId, userIds.value),
                                    st.(conversations := st.conversations + [Conversation(freshId, userIds.value)]))
  {
    if userIds.None? || |userIds.value| < 2 then Failure(TooFewUsers)
    else
      var ids := userIds.value;
      match ExistenceCheck(st.users, ids)
      case Some(missing) => Failure(UsersNotFound(missing))
      case None =>
        FindMatchIsFirstMatch(st.conversations, ids);
        match FindMatch(st.conversations, ids)
        case Some(c) => Success(Reply(c, st))
        case None =>
          var c := Conversation(freshId, ids);
          Success(Reply(c, st.(conversations := st.conversations + [c])))
  }

  /** `sendMessage`: rejects the request unless all three fields are provided,
      then appends one message. Whether the conversation exists, or the sender
      belongs to it, is not checked. */
  function SendMessage(
    st: Store,
    conversationId: Option<string>,
    senderId: Option<string>,
    content: Option<string>,
    freshId: MessageId,
    now: int)
    : (r: Result<Reply<Message>, ChatError>)
    ensures r.Success? <==> Provided(conversationId) && Provided(senderId) && Provided(content)
    ensures r.Failure? ==> r.error == MessageFieldsRequired && HttpStatus(r.error) == Some(200)
    ensures r.Success? ==>
              && r.value.item.id == freshId
              && r.value.item.conversationId == conversationId.value
              && r.value.item.senderId == senderId.value
              && r.value.item.content == content.value
              && r.value.item.createdAt == now
              && r.value.store.users == st.users
              && r.value.store.conversations == st.conversations
              && r.value.store.messages == st.messages + [r.value.item]
  {
    if !Provided(conversationId) || !Provided(senderId) || !Provided(content) then
      Failure(MessageFieldsRequired)
    else
      var m := Message(freshId, conversationId.value, senderId.value, content.value, now);
      Success(Reply(m, st.(messages := st.messages + [m])))
  }

  /** Selector of the message query. */
  function InConversation(conversationId: ConversationId): (keep: Message -> bool)
    ensures forall m :: keep(m) == (m.conversationId == conversationId)
  {
    (m: Message) => m.conversationId == conversationId
  }

  /** `getMessagesInConversation`: rejects an empty id; otherwise every message
      of that conversation, each as often as it is stored, ordered by creation
      time. An id no message refers to yields an empty sequence. */
  function GetMessagesInConversation(st: Store, conversationId: string): (r: Result<seq<Message>, ChatError>)
    ensures r.Failure? <==> conversationId == ""
    ensures r.Failure? ==> r.error == ConversationIdRequired
    ensures r.Success? ==> SortedByCreatedAt(r.value)
    ensures r.Success? ==>
              forall m :: multiset(r.value)[m] == if m.conversationId == conversationId then multiset(st.messages)[m] else 0
  {
    if conversationId == "" then Failure(ConversationIdRequired)
    else Success(SortByCreatedAt(Filter(st.messages, InConversation(conversationId))))
  }

  /** Selector of the conversation query: some participant row has this user id. */
  function HasParticipant(userId: UserId): (keep: Conversation -> bool)
    ensures forall c :: keep(c) == (userId in c.participants)
  {
    (c: Conversation) => userId in c.participants
  }

  /** `getAllConversations`: rejects an empty id; otherwise the stored
      conversations the user takes part in, in store order, each with its
      participant list. */
  function GetAllConversations(st: Store, userId: string): (r: Result<seq<Conversation>, ChatError>)
    ensures r.Failure? <==> userId == ""
    ensures r.Failure? ==> r.error == UserIdRequired
    ensures r.Success? ==> forall c :: c in r.value <==> c in st.conversations && userId in c.participants
    ensures r.Success? ==>
              forall c :: multiset(r.value)[c] == if userId in c.participants then multiset(st.conversations)[c] else 0
  {
    if userId == "" then Failure(UserIdRequired)
    else Success(Filter(st.conversations, HasParticipant(userId)))
  }
}
