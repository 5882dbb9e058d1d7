/** The persistent state the chat service reads and writes: the user,
    conversation (with its participant rows) and message tables, held as an
    immutable value. */
module ChatStore {
  import opened Seqs

  type UserId = string
  type ConversationId = string
  type MessageId = string

  /** A user row; the chat core only ever looks at its id. */
  datatype User = User(id: UserId)

  /** A conversation row together with the `userId`s of its participant rows,
      in the order the rows were created. */
  datatype Conversation = Conversation(id: ConversationId, participants: seq<UserId>)

  /** A message row; `createdAt` is the timestamp the database assigns. */
  datatype Message = Message(
    id: MessageId,
    conversationId: ConversationId,
    senderId: UserId,
    content: string,
    createdAt: int)

  datatype Store = Store(users: seq<User>, conversations: seq<Conversation>, messages: seq<Message>)

  /** Ids of all stored users. */
  function UserIdSet(users: seq<User>): (ids: set<UserId>)
    ensures forall i :: 0 <= i < |users| ==> users[i].id in ids
  {
    set u | u in users :: u.id
  }

  /** The user table's primary key. */
  predicate UniqueUserIds(users: seq<User>)
  {
    forall i, j :: 0 <= i < j < |users| ==> users[i].id != users[j].id
  }

  /** The conversation table's primary key. */
  predicate UniqueConversationIds(cs: seq<Conversation>)
  {
    forall i, j :: 0 <= i < j < |cs| ==> cs[i].id != cs[j].id
  }

  /** A conversation as `createConversation` leaves it: at least two
      participants, none twice, all of them existing users. */
  predicate WellFormedConversation(c: Conversation, users: seq<User>)
  {
    && |c.participants| >= 2
    && Distinct(c.participants)
    && Elems(c.participants) <= UserIdSet(users)
  }

  /** No two stored conversations have the same set of participants. */
  predicate DistinctParticipantSets(cs: seq<Conversation>)
  {
    forall i, j :: 0 <= i < j < |cs| ==> Elems(cs[i].participants) != Elems(cs[j].participants)
  }

  /** The invariant that a store built only through the chat service keeps. */
  predicate Valid(st: Store)
  {
    && UniqueUserIds(st.users)
    && UniqueConversationIds(st.conversations)
    && (forall c :: c in st.conversations ==> WellFormedConversation(c, st.users))
    && DistinctParticipantSets(st.conversations)
  }
}
