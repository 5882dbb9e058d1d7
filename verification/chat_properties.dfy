/** Properties that relate several calls of the chat service, or a call and
    the store invariant. */
module ChatProperties {
  import opened Wrappers
  import opened Seqs
  import opened ChatStore
  import opened ParticipantCheck
  import opened Matcher
  import opened MessageOrder
  import opened ChatService

  /** With unique user ids and at least two requested ids, creation fails
      exactly when some id is unknown or some id is repeated. */
  lemma CreateConversationNotFound(st: Store, ids: seq<UserId>, freshId: ConversationId)
    requires UniqueUserIds(st.users)
    requires |ids| >= 2
    ensures CreateConversation(st, Some(ids), freshId).Failure? <==>
              !(Distinct(ids) && Elems(ids) <= UserIdSet(st.users))
  {
    ExistenceCheckExact(st.users, ids);
  }

  /** A request whose ids all exist but repeat one fails with NOT_FOUND and
      reports no missing id. */
  lemma RepeatedIdsReportNothingMissing(st: Store, ids: seq<UserId>, freshId: ConversationId)
    requires UniqueUserIds(st.users)
    requires |ids| >= 2 && Elems(ids) <= UserIdSet(st.users)
    requires !Distinct(ids)
    ensures CreateConversation(st, Some(ids), freshId) == Failure(UsersNotFound([]))
  {
    var check := ExistenceCheck(st.users, ids);
    assert check.Some? by {
      ExistenceCheckExact(st.users, ids);
    }
    assert check.value == [] by {
      assert forall x :: x in check.value ==> x in UserIdSet(st.users) && x !in UserIdSet(st.users);
    }
  }

  /** When conversation `k` is the first match in store order, a request that
      passes validation returns it and writes nothing. */
  lemma CreateConversationReturnsFirstMatch(st: Store, ids: seq<UserId>, freshId: ConversationId, k: nat)
    requires |ids| >= 2 && ExistenceCheck(st.users, ids).None?
    requires k < |st.conversations| && IsMatch(st.conversations[k], ids)
    requires forall j :: 0 <= j < k ==> !IsMatch(st.conversations[j], ids)
    ensures CreateConversation(st, Some(ids), freshId) == Success(Reply(st.conversations[k], st))
  {
    var cs := st.conversations;
    var f := FirstMatch(cs, ids);
    assert f.Some? by {
      assert cs[k] in cs;
    }
    var k' :| 0 <= k' < |cs| && cs[k'] == f.value && IsMatch(cs[k'], ids)
              && forall j :: 0 <= j < k' ==> !IsMatch(cs[j], ids);
    assert k' == k;
  }

  /** Appending a conversation for a request that passed validation and
      matched nothing keeps a valid store valid. */
  lemma AppendNewConversationPreservesValid(st: Store, ids: seq<UserId>, freshId: ConversationId)
    requires Valid(st)
    requires forall c :: c in st.conversations ==> c.id != freshId
    requires |ids| >= 2 && Distinct(ids) && Elems(ids) <= UserIdSet(st.users)
    requires forall c :: c in st.conversations ==> !IsMatch(c, ids)
    ensures Valid(st.(conversations := st.conversations + [Conversation(freshId, ids)]))
  {
    var c := Conversation(freshId, ids);
    var cs := st.conversations;
    var cs' := cs + [c];
    assert WellFormedConversation(c, st.users);
    forall i, j | 0 <= i < j < |cs'|
      ensures cs'[i].id != cs'[j].id
      ensures Elems(cs'[i].participants) != Elems(cs'[j].participants)
    {
      assert cs'[i] == cs[i] && cs[i] in cs;
      if j == |cs| {
        assert cs'[j] == c;
        MatchIsSetEquality(cs[i], ids);
      } else {
        assert cs'[j] == cs[j];
      }
    }
    forall d | d in cs'
      ensures WellFormedConversation(d, st.users)
    {
      if d != c {
        assert d in cs;
      }
    }
  }

  /** Creation, run on a valid store with a fresh conversation id, leaves a
      valid store: in particular no two conversations end up with the same
      participant set. */
  lemma CreateConversationPreservesValid(
    st: Store, userIds: Option<seq<UserId>>, freshId: ConversationId, rep: Reply<Conversation>)
    requires Valid(st)
    requires forall c :: c in st.conversations ==> c.id != freshId
    requires CreateConversation(st, userIds, freshId) == Success(rep)
    ensures Valid(rep.store)
  {
    if FirstMatch(st.conversations, userIds.value).None? {
      CreateConversationNotFound(st, userIds.value, freshId);
      AppendNewConversationPreservesValid(st, userIds.value, freshId);
    }
  }

  /** After a successful creation from a valid store, exactly one stored
      conversation has the requested participant set, and it is the one
      returned. */
  lemma OneConversationPerParticipantSet(st: Store, ids: seq<UserId>, freshId: ConversationId)
    requires Valid(st)
    requires forall c :: c in st.conversations ==> c.id != freshId
    requires |ids| >= 2 && ExistenceCheck(st.users, ids).None?
    ensures var rep := CreateConversation(st, Some(ids), freshId).value;
            && rep.item in rep.store.conversations
            && forall c :: c in rep.store.conversations && Elems(c.participants) == Elems(ids) ==> c == rep.item
  {
    var rep := CreateConversation(st, Some(ids), freshId).value;
    CreateConversationPreservesValid(st, Some(ids), freshId, rep);
    MatchIsSetEquality(rep.item, ids);
    var cs := rep.store.conversations;
    assert rep.item in cs by {
      if FirstMatch(st.conversations, ids).None? {
        assert cs[|cs| - 1] == rep.item;
      }
    }
    forall c | c in cs && Elems(c.participants) == Elems(ids)
      ensures c == rep.item
    {
      var i :| 0 <= i < |cs| && cs[i] == c;
      var j :| 0 <= j < |cs| && cs[j] == rep.item;
      if i != j {
        assert false;
      }
    }
  }

  /** A permutation of a request has the same ids and the same length. */
  lemma PermutationSameIds(ids: seq<UserId>, ids': seq<UserId>)
    requires multiset(ids') == multiset(ids)
    ensures |ids'| == |ids| && Elems(ids') == Elems(ids)
  {
    assert |multiset(ids')| == |multiset(ids)|;
    forall x
      ensures x in ids' <==> x in ids
    {
      assert x in ids' <==> x in multiset(ids');
      assert x in ids <==> x in multiset(ids);
    }
  }

  /** Repeating a creation that passed validation, with the same ids in the
      same or any other order, returns the same conversation and writes nothing. */
  lemma RepeatReturnsSameConversation(
    st: Store, ids: seq<UserId>, ids': seq<UserId>, freshId: ConversationId, freshId': ConversationId)
    requires |ids| >= 2 && ExistenceCheck(st.users, ids).None?
    requires multiset(ids') == multiset(ids)
    ensures var r := CreateConversation(st, Some(ids), freshId);
            && r.Success?
            && CreateConversation(r.value.store, Some(ids'), freshId') == r
  {
    var rep := CreateConversation(st, Some(ids), freshId).value;
    var st' := rep.store;
    PermutationSameIds(ids, ids');
    assert ExistenceCheck(st'.users, ids').None? by {
      FilterCongruence(st.users, IdIn(ids), IdIn(ids'));
    }
    assert FirstMatch(st'.conversations, ids') == Some(rep.item) by {
      FirstMatchSameRequest(st.conversations, ids, ids');
      if FirstMatch(st.conversations, ids).None? {
        var c := Conversation(freshId, ids);
        assert st'.conversations == st.conversations + [c];
        FirstMatchAppend(st.conversations, [c], ids');
        SameRequestSameMatch(c, ids, ids');
      }
    }
  }

  /** After a creation that passed validation, every requested user with a
      non-empty id finds the returned conversation among their conversations. */
  lemma CreatedConversationListedForEachParticipant(
    st: Store, ids: seq<UserId>, freshId: ConversationId, u: UserId)
    requires |ids| >= 2 && ExistenceCheck(st.users, ids).None?
    requires u in ids && u != ""
    ensures var rep := CreateConversation(st, Some(ids), freshId).value;
            var listed := GetAllConversations(rep.store, u);
            listed.Success? && rep.item in listed.value
  {
    var rep := CreateConversation(st, Some(ids), freshId).value;
    assert rep.item in rep.store.conversations by {
      if FirstMatch(st.conversations, ids).None? {
        var cs := rep.store.conversations;
        assert cs[|cs| - 1] == rep.item;
      }
    }
    assert u in rep.item.participants;
  }

  /** A sent message shows up once more in its conversation's history. */
  lemma SentMessageIsListed(
    st: Store, conversationId: string, senderId: string, content: string, freshId: MessageId, now: int)
    requires conversationId != "" && senderId != "" && content != ""
    ensures var rep := SendMessage(st, Some(conversationId), Some(senderId), Some(content), freshId, now).value;
            multiset(GetMessagesInConversation(rep.store, conversationId).value)
              == multiset(GetMessagesInConversation(st, conversationId).value) + multiset{rep.item}
  {
    var rep := SendMessage(st, Some(conversationId), Some(senderId), Some(content), freshId, now).value;
    var m := rep.item;
    var keep := InConversation(conversationId);
    FilterAppend(st.messages, [m], keep);
    assert Filter([m], keep) == [m] by {
      FilterCons([m], keep);
    }
  }

  /** Sending a message leaves the history of every other conversation as it was. */
  lemma SendMessageLeavesOtherHistories(
    st: Store, conversationId: string, senderId: string, content: string, freshId: MessageId, now: int,
    other: string)
    requires conversationId != "" && senderId != "" && content != ""
    requires other != "" && other != conversationId
    ensures var rep := SendMessage(st, Some(conversationId), Some(senderId), Some(content), freshId, now).value;
            multiset(GetMessagesInConversation(rep.store, other).value)
              == multiset(GetMessagesInConversation(st, other).value)
  {
    var rep := SendMessage(st, Some(conversationId), Some(senderId), Some(content), freshId, now).value;
    var m := rep.item;
    var keep := InConversation(other);
    FilterAppend(st.messages, [m], keep);
    assert Filter([m], keep) == [] by {
      FilterCons([m], keep);
    }
    assert st.messages + [m] == rep.store.messages;
  }

  /** A conversation id that no stored message refers to yields an empty
      history rather than an error. */
  lemma UnreferencedConversationHasNoMessages(st: Store, conversationId: string)
    requires conversationId != ""
    requires forall m :: m in st.messages ==> m.conversationId != conversationId
    ensures GetMessagesInConversation(st, conversationId) == Success([])
  {
  }
}
