/** Worked examples of the chat service, proved on a two-user store. */
module ChatExamples {
  import opened Wrappers
  import opened Seqs
  import opened ChatStore
  import opened ParticipantCheck
  import opened Matcher
  import opened MessageOrder
  import opened ChatService
  import opened ChatProperties

  const Alice: UserId := "u1"
  const Bob: UserId := "u2"
  const Carol: UserId := "u3"

  /** Two registered users and nothing else. */
  function TwoUsers(): Store
  {
    Store([User(Alice), User(Bob)], [], [])
  }

  /** The first request for a pair creates their conversation. */
  lemma FirstRequestCreates()
    ensures CreateConversation(TwoUsers(), Some([Alice, Bob]), "c1")
            == Success(Reply(Conversation("c1", [Alice, Bob]), TwoUsers().(conversations := [Conversation("c1", [Alice, Bob])])))
  {
    var st := TwoUsers();
    assert Alice != Bob by {
      assert Alice[1] != Bob[1];
    }
    assert UniqueUserIds(st.users);
    assert Distinct([Alice, Bob]);
    assert UserIdSet(st.users) == {Alice, Bob};
    assert Elems([Alice, Bob]) == {Alice, Bob};
    CreateConversationNotFound(st, [Alice, Bob], "c1");
    var r := CreateConversation(st, Some([Alice, Bob]), "c1");
    assert r.Success?;
    assert forall c :: c in st.conversations ==> !IsMatch(c, [Alice, Bob]);
    assert r.value.item == Conversation("c1", [Alice, Bob]);
    assert r.value.store.conversations == [] + [r.value.item];
    assert r.value.store == Store(st.users, [r.value.item], st.messages);
  }

  /** The same pair in the other order gets the same conversation back. */
  lemma SwappedRequestReuses()
    ensures var r1 := CreateConversation(TwoUsers(), Some([Alice, Bob]), "c1");
            CreateConversation(r1.value.store, Some([Bob, Alice]), "c2") == r1
  {
    FirstRequestCreates();
    assert multiset([Bob, Alice]) == multiset([Alice, Bob]);
    RepeatReturnsSameConversation(TwoUsers(), [Alice, Bob], [Bob, Alice], "c1", "c2");
  }

  const Hi := Message("m1", "c1", Alice, "hi", 1)
  const Yo := Message("m2", "c1", Bob, "yo", 2)

  /** The history of "c1" when it holds exactly those two messages. */
  lemma HistoryOfTwo(st: Store)
    requires st.messages == [Hi, Yo]
    ensures GetMessagesInConversation(st, "c1") == Success([Hi, Yo])
  {
    var keep := InConversation("c1");
    assert Filter([Hi, Yo], keep) == [Hi, Yo] by {
      FilterCons([Hi, Yo], keep);
      FilterCons([Yo], keep);
      assert [Hi, Yo][1..] == [Yo];
    }
    assert SortByCreatedAt([Hi, Yo]) == [Hi, Yo] by {
      assert [Hi, Yo][1..] == [Yo];
      assert SortByCreatedAt([Yo]) == [Yo];
      assert Insert(Hi, [Yo]) == [Hi, Yo];
    }
  }

  /** Two messages sent one after the other are listed in the order sent. */
  lemma HistoryInSendingOrder(st: Store)
    requires st.messages == []
    ensures var s1 := SendMessage(st, Some("c1"), Some(Alice), Some("hi"), "m1", 1);
            var s2 := SendMessage(s1.value.store, Some("c1"), Some(Bob), Some("yo"), "m2", 2);
            GetMessagesInConversation(s2.value.store, "c1") == Success([Hi, Yo])
  {
    var s1 := SendMessage(st, Some("c1"), Some(Alice), Some("hi"), "m1", 1);
    assert s1.value.store.messages == [Hi] by {
      assert [] + [Hi] == [Hi];
    }
    var s2 := SendMessage(s1.value.store, Some("c1"), Some(Bob), Some("yo"), "m2", 2);
    assert s2.value.store.messages == [Hi, Yo] by {
      assert [Hi] + [Yo] == [Hi, Yo];
    }
    HistoryOfTwo(s2.value.store);
  }

  /** A single id, or no array at all, is rejected before any lookup. */
  lemma TooFewIdsRejected()
    ensures CreateConversation(TwoUsers(), Some([Alice]), "c1") == Failure(TooFewUsers)
    ensures CreateConversation(TwoUsers(), None, "c1") == Failure(TooFewUsers)
  {
  }

  /** An unknown id is rejected and reported. */
  lemma UnknownIdRejected()
    ensures CreateConversation(TwoUsers(), Some([Alice, Carol]), "c1") == Failure(UsersNotFound([Carol]))
  {
    var st := TwoUsers();
    assert UserIdSet(st.users) == {Alice, Bob};
    assert Carol !in UserIdSet(st.users) by {
      assert Carol[1] != Alice[1] && Carol[1] != Bob[1];
    }
    assert CreateConversation(st, Some([Alice, Carol]), "c1").Failure? by {
      assert UniqueUserIds(st.users) by {
        assert Alice[1] != Bob[1];
      }
      assert !(Elems([Alice, Carol]) <= UserIdSet(st.users));
      CreateConversationNotFound(st, [Alice, Carol], "c1");
    }
    assert Filter([Alice, Carol], Unknown(st.users)) == [Carol] by {
      assert Alice in UserIdSet(st.users);
      FilterCons([Alice, Carol], Unknown(st.users));
      FilterCons([Carol], Unknown(st.users));
      assert [Alice, Carol][1..] == [Carol];
    }
  }

  /** A repeated id is rejected although both ids exist, and nothing is reported missing. */
  lemma RepeatedIdRejected()
    ensures CreateConversation(TwoUsers(), Some([Alice, Alice]), "c1") == Failure(UsersNotFound([]))
  {
    var st := TwoUsers();
    assert UniqueUserIds(st.users) by {
      assert Alice[1] != Bob[1];
    }
    assert Elems([Alice, Alice]) <= UserIdSet(st.users) by {
      assert UserIdSet(st.users) == {Alice, Bob};
    }
    assert !Distinct([Alice, Alice]) by {
      assert [Alice, Alice][0] == [Alice, Alice][1];
    }
    RepeatedIdsReportNothingMissing(st, [Alice, Alice], "c1");
  }
}
