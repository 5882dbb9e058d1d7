/** The existence check `createConversation` runs on the requested user ids
    before it looks at conversations. */
module ParticipantCheck {
  import opened Wrappers
  import opened Seqs
  import opened ChatStore

  /** Selector of the user query: the row's id is one of the requested ids. */
  function IdIn(ids: seq<UserId>): (keep: User -> bool)
    ensures forall u :: keep(u) == (u.id in ids)
  {
    (u: User) => u.id in ids
  }

  /** Selector of the missing-id report: the id is not among `existing`. */
  function NotIn(existing: seq<UserId>): (keep: UserId -> bool)
    ensures forall x :: keep(x) == (x !in existing)
  {
    (x: UserId) => x !in existing
  }

  /** Selector of requested ids that name no stored user. */
  function Unknown(users: seq<User>): (keep: UserId -> bool)
    ensures forall x :: keep(x) == (x !in UserIdSet(users))
  {
    (x: UserId) => x !in UserIdSet(users)
  }

  /** The ids of `users`, in order. */
  function IdsOf(users: seq<User>): (r: seq<UserId>)
    ensures |r| == |users|
    ensures forall i :: 0 <= i < |users| ==> r[i] == users[i].id
  {
    seq(|users|, i requires 0 <= i < |users| => users[i].id)
  }

  /** The user rows whose id was requested, as the batch lookup returns them. */
  function FoundUsers(users: seq<User>, ids: seq<UserId>): (found: seq<User>)
    ensures forall u :: u in found <==> u in users && u.id in ids
  {
    Filter(users, IdIn(ids))
  }

  /** An id belongs to a found row exactly when it was requested and names a stored user. */
  lemma FoundIds(users: seq<User>, ids: seq<UserId>)
    ensures forall x :: x in IdsOf(FoundUsers(users, ids)) <==> x in ids && x in UserIdSet(users)
  {
    var found := FoundUsers(users, ids);
    var fids := IdsOf(found);
    forall x
      ensures x in fids <==> x in ids && x in UserIdSet(users)
    {
      if x in fids {
        var k :| 0 <= k < |fids| && fids[k] == x;
        assert found[k] in found;
      }
      if x in ids && x in UserIdSet(users) {
        var u :| u in users && u.id == x;
        assert u in found;
        var k :| 0 <= k < |found| && found[k] == u;
        assert fids[k] == x;
      }
    }
  }

  /** Returns `None` when the check passes and `Some(missing)` when it fails,
      `missing` being the requested ids that no found row carries, in request
      order. The check compares counts only: a repeated id fails it even when
      every id names a user, and then nothing is reported missing. */
  function ExistenceCheck(users: seq<User>, ids: seq<UserId>): (r: Option<seq<UserId>>)
    ensures r.Some? ==> forall x :: x in r.value <==> x in ids && x !in UserIdSet(users)
    ensures r.Some? ==> r.value == Filter(ids, Unknown(users))
  {
    var found := FoundUsers(users, ids);
    if |found| != |ids| then
      FoundIds(users, ids);
      FilterCongruence(ids, NotIn(IdsOf(found)), Unknown(users));
      Some(Filter(ids, NotIn(IdsOf(found))))
    else
      None
  }

  /** The first user's id is not the id of any later user. */
  lemma HeadIdNotInRest(users: seq<User>)
    requires users != [] && UniqueUserIds(users)
    ensures UniqueUserIds(users[1..])
    ensures users[0].id !in UserIdSet(users[1..])
  {
    var rest := users[1..];
    forall i, j | 0 <= i < j < |rest|
      ensures rest[i].id != rest[j].id
    {
      assert rest[i] == users[i + 1] && rest[j] == users[j + 1];
    }
  }

  /** The ids of a non-empty user table: the first row's and the rest's. */
  lemma UserIdSetCons(users: seq<User>)
    requires users != []
    ensures UserIdSet(users) == {users[0].id} + UserIdSet(users[1..])
  {
    assert users == [users[0]] + users[1..];
  }

  /** Dropping the first user row removes its id from the requested ids that
      name a stored user, and from nothing else. */
  lemma RequestedIdsStep(users: seq<User>, ids: seq<UserId>)
    requires users != [] && UniqueUserIds(users)
    ensures |UserIdSet(users) * Elems(ids)|
            == |UserIdSet(users[1..]) * Elems(ids)| + (if users[0].id in ids then 1 else 0)
  {
    var before := UserIdSet(users[1..]) * Elems(ids);
    var after := UserIdSet(users) * Elems(ids);
    HeadIdNotInRest(users);
    UserIdSetCons(users);
    if users[0].id in ids {
      assert after == before + {users[0].id};
    } else {
      assert after == before;
    }
  }

  /** Dropping the first user row drops it from the found rows when it was requested. */
  lemma FoundStep(users: seq<User>, ids: seq<UserId>)
    requires users != []
    ensures |FoundUsers(users, ids)|
            == |FoundUsers(users[1..], ids)| + (if users[0].id in ids then 1 else 0)
  {
    FilterCons(users, IdIn(ids));
  }

  /** With unique user ids, the number of found rows is the number of distinct
      requested ids that name a stored user. */
  lemma {:induction false} FoundCount(users: seq<User>, ids: seq<UserId>)
    requires UniqueUserIds(users)
    ensures |FoundUsers(users, ids)| == |UserIdSet(users) * Elems(ids)|
  {
    if users != [] {
      HeadIdNotInRest(users);
      FoundCount(users[1..], ids);
      RequestedIdsStep(users, ids);
      FoundStep(users, ids);
    }
  }

  /** With unique user ids, the check passes exactly when the requested ids are
      pairwise distinct and every one of them names a stored user. */
  lemma ExistenceCheckExact(users: seq<User>, ids: seq<UserId>)
    requires UniqueUserIds(users)
    ensures ExistenceCheck(users, ids).None? <==> Distinct(ids) && Elems(ids) <= UserIdSet(users)
  {
    FoundCount(users, ids);
    CardElems(ids);
    var both := UserIdSet(users) * Elems(ids);
    SubsetCard(both, Elems(ids));
    assert ExistenceCheck(users, ids).None? <==> |both| == |ids|;
    assert both == Elems(ids) <==> Elems(ids) <= UserIdSet(users);
  }
}
