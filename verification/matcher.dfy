/** Finding a stored conversation whose participants are exactly the
    requested users: a database prefilter followed by an in-memory exact
    comparison. */
module Matcher {
  import opened Wrappers
  import opened Seqs
  import opened ChatStore

  /** The prefilter: every participant of `c` is one of the requested ids
      (vacuously true for a conversation without participants). */
  predicate ParticipantsWithin(c: Conversation, ids: seq<UserId>)
  {
    forall p :: p in c.participants ==> p in ids
  }

  /** The prefilter as a selector over conversations. */
  function Prefilter(ids: seq<UserId>): (keep: Conversation -> bool)
    ensures forall c :: keep(c) == ParticipantsWithin(c, ids)
  {
    (c: Conversation) => ParticipantsWithin(c, ids)
  }

  /** The exact comparison: as many participants as requested ids, and every
      requested id among the participants. */
  predicate SameSizeCoversRequest(c: Conversation, ids: seq<UserId>)
  {
    && |c.participants| == |ids|
    && forall id :: id in ids ==> id in c.participants
  }

  /** What the prefilter and the exact comparison accept together. */
  predicate IsMatch(c: Conversation, ids: seq<UserId>)
  {
    ParticipantsWithin(c, ids) && SameSizeCoversRequest(c, ids)
  }

  /** The first candidate that passes the exact comparison, if any. */
  function Find(cands: seq<Conversation>, ids: seq<UserId>): (r: Option<Conversation>)
    ensures r.Some? ==> r.value in cands && SameSizeCoversRequest(r.value, ids)
    ensures r.None? <==> forall c :: c in cands ==> !SameSizeCoversRequest(c, ids)
    ensures r.Some? ==> exists k :: 0 <= k < |cands| && cands[k] == r.value
                                    && forall j :: 0 <= j < k ==> !SameSizeCoversRequest(cands[j], ids)
  {
    if cands == [] then None
    else if SameSizeCoversRequest(cands[0], ids) then Some(cands[0])
    else
      var r := Find(cands[1..], ids);
      assert cands == [cands[0]] + cands[1..];
      if r.Some? then FirstPassingShift(cands, ids, r.value); r else r
  }

  /** A first passing candidate of the tail is a first passing candidate of
      the whole sequence when the head does not pass. */
  lemma FirstPassingShift(cands: seq<Conversation>, ids: seq<UserId>, v: Conversation)
    requires cands != [] && !SameSizeCoversRequest(cands[0], ids)
    requires exists k :: 0 <= k < |cands[1..]| && cands[1..][k] == v
                         && forall j :: 0 <= j < k ==> !SameSizeCoversRequest(cands[1..][j], ids)
    ensures exists k :: 0 <= k < |cands| && cands[k] == v
                        && forall j :: 0 <= j < k ==> !SameSizeCoversRequest(cands[j], ids)
  {
    var k :| 0 <= k < |cands[1..]| && cands[1..][k] == v
             && forall j :: 0 <= j < k ==> !SameSizeCoversRequest(cands[1..][j], ids);
    assert cands[k + 1] == v;
    assert forall j :: 1 <= j < k + 1 ==> cands[j] == cands[1..][j - 1];
  }

  /** The matcher as the service runs it: prefilter in store order, then find. */
  function FindMatch(cs: seq<Conversation>, ids: seq<UserId>): (r: Option<Conversation>)
    ensures r.Some? ==> r.value in cs && IsMatch(r.value, ids)
    ensures r.None? <==> forall c :: c in cs ==> !IsMatch(c, ids)
  {
    Find(Filter(cs, Prefilter(ids)), ids)
  }

  /** Reference definition: the first stored conversation, in store order,
      that passes both conditions. */
  function FirstMatch(cs: seq<Conversation>, ids: seq<UserId>): (r: Option<Conversation>)
    ensures r.None? <==> forall c :: c in cs ==> !IsMatch(c, ids)
    ensures r.Some? ==> exists k :: 0 <= k < |cs| && cs[k] == r.value && IsMatch(cs[k], ids)
                                    && forall j :: 0 <= j < k ==> !IsMatch(cs[j], ids)
  {
    if cs == [] then None
    else if IsMatch(cs[0], ids) then Some(cs[0])
    else
      var r := FirstMatch(cs[1..], ids);
      assert cs == [cs[0]] + cs[1..];
      if r.Some? then FirstMatchShift(cs, ids, r.value); r else r
  }

  /** A first match of the tail is a first match of the whole sequence when
      the head does not match. */
  lemma FirstMatchShift(cs: seq<Conversation>, ids: seq<UserId>, v: Conversation)
    requires cs != [] && !IsMatch(cs[0], ids)
    requires exists k :: 0 <= k < |cs[1..]| && cs[1..][k] == v && IsMatch(cs[1..][k], ids)
                         && forall j :: 0 <= j < k ==> !IsMatch(cs[1..][j], ids)
    ensures exists k :: 0 <= k < |cs| && cs[k] == v && IsMatch(cs[k], ids)
                        && forall j :: 0 <= j < k ==> !IsMatch(cs[j], ids)
  {
    var k :| 0 <= k < |cs[1..]| && cs[1..][k] == v && IsMatch(cs[1..][k], ids)
             && forall j :: 0 <= j < k ==> !IsMatch(cs[1..][j], ids);
    assert cs[k + 1] == v;
    assert forall j :: 1 <= j < k + 1 ==> cs[j] == cs[1..][j - 1];
  }

  /** Prefiltering and then finding is the same as finding the first
      conversation that passes both conditions. */
  lemma {:induction false} FindMatchIsFirstMatch(cs: seq<Conversation>, ids: seq<UserId>)
    ensures FindMatch(cs, ids) == FirstMatch(cs, ids)
  {
    if cs != [] {
      FilterCons(cs, Prefilter(ids));
      FindMatchIsFirstMatch(cs[1..], ids);
      var rest := Filter(cs[1..], Prefilter(ids));
      if Prefilter(ids)(cs[0]) {
        assert ([cs[0]] + rest)[1..] == rest;
      }
    }
  }

  /** The first match in a concatenation comes from the front part when it has one. */
  lemma {:induction false} FirstMatchAppend(a: seq<Conversation>, b: seq<Conversation>, ids: seq<UserId>)
    ensures FirstMatch(a + b, ids) == if FirstMatch(a, ids).Some? then FirstMatch(a, ids) else FirstMatch(b, ids)
  {
    if a == [] {
      assert a + b == b;
    } else {
      assert (a + b)[0] == a[0];
      assert (a + b)[1..] == a[1..] + b;
      FirstMatchAppend(a[1..], b, ids);
    }
  }

  /** Matching depends on the request only through its set of ids and its length. */
  lemma SameRequestSameMatch(c: Conversation, ids: seq<UserId>, ids': seq<UserId>)
    requires Elems(ids) == Elems(ids') && |ids| == |ids'|
    ensures IsMatch(c, ids) <==> IsMatch(c, ids')
  {
    assert forall x :: x in ids <==> x in Elems(ids);
    assert forall x :: x in ids' <==> x in Elems(ids');
  }

  /** Two requests with the same ids and length find the same conversation. */
  lemma {:induction false} FirstMatchSameRequest(cs: seq<Conversation>, ids: seq<UserId>, ids': seq<UserId>)
    requires Elems(ids) == Elems(ids') && |ids| == |ids'|
    ensures FirstMatch(cs, ids) == FirstMatch(cs, ids')
  {
    if cs != [] {
      SameRequestSameMatch(cs[0], ids, ids');
      FirstMatchSameRequest(cs[1..], ids, ids');
    }
  }

  /** A match has exactly the requested set of participants, so a strictly
      smaller or larger group is never returned; conversely, when neither side
      repeats an id, equal sets are a match. */
  lemma MatchIsSetEquality(c: Conversation, ids: seq<UserId>)
    ensures IsMatch(c, ids) ==> Elems(c.participants) == Elems(ids)
    ensures Distinct(ids) && Distinct(c.participants) && Elems(c.participants) == Elems(ids) ==> IsMatch(c, ids)
  {
    CardElems(ids);
    CardElems(c.participants);
  }

  /** For a request without repeated ids the exact comparison alone already
      implies the prefilter, and the matched conversation repeats no participant. */
  lemma PrefilterImpliedByDistinctRequest(c: Conversation, ids: seq<UserId>)
    requires Distinct(ids)
    ensures SameSizeCoversRequest(c, ids) ==> ParticipantsWithin(c, ids) && Distinct(c.participants)
  {
    if SameSizeCoversRequest(c, ids) {
      CardElems(ids);
      CardElems(c.participants);
      assert Elems(ids) <= Elems(c.participants);
      SubsetCard(Elems(ids), Elems(c.participants));
      assert Elems(ids) == Elems(c.participants);
    }
  }
}
