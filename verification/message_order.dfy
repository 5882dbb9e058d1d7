/** Ordering of retrieved messages by their creation timestamp. The query
    sorts ascending on `createdAt` only; the relative order of messages with
    equal timestamps is not determined by it. */
module MessageOrder {
  import opened ChatStore

  /** Non-decreasing by `createdAt`. */
  predicate SortedByCreatedAt(ms: seq<Message>)
  {
    forall i, j :: 0 <= i < j < |ms| ==> ms[i].createdAt <= ms[j].createdAt
  }

  /** Every message in `ms` is created no earlier than `t`. */
  predicate CreatedFrom(t: int, ms: seq<Message>)
  {
    forall k :: 0 <= k < |ms| ==> t <= ms[k].createdAt
  }

  /** A rearrangement of messages created no earlier than `t` keeps that bound. */
  lemma CreatedFromPermutation(t: int, ms: seq<Message>, ms': seq<Message>)
    requires CreatedFrom(t, ms) && multiset(ms') == multiset(ms)
    ensures CreatedFrom(t, ms')
  {
    forall k | 0 <= k < |ms'|
      ensures t <= ms'[k].createdAt
    {
      assert ms'[k] in multiset(ms);
      var j :| 0 <= j < |ms| && ms[j] == ms'[k];
    }
  }

  /** Places `m` into a sorted sequence. */
  function Insert(m: Message, ms: seq<Message>): (r: seq<Message>)
    requires SortedByCreatedAt(ms)
    ensures SortedByCreatedAt(r)
    ensures multiset(r) == multiset(ms) + multiset{m}
  {
    if ms == [] || m.createdAt <= ms[0].createdAt then [m] + ms
    else
      var rest := Insert(m, ms[1..]);
      assert ms == [ms[0]] + ms[1..];
      assert CreatedFrom(ms[0].createdAt, ms[1..] + [m]);
      assert multiset(ms[1..] + [m]) == multiset(ms[1..]) + multiset{m};
      CreatedFromPermutation(ms[0].createdAt, ms[1..] + [m], rest);
      SortedCons(ms[0], rest);
      [ms[0]] + rest
  }

  /** A message created no later than every message of a sorted sequence can lead it. */
  lemma SortedCons(first: Message, rest: seq<Message>)
    requires SortedByCreatedAt(rest) && CreatedFrom(first.createdAt, rest)
    ensures SortedByCreatedAt([first] + rest)
  {
    var s := [first] + rest;
    forall i, j | 0 <= i < j < |s|
      ensures s[i].createdAt <= s[j].createdAt
    {
      assert s[j] == rest[j - 1];
      if i > 0 {
        assert s[i] == rest[i - 1];
      }
    }
  }

  /** Some ordering of `ms` that is non-decreasing by `createdAt`. */
  function SortByCreatedAt(ms: seq<Message>): (r: seq<Message>)
    ensures SortedByCreatedAt(r)
    ensures multiset(r) == multiset(ms)
  {
    if ms == [] then []
    else
      assert ms == [ms[0]] + ms[1..];
      Insert(ms[0], SortByCreatedAt(ms[1..]))
  }
}
