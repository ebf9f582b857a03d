/**
  Select cases of an event feed (`event/feed.go`) and the list operations on them.

  A case is a channel to send on. The number in it names the subscription that created it: the
  code never looks at it, and one channel may be subscribed several times.
 */
module FeedCases {
  import opened Common

  type Chan = nat

  /** The channel of case 0, on which a running Send is told about removals. */
  const REMOVE_SUB: Chan := 0

  datatype Case = Case(id: nat, chan: Chan)

  ghost predicate Distinct(cs: seq<Case>) {
    forall i, j :: 0 <= i < j < |cs| ==> cs[i] != cs[j]
  }

  /** How many cases there are on channel `ch`. */
  ghost function Count(cs: seq<Case>, ch: Chan): nat {
    if cs == [] then 0 else (if cs[0].chan == ch then 1 else 0) + Count(cs[1..], ch)
  }

  lemma {:induction false} CountConcat(a: seq<Case>, b: seq<Case>, ch: Chan)
    ensures Count(a + b, ch) == Count(a, ch) + Count(b, ch)
  {
    if a == [] {
      assert a + b == b;
    } else {
      CountConcat(a[1..], b, ch);
      assert (a + b)[1..] == a[1..] + b;
    }
  }

  lemma {:induction false} CountZero(cs: seq<Case>, ch: Chan)
    ensures Count(cs, ch) == 0 <==> forall i :: 0 <= i < |cs| ==> cs[i].chan != ch
  {
    if cs != [] {
      CountZero(cs[1..], ch);
      assert forall i :: 0 < i < |cs| ==> cs[i] == cs[1..][i-1];
      if Count(cs[1..], ch) != 0 {
        var i :| 0 <= i < |cs[1..]| && cs[1..][i].chan == ch;
        assert cs[i+1].chan == ch;
      }
    }
  }

  // ---------------------------------------------------------------- find, delete, deactivate

  /** The index of the first case on channel `ch`, or -1. */
  function Find(cs: seq<Case>, ch: Chan): (r: int)
    ensures -1 <= r < |cs|
    ensures r >= 0 ==> cs[r].chan == ch
    ensures forall i :: 0 <= i < (if r >= 0 then r else |cs|) ==> cs[i].chan != ch
  {
    if cs == [] then -1
    else if cs[0].chan == ch then 0
    else
      var r := Find(cs[1..], ch);
      assert r == -1 ==> forall i :: 0 < i < |cs| ==> cs[i] == cs[1..][i-1];
      assert r >= 0 ==> forall i :: 0 < i < r + 1 ==> cs[i] == cs[1..][i-1];
      if r == -1 then -1 else r + 1
  }

  function Delete(cs: seq<Case>, index: nat): seq<Case>
    requires index < |cs|
  {
    cs[..index] + cs[index+1..]
  }

  /** Moves the case at `index` behind the first `n - 1` cases. */
  function Deactivate(cs: seq<Case>, n: nat, index: nat): seq<Case>
    requires index < n <= |cs|
  {
    cs[index := cs[n-1]][n-1 := cs[index]]
  }

  lemma CountDelete(cs: seq<Case>, index: nat, ch: Chan)
    requires index < |cs|
    ensures Count(cs, ch) == Count(Delete(cs, index), ch) + (if cs[index].chan == ch then 1 else 0)
  {
    var a, m, b := cs[..index], [cs[index]], cs[index+1..];
    assert cs == a + (m + b);
    CountConcat(a, m + b, ch);
    CountConcat(m, b, ch);
    CountConcat(a, b, ch);
    assert m[1..] == [];
  }

  lemma CountDeactivate(cs: seq<Case>, n: nat, index: nat, ch: Chan)
    requires index < n <= |cs|
    ensures Count(Deactivate(cs, n, index), ch) == Count(cs, ch)
  {
    if index < n - 1 {
      var a, b, c := cs[..index], cs[index+1..n-1], cs[n..];
      var x, y := [cs[index]], [cs[n-1]];
      assert cs == a + (x + (b + (y + c)));
      assert Deactivate(cs, n, index) == a + (y + (b + (x + c)));
      CountPieces(a, x, b, y, c, ch);
      CountPieces(a, y, b, x, c, ch);
    } else {
      assert Deactivate(cs, n, index) == cs;
    }
  }

  lemma CountPieces(a: seq<Case>, b: seq<Case>, c: seq<Case>, d: seq<Case>, e: seq<Case>, ch: Chan)
    ensures Count(a + (b + (c + (d + e))), ch)
         == Count(a, ch) + Count(b, ch) + Count(c, ch) + Count(d, ch) + Count(e, ch)
  {
    CountConcat(a, b + (c + (d + e)), ch);
    CountConcat(b, c + (d + e), ch);
    CountConcat(c, d + e, ch);
    CountConcat(d, e, ch);
  }

  lemma DistinctDelete(cs: seq<Case>, index: nat)
    requires Distinct(cs) && index < |cs|
    ensures Distinct(Delete(cs, index))
    ensures cs[index] !in Delete(cs, index)
  {
  }

  /** Case 0 is the removal channel, the others are subscribers, and no two are the same. */
  ghost predicate WellFormed(cs: seq<Case>, nextId: nat) {
    && cs != [] && cs[0].chan == REMOVE_SUB
    && (forall i :: 1 <= i < |cs| ==> cs[i].chan != REMOVE_SUB)
    && (forall i :: 0 <= i < |cs| ==> cs[i].id < nextId)
    && Distinct(cs)
  }

  lemma WellFormedDelete(cs: seq<Case>, nextId: nat, index: nat)
    requires WellFormed(cs, nextId) && 1 <= index < |cs|
    ensures WellFormed(Delete(cs, index), nextId)
  {
    hide Distinct;
    DistinctDelete(cs, index);
    DeletePoints(cs, index);
  }

  lemma WellFormedDeactivate(cs: seq<Case>, nextId: nat, n: nat, index: nat)
    requires WellFormed(cs, nextId) && 1 <= index < n <= |cs|
    ensures WellFormed(Deactivate(cs, n, index), nextId)
  {
  }

  lemma WellFormedAppend(cs: seq<Case>, nextId: nat, chan: Chan)
    requires WellFormed(cs, nextId) && chan != REMOVE_SUB
    ensures WellFormed(cs + [Case(nextId, chan)], nextId + 1)
  {
  }

  // ---------------------------------------------------------------- requests to remove

  ghost function Chans(cs: seq<Case>): (r: seq<Chan>)
    ensures |r| == |cs|
  {
    seq(|cs|, i requires 0 <= i < |cs| => cs[i].chan)
  }

  lemma ChansAppend(cs: seq<Case>, c: Case, requests: seq<Chan>, taken: nat)
    requires taken < |requests| && Chans(cs) == requests[..taken] && c.chan == requests[taken]
    ensures Chans(cs + [c]) == requests[..taken+1]
  {
  }

  /** Every request to remove a subscriber has a case of its own. */
  ghost predicate Requestable(requests: seq<Chan>, cs: seq<Case>) {
    forall ch :: ch in requests ==> ch != REMOVE_SUB && multiset(requests)[ch] <= Count(cs, ch)
  }

  /** The case of the next request is found, and without it there is one for each of the others. */
  lemma RequestIsFound(requests: seq<Chan>, cs: seq<Case>)
    requires requests != [] && Requestable(requests, cs)
    ensures requests[0] != REMOVE_SUB && Find(cs, requests[0]) != -1
    ensures Requestable(requests[1..], Delete(cs, Find(cs, requests[0])))
  {
    hide Count, Delete;
    var ch := requests[0];
    assert requests == [ch] + requests[1..];
    assert multiset(requests) == multiset{ch} + multiset(requests[1..]);
    assert ch in requests;
    CountZero(cs, ch);
    var index := Find(cs, ch);
    forall c | c in requests[1..]
      ensures c != REMOVE_SUB && multiset(requests[1..])[c] <= Count(Delete(cs, index), c)
    {
      assert c in requests;
      CountDelete(cs, index, c);
    }
  }

  lemma RequestableDeactivate(requests: seq<Chan>, cs: seq<Case>, n: nat, index: nat)
    requires Requestable(requests, cs) && index < n <= |cs|
    ensures Requestable(requests, Deactivate(cs, n, index))
  {
    hide Count, Deactivate;
    forall ch | ch in requests
      ensures ch != REMOVE_SUB && multiset(requests)[ch] <= Count(Deactivate(cs, n, index), ch)
    {
      CountDeactivate(cs, n, index, ch);
    }
  }

  // ---------------------------------------------------------------- one round of sending

  /**
    The state of a Send: `cs` are the feed's cases, of which the first `active` are still to
    be served; `delivered` and `removed` record what has happened to the cases the round
    started with.
   */
  ghost predicate InRound(start: seq<Case>, cs: seq<Case>, active: nat, delivered: seq<Case>, removed: seq<Case>) {
    && 1 <= active <= |cs|
    && cs[0].chan == REMOVE_SUB
    && (forall i :: 1 <= i < |cs| ==> cs[i].chan != REMOVE_SUB)
    && Distinct(cs) && Distinct(delivered) && Distinct(removed)
    && (forall c :: c in start <==> c in cs[1..] || c in removed)
    && (forall c :: c in removed ==> c !in cs)
    && (forall i :: 1 <= i < active ==> cs[i] !in delivered)
    && (forall i :: active <= i < |cs| ==> cs[i] in delivered)
    && (forall c :: c in delivered ==> c in start)
  }

  lemma RoundStarts(cs: seq<Case>, nextId: nat)
    requires WellFormed(cs, nextId)
    ensures InRound(cs[1..], cs, |cs|, [], []) && Distinct(cs[1..])
  {
  }

  /** A send on an active case: it moves out of the active part. */
  lemma RoundDelivers(start: seq<Case>, cs: seq<Case>, active: nat,
                      delivered: seq<Case>, removed: seq<Case>, index: nat)
    requires InRound(start, cs, active, delivered, removed) && 1 <= index < active
    ensures InRound(start, Deactivate(cs, active, index), active - 1, delivered + [cs[index]], removed)
  {
    var cs' := Deactivate(cs, active, index);
    DeactivateMembers(cs, active, index);
    assert cs[index] in cs[1..];
  }

  lemma DeactivateMembers(cs: seq<Case>, n: nat, index: nat)
    requires 1 <= index < n <= |cs|
    ensures var cs' := Deactivate(cs, n, index);
            forall c :: (c in cs[1..] <==> c in cs'[1..]) && (c in cs <==> c in cs')
  {
    var cs' := Deactivate(cs, n, index);
    forall c
      ensures (c in cs[1..] <==> c in cs'[1..]) && (c in cs <==> c in cs')
    {
      if c in cs[1..] {
        var k :| 1 <= k < |cs| && cs[k] == c;
        assert c == cs'[if k == index then n - 1 else if k == n - 1 then index else k];
      }
      if c in cs'[1..] {
        var k :| 1 <= k < |cs| && cs'[k] == c;
        assert c == cs[if k == index then n - 1 else if k == n - 1 then index else k];
      }
      HeadOrTail(cs, c);
      HeadOrTail(cs', c);
    }
  }

  lemma HeadOrTail(cs: seq<Case>, c: Case)
    requires cs != []
    ensures c in cs <==> c == cs[0] || c in cs[1..]
  {
    assert cs == [cs[0]] + cs[1..];
  }

  /** A removal, of an active or of an already served case. */
  lemma RoundRemoves(start: seq<Case>, cs: seq<Case>, active: nat, delivered: seq<Case>, removed: seq<Case>, index: nat)
    requires InRound(start, cs, active, delivered, removed) && 1 <= index < |cs|
    ensures InRound(start, Delete(cs, index), if index < active then active - 1 else active,
                    delivered, removed + [cs[index]])
  {
    hide Delete, Distinct;
    DistinctDelete(cs, index);
    DeletePoints(cs, index);
    DeleteMembers(cs, index);
    DistinctAppend(removed, cs[index]);
  }

  lemma DistinctAppend(cs: seq<Case>, c: Case)
    requires Distinct(cs) && c !in cs
    ensures Distinct(cs + [c])
  {
  }

  lemma DeletePoints(cs: seq<Case>, index: nat)
    requires index < |cs|
    ensures |Delete(cs, index)| == |cs| - 1
    ensures forall i {:trigger Delete(cs, index)[i]} ::
              0 <= i < |cs| - 1 ==> Delete(cs, index)[i] == if i < index then cs[i] else cs[i+1]
  {
  }

  lemma DeleteMembers(cs: seq<Case>, index: nat)
    requires 1 <= index < |cs|
    ensures var cs' := Delete(cs, index);
            && |cs'| >= 1
            && (forall c :: c in cs[1..] <==> c in cs'[1..] || c == cs[index])
            && (forall c :: c in cs' ==> c in cs)
  {
    var cs' := Delete(cs, index);
    assert cs'[1..] == cs[1..index] + cs[index+1..];
    assert cs[1..] == cs[1..index] + [cs[index]] + cs[index+1..];
  }

  /** When no active case is left, every case not removed has been served exactly once. */
  lemma RoundEnds(start: seq<Case>, cs: seq<Case>, delivered: seq<Case>, removed: seq<Case>)
    requires InRound(start, cs, 1, delivered, removed)
    ensures forall c :: c in cs[1..] <==> c in start && c !in removed
    ensures forall c :: c in cs[1..] ==> multiset(delivered)[c] == 1
    ensures forall c :: multiset(delivered)[c] <= 1
    ensures forall c :: c in delivered || c in removed ==> c in start
  {
    forall c
      ensures multiset(delivered)[c] <= 1
    {
      DistinctOnce(delivered, c);
    }
  }

  /** Only the removed cases may have got nothing, so nothing else is missing in the number of deliveries. */
  lemma RoundCounts(start: seq<Case>, cs: seq<Case>, delivered: seq<Case>, removed: seq<Case>)
    requires InRound(start, cs, 1, delivered, removed) && Distinct(start)
    ensures |start| - |removed| <= |delivered| <= |start|
  {
    hide Distinct;
    var s, d, r := set c | c in start, set c | c in delivered, set c | c in removed;
    DistinctSize(start);
    DistinctSize(delivered);
    DistinctSize(removed);
    SubsetSize(d, s);
    SubsetSize(s, d + r);
  }

  lemma {:induction false} DistinctSize(cs: seq<Case>)
    requires Distinct(cs)
    ensures |set c | c in cs| == |cs|
  {
    if cs != [] {
      DistinctSize(cs[1..]);
      assert cs == [cs[0]] + cs[1..];
      assert (set c | c in cs) == (set c | c in cs[1..]) + {cs[0]};
    }
  }

  lemma {:induction false} DistinctOnce(cs: seq<Case>, c: Case)
    requires Distinct(cs)
    ensures multiset(cs)[c] <= 1
  {
    if cs != [] {
      DistinctOnce(cs[1..], c);
      assert cs == [cs[0]] + cs[1..];
    }
  }
}
