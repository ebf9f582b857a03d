/**
  The event feed itself (`event/feed.go`): the inbox of new subscriptions, and Send working in
  place on the shared array of select cases. Which sends succeed, which case a select
  chooses, and which removals arrive meanwhile are arbitrary.
 */
module Feed {
  import opened FeedCases

  /** The linear search of `find`. */
  method FindIn(cs: seq<Case>, channel: Chan) returns (index: int)
    ensures index == Find(cs, channel)
  {
    for i := 0 to |cs|
      invariant forall j :: 0 <= j < i ==> cs[j].chan != channel
    {
      if cs[i].chan == channel {
        return i;
      }
    }
    return -1;
  }

  class Feed {
    /** The first `sendLen` elements are the feed's select cases. */
    var sendCases: array<Case>
    var sendLen: nat
    var inbox: seq<Case>
    var nextId: nat

    ghost predicate Valid()
      reads this, sendCases
    {
      1 <= sendLen <= sendCases.Length && WellFormed(sendCases[..sendLen] + inbox, nextId)
    }

    constructor ()
      ensures Valid() && fresh(sendCases) && sendCases[..sendLen] == [Case(0, REMOVE_SUB)]
      ensures inbox == [] && nextId == 1
    {
      sendCases := new Case[1](_ => Case(0, REMOVE_SUB));
      sendLen, inbox, nextId := 1, [], 1;
      new;
      assert sendCases[..sendLen] == [Case(0, REMOVE_SUB)];
    }

    /** The new case waits in the inbox for the next Send. */
    method Subscribe(channel: Chan)
      requires Valid() && channel != REMOVE_SUB
      modifies this`inbox, this`nextId
      ensures Valid()
      ensures inbox == old(inbox) + [Case(old(nextId), channel)] && nextId == old(nextId) + 1
    {
      var cas := Case(nextId, channel);
      WellFormedAppend(sendCases[..sendLen] + inbox, nextId, channel);
      assert sendCases[..sendLen] + (inbox + [cas]) == sendCases[..sendLen] + inbox + [cas];
      inbox := inbox + [cas];
      nextId := nextId + 1;
    }

    /** First phase of a removal: a case on the channel that still waits in the inbox. */
    method RemoveFromInbox(channel: Chan) returns (found: bool)
      requires Valid()
      modifies this`inbox
      ensures Valid()
      ensures found <==> Find(old(inbox), channel) != -1
      ensures inbox == if found then Delete(old(inbox), Find(old(inbox), channel)) else old(inbox)
    {
      hide WellFormed;
      var index := FindIn(inbox, channel);
      if index != -1 {
        WellFormedDelete(sendCases[..sendLen] + inbox, nextId, sendLen + index);
        assert Delete(sendCases[..sendLen] + inbox, sendLen + index) == sendCases[..sendLen] + Delete(inbox, index);
        inbox := inbox[..index] + inbox[index+1..];
        return true;
      }
      return false;
    }

    /** Second phase, with the send lock held: there must be a case to delete. */
    method RemoveDirectly(channel: Chan)
      requires Valid() && channel != REMOVE_SUB && Find(sendCases[..sendLen], channel) != -1
      modifies this`sendLen, sendCases
      ensures Valid()
      ensures sendCases[..sendLen] == Delete(old(sendCases[..sendLen]), Find(old(sendCases[..sendLen]), channel))
    {
      var index := FindIn(sendCases[..sendLen], channel);
      WellFormedDelete(sendCases[..sendLen] + inbox, nextId, index);
      assert Delete(sendCases[..sendLen] + inbox, index) == Delete(sendCases[..sendLen], index) + inbox;
      DeleteAt(index);
    }

    /** Closes the gap at `index` by moving the later cases down. */
    method DeleteAt(index: nat)
      requires index < sendLen <= sendCases.Length
      modifies this`sendLen, sendCases
      ensures sendLen == old(sendLen) - 1
      ensures sendCases[..sendLen] == Delete(old(sendCases[..sendLen]), index)
    {
      forall j | index <= j < sendLen - 1 {
        sendCases[j] := sendCases[j+1];
      }
      sendLen := sendLen - 1;
    }

    /** Exchanges the case at `index` with the last of the first `n` cases. */
    method DeactivateAt(n: nat, index: nat)
      requires index < n <= sendLen <= sendCases.Length
      modifies sendCases
      ensures sendCases[..sendLen] == Deactivate(old(sendCases[..sendLen]), n, index)
    {
      var last := n - 1;
      sendCases[index], sendCases[last] := sendCases[last], sendCases[index];
    }

    /** Appends the inbox to the cases. */
    method TakeInbox()
      requires Valid()
      modifies this`sendCases, this`sendLen, this`inbox
      ensures Valid() && fresh(sendCases) && inbox == []
      ensures sendCases[..sendLen] == old(sendCases[..sendLen] + inbox)
    {
      var all := sendCases[..sendLen] + inbox;
      sendCases := new Case[|all|](i requires 0 <= i < |all| => all[i]);
      sendLen := |all|;
      inbox := [];
      assert sendCases[..sendLen] + inbox == all;
    }

    /**
      Delivers to all cases, while requests to remove subscribers may arrive: those taken before it
      returns are the first ones of `requests`. Then every case the round started with and not
      removed has got the value exactly once, no case has got it twice, the feed's cases are the
      starting ones without the removed ones, and the result counts the deliveries.
     */
    method Send(requests: seq<Chan>) returns (nsent: nat, ghost delivered: seq<Case>, ghost removed: seq<Case>)
      requires Valid() && Requestable(requests, sendCases[..sendLen] + inbox)
      modifies this, sendCases
      ensures Valid() && inbox == []
      ensures nsent == |delivered| && Chans(removed) <= requests
      ensures old(sendLen - 1 + |inbox|) - |removed| <= nsent <= old(sendLen - 1 + |inbox|)
      ensures forall c :: c in sendCases[1..sendLen] <==>
                          c in old(sendCases[1..sendLen] + inbox) && c !in removed
      ensures forall c :: c in sendCases[1..sendLen] ==> multiset(delivered)[c] == 1
      ensures forall c :: multiset(delivered)[c] <= 1
      ensures forall c :: c in delivered || c in removed ==> c in old(sendCases[1..sendLen] + inbox)
    {
      hide InRound, Distinct, Deactivate, Delete, WellFormed, Requestable, Chans, Find;
      ghost var start := sendCases[1..sendLen] + inbox;
      TakeInbox();
      nsent, delivered, removed := 0, [], [];
      var cases, taken := sendLen, 0;
      assert sendCases[..sendLen][1..] == start && sendCases[..sendLen] + inbox == sendCases[..sendLen];
      assert requests[0..] == requests && Chans([]) == requests[..0];
      RoundStarts(sendCases[..sendLen], nextId);
      while true
        invariant fresh(sendCases) && inbox == []
        invariant 1 <= cases <= sendLen <= sendCases.Length
        invariant WellFormed(sendCases[..sendLen], nextId)
        invariant InRound(start, sendCases[..sendLen], cases, delivered, removed)
        invariant nsent == |delivered| && taken <= |requests| && Chans(removed) == requests[..taken]
        invariant Requestable(requests[taken..], sendCases[..sendLen])
        decreases sendLen + cases
      {
        cases, nsent, delivered := TrySends(start, cases, nsent, delivered, removed, requests[taken..]);
        if cases == 1 {
          break;
        }
        var chosen :| 0 <= chosen < cases && (chosen == 0 ==> taken < |requests|);
        if chosen == 0 {
          RequestIsFound(requests[taken..], sendCases[..sendLen]);
          assert requests[taken..][1..] == requests[taken+1..];
          ghost var index := Find(sendCases[..sendLen], requests[taken]);
          ChansAppend(removed, sendCases[index], requests, taken);
          cases, removed := RemoveRequested(requests[taken], start, cases, delivered, removed);
          taken := taken + 1;
        } else {
          RequestableDeactivate(requests[taken..], sendCases[..sendLen], cases, chosen);
          delivered := Serve(chosen, start, cases, delivered, removed);
          cases := cases - 1;
          nsent := nsent + 1;
        }
      }
      assert sendCases[..sendLen] + inbox == sendCases[..sendLen] && sendCases[..sendLen][1..] == sendCases[1..sendLen];
      RoundEnds(start, sendCases[..sendLen], delivered, removed);
      RoundCounts(start, sendCases[..sendLen], delivered, removed);
    }

    /** The fast path: every active case is tried once without blocking. */
    method TrySends(ghost start: seq<Case>, n: nat, sent: nat, ghost before: seq<Case>, ghost removed: seq<Case>,
                    ghost requests: seq<Chan>)
      returns (cases: nat, nsent: nat, ghost delivered: seq<Case>)
      requires 1 <= n <= sendLen <= sendCases.Length && WellFormed(sendCases[..sendLen], nextId)
      requires InRound(start, sendCases[..sendLen], n, before, removed) && sent == |before|
      requires Requestable(requests, sendCases[..sendLen])
      modifies sendCases
      ensures 1 <= cases <= n && WellFormed(sendCases[..sendLen], nextId)
      ensures InRound(start, sendCases[..sendLen], cases, delivered, removed) && nsent == |delivered|
      ensures Requestable(requests, sendCases[..sendLen])
    {
      hide InRound, Distinct, Deactivate, WellFormed, Requestable;
      cases, nsent, delivered := n, sent, before;
      var i := 1;
      while i < cases
        invariant 1 <= i <= cases <= n
        invariant WellFormed(sendCases[..sendLen], nextId)
        invariant InRound(start, sendCases[..sendLen], cases, delivered, removed) && nsent == |delivered|
        invariant Requestable(requests, sendCases[..sendLen])
        decreases cases - i
      {
        var ok: bool := *;
        if ok {
          RequestableDeactivate(requests, sendCases[..sendLen], cases, i);
          delivered := Serve(i, start, cases, delivered, removed);
          cases := cases - 1;
          nsent := nsent + 1;
        } else {
          i := i + 1;
        }
      }
    }

    /** A send on case `index` went through. */
    method Serve(index: nat, ghost start: seq<Case>, n: nat, ghost before: seq<Case>, ghost removed: seq<Case>)
      returns (ghost delivered: seq<Case>)
      requires 1 <= index < n <= sendLen <= sendCases.Length && WellFormed(sendCases[..sendLen], nextId)
      requires InRound(start, sendCases[..sendLen], n, before, removed)
      modifies sendCases
      ensures WellFormed(sendCases[..sendLen], nextId) && delivered == before + [old(sendCases[index])]
      ensures sendCases[..sendLen] == Deactivate(old(sendCases[..sendLen]), n, index)
      ensures InRound(start, sendCases[..sendLen], n - 1, delivered, removed)
    {
      hide InRound, Distinct, Deactivate, WellFormed;
      RoundDelivers(start, sendCases[..sendLen], n, before, removed, index);
      WellFormedDeactivate(sendCases[..sendLen], nextId, n, index);
      delivered := before + [sendCases[index]];
      DeactivateAt(n, index);
    }

    /** A removal request for a subscribed channel interrupts the sending. */
    method RemoveRequested(channel: Chan, ghost start: seq<Case>, n: nat,
                           ghost delivered: seq<Case>, ghost before: seq<Case>)
      returns (cases: nat, ghost removed: seq<Case>)
      requires 1 <= n <= sendLen <= sendCases.Length && WellFormed(sendCases[..sendLen], nextId)
      requires channel != REMOVE_SUB && Find(sendCases[..sendLen], channel) != -1
      requires InRound(start, sendCases[..sendLen], n, delivered, before)
      modifies this`sendLen, sendCases
      ensures sendLen == old(sendLen) - 1 && 1 <= cases <= n && cases <= sendLen
      ensures var was, index := old(sendCases[..sendLen]), Find(old(sendCases[..sendLen]), channel);
              && sendCases[..sendLen] == Delete(was, index) && removed == before + [was[index]]
              && cases == if index < n then n - 1 else n
      ensures WellFormed(sendCases[..sendLen], nextId)
      ensures InRound(start, sendCases[..sendLen], cases, delivered, removed)
    {
      hide Distinct, Delete;
      var index := FindIn(sendCases[..sendLen], channel);
      RoundRemoves(start, sendCases[..sendLen], n, delivered, before, index);
      WellFormedDelete(sendCases[..sendLen], nextId, index);
      removed := before + [sendCases[index]];
      DeleteAt(index);
      cases := if 0 <= index < n then n - 1 else n;
    }
  }
}
