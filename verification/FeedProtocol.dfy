/**
  The feed as a concurrent protocol: subscribing, the two phases of a removal and the steps of
  a Send interleave in any order. `remove` first looks into the inbox and, if the channel is
  not there, later either hands the channel to a running Send or takes the send lock. In
  between, a Send may start and move the inbox into the cases.

  Subscriptions on one channel are interchangeable to the feed, so they are kept as
  multisets of channels: `live` are those not yet removed, `leaving` those of them whose
  removal is past the inbox.
 */
module FeedProtocol {
  import opened Common
  import opened FeedCases

  /** A Send in progress. */
  datatype Round = Round(start: seq<Case>, active: nat, nsent: nat, delivered: seq<Case>, removed: seq<Case>)

  datatype State = State(
    nextId: nat,
    live: multiset<Chan>,
    leaving: multiset<Chan>,
    inbox: seq<Case>,
    sendCases: seq<Case>,
    sending: Option<Round>)

  datatype Step =
    | Subscribe(ch: Chan)
    | CheckInbox(ch: Chan)
    | RemoveDirectly(ch: Chan)
    | SendStart
    | Deliver(index: nat)
    | RemoveInSend(ch: Chan)
    | SendEnd

  function Init(): State {
    State(1, multiset{}, multiset{}, [], [Case(0, REMOVE_SUB)], None)
  }

  /** When a step can be taken. Only the feed's own locks and channels decide. */
  predicate Enabled(s: State, step: Step) {
    match step
    case Subscribe(ch) => ch != REMOVE_SUB
    case CheckInbox(ch) => s.live[ch] > s.leaving[ch]
    case RemoveDirectly(ch) => s.sending.None? && ch in s.leaving
    case SendStart => s.sending.None?
    case Deliver(index) => s.sending.Some? && 1 <= index < s.sending.value.active <= |s.sendCases|
    case RemoveInSend(ch) => s.sending.Some? && s.sending.value.active > 1 && ch in s.leaving
    case SendEnd => s.sending.Some? && s.sending.value.active == 1
  }

  /** A removal from the cases would delete at index -1: the program would crash. */
  predicate Crashes(s: State, step: Step) {
    (step.RemoveDirectly? || step.RemoveInSend?) && Find(s.sendCases, step.ch) == -1
  }

  function Next(s: State, step: Step): State
    requires Enabled(s, step) && !Crashes(s, step)
  {
    match step
    case Subscribe(ch) =>
      s.(inbox := s.inbox + [Case(s.nextId, ch)], nextId := s.nextId + 1, live := s.live + multiset{ch})
    case CheckInbox(ch) =>
      var index := Find(s.inbox, ch);
      if index != -1 then s.(inbox := Delete(s.inbox, index), live := s.live - multiset{ch})
      else s.(leaving := s.leaving + multiset{ch})
    case RemoveDirectly(ch) =>
      var index := Find(s.sendCases, ch);
      s.(sendCases := Delete(s.sendCases, index), live := s.live - multiset{ch}, leaving := s.leaving - multiset{ch})
    case SendStart =>
      var all := s.sendCases + s.inbox;
      s.(sendCases := all, inbox := [], sending := Some(Round(if all == [] then [] else all[1..], |all|, 0, [], [])))
    case Deliver(index) =>
      var r := s.sending.value;
      s.(sendCases := Deactivate(s.sendCases, r.active, index),
         sending := Some(r.(active := r.active - 1, nsent := r.nsent + 1,
                            delivered := r.delivered + [s.sendCases[index]])))
    case RemoveInSend(ch) =>
      var index := Find(s.sendCases, ch);
      var r := s.sending.value;
      s.(sendCases := Delete(s.sendCases, index), live := s.live - multiset{ch}, leaving := s.leaving - multiset{ch},
         sending := Some(r.(active := if index < r.active then r.active - 1 else r.active,
                            removed := r.removed + [s.sendCases[index]])))
    case SendEnd => s.(sending := None)
  }

  // ---------------------------------------------------------------- the invariant

  /** One case per subscription not yet removed, in the inbox or among the cases. */
  ghost predicate OneCaseEach(s: State) {
    forall ch :: ch != REMOVE_SUB ==> Count(s.inbox, ch) + Count(s.sendCases, ch) == s.live[ch]
  }

  /** Every removal past the inbox still has its case among the cases. */
  ghost predicate RemovalsCovered(s: State) {
    forall ch :: ch in s.leaving ==> ch != REMOVE_SUB && s.leaving[ch] <= Count(s.sendCases, ch)
  }

  ghost predicate Inv(s: State) {
    && WellFormed(s.sendCases + s.inbox, s.nextId)
    && s.sendCases != []
    && REMOVE_SUB !in s.live
    && OneCaseEach(s)
    && RemovalsCovered(s)
    && (s.sending.Some? ==>
          var r := s.sending.value;
          InRound(r.start, s.sendCases, r.active, r.delivered, r.removed) && r.nsent == |r.delivered|)
  }

  lemma InitInv()
    ensures Inv(Init())
  {
    assert Init().sendCases + [] == Init().sendCases;
    forall ch | ch != REMOVE_SUB
      ensures Count(Init().sendCases, ch) == 0
    {
      CountZero(Init().sendCases, ch);
    }
  }

  /** No removal is lost: whenever a removal reaches the cases, its case is there. */
  lemma NeverCrashes(s: State, step: Step)
    requires Inv(s) && Enabled(s, step)
    ensures !Crashes(s, step)
  {
    if step.RemoveDirectly? || step.RemoveInSend? {
      CountZero(s.sendCases, step.ch);
    }
  }

  lemma NextInv(s: State, step: Step)
    requires Inv(s) && Enabled(s, step) && !Crashes(s, step)
    ensures Inv(Next(s, step))
  {
    match step
    case Subscribe(ch) => SubscribeInv(s, ch);
    case CheckInbox(ch) => CheckInboxInv(s, ch);
    case RemoveDirectly(ch) => RemoveInv(s, step, ch);
    case SendStart => SendStartInv(s);
    case Deliver(index) => DeliverInv(s, index);
    case RemoveInSend(ch) => RemoveInv(s, step, ch);
    case SendEnd =>
  }

  lemma SubscribeInv(s: State, ch: Chan)
    requires Inv(s) && ch != REMOVE_SUB
    ensures Inv(Next(s, Subscribe(ch)))
  {
    hide InRound, Count, WellFormed;
    var cas := Case(s.nextId, ch);
    WellFormedAppend(s.sendCases + s.inbox, s.nextId, ch);
    assert s.sendCases + (s.inbox + [cas]) == s.sendCases + s.inbox + [cas];
    forall c: Chan
      ensures Count(s.inbox + [cas], c) == Count(s.inbox, c) + (if c == ch then 1 else 0)
    {
      CountConcat(s.inbox, [cas], c);
      CountOne(cas, c);
    }
  }

  lemma CountOne(cas: Case, ch: Chan)
    ensures Count([cas], ch) == if cas.chan == ch then 1 else 0
  {
    assert [cas][1..] == [];
  }

  lemma CheckInboxInv(s: State, ch: Chan)
    requires Inv(s) && Enabled(s, CheckInbox(ch))
    ensures Inv(Next(s, CheckInbox(ch)))
  {
    hide InRound, Count, WellFormed, Delete;
    var index := Find(s.inbox, ch);
    if index != -1 {
      WellFormedDelete(s.sendCases + s.inbox, s.nextId, |s.sendCases| + index);
      DeleteInSecond(s.sendCases, s.inbox, index);
      forall c: Chan
        ensures Count(s.inbox, c) == Count(Delete(s.inbox, index), c) + (if c == ch then 1 else 0)
      {
        CountDelete(s.inbox, index, c);
      }
    } else {
      CountZero(s.inbox, ch);
    }
  }

  lemma DeleteInSecond(a: seq<Case>, b: seq<Case>, index: nat)
    requires index < |b|
    ensures Delete(a + b, |a| + index) == a + Delete(b, index)
  {
  }

  lemma DeleteInFirst(a: seq<Case>, b: seq<Case>, index: nat)
    requires index < |a|
    ensures Delete(a + b, index) == Delete(a, index) + b
  {
  }

  lemma RemoveInv(s: State, step: Step, ch: Chan)
    requires Inv(s) && (step == RemoveDirectly(ch) || step == RemoveInSend(ch))
    requires Enabled(s, step) && !Crashes(s, step)
    ensures Inv(Next(s, step))
  {
    hide InRound, Count, Delete;
    var index := Find(s.sendCases, ch);
    assert (s.sendCases + s.inbox)[0] == s.sendCases[0];
    WellFormedDelete(s.sendCases + s.inbox, s.nextId, index);
    DeleteInFirst(s.sendCases, s.inbox, index);
    DeletePoints(s.sendCases, index);
    forall c: Chan
      ensures Count(s.sendCases, c) == Count(Delete(s.sendCases, index), c) + (if c == ch then 1 else 0)
    {
      CountDelete(s.sendCases, index, c);
    }
    if step.RemoveInSend? {
      var r := s.sending.value;
      RoundRemoves(r.start, s.sendCases, r.active, r.delivered, r.removed, index);
    }
  }

  lemma SendStartInv(s: State)
    requires Inv(s) && Enabled(s, SendStart)
    ensures Inv(Next(s, SendStart))
  {
    hide InRound, Count, WellFormed;
    var all := s.sendCases + s.inbox;
    assert all + [] == all;
    RoundStarts(all, s.nextId);
    forall c: Chan
      ensures Count(all, c) == Count(s.sendCases, c) + Count(s.inbox, c) && Count([], c) == 0
    {
      CountConcat(s.sendCases, s.inbox, c);
      CountZero([], c);
    }
  }

  lemma DeliverInv(s: State, index: nat)
    requires Inv(s) && Enabled(s, Deliver(index))
    ensures Inv(Next(s, Deliver(index)))
  {
    hide InRound, Count, WellFormed;
    var r := s.sending.value;
    RoundDelivers(r.start, s.sendCases, r.active, r.delivered, r.removed, index);
    WellFormedDeactivate(s.sendCases + s.inbox, s.nextId, r.active, index);
    assert Deactivate(s.sendCases + s.inbox, r.active, index) == Deactivate(s.sendCases, r.active, index) + s.inbox;
    forall c: Chan
      ensures Count(Deactivate(s.sendCases, r.active, index), c) == Count(s.sendCases, c)
    {
      CountDeactivate(s.sendCases, r.active, index, c);
    }
  }

  /** What a Send still has to do: it shrinks with every delivery and every removal it handles. */
  function Pending(s: State): nat {
    if s.sending.None? then 0 else |s.sendCases| + s.sending.value.active
  }

  lemma SendProgresses(s: State, step: Step)
    requires Inv(s) && Enabled(s, step) && !Crashes(s, step) && s.sending.Some?
    ensures step.Deliver? || step.RemoveInSend? || step.SendEnd? ==> Pending(Next(s, step)) < Pending(s)
    ensures step.Subscribe? || step.CheckInbox? ==> Pending(Next(s, step)) == Pending(s)
  {
    if step.RemoveInSend? {
      DeletePoints(s.sendCases, Find(s.sendCases, step.ch));
    }
  }

  // ---------------------------------------------------------------- whole runs

  /** The states a run goes through; a run ends where a step is not possible or crashes. */
  ghost predicate IsRun(states: seq<State>, steps: seq<Step>) {
    && |states| == |steps| + 1
    && states[0] == Init()
    && forall i :: 0 <= i < |steps| ==>
                     && Enabled(states[i], steps[i]) && !Crashes(states[i], steps[i])
                     && states[i+1] == Next(states[i], steps[i])
  }

  /**
    In every reachable state the inbox and the cases hold exactly one case per subscription
    not yet removed, every removal past the inbox is covered by the cases, and no enabled
    removal can crash.
   */
  lemma {:induction false} ReachableInv(states: seq<State>, steps: seq<Step>, k: nat)
    requires IsRun(states, steps) && k < |states|
    ensures Inv(states[k])
    ensures forall step :: Enabled(states[k], step) ==> !Crashes(states[k], step)
  {
    if k == 0 {
      InitInv();
    } else {
      ReachableInv(states, steps, k - 1);
      assert Enabled(states[k-1], steps[k-1]);
      NextInv(states[k-1], steps[k-1]);
    }
    forall step | Enabled(states[k], step)
      ensures !Crashes(states[k], step)
    {
      NeverCrashes(states[k], step);
    }
  }

  /** Whenever a Send returns, its cases have been served exactly once, or have been removed. */
  lemma SendReturns(states: seq<State>, steps: seq<Step>, k: nat)
    requires IsRun(states, steps) && k < |steps| && steps[k] == SendEnd
    ensures states[k].sending.Some? && states[k].sendCases != []
    ensures var r := states[k].sending.value;
            && r.nsent == |r.delivered|
            && (forall c :: c in states[k].sendCases[1..] <==> c in r.start && c !in r.removed)
            && (forall c :: c in r.start && c !in r.removed ==> multiset(r.delivered)[c] == 1)
            && (forall c :: multiset(r.delivered)[c] <= 1)
  {
    ReachableInv(states, steps, k);
    assert Enabled(states[k], steps[k]);
    var r := states[k].sending.value;
    RoundEnds(r.start, states[k].sendCases, r.delivered, r.removed);
  }
}
