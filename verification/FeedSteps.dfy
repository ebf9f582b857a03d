/**
  The feed's own code takes the steps of the protocol: every run of `FeedProtocol` is realized
  by the methods of `Feed.Feed`. What those methods demand, above all that a removal finds
  its case, is what the protocol's invariant provides.
 */
module FeedSteps {
  import opened FeedCases
  import opened FeedProtocol
  import Feed

  /** The feed's fields are those of the protocol's state. */
  ghost predicate Shows(f: Feed.Feed, s: State)
    reads f, f.sendCases
  {
    && f.sendLen <= f.sendCases.Length && f.sendCases[..f.sendLen] == s.sendCases
    && f.inbox == s.inbox && f.nextId == s.nextId
  }

  /** What the methods of the feed demand. */
  lemma ShowsValid(f: Feed.Feed, s: State, step: Step)
    requires Inv(s) && Shows(f, s) && Enabled(s, step)
    ensures f.Valid() && WellFormed(s.sendCases, s.nextId) && !Crashes(s, step)
    ensures step.RemoveDirectly? || step.RemoveInSend? ==> step.ch != REMOVE_SUB
    ensures s.sending.Some? ==> 1 <= s.sending.value.active <= |s.sendCases|
  {
    NeverCrashes(s, step);
    WellFormedPrefix(s.sendCases, s.inbox, s.nextId);
  }

  lemma WellFormedPrefix(a: seq<Case>, b: seq<Case>, nextId: nat)
    requires WellFormed(a + b, nextId) && a != []
    ensures WellFormed(a, nextId)
  {
    forall i | 0 <= i < |a|
      ensures (a + b)[i] == a[i]
    {
    }
  }

  /** A step outside of a round. */
  method PerformIdle(f: Feed.Feed, s: State, step: Step)
    requires Inv(s) && Enabled(s, step) && Shows(f, s) && !step.Deliver? && !step.RemoveInSend?
    modifies f, f.sendCases
    ensures !Crashes(s, step) && Shows(f, Next(s, step))
    ensures f.sendCases == old(f.sendCases) || fresh(f.sendCases)
  {
    hide Inv, WellFormed, Delete;
    ShowsValid(f, s, step);
    match step {
      case Subscribe(ch) => f.Subscribe(ch);
      case CheckInbox(ch) => var found := f.RemoveFromInbox(ch);
      case RemoveDirectly(ch) => f.RemoveDirectly(ch);
      case SendStart => f.TakeInbox();
      case SendEnd =>
    }
  }

  /** A step of a running Send. */
  method PerformRound(f: Feed.Feed, s: State, step: Step)
    requires Inv(s) && Enabled(s, step) && Shows(f, s) && (step.Deliver? || step.RemoveInSend?)
    modifies f, f.sendCases
    ensures !Crashes(s, step) && Shows(f, Next(s, step)) && f.sendCases == old(f.sendCases)
  {
    hide WellFormed, InRound, OneCaseEach, RemovalsCovered, Delete, Deactivate;
    ShowsValid(f, s, step);
    var r := s.sending.value;
    if step.Deliver? {
      ghost var delivered := f.Serve(step.index, r.start, r.active, r.delivered, r.removed);
    } else {
      var cases, removed := f.RemoveRequested(step.ch, r.start, r.active, r.delivered, r.removed);
    }
  }

  /** One step; a removal cannot miss its case. */
  method Perform(f: Feed.Feed, s: State, step: Step)
    requires Inv(s) && Enabled(s, step) && Shows(f, s)
    modifies f, f.sendCases
    ensures !Crashes(s, step) && Inv(Next(s, step)) && Shows(f, Next(s, step))
    ensures f.sendCases == old(f.sendCases) || fresh(f.sendCases)
  {
    hide Inv, Enabled, Crashes, Next, Shows;
    NeverCrashes(s, step);
    NextInv(s, step);
    if step.Deliver? || step.RemoveInSend? {
      PerformRound(f, s, step);
    } else {
      PerformIdle(f, s, step);
    }
  }

  /** Every run of the protocol, step by step, on a new feed. */
  method Replay(states: seq<State>, steps: seq<Step>) returns (f: Feed.Feed)
    requires IsRun(states, steps)
    ensures fresh(f) && Shows(f, states[|steps|])
  {
    hide Inv, Enabled, Crashes, Next;
    f := new Feed.Feed();
    InitInv();
    for i := 0 to |steps|
      invariant fresh(f) && fresh(f.sendCases) && Shows(f, states[i]) && Inv(states[i])
    {
      assert Enabled(states[i], steps[i]) && !Crashes(states[i], steps[i]);
      Perform(f, states[i], steps[i]);
    }
  }
}
