/**
  The two loops joined: what the run loop hands over is one of the events of the dial
  scheduler's own loop, and the scheduler's fields are the mirror that the peer set's
  protocol speaks of.
 */
module PeerMirror {
  import opened Common
  import opened DialScheduler
  import PeerSet

  /** The connection a message is about, as the scheduler looks at it. */
  function ConnOf(m: PeerSet.Msg): Conn {
    Conn(m.id, PeerSet.DynDialed in m.flags, PeerSet.StaticDialed in m.flags)
  }

  /** The event as which a message arrives. */
  function EventOf(m: PeerSet.Msg): Event {
    if m.Added? then PeerAdded(ConnOf(m)) else PeerRemoved(ConnOf(m))
  }

  /** Events that have nothing to do with the peer set. */
  predicate OwnEvent(e: Event) {
    !e.PeerAdded? && !e.PeerRemoved?
  }

  ghost predicate Mirrors(d: Scheduler, s: PeerSet.State)
    reads d`peers, d`dialPeers
  {
    d.peers.Keys == s.mirror && d.dialPeers == s.dialPeers
  }

  /** The scheduler waits, and takes candidates only within its limits. */
  ghost predicate Waiting(d: Scheduler, slots: int)
    reads d, d.history, d.statics.Values, d.dialing.Values, d.staticPool
  {
    d.AtSelect() && (slots > 0 ==> d.DynDials() < d.cfg.maxActiveDials && d.dialPeers < d.cfg.maxDialPeers)
  }

  /** A turn of the scheduler's loop on a message is the protocol's step. */
  method Process(d: Scheduler, m: PeerSet.Msg, slots: int, ghost cfg: PeerSet.Config, ghost s: PeerSet.State)
    returns (next: int)
    requires Waiting(d, slots) && Mirrors(d, s) && s.pending == Some(m)
    modifies d, d.history, d.statics.Values, d.dialing.Values
    ensures Waiting(d, next) && d.KnownTasks() && Mirrors(d, PeerSet.Next(cfg, s, PeerSet.Step.Process))
  {
    hide Scheduler.AtSelect, Scheduler.DynDials, Scheduler.KnownTasks;
    next := d.Turn(EventOf(m), slots);
  }

  /** Turns on events of its own leave the mirror alone. */
  method TurnAlone(d: Scheduler, events: seq<Event>, slots: int, ghost s: PeerSet.State) returns (next: int)
    requires Waiting(d, slots) && Mirrors(d, s) && forall e :: e in events ==> OwnEvent(e)
    modifies d, d.history, d.statics.Values, d.dialing.Values
    ensures Waiting(d, next) && d.KnownTasks() && Mirrors(d, s)
  {
    hide Scheduler.AtSelect, Scheduler.DynDials;
    next := slots;
    for i := 0 to |events|
      invariant Waiting(d, next) && d.KnownTasks() && Mirrors(d, s)
    {
      assert OwnEvent(events[i]);
      next := d.Turn(events[i], next);
    }
  }

  /** One step of the protocol, and before it any events of the scheduler's own. */
  method Advance(d: Scheduler, cfg: PeerSet.Config, s: PeerSet.State, step: PeerSet.Step, own: seq<Event>, slots: int)
    returns (next: int)
    requires Waiting(d, slots) && Mirrors(d, s) && PeerSet.Enabled(s, step) && forall e :: e in own ==> OwnEvent(e)
    modifies d, d.history, d.statics.Values, d.dialing.Values
    ensures Waiting(d, next) && d.KnownTasks() && Mirrors(d, PeerSet.Next(cfg, s, step))
  {
    hide Waiting, PeerSet.Verdict;
    next := TurnAlone(d, own, slots, s);
    if step.Process? {
      next := Process(d, s.pending.value, next, cfg, s);
    }
  }

  /**
    Both loops at work: the steps of the peer set's protocol, and before and after each of them any
    events of the scheduler's own. Whenever no message is under way, the scheduler's peers are the
    connected ones and its counter is the number of the dialed ones; and it waits as it should.
   */
  method RunBoth(d: Scheduler, cfg: PeerSet.Config, states: seq<PeerSet.State>, steps: seq<PeerSet.Step>,
                 own: seq<seq<Event>>)
    requires d.Valid() && d.peers == map[] && d.dialPeers == 0
    requires PeerSet.IsRun(cfg, states, steps) && |own| == |steps| + 1
    requires forall i, e :: 0 <= i < |own| && e in own[i] ==> OwnEvent(e)
    modifies d, d.history, d.statics.Values, d.dialing.Values
    ensures d.AtSelect() && Mirrors(d, states[|steps|])
    ensures var s := states[|steps|];
            s.handing.None? && s.pending.None? ==>
              d.peers.Keys == s.table.peers.Keys && d.dialPeers == |PeerSet.DialedIds(s.table.peers)|
  {
    hide Scheduler.Valid, Scheduler.AtSelect, Scheduler.DynDials, PeerSet.DialedIds, PeerSet.Next, PeerSet.Enabled,
         OwnEvent;
    var slots := d.Prepare();
    assert Mirrors(d, states[0]);
    for i := 0 to |steps|
      invariant Waiting(d, slots) && d.KnownTasks() && Mirrors(d, states[i])
    {
      assert PeerSet.Enabled(states[i], steps[i]);
      slots := Advance(d, cfg, states[i], steps[i], own[i], slots);
    }
    slots := TurnAlone(d, own[|steps|], slots, states[|steps|]);
    PeerSet.CountersExact(cfg, states, steps);
  }
}
