/**
  The dial scheduler (`p2p/dial.go`): an event loop that keeps static nodes connected and
  starts dynamic dials while slots are free. Every case of its select is a method here;
  tasks are shared objects that know their own position in the pool.
 */
module DialScheduler {
  import opened Common
  import opened ExpHeap

  const SECOND: Time := 1_000_000_000
  const DIAL_HISTORY_EXPIRATION: Time := 35 * SECOND

  type ID = nat
  type IP = nat

  datatype Node = Node(id: ID, ip: Option<IP>, tcp: nat)
  datatype DialError = IsSelf | NoPort | AlreadyDialing | AlreadyConnected | NotWhitelisted | RecentlyDialed
  datatype Config = Config(self: ID, netRestrict: Option<set<IP>>, maxDialPeers: int, maxActiveDials: int)

  /** A connection as the peer set reports it. */
  datatype Conn = Conn(id: ID, dynDialed: bool, staticDialed: bool)

  /** A dial that has been started. */
  datatype Dial = Dial(id: ID, time: Time)

  /** Why a node must not be dialed, if there is a reason. */
  function Reason(cfg: Config, n: Node, dialing: set<ID>, peers: set<ID>, recent: set<ID>): Option<DialError> {
    if n.id == cfg.self then Some(IsSelf)
    else if n.ip.Some? && n.tcp == 0 then Some(NoPort)
    else if n.id in dialing then Some(AlreadyDialing)
    else if n.id in peers then Some(AlreadyConnected)
    else if cfg.netRestrict.Some? && (n.ip.None? || n.ip.value !in cfg.netRestrict.value) then Some(NotWhitelisted)
    else if n.id in recent then Some(RecentlyDialed)
    else None
  }

  ghost function Keys(items: seq<ExpItem<ID>>): set<ID> {
    set x | x in items :: x.item
  }

  ghost predicate AllRemembered(started: seq<Dial>, clock: Time, items: seq<ExpItem<ID>>) {
    && (forall d :: d in started ==> d.time <= clock)
    && (forall d :: d in started ==>
          || d.time + DIAL_HISTORY_EXPIRATION < clock
          || ExpItem(d.id, d.time + DIAL_HISTORY_EXPIRATION) in items)
  }

  ghost predicate AllSpaced(started: seq<Dial>) {
    forall i, j :: 0 <= i < j < |started| && started[i].id == started[j].id ==>
                     started[i].time + 35_000_000_000 < started[j].time
  }

  /** One more dial, of a node that is not in the history. */
  lemma AnotherDial(started: seq<Dial>, now: Time, id: ID, before: seq<ExpItem<ID>>, after: seq<ExpItem<ID>>)
    requires AllRemembered(started, now, before) && AllSpaced(started) && id !in Keys(before)
    requires forall x :: x in after <==> x in before || x == ExpItem(id, now + DIAL_HISTORY_EXPIRATION)
    ensures var more := started + [Dial(id, now)]; AllRemembered(more, now, after) && AllSpaced(more)
    ensures Keys(after) == Keys(before) + {id}
  {
    var more := started + [Dial(id, now)];
    assert ExpItem(id, now + DIAL_HISTORY_EXPIRATION) in after;
    forall i, j | 0 <= i < j < |more| && more[i].id == more[j].id
      ensures more[i].time + DIAL_HISTORY_EXPIRATION < more[j].time
    {
      if j == |started| {
        assert more[i] in started;
      }
    }
  }

  class DialTask {
    var staticPoolIndex: int
    var dest: Node
    const isStatic: bool

    constructor (dest: Node, isStatic: bool)
      ensures this.dest == dest && this.isStatic == isStatic && staticPoolIndex == -1
    {
      this.dest, this.isStatic, staticPoolIndex := dest, isStatic, -1;
    }
  }

  /** The nodes that are being dialed dynamically. */
  ghost function DynIds(dialing: map<ID, DialTask>): set<ID> {
    set id | id in dialing && !dialing[id].isStatic
  }

  /** Dials that go on are exactly those not reported to have ended; a candidate that may be dialed is added. */
  ghost predicate Kept(event: Event, may: bool, before: map<ID, DialTask>, after: map<ID, DialTask>) {
    && (forall id :: id in before && !event.Ends(id) ==> id in after && after[id] == before[id])
    && (may ==> event.NodeIn? && event.node.id in after)
    && (forall id :: id in after ==> (id in before && !event.Ends(id)) || (may && event.node.id == id))
  }

  /** Static nodes come and go with the news of them, and no other task changes hands. */
  ghost predicate StaticsChange(event: Event, before: map<ID, DialTask>, after: map<ID, DialTask>) {
    match event
    case StaticAdded(node) =>
      after.Keys == before.Keys + {node.id} && forall id :: id in before ==> after[id] == before[id]
    case StaticRemoved(id) => after == before - {id}
    case _ => after == before
  }

  lemma OneFiled(node: Node, before: map<ID, DialTask>, after: map<ID, DialTask>)
    requires node.id in after && (after == before || (node.id !in before && after == before[node.id := after[node.id]]))
    ensures StaticsChange(StaticAdded(node), before, after)
  {
  }

  /** The same for the nodes alone. */
  ghost predicate StaticIds(event: Event, before: set<ID>, after: set<ID>) {
    forall id :: id in after <==> Adds(event, id) || (id in before && event != StaticRemoved(id))
  }

  lemma StaticIdsChange(event: Event, before: map<ID, DialTask>, after: map<ID, DialTask>)
    requires StaticsChange(event, before, after)
    ensures StaticIds(event, before.Keys, after.Keys)
  {
  }

  /** Only static nodes have been dialed in addition. */
  ghost predicate Grown(before: map<ID, DialTask>, after: map<ID, DialTask>, statics: map<ID, DialTask>) {
    && (forall id :: id in before ==> id in after && after[id] == before[id])
    && (forall id :: id in after ==> id in before || (id in statics && after[id] == statics[id]))
  }

  ghost predicate TurnKept(event: Event, may: bool, before: map<ID, DialTask>, after: map<ID, DialTask>,
                           statics: map<ID, DialTask>) {
    && (forall id :: id in before && !event.Ends(id) ==> id in after && after[id] == before[id])
    && (may ==> event.NodeIn? && event.node.id in after)
    && (forall id :: id in after ==>
          || (id in before && !event.Ends(id)) || (may && event.node.id == id)
          || (id in statics && after[id] == statics[id]))
  }

  lemma KeptAndGrown(event: Event, may: bool, before: map<ID, DialTask>, mid: map<ID, DialTask>,
                     after: map<ID, DialTask>, statics: map<ID, DialTask>)
    requires Kept(event, may, before, mid) && Grown(mid, after, statics)
    ensures TurnKept(event, may, before, after, statics)
  {
  }

  lemma NoneEnds(event: Event, dialing: map<ID, DialTask>)
    requires !event.Done?
    ensures Kept(event, false, dialing, dialing)
  {
  }

  lemma OneEnds(id: ID, resolved: Node, dialing: map<ID, DialTask>)
    requires resolved.id == id
    ensures Kept(Done(id, resolved), false, dialing, dialing - {id})
  {
  }

  lemma OneStarts(node: Node, dialing: map<ID, DialTask>, task: DialTask)
    requires node.id !in dialing
    ensures Kept(NodeIn(node), true, dialing, dialing[node.id := task])
  {
  }

  /** An event that was not received ends no dial. */
  lemma SkippedKeeps(event: Event, before: map<ID, DialTask>, after: map<ID, DialTask>)
    requires Kept(LogTimer, false, before, after) && (event.Done? ==> !event.Ends(event.id) || event.id !in before)
    ensures Kept(event, false, before, after)
  {
  }

  class Scheduler {
    const cfg: Config
    var dialing: map<ID, DialTask>
    var peers: map<ID, Conn>
    var dialPeers: int
    var statics: map<ID, DialTask>
    var staticPool: seq<DialTask>
    const history: Heap<ID>

    /** What the monotone clock shows. */
    var clock: Time

    /** All dials started so far. */
    ghost var started: seq<Dial>

    /** A dial to the node is allowed now. */
    ghost predicate CanDial(n: Node)
      reads this`dialing, this`peers, history
    {
      Reason(cfg, n, dialing.Keys, peers.Keys, Keys(history.items)).None?
    }

    // ------------------------------------------------ the invariant

    /** Pool positions are right: the pool holds static tasks only, each knowing its index. */
    ghost predicate Linked()
      reads this`statics, this`staticPool, statics.Values
    {
      && (forall id :: id in statics ==> statics[id].dest.id == id && statics[id].isStatic)
      && (forall i :: 0 <= i < |staticPool| ==>
            && staticPool[i] in statics.Values
            && staticPool[i].staticPoolIndex == i)
      && (forall id :: id in statics ==>
            var k := statics[id].staticPoolIndex;
            k == -1 || (0 <= k < |staticPool| && staticPool[k] == statics[id]))
    }

    /** Whatever is in the pool may be dialed. */
    ghost predicate Ready()
      reads this`staticPool, this`dialing, this`peers, staticPool, history
    {
      forall i :: 0 <= i < |staticPool| ==> CanDial(staticPool[i].dest)
    }

    /** No static node, except possibly `id`, that may be dialed is left outside the pool. */
    ghost predicate NoneWaitingBut(id: Option<ID>)
      reads this`statics, this`dialing, this`peers, statics.Values, history
    {
      forall s :: s in statics && Some(s) != id && statics[s].staticPoolIndex == -1 ==> !CanDial(statics[s].dest)
    }

    /** A dial stays in the history until its time is over. */
    ghost predicate Remembered()
      reads this`started, this`clock, history
    {
      history.Valid() && AllRemembered(started, clock, history.items)
    }

    /** Two dials of one node are more than 35 s apart. */
    ghost predicate Spaced()
      reads this`started
    {
      AllSpaced(started)
    }

    /** Running tasks are filed under their node, and dynamic ones stay within the limit. */
    ghost predicate Running()
      reads this`dialing, dialing.Values`dest
    {
      && (forall id :: id in dialing ==> dialing[id].dest.id == id)
      && (DynDials() <= cfg.maxActiveDials || DynDials() == 0)
    }

    ghost function DynDials(): nat
      reads this`dialing
    {
      |DynIds(dialing)|
    }

    /** Only tasks of the scheduler's own making are added. */
    twostate predicate KnownTasks()
      reads this`statics, this`dialing
    {
      && (forall t :: t in statics.Values ==> fresh(t) || t in old(statics.Values) || t in old(dialing.Values))
      && (forall t :: t in dialing.Values ==> fresh(t) || t in old(statics.Values) || t in old(dialing.Values))
    }

    ghost predicate Valid()
      reads this, history, statics.Values, dialing.Values, staticPool
    {
      Linked() && Ready() && NoneWaitingBut(None) && Remembered() && Spaced() && Running()
    }

    constructor (cfg: Config, now: Time)
      ensures Valid() && this.cfg == cfg && fresh(history) && history.items == []
      ensures dialing == map[] && peers == map[] && dialPeers == 0 && statics == map[] && staticPool == []
      ensures started == [] && clock == now
    {
      this.cfg := cfg;
      dialing, peers, dialPeers, statics, staticPool := map[], map[], 0, map[], [];
      history := new Heap<ID>();
      started, clock := [], now;
    }

    // ------------------------------------------------ what an event changes

    /** Only news of peers change the table of peers and the counter, and as they say. */
    twostate predicate PeersFollow(event: Event)
      reads this`peers, this`dialPeers
    {
      match event
      case PeerAdded(c) =>
        peers == old(peers)[c.id := c] && dialPeers == old(dialPeers) + if c.dynDialed || c.staticDialed then 1 else 0
      case PeerRemoved(c) =>
        peers == old(peers) - {c.id} && dialPeers == old(dialPeers) - if c.dynDialed || c.staticDialed then 1 else 0
      case _ => peers == old(peers) && dialPeers == old(dialPeers)
    }

    twostate predicate StaticsFollow(event: Event)
      reads this`statics, statics.Values`dest
    {
      && StaticsChange(event, old(statics), statics)
      && (event.StaticAdded? && event.node.id !in old(statics) && event.node.id in statics ==>
            statics[event.node.id].dest == event.node)
    }

    /** A candidate is dialed exactly if it may be; a finished dial is over. */
    twostate predicate DialsFollow(event: Event)
      reads this`dialing, dialing.Values`dest
    {
      match event
      case NodeIn(node) =>
        if old(CanDial(node)) then
          && node.id in dialing && dialing == old(dialing)[node.id := dialing[node.id]]
          && fresh(dialing[node.id]) && dialing[node.id].dest == node && !dialing[node.id].isStatic
        else dialing == old(dialing)
      case Done(id, _) => dialing == old(dialing) - {id}
      case _ => dialing == old(dialing)
    }

    /** The history loses what has expired when its timer fires, and only then. */
    twostate predicate HistoryFollows(event: Event)
      reads this`clock, history
    {
      match event
      case HistoryTimer => forall x :: x in history.items <==> x in old(history.items) && x.exp >= clock
      case NodeIn(_) => forall x :: x in old(history.items) ==> x in history.items
      case _ => history.items == old(history.items)
    }

    twostate predicate DialsKept(event: Event)
      reads this`dialing
    {
      Kept(event, event.NodeIn? && old(CanDial(event.node)), old(dialing), dialing)
    }

    /** The same over a whole turn, in which static nodes are dialed as well. */
    twostate predicate TurnDials(event: Event, slots: int)
      reads this`dialing, this`statics
    {
      TurnKept(event, event.NodeIn? && slots > 0 && old(CanDial(event.node)), old(dialing), dialing, statics)
    }

    /** A new static node that may be dialed is. */
    twostate predicate NewStaticDialed(event: Event)
      reads this`dialing, this`statics
    {
      event.StaticAdded? && event.node.id !in old(statics) && old(CanDial(event.node)) ==>
        && event.node.id in statics && event.node.id in dialing
        && dialing[event.node.id] == statics[event.node.id]
    }

    /** A static node is dialed where it was last found. */
    twostate predicate DestsFollow(event: Event)
      reads this`statics, statics.Values`dest
    {
      forall id :: id in statics && id in old(statics) && statics[id] == old(statics[id]) ==>
                     statics[id].dest == if event.Ends(id) && id in old(dialing) && old(dialing[id]) == statics[id]
                                         then event.resolved else old(statics[id].dest)
    }

    /** What an event changes, all of it. */
    twostate predicate Follows(event: Event)
      reads this, statics.Values`dest, dialing.Values`dest, history
    {
      PeersFollow(event) && StaticsFollow(event) && DestsFollow(event) && DialsFollow(event) && HistoryFollows(event)
    }

    // ------------------------------------------------ checking and starting a dial

    method CheckDial(n: Node) returns (e: Option<DialError>)
      ensures e == Reason(cfg, n, dialing.Keys, peers.Keys, Keys(history.items))
      ensures e.None? <==> CanDial(n)
    {
      if n.id == cfg.self {
        return Some(IsSelf);
      }
      if n.ip.Some? && n.tcp == 0 {
        return Some(NoPort);
      }
      if n.id in dialing {
        return Some(AlreadyDialing);
      }
      if n.id in peers {
        return Some(AlreadyConnected);
      }
      if cfg.netRestrict.Some? && (n.ip.None? || n.ip.value !in cfg.netRestrict.value) {
        return Some(NotWhitelisted);
      }
      var recent := history.Contains(n.id);
      if recent {
        return Some(RecentlyDialed);
      }
      return None;
    }

    /** There is no reason exactly for an allowed address of another node that is not known from elsewhere. */
    lemma CanDialIff(n: Node)
      ensures CanDial(n) <==>
                && n.id != cfg.self && (n.ip.Some? ==> n.tcp > 0)
                && (cfg.netRestrict.Some? ==> n.ip.Some? && n.ip.value in cfg.netRestrict.value)
                && n.id !in dialing && n.id !in peers && forall x :: x in history.items ==> x.item != n.id
      ensures CanDial(n) ==> n.id !in Keys(history.items)
    {
      assert n.id in Keys(history.items) <==> exists x :: x in history.items && x.item == n.id;
    }

    /** Time may have passed since the clock was last read. */
    method Now() returns (now: Time)
      requires Remembered()
      modifies this`clock
      ensures Remembered() && now == clock >= old(clock)
    {
      var passed :| 0 <= passed;
      clock := clock + passed;
      now := clock;
    }

    /** Starts a dial; never to a node that is self, being dialed, connected or in the history. */
    method StartDial(task: DialTask)
      requires CanDial(task.dest) && Remembered() && Spaced()
      modifies this`dialing, this`started, this`clock, history
      ensures dialing == old(dialing)[task.dest.id := task] && task.dest.id !in old(dialing)
      ensures task.dest.id != cfg.self && task.dest.id !in peers && task.dest.id !in old(Keys(history.items))
      ensures task.dest.ip.Some? ==> task.dest.tcp > 0
      ensures cfg.netRestrict.Some? ==> task.dest.ip.Some? && task.dest.ip.value in cfg.netRestrict.value
      ensures started == old(started) + [Dial(task.dest.id, clock)] && clock >= old(clock)
      ensures Remembered() && Spaced() && Keys(history.items) == old(Keys(history.items)) + {task.dest.id}
      ensures forall x :: x in old(history.items) ==> x in history.items
      ensures ExpItem(task.dest.id, clock + 35_000_000_000) in history.items
    {
      hide AllRemembered, AllSpaced, Keys, Scheduler.CanDial;
      CanDialIff(task.dest);
      var now := Now();
      ghost var before := history.items;
      history.Add(task.dest.id, now + DIAL_HISTORY_EXPIRATION);
      Added(before, history.items, ExpItem(task.dest.id, now + DIAL_HISTORY_EXPIRATION));
      AnotherDial(started, now, task.dest.id, before, history.items);
      dialing := dialing[task.dest.id := task];
      started := started + [Dial(task.dest.id, now)];
    }

    // ------------------------------------------------ the pool of static tasks

    method AddToStaticPool(task: DialTask)
      requires Linked() && task in statics.Values && task.staticPoolIndex == -1
      modifies this`staticPool, task`staticPoolIndex
      ensures Linked() && staticPool == old(staticPool) + [task] && task.staticPoolIndex == |old(staticPool)|
      ensures old(Ready() && CanDial(task.dest)) ==> Ready()
      ensures old(NoneWaitingBut(Some(task.dest.id))) ==> NoneWaitingBut(None)
    {
      hide Reason, Keys;
      staticPool := staticPool + [task];
      task.staticPoolIndex := |staticPool| - 1;
    }

    /** The last task of the pool takes the place of the removed one, which may be itself. */
    method RemoveFromStaticPool(idx: nat)
      requires PoolIndexed() && idx < |staticPool|
      modifies this`staticPool, {staticPool[idx], staticPool[|staticPool|-1]}`staticPoolIndex
      ensures PoolIndexed() && old(staticPool)[idx].staticPoolIndex == -1
      ensures var end := |old(staticPool)| - 1;
              staticPool == old(staticPool)[idx := old(staticPool)[end]][..end]
    {
      var task := staticPool[idx];
      var end := |staticPool| - 1;
      staticPool := staticPool[idx := staticPool[end]];
      staticPool[idx].staticPoolIndex := idx;
      staticPool := staticPool[..end];
      task.staticPoolIndex := -1;
    }

    ghost predicate PoolIndexed()
      reads this`staticPool, staticPool
    {
      forall i :: 0 <= i < |staticPool| ==> staticPool[i].staticPoolIndex == i
    }

    lemma NotWaiting(id: ID)
      requires NoneWaitingBut(Some(id)) && id in statics && !CanDial(statics[id].dest)
      ensures NoneWaitingBut(None)
    {
    }

    lemma PoolPositions()
      requires Linked()
      ensures PoolIndexed() && forall i :: 0 <= i < |staticPool| ==> staticPool[i] in statics.Values
      ensures forall id :: id in statics ==>
                var k := statics[id].staticPoolIndex;
                && statics[id].dest.id == id && statics[id].isStatic
                && (k == -1 || (0 <= k < |staticPool| && staticPool[k] == statics[id]))
    {
    }

    /** Moves the static task of `id`, if there is one, into the pool if it may be dialed now. */
    method UpdateStaticPool(id: ID)
      requires Linked() && Ready() && NoneWaitingBut(Some(id))
      modifies this`staticPool, statics.Values`staticPoolIndex
      ensures Linked() && Ready() && NoneWaitingBut(None)
    {
      hide Reason, Keys;
      if id in statics && statics[id].staticPoolIndex < 0 {
        var task := statics[id];
        var e := CheckDial(task.dest);
        if e.None? {
          AddToStaticPool(task);
        }
      }
    }

    /** Whether a node may be dialed depends on the entries of that node only. */
    twostate lemma OnlyAffects(id: ID)
      requires dialing.Keys - {id} == old(dialing.Keys) - {id} && peers.Keys - {id} == old(peers.Keys) - {id}
      requires Keys(history.items) - {id} == old(Keys(history.items)) - {id}
      ensures forall n: Node :: n.id != id ==> (CanDial(n) <==> old(CanDial(n)))
      ensures id in dialing || id in peers || id in Keys(history.items) ==> forall n: Node :: n.id == id ==> !CanDial(n)
    {
      hide Keys;
      forall n: Node | n.id != id
        ensures CanDial(n) <==> old(CanDial(n))
      {
        assert n.id in dialing.Keys <==> n.id in dialing.Keys - {id};
        assert n.id in old(dialing.Keys) <==> n.id in old(dialing.Keys) - {id};
        assert n.id in peers.Keys <==> n.id in peers.Keys - {id};
        assert n.id in old(peers.Keys) <==> n.id in old(peers.Keys) - {id};
        assert n.id in Keys(history.items) <==> n.id in Keys(history.items) - {id};
        assert n.id in old(Keys(history.items)) <==> n.id in old(Keys(history.items)) - {id};
      }
    }

    /** Starting a static dial leaves the number of dynamic ones alone; a dynamic one adds one. */
    twostate lemma DynDialsChange(id: ID)
      requires id in dialing && id !in old(dialing) && dialing == old(dialing)[id := dialing[id]]
      ensures DynDials() == old(DynDials()) + (if dialing[id].isStatic then 0 else 1)
    {
      assert DynIds(dialing) == if dialing[id].isStatic then DynIds(old(dialing)) else DynIds(old(dialing)) + {id};
    }

    /** Removing a task from the pool keeps the positions right. */
    twostate lemma Unpooled(idx: nat)
      requires old(Linked()) && idx < |old(staticPool)| && statics == old(statics)
      requires var end := |old(staticPool)| - 1;
               && PoolIndexed()
               && staticPool == old(staticPool)[idx := old(staticPool)[end]][..end]
               && old(staticPool)[idx].staticPoolIndex == -1
               && (forall t :: t in statics.Values ==>
                     && t.dest == old(t.dest)
                     && (|| t.staticPoolIndex == old(t.staticPoolIndex)
                         || t == old(staticPool)[idx] || t == old(staticPool)[end]))
      ensures Linked()
      ensures forall id :: id in statics ==>
                (statics[id].staticPoolIndex == -1 <==>
                   old(statics[id].staticPoolIndex) == -1 || statics[id] == old(staticPool)[idx])
    {
      var end := |old(staticPool)| - 1;
      forall i | 0 <= i < |staticPool|
        ensures staticPool[i] in statics.Values && staticPool[i].staticPoolIndex == i
      {
        assert staticPool[i] == old(staticPool)[if i == idx then end else i];
      }
      forall id | id in statics
        ensures var k := statics[id].staticPoolIndex;
                && (k == -1 || (0 <= k < |staticPool| && staticPool[k] == statics[id]))
                && (k == -1 <==> old(statics[id].staticPoolIndex) == -1 || statics[id] == old(staticPool)[idx])
      {
        var t := statics[id];
        assert t in statics.Values;
        var k0 := old(t.staticPoolIndex);
        if k0 == end && idx != end {
          assert staticPool[idx] == t;
        } else if k0 != -1 && k0 != idx {
          assert staticPool[k0] == t;
        }
      }
    }

    /** If the task taken out must not be dialed any more, and nothing else has changed, all is well. */
    twostate lemma StillReady(idx: nat)
      requires old(Linked())
      requires old(Ready())
      requires old(NoneWaitingBut(None))
      requires statics == old(statics)
      requires idx < |old(staticPool)|
      requires var end := |old(staticPool)| - 1;
               && PoolIndexed()
               && staticPool == old(staticPool)[idx := old(staticPool)[end]][..end]
               && old(staticPool)[idx].staticPoolIndex == -1
               && (forall t :: t in statics.Values ==>
                     && t.dest == old(t.dest)
                     && (|| t.staticPoolIndex == old(t.staticPoolIndex)
                         || t == old(staticPool)[idx] || t == old(staticPool)[end]))
      requires var id := old(staticPool[idx].dest.id);
               && dialing.Keys - {id} == old(dialing.Keys) - {id} && peers.Keys - {id} == old(peers.Keys) - {id}
               && Keys(history.items) - {id} == old(Keys(history.items)) - {id} && (id in dialing || id in peers)
      ensures Linked() && Ready() && NoneWaitingBut(None)
    {
      hide Reason, Keys;
      Unpooled(idx);
      OnlyAffects(old(staticPool[idx].dest.id));
      var removed := old(staticPool)[idx];
      forall i | 0 <= i < |staticPool|
        ensures CanDial(staticPool[i].dest)
      {
        var i0 := if i == idx then |old(staticPool)| - 1 else i;
        assert staticPool[i] == old(staticPool)[i0] && i0 != idx;
        assert staticPool[i] in statics.Values && removed in statics.Values;
        assert staticPool[i] != removed;
      }
    }

    /** Starts the task at position `idx` of the pool and takes it out. */
    method StartStatic(idx: nat)
      requires Valid() && idx < |staticPool|
      modifies this`dialing, this`started, this`clock, this`staticPool, history, statics.Values`staticPoolIndex
      ensures Valid() && |staticPool| == |old(staticPool)| - 1 && DynDials() == old(DynDials()) && KnownTasks()
      ensures |dialing| == |old(dialing)| + 1
      ensures var task := old(staticPool[idx]); dialing == old(dialing)[task.dest.id := task]
      ensures forall t :: t in old(staticPool) <==> t in staticPool || t == old(staticPool[idx])
    {
      hide Reason, Keys, Scheduler.Remembered, Scheduler.Spaced, Scheduler.NoneWaitingBut;
      var task := staticPool[idx];
      StartDial(task);
      DynDialsChange(task.dest.id);
      RemoveFromStaticPool(idx);
      StillReady(idx);
      SwappedOut(old(staticPool), idx);
    }

    /** Drains the pool, in random order and whatever the number of free slots. */
    method StartStaticDials()
      requires Valid()
      modifies this`dialing, this`started, this`clock, this`staticPool, history, statics.Values`staticPoolIndex
      ensures Valid() && staticPool == [] && DynDials() == old(DynDials()) && KnownTasks()
      ensures |dialing| == |old(dialing)| + |old(staticPool)| && PoolStarted()
    {
      hide Scheduler.Valid, Scheduler.DynDials;
      while |staticPool| > 0
        invariant Valid() && DynDials() == old(DynDials()) && KnownTasks()
        invariant |dialing| + |staticPool| == |old(dialing)| + |old(staticPool)|
        invariant forall id :: id in old(dialing) ==> id in dialing && dialing[id] == old(dialing[id])
        invariant forall t :: t in old(staticPool) ==>
                    t in staticPool || (t.dest.id in dialing && dialing[t.dest.id] == t)
        invariant forall id :: id in dialing ==> id in old(dialing) || dialing[id] in old(staticPool)
        invariant forall t :: t in staticPool ==> t in old(staticPool)
        decreases |staticPool|
      {
        var idx :| 0 <= idx < |staticPool|;
        StartStatic(idx);
      }
    }

    /** To the dials that were running exactly those of the pool have been added. */
    twostate predicate PoolStarted()
      reads this`dialing
    {
      && (forall id :: id in old(dialing) ==> id in dialing && dialing[id] == old(dialing[id]))
      && (forall t :: t in old(staticPool) ==> old(t.dest.id) in dialing && dialing[old(t.dest.id)] == t)
      && (forall id :: id in dialing ==> id in old(dialing) || dialing[id] in old(staticPool))
    }

    /** The tasks and the pool are as they were. */
    twostate predicate TasksUnchanged()
      reads this`statics, this`staticPool, statics.Values
    {
      && statics == old(statics) && staticPool == old(staticPool)
      && forall t :: t in statics.Values ==> t.dest == old(t.dest) && t.staticPoolIndex == old(t.staticPoolIndex)
    }

    /** A node that is not in the pool has become undialable. */
    twostate lemma Blocked(id: ID)
      requires old(Linked())
      requires old(Ready())
      requires old(NoneWaitingBut(None))
      requires TasksUnchanged()
      requires id in statics ==> statics[id].staticPoolIndex == -1
      requires dialing.Keys - {id} == old(dialing.Keys) - {id} && peers.Keys - {id} == old(peers.Keys) - {id}
      requires Keys(history.items) - {id} == old(Keys(history.items)) - {id} && (id in dialing || id in peers)
      ensures Linked() && Ready() && NoneWaitingBut(None)
    {
      hide Reason, Keys;
      OnlyAffects(id);
      assert Linked();
      forall i | 0 <= i < |staticPool|
        ensures CanDial(staticPool[i].dest)
      {
        assert staticPool[i] in statics.Values;
      }
    }

    /** One reason not to dial a node has gone. */
    twostate lemma Freed(id: ID)
      requires old(Linked())
      requires old(Ready())
      requires old(NoneWaitingBut(None))
      requires statics == old(statics) && staticPool == old(staticPool)
      requires forall t :: t in statics.Values ==>
                 && t.staticPoolIndex == old(t.staticPoolIndex)
                 && (t.dest == old(t.dest) || (t.dest.id == old(t.dest.id) == id && t.staticPoolIndex == -1))
      requires dialing.Keys - {id} == old(dialing.Keys) - {id} && peers.Keys - {id} == old(peers.Keys) - {id}
      requires Keys(history.items) - {id} == old(Keys(history.items)) - {id}
      requires dialing.Keys <= old(dialing.Keys) && peers.Keys <= old(peers.Keys)
      requires Keys(history.items) <= old(Keys(history.items))
      ensures Linked() && Ready() && NoneWaitingBut(Some(id))
    {
      hide Keys;
      OnlyAffects(id);
      assert Linked();
      forall i | 0 <= i < |staticPool|
        ensures CanDial(staticPool[i].dest)
      {
        assert staticPool[i] in statics.Values;
        assert staticPool[i].dest == old(staticPool[i].dest);
      }
    }

    /** A task that is being dialed is not in the pool. */
    lemma DialingIsNotPooled(id: ID)
      requires Linked() && Ready() && Running() && id in dialing
      ensures dialing[id].dest.id == id
      ensures forall t :: t in statics.Values && t == dialing[id] ==> t.staticPoolIndex == -1
    {
      forall t | t in statics.Values && t == dialing[id]
        ensures t.staticPoolIndex == -1
      {
        var s :| s in statics && statics[s] == t;
        if t.staticPoolIndex != -1 {
          assert staticPool[t.staticPoolIndex] == t;
          assert CanDial(t.dest);
        }
      }
    }

    /** One task more is running, within the limit. */
    twostate lemma MoreRunning(id: ID)
      requires old(Running()) && id in dialing && id !in old(dialing) && dialing == old(dialing)[id := dialing[id]]
      requires dialing[id].dest.id == id && forall t :: t in old(dialing.Values) ==> t.dest == old(t.dest)
      requires !dialing[id].isStatic ==> old(DynDials()) < cfg.maxActiveDials
      ensures Running()
    {
      DynDialsChange(id);
      forall k | k in dialing
        ensures dialing[k].dest.id == k
      {
        if k != id {
          assert dialing[k] == old(dialing)[k];
          assert dialing[k] in old(dialing.Values);
        }
      }
    }

    /** One task fewer is running; those that are keep their ids. */
    twostate lemma StillRunning(id: ID)
      requires old(Running()) && dialing == old(dialing) - {id}
      requires forall t :: t in old(dialing.Values) ==> t.dest.id == old(t.dest.id)
      ensures Running()
    {
      SubsetSize(DynIds(dialing), DynIds(old(dialing)));
      forall k | k in dialing
        ensures dialing[k].dest.id == k
      {
        assert dialing[k] == old(dialing)[k];
        assert dialing[k] in old(dialing.Values);
      }
    }

    /** A static task for `id` has been made; it is not in the pool yet. */
    twostate lemma StaticFiled(id: ID)
      requires old(Linked())
      requires old(Ready())
      requires old(NoneWaitingBut(None))
      requires id !in old(statics) && id in statics && statics == old(statics)[id := statics[id]]
      requires statics[id].dest.id == id && statics[id].isStatic && statics[id].staticPoolIndex == -1
      requires staticPool == old(staticPool) && dialing == old(dialing) && peers == old(peers)
      requires history.items == old(history.items)
      requires forall t :: t in old(statics.Values) ==>
                 t.dest == old(t.dest) && t.staticPoolIndex == old(t.staticPoolIndex)
      ensures Linked() && Ready() && NoneWaitingBut(Some(id))
    {
      hide Reason, Keys;
      forall i | 0 <= i < |staticPool|
        ensures staticPool[i] in statics.Values && staticPool[i].staticPoolIndex == i && CanDial(staticPool[i].dest)
      {
        var t := staticPool[i];
        assert t in old(statics.Values);
        assert statics[t.dest.id] == t;
      }
      forall s | s in statics && s != id
        ensures statics[s] in old(statics.Values)
      {
        assert statics[s] == old(statics)[s];
      }
    }

    /** The static task of `id` has been dropped; it is not in the pool any more. */
    twostate lemma StaticDropped(id: ID)
      requires old(Linked())
      requires old(Ready())
      requires old(NoneWaitingBut(None))
      requires id in old(statics) && statics == old(statics) - {id} && old(statics[id].staticPoolIndex) == -1
      requires staticPool == old(staticPool) && dialing == old(dialing) && peers == old(peers)
      requires history.items == old(history.items)
      requires forall t :: t in old(statics.Values) ==>
                 t.dest == old(t.dest) && t.staticPoolIndex == old(t.staticPoolIndex)
      ensures Linked() && Ready() && NoneWaitingBut(None)
    {
      hide Reason, Keys;
      forall s | s in statics
        ensures statics[s] in old(statics.Values)
      {
        assert statics[s] == old(statics)[s];
      }
      forall i | 0 <= i < |staticPool|
        ensures staticPool[i] in statics.Values && staticPool[i].staticPoolIndex == i && CanDial(staticPool[i].dest)
      {
        var t := staticPool[i];
        assert t in old(statics.Values);
        assert t.dest.id != id;
        assert statics[t.dest.id] == t;
      }
    }

    /** The same for a task that was in the pool, at position `idx`. */
    twostate lemma DroppedFromPool(idx: nat)
      requires old(Linked())
      requires old(Ready())
      requires old(NoneWaitingBut(None))
      requires idx < |old(staticPool)| && statics == old(statics) - {old(staticPool[idx].dest.id)}
      requires var end := |old(staticPool)| - 1;
               && PoolIndexed()
               && staticPool == old(staticPool)[idx := old(staticPool)[end]][..end]
               && (forall t :: t in old(statics.Values) ==>
                     && t.dest == old(t.dest)
                     && (|| t.staticPoolIndex == old(t.staticPoolIndex)
                         || t == old(staticPool)[idx] || t == old(staticPool)[end]))
      requires dialing == old(dialing) && peers == old(peers) && history.items == old(history.items)
      ensures Linked() && Ready() && NoneWaitingBut(None)
    {
      hide Reason, Keys;
      var end := |old(staticPool)| - 1;
      var removed := old(staticPool)[idx];
      assert removed in old(statics.Values);
      forall i | 0 <= i < |staticPool|
        ensures staticPool[i] in statics.Values && CanDial(staticPool[i].dest)
      {
        var t := staticPool[i];
        assert t == old(staticPool)[if i == idx then end else i];
        assert t in old(statics.Values) && t != removed;
        assert statics[t.dest.id] == t;
      }
      forall s | s in statics
        ensures statics[s] in old(statics.Values) && statics[s] != removed
        ensures var k := statics[s].staticPoolIndex; k == -1 || (0 <= k < |staticPool| && staticPool[k] == statics[s])
        ensures statics[s].staticPoolIndex == -1 ==> old(statics[s].staticPoolIndex) == -1
      {
        var t := statics[s];
        assert t == old(statics)[s];
        var k0 := old(t.staticPoolIndex);
        if k0 == end {
          assert staticPool[idx] == t;
        } else if k0 != -1 {
          assert staticPool[k0] == t;
        }
      }
    }

    /** Whatever has a port may be dialed at first. */
    lemma IdleCanDial(n: Node)
      requires dialing == map[] && peers == map[] && history.items == [] && cfg.netRestrict.None?
      requires n.id != cfg.self && n.tcp > 0
      ensures CanDial(n)
    {
    }

    // ------------------------------------------------ the loop

    /** The number of free dial slots; negative when peers connect while their dials still run. */
    function FreeDialSlots(): int
      reads this`dialing, this`dialPeers
    {
      var slots := (cfg.maxDialPeers - dialPeers) * 2;
      (if slots > cfg.maxActiveDials then cfg.maxActiveDials else slots) - |dialing|
    }

    /** What holds whenever the loop waits for an event. */
    ghost predicate AtSelect()
      reads this, history, statics.Values, dialing.Values, staticPool
    {
      && Valid()
      && staticPool == []
      && (forall id :: id in statics ==> statics[id].staticPoolIndex == -1 && !CanDial(statics[id].dest))
    }

    /**
      The part of the loop before the select. Slots are counted before the static dials start, and
      those need none: all dials together are within the limit exactly if those running and those
      pooled were.
     */
    method Prepare() returns (slots: int)
      requires Valid()
      modifies this`dialing, this`started, this`clock, this`staticPool, history, statics.Values`staticPoolIndex
      ensures AtSelect() && KnownTasks()
      ensures slots == old(FreeDialSlots())
      ensures slots > 0 ==> DynDials() < cfg.maxActiveDials && dialPeers < cfg.maxDialPeers
      ensures slots > 0 <==>
                |old(dialing)| < cfg.maxActiveDials && |old(dialing)| < 2 * (cfg.maxDialPeers - dialPeers)
      ensures |dialing| == |old(dialing)| + |old(staticPool)| && PoolStarted()
      ensures Grown(old(dialing), dialing, statics)
      ensures forall id :: id in statics && old(statics[id] in staticPool) ==>
                id in dialing && dialing[id] == statics[id]
      ensures |dialing| <= cfg.maxActiveDials <==> |old(dialing)| + |old(staticPool)| <= cfg.maxActiveDials
    {
      slots := FreeDialSlots();
      DynDialsBound();
      StartStaticDials();
    }

    lemma DynDialsBound()
      ensures DynDials() <= |dialing|
    {
      SubsetSize(DynIds(dialing), dialing.Keys);
    }

    /** A candidate from the node iterator; only read while slots are free. */
    method OnNode(node: Node)
      requires AtSelect() && DynDials() < cfg.maxActiveDials && dialPeers < cfg.maxDialPeers
      modifies this`dialing, this`started, this`clock, history
      ensures Valid() && KnownTasks() && Follows(NodeIn(node)) && DialsKept(NodeIn(node))
      ensures if old(CanDial(node)) then started == old(started) + [Dial(node.id, clock)] && node.id in dialing
              else unchanged(this) && unchanged(history)
      ensures |dialing| == |old(dialing)| + if old(CanDial(node)) then 1 else 0
    {
      hide Reason, Scheduler.Valid, Scheduler.AtSelect, Scheduler.CanDial, Scheduler.DynDials, Kept;
      SelectIsValid();
      NoneEnds(NodeIn(node), dialing);
      var e := CheckDial(node);
      if e.None? {
        CanDialIff(node);
        DialNode(node);
        OneStarts(node, old(dialing), dialing[node.id]);
      }
    }

    /** Dials a candidate. */
    method DialNode(node: Node)
      requires AtSelect() && CanDial(node) && DynDials() < cfg.maxActiveDials
      modifies this`dialing, this`started, this`clock, history
      ensures Valid() && started == old(started) + [Dial(node.id, clock)]
      ensures node.id in dialing && dialing == old(dialing)[node.id := dialing[node.id]]
      ensures fresh(dialing[node.id]) && dialing[node.id].dest == node && !dialing[node.id].isStatic
      ensures forall x :: x in old(history.items) ==> x in history.items
    {
      hide Reason, Keys, Scheduler.Remembered, Scheduler.Spaced, Scheduler.Linked, Scheduler.Ready,
           Scheduler.NoneWaitingBut, Scheduler.Running, Scheduler.CanDial;
      var task := new DialTask(node, false);
      StartDial(task);
      MoreRunning(node.id);
      Blocked(node.id);
    }

    /** A dial has ended; resolving may have found a new endpoint of the same node. */
    method OnDone(id: ID, resolved: Node)
      requires Valid() && id in dialing && resolved.id == id
      modifies this`dialing, this`staticPool, statics.Values, dialing[id]
      ensures Valid() && KnownTasks() && Follows(Done(id, resolved)) && DialsKept(Done(id, resolved))
      ensures var task := old(dialing[id]); task.dest == if task.isStatic then resolved else old(dialing[id].dest)
    {
      hide Scheduler.Valid, Scheduler.CanDial, Kept;
      OneEnds(id, resolved, dialing);
      Finish(id, resolved);
    }

    method Finish(id: ID, resolved: Node)
      requires Valid() && id in dialing && resolved.id == id
      modifies this`dialing, this`staticPool, statics.Values, dialing[id]
      ensures Valid() && dialing == old(dialing) - {id}
      ensures var task := old(dialing[id]); task.dest == if task.isStatic then resolved else old(dialing[id].dest)
      ensures forall k :: k in statics ==>
                statics[k].dest == if k == id && statics[k] == old(dialing[id]) then resolved else old(statics[k].dest)
    {
      hide Reason, Keys, Scheduler.Remembered, Scheduler.Spaced, Scheduler.Linked, Scheduler.Ready,
           Scheduler.NoneWaitingBut, Scheduler.Running, Scheduler.CanDial;
      PoolPositions();
      var task := dialing[id];
      DialingIsNotPooled(id);
      if task.isStatic {
        task.dest := resolved;
      }
      dialing := dialing - {id};
      StillRunning(id);
      Freed(id);
      UpdateStaticPool(id);
    }

    method OnAddPeer(c: Conn)
      requires Valid()
      modifies this`peers, this`dialPeers, this`staticPool, statics.Values`staticPoolIndex
      ensures Valid() && KnownTasks() && Follows(PeerAdded(c)) && DialsKept(PeerAdded(c))
    {
      hide Scheduler.Valid, Scheduler.CanDial, Kept;
      NoneEnds(PeerAdded(c), dialing);
      Connect(c);
    }

    method Connect(c: Conn)
      requires Valid()
      modifies this`peers, this`dialPeers, this`staticPool, statics.Values`staticPoolIndex
      ensures Valid() && peers == old(peers)[c.id := c]
      ensures dialPeers == old(dialPeers) + (if c.dynDialed || c.staticDialed then 1 else 0)
    {
      hide Reason, Keys, Scheduler.Remembered, Scheduler.Spaced, Scheduler.Linked, Scheduler.Ready,
           Scheduler.NoneWaitingBut, Scheduler.Running, Scheduler.CanDial;
      PoolPositions();
      if c.dynDialed || c.staticDialed {
        dialPeers := dialPeers + 1;
      }
      peers := peers[c.id := c];
      if c.id in statics && statics[c.id].staticPoolIndex >= 0 {
        var idx := statics[c.id].staticPoolIndex;
        RemoveFromStaticPool(idx);
        StillReady(idx);
      } else {
        Blocked(c.id);
      }
    }

    method OnRemovePeer(c: Conn)
      requires Valid()
      modifies this`peers, this`dialPeers, this`staticPool, statics.Values`staticPoolIndex
      ensures Valid() && KnownTasks() && Follows(PeerRemoved(c)) && DialsKept(PeerRemoved(c))
    {
      hide Scheduler.Valid, Scheduler.CanDial, Kept;
      NoneEnds(PeerRemoved(c), dialing);
      Disconnect(c);
    }

    method Disconnect(c: Conn)
      requires Valid()
      modifies this`peers, this`dialPeers, this`staticPool, statics.Values`staticPoolIndex
      ensures Valid() && peers == old(peers) - {c.id}
      ensures dialPeers == old(dialPeers) - (if c.dynDialed || c.staticDialed then 1 else 0)
    {
      hide Reason, Keys, Scheduler.Remembered, Scheduler.Spaced, Scheduler.Linked,
           Scheduler.Ready, Scheduler.NoneWaitingBut, Scheduler.CanDial;
      if c.dynDialed || c.staticDialed {
        dialPeers := dialPeers - 1;
      }
      peers := peers - {c.id};
      Freed(c.id);
      UpdateStaticPool(c.id);
    }

    method OnAddStatic(node: Node)
      requires Valid()
      modifies this`statics, this`staticPool
      ensures Valid() && KnownTasks() && Follows(StaticAdded(node)) && DialsKept(StaticAdded(node))
      ensures |staticPool| == |old(staticPool)| + if node.id !in old(statics) && old(CanDial(node)) then 1 else 0
      ensures node.id in statics && (node.id !in old(statics) && old(CanDial(node)) ==> statics[node.id] in staticPool)
    {
      hide Scheduler.Valid, Scheduler.CanDial, Kept, StaticsChange;
      NoneEnds(StaticAdded(node), dialing);
      if node.id !in statics {
        FileStatic(node);
      }
      OneFiled(node, old(statics), statics);
    }

    /** A new static task; it is pooled if its node may be dialed. */
    method FileStatic(node: Node)
      requires Valid() && node.id !in statics
      modifies this`statics, this`staticPool
      ensures Valid() && node.id in statics && statics == old(statics)[node.id := statics[node.id]]
      ensures fresh(statics[node.id]) && statics[node.id].dest == node
      ensures staticPool == if old(CanDial(node)) then old(staticPool) + [statics[node.id]] else old(staticPool)
    {
      hide Reason, Keys, Scheduler.Remembered, Scheduler.Spaced, Scheduler.Linked, Scheduler.Ready,
           Scheduler.NoneWaitingBut, Scheduler.Running, Scheduler.CanDial;
      var task := new DialTask(node, true);
      statics := statics[node.id := task];
      StaticFiled(node.id);
      var e := CheckDial(node);
      if e.None? {
        assert statics[node.id] == task;
        AddToStaticPool(task);
      } else {
        NotWaiting(node.id);
      }
    }

    method OnRemoveStatic(id: ID)
      requires Valid()
      modifies this`statics, this`staticPool, statics.Values`staticPoolIndex
      ensures Valid() && KnownTasks() && Follows(StaticRemoved(id)) && DialsKept(StaticRemoved(id))
    {
      hide Scheduler.Valid, Scheduler.CanDial, Kept;
      NoneEnds(StaticRemoved(id), dialing);
      if id in statics {
        DropStatic(id);
      }
    }

    method DropStatic(id: ID)
      requires Valid() && id in statics
      modifies this`statics, this`staticPool, statics.Values`staticPoolIndex
      ensures Valid() && statics == old(statics) - {id}
    {
      hide Reason, Keys, Scheduler.Remembered, Scheduler.Spaced, Scheduler.Linked, Scheduler.Ready,
           Scheduler.NoneWaitingBut, Scheduler.Running, Scheduler.CanDial;
      PoolPositions();
      var task := statics[id];
      statics := statics - {id};
      if task.staticPoolIndex >= 0 {
        var idx := task.staticPoolIndex;
        RemoveFromStaticPool(idx);
        DroppedFromPool(idx);
      } else {
        StaticDropped(id);
      }
    }

    /** The history timer: every expired entry gives its node another chance. */
    method OnHistoryExpired()
      requires Valid()
      modifies this`clock, this`staticPool, history, statics.Values`staticPoolIndex
      ensures Valid() && KnownTasks() && Follows(HistoryTimer) && DialsKept(HistoryTimer)
    {
      hide Scheduler.Linked, Scheduler.Ready, Scheduler.NoneWaitingBut, Scheduler.Spaced, Scheduler.Running,
           HeapOrdered;
      var now := Now();
      while |history.items| > 0 && history.items[0].exp < now
        invariant Valid() && clock == now && history.Valid()
        invariant forall x :: x in history.items ==> x in old(history.items)
        invariant forall x :: x in old(history.items) && x.exp >= now ==> x in history.items
        decreases |history.items|
      {
        ExpireFirst();
      }
      if history.items != [] {
        RootIsLeastItem(history.items);
      }
    }

    /** The statistics timer. */
    method OnLog()
      requires Valid()
      ensures Valid() && KnownTasks() && Follows(LogTimer) && DialsKept(LogTimer)
    {
    }

    method ExpireFirst()
      requires Valid() && history.items != [] && history.items[0].exp < clock
      modifies this`staticPool, history, statics.Values`staticPoolIndex
      ensures Valid() && |history.items| == |old(history.items)| - 1
      ensures forall y :: y in old(history.items) ==> y in history.items || y == old(history.items[0])
      ensures forall y :: y in history.items ==> y in old(history.items)
    {
      hide Reason, Scheduler.Spaced;
      var x := history.Pop();
      PopKeys(old(history.items), history.items, x);
      assert Remembered();
      Freed(x.item);
      UpdateStaticPool(x.item);
    }

    /** One event of the loop's select; a dial's result comes from a dial that is running. */
    method Handle(event: Event)
      requires AtSelect() && (event.NodeIn? ==> DynDials() < cfg.maxActiveDials && dialPeers < cfg.maxDialPeers)
      requires event.Done? ==> event.id in dialing && event.resolved.id == event.id
      modifies this, history, statics.Values, dialing.Values
      ensures Valid() && KnownTasks() && Follows(event) && DialsKept(event)
      ensures event.StaticAdded? && event.node.id !in old(statics) && old(CanDial(event.node)) ==>
                event.node.id in statics && statics[event.node.id] in staticPool
    {
      hide Scheduler.Valid, Scheduler.AtSelect, Scheduler.DynDials, Scheduler.CanDial, Scheduler.Follows,
           Scheduler.DialsKept, Scheduler.KnownTasks;
      SelectIsValid();
      match event {
        case NodeIn(node) => OnNode(node);
        case Done(id, resolved) => OnDone(id, resolved);
        case PeerAdded(c) => OnAddPeer(c);
        case PeerRemoved(c) => OnRemovePeer(c);
        case StaticAdded(node) => OnAddStatic(node);
        case StaticRemoved(id) => OnRemoveStatic(id);
        case HistoryTimer => OnHistoryExpired();
        case LogTimer => OnLog();
      }
    }

    /** Candidates are only taken while slots are free, and results come from dials that are running. */
    predicate Received(event: Event, slots: int)
      reads this`dialing
    {
      && (event.NodeIn? ==> slots > 0)
      && (event.Done? ==> event.id in dialing && event.resolved.id == event.id)
    }

    /** An event, if it can occur. */
    method Receive(event: Event, slots: int)
      requires AtSelect() && (slots > 0 ==> DynDials() < cfg.maxActiveDials && dialPeers < cfg.maxDialPeers)
      modifies this, history, statics.Values, dialing.Values
      ensures Valid() && KnownTasks() && PeersFollow(event) && StaticsFollow(event)
      ensures Kept(event, event.NodeIn? && slots > 0 && old(CanDial(event.node)), old(dialing), dialing)
      ensures event.StaticAdded? && event.node.id !in old(statics) && old(CanDial(event.node)) ==>
                event.node.id in statics && statics[event.node.id] in staticPool
    {
      hide Scheduler.Valid, Scheduler.AtSelect, Scheduler.DynDials, Scheduler.CanDial, Scheduler.HistoryFollows,
           Scheduler.DestsFollow, Scheduler.DialsFollow, Scheduler.KnownTasks, Kept;
      if Received(event, slots) {
        Handle(event);
      } else {
        Handle(LogTimer);
        SkippedKeeps(event, old(dialing), dialing);
      }
    }

    /** One turn of the loop: an event, and what is done before the next one is waited for. */
    method Turn(event: Event, slots: int) returns (next: int)
      requires AtSelect() && (slots > 0 ==> DynDials() < cfg.maxActiveDials && dialPeers < cfg.maxDialPeers)
      modifies this, history, statics.Values, dialing.Values
      ensures AtSelect() && KnownTasks() && PeersFollow(event) && StaticsFollow(event)
      ensures NewStaticDialed(event) && TurnDials(event, slots)
      ensures StaticIds(event, old(statics.Keys), statics.Keys)
      ensures next > 0 ==> DynDials() < cfg.maxActiveDials && dialPeers < cfg.maxDialPeers
    {
      hide Scheduler.Valid, Scheduler.AtSelect, Scheduler.DynDials, Scheduler.FreeDialSlots, Scheduler.CanDial,
           Scheduler.PoolStarted, Kept, Grown, TurnKept, StaticsChange, StaticIds;
      Receive(event, slots);
      ghost var handled := dialing;
      next := Prepare();
      StaticIdsChange(event, old(statics), statics);
      ghost var may := event.NodeIn? && slots > 0 && old(CanDial(event.node));
      KeptAndGrown(event, may, old(dialing), handled, dialing, statics);
    }

    /**
      The loop, for any sequence of events. Whenever it waits, the pool is empty and no static
      node that may be dialed is waiting; over the whole run no dial is started to a node
      that is self, being dialed, connected or in the history (the condition of StartDial),
      and two dials of one node are more than 35 s apart. The static nodes are those that were
      added, or there from the beginning, and not removed afterwards.
     */
    method Loop(events: seq<Event>)
      requires Valid()
      modifies this, history, statics.Values, dialing.Values
      ensures AtSelect() && KnownTasks()
      ensures AreStatic(statics.Keys, old(statics.Keys), events)
    {
      hide Scheduler.Valid, Scheduler.AtSelect, Scheduler.DynDials, Scheduler.FreeDialSlots, Scheduler.TurnDials,
           Scheduler.NewStaticDialed, Scheduler.PeersFollow, Scheduler.StaticsFollow, Scheduler.PoolStarted,
           AreStatic, StaticIds, Grown;
      var k := 0;
      var slots := Prepare();
      assert events[..0] == [];
      StaticAtFirst(old(statics.Keys));
      while k < |events|
        invariant 0 <= k <= |events| && AtSelect() && KnownTasks()
        invariant slots > 0 ==> DynDials() < cfg.maxActiveDials && dialPeers < cfg.maxDialPeers
        invariant AreStatic(statics.Keys, old(statics.Keys), events[..k])
      {
        ghost var before := statics.Keys;
        slots := Turn(events[k], slots);
        StaticNext(old(statics.Keys), events, k, before, statics.Keys);
        k := k + 1;
      }
      assert events[..k] == events;
    }

    lemma SelectIsValid()
      requires AtSelect()
      ensures Valid()
    {
    }
  }

  predicate Adds(event: Event, id: ID) {
    event.StaticAdded? && event.node.id == id
  }

  /** Event `i` adds the node, and no later one removes it. */
  predicate AddedAt(events: seq<Event>, id: ID, i: nat)
    requires i < |events|
  {
    Adds(events[i], id) && StaticRemoved(id) !in events[i+1..]
  }

  /** The node was static at first or has been added, and has not been removed since. */
  ghost predicate StaysStatic(before: set<ID>, events: seq<Event>, id: ID) {
    (id in before && StaticRemoved(id) !in events) || exists i :: 0 <= i < |events| && AddedAt(events, id, i)
  }

  ghost predicate AreStatic(ids: set<ID>, before: set<ID>, events: seq<Event>) {
    forall id :: id in ids <==> StaysStatic(before, events, id)
  }

  lemma StaticAtFirst(before: set<ID>)
    ensures AreStatic(before, before, [])
  {
  }

  lemma AddedAtNext(events: seq<Event>, event: Event, id: ID, i: nat)
    requires i <= |events|
    ensures AddedAt(events + [event], id, i)
       <==> if i == |events| then Adds(event, id) else AddedAt(events, id, i) && event != StaticRemoved(id)
  {
    if i < |events| {
      assert (events + [event])[i+1..] == events[i+1..] + [event];
    }
  }

  lemma StaticNextOne(before: set<ID>, events: seq<Event>, event: Event, id: ID)
    ensures StaysStatic(before, events + [event], id) <==>
              Adds(event, id) || (StaysStatic(before, events, id) && event != StaticRemoved(id))
  {
    hide AddedAt;
    forall i: nat | i <= |events|
      ensures AddedAt(events + [event], id, i)
         <==> if i == |events| then Adds(event, id) else AddedAt(events, id, i) && event != StaticRemoved(id)
    {
      AddedAtNext(events, event, id, i);
    }
    if Adds(event, id) {
      assert AddedAt(events + [event], id, |events|);
    }
    if i :| 0 <= i < |events| && AddedAt(events, id, i) && event != StaticRemoved(id) {
      assert AddedAt(events + [event], id, i);
    }
  }

  lemma StaticNext(first: set<ID>, events: seq<Event>, k: nat, before: set<ID>, after: set<ID>)
    requires k < |events| && AreStatic(before, first, events[..k]) && StaticIds(events[k], before, after)
    ensures AreStatic(after, first, events[..k+1])
  {
    hide StaysStatic;
    assert events[..k+1] == events[..k] + [events[k]];
    forall id
      ensures id in after <==> StaysStatic(first, events[..k+1], id)
    {
      StaticNextOne(first, events[..k], events[k], id);
    }
  }

  lemma SwappedOut<T>(s: seq<T>, idx: nat)
    requires idx < |s|
    ensures var after := s[idx := s[|s|-1]][..|s|-1]; forall x :: x in s <==> x in after || x == s[idx]
  {
    var end := |s| - 1;
    var after := s[idx := s[end]][..end];
    forall x | x in s
      ensures x in after || x == s[idx]
    {
      var i :| 0 <= i < |s| && s[i] == x;
      if i == end && idx != end {
        assert after[idx] == x;
      } else if i != idx {
        assert after[i] == x;
      }
    }
  }

  /** Two static nodes are dialed at once under a limit of one dial. */
  method ExceedsLimit(now: Time) returns (d: Scheduler)
    ensures fresh(d) && d.AtSelect() && d.cfg.maxActiveDials == 1 && |d.dialing| == 2
  {
    hide Reason, Scheduler.CanDial, Scheduler.Valid, Scheduler.AtSelect;
    d := new Scheduler(Config(0, None, 50, 1), now);
    d.IdleCanDial(Node(1, Some(1), 30303));
    d.OnAddStatic(Node(1, Some(1), 30303));
    d.IdleCanDial(Node(2, Some(2), 30303));
    d.OnAddStatic(Node(2, Some(2), 30303));
    var slots := d.Prepare();
  }

  /** What the loop's select can deliver. Nodes are only received while slots are free. */
  datatype Event =
    | NodeIn(node: Node)
    | Done(id: ID, resolved: Node)
    | PeerAdded(c: Conn)
    | PeerRemoved(c: Conn)
    | StaticAdded(node: Node)
    | StaticRemoved(id: ID)
    | HistoryTimer
    | LogTimer
  {
    /** The dial of the node is over. */
    predicate Ends(id: ID) {
      Done? && this.id == this.resolved.id == id
    }
  }

  lemma PopKeys(before: seq<ExpItem<ID>>, after: seq<ExpItem<ID>>, x: ExpItem<ID>)
    requires multiset(after) + multiset{x} == multiset(before)
    ensures Keys(after) - {x.item} == Keys(before) - {x.item} && Keys(after) <= Keys(before)
    ensures forall y :: y in before <==> y in after || y == x
  {
    forall y
      ensures y in before <==> y in after || y == x
    {
      assert y in multiset(before) <==> y in multiset(after) || y == x;
    }
  }
}
