/**
  The peer set of the p2p server (`p2p/server.go`): the run loop that admits and drops peers
  under its limits, and the mirror of the peer set that the dial scheduler keeps. The two
  loops run concurrently and meet on unbuffered channels, so the mirror lags behind: a peer
  is filed, then handed over, then processed by the scheduler.
 */
module PeerSet {
  import opened Common

  const DEFAULT_DIAL_RATIO := 3

  type ID = nat
  type ConnNo = nat

  datatype Flag = DynDialed | StaticDialed | Inbound | Trusted
  datatype DiscReason = TooManyPeers | AlreadyConnected | IsSelf | UselessPeer
  datatype Config = Config(self: ID, maxPeers: int, dialRatio: int, noDial: bool, protocols: nat)

  // ---------------------------------------------------------------- limits

  /** Division as the source does it: towards zero. */
  function GoDiv(a: int, b: int): int
    requires b != 0
  {
    if a >= 0 then a / b else -((-a) / b)
  }

  function MaxDialedConns(cfg: Config): int {
    if cfg.noDial || cfg.maxPeers == 0 then 0 else
    var limit := GoDiv(cfg.maxPeers, if cfg.dialRatio == 0 then DEFAULT_DIAL_RATIO else cfg.dialRatio);
    if limit == 0 then 1 else limit
  }

  function MaxInboundConns(cfg: Config): int {
    cfg.maxPeers - MaxDialedConns(cfg)
  }

  /** With sensible settings both shares are within the limit, and dialing always has a slot. */
  lemma ConnLimits(cfg: Config)
    requires cfg.maxPeers >= 0 && cfg.dialRatio >= 0
    ensures 0 <= MaxDialedConns(cfg) <= cfg.maxPeers && 0 <= MaxInboundConns(cfg) <= cfg.maxPeers
    ensures !cfg.noDial && cfg.maxPeers > 0 ==> MaxDialedConns(cfg) >= 1
    ensures var ratio := if cfg.dialRatio == 0 then 3 else cfg.dialRatio;
            !cfg.noDial && cfg.maxPeers >= ratio ==>
              ratio * MaxDialedConns(cfg) <= cfg.maxPeers < ratio * MaxDialedConns(cfg) + ratio
  {
    var ratio := if cfg.dialRatio == 0 then DEFAULT_DIAL_RATIO else cfg.dialRatio;
    QuotientAtMost(cfg.maxPeers, ratio);
  }

  lemma QuotientAtMost(a: nat, b: nat)
    requires b > 0
    ensures 0 <= a / b <= a && b * (a / b) <= a < b * (a / b) + b && (a >= b ==> a / b >= 1)
  {
    var q, r := a / b, a % b;
    assert a == b * q + r;
    TimesAtLeast(q, b);
  }

  lemma {:induction false} TimesAtLeast(q: int, b: nat)
    requires b > 0
    ensures q >= 0 ==> b * q >= q
    ensures q < 0 ==> b * q <= q
  {
    if b > 1 {
      TimesAtLeast(q, b - 1);
      assert b * q == (b - 1) * q + q;
    }
  }

  // ---------------------------------------------------------------- the table of the run loop

  /** A connected peer: its flags now, those it had when it was admitted, and its matching protocols. */
  datatype Peer = Peer(flags: set<Flag>, admitted: set<Flag>, matching: nat)

  datatype Table = Table(peers: map<ID, Peer>, inboundCount: int, trusted: set<ID>)

  /** What the run loop tells the scheduler. */
  datatype Msg = Added(id: ID, flags: set<Flag>) | Removed(id: ID, flags: set<Flag>)

  predicate Dialed(flags: set<Flag>) {
    DynDialed in flags || StaticDialed in flags
  }

  /** The checks before a connection becomes a peer, in the order of the source. */
  function Verdict(cfg: Config, t: Table, id: ID, flags: set<Flag>, matching: nat): Option<DiscReason> {
    if Trusted !in flags && |t.peers| >= cfg.maxPeers then Some(TooManyPeers)
    else if Trusted !in flags && Inbound in flags && t.inboundCount >= MaxInboundConns(cfg) then Some(TooManyPeers)
    else if id in t.peers then Some(AlreadyConnected)
    else if id == cfg.self then Some(IsSelf)
    else if cfg.protocols > 0 && matching == 0 then Some(UselessPeer)
    else None
  }

  function Admit(t: Table, id: ID, flags: set<Flag>, matching: nat): Table {
    t.(peers := t.peers[id := Peer(flags, flags, matching)])
  }

  function Drop(t: Table, id: ID): Table {
    t.(peers := t.peers - {id})
  }

  /** The counter follows once the scheduler has taken the message. */
  function Settle(t: Table, m: Msg): Table {
    t.(inboundCount := t.inboundCount + Effect(m, Inbound in m.flags))
  }

  function Effect(m: Msg, concerned: bool): int {
    if !concerned then 0 else if m.Added? then 1 else -1
  }

  function SetTrust(t: Table, id: ID, on: bool): Table {
    t.(trusted := if on then t.trusted + {id} else t.trusted - {id},
       peers := if id !in t.peers then t.peers
                else t.peers[id := t.peers[id].(flags := SetFlag(t.peers[id].flags, Trusted, on))])
  }

  function SetFlag(flags: set<Flag>, f: Flag, on: bool): set<Flag> {
    if on then flags + {f} else flags - {f}
  }

  ghost function InboundIds(peers: map<ID, Peer>): set<ID> {
    set id | id in peers && Inbound in peers[id].flags
  }

  ghost function DialedIds(peers: map<ID, Peer>): set<ID> {
    set id | id in peers && Dialed(peers[id].flags)
  }

  ghost function UntrustedIds(peers: map<ID, Peer>): set<ID> {
    set id | id in peers && Trusted !in peers[id].admitted
  }

  ghost function UntrustedInboundIds(peers: map<ID, Peer>): set<ID> {
    set id | id in peers && Trusted !in peers[id].admitted && Inbound in peers[id].flags
  }

  // ---------------------------------------------------------------- the two loops together

  datatype State = State(
    table: Table,
    waiting: map<ConnNo, (ID, set<Flag>)>,
    handing: Option<Msg>,
    pending: Option<Msg>,
    mirror: set<ID>,
    dialPeers: int)

  datatype Step =
    | TrustStep(id: ID, on: bool)
    | PostHandshake(no: ConnNo, id: ID, flags: set<Flag>)
    | AddPeer(no: ConnNo, matching: nat)
    | DelPeer(id: ID)
    | HandOver
    | Process

  /** The run loop handles one event at a time and blocks while it hands a message over. */
  predicate Enabled(s: State, step: Step) {
    match step
    case TrustStep(_, _) => s.handing.None?
    case PostHandshake(no, _, flags) => s.handing.None? && no !in s.waiting && Trusted !in flags
    case AddPeer(no, _) => s.handing.None? && no in s.waiting
    case DelPeer(id) => s.handing.None? && id in s.table.peers
    case HandOver => s.handing.Some? && s.pending.None?
    case Process => s.pending.Some?
  }

  function Next(cfg: Config, s: State, step: Step): State
    requires Enabled(s, step)
  {
    match step
    case TrustStep(id, on) => s.(table := SetTrust(s.table, id, on))
    case PostHandshake(no, id, flags) =>
      s.(waiting := s.waiting[no := (id, if id in s.table.trusted then flags + {Trusted} else flags)])
    case AddPeer(no, matching) =>
      var (id, flags) := s.waiting[no];
      var rest := s.(waiting := s.waiting - {no});
      if Verdict(cfg, s.table, id, flags, matching).Some? then rest
      else rest.(table := Admit(s.table, id, flags, matching), handing := Some(Added(id, flags)))
    case DelPeer(id) =>
      s.(table := Drop(s.table, id), handing := Some(Removed(id, s.table.peers[id].flags)))
    case HandOver =>
      s.(table := Settled(s), handing := None, pending := s.handing)
    case Process =>
      var m := s.pending.value;
      s.(pending := None, dialPeers := s.dialPeers + Effect(m, Dialed(m.flags)),
         mirror := if m.Added? then s.mirror + {m.id} else s.mirror - {m.id})
  }

  function Start(trusted: set<ID>): State {
    State(Table(map[], 0, trusted), map[], None, None, {}, 0)
  }

  /** The table once the run loop has handed over what it has to say. */
  function Settled(s: State): Table {
    if s.handing.None? then s.table else Settle(s.table, s.handing.value)
  }

  // ---------------------------------------------------------------- the invariant

  function DueInbound(m: Option<Msg>): int {
    if m.None? then 0 else Effect(m.value, Inbound in m.value.flags)
  }

  function DueDialed(m: Option<Msg>): int {
    if m.None? then 0 else Effect(m.value, Dialed(m.value.flags))
  }

  function Applied(ids: set<ID>, m: Option<Msg>): set<ID> {
    if m.None? then ids else if m.value.Added? then ids + {m.value.id} else ids - {m.value.id}
  }

  /** Counters and mirror are right up to the messages that are still under way. */
  ghost predicate CountsMatch(s: State) {
    && |InboundIds(s.table.peers)| == s.table.inboundCount + DueInbound(s.handing)
    && |DialedIds(s.table.peers)| == s.dialPeers + DueDialed(s.pending) + DueDialed(s.handing)
    && s.table.peers.Keys == Applied(Applied(s.mirror, s.pending), s.handing)
  }

  /** Only the trusted flag of a peer ever changes. */
  ghost predicate FlagsStable(s: State) {
    forall id :: id in s.table.peers ==> s.table.peers[id].flags - {Trusted} == s.table.peers[id].admitted - {Trusted}
  }

  ghost predicate AtMost(ids: set<ID>, limit: int) {
    ids == {} || |ids| <= limit
  }

  ghost predicate WithinLimits(cfg: Config, s: State) {
    && AtMost(UntrustedIds(s.table.peers), cfg.maxPeers)
    && AtMost(UntrustedInboundIds(s.table.peers), MaxInboundConns(cfg))
  }

  /** Nobody is connected to itself, and every peer can do something here. */
  ghost predicate AllUseful(cfg: Config, s: State) {
    && cfg.self !in s.table.peers
    && forall id :: id in s.table.peers && cfg.protocols > 0 ==> s.table.peers[id].matching > 0
  }

  ghost predicate Inv(cfg: Config, s: State) {
    CountsMatch(s) && FlagsStable(s) && WithinLimits(cfg, s) && AllUseful(cfg, s)
  }

  lemma StartInv(cfg: Config, trusted: set<ID>)
    ensures Inv(cfg, Start(trusted))
  {
    var s := Start(trusted);
    assert InboundIds(s.table.peers) == DialedIds(s.table.peers) == {};
    assert UntrustedIds(s.table.peers) == UntrustedInboundIds(s.table.peers) == {};
  }

  lemma NextInv(cfg: Config, s: State, step: Step)
    requires Inv(cfg, s) && Enabled(s, step)
    ensures Inv(cfg, Next(cfg, s, step))
  {
    match step
    case TrustStep(id, on) => TrustInv(cfg, s, id, on);
    case AddPeer(no, matching) =>
      var (id, flags) := s.waiting[no];
      if Verdict(cfg, s.table, id, flags, matching).None? {
        AdmitInv(cfg, s, no, matching);
      }
    case DelPeer(id) => DropInv(cfg, s, id);
    case _ =>
  }

  /** Whatever trust changes happen, the sets the counters count stay the same. */
  lemma TrustInv(cfg: Config, s: State, id: ID, on: bool)
    requires Inv(cfg, s) && s.handing.None?
    ensures Inv(cfg, Next(cfg, s, TrustStep(id, on)))
  {
    hide MaxInboundConns;
    var peers, after := s.table.peers, SetTrust(s.table, id, on).peers;
    assert InboundIds(after) == InboundIds(peers);
    assert DialedIds(after) == DialedIds(peers);
    assert UntrustedIds(after) == UntrustedIds(peers);
    assert UntrustedInboundIds(after) == UntrustedInboundIds(peers);
    assert after.Keys == peers.Keys;
  }

  function Plus(ids: set<ID>, id: ID, concerned: bool): set<ID> {
    if concerned then ids + {id} else ids
  }

  lemma AdmitIds(peers: map<ID, Peer>, id: ID, flags: set<Flag>, matching: nat)
    requires id !in peers
    ensures var after := peers[id := Peer(flags, flags, matching)];
            && InboundIds(after) == Plus(InboundIds(peers), id, Inbound in flags)
            && DialedIds(after) == Plus(DialedIds(peers), id, Dialed(flags))
            && UntrustedIds(after) == Plus(UntrustedIds(peers), id, Trusted !in flags)
            && UntrustedInboundIds(after) == Plus(UntrustedInboundIds(peers), id, Trusted !in flags && Inbound in flags)
            && after.Keys == peers.Keys + {id}
            && id !in InboundIds(peers) && id !in DialedIds(peers)
  {
  }

  lemma DropIds(peers: map<ID, Peer>, id: ID)
    requires id in peers
    ensures var after := peers - {id};
            && InboundIds(after) == InboundIds(peers) - {id}
            && DialedIds(after) == DialedIds(peers) - {id}
            && UntrustedIds(after) == UntrustedIds(peers) - {id}
            && UntrustedInboundIds(after) == UntrustedInboundIds(peers) - {id}
            && after.Keys == peers.Keys - {id}
            && (id in InboundIds(peers) <==> Inbound in peers[id].flags)
            && (id in DialedIds(peers) <==> Dialed(peers[id].flags))
  {
  }

  /** An untrusted connection is only admitted below the limits, which count everybody. */
  lemma Sizes(peers: map<ID, Peer>)
    ensures |UntrustedIds(peers)| <= |peers|
    ensures |UntrustedInboundIds(peers)| <= |InboundIds(peers)|
  {
    SubsetSize(UntrustedIds(peers), peers.Keys);
    SubsetSize(UntrustedInboundIds(peers), InboundIds(peers));
  }

  lemma AdmitInv(cfg: Config, s: State, no: ConnNo, matching: nat)
    requires Inv(cfg, s) && s.handing.None? && no in s.waiting
    requires Verdict(cfg, s.table, s.waiting[no].0, s.waiting[no].1, matching).None?
    ensures Inv(cfg, Next(cfg, s, AddPeer(no, matching)))
  {
    hide MaxInboundConns, CountsMatch, WithinLimits;
    AdmitKeepsLimits(cfg, s, no, matching);
    AdmitKeepsCounts(cfg, s, no, matching);
  }

  lemma AdmitKeepsCounts(cfg: Config, s: State, no: ConnNo, matching: nat)
    requires CountsMatch(s) && s.handing.None? && no in s.waiting
    requires Verdict(cfg, s.table, s.waiting[no].0, s.waiting[no].1, matching).None?
    ensures CountsMatch(Next(cfg, s, AddPeer(no, matching)))
  {
    hide MaxInboundConns, InboundIds, DialedIds, UntrustedIds, UntrustedInboundIds;
    var (id, flags) := s.waiting[no];
    AdmitIds(s.table.peers, id, flags, matching);
  }

  lemma AdmitKeepsLimits(cfg: Config, s: State, no: ConnNo, matching: nat)
    requires CountsMatch(s) && WithinLimits(cfg, s) && s.handing.None? && no in s.waiting
    requires Verdict(cfg, s.table, s.waiting[no].0, s.waiting[no].1, matching).None?
    ensures WithinLimits(cfg, Next(cfg, s, AddPeer(no, matching)))
  {
    hide MaxInboundConns, InboundIds, DialedIds, UntrustedIds, UntrustedInboundIds;
    var (id, flags) := s.waiting[no];
    AdmitIds(s.table.peers, id, flags, matching);
    Sizes(s.table.peers);
  }

  lemma DropInv(cfg: Config, s: State, id: ID)
    requires Inv(cfg, s) && s.handing.None? && id in s.table.peers
    ensures Inv(cfg, Next(cfg, s, DelPeer(id)))
  {
    hide Verdict, MaxInboundConns, CountsMatch, WithinLimits;
    DropKeepsCounts(cfg, s, id);
    DropKeepsLimits(cfg, s, id);
  }

  lemma DropKeepsCounts(cfg: Config, s: State, id: ID)
    requires CountsMatch(s) && s.handing.None? && id in s.table.peers
    ensures CountsMatch(Next(cfg, s, DelPeer(id)))
  {
    hide Verdict, InboundIds, DialedIds, UntrustedIds, UntrustedInboundIds;
    DropIds(s.table.peers, id);
    Removal(InboundIds(s.table.peers), id);
    Removal(DialedIds(s.table.peers), id);
  }

  lemma DropKeepsLimits(cfg: Config, s: State, id: ID)
    requires WithinLimits(cfg, s) && s.handing.None? && id in s.table.peers
    ensures WithinLimits(cfg, Next(cfg, s, DelPeer(id)))
  {
    hide Verdict, MaxInboundConns, InboundIds, DialedIds, UntrustedIds, UntrustedInboundIds;
    DropIds(s.table.peers, id);
    Removal(UntrustedIds(s.table.peers), id);
    Removal(UntrustedInboundIds(s.table.peers), id);
  }

  lemma Removal(ids: set<ID>, id: ID)
    ensures |ids - {id}| == if id in ids then |ids| - 1 else |ids|
  {
    if id in ids {
      assert ids == (ids - {id}) + {id};
    } else {
      assert ids - {id} == ids;
    }
  }

  // ---------------------------------------------------------------- whole runs

  ghost predicate IsRun(cfg: Config, states: seq<State>, steps: seq<Step>) {
    && |states| == |steps| + 1
    && (exists trusted :: states[0] == Start(trusted))
    && (forall i :: 0 <= i < |steps| ==>
          Enabled(states[i], steps[i]) && states[i + 1] == Next(cfg, states[i], steps[i]))
  }

  lemma {:induction false} ReachableInv(cfg: Config, states: seq<State>, steps: seq<Step>)
    requires IsRun(cfg, states, steps)
    ensures Inv(cfg, states[|steps|])
    decreases |steps|
  {
    if steps == [] {
      var trusted :| states[0] == Start(trusted);
      StartInv(cfg, trusted);
    } else {
      var k := |steps| - 1;
      ReachableInv(cfg, states[..|steps|], steps[..k]);
      NextInv(cfg, states[k], steps[k]);
    }
  }

  /**
    What an observer sees: counter and set agree whenever the run loop waits for events, and the
    scheduler's counter and mirror agree with them once it has processed what it was handed.
   */
  lemma CountersExact(cfg: Config, states: seq<State>, steps: seq<Step>)
    requires IsRun(cfg, states, steps)
    ensures var s := states[|steps|];
            && (s.handing.None? ==> s.table.inboundCount == |InboundIds(s.table.peers)|)
            && (s.handing.None? && s.pending.None? ==>
                  s.dialPeers == |DialedIds(s.table.peers)| && s.mirror == s.table.peers.Keys)
            && AtMost(UntrustedIds(s.table.peers), cfg.maxPeers)
            && AtMost(UntrustedInboundIds(s.table.peers), MaxInboundConns(cfg))
            && AllUseful(cfg, s)
  {
    ReachableInv(cfg, states, steps);
  }

  // ---------------------------------------------------------------- the run loop's own code

  class Conn {
    const id: ID
    var flags: set<Flag>

    /** The flags and the number of matching protocols at admission. */
    ghost var admitted: set<Flag>
    ghost var matching: nat

    constructor (id: ID, flags: set<Flag>)
      ensures this.id == id && this.flags == flags
    {
      this.id, this.flags, admitted, matching := id, flags, {}, 0;
    }

    predicate Is(f: Flag)
      reads this`flags
    {
      f in flags
    }

    method Set(f: Flag, on: bool)
      modifies this`flags
      ensures flags == SetFlag(old(flags), f, on)
    {
      flags := if on then flags + {f} else flags - {f};
    }
  }

  class Server {
    const cfg: Config
    var peers: map<ID, Conn>
    var inboundCount: int
    var trusted: set<ID>

    ghost predicate Valid()
      reads this`peers
    {
      forall id :: id in peers ==> peers[id].id == id
    }

    ghost function View(): Table
      reads this, peers.Values
    {
      Table(map id | id in peers :: Peer(peers[id].flags, peers[id].admitted, peers[id].matching),
            inboundCount, trusted)
    }

    constructor (cfg: Config, trustedNodes: seq<ID>)
      ensures Valid() && this.cfg == cfg
      ensures View() == Start(set id | id in trustedNodes).table
    {
      this.cfg, peers, inboundCount, trusted := cfg, map[], 0, {};
      new;
      for i := 0 to |trustedNodes|
        invariant trusted == (set id | id in trustedNodes[..i]) && peers == map[] && inboundCount == 0
      {
        trusted := trusted + {trustedNodes[i]};
      }
      assert trustedNodes[..|trustedNodes|] == trustedNodes;
    }

    method AddTrusted(id: ID)
      requires Valid()
      modifies this`trusted, peers.Values`flags
      ensures Valid() && View() == SetTrust(old(View()), id, true) && trusted == old(trusted) + {id}
      ensures forall k :: k in peers ==>
                peers[k].flags == if k == id then old(peers[k].flags) + {Trusted} else old(peers[k].flags)
    {
      trusted := trusted + {id};
      if id in peers {
        peers[id].Set(Trusted, true);
      }
    }

    method RemoveTrusted(id: ID)
      requires Valid()
      modifies this`trusted, peers.Values`flags
      ensures Valid() && View() == SetTrust(old(View()), id, false) && trusted == old(trusted) - {id}
      ensures forall k :: k in peers ==>
                peers[k].flags == if k == id then old(peers[k].flags) - {Trusted} else old(peers[k].flags)
    {
      trusted := trusted - {id};
      if id in peers {
        peers[id].Set(Trusted, false);
      }
    }

    /** The first checkpoint: the trusted flag is set before the limits are checked. */
    method PostHandshake(c: Conn)
      modifies c`flags
      ensures c.flags == if c.id in trusted then old(c.flags) + {Trusted} else old(c.flags)
    {
      if c.id in trusted {
        c.flags := c.flags + {Trusted};
      }
    }

    method PostHandshakeChecks(c: Conn, matching: nat) returns (e: Option<DiscReason>)
      ensures e == Verdict(cfg, View(), c.id, c.flags, matching)
      ensures e.None? <==>
                && c.id !in peers && c.id != cfg.self && (cfg.protocols > 0 ==> matching > 0)
                && (|| Trusted in c.flags
                    || (|peers| < cfg.maxPeers && (Inbound in c.flags ==> inboundCount < MaxInboundConns(cfg))))
    {
      assert View().peers.Keys == peers.Keys;
      if !c.Is(Trusted) && |peers| >= cfg.maxPeers {
        return Some(TooManyPeers);
      }
      if !c.Is(Trusted) && c.Is(Inbound) && inboundCount >= MaxInboundConns(cfg) {
        return Some(TooManyPeers);
      }
      if c.id in peers {
        return Some(AlreadyConnected);
      }
      if c.id == cfg.self {
        return Some(IsSelf);
      }
      if cfg.protocols > 0 && matching == 0 {
        return Some(UselessPeer);
      }
      return None;
    }

    /** The second checkpoint is the step AddPeer with its handover; `told` is what is handed over. */
    method AddPeer(c: Conn, matching: nat, ghost s: State, ghost no: ConnNo)
      returns (e: Option<DiscReason>, told: Option<Msg>)
      requires Valid() && c !in peers.Values
      requires s.table == View() && s.handing.None? && no in s.waiting && s.waiting[no] == (c.id, c.flags)
      modifies this`peers, this`inboundCount, c`admitted, c`matching
      ensures Valid() && e == Verdict(cfg, s.table, c.id, c.flags, matching)
      ensures var after := Next(cfg, s, Step.AddPeer(no, matching)); told == after.handing && View() == Settled(after)
    {
      hide Verdict;
      told := None;
      e := PostHandshakeChecks(c, matching);
      if e.None? {
        c.admitted, c.matching := c.flags, matching;
        peers := peers[c.id := c];
        assert View().peers == s.table.peers[c.id := Peer(c.flags, c.flags, matching)];
        told := Some(Added(c.id, c.flags));
        if c.Is(Inbound) {
          inboundCount := inboundCount + 1;
        }
      }
    }

    /** A peer has ended; it is the one filed under its id. This is the step DelPeer with its handover. */
    method DelPeer(c: Conn, ghost s: State) returns (told: Msg)
      requires Valid() && c in peers.Values && s.table == View() && s.handing.None?
      modifies this`peers, this`inboundCount
      ensures Valid() && old(peers[c.id]) == c && c.id in s.table.peers
      ensures var after := Next(cfg, s, Step.DelPeer(c.id)); after.handing == Some(told) && View() == Settled(after)
    {
      peers := peers - {c.id};
      assert View().peers == s.table.peers - {c.id};
      told := Removed(c.id, c.flags);
      if c.Is(Inbound) {
        inboundCount := inboundCount - 1;
      }
    }
  }
}
