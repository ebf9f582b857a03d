/**
  The bounded log of download states (`dataflow/states.go`): the last changes are kept in a
  window, older ones are folded into a snapshot. State 0 means "absent".
 */
module DownloadStates {
  import opened Common

  datatype Change = Change(id: uint64, state: byte)

  type States = map<uint64, byte>

  // ---------------------------------------------------------------- replay

  function Apply(s: States, c: Change): States {
    if c.state == 0 then s - {c.id} else s[c.id := c.state]
  }

  /** The log replayed forwards on top of `base`. */
  function Overlay(base: States, log: seq<Change>): States {
    if log == [] then base else Apply(Overlay(base, log[..|log|-1]), log[|log|-1])
  }

  function Replay(log: seq<Change>): States {
    Overlay(map[], log)
  }

  // ---------------------------------------------------------------- folding

  /** The last state each id has in the log, zero states included. */
  function Latest(log: seq<Change>): map<uint64, byte> {
    if log == [] then map[]
    else
      var c := log[|log|-1];
      Latest(log[..|log|-1])[c.id := c.state]
  }

  /** Going backwards, the first state met for an id wins: the same map. */
  lemma {:induction false} LatestBackwards(c: Change, rest: seq<Change>)
    ensures Latest([c] + rest) ==
            if c.id in Latest(rest) then Latest(rest) else Latest(rest)[c.id := c.state]
  {
    var log := [c] + rest;
    if rest == [] {
      assert log[..0] == [];
    } else {
      LatestBackwards(c, rest[..|rest|-1]);
      assert log[..|log|-1] == [c] + rest[..|rest|-1];
    }
  }

  /** Final states laid over a base: zero removes an entry. */
  function Fold(base: States, last: map<uint64, byte>): States {
    map id | id in base.Keys + last.Keys && (id in last ==> last[id] != 0) ::
      if id in last then last[id] else base[id]
  }

  lemma FoldOne(base: States, last: map<uint64, byte>, c: Change)
    ensures Fold(base, last[c.id := c.state]) == Apply(Fold(base, last), c)
  {
  }

  /** Folding the last states gives what replaying the whole log gives. */
  lemma {:induction false} FoldIsOverlay(base: States, log: seq<Change>)
    ensures Fold(base, Latest(log)) == Overlay(base, log)
  {
    if log != [] {
      FoldIsOverlay(base, log[..|log|-1]);
      FoldOne(base, Latest(log[..|log|-1]), log[|log|-1]);
    } else {
      assert Fold(base, map[]) == base;
    }
  }

  class Tracker {
    const window: nat
    const ids: array<uint64>
    const states: array<byte>
    var snapshot: States
    var snapshotTick: nat
    var idx: nat

    ghost predicate Valid()
      reads this
    {
      ids.Length == states.Length == window && idx <= window
    }

    /** The changes still in the window. */
    ghost function Log(): (log: seq<Change>)
      requires Valid()
      reads this, ids, states
      ensures |log| == idx
    {
      seq(idx, i requires 0 <= i < idx && Valid() reads this, ids, states => Change(ids[i], states[i]))
    }

    /** What the tracker stands for. */
    ghost function View(): States
      requires Valid()
      reads this, ids, states
    {
      Overlay(snapshot, Log())
    }

    constructor (window: nat)
      ensures Valid() && fresh(ids) && fresh(states) && this.window == window
      ensures snapshot == map[] && snapshotTick == 0 && idx == 0
      ensures View() == map[]
    {
      this.window := window;
      ids := new uint64[window];
      states := new byte[window];
      snapshot, snapshotTick, idx := map[], 0, 0;
    }

    /** One more change; the full window is folded away first. */
    method AddChange(id: uint64, state: byte)
      requires Valid() && window >= 1
      modifies this, ids, states
      ensures Valid()
      ensures View() == Apply(old(View()), Change(id, state))
      ensures snapshotTick == old(snapshotTick) + if old(idx) < window then 0 else window
      ensures snapshotTick + idx == old(snapshotTick + idx) + 1
      ensures Log() == (if old(idx) < window then old(Log()) else []) + [Change(id, state)]
      ensures snapshot == if old(idx) < window then old(snapshot) else old(View())
    {
      if idx >= window {
        MakeSnapshot();
      }
      ghost var log := Log();
      var i := idx;
      idx := idx + 1;
      ids[i] := id;
      states[i] := state;
      assert Log()[..i] == log && Log()[i] == Change(id, state);
    }

    method MakeSnapshot()
      requires Valid()
      modifies this
      ensures Valid() && idx == 0 && snapshotTick == old(snapshotTick) + old(idx)
      ensures snapshot == old(View()) == View()
    {
      ghost var log := Log();
      var newSnapshot: map<uint64, byte> := map[];
      snapshotTick := snapshotTick + idx;
      var i: int := idx - 1;
      assert log[idx..] == [];
      while i >= 0
        invariant -1 <= i < idx == old(idx) && Valid() && snapshot == old(snapshot)
        invariant log == Log() && newSnapshot == Latest(log[i+1..])
        invariant snapshotTick == old(snapshotTick) + old(idx)
      {
        LatestBackwards(log[i], log[i+1..]);
        assert log[i..] == [log[i]] + log[i+1..];
        if ids[i] !in newSnapshot {
          newSnapshot := newSnapshot[ids[i] := states[i]];
        }
        i := i - 1;
      }
      assert log[0..] == log;
      FoldIsOverlay(snapshot, log);
      Absorb(newSnapshot);
      idx := 0;
    }

    /** Enters the final states into the snapshot, in whatever order the map is traversed. */
    method Absorb(last: map<uint64, byte>)
      modifies this`snapshot
      ensures snapshot == Fold(old(snapshot), last)
    {
      var todo := last.Keys;
      var done: map<uint64, byte> := map[];
      assert Fold(snapshot, done) == snapshot;
      while todo != {}
        invariant todo <= last.Keys && done == last - todo
        invariant snapshot == Fold(old(snapshot), done)
        decreases todo
      {
        var id :| id in todo;
        FoldOne(old(snapshot), done, Change(id, last[id]));
        if last[id] == 0 {
          snapshot := snapshot - {id};
        } else {
          snapshot := snapshot[id := last[id]];
        }
        todo := todo - {id};
        done := done[id := last[id]];
      }
      assert done == last;
    }
  }

  lemma NothingReplayed()
    ensures Replay([]) == map[]
  {
  }

  lemma ReplayNext(changes: seq<Change>, k: nat)
    requires k < |changes|
    ensures Replay(changes[..k+1]) == Apply(Replay(changes[..k]), changes[k])
  {
    assert changes[..k+1][..k] == changes[..k];
  }

  lemma NextMultiple(rounds: nat, window: nat)
    ensures (rounds + 1) * window == rounds * window + window
  {
  }

  /**
    For every sequence of changes and every window, snapshot plus window equals full replay: the snapshot is
    the replay of whole windows, and the changes after it are all there.
   */
  method Record(window: nat, changes: seq<Change>) returns (t: Tracker, ghost rounds: nat)
    requires window >= 1
    ensures fresh(t) && t.Valid() && t.View() == Replay(changes)
    ensures t.snapshotTick + t.idx == |changes| && t.snapshotTick == rounds * window
    ensures changes != [] ==> 1 <= t.idx <= window
    ensures t.snapshot == Replay(changes[..t.snapshotTick]) && t.Log() == changes[t.snapshotTick..]
  {
    hide Overlay, Tracker.View, Tracker.Log;
    t := new Tracker(window);
    rounds := 0;
    NothingReplayed();
    assert changes[..0] == [] && changes[0..0] == [];
    for k := 0 to |changes|
      invariant fresh(t) && fresh(t.ids) && fresh(t.states) && t.Valid() && t.window == window
      invariant t.View() == Replay(changes[..k]) && t.snapshotTick + t.idx == k
      invariant t.snapshotTick == rounds * window && (k > 0 ==> 1 <= t.idx <= window)
      invariant t.snapshot == Replay(changes[..t.snapshotTick]) && t.Log() == changes[t.snapshotTick..k]
    {
      ghost var tick := t.snapshotTick;
      t.AddChange(changes[k].id, changes[k].state);
      ReplayNext(changes, k);
      NextMultiple(rounds, window);
      rounds := if t.snapshotTick == tick then rounds else rounds + 1;
      assert changes[tick..k+1] == changes[tick..k] + [changes[k]] && changes[k..k+1] == [changes[k]];
    }
    assert changes[..|changes|] == changes;
  }
}
