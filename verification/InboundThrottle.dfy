/**
  Throttling of inbound connections by source address (`checkInboundConn` in `p2p/server.go`).
  Times are in nanoseconds of a monotone clock.
 */
module InboundThrottle {
  import opened Common
  import opened ExpHeap

  const SECOND: Time := 1_000_000_000
  const INBOUND_THROTTLE_TIME: Time := 30 * SECOND

  datatype Address = Address(text: string, lan: bool)

  /** An accepted attempt. */
  datatype Attempt = Attempt(addr: Address, time: Time)

  /** Accepted attempts stay in the history until their time is over. */
  ghost predicate Remembered(accepted: seq<Attempt>, clock: Time, items: seq<ExpItem<string>>) {
    && (forall a :: a in accepted ==> a.time <= clock)
    && (forall a :: a in accepted ==>
          || a.time + INBOUND_THROTTLE_TIME < clock
          || ExpItem(a.addr.text, a.time + INBOUND_THROTTLE_TIME) in items)
  }

  /** Of two accepted attempts with one address, not in the LAN, the second came late enough. */
  ghost predicate SpacedOut(accepted: seq<Attempt>) {
    forall i, j ::
      0 <= i < j < |accepted| && accepted[i].addr.text == accepted[j].addr.text && !accepted[j].addr.lan ==>
        accepted[i].time + 30_000_000_000 < accepted[j].time
  }

  /** Forgetting what has expired loses nothing. */
  lemma ForgetsNothing(accepted: seq<Attempt>, clock: Time, now: Time,
                       before: seq<ExpItem<string>>, after: seq<ExpItem<string>>)
    requires Remembered(accepted, clock, before) && now >= clock
    requires forall x :: x in before && x.exp >= now ==> x in after
    ensures Remembered(accepted, now, after)
  {
  }

  /** One more attempt, by an address that is in the LAN or not remembered. */
  lemma AcceptsAnother(accepted: seq<Attempt>, ip: Address, now: Time,
                       before: seq<ExpItem<string>>, after: seq<ExpItem<string>>)
    requires Remembered(accepted, now, before) && SpacedOut(accepted)
    requires ip.lan || forall x :: x in before ==> x.item != ip.text
    requires forall x :: x in after <==> x in before || x == ExpItem(ip.text, now + INBOUND_THROTTLE_TIME)
    ensures var more := accepted + [Attempt(ip, now)]; Remembered(more, now, after) && SpacedOut(more)
  {
    var more := accepted + [Attempt(ip, now)];
    forall i, j | 0 <= i < j < |more| && more[i].addr.text == more[j].addr.text && !more[j].addr.lan
      ensures more[i].time + INBOUND_THROTTLE_TIME < more[j].time
    {
      if j == |accepted| {
        assert more[i] in accepted;
      }
    }
  }

  class Listener {
    /** The networks connections are restricted to, if any. */
    const netRestrict: Option<set<Address>>
    const inboundHistory: Heap<string>

    /** All accepted attempts, and the latest time the clock has shown. */
    ghost var accepted: seq<Attempt>
    ghost var clock: Time

    ghost predicate Valid()
      reads this, inboundHistory
    {
      inboundHistory.Valid() && Remembered(accepted, clock, inboundHistory.items)
    }

    ghost predicate Throttled()
      reads this
    {
      SpacedOut(accepted)
    }

    constructor (netRestrict: Option<set<Address>>, now: Time)
      ensures Valid() && Throttled() && fresh(inboundHistory) && accepted == [] && clock == now
      ensures this.netRestrict == netRestrict
    {
      this.netRestrict := netRestrict;
      inboundHistory := new Heap<string>();
      accepted, clock := [], now;
    }

    /**
      Decides on a connection. Together with `Throttled` being kept this says that in every run
      two accepted attempts from one address outside the LAN are more than 30 s apart.
     */
    method CheckInboundConn(remoteIP: Option<Address>, now: Time) returns (ok: bool)
      requires Valid() && Throttled() && now >= clock
      modifies this, inboundHistory
      ensures Valid() && Throttled() && clock == now
      ensures accepted == if ok && remoteIP.Some? then old(accepted) + [Attempt(remoteIP.value, now)] else old(accepted)
      ensures ok && remoteIP.Some? ==> ExpItem(remoteIP.value.text, now + 30_000_000_000) in inboundHistory.items
      ensures remoteIP.None? ==> ok
      ensures remoteIP.Some? && netRestrict.Some? && remoteIP.value !in netRestrict.value ==> !ok
      ensures remoteIP.Some? && (netRestrict.None? || remoteIP.value in netRestrict.value) ==>
                (ok <==> remoteIP.value.lan ||
                         !exists x :: x in old(inboundHistory.items) && x.item == remoteIP.value.text && now <= x.exp)
    {
      hide Remembered, SpacedOut;
      ForgetsNothing(accepted, clock, now, inboundHistory.items, inboundHistory.items);
      clock := now;
      if remoteIP.None? {
        return true;
      }
      var ip := remoteIP.value;
      if netRestrict.Some? && ip !in netRestrict.value {
        return false;
      }
      ghost var before := inboundHistory.items;
      var expired := inboundHistory.Expire(now);
      ExpiredAreOld(before, inboundHistory.items, expired);
      ForgetsNothing(accepted, now, now, before, inboundHistory.items);
      var recent := inboundHistory.Contains(ip.text);
      if !ip.lan && recent {
        return false;
      }
      ghost var kept := inboundHistory.items;
      inboundHistory.Add(ip.text, now + INBOUND_THROTTLE_TIME);
      Added(kept, inboundHistory.items, ExpItem(ip.text, now + INBOUND_THROTTLE_TIME));
      AcceptsAnother(accepted, ip, now, kept, inboundHistory.items);
      accepted := accepted + [Attempt(ip, now)];
      return true;
    }
  }
}
