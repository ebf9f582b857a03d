/**
  Sub-protocol negotiation (`p2p/peer.go`, `p2p/protocol.go`): both ends of a connection
  match their own protocols against the capabilities the other end advertised, and must
  come to the same versions and the same message-code offsets without talking about it.
  The rule is that of the RLPx specification, section "Capability Messaging".
 */
module Protocols {
  import opened Common

  const BASE_PROTOCOL_LENGTH := 16

  datatype Cap = Cap(name: string, version: nat)
  datatype Protocol = Protocol(name: string, version: nat, length: uint64)

  /** A negotiated protocol: the source's protoRW without its channels. */
  datatype Match = Match(proto: Protocol, offset: uint64)

  type Running = map<string, Match>

  /** Arithmetic on 64-bit words. */
  function Wrap(n: int): uint64 {
    n % TWO_TO_THE_64
  }

  // ---------------------------------------------------------------- the order of names

  predicate Below(a: string, b: string) {
    b != [] && (a == [] || a[0] < b[0] || (a[0] == b[0] && Below(a[1..], b[1..])))
  }

  /** The order of strings: a proper prefix comes first, and otherwise the first difference decides. */
  ghost predicate Precedes(a: string, b: string) {
    (a <= b && a != b) || exists i :: DifferAt(a, b, i) && a[i] < b[i]
  }

  ghost predicate DifferAt(a: string, b: string, i: int) {
    0 <= i < |a| && i < |b| && a[..i] == b[..i] && a[i] != b[i]
  }

  lemma DifferLater(a: string, b: string, i: nat)
    requires a != [] && b != [] && a[0] == b[0]
    ensures DifferAt(a, b, i + 1) <==> DifferAt(a[1..], b[1..], i)
  {
    if i + 1 < |a| && i + 1 < |b| {
      assert a[..i+1] == [a[0]] + a[1..][..i] && b[..i+1] == [b[0]] + b[1..][..i];
    }
  }

  lemma {:induction false} BelowIsPrecedes(a: string, b: string)
    ensures Below(a, b) <==> Precedes(a, b)
  {
    hide DifferAt;
    if a != [] && b != [] {
      if a[0] == b[0] {
        BelowIsPrecedes(a[1..], b[1..]);
        SameHead(a, b);
      } else {
        OtherHead(a, b);
      }
    } else {
      NoHead(a, b);
    }
  }

  lemma SameHead(a: string, b: string)
    requires a != [] && b != [] && a[0] == b[0]
    ensures Precedes(a, b) <==> Precedes(a[1..], b[1..])
  {
    assert a == [a[0]] + a[1..] && b == [b[0]] + b[1..];
    if i :| DifferAt(a, b, i) && a[i] < b[i] {
      DifferLater(a, b, i - 1);
    }
    if i :| DifferAt(a[1..], b[1..], i) && a[1..][i] < b[1..][i] {
      DifferLater(a, b, i);
    }
  }

  lemma OtherHead(a: string, b: string)
    requires a != [] && b != [] && a[0] != b[0]
    ensures Precedes(a, b) <==> a[0] < b[0]
  {
    assert a[..0] == b[..0];
    assert DifferAt(a, b, 0);
    if i :| DifferAt(a, b, i) && a[i] < b[i] {
      if i > 0 {
        assert a[..i][0] == b[..i][0];
      }
    }
  }

  lemma NoHead(a: string, b: string)
    requires a == [] || b == []
    ensures Precedes(a, b) <==> a == [] && b != []
  {
  }

  lemma {:induction false} BelowIsTotal(a: string, b: string)
    ensures Below(a, b) || a == b || Below(b, a)
  {
    if a != [] && b != [] && a[0] == b[0] {
      BelowIsTotal(a[1..], b[1..]);
      assert a == [a[0]] + a[1..] && b == [b[0]] + b[1..];
    }
  }

  lemma {:induction false} BelowIsStrict(a: string, b: string)
    ensures !(Below(a, b) && (a == b || Below(b, a)))
  {
    if a != [] && b != [] && a[0] == b[0] {
      BelowIsStrict(a[1..], b[1..]);
    }
  }

  lemma {:induction false} BelowIsTransitive(a: string, b: string, c: string)
    requires Below(a, b) && Below(b, c)
    ensures Below(a, c)
  {
    if a != [] && a[0] == b[0] == c[0] {
      BelowIsTransitive(a[1..], b[1..], c[1..]);
    }
  }

  // ---------------------------------------------------------------- sorting capabilities

  /** The source's Less. */
  predicate Less(a: Cap, b: Cap) {
    Below(a.name, b.name) || (a.name == b.name && a.version < b.version)
  }

  predicate Sorted(caps: seq<Cap>) {
    forall i, j :: 0 <= i < j < |caps| ==> !Less(caps[j], caps[i])
  }

  function Insert(c: Cap, caps: seq<Cap>): (r: seq<Cap>)
    requires Sorted(caps)
    ensures Sorted(r) && multiset(r) == multiset(caps) + multiset{c}
  {
    if caps == [] then [c]
    else if !Less(caps[0], c) then
      InsertFront(c, caps);
      [c] + caps
    else
      var rest := Insert(c, caps[1..]);
      InsertLater(c, caps, rest);
      [caps[0]] + rest
  }

  lemma InsertFront(c: Cap, caps: seq<Cap>)
    requires caps != [] && Sorted(caps) && !Less(caps[0], c)
    ensures Sorted([c] + caps)
  {
    forall j | 0 < j < |caps|
      ensures !Less(caps[j], c)
    {
      NotLessTransitive(caps[j], caps[0], c);
    }
  }

  lemma InsertLater(c: Cap, caps: seq<Cap>, rest: seq<Cap>)
    requires caps != [] && Sorted(caps) && Less(caps[0], c) && Sorted(rest)
    requires multiset(rest) == multiset(caps[1..]) + multiset{c}
    ensures Sorted([caps[0]] + rest) && multiset([caps[0]] + rest) == multiset(caps) + multiset{c}
  {
    assert caps == [caps[0]] + caps[1..];
    forall x | x in rest
      ensures !Less(x, caps[0])
    {
      assert x in multiset(rest);
      BelowIsStrict(c.name, caps[0].name);
      BelowIsStrict(caps[0].name, c.name);
    }
  }

  /** The order is total, so "not less" is an order too. */
  lemma NotLessTransitive(a: Cap, b: Cap, c: Cap)
    requires !Less(a, b) && !Less(b, c)
    ensures !Less(a, c)
  {
    BelowIsTotal(a.name, b.name);
    BelowIsTotal(b.name, c.name);
    BelowIsStrict(a.name, c.name);
    if Below(b.name, a.name) && Below(c.name, b.name) {
      BelowIsTransitive(c.name, b.name, a.name);
    }
  }

  /** What sort.Sort leaves in the slice: equal capabilities are identical, so any sort does. */
  function SortCaps(caps: seq<Cap>): (r: seq<Cap>)
    ensures Sorted(r) && multiset(r) == multiset(caps)
  {
    if caps == [] then [] else
    assert caps == [caps[0]] + caps[1..];
    Insert(caps[0], SortCaps(caps[1..]))
  }

  // ---------------------------------------------------------------- what must be negotiated

  function CapOf(p: Protocol): Cap {
    Cap(p.name, p.version)
  }

  ghost predicate Offers(protocols: seq<Protocol>, c: Cap) {
    exists p :: p in protocols && CapOf(p) == c
  }

  /** The first protocol with this name and version. */
  ghost function First(protocols: seq<Protocol>, c: Cap): Protocol
    requires Offers(protocols, c)
  {
    if CapOf(protocols[0]) == c then protocols[0] else First(protocols[1..], c)
  }

  /** A protocol runs exactly if some version is common, in the highest common version. */
  ghost predicate Chosen(running: Running, protocols: seq<Protocol>, caps: seq<Cap>) {
    && (forall c :: c in caps && Offers(protocols, c) ==>
          c.name in running && c.version <= running[c.name].proto.version)
    && (forall n :: n in running ==>
          var p := running[n].proto;
          p.name == n && CapOf(p) in caps && Offers(protocols, CapOf(p)) && p == First(protocols, CapOf(p)))
  }

  ghost function Sum(running: Running, names: set<string>): nat
    requires names <= running.Keys
  {
    if names == {} then 0 else
    var n :| n in names;
    running[n].proto.length + Sum(running, names - {n})
  }

  ghost function NamesBelow(running: Running, n: string): (names: set<string>)
    ensures names <= running.Keys
  {
    set m | m in running && Precedes(m, n)
  }

  lemma NamesAreBelow(running: Running, n: string)
    ensures forall m :: m in NamesBelow(running, n) <==> m in running && Below(m, n)
  {
    hide Below, Precedes;
    forall m | m in running
      ensures Below(m, n) <==> Precedes(m, n)
    {
      BelowIsPrecedes(m, n);
    }
  }

  /** Every protocol starts where those with smaller names end; the first one at 16. */
  ghost predicate Laid(running: Running) {
    forall n :: n in running ==> running[n].offset == Wrap(16 + Sum(running, NamesBelow(running, n)))
  }

  lemma {:induction false} SumWithout(running: Running, names: set<string>, n: string)
    requires n in names && names <= running.Keys
    ensures Sum(running, names) == running[n].proto.length + Sum(running, names - {n})
    decreases |names|
  {
    var k :| k in names && Sum(running, names) == running[k].proto.length + Sum(running, names - {k});
    if k != n {
      SumWithout(running, names - {k}, n);
      SumWithout(running, names - {n}, k);
      assert names - {k} - {n} == names - {n} - {k};
    }
  }

  lemma SumOfNone(running: Running)
    ensures Sum(running, {}) == 0
  {
  }

  lemma {:induction false} SumSame(a: Running, b: Running, names: set<string>)
    requires names <= a.Keys && names <= b.Keys
    requires forall n :: n in names ==> a[n].proto.length == b[n].proto.length
    ensures Sum(a, names) == Sum(b, names)
    decreases |names|
  {
    if names != {} {
      var n :| n in names;
      SumWithout(a, names, n);
      SumWithout(b, names, n);
      SumSame(a, b, names - {n});
    }
  }

  // ---------------------------------------------------------------- negotiating

  lemma {:induction false} FirstAt(protocols: seq<Protocol>, c: Cap, j: nat)
    requires j < |protocols| && CapOf(protocols[j]) == c
    requires forall k :: 0 <= k < j ==> CapOf(protocols[k]) != c
    ensures Offers(protocols, c) && First(protocols, c) == protocols[j]
  {
    assert protocols[j] in protocols;
    if j > 0 {
      FirstAt(protocols[1..], c, j - 1);
    }
  }

  /** Names already running are below the name at hand, or are that name. */
  lemma NamesSoFar(running: Running, protocols: seq<Protocol>, sorted: seq<Cap>, i: nat, n: string)
    requires Sorted(sorted) && i < |sorted| && Chosen(running, protocols, sorted[..i])
    requires n in running && n != sorted[i].name
    ensures Below(n, sorted[i].name)
  {
    hide Below;
    var c := CapOf(running[n].proto);
    assert c in sorted[..i];
    var k :| 0 <= k < i && sorted[k] == c;
    assert !Less(sorted[i], sorted[k]);
    BelowIsTotal(n, sorted[i].name);
  }

  /** Assigning the next match keeps the layout, whether or not an older version is reverted. */
  lemma Assigned(running: Running, protocols: seq<Protocol>, sorted: seq<Cap>, i: nat, m: Match)
    requires Sorted(sorted) && i < |sorted| && Chosen(running, protocols, sorted[..i]) && Laid(running)
    requires m.proto.name == sorted[i].name
    requires m.offset == Wrap(BASE_PROTOCOL_LENGTH + Sum(running, running.Keys - {m.proto.name}))
    ensures var after := running[m.proto.name := m];
            Laid(after) && Sum(after, after.Keys) == Sum(running, running.Keys - {m.proto.name}) + m.proto.length
  {
    hide Below, Chosen, Sorted, Sum, Wrap;
    var name := m.proto.name;
    var after := running[name := m];
    var others := running.Keys - {name};
    forall n | n in others
      ensures Below(n, name) && !Below(name, n)
    {
      NamesSoFar(running, protocols, sorted, i, n);
      BelowIsStrict(n, name);
    }
    BelowIsStrict(name, name);
    NamesAreBelow(after, name);
    assert NamesBelow(after, name) == others;
    SumSame(after, running, others);
    SumWithout(after, after.Keys, name);
    assert after.Keys - {name} == others;
    forall n | n in others
      ensures after[n].offset == Wrap(BASE_PROTOCOL_LENGTH + Sum(after, NamesBelow(after, n)))
    {
      NamesAreBelow(after, n);
      NamesAreBelow(running, n);
      assert NamesBelow(after, n) == NamesBelow(running, n);
      SumSame(after, running, NamesBelow(running, n));
    }
  }

  lemma ChosenNext(running: Running, protocols: seq<Protocol>, sorted: seq<Cap>, i: nat, m: Match)
    requires Sorted(sorted) && i < |sorted| && Chosen(running, protocols, sorted[..i])
    requires Offers(protocols, sorted[i]) && m.proto == First(protocols, sorted[i]) && CapOf(m.proto) == sorted[i]
    ensures Chosen(running[m.proto.name := m], protocols, sorted[..i+1])
  {
    var name := m.proto.name;
    var after := running[name := m];
    assert sorted[..i+1] == sorted[..i] + [sorted[i]];
    forall c | c in sorted[..i+1] && Offers(protocols, c)
      ensures c.name in after && c.version <= after[c.name].proto.version
    {
      if c.name == name {
        var k :| 0 <= k <= i && sorted[k] == c;
        assert k < i ==> !Less(sorted[i], sorted[k]);
      }
    }
  }

  /** Adds and subtracts on 64-bit words, as on integers. */
  lemma WrapSteps(a: int, b: int)
    ensures Wrap(Wrap(a) + b) == Wrap(a + b) && Wrap(Wrap(a) - b) == Wrap(a - b)
  {
    var q, q1, q2 := a / TWO_TO_THE_64, (a + b) / TWO_TO_THE_64, (a - b) / TWO_TO_THE_64;
    WordOf(Wrap(a) + b, Wrap(a + b), q1 - q);
    WordOf(Wrap(a) - b, Wrap(a - b), q2 - q);
  }

  lemma WordOf(n: int, r: uint64, q: int)
    requires n == r + q * TWO_TO_THE_64
    ensures Wrap(n) == r
  {
  }

  method MatchProtocols(protocols: seq<Protocol>, caps: seq<Cap>) returns (running: Running)
    ensures Chosen(running, protocols, caps) && Laid(running)
  {
    hide Chosen, Laid, Wrap, Sorted, First, Sum;
    var sorted := SortCaps(caps);
    var offset: uint64 := BASE_PROTOCOL_LENGTH;
    running := map[];
    EmptyMatch(protocols);
    assert sorted[..0] == [];
    for i := 0 to |sorted|
      invariant Chosen(running, protocols, sorted[..i]) && Laid(running)
      invariant offset == Wrap(BASE_PROTOCOL_LENGTH + Sum(running, running.Keys))
    {
      var cap := sorted[i];
      var j := 0;
      while j < |protocols| && CapOf(protocols[j]) != cap
        invariant 0 <= j <= |protocols| && forall k :: 0 <= k < j ==> CapOf(protocols[k]) != cap
      {
        j := j + 1;
      }
      if j < |protocols| {
        if cap.name in running {
          var previous := running[cap.name];
          SumWithout(running, running.Keys, cap.name);
          WrapSteps(BASE_PROTOCOL_LENGTH + Sum(running, running.Keys), previous.proto.length);
          offset := Wrap(offset - previous.proto.length);
        } else {
          assert running.Keys - {cap.name} == running.Keys;
        }
        var m := Match(protocols[j], offset);
        FirstAt(protocols, cap, j);
        Assigned(running, protocols, sorted, i, m);
        ChosenNext(running, protocols, sorted, i, m);
        WrapSteps(BASE_PROTOCOL_LENGTH + Sum(running, running.Keys - {cap.name}), protocols[j].length);
        running := running[cap.name := m];
        offset := Wrap(offset + protocols[j].length);
      } else {
        NotOffered(running, protocols, sorted, i);
      }
    }
    ChosenSorted(running, protocols, sorted, caps);
  }

  lemma EmptyMatch(protocols: seq<Protocol>)
    ensures Chosen(map[], protocols, []) && Laid(map[])
    ensures var none: Running := map[]; Wrap(BASE_PROTOCOL_LENGTH + Sum(none, none.Keys)) == BASE_PROTOCOL_LENGTH
  {
  }

  lemma NotOffered(running: Running, protocols: seq<Protocol>, sorted: seq<Cap>, i: nat)
    requires i < |sorted| && Chosen(running, protocols, sorted[..i])
    requires forall k :: 0 <= k < |protocols| ==> CapOf(protocols[k]) != sorted[i]
    ensures Chosen(running, protocols, sorted[..i+1])
  {
    assert sorted[..i+1] == sorted[..i] + [sorted[i]];
  }

  lemma ChosenSorted(running: Running, protocols: seq<Protocol>, sorted: seq<Cap>, caps: seq<Cap>)
    requires multiset(sorted) == multiset(caps) && Chosen(running, protocols, sorted[..|sorted|])
    ensures Chosen(running, protocols, caps)
  {
    assert sorted[..|sorted|] == sorted;
    forall c
      ensures c in caps <==> c in sorted
    {
      assert c in caps <==> c in multiset(caps);
    }
  }

  /** How often a capability is offered. */
  ghost function Offering(protocols: seq<Protocol>, c: Cap): nat {
    if protocols == [] then 0 else
    var k := |protocols| - 1;
    Offering(protocols[..k], c) + if CapOf(protocols[k]) == c then 1 else 0
  }

  /** How many pairs of a capability and a protocol match. */
  ghost function Pairs(protocols: seq<Protocol>, caps: seq<Cap>): nat {
    if caps == [] then 0 else Pairs(protocols, caps[..|caps|-1]) + Offering(protocols, caps[|caps|-1])
  }

  lemma {:induction false} OfferingNone(protocols: seq<Protocol>, c: Cap)
    ensures Offering(protocols, c) == 0 <==> !Offers(protocols, c)
  {
    if protocols != [] {
      var k := |protocols| - 1;
      OfferingNone(protocols[..k], c);
      assert protocols == protocols[..k] + [protocols[k]];
    }
  }

  /** No pair matches exactly if no capability is offered. */
  lemma {:induction false} NoPairs(protocols: seq<Protocol>, caps: seq<Cap>)
    ensures Pairs(protocols, caps) == 0 <==> forall c :: c in caps ==> !Offers(protocols, c)
  {
    if caps != [] {
      var k := |caps| - 1;
      NoPairs(protocols, caps[..k]);
      OfferingNone(protocols, caps[k]);
      assert caps == caps[..k] + [caps[k]];
    }
  }

  /** The check before a peer is admitted: useful exactly if some protocol would run. */
  method CountMatchingProtocols(protocols: seq<Protocol>, caps: seq<Cap>) returns (n: nat)
    ensures n == Pairs(protocols, caps)
    ensures n == 0 <==> forall c :: c in caps ==> !Offers(protocols, c)
  {
    n := 0;
    for i := 0 to |caps|
      invariant n == Pairs(protocols, caps[..i])
    {
      for j := 0 to |protocols|
        invariant n == Pairs(protocols, caps[..i]) + Offering(protocols[..j], caps[i])
      {
        assert protocols[..j+1][..j] == protocols[..j];
        if protocols[j].name == caps[i].name && protocols[j].version == caps[i].version {
          n := n + 1;
        }
      }
      assert protocols[..|protocols|] == protocols && caps[..i+1][..i] == caps[..i];
    }
    assert caps[..|caps|] == caps;
    NoPairs(protocols, caps);
  }

  lemma UselessMeansNothingRuns(running: Running, protocols: seq<Protocol>, caps: seq<Cap>)
    requires Chosen(running, protocols, caps)
    ensures running == map[] <==> forall c :: c in caps ==> !Offers(protocols, c)
  {
    if running != map[] {
      var n :| n in running;
      assert CapOf(running[n].proto) in caps;
    }
  }

  // ---------------------------------------------------------------- both ends agree

  ghost predicate Advertises(caps: seq<Cap>, protocols: seq<Protocol>) {
    forall c :: c in caps <==> Offers(protocols, c)
  }

  ghost predicate SameLengths(ours: seq<Protocol>, theirs: seq<Protocol>) {
    forall p, q :: p in ours && q in theirs && CapOf(p) == CapOf(q) ==> p.length == q.length
  }

  lemma {:induction false} FirstIsOffered(protocols: seq<Protocol>, c: Cap)
    requires Offers(protocols, c)
    ensures First(protocols, c) in protocols && CapOf(First(protocols, c)) == c
  {
    if CapOf(protocols[0]) != c {
      var p :| p in protocols && CapOf(p) == c;
      assert p in protocols[1..];
      FirstIsOffered(protocols[1..], c);
    }
  }

  /** One side's choice: exactly the names with a common version, in the highest common one. */
  lemma HighestCommon(running: Running, ours: seq<Protocol>, theirs: seq<Protocol>, theirCaps: seq<Cap>, n: string)
    requires Advertises(theirCaps, theirs) && Chosen(running, ours, theirCaps)
    ensures n in running <==> exists v: nat :: Offers(ours, Cap(n, v)) && Offers(theirs, Cap(n, v))
    ensures n in running ==>
              && var v := running[n].proto.version;
              && Offers(ours, Cap(n, v)) && Offers(theirs, Cap(n, v))
              && forall w: nat :: Offers(ours, Cap(n, w)) && Offers(theirs, Cap(n, w)) ==> w <= v
  {
    if n in running {
      assert CapOf(running[n].proto) == Cap(n, running[n].proto.version);
    }
    forall w: nat | Offers(ours, Cap(n, w)) && Offers(theirs, Cap(n, w))
      ensures n in running && w <= running[n].proto.version
    {
      assert Cap(n, w) in theirCaps;
    }
  }

  lemma ChoiceIs(running: Running, protocols: seq<Protocol>, caps: seq<Cap>, n: string)
    requires Chosen(running, protocols, caps) && n in running
    ensures running[n].proto in protocols && running[n].proto.name == n
  {
    hide First;
    FirstIsOffered(protocols, CapOf(running[n].proto));
  }

  lemma SameChoice(ours: seq<Protocol>, theirs: seq<Protocol>, ourCaps: seq<Cap>, theirCaps: seq<Cap>,
                   mine: Running, yours: Running, n: string)
    requires Advertises(ourCaps, ours) && Advertises(theirCaps, theirs) && SameLengths(ours, theirs)
    requires Chosen(mine, ours, theirCaps) && Chosen(yours, theirs, ourCaps)
    ensures n in mine <==> n in yours
    ensures n in mine ==>
              mine[n].proto.version == yours[n].proto.version && mine[n].proto.length == yours[n].proto.length
  {
    hide Advertises, Offers, Chosen;
    HighestCommon(mine, ours, theirs, theirCaps, n);
    HighestCommon(yours, theirs, ours, ourCaps, n);
    if n in mine {
      ChoiceIs(mine, ours, theirCaps, n);
      ChoiceIs(yours, theirs, ourCaps, n);
    }
  }

  lemma BothEndsAgree(ours: seq<Protocol>, theirs: seq<Protocol>, ourCaps: seq<Cap>, theirCaps: seq<Cap>,
                      mine: Running, yours: Running)
    requires Advertises(ourCaps, ours) && Advertises(theirCaps, theirs) && SameLengths(ours, theirs)
    requires Chosen(mine, ours, theirCaps) && Laid(mine) && Chosen(yours, theirs, ourCaps) && Laid(yours)
    ensures AgreeOn(mine, yours)
    ensures forall n :: n in mine ==> mine[n].proto.version == yours[n].proto.version
  {
    hide Advertises, SameLengths, Chosen, Sum, Below;
    forall n
      ensures n in mine <==> n in yours
      ensures n in mine ==>
                mine[n].proto.version == yours[n].proto.version && mine[n].proto.length == yours[n].proto.length
    {
      SameChoice(ours, theirs, ourCaps, theirCaps, mine, yours, n);
    }
    forall n | n in mine
      ensures mine[n].offset == yours[n].offset
    {
      assert NamesBelow(mine, n) == NamesBelow(yours, n);
      SumSame(mine, yours, NamesBelow(mine, n));
    }
  }

  ghost predicate AgreeOn(mine: Running, yours: Running) {
    && mine.Keys == yours.Keys
    && forall n :: n in mine ==> mine[n].offset == yours[n].offset && Length(mine[n]) == Length(yours[n])
  }

  // ---------------------------------------------------------------- ranges

  function Length(m: Match): uint64 {
    m.proto.length
  }

  /** The test of getProto, on 64-bit words. */
  predicate InRange(m: Match, code: uint64) {
    m.offset <= code < Wrap(m.offset + Length(m))
  }

  ghost predicate Fits(running: Running) {
    BASE_PROTOCOL_LENGTH + Sum(running, running.Keys) < TWO_TO_THE_64
  }

  ghost predicate DownClosed(running: Running, names: set<string>) {
    names <= running.Keys && forall m, n :: n in names && m in running && Below(m, n) ==> m in names
  }

  lemma {:induction false} Greatest(names: set<string>) returns (n: string)
    requires names != {}
    ensures n in names && forall m :: m in names && m != n ==> Below(m, n)
    decreases |names|
  {
    var k :| k in names;
    if names == {k} {
      n := k;
    } else {
      var g := Greatest(names - {k});
      BelowIsTotal(g, k);
      n := if Below(g, k) then k else g;
      forall m | m in names && m != n
        ensures Below(m, n)
      {
        if m != k && n == k && m != g {
          BelowIsTransitive(m, g, k);
        }
      }
    }
  }

  /** The greatest of a down-closed set of names comes right after all the others. */
  lemma PeelGreatest(running: Running, names: set<string>) returns (n: string)
    requires DownClosed(running, names) && names != {}
    ensures n in names && names - {n} == NamesBelow(running, n) && DownClosed(running, names - {n})
    ensures Sum(running, names) == Sum(running, names - {n}) + Length(running[n])
  {
    hide NamesBelow;
    n := Greatest(names);
    NamesAreBelow(running, n);
    BelowIsStrict(n, n);
    SumWithout(running, names, n);
    forall m, k | k in names - {n} && m in running && Below(m, k)
      ensures m in names - {n}
    {
      BelowIsStrict(k, n);
    }
  }

  lemma {:induction false} SumMonotone(running: Running, a: set<string>, b: set<string>)
    requires a <= b <= running.Keys
    ensures Sum(running, a) <= Sum(running, b)
    decreases |a|
  {
    if a != {} {
      var n :| n in a;
      SumWithout(running, a, n);
      SumWithout(running, b, n);
      SumMonotone(running, a - {n}, b - {n});
    }
  }

  /** A range ends before the range of any greater name begins. */
  lemma EndsBefore(running: Running, m: string, n: string)
    requires m in running && n in running && Below(m, n)
    ensures Sum(running, NamesBelow(running, m)) + Length(running[m]) <= Sum(running, NamesBelow(running, n))
  {
    hide NamesBelow, Below;
    var upTo := NamesBelow(running, m) + {m};
    NamesAreBelow(running, m);
    NamesAreBelow(running, n);
    BelowIsStrict(m, m);
    SumWithout(running, upTo, m);
    assert upTo - {m} == NamesBelow(running, m);
    forall k | k in NamesBelow(running, m)
      ensures Below(k, n)
    {
      BelowIsTransitive(k, m, n);
    }
    SumMonotone(running, upTo, NamesBelow(running, n));
  }

  lemma EndsInside(running: Running, n: string)
    requires n in running
    ensures Sum(running, NamesBelow(running, n)) + Length(running[n]) <= Sum(running, running.Keys)
  {
    hide NamesBelow, Below;
    NamesAreBelow(running, n);
    BelowIsStrict(n, n);
    SumWithout(running, NamesBelow(running, n) + {n}, n);
    assert NamesBelow(running, n) + {n} - {n} == NamesBelow(running, n);
    SumMonotone(running, NamesBelow(running, n) + {n}, running.Keys);
  }

  /** Where the ranges lie if they fit. */
  lemma RangeIs(running: Running, n: string)
    requires Laid(running) && Fits(running) && n in running
    ensures running[n].offset == BASE_PROTOCOL_LENGTH + Sum(running, NamesBelow(running, n))
    ensures Wrap(running[n].offset + Length(running[n])) == running[n].offset + Length(running[n])
  {
    hide Sum, Wrap, Below;
    EndsInside(running, n);
    var start := BASE_PROTOCOL_LENGTH + Sum(running, NamesBelow(running, n));
    WordOf(start, start, 0);
    WordOf(start + Length(running[n]), start + Length(running[n]), 0);
  }

  lemma RangesDisjoint(running: Running, m: string, n: string, code: uint64)
    requires Laid(running) && Fits(running) && m in running && n in running
    requires InRange(running[m], code) && InRange(running[n], code)
    ensures m == n
  {
    hide Sum, Wrap, Below;
    RangeIs(running, m);
    RangeIs(running, n);
    BelowIsTotal(m, n);
    if Below(m, n) {
      EndsBefore(running, m, n);
    } else if Below(n, m) {
      EndsBefore(running, n, m);
    }
  }

  lemma {:induction false} RangesCover(running: Running, names: set<string>, code: uint64)
    requires Laid(running) && Fits(running) && DownClosed(running, names)
    requires BASE_PROTOCOL_LENGTH <= code < BASE_PROTOCOL_LENGTH + Sum(running, names)
    ensures exists n :: n in names && InRange(running[n], code)
    decreases |names|
  {
    hide Below, Wrap, Sum, Laid, Fits;
    SumOfNone(running);
    var n := PeelGreatest(running, names);
    RangeIs(running, n);
    if code < running[n].offset {
      RangesCover(running, names - {n}, code);
    }
  }

  /** The ranges partition the interval from 16 on: every code in it belongs to one protocol. */
  lemma Partition(running: Running, code: uint64)
    requires Laid(running) && Fits(running)
    ensures BASE_PROTOCOL_LENGTH <= code < BASE_PROTOCOL_LENGTH + Sum(running, running.Keys)
       <==> exists n :: n in running && InRange(running[n], code)
    ensures forall m, n :: m in running && n in running && InRange(running[m], code) && InRange(running[n], code) ==>
              m == n
  {
    hide Sum, Wrap, Below;
    if BASE_PROTOCOL_LENGTH <= code < BASE_PROTOCOL_LENGTH + Sum(running, running.Keys) {
      RangesCover(running, running.Keys, code);
    }
    forall n | n in running && InRange(running[n], code)
      ensures BASE_PROTOCOL_LENGTH <= code < BASE_PROTOCOL_LENGTH + Sum(running, running.Keys)
    {
      RangeIs(running, n);
      EndsInside(running, n);
    }
    forall m, n | m in running && n in running && InRange(running[m], code) && InRange(running[n], code)
      ensures m == n
    {
      RangesDisjoint(running, m, n, code);
    }
  }

  // ---------------------------------------------------------------- messages

  /** The code on the wire; a code the protocol does not have is refused. */
  function WriteMsg(m: Match, code: uint64): Option<uint64> {
    if code >= Length(m) then None else Some(Wrap(code + m.offset))
  }

  function ReadMsg(m: Match, wire: uint64): uint64 {
    Wrap(wire - m.offset)
  }

  /** Finds the protocol of a code; the table is searched in no particular order. */
  method GetProto(running: Running, code: uint64) returns (r: Option<string>)
    ensures r.Some? ==> r.value in running && InRange(running[r.value], code)
    ensures r.None? ==> forall n :: n in running ==> !InRange(running[n], code)
  {
    var rest := running.Keys;
    while rest != {}
      invariant rest <= running.Keys && forall n :: n in running && n !in rest ==> !InRange(running[n], code)
    {
      var n :| n in rest;
      if code >= running[n].offset && code < Wrap(running[n].offset + running[n].proto.length) {
        return Some(n);
      }
      rest := rest - {n};
    }
    return None;
  }

  /** A message of the protocol `n` reaches that protocol at the other end, with its code. */
  ghost predicate Delivered(mine: Running, yours: Running, n: string, code: uint64)
    requires n in mine && n in yours
  {
    var wire := WriteMsg(mine[n], code);
    && wire.Some? && wire.value >= BASE_PROTOCOL_LENGTH
    && InRange(yours[n], wire.value)
    && (forall k :: k in yours && InRange(yours[k], wire.value) ==> k == n)
    && ReadMsg(yours[n], wire.value) == code
  }

  lemma DeliveredIfFits(mine: Running, yours: Running, n: string, code: uint64)
    requires AgreeOn(mine, yours) && Laid(mine) && Laid(yours) && Fits(yours)
    requires n in mine && code < Length(mine[n])
    ensures Delivered(mine, yours, n, code)
  {
    hide Sum, Wrap, Below;
    RangeIs(yours, n);
    EndsInside(yours, n);
    var wire := code + mine[n].offset;
    WordOf(wire, wire, 0);
    WordOf(wire - yours[n].offset, code, 0);
    forall k | k in yours && InRange(yours[k], wire)
      ensures k == n
    {
      RangesDisjoint(yours, k, n, wire);
    }
  }

  /** If the ranges do not fit there is a protocol whose range runs over the end. */
  lemma {:induction false} FindOverrun(running: Running, names: set<string>) returns (n: string)
    requires DownClosed(running, names) && BASE_PROTOCOL_LENGTH + Sum(running, names) >= TWO_TO_THE_64
    ensures n in names
    ensures BASE_PROTOCOL_LENGTH + Sum(running, NamesBelow(running, n)) < TWO_TO_THE_64
    ensures BASE_PROTOCOL_LENGTH + Sum(running, NamesBelow(running, n)) + Length(running[n]) >= TWO_TO_THE_64
    decreases |names|
  {
    var g := PeelGreatest(running, names);
    if BASE_PROTOCOL_LENGTH + Sum(running, names - {g}) >= TWO_TO_THE_64 {
      n := FindOverrun(running, names - {g});
    } else {
      n := g;
    }
  }

  /**
    Every message is delivered exactly if the lengths of the protocols that run, with the
    base protocol's 16 codes, stay below 2^64: the offsets are 64-bit words and wrap silently.
   */
  lemma DeliveredIffFits(mine: Running, yours: Running)
    requires AgreeOn(mine, yours) && Laid(mine) && Laid(yours)
    ensures Fits(yours) <==>
              forall n, code: uint64 :: n in mine && code < Length(mine[n]) ==> Delivered(mine, yours, n, code)
  {
    if Fits(yours) {
      forall n, code: uint64 | n in mine && code < Length(mine[n])
        ensures Delivered(mine, yours, n, code)
      {
        DeliveredIfFits(mine, yours, n, code);
      }
    } else {
      var n := FindOverrun(yours, yours.Keys);
      OverrunIsLost(mine, yours, n);
    }
  }

  lemma OverrunIsLost(mine: Running, yours: Running, n: string)
    requires AgreeOn(mine, yours) && Laid(mine) && Laid(yours) && n in mine
    requires BASE_PROTOCOL_LENGTH + Sum(yours, NamesBelow(yours, n)) < TWO_TO_THE_64
    requires BASE_PROTOCOL_LENGTH + Sum(yours, NamesBelow(yours, n)) + Length(yours[n]) >= TWO_TO_THE_64
    ensures 0 < Length(mine[n]) && !Delivered(mine, yours, n, 0)
  {
    hide Sum, NamesBelow, InRange;
    var start := BASE_PROTOCOL_LENGTH + Sum(yours, NamesBelow(yours, n));
    WordOf(start, start, 0);
    WordOf(0 + mine[n].offset, mine[n].offset, 0);
    NeverInRange(yours[n]);
  }

  lemma NeverInRange(m: Match)
    requires m.offset + Length(m) >= TWO_TO_THE_64
    ensures !InRange(m, m.offset)
  {
    var end := m.offset + Length(m);
    WordOf(end, end - TWO_TO_THE_64, 1);
  }

  /** A protocol that takes all codes from 16 on, or more, is negotiated but loses its first message. */
  lemma TooLongIsLost(p: Protocol, running: Running)
    requires p.length >= TWO_TO_THE_64 - BASE_PROTOCOL_LENGTH
    requires Chosen(running, [p], [CapOf(p)]) && Laid(running)
    ensures p.name in running && !Fits(running) && !Delivered(running, running, p.name, 0)
  {
    hide Wrap, InRange, Delivered;
    assert p in [p] && CapOf(p) in [CapOf(p)];
    assert Offers([p], CapOf(p));
    assert p.name in running;
    FirstIsOffered([p], CapOf(running[p.name].proto));
    forall n | n in running
      ensures n == p.name
    {
      assert CapOf(running[n].proto) in [CapOf(p)];
    }
    assert running.Keys == {p.name};
    BelowIsStrict(p.name, p.name);
    assert NamesBelow(running, p.name) == {};
    SumOfNone(running);
    SumWithout(running, {p.name}, p.name);
    assert {p.name} - {p.name} == {};
    OverrunIsLost(running, running, p.name);
  }

  /** A table as the code negotiates it, for a protocol of 2^64 - 16 codes. */
  method NegotiatesTooLong() returns (running: Running)
    ensures "eth" in running && !Fits(running) && !Delivered(running, running, "eth", 0)
  {
    hide Fits, Delivered, Chosen, Laid;
    var p := Protocol("eth", 68, TWO_TO_THE_64 - BASE_PROTOCOL_LENGTH);
    running := MatchProtocols([p], [Cap("eth", 68)]);
    TooLongIsLost(p, running);
  }

  /** A whole exchange: both ends negotiate, one writes a message, the other routes and reads it. */
  method Exchange(ours: seq<Protocol>, theirs: seq<Protocol>, ourCaps: seq<Cap>, theirCaps: seq<Cap>,
                  n: string, code: uint64)
    returns (mine: Running, yours: Running, got: Option<(string, uint64)>)
    requires Advertises(ourCaps, ours) && Advertises(theirCaps, theirs) && SameLengths(ours, theirs)
    ensures n in mine <==> exists v: nat :: Offers(ours, Cap(n, v)) && Offers(theirs, Cap(n, v))
    ensures AgreeOn(mine, yours)
    ensures Fits(yours) && n in mine && code < Length(mine[n]) ==> got == Some((n, code))
    ensures n !in mine || code >= Length(mine[n]) ==> got == None
  {
    hide Chosen, Laid, Fits, Advertises, SameLengths, Offers, Wrap;
    mine := MatchProtocols(ours, theirCaps);
    yours := MatchProtocols(theirs, ourCaps);
    BothEndsAgree(ours, theirs, ourCaps, theirCaps, mine, yours);
    HighestCommon(mine, ours, theirs, theirCaps, n);
    got := None;
    if n in mine {
      var wire := WriteMsg(mine[n], code);
      if wire.Some? {
        if Fits(yours) {
          DeliveredIfFits(mine, yours, n, code);
        }
        var k := GetProto(yours, wire.value);
        if k.Some? {
          got := Some((k.value, ReadMsg(yours[k.value], wire.value)));
        }
      }
    }
  }
}
