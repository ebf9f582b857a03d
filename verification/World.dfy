/**
  Account balances as the fee accounting sees them (`core/state/state_object.go`): 256-bit
  words that wrap silently, and the sum over all accounts.
 */
module World {
  import opened Common

  const TWO_TO_THE_256: int := 0x1_0000_0000_0000_0000_0000_0000_0000_0000_0000_0000_0000_0000_0000_0000_0000_0000

  type uint256 = n: int | 0 <= n < TWO_TO_THE_256
  type Address = nat
  type Balances = map<Address, uint256>

  function Wrap(n: int): uint256 {
    n % TWO_TO_THE_256
  }

  lemma WordOf(n: int, r: uint256, q: int)
    requires n == r + q * TWO_TO_THE_256
    ensures Wrap(n) == r
  {
  }

  /** Subtracting word by word is subtracting at once. */
  lemma WrapSteps(a: int, b: int)
    ensures Wrap(Wrap(a) - b) == Wrap(a - b)
  {
    var q, r := a / TWO_TO_THE_256, (a - b) / TWO_TO_THE_256;
    WordOf(Wrap(a) - b, Wrap(a - b), r - q);
  }

  /** Adding word by word is adding at once. */
  lemma WrapSum(a: int, b: int)
    ensures Wrap(Wrap(a) + b) == Wrap(a + b) && Wrap(b + Wrap(a)) == Wrap(b + a)
  {
    WrapSteps(a, -b);
  }

  /** A number that is no word loses at least one multiple of 2^256. */
  lemma WrapAtMost(n: nat)
    ensures if n < TWO_TO_THE_256 then Wrap(n) == n else Wrap(n) <= n - TWO_TO_THE_256
  {
  }

  /** Accounts that are not in the state have nothing. */
  function Balance(b: Balances, a: Address): uint256 {
    if a in b then b[a] else 0
  }

  ghost function Total(b: Balances): nat
    decreases |b|
  {
    if b == map[] then 0 else
    var a :| a in b;
    b[a] + Total(b - {a})
  }

  lemma {:induction false} TotalWithout(b: Balances, a: Address)
    requires a in b
    ensures Total(b) == b[a] + Total(b - {a})
    decreases |b|
  {
    var k :| k in b && Total(b) == b[k] + Total(b - {k});
    if k != a {
      TotalWithout(b - {k}, a);
      TotalWithout(b - {a}, k);
      assert b - {k} - {a} == b - {a} - {k};
    }
  }

  lemma TotalUpdate(b: Balances, a: Address, v: uint256)
    ensures Total(b[a := v]) == Total(b) - Balance(b, a) + v
  {
    TotalWithout(b[a := v], a);
    if a in b {
      TotalWithout(b, a);
      assert b[a := v] - {a} == b - {a};
    } else {
      assert b[a := v] - {a} == b;
    }
  }

  lemma BalanceAtMostTotal(b: Balances, a: Address)
    ensures Balance(b, a) <= Total(b)
  {
    if a in b {
      TotalWithout(b, a);
    }
  }

  /** The part of the world state that a message can touch. */
  datatype Snapshot = Snapshot(balances: Balances, nonces: map<Address, uint64>, codes: set<Address>)

  class State {
    var s: Snapshot

    /** The refund counter of the running transaction. */
    var refund: uint64

    /** A balance has wrapped around. */
    ghost var wrapped: bool

    constructor (s: Snapshot)
      ensures this.s == s && refund == 0 && !wrapped
    {
      this.s, refund, wrapped := s, 0, false;
    }

    method AddBalance(a: Address, amount: uint256)
      modifies this`s, this`wrapped
      ensures s.(balances := map[]) == old(s).(balances := map[])
      ensures Balance(s.balances, a) == Wrap(old(Balance(s.balances, a)) + amount)
      ensures forall k :: k != a ==> Balance(s.balances, k) == old(Balance(s.balances, k))
      ensures old(Balance(s.balances, a)) + amount < TWO_TO_THE_256 ==>
                && Total(s.balances) == old(Total(s.balances)) + amount
                && Balance(s.balances, a) == old(Balance(s.balances, a)) + amount
      ensures wrapped <==> old(wrapped) || old(Balance(s.balances, a)) + amount >= TWO_TO_THE_256
    {
      var was := Balance(s.balances, a);
      if was + amount < TWO_TO_THE_256 {
        WordOf(was + amount, was + amount, 0);
      } else {
        wrapped := true;
      }
      if amount != 0 {
        TotalUpdate(s.balances, a, Wrap(was + amount));
        s := s.(balances := s.balances[a := Wrap(was + amount)]);
      }
    }

    method SubBalance(a: Address, amount: uint256)
      modifies this`s, this`wrapped
      ensures s.(balances := map[]) == old(s).(balances := map[])
      ensures Balance(s.balances, a) == Wrap(old(Balance(s.balances, a)) - amount)
      ensures forall k :: k != a ==> Balance(s.balances, k) == old(Balance(s.balances, k))
      ensures amount <= old(Balance(s.balances, a)) ==>
                && Total(s.balances) == old(Total(s.balances)) - amount
                && Balance(s.balances, a) == old(Balance(s.balances, a)) - amount
      ensures wrapped <==> old(wrapped) || amount > old(Balance(s.balances, a))
    {
      var was := Balance(s.balances, a);
      if amount <= was {
        WordOf(was - amount, was - amount, 0);
      } else {
        wrapped := true;
      }
      if amount != 0 {
        TotalUpdate(s.balances, a, Wrap(was - amount));
        s := s.(balances := s.balances[a := Wrap(was - amount)]);
      }
    }
  }
}
