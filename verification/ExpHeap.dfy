/**
  The expiry heap of `p2p/util.go`: items ordered by expiry time in a binary heap, pushed and
  popped in place by sifting up and down.
 */
module ExpHeap {

  type Time = int

  datatype ExpItem<K> = ExpItem(item: K, exp: Time)

  function Parent(k: nat): nat
    requires k >= 1
  {
    (k - 1) / 2
  }

  /** No item expires before its parent. */
  ghost predicate HeapOrdered<K>(s: seq<ExpItem<K>>) {
    forall k {:trigger Parent(k)} :: 1 <= k < |s| ==> s[Parent(k)].exp <= s[k].exp
  }

  lemma {:induction false} RootIsLeast<K>(s: seq<ExpItem<K>>, k: nat)
    requires HeapOrdered(s) && k < |s|
    ensures s[0].exp <= s[k].exp
  {
    if k > 0 {
      RootIsLeast(s, Parent(k));
    }
  }

  lemma RootIsLeastItem<K>(s: seq<ExpItem<K>>)
    requires HeapOrdered(s) && s != []
    ensures forall x :: x in s ==> s[0].exp <= x.exp
  {
    forall k | 0 <= k < |s|
      ensures s[0].exp <= s[k].exp
    {
      RootIsLeast(s, k);
    }
  }

  function Swap<K>(s: seq<ExpItem<K>>, i: nat, j: nat): (r: seq<ExpItem<K>>)
    requires i < |s| && j < |s|
    ensures |r| == |s|
  {
    s[i := s[j]][j := s[i]]
  }

  lemma SwapKeeps<K>(s: seq<ExpItem<K>>, i: nat, j: nat)
    requires i < |s| && j < |s|
    ensures multiset(Swap(s, i, j)) == multiset(s)
  {
  }

  lemma SwapTail<K>(s: seq<ExpItem<K>>, i: nat, j: nat, n: nat)
    requires i < n <= |s| && j < n
    ensures Swap(s, i, j)[n..] == s[n..]
  {
  }

  // ---------------------------------------------------------------- sifting up

  /** Ordered but for the pair of `j` and its parent. */
  ghost predicate OrderedAbove<K>(s: seq<ExpItem<K>>, j: nat) {
    && j < |s|
    && (forall k {:trigger Parent(k)} :: 1 <= k < |s| && k != j ==> s[Parent(k)].exp <= s[k].exp)
    && (forall k {:trigger Parent(k)} :: 1 <= k < |s| && Parent(k) == j && j > 0 ==> s[Parent(j)].exp <= s[k].exp)
  }

  lemma UpStep<K>(s: seq<ExpItem<K>>, j: nat)
    requires OrderedAbove(s, j) && j > 0 && s[j].exp < s[Parent(j)].exp
    ensures OrderedAbove(Swap(s, Parent(j), j), Parent(j))
  {
    var i := Parent(j);
    var t := Swap(s, i, j);
    forall k | 1 <= k < |t| && k != i
      ensures t[Parent(k)].exp <= t[k].exp
    {
    }
    if i > 0 {
      forall k | 1 <= k < |t| && Parent(k) == i
        ensures t[Parent(i)].exp <= t[k].exp
      {
        assert s[Parent(i)].exp <= s[i].exp;
      }
    }
  }

  lemma UpDone<K>(s: seq<ExpItem<K>>, j: nat)
    requires OrderedAbove(s, j) && (j > 0 ==> s[Parent(j)].exp <= s[j].exp)
    ensures HeapOrdered(s)
  {
  }

  lemma UpStart<K>(s: seq<ExpItem<K>>, x: ExpItem<K>)
    requires HeapOrdered(s)
    ensures OrderedAbove(s + [x], |s|)
  {
    forall k | 1 <= k < |s|
      ensures (s + [x])[Parent(k)].exp <= (s + [x])[k].exp
    {
    }
  }

  // ---------------------------------------------------------------- sifting down

  /** The first `n` are ordered but for the pairs of `i` and its children. */
  ghost predicate OrderedBelow<K>(s: seq<ExpItem<K>>, n: nat, i: nat) {
    && n <= |s|
    && (forall k {:trigger Parent(k)} :: 1 <= k < n && Parent(k) != i ==> s[Parent(k)].exp <= s[k].exp)
    && (forall k {:trigger Parent(k)} :: 1 <= k < n && Parent(k) == i && i > 0 ==> s[Parent(i)].exp <= s[k].exp)
  }

  lemma DownStep<K>(s: seq<ExpItem<K>>, n: nat, i: nat, j: nat)
    requires OrderedBelow(s, n, i) && 1 <= j < n && Parent(j) == i
    requires forall k {:trigger Parent(k)} :: 1 <= k < n && Parent(k) == i ==> s[j].exp <= s[k].exp
    requires s[j].exp < s[i].exp
    ensures OrderedBelow(Swap(s, i, j), n, j)
  {
    var t := Swap(s, i, j);
    forall k | 1 <= k < n && Parent(k) != j
      ensures t[Parent(k)].exp <= t[k].exp
    {
      if k == i {
        assert s[Parent(i)].exp <= s[j].exp;
      }
    }
    forall k | 1 <= k < n && Parent(k) == j
      ensures t[Parent(j)].exp <= t[k].exp
    {
      assert s[Parent(k)].exp <= s[k].exp;
    }
  }

  lemma DownDone<K>(s: seq<ExpItem<K>>, n: nat, i: nat)
    requires OrderedBelow(s, n, i)
    requires forall k {:trigger Parent(k)} :: 1 <= k < n && Parent(k) == i ==> s[i].exp <= s[k].exp
    ensures HeapOrdered(s[..n])
  {
    forall k | 1 <= k < n
      ensures s[..n][Parent(k)].exp <= s[..n][k].exp
    {
    }
  }

  lemma DownStart<K>(s: seq<ExpItem<K>>)
    requires HeapOrdered(s) && s != []
    ensures OrderedBelow(Swap(s, 0, |s| - 1), |s| - 1, 0)
  {
    var t := Swap(s, 0, |s| - 1);
    forall k | 1 <= k < |s| - 1 && Parent(k) != 0
      ensures t[Parent(k)].exp <= t[k].exp
    {
    }
  }

  /** In order of expiry. */
  ghost predicate Ascending<K>(s: seq<ExpItem<K>>) {
    forall i, j :: 0 <= i < j < |s| ==> s[i].exp <= s[j].exp
  }

  /** Nothing expires before `exp`. */
  ghost predicate AllFrom<K>(exp: Time, s: seq<ExpItem<K>>) {
    forall y :: y in s ==> exp <= y.exp
  }

  lemma NoneAscends<K>()
    ensures Ascending<K>([])
  {
  }

  lemma OneMore<K>(s: seq<ExpItem<K>>, rest: seq<ExpItem<K>>, x: ExpItem<K>)
    requires Ascending(s) && (s != [] ==> AllFrom(s[|s|-1].exp, rest)) && x in rest
    ensures Ascending(s + [x])
  {
  }

  class Heap<K(==)> {
    var items: seq<ExpItem<K>>

    ghost predicate Valid()
      reads this
    {
      HeapOrdered(items)
    }

    constructor ()
      ensures Valid() && items == []
    {
      items := [];
    }

    method Up(start: nat)
      requires OrderedAbove(items, start)
      modifies this
      ensures HeapOrdered(items) && multiset(items) == old(multiset(items))
    {
      hide HeapOrdered, Swap;
      var j: nat := start;
      while true
        invariant OrderedAbove(items, j)
        invariant multiset(items) == old(multiset(items))
        decreases j
      {
        var i := if j == 0 then 0 else Parent(j);
        if i == j || !(items[j].exp < items[i].exp) {
          UpDone(items, j);
          break;
        }
        UpStep(items, j);
        SwapKeeps(items, i, j);
        items := Swap(items, i, j);
        j := i;
      }
    }

    method Down(start: nat, n: nat)
      requires OrderedBelow(items, n, start)
      modifies this
      ensures |items| == |old(items)| && multiset(items) == old(multiset(items))
      ensures n <= |items| && HeapOrdered(items[..n]) && items[n..] == old(items[n..])
    {
      hide HeapOrdered, Swap;
      var i: nat := start;
      while true
        invariant OrderedBelow(items, n, i)
        invariant |items| == |old(items)| && multiset(items) == old(multiset(items))
        invariant items[n..] == old(items[n..])
        decreases n - i
      {
        var j1 := 2 * i + 1;
        if j1 >= n {
          DownDone(items, n, i);
          break;
        }
        var j := j1;
        var j2 := j1 + 1;
        if j2 < n && items[j2].exp < items[j1].exp {
          j := j2;
        }
        assert forall k {:trigger Parent(k)} :: 1 <= k < n && Parent(k) == i ==> k == j1 || k == j2;
        if !(items[j].exp < items[i].exp) {
          DownDone(items, n, i);
          break;
        }
        DownStep(items, n, i, j);
        SwapTail(items, i, j, n);
        SwapKeeps(items, i, j);
        items := Swap(items, i, j);
        i := j;
      }
    }

    method Add(item: K, exp: Time)
      requires Valid()
      modifies this
      ensures Valid() && multiset(items) == old(multiset(items)) + multiset{ExpItem(item, exp)}
    {
      hide HeapOrdered, OrderedAbove;
      UpStart(items, ExpItem(item, exp));
      items := items + [ExpItem(item, exp)];
      Up(|items| - 1);
    }

    /** Takes out an item that expires first. */
    method Pop() returns (x: ExpItem<K>)
      requires Valid() && items != []
      modifies this
      ensures Valid() && |items| == |old(items)| - 1 && x == old(items[0])
      ensures multiset(items) + multiset{x} == old(multiset(items))
      ensures forall y :: y in old(items) ==> x.exp <= y.exp
    {
      hide HeapOrdered, OrderedBelow;
      RootIsLeastItem(items);
      DownStart(items);
      var n := |items| - 1;
      SwapKeeps(items, 0, n);
      items := Swap(items, 0, n);
      Down(0, n);
      x := items[n..][0];
      assert items == items[..n] + [x];
      items := items[..n];
    }

    method Contains(item: K) returns (found: bool)
      ensures found <==> exists x :: x in items && x.item == item
    {
      for k := 0 to |items|
        invariant forall i :: 0 <= i < k ==> items[i].item != item
      {
        if items[k].item == item {
          assert items[k] in items;
          return true;
        }
      }
      return false;
    }

    /** Removes exactly the items that expire before `now`, the earliest first. */
    method Expire(now: Time) returns (expired: seq<ExpItem<K>>)
      requires Valid()
      modifies this
      ensures Valid() && multiset(items) + multiset(expired) == old(multiset(items))
      ensures forall x :: x in items ==> x.exp >= now
      ensures forall x :: x in expired ==> x.exp < now
      ensures Ascending(expired)
    {
      hide HeapOrdered, Ascending;
      expired := [];
      NoneAscends<K>();
      while |items| > 0 && items[0].exp < now
        invariant Valid() && multiset(items) + multiset(expired) == old(multiset(items))
        invariant forall x :: x in expired ==> x.exp < now
        invariant Ascending(expired) && (expired != [] ==> AllFrom(expired[|expired|-1].exp, items))
        decreases |items|
      {
        ghost var before := items;
        var x := Pop();
        Remaining(items, before, x);
        OneMore(expired, before, x);
        expired := expired + [x];
      }
      if items != [] {
        RootIsLeastItem(items);
      }
    }
  }

  lemma Remaining<K>(after: seq<ExpItem<K>>, before: seq<ExpItem<K>>, x: ExpItem<K>)
    requires multiset(after) + multiset{x} == multiset(before)
    ensures x in before && forall y :: y in after ==> y in before
  {
    assert x in multiset(before);
    forall y | y in after
      ensures y in before
    {
      assert y in multiset(before);
    }
  }

  lemma ExpiredAreOld<K>(before: seq<ExpItem<K>>, after: seq<ExpItem<K>>, expired: seq<ExpItem<K>>)
    requires multiset(after) + multiset(expired) == multiset(before)
    ensures forall x :: x in before <==> x in after || x in expired
  {
    forall x
      ensures x in before <==> x in after || x in expired
    {
      assert x in multiset(before) <==> x in multiset(after) || x in multiset(expired);
    }
  }

  lemma Added<K>(before: seq<ExpItem<K>>, after: seq<ExpItem<K>>, item: ExpItem<K>)
    requires multiset(after) == multiset(before) + multiset{item}
    ensures forall x :: x in after <==> x in before || x == item
  {
    forall x
      ensures x in after <==> x in before || x == item
    {
      assert x in multiset(after) <==> x in multiset(before) || x == item;
    }
  }
}
