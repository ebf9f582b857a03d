/**
  The block-hash look-up handed to the EVM (`GetHashFn` in `core/evm.go`): a cache of
  ancestor hashes that grows as older blocks are asked for. Block numbers are unsigned 64-bit
  and wrap around, as they do in the source.
 */
module BlockHashes {
  import opened Common

  const MAX: uint64 := TWO_TO_THE_64 - 1

  type Hash = nat

  const ZERO_HASH: Hash := 0

  datatype Header = Header(parentHash: Hash, number: uint64)

  type Store = (Hash, uint64) -> Option<Header>

  /** A header is found under its own number, and no chain reaches the last number. */
  ghost predicate WellFormed(getHeader: Store) {
    forall h, n :: getHeader(h, n).Some? ==> getHeader(h, n).value.number == n && n != MAX
  }

  function Minus(a: uint64, b: uint64): uint64 {
    if b <= a then a - b else a - b + TWO_TO_THE_64
  }

  /** How many headers a walk can still see from block `num` down. */
  function Height(num: uint64): nat {
    if num == MAX then 0 else num + 1
  }

  lemma HeightDrops(num: uint64)
    ensures num != MAX ==> Height(Minus(num, 1)) < Height(num)
  {
  }

  /**
    The plain walk along parent hashes: the hash of block `n`, starting from `hash` as the
    hash of block `num`; the zero hash where the chain breaks off.
   */
  function Walk(getHeader: Store, hash: Hash, num: uint64, n: uint64): Hash
    requires WellFormed(getHeader)
    decreases Height(num)
  {
    if num == n then hash
    else
      match getHeader(hash, num)
      case None => ZERO_HASH
      case Some(header) => Walk(getHeader, header.parentHash, Minus(header.number, 1), n)
  }

  /** What an uncached look-up below `ref` answers. */
  function Lookup(getHeader: Store, ref: Header, n: uint64): Hash
    requires WellFormed(getHeader)
  {
    Walk(getHeader, ref.parentHash, Minus(ref.number, 1), n)
  }

  /** The number of the block whose hash sits at index `i` of the cache. */
  function NumberAt(ref: Header, i: uint64): uint64 {
    Minus(Minus(ref.number, 1), i)
  }

  lemma IndexOf(ref: Header, n: uint64, i: uint64)
    ensures Minus(Minus(ref.number, n), 1) == i <==> NumberAt(ref, i) == n
    ensures i > 0 ==> Minus(ref.number, i) == NumberAt(ref, i - 1)
  {
  }

  /** `parent` is the parent hash of the stored block `num` with hash `child`. */
  ghost predicate IsParent(getHeader: Store, child: Hash, num: uint64, parent: Hash) {
    getHeader(child, num).Some? && parent == getHeader(child, num).value.parentHash
  }

  /** The cache holds consecutive ancestors, newest first. */
  ghost predicate IsAncestry(getHeader: Store, ref: Header, cache: seq<Hash>) {
    && |cache| <= ref.number + 1
    && (cache != [] ==> cache[0] == ref.parentHash)
    && forall i {:trigger NumberAt(ref, i)} ::
         0 <= i < |cache| - 1 ==> IsParent(getHeader, cache[i], NumberAt(ref, i), cache[i+1])
  }

  lemma AncestryStarts(getHeader: Store, ref: Header)
    ensures IsAncestry(getHeader, ref, [ref.parentHash])
  {
  }

  lemma AncestryGrows(getHeader: Store, ref: Header, cache: seq<Hash>, parent: Hash)
    requires WellFormed(getHeader) && IsAncestry(getHeader, ref, cache) && cache != []
    requires IsParent(getHeader, cache[|cache|-1], NumberAt(ref, |cache| - 1), parent)
    ensures IsAncestry(getHeader, ref, cache + [parent]) && |cache| <= ref.number
    ensures Minus(NumberAt(ref, |cache| - 1), 1) == NumberAt(ref, |cache|)
  {
    assert NumberAt(ref, |cache| - 1) != MAX;
  }

  /** A walk to a block outside the first `i` cache entries may start at entry `i`. */
  lemma {:induction false} WalkSkips(getHeader: Store, ref: Header, cache: seq<Hash>, i: nat, n: uint64)
    requires WellFormed(getHeader) && IsAncestry(getHeader, ref, cache) && i < |cache|
    requires Minus(Minus(ref.number, n), 1) >= i
    ensures Lookup(getHeader, ref, n) == Walk(getHeader, cache[i], NumberAt(ref, i), n)
  {
    if i > 0 {
      WalkSkips(getHeader, ref, cache, i - 1, n);
      assert IsParent(getHeader, cache[i-1], NumberAt(ref, i - 1), cache[i]);
      assert NumberAt(ref, i - 1) != n;
      assert Minus(NumberAt(ref, i - 1), 1) == NumberAt(ref, i);
    }
  }

  class HashFn {
    const getHeader: Store
    const ref: Header
    var cache: seq<Hash>

    ghost predicate Valid()
      reads this
    {
      WellFormed(getHeader) && IsAncestry(getHeader, ref, cache)
    }

    constructor (ref: Header, getHeader: Store)
      requires WellFormed(getHeader)
      ensures Valid() && this.ref == ref && this.getHeader == getHeader && cache == []
    {
      this.ref, this.getHeader, cache := ref, getHeader, [];
    }

    /** The last hash known is that of no stored block. */
    ghost predicate Broken()
      requires |cache| <= TWO_TO_THE_64
      reads this
    {
      cache != [] && getHeader(cache[|cache|-1], NumberAt(ref, |cache| - 1)).None?
    }

    /** Whatever has been asked before, the answer is that of the plain walk. */
    method Query(n: uint64) returns (hash: Hash)
      requires Valid()
      modifies this
      ensures Valid() && old(cache) <= cache
      ensures hash == Lookup(getHeader, ref, n)
      ensures Minus(Minus(ref.number, n), 1) < |cache| || Broken()
    {
      hide IsAncestry, Minus, NumberAt, Height;
      if |cache| == 0 {
        AncestryStarts(getHeader, ref);
        cache := [ref.parentHash];
      }
      var idx := Minus(Minus(ref.number, n), 1);
      IndexOf(ref, n, idx);
      if idx < |cache| {
        WalkSkips(getHeader, ref, cache, idx, n);
        return cache[idx];
      }
      IndexOf(ref, n, |cache|);
      IndexOf(ref, n, |cache| - 1);
      var lastKnownHash := cache[|cache|-1];
      var lastKnownNumber := Minus(ref.number, |cache|);
      WalkSkips(getHeader, ref, cache, |cache| - 1, n);
      while true
        invariant Valid() && 1 <= |cache| <= TWO_TO_THE_64 && old(cache) <= cache
        invariant lastKnownHash == cache[|cache|-1] && lastKnownNumber == NumberAt(ref, |cache| - 1)
        invariant lastKnownNumber != n
        invariant Lookup(getHeader, ref, n) == Walk(getHeader, lastKnownHash, lastKnownNumber, n)
        decreases Height(lastKnownNumber)
      {
        var header := getHeader(lastKnownHash, lastKnownNumber);
        if header.None? {
          break;
        }
        HeightDrops(lastKnownNumber);
        AncestryGrows(getHeader, ref, cache, header.value.parentHash);
        cache := cache + [header.value.parentHash];
        lastKnownHash := header.value.parentHash;
        lastKnownNumber := Minus(header.value.number, 1);
        if n == lastKnownNumber {
          IndexOf(ref, n, |cache| - 1);
          return lastKnownHash;
        }
      }
      return ZERO_HASH;
    }
  }

  /** A whole sequence of queries against one fixed store. */
  method QueryAll(ref: Header, getHeader: Store, ns: seq<uint64>) returns (hashes: seq<Hash>)
    requires WellFormed(getHeader)
    ensures |hashes| == |ns|
    ensures forall i :: 0 <= i < |ns| ==> hashes[i] == Lookup(getHeader, ref, ns[i])
  {
    var f := new HashFn(ref, getHeader);
    hashes := [];
    for k := 0 to |ns|
      invariant f.Valid() && f.ref == ref && f.getHeader == getHeader
      invariant |hashes| == k
      invariant forall i :: 0 <= i < k ==> hashes[i] == Lookup(getHeader, ref, ns[i])
    {
      var hash := f.Query(ns[k]);
      hashes := hashes + [hash];
    }
  }

  /** The genesis block has no parent: its parent hash, wherever it shows up, is zero. */
  ghost predicate GenesisIsRoot(getHeader: Store, ref: Header) {
    && (ref.number == 0 ==> ref.parentHash == ZERO_HASH)
    && forall h :: getHeader(h, 0).Some? ==> getHeader(h, 0).value.parentHash == ZERO_HASH
  }

  /** Blocks at or above the reference block have the zero hash, in spite of the wrap-around. */
  lemma FutureIsZero(getHeader: Store, ref: Header, n: uint64)
    requires WellFormed(getHeader) && GenesisIsRoot(getHeader, ref) && n >= ref.number
    ensures Lookup(getHeader, ref, n) == ZERO_HASH
  {
    if ref.number > 0 {
      WalkAbove(getHeader, ref, ref.parentHash, ref.number - 1, n);
    }
  }

  lemma {:induction false} WalkAbove(getHeader: Store, ref: Header, hash: Hash, num: uint64, n: uint64)
    requires WellFormed(getHeader) && GenesisIsRoot(getHeader, ref) && num < n
    ensures Walk(getHeader, hash, num, n) == ZERO_HASH
    decreases num
  {
    if num > 0 && getHeader(hash, num).Some? {
      WalkAbove(getHeader, ref, getHeader(hash, num).value.parentHash, num - 1, n);
    }
  }
}
