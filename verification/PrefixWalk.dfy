/**
  Scanning a sorted table for the keys that share their first bits with a start key
  (`ethdb/kv_util.go`, `ethdb/walk.go`).
 */
module PrefixWalk {
  import opened Common

  type Key = seq<byte>
  type Value = seq<byte>

  datatype Entry = Entry(key: Key, value: Value)

  // ---------------------------------------------------------------- keys and their bits

  /** Lexicographic order of byte strings. */
  predicate AtMost(a: Key, b: Key) {
    a == [] || (b != [] && (a[0] < b[0] || (a[0] == b[0] && AtMost(a[1..], b[1..]))))
  }

  ghost predicate DifferAt(a: Key, b: Key, i: int) {
    0 <= i < |a| && i < |b| && a[..i] == b[..i] && a[i] != b[i]
  }

  /** A prefix comes first, and otherwise the first difference decides. */
  lemma {:induction false} AtMostIsLexicographic(a: Key, b: Key)
    ensures AtMost(a, b) <==> a <= b || exists i :: DifferAt(a, b, i) && a[i] < b[i]
  {
    if a != [] && b != [] && a[0] == b[0] {
      AtMostIsLexicographic(a[1..], b[1..]);
      assert a == [a[0]] + a[1..] && b == [b[0]] + b[1..];
      if i :| DifferAt(a, b, i) && a[i] < b[i] {
        DifferLater(a, b, i - 1);
      }
      if i :| DifferAt(a[1..], b[1..], i) && a[1..][i] < b[1..][i] {
        DifferLater(a, b, i);
      }
    } else if a != [] && b != [] {
      assert a[..0] == b[..0];
      assert DifferAt(a, b, 0);
      if i :| DifferAt(a, b, i) && a[i] < b[i] {
        SameBefore(a, b, i);
      }
    }
  }

  lemma SameBefore(a: Key, b: Key, i: nat)
    requires DifferAt(a, b, i)
    ensures i > 0 ==> a[0] == b[0]
  {
    if i > 0 {
      assert a[0] == a[..i][0] && b[0] == b[..i][0];
    }
  }

  lemma DifferLater(a: Key, b: Key, i: nat)
    requires a != [] && b != [] && a[0] == b[0]
    ensures DifferAt(a, b, i + 1) <==> DifferAt(a[1..], b[1..], i)
  {
    if i + 1 < |a| && i + 1 < |b| {
      assert a[..i+1] == [a[0]] + a[1..][..i] && b[..i+1] == [b[0]] + b[1..][..i];
    }
  }

  ghost predicate Sorted(table: seq<Entry>) {
    forall i, j :: 0 <= i < j < |table| ==> AtMost(table[i].key, table[j].key) && table[i].key != table[j].key
  }

  function Shr(x: nat, n: nat): nat {
    if n == 0 then x else Shr(x / 2, n - 1)
  }

  /** Bit `j` of a byte, the most significant one first. */
  predicate BitOf(x: byte, j: nat)
    requires j < 8
  {
    Shr(x, 7 - j) % 2 == 1
  }

  predicate Bit(k: Key, i: nat)
    requires i < 8 * |k|
  {
    BitOf(k[i / 8], i % 8)
  }

  /** `k` has at least `bits` bits, and the first `bits` of them are those of `start`. */
  ghost predicate SharesBits(k: Key, start: Key, bits: nat)
    requires bits <= 8 * |start|
  {
    bits <= 8 * |k| && forall i :: 0 <= i < bits ==> Bit(k, i) == Bit(start, i)
  }

  // ---------------------------------------------------------------- the test in the code

  /** `x << n` on bytes. */
  function Shl(x: byte, n: nat): byte {
    if n == 0 then x else 2 * Shl(x, n - 1) % 256
  }

  /** Bitwise `&` of the low `n` bits. */
  function And(x: nat, y: nat, n: nat): nat {
    if n == 0 then 0 else 2 * And(x / 2, y / 2, n - 1) + (if x % 2 == 1 && y % 2 == 1 then 1 else 0)
  }

  function Bytesmask(fixedbits: nat): (nat, byte) {
    var fixedbytes := (fixedbits + 7) / 8;
    var shiftbits := fixedbits % 8;
    (fixedbytes, if shiftbits != 0 then Shl(0xff, 8 - shiftbits) else 0xff)
  }

  predicate MatchKey(k: Key, start: Key, matchBytes: nat, mask: byte)
    requires matchBytes <= |start|
  {
    if matchBytes == 0 then true
    else if |k| < matchBytes then false
    else if k[..matchBytes-1] != start[..matchBytes-1] then false
    else And(k[matchBytes-1], mask, 8) == And(start[matchBytes-1], mask, 8)
  }

  // ---------------------------------------------------------------- masks

  /** The number of `n` bits of which the lowest `low` are clear. */
  function Ones(n: nat, low: nat): nat {
    if n == 0 then 0 else if low == 0 then 2 * Ones(n - 1, 0) + 1 else 2 * Ones(n - 1, low - 1)
  }

  function Up(x: nat, n: nat): nat {
    if n == 0 then x else 2 * Up(x, n - 1)
  }

  function Pow2(n: nat): (p: nat)
    ensures p >= 1
  {
    if n == 0 then 1 else 2 * Pow2(n - 1)
  }

  lemma {:induction false} OnesClosed(n: nat, low: nat)
    requires low <= n
    ensures Ones(n, low) == Pow2(n) - Pow2(low)
  {
    if n > 0 {
      OnesClosed(n - 1, if low == 0 then 0 else low - 1);
    }
  }

  lemma {:induction false} ShlClosed(n: nat)
    requires n <= 8
    ensures Shl(0xff, n) == 256 - Pow2(n)
  {
    hide Ones;
    if n > 0 {
      ShlClosed(n - 1);
      Pow2Of8();
      OnesClosed(8, n);
      assert Pow2(n) == 2 * Pow2(n - 1) <= 256;
      Complement(Pow2(n));
    }
  }

  lemma Complement(p: nat)
    requires 1 <= p <= 256
    ensures (512 - p) % 256 == 256 - p
  {
  }

  lemma MaskIsOnes(s: nat)
    requires 1 <= s <= 8
    ensures Bytesmask(s).1 == Ones(8, 8 - s)
  {
    hide Ones, Shl, Pow2;
    Pow2Of8();
    OnesClosed(8, 8 - s);
    ShlClosed(8 - s);
  }

  lemma Pow2Of8()
    ensures Pow2(8) == 256 && Pow2(0) == 1
  {
    assert Pow2(4) == 16;
  }

  /** Masking clears the low bits: it keeps exactly what a shift by their number keeps. */
  lemma {:induction false} AndOnes(x: nat, n: nat, low: nat)
    requires x <= Ones(n, 0) && low <= n
    ensures And(x, Ones(n, low), n) == Up(Shr(x, low), low)
  {
    if n > 0 {
      AndOnes(x / 2, n - 1, if low == 0 then 0 else low - 1);
    }
  }

  lemma {:induction false} UpInjective(x: nat, y: nat, n: nat)
    ensures Up(x, n) == Up(y, n) <==> x == y
  {
    if n > 0 {
      UpInjective(x, y, n - 1);
    }
  }

  lemma {:induction false} ShrStep(x: nat, n: nat)
    ensures Shr(x, n + 1) == Shr(x, n) / 2
  {
    if n > 0 {
      ShrStep(x / 2, n - 1);
    }
  }

  lemma {:induction false} ShrMonotone(x: nat, y: nat, n: nat)
    requires x <= y
    ensures Shr(x, n) <= Shr(y, n)
  {
    if n > 0 {
      ShrMonotone(x / 2, y / 2, n - 1);
    }
  }

  lemma {:induction false} ShrAway(x: nat, n: nat)
    requires x <= Ones(n, 0)
    ensures Shr(x, n) == 0
  {
    if n > 0 {
      ShrAway(x / 2, n - 1);
    }
  }

  /** The first `s` bits of two bytes agree exactly if shifting out the others makes them equal. */
  lemma {:induction false} HighBits(x: byte, y: byte, s: nat)
    requires s <= 8
    ensures Shr(x, 8 - s) == Shr(y, 8 - s) <==> forall j :: 0 <= j < s ==> BitOf(x, j) == BitOf(y, j)
  {
    if s == 0 {
      assert Ones(4, 0) == 15 && Ones(8, 0) == 255;
      ShrAway(x, 8);
      ShrAway(y, 8);
    } else {
      HighBits(x, y, s - 1);
      ShrStep(x, 8 - s);
      ShrStep(y, 8 - s);
      assert BitOf(x, s - 1) == (Shr(x, 8 - s) % 2 == 1) && BitOf(y, s - 1) == (Shr(y, 8 - s) % 2 == 1);
    }
  }

  // ---------------------------------------------------------------- what the test means

  /** The test, byte by byte. */
  predicate Matches(k: Key, start: Key, bits: nat)
    requires bits <= 8 * |start|
  {
    if bits == 0 then true
    else if k == [] then false
    else if bits < 8 then Shr(k[0], 8 - bits) == Shr(start[0], 8 - bits)
    else k[0] == start[0] && Matches(k[1..], start[1..], bits - 8)
  }

  lemma LastByte(x: byte, y: byte, s: nat)
    requires 1 <= s <= 8
    ensures And(x, Ones(8, 8 - s), 8) == And(y, Ones(8, 8 - s), 8) <==> Shr(x, 8 - s) == Shr(y, 8 - s)
  {
    assert Ones(4, 0) == 15 && Ones(8, 0) == 255;
    AndOnes(x, 8, 8 - s);
    AndOnes(y, 8, 8 - s);
    UpInjective(Shr(x, 8 - s), Shr(y, 8 - s), 8 - s);
  }

  lemma {:induction false} MatchKeyIsMatches(k: Key, start: Key, bits: nat)
    requires bits <= 8 * |start|
    ensures MatchKey(k, start, Bytesmask(bits).0, Bytesmask(bits).1) == Matches(k, start, bits)
  {
    hide And, Shr, Shl, Ones;
    var (n, mask) := Bytesmask(bits);
    if bits == 0 || k == [] {
    } else if bits < 8 {
      MaskIsOnes(bits);
      LastByte(k[0], start[0], bits);
      assert k[..0] == start[..0];
    } else {
      MatchKeyIsMatches(k[1..], start[1..], bits - 8);
      if bits > 8 {
        assert Bytesmask(bits - 8) == (n - 1, mask);
        MatchKeyStep(k, start, n, mask);
      } else {
        MaskIsOnes(8);
        LastByte(k[0], start[0], 8);
        WholeByte(k[0], start[0]);
        assert k[..0] == start[..0];
      }
    }
  }

  lemma MatchKeyStep(k: Key, start: Key, n: nat, mask: byte)
    requires 2 <= n <= |start| && k != []
    ensures MatchKey(k, start, n, mask) <==> k[0] == start[0] && MatchKey(k[1..], start[1..], n - 1, mask)
  {
    hide And;
    if |k| >= n {
      assert k[..n-1] == [k[0]] + k[1..][..n-2];
      assert start[..n-1] == [start[0]] + start[1..][..n-2];
      if k[..n-1] == start[..n-1] {
        assert k[0] == k[..n-1][0] == start[0];
        assert k[1..][..n-2] == k[..n-1][1..] == start[..n-1][1..] == start[1..][..n-2];
      }
    }
  }

  lemma WholeByte(x: byte, y: byte)
    ensures Shr(x, 0) == Shr(y, 0) <==> x == y
  {
  }

  /** The test in the code says that the first `bits` bits are shared. */
  lemma {:induction false} MatchesIsSharesBits(k: Key, start: Key, bits: nat)
    requires bits <= 8 * |start|
    ensures Matches(k, start, bits) <==> SharesBits(k, start, bits)
  {
    hide Shr, BitOf;
    if bits == 0 || k == [] {
    } else if bits < 8 {
      HighBits(k[0], start[0], bits);
      FirstBits(k, start, bits);
    } else {
      HighBits(k[0], start[0], 8);
      WholeByte(k[0], start[0]);
      FirstBits(k, start, 8);
      MatchesIsSharesBits(k[1..], start[1..], bits - 8);
      LaterBits(k, start, bits);
    }
  }

  lemma FirstBits(k: Key, start: Key, s: nat)
    requires k != [] && start != [] && s <= 8
    ensures (forall j :: 0 <= j < s ==> BitOf(k[0], j) == BitOf(start[0], j)) <==>
            (forall i :: 0 <= i < s ==> Bit(k, i) == Bit(start, i))
  {
    hide BitOf;
    forall i | 0 <= i < s
      ensures Bit(k, i) == BitOf(k[0], i) && Bit(start, i) == BitOf(start[0], i)
    {
      assert i / 8 == 0 && i % 8 == i;
    }
  }

  lemma LaterBits(k: Key, start: Key, bits: nat)
    requires k != [] && start != [] && 8 <= bits <= 8 * |start|
    ensures SharesBits(k, start, bits) <==> SharesBits(k, start, 8) && SharesBits(k[1..], start[1..], bits - 8)
  {
    hide BitOf;
    if bits <= 8 * |k| {
      forall i | 0 <= i < bits - 8
        ensures Bit(k[1..], i) == Bit(k, i + 8) && Bit(start[1..], i) == Bit(start, i + 8)
      {
        BitShift(k, i);
        BitShift(start, i);
      }
      assert forall i {:trigger Bit(k, i)} :: 8 <= i < bits ==> Bit(k, i) == Bit(k[1..], i - 8);
    }
  }

  lemma BitShift(k: Key, i: nat)
    requires i + 8 < 8 * |k|
    ensures Bit(k[1..], i) == Bit(k, i + 8)
  {
    assert (i + 8) / 8 == i / 8 + 1 && (i + 8) % 8 == i % 8;
  }

  /** Keys that match lie together: whatever lies between the start key and a match is a match. */
  lemma {:induction false} MatchesConvex(start: Key, a: Key, b: Key, bits: nat)
    requires bits <= 8 * |start|
    requires AtMost(start, a) && AtMost(a, b) && Matches(b, start, bits)
    ensures Matches(a, start, bits)
  {
    hide Shr;
    if bits == 0 {
    } else if bits < 8 {
      ShrMonotone(start[0], a[0], 8 - bits);
      ShrMonotone(a[0], b[0], 8 - bits);
    } else {
      MatchesConvex(start[1..], a[1..], b[1..], bits - 8);
    }
  }

  // ---------------------------------------------------------------- scanning a table

  /** The entry a scan from `start` is meant to deliver. */
  ghost predicate Wanted(e: Entry, start: Key, bits: nat)
    requires bits <= 8 * |start|
  {
    AtMost(start, e.key) && SharesBits(e.key, start, bits)
  }

  ghost function Selection(table: seq<Entry>, start: Key, bits: nat): seq<Entry>
    requires bits <= 8 * |start|
  {
    if table == [] then []
    else (if Wanted(table[0], start, bits) then [table[0]] else []) + Selection(table[1..], start, bits)
  }

  /** A stretch of the table that holds exactly the wanted entries is the selection. */
  lemma {:induction false} SelectionIsStretch(table: seq<Entry>, start: Key, bits: nat, lo: nat, hi: nat)
    requires bits <= 8 * |start| && lo <= hi <= |table|
    requires forall i :: 0 <= i < |table| ==> (Wanted(table[i], start, bits) <==> lo <= i < hi)
    ensures Selection(table, start, bits) == table[lo..hi]
  {
    hide Wanted, Selection;
    if table == [] {
      SelectionStep(table, start, bits);
    } else {
      var rest := table[1..];
      SelectionStep(table, start, bits);
      if lo > 0 {
        SelectionIsStretch(rest, start, bits, lo - 1, hi - 1);
        TailSlice(table, lo - 1, hi - 1);
      } else if hi > 0 {
        SelectionIsStretch(rest, start, bits, 0, hi - 1);
        TailSlice(table, 0, hi - 1);
      } else {
        SelectionIsStretch(rest, start, bits, 0, 0);
      }
    }
  }

  lemma SelectionStep(table: seq<Entry>, start: Key, bits: nat)
    requires bits <= 8 * |start|
    ensures table == [] ==> Selection(table, start, bits) == []
    ensures table != [] && Wanted(table[0], start, bits) ==>
              Selection(table, start, bits) == [table[0]] + Selection(table[1..], start, bits)
    ensures table != [] && !Wanted(table[0], start, bits) ==>
              Selection(table, start, bits) == Selection(table[1..], start, bits)
  {
  }

  lemma TailSlice(table: seq<Entry>, lo: nat, hi: nat)
    requires lo <= hi < |table|
    ensures table[1..][lo..hi] == table[lo+1..hi+1]
    ensures lo == 0 ==> [table[0]] + table[1..][lo..hi] == table[0..hi+1]
  {
  }

  /** A cursor over the table. */
  class Cursor {
    const table: seq<Entry>
    var pos: nat

    constructor (table: seq<Entry>)
      ensures this.table == table && pos == 0
    {
      this.table := table;
      pos := 0;
    }

    /** Moves to the first entry whose key is not below `key`. */
    method Seek(key: Key) returns (e: Option<Entry>)
      modifies this
      ensures pos <= |table| && (e == if pos < |table| then Some(table[pos]) else None)
      ensures forall i :: 0 <= i < pos ==> !AtMost(key, table[i].key)
      ensures e.Some? ==> AtMost(key, e.value.key)
    {
      pos := 0;
      while pos < |table| && !AtMost(key, table[pos].key)
        invariant pos <= |table|
        invariant forall i :: 0 <= i < pos ==> !AtMost(key, table[i].key)
      {
        pos := pos + 1;
      }
      return if pos < |table| then Some(table[pos]) else None;
    }

    method Next() returns (e: Option<Entry>)
      modifies this
      ensures pos == if old(pos) < |table| then old(pos) + 1 else old(pos)
      ensures e == if pos < |table| then Some(table[pos]) else None
    {
      if pos < |table| {
        pos := pos + 1;
      }
      return if pos < |table| then Some(table[pos]) else None;
    }
  }

  lemma {:induction false} AtMostTransitive(a: Key, b: Key, c: Key)
    requires AtMost(a, b) && AtMost(b, c)
    ensures AtMost(a, c)
  {
    if a != [] && a[0] == b[0] == c[0] {
      AtMostTransitive(a[1..], b[1..], c[1..]);
    }
  }

  /**
    From the sought position on, the wanted entries come first: if entry `hi` does not pass
    the test, no later one is wanted.
   */
  lemma ScanIsComplete(table: seq<Entry>, start: Key, bits: nat, lo: nat, hi: nat)
    requires Sorted(table) && bits <= 8 * |start| && lo <= hi <= |table|
    requires forall i :: 0 <= i < lo ==> !AtMost(start, table[i].key)
    requires lo < |table| ==> AtMost(start, table[lo].key)
    requires forall i :: lo <= i < hi ==> Matches(table[i].key, start, bits)
    requires hi < |table| ==> !Matches(table[hi].key, start, bits)
    ensures Selection(table, start, bits) == table[lo..hi]
  {
    hide AtMost, Matches, SharesBits;
    forall i | 0 <= i < |table|
      ensures Wanted(table[i], start, bits) <==> lo <= i < hi
    {
      if i >= lo {
        if i > lo { AtMostTransitive(start, table[lo].key, table[i].key); }
        MatchesIsSharesBits(table[i].key, start, bits);
        if i > hi {
          AtMostTransitive(start, table[lo].key, table[hi].key) by { AtMostReflexive(table[lo].key); }
          if Matches(table[i].key, start, bits) {
            MatchesConvex(start, table[hi].key, table[i].key, bits);
          }
        }
      }
    }
    SelectionIsStretch(table, start, bits, lo, hi);
  }

  lemma {:induction false} AtMostReflexive(a: Key)
    ensures AtMost(a, a)
  {
    if a != [] {
      AtMostReflexive(a[1..]);
    }
  }

  // ---------------------------------------------------------------- the two scans

  datatype Verdict = GoOn | Stop | Fail

  /** The entries a walker sees of those offered: it may stop, or fail, at any of them. */
  function Seen(offered: seq<Entry>, walker: Entry -> Verdict): (s: seq<Entry>)
    ensures s <= offered
    ensures offered == [] ==> s == []
  {
    if offered == [] then []
    else if walker(offered[0]) == GoOn then [offered[0]] + Seen(offered[1..], walker)
    else [offered[0]]
  }

  lemma {:induction false} SeenAll(offered: seq<Entry>, walker: Entry -> Verdict)
    requires forall e :: walker(e) == GoOn
    ensures Seen(offered, walker) == offered
  {
    if offered != [] {
      SeenAll(offered[1..], walker);
    }
  }

  lemma SeenStep(offered: seq<Entry>, walker: Entry -> Verdict)
    requires offered != [] && walker(offered[0]) == GoOn
    ensures Seen(offered, walker) == [offered[0]] + Seen(offered[1..], walker)
  {
  }

  lemma Regroup(first: seq<Entry>, second: seq<Entry>)
    requires first != []
    ensures (first + second)[0] == first[0] && (first + second)[1..] == first[1..] + second
    ensures [first[0]] + (first[1..] + second) == first + second
  {
  }

  lemma {:induction false} SeenConcat(first: seq<Entry>, second: seq<Entry>, walker: Entry -> Verdict)
    requires forall i :: 0 <= i < |first| ==> walker(first[i]) == GoOn
    ensures Seen(first + second, walker) == first + Seen(second, walker)
  {
    hide Seen;
    if first == [] {
      assert first + second == second && first + Seen(second, walker) == Seen(second, walker);
    } else {
      Regroup(first, second);
      Regroup(first, Seen(second, walker));
      SeenConcat(first[1..], second, walker);
      SeenStep(first + second, walker);
    }
  }

  lemma FindEnd(table: seq<Entry>, start: Key, bits: nat, from: nat) returns (hi: nat)
    requires bits <= 8 * |start| && from <= |table|
    ensures from <= hi <= |table|
    ensures forall i :: from <= i < hi ==> Matches(table[i].key, start, bits)
    ensures hi < |table| ==> !Matches(table[hi].key, start, bits)
  {
    hi := from;
    while hi < |table| && Matches(table[hi].key, start, bits)
      invariant from <= hi <= |table|
      invariant forall i :: from <= i < hi ==> Matches(table[i].key, start, bits)
    {
      hi := hi + 1;
    }
  }

  /** A walker that stops at entry `p` has seen the selection up to there. */
  lemma StopsAt(table: seq<Entry>, start: Key, bits: nat, walker: Entry -> Verdict, lo: nat, p: nat)
    requires Sorted(table) && bits <= 8 * |start| && lo <= p < |table|
    requires forall i :: 0 <= i < lo ==> !AtMost(start, table[i].key)
    requires AtMost(start, table[lo].key)
    requires forall i :: lo <= i <= p ==> Matches(table[i].key, start, bits)
    requires forall i :: lo <= i < p ==> walker(table[i]) == GoOn
    requires walker(table[p]) != GoOn
    ensures Seen(Selection(table, start, bits), walker) == table[lo..p+1]
  {
    hide Matches, AtMost, Sorted, Selection;
    var hi := FindEnd(table, start, bits, p + 1);
    ScanIsComplete(table, start, bits, lo, hi);
    var before, after := table[lo..p], table[p..hi];
    assert table[lo..hi] == before + after;
    SeenConcat(before, after, walker);
    assert Seen(after, walker) == [table[p]];
  }

  /**
    Offers the walker the wanted entries of the table, all of them and in order, until it
    does not want to go on. Stopping at the first mismatch or short key loses nothing.
   */
  method Walk(c: Cursor, startkey: Key, fixedbits: nat, walker: Entry -> Verdict)
    returns (visited: seq<Entry>, failed: bool)
    requires Sorted(c.table) && fixedbits <= 8 * |startkey|
    modifies c
    ensures visited == Seen(Selection(c.table, startkey, fixedbits), walker)
    ensures failed <==> visited != [] && walker(visited[|visited|-1]) == Fail
    ensures (forall e :: walker(e) == GoOn) ==> visited == Selection(c.table, startkey, fixedbits) && !failed
  {
    hide Matches, MatchKey, AtMost, Sorted, Seen, Selection, Shl;
    if forall e :: walker(e) == GoOn {
      SeenAll(Selection(c.table, startkey, fixedbits), walker);
    }
    visited, failed := [], false;
    var (fixedbytes, mask) := Bytesmask(fixedbits);
    var cur := c.Seek(startkey);
    ghost var lo := c.pos;
    while cur.Some? && MatchKey(cur.value.key, startkey, fixedbytes, mask)
      invariant lo <= c.pos <= |c.table|
      invariant cur == if c.pos < |c.table| then Some(c.table[c.pos]) else None
      invariant visited == c.table[lo..c.pos]
      invariant forall i :: lo <= i < c.pos ==>
                  Matches(c.table[i].key, startkey, fixedbits) && walker(c.table[i]) == GoOn
      decreases |c.table| - c.pos
    {
      MatchKeyIsMatches(cur.value.key, startkey, fixedbits);
      visited := visited + [cur.value];
      var goOn := walker(cur.value);
      if goOn != GoOn {
        StopsAt(c.table, startkey, fixedbits, walker, lo, c.pos);
        return visited, goOn == Fail;
      }
      cur := c.Next();
    }
    if cur.Some? { MatchKeyIsMatches(cur.value.key, startkey, fixedbits); }
    ScanIsComplete(c.table, startkey, fixedbits, lo, c.pos);
    SeenConcat(visited, [], walker);
    assert visited + [] == visited && Seen([], walker) == [];
  }

  /** A cursor that delivers the matching entries with their keys in three parts. */
  class SplitCursor {
    const c: Cursor
    const startkey: Key
    const matchBytes: nat
    const mask: byte
    const part1end: nat
    const part2start: nat
    const part3start: nat

    ghost predicate Valid()
      reads this
    {
      matchBytes <= |startkey| && part1end <= part3start && part2start <= part3start
    }

    constructor (c: Cursor, startkey: Key, matchBits: nat, part1end: nat, part2start: nat, part3start: nat)
      requires matchBits <= 8 * |startkey| && part1end <= part3start && part2start <= part3start
      ensures Valid() && this.c == c && this.startkey == startkey
      ensures (matchBytes, mask) == Bytesmask(matchBits)
      ensures this.part1end == part1end && this.part2start == part2start && this.part3start == part3start
    {
      this.c, this.startkey := c, startkey;
      this.part1end, this.part2start, this.part3start := part1end, part2start, part3start;
      var (n, m) := Bytesmask(matchBits);
      this.matchBytes, this.mask := n, m;
    }

    /** The parts of an entry the caller gets, or nothing at the end of the scan. */
    function Deliver(e: Option<Entry>): Option<Parts>
      requires Valid()
      requires e.Some? && MatchKey(e.value.key, startkey, matchBytes, mask) ==> part3start <= |e.value.key|
      reads this
    {
      if e.None? || !MatchKey(e.value.key, startkey, matchBytes, mask) then None
      else Some(PartsOf(e.value, part1end, part2start, part3start))
    }

    /** Matching keys are long enough to be split. */
    ghost predicate Splittable()
      requires Valid()
      reads this
    {
      forall e :: e in c.table && MatchKey(e.key, startkey, matchBytes, mask) ==> part3start <= |e.key|
    }

    method Seek() returns (p: Option<Parts>)
      requires Valid() && Splittable()
      modifies c
      ensures c.pos <= |c.table| && forall i :: 0 <= i < c.pos ==> !AtMost(startkey, c.table[i].key)
      ensures c.pos < |c.table| ==> AtMost(startkey, c.table[c.pos].key)
      ensures p == Deliver(if c.pos < |c.table| then Some(c.table[c.pos]) else None)
    {
      var e := c.Seek(startkey);
      p := Deliver(e);
    }

    method Next() returns (p: Option<Parts>)
      requires Valid() && Splittable()
      modifies c
      ensures c.pos == if old(c.pos) < |c.table| then old(c.pos) + 1 else old(c.pos)
      ensures p == Deliver(if c.pos < |c.table| then Some(c.table[c.pos]) else None)
    {
      var e := c.Next();
      p := Deliver(e);
    }
  }

  datatype Parts = Parts(key1: Key, key2: Key, key3: Key, value: Value)

  function PartsOf(e: Entry, part1end: nat, part2start: nat, part3start: nat): Parts
    requires part1end <= part3start && part2start <= part3start <= |e.key|
  {
    Parts(e.key[..part1end], e.key[part2start..part3start], e.key[part3start..], e.value)
  }

  /** The parts make up the key but for what is skipped after the first one; the value is untouched. */
  lemma PartsMakeKey(e: Entry, part1end: nat, part2start: nat, part3start: nat)
    requires part1end <= part3start && part2start <= part3start <= |e.key|
    ensures var p := PartsOf(e, part1end, part2start, part3start);
            && |p.key1| == part1end && |p.key2| == part3start - part2start && |p.key3| == |e.key| - part3start
            && p.value == e.value
            && (part1end == part2start ==> p.key1 + p.key2 + p.key3 == e.key)
            && (part1end <= part2start ==> p.key1 + e.key[part1end..part2start] + p.key2 + p.key3 == e.key)
  {
  }

  /** Reading a split cursor until it delivers nothing gives the entries `Walk` visits. */
  method ReadAll(sc: SplitCursor, matchBits: nat) returns (read: seq<Parts>, ghost entries: seq<Entry>)
    requires sc.Valid() && Sorted(sc.c.table) && matchBits <= 8 * |sc.startkey|
    requires (sc.matchBytes, sc.mask) == Bytesmask(matchBits)
    requires sc.Splittable()
    modifies sc.c
    ensures entries == Selection(sc.c.table, sc.startkey, matchBits) && |read| == |entries|
    ensures forall i :: 0 <= i < |read| ==>
              && sc.part3start <= |entries[i].key|
              && read[i] == PartsOf(entries[i], sc.part1end, sc.part2start, sc.part3start)
  {
    hide Matches, MatchKey, AtMost, Sorted, Selection;
    var table := sc.c.table;
    read, entries := [], [];
    var p := sc.Seek();
    ghost var lo := sc.c.pos;
    while p.Some?
      invariant lo <= sc.c.pos <= |table| && entries == table[lo..sc.c.pos]
      invariant p == sc.Deliver(if sc.c.pos < |table| then Some(table[sc.c.pos]) else None)
      invariant forall i :: lo <= i < sc.c.pos ==> Matches(table[i].key, sc.startkey, matchBits)
      invariant |read| == |entries|
      invariant forall i :: 0 <= i < |read| ==>
                  && sc.part3start <= |entries[i].key|
                  && read[i] == PartsOf(entries[i], sc.part1end, sc.part2start, sc.part3start)
      decreases |table| - sc.c.pos
    {
      MatchKeyIsMatches(table[sc.c.pos].key, sc.startkey, matchBits);
      read := read + [p.value];
      entries := entries + [table[sc.c.pos]];
      p := sc.Next();
    }
    if sc.c.pos < |table| { MatchKeyIsMatches(table[sc.c.pos].key, sc.startkey, matchBits); }
    ScanIsComplete(table, sc.startkey, matchBits, lo, sc.c.pos);
  }
}
