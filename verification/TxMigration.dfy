/**
  The `txs_begin_end` migration (`migrations/txs_begin_end.go`): every block gets an empty
  slot before and after its transactions, so all transactions move up in one table keyed by
  transaction id. Blocks are moved in place, from the last one down.
 */
module TxMigration {
  import opened Common

  const COMMIT_EVERY := 10_000

  /** The stored body of a canonical block: where its transactions are. */
  datatype Body = Body(base: nat, amount: nat)

  type Table<T> = map<nat, T>

  datatype Db<T> = Db(bodies: map<nat, Body>, txs: Table<T>)

  // ---------------------------------------------------------------- reading and writing ranges

  ghost predicate IsNext<T>(table: Table<T>, from: nat, k: nat) {
    k in table && from <= k && forall j :: j in table && from <= j ==> k <= j
  }

  lemma NextIsUnique<T>(table: Table<T>, from: nat, k: nat, l: nat)
    requires IsNext(table, from, k) && IsNext(table, from, l)
    ensures k == l
  {
  }

  /** The values of the first `amount` entries at `from` or later, in the order of their ids. */
  ghost function FirstFrom<T>(table: Table<T>, from: nat, amount: nat): (vals: seq<T>)
    ensures |vals| <= amount
    decreases amount
  {
    if amount == 0 || !(exists k: nat :: IsNext(table, from, k)) then []
    else
      var k: nat :| IsNext(table, from, k);
      [table[k]] + FirstFrom(table, k + 1, amount - 1)
  }

  lemma FirstFromStep<T>(table: Table<T>, from: nat, amount: nat, k: nat)
    requires amount > 0 && IsNext(table, from, k)
    ensures FirstFrom(table, from, amount) == [table[k]] + FirstFrom(table, k + 1, amount - 1)
  {
    forall l | IsNext(table, from, l)
      ensures l == k
    {
      NextIsUnique(table, from, k, l);
    }
  }

  lemma FirstFromEnds<T>(table: Table<T>, from: nat, amount: nat)
    requires amount == 0 || forall j :: j in table ==> j < from
    ensures FirstFrom(table, from, amount) == []
  {
  }

  /** The values are those of the ids from `from` on. */
  ghost predicate Reads<T>(table: Table<T>, from: nat, vals: seq<T>) {
    forall i :: 0 <= i < |vals| ==> from + i in table && vals[i] == table[from + i]
  }

  /** Where no id is missing these are the entries of that range. */
  lemma {:induction false} FirstFromRange<T>(table: Table<T>, from: nat, amount: nat)
    requires forall id :: from <= id < from + amount ==> id in table
    ensures |FirstFrom(table, from, amount)| == amount
    ensures Reads(table, from, FirstFrom(table, from, amount))
    decreases amount
  {
    if amount > 0 {
      assert from in table;
      FirstFromStep(table, from, amount, from);
      FirstFromRange(table, from + 1, amount - 1);
    }
  }

  lemma Regroup<T>(a: seq<T>, x: T, b: seq<T>)
    ensures a + ([x] + b) == (a + [x]) + b
  {
  }

  ghost function Put<T>(table: Table<T>, base: nat, vals: seq<T>): Table<T>
    decreases |vals|
  {
    if vals == [] then table else Put(table, base, vals[..|vals|-1])[base + |vals| - 1 := vals[|vals|-1]]
  }

  lemma {:induction false} PutAt<T>(table: Table<T>, base: nat, vals: seq<T>)
    ensures forall id :: base <= id < base + |vals| ==>
              id in Put(table, base, vals) && Put(table, base, vals)[id] == vals[id - base]
    ensures forall id :: id < base || id >= base + |vals| ==>
              && (id in Put(table, base, vals) <==> id in table)
              && (id in table ==> Put(table, base, vals)[id] == table[id])
    decreases |vals|
  {
    if vals != [] {
      PutAt(table, base, vals[..|vals|-1]);
    }
  }

  // ---------------------------------------------------------------- one block, and a whole run

  function NewBody(b: Body, n: nat): Body {
    Body(b.base + 2 * n, b.amount + 2)
  }

  /** What moving block `n` makes of the database; a block without a body is skipped. */
  ghost function Step<T>(db: Db<T>, n: nat): Db<T> {
    if n !in db.bodies then db else
    var was, now := db.bodies[n], NewBody(db.bodies[n], n);
    var vals := FirstFrom(db.txs, was.base, was.amount);
    Db(db.bodies[n := now], Put(db.txs - {now.base}, now.base + 1, vals) - {now.base + now.amount - 1})
  }

  /** The loop from block `from` down to block `to`. */
  ghost function RunDown<T>(db: Db<T>, from: int, to: int): Db<T>
    requires to >= 0
    decreases from - to + 1
  {
    if from < to then db else RunDown(Step(db, from), from - 1, to)
  }

  class Tables<T> {
    var db: Db<T>

    constructor (db: Db<T>)
      ensures this.db == db
    {
      this.db := db;
    }

    /** A cursor's seek: the first id at `from` or later. */
    method Seek(from: nat) returns (k: Option<nat>)
      ensures k.Some? ==> IsNext(db.txs, from, k.value)
      ensures k.None? ==> forall j :: j in db.txs ==> j < from
    {
      k := None;
      var rest: set<nat> := db.txs.Keys;
      while rest != {}
        invariant rest <= db.txs.Keys
        invariant k.Some? ==> k.value in db.txs && from <= k.value
        invariant forall j :: j in db.txs && j !in rest && from <= j ==> k.Some? && k.value <= j
      {
        var j: nat :| j in rest;
        if from <= j && (k.None? || j < k.value) {
          k := Some(j);
        }
        rest := rest - {j};
      }
    }

    /** Reads a range with a cursor; fewer are returned if the table ends. */
    method CanonicalTransactions(base: nat, amount: nat) returns (vals: seq<T>)
      ensures vals == FirstFrom(db.txs, base, amount)
    {
      hide FirstFrom;
      vals := [];
      var k := Seek(base);
      ghost var from := base;
      while |vals| < amount && k.Some?
        invariant |vals| <= amount && FirstFrom(db.txs, base, amount) == vals + FirstFrom(db.txs, from, amount - |vals|)
        invariant k.Some? ==> IsNext(db.txs, from, k.value)
        invariant k.None? ==> forall j :: j in db.txs ==> j < from
        decreases amount - |vals|
      {
        FirstFromStep(db.txs, from, amount - |vals|, k.value);
        Regroup(vals, db.txs[k.value], FirstFrom(db.txs, k.value + 1, amount - |vals| - 1));
        vals := vals + [db.txs[k.value]];
        from := k.value + 1;
        k := Seek(k.value + 1);
      }
      FirstFromEnds(db.txs, from, amount - |vals|);
    }

    method WriteTransactions(vals: seq<T>, base: nat)
      modifies this
      ensures db == old(db).(txs := Put(old(db.txs), base, vals))
    {
      var id := base;
      for i := 0 to |vals|
        invariant id == base + i && db == old(db).(txs := Put(old(db.txs), base, vals[..i]))
      {
        assert vals[..i+1][..i] == vals[..i];
        db := db.(txs := db.txs[id := vals[i]]);
        id := id + 1;
      }
      assert vals[..|vals|] == vals;
    }

    method MoveBlock(n: nat)
      modifies this
      ensures db == Step(old(db), n)
    {
      hide FirstFrom, Put;
      if n !in db.bodies {
        return;
      }
      var b := db.bodies[n];
      var vals := CanonicalTransactions(b.base, b.amount);
      b := Body(b.base + n * 2, b.amount + 2);
      db := db.(bodies := db.bodies[n := b]);
      db := db.(txs := db.txs - {b.base});
      WriteTransactions(vals, b.base + 1);
      db := db.(txs := db.txs - {b.base + b.amount - 1});
    }

    /** The migration: starts at the recorded block if there is one, else past the last body. */
    method Up(progress: Option<nat>, bodiesProgress: nat)
      modifies this
      ensures db == RunDown(old(db), if progress.Some? then progress.value else bodiesProgress + 1, 0)
    {
      var latest := if progress.Some? then progress.value else bodiesProgress + 1;
      var i: int := latest;
      while i >= 0
        invariant -1 <= i <= latest && RunDown(old(db), latest, 0) == RunDown(db, i, 0)
      {
        MoveBlock(i);
        i := i - 1;
      }
    }
  }

  // ---------------------------------------------------------------- the database before and after

  function End(b: Body): nat {
    b.base + b.amount
  }

  /** Blocks 0 to count-1 have bodies. */
  ghost predicate Numbered<T>(db: Db<T>, count: nat) {
    forall n: nat :: n in db.bodies <==> n < count
  }

  ghost predicate Abutting<T>(db: Db<T>) {
    forall m: nat, n: nat :: m in db.bodies && n in db.bodies && n == m + 1 ==> db.bodies[n].base == End(db.bodies[m])
  }

  ghost predicate Complete<T>(db: Db<T>) {
    forall n, id :: n in db.bodies && db.bodies[n].base <= id < End(db.bodies[n]) ==> id in db.txs
  }

  /** The bodies follow one another, with all their transactions. */
  ghost predicate Contiguous<T>(db: Db<T>, count: nat) {
    Numbered(db, count) && Abutting(db) && Complete(db)
  }

  /** Where block `n` starts; past the last block, where that one ends. */
  ghost function Start<T>(db: Db<T>, count: nat, n: nat): nat
    requires Numbered(db, count) && n <= count
  {
    if n < count then db.bodies[n].base else if count == 0 then 0 else End(db.bodies[count - 1])
  }

  lemma {:induction false} StartsAscend<T>(db: Db<T>, count: nat, m: nat, n: nat)
    requires Contiguous(db, count) && m < n <= count
    ensures End(db.bodies[m]) <= Start(db, count, n)
    decreases n
  {
    if m + 1 < n {
      StartsAscend(db, count, m, n - 1);
    }
  }

  /** Block `n` of `was` is in its new place: in order, between two empty slots. */
  ghost predicate Placed<T>(was: Db<T>, db: Db<T>, n: nat)
    requires n in was.bodies
  {
    var b, now := was.bodies[n], NewBody(was.bodies[n], n);
    && n in db.bodies && db.bodies[n] == now
    && now.base !in db.txs && now.base + now.amount - 1 !in db.txs
    && (forall id: nat :: b.base <= id < End(b) ==> Copied(was.txs, db.txs, id, n))
  }

  /** The entry at `id`, of block `n`, is found where the block's new base puts it. */
  ghost predicate Copied<T>(a: Table<T>, b: Table<T>, id: nat, n: nat) {
    id in a && id + 2 * n + 1 in b && b[id + 2 * n + 1] == a[id]
  }

  ghost predicate SameBelow<T>(a: Table<T>, b: Table<T>, end: nat) {
    forall id: nat :: id < end ==> (id in a <==> id in b) && (id in a ==> a[id] == b[id])
  }

  ghost predicate SameFrom<T>(a: Table<T>, b: Table<T>, start: nat) {
    forall id: nat :: start <= id ==> (id in a <==> id in b) && (id in a ==> a[id] == b[id])
  }

  /** Blocks `m` and later have been moved, those below have not been touched. */
  ghost predicate Inv<T>(was: Db<T>, db: Db<T>, count: nat, m: nat)
    requires Contiguous(was, count) && m <= count
  {
    && db.bodies.Keys == was.bodies.Keys
    && (forall n: nat :: n < m ==> db.bodies[n] == was.bodies[n])
    && (forall n: nat :: m <= n < count ==> Placed(was, db, n))
    && SameBelow(was.txs, db.txs, Start(was, count, m))
    && SameFrom(was.txs, db.txs, Start(was, count, count) + 2 * count)
  }

  /** A block's range holds the values between two empty slots. */
  ghost predicate Written<T>(table: Table<T>, now: Body, vals: seq<T>) {
    && now.amount == |vals| + 2 && now.base !in table && End(now) - 1 !in table
    && (forall id :: now.base < id < End(now) - 1 ==> id in table && table[id] == vals[id - now.base - 1])
  }

  /** What moving one block does to the table, whatever was read for it. */
  lemma StepEffect<T>(db: Db<T>, n: nat, vals: seq<T>)
    requires n in db.bodies && vals == FirstFrom(db.txs, db.bodies[n].base, db.bodies[n].amount)
    ensures var after, now := Step(db, n), NewBody(db.bodies[n], n);
            && after.bodies == db.bodies[n := now]
            && (forall id: nat :: id in after.txs <==>
                  id != now.base && id != End(now) - 1 && (id in db.txs || now.base < id <= now.base + |vals|))
            && (forall id: nat :: id in after.txs ==>
                  after.txs[id] == if now.base < id <= now.base + |vals| then vals[id - now.base - 1] else db.txs[id])
  {
    hide FirstFrom;
    var now := NewBody(db.bodies[n], n);
    PutAt(db.txs - {now.base}, now.base + 1, vals);
  }

  /** The same for a block of which everything was found. */
  lemma StepTable<T>(db: Db<T>, n: nat, vals: seq<T>)
    requires n in db.bodies && |vals| == db.bodies[n].amount
    requires vals == FirstFrom(db.txs, db.bodies[n].base, db.bodies[n].amount)
    ensures var after, now := Step(db, n), NewBody(db.bodies[n], n);
            && after.bodies == db.bodies[n := now]
            && Written(after.txs, now, vals)
            && SameBelow(db.txs, after.txs, now.base) && SameFrom(db.txs, after.txs, End(now))
  {
    hide FirstFrom, Step;
    StepEffect(db, n, vals);
  }

  lemma StepInv<T>(was: Db<T>, db: Db<T>, count: nat, m: nat)
    requires Contiguous(was, count) && 0 < m <= count && Inv(was, db, count, m)
    ensures Inv(was, Step(db, m - 1), count, m - 1)
  {
    hide Step, Placed, SameBelow, SameFrom, Contiguous, Start;
    StepPlaces(was, db, count, m);
    StepSpares(was, db, count, m);
  }

  /** The block moved is in its new place, and the others are where they were. */
  lemma StepPlaces<T>(was: Db<T>, db: Db<T>, count: nat, m: nat)
    requires Contiguous(was, count) && 0 < m <= count && Inv(was, db, count, m)
    ensures var after := Step(db, m - 1);
            && after.bodies.Keys == was.bodies.Keys
            && (forall n: nat :: n < m - 1 ==> after.bodies[n] == was.bodies[n])
            && (forall n: nat :: m - 1 <= n < count ==> Placed(was, after, n))
  {
    hide Step, FirstFrom, Placed, Reads, SameBelow, SameFrom, NewBody, Abutting, Complete, Written, Start;
    var n := m - 1;
    var b := was.bodies[n];
    var after := Step(db, n);
    OldRange(was, db, count, n);
    var vals := FirstFrom(db.txs, b.base, b.amount);
    StepTable(db, n, vals);
    MovedIsPlaced(was, after, n, vals);
    forall k: nat | m <= k < count
      ensures Placed(was, after, k)
    {
      NewStarts(was, count, n, k);
      StaysPlaced(was, db, after, k, End(NewBody(b, n)));
    }
    assert after.bodies.Keys == was.bodies.Keys;
  }

  /** What lies below the block moved or past all new ranges is not touched. */
  lemma StepSpares<T>(was: Db<T>, db: Db<T>, count: nat, m: nat)
    requires Contiguous(was, count) && 0 < m <= count && Inv(was, db, count, m)
    ensures SameBelow(was.txs, Step(db, m - 1).txs, Start(was, count, m - 1))
    ensures SameFrom(was.txs, Step(db, m - 1).txs, Start(was, count, count) + 2 * count)
  {
    hide Step, FirstFrom, Placed, Reads, SameBelow, SameFrom, NewBody, Abutting, Complete, Written;
    var n := m - 1;
    var b, now := was.bodies[n], NewBody(was.bodies[n], n);
    OldRange(was, db, count, n);
    StepTable(db, n, FirstFrom(db.txs, b.base, b.amount));
    NewStarts(was, count, n, count);
    StartsAscend(was, count, n, m);
    StaysSame(was.txs, db.txs, Step(db, n).txs, Start(was, count, m), b.base, now.base,
              Start(was, count, count) + 2 * count, End(now));
  }

  lemma NewStarts<T>(db: Db<T>, count: nat, n: nat, k: nat)
    requires Contiguous(db, count) && n < k <= count
    ensures End(NewBody(db.bodies[n], n)) <= Start(db, count, k) + 2 * k
    ensures db.bodies[n].base <= NewBody(db.bodies[n], n).base
    ensures k < count ==> Start(db, count, k) + 2 * k == NewBody(db.bodies[k], k).base
  {
    StartsAscend(db, count, n, k);
  }

  lemma StaysSame<T>(a: Table<T>, b: Table<T>, c: Table<T>, low: nat, lower: nat, base: nat, high: nat, end: nat)
    requires SameBelow(a, b, low) && SameBelow(b, c, base) && lower <= low && lower <= base
    requires SameFrom(a, b, high) && SameFrom(b, c, end) && end <= high
    ensures SameBelow(a, c, lower) && SameFrom(a, c, high)
  {
  }

  lemma MovedIsPlaced<T>(was: Db<T>, after: Db<T>, n: nat, vals: seq<T>)
    requires n in was.bodies && |vals| == was.bodies[n].amount && Reads(was.txs, was.bodies[n].base, vals)
    requires var now := NewBody(was.bodies[n], n);
             n in after.bodies && after.bodies[n] == now && Written(after.txs, now, vals)
    ensures Placed(was, after, n)
  {
    var b, now := was.bodies[n], NewBody(was.bodies[n], n);
    forall id: nat | b.base <= id < End(b)
      ensures Copied(was.txs, after.txs, id, n)
    {
      var i := id - b.base;
      var v := vals[i];
      assert id == b.base + i && was.txs[id] == v;
    }
  }

  /** The transactions of a block that has not been moved are read as they were. */
  lemma OldRange<T>(was: Db<T>, db: Db<T>, count: nat, n: nat)
    requires Contiguous(was, count) && n < count && Inv(was, db, count, n + 1)
    ensures var b := was.bodies[n];
            && db.bodies[n] == b && |FirstFrom(db.txs, b.base, b.amount)| == b.amount
            && Reads(was.txs, b.base, FirstFrom(db.txs, b.base, b.amount))
  {
    hide FirstFrom, Placed, SameFrom, NewBody, Abutting;
    var b := was.bodies[n];
    StartsAscend(was, count, n, n + 1);
    forall id | b.base <= id < End(b)
      ensures id in db.txs && id in was.txs && db.txs[id] == was.txs[id]
    {
    }
    FirstFromRange(db.txs, b.base, b.amount);
  }

  lemma StaysPlaced<T>(was: Db<T>, db: Db<T>, after: Db<T>, k: nat, start: nat)
    requires k in was.bodies && Placed(was, db, k) && k in after.bodies && after.bodies[k] == db.bodies[k]
    requires SameFrom(db.txs, after.txs, start) && start <= NewBody(was.bodies[k], k).base
    ensures Placed(was, after, k)
  {
    var b, now := was.bodies[k], NewBody(was.bodies[k], k);
    forall id: nat | b.base <= id < End(b)
      ensures Copied(was.txs, after.txs, id, k)
    {
      assert Copied(was.txs, db.txs, id, k);
    }
  }

  lemma {:induction false} RunInv<T>(was: Db<T>, db: Db<T>, count: nat, i: int)
    requires Contiguous(was, count) && -1 <= i && Inv(was, db, count, if i + 1 < count then i + 1 else count)
    ensures Inv(was, RunDown(db, i, 0), count, 0)
    decreases i + 1
  {
    hide Step, Inv, Contiguous;
    if i >= 0 {
      if i < count {
        StepInv(was, db, count, i + 1);
      } else {
        SkipStep(was, db, count, i);
      }
      RunInv(was, Step(db, i), count, i - 1);
    }
  }

  lemma SkipStep<T>(was: Db<T>, db: Db<T>, count: nat, i: nat)
    requires Contiguous(was, count) && Inv(was, db, count, count) && i >= count
    ensures Step(db, i) == db
  {
  }

  /** The database after the migration, in terms of the database before it. */
  ghost predicate Migrated<T>(was: Db<T>, db: Db<T>, count: nat)
    requires Contiguous(was, count)
  {
    && db.bodies.Keys == was.bodies.Keys
    && (forall n: nat :: n < count ==> Placed(was, db, n))
    && SameBelow(was.txs, db.txs, Start(was, count, 0))
    && SameFrom(was.txs, db.txs, Start(was, count, count) + 2 * count)
  }

  /** An uninterrupted run is right. */
  lemma UninterruptedIsRight<T>(db: Db<T>, count: nat, latest: nat)
    requires Contiguous(db, count) && count <= latest + 1
    ensures Migrated(db, RunDown(db, latest, 0), count)
  {
    hide RunDown;
    RunInv(db, db, count, latest);
  }

  /** The new ranges abut too, so that between them they cover every id up to the last. */
  lemma NewRangesAbut<T>(db: Db<T>, count: nat, n: nat)
    requires Contiguous(db, count) && n + 1 < count
    ensures NewBody(db.bodies[n + 1], n + 1).base == End(NewBody(db.bodies[n], n))
  {
    assert db.bodies[n + 1].base == End(db.bodies[n]);
  }

  // ---------------------------------------------------------------- restarts

  lemma {:induction false} BodiesAfter<T>(db: Db<T>, from: int, to: nat)
    ensures RunDown(db, from, to).bodies.Keys == db.bodies.Keys
    ensures forall k: nat :: k in db.bodies ==>
              RunDown(db, from, to).bodies[k] == if to <= k <= from then NewBody(db.bodies[k], k) else db.bodies[k]
    decreases from - to + 1
  {
    if from >= to {
      BodiesAfter(Step(db, from), from - 1, to);
    }
  }

  /**
    Work is only durable at a commit, which happens after a block whose number is a multiple
    of 10000 has been moved, and that block is recorded. A run that is cut short goes on from
    the recorded block of the last commit. `commits` are the recorded blocks at which runs
    were resumed.
   */
  ghost function Sessions<T>(db: Db<T>, start: nat, commits: seq<nat>): Db<T>
    decreases |commits|
  {
    if commits == [] then RunDown(db, start, 0)
    else Sessions(RunDown(db, start, commits[0]), commits[0], commits[1..])
  }

  ghost predicate Legal<T>(db: Db<T>, start: nat, commits: seq<nat>) {
    commits != [] ==>
      && commits[0] in db.bodies && commits[0] % COMMIT_EVERY == 0 && commits[0] <= start
      && Legal(db, commits[0], commits[1..])
  }

  lemma {:induction false} LegalLater<T>(a: Db<T>, b: Db<T>, start: nat, commits: seq<nat>)
    requires Legal(a, start, commits) && a.bodies.Keys == b.bodies.Keys
    ensures Legal(b, start, commits)
    decreases |commits|
  {
    if commits != [] {
      LegalLater(a, b, commits[0], commits[1..]);
    }
  }

  /** The block a run was resumed at has been moved twice, with four slots instead of two. */
  lemma {:induction false} MovedTwice<T>(db: Db<T>, start: nat, commits: seq<nat>) returns (n: nat)
    requires commits != [] && Legal(db, start, commits)
    ensures n in db.bodies
    ensures var final := Sessions(db, start, commits);
            n in final.bodies && final.bodies[n].amount >= db.bodies[n].amount + 4
    decreases |commits|
  {
    var first := commits[0];
    var committed := RunDown(db, start, first);
    BodiesAfter(db, start, first);
    if commits[1..] == [] {
      n := first;
      BodiesAfter(committed, first, 0);
    } else {
      LegalLater(db, committed, first, commits[1..]);
      n := MovedTwice(committed, first, commits[1..]);
    }
  }

  /** The migration is right exactly if it was never resumed. */
  lemma RightIffNeverResumed<T>(db: Db<T>, count: nat, latest: nat, commits: seq<nat>)
    requires Contiguous(db, count) && count <= latest + 1 && Legal(db, latest, commits)
    ensures Migrated(db, Sessions(db, latest, commits), count) <==> commits == []
  {
    hide Contiguous, Legal, RunDown;
    if commits == [] {
      UninterruptedIsRight(db, count, latest);
    } else {
      var n := MovedTwice(db, latest, commits);
      NotPlaced(db, Sessions(db, latest, commits), count, n);
    }
  }

  lemma NotPlaced<T>(was: Db<T>, db: Db<T>, count: nat, n: nat)
    requires Contiguous(was, count) && n in was.bodies && n in db.bodies
    requires db.bodies[n].amount >= was.bodies[n].amount + 4
    ensures !Migrated(was, db, count)
  {
    assert Migrated(was, db, count) ==> Placed(was, db, n);
  }

  /** Resuming one block below the recorded one would have finished the same run. */
  lemma {:induction false} ResumeBelow<T>(db: Db<T>, start: int, n: nat)
    requires n <= start
    ensures RunDown(db, start, 0) == RunDown(RunDown(db, start, n), n - 1, 0)
    decreases start - n
  {
    if n < start {
      ResumeBelow(Step(db, start), start - 1, n);
    } else {
      assert RunDown(db, start, n) == Step(db, start);
    }
  }

  lemma OneSession<T>(db: Db<T>, start: nat, commits: seq<nat>)
    requires commits == [0]
    ensures Sessions(db, start, commits) == Step(RunDown(db, start, 0), 0)
  {
    hide Step;
    var committed := RunDown(db, start, commits[0]);
    assert Sessions(db, start, commits) == Sessions(committed, commits[0], commits[1..]);
    assert commits[1..] == [];
    assert RunDown(committed, 0, 0) == RunDown(Step(committed, 0), -1, 0);
  }

  /** A run that is resumed after the last commit, at block 0, deletes the first transaction of block 1. */
  lemma ResumedLoses<T>(db: Db<T>, count: nat, latest: nat, commits: seq<nat>)
    requires Contiguous(db, count) && 2 <= count <= latest + 1 && db.bodies[1].amount > 0 && commits == [0]
    ensures Legal(db, latest, commits)
    ensures db.bodies[1].base in db.txs
    ensures var final, now := Sessions(db, latest, commits), NewBody(db.bodies[1], 1);
            1 in final.bodies && final.bodies[1] == now && now.base + 1 !in final.txs
  {
    hide Step, RunDown, FirstFrom, Sessions, SameBelow, SameFrom;
    UninterruptedIsRight(db, count, latest);
    OneSession(db, latest, commits);
    var done := RunDown(db, latest, 0);
    assert Placed(db, done, 0) && Placed(db, done, 1);
    StepEffect(done, 0, FirstFrom(done.txs, done.bodies[0].base, done.bodies[0].amount));
    NewRangesAbut(db, count, 0);
    assert commits[1..] == [];
  }
}
