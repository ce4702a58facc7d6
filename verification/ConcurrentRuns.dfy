/**
 What concurrent clients can rely on: laws that hold of every interleaving, because each is kept by
 every whole operation and the locks make runs serialisable.
 */
module ConcurrentRuns {
  import opened ByteStrings
  import opened Keyspace
  import opened FlatOps
  import opened FlatLaws
  import opened Sharded
  import opened ShardLocks
  import opened LockedOps

  ghost predicate IsRead(op: Op, idx: Route) {
    WellFormed(op, idx) && !op.writes
  }

  lemma ReadChangesNothing(m: Entries, op: Op, idx: Route)
    requires IsRead(op, idx)
    ensures Apply(m, op, idx) == m
  {
    var v := View(m, op.need, idx);
    assert |op.plan(v)| <= op.work;
    assert op.plan(v) == [];
  }

  // ---- Renaming back and forth ----

  /** Beside the entries `rest`, which has neither key, `m` holds `e` under one of the two keys. */
  predicate HeldOnce(m: Entries, a: Bytes, b: Bytes, e: Entry, rest: Entries) {
    a != b && a !in rest && b !in rest && (m == rest[a := e] || m == rest[b := e])
  }

  ghost predicate IsRename(op: Op, a: Bytes, b: Bytes, idx: Route) {
    op == PairOp(Change(Rename, a, b), a, b, idx) || op == PairOp(Change(Rename, b, a), b, a, idx)
  }

  lemma RenameStep(m: Entries, a: Bytes, b: Bytes, idx: Route, e: Entry, rest: Entries)
    requires HeldOnce(m, a, b, e, rest)
    ensures HeldOnce(Apply(m, PairOp(Change(Rename, a, b), a, b, idx), idx), a, b, e, rest)
  {
    MovePerforms(Rename, a, b, idx, m);
    ChangeIs(Rename, a, b, m);
    assert RenameFlat(m, a, b) == rest[b := e];
  }

  lemma RenameKeepsOne(m: Entries, a: Bytes, b: Bytes, op: Op, idx: Route, e: Entry, rest: Entries)
    requires HeldOnce(m, a, b, e, rest) && IsRename(op, a, b, idx)
    ensures HeldOnce(Apply(m, op, idx), a, b, e, rest)
  {
    if op == PairOp(Change(Rename, a, b), a, b, idx) {
      RenameStep(m, a, b, idx, e, rest);
    } else {
      RenameStep(m, b, a, idx, e, rest);
    }
  }

  lemma {:induction false} RenamesKeepOne(m: Entries, log: seq<Op>, a: Bytes, b: Bytes, idx: Route, e: Entry, rest: Entries)
    requires HeldOnce(m, a, b, e, rest)
    requires forall i :: 0 <= i < |log| ==> IsRead(log[i], idx) || IsRename(log[i], a, b, idx)
    ensures HeldOnce(Replay(m, log, idx), a, b, e, rest)
    decreases |log|
  {
    if log != [] {
      var n := |log| - 1;
      RenamesKeepOne(m, log[..n], a, b, idx, e, rest);
      var before := Replay(m, log[..n], idx);
      if IsRead(log[n], idx) {
        ReadChangesNothing(before, log[n], idx);
      } else {
        RenameKeepsOne(before, a, b, log[n], idx, e, rest);
      }
    }
  }

  /**
   However many threads read and rename `a` to `b` and `b` to `a`, the entry is never lost, doubled
   or altered, and no other key is touched.
   */
  lemma RenameLosesNoKey(run: seq<State>, a: Bytes, b: Bytes, idx: Route, e: Entry, rest: Entries)
    requires Run(run, idx) && HeldOnce(run[0].data, a, b, e, rest) && AllIdle(run[|run| - 1])
    requires var log := run[|run| - 1].log; forall i :: 0 <= i < |log| ==> IsRead(log[i], idx) || IsRename(log[i], a, b, idx)
    ensures HeldOnce(run[|run| - 1].data, a, b, e, rest)
  {
    Serialisable(run, idx);
    RenamesKeepOne(run[0].data, run[|run| - 1].log, a, b, idx, e, rest);
  }

  // ---- Moving list elements ----

  /** The key is missing or a list that does not expire. */
  predicate PlainList(m: Entries, k: Bytes) {
    k in m ==> m[k].value.List? && m[k].expiry.None?
  }

  function Items(m: Entries, k: Bytes): seq<Bytes> {
    if k in m && m[k].value.List? then m[k].value.items else []
  }

  /** All elements of the two lists. */
  function Pool(m: Entries, a: Bytes, b: Bytes): multiset<Bytes> {
    multiset(Items(m, a)) + multiset(Items(m, b))
  }

  ghost predicate IsMove(op: Op, a: Bytes, b: Bytes, idx: Route) {
    exists l, r, now, lru :: op == MoveOp(a, b, l, r, now, lru, idx)
  }

  function MoveOp(a: Bytes, b: Bytes, l: bool, r: bool, now: nat, lru: nat, idx: Route): Op {
    PairOp(Change(LMove(l, r, now, lru), a, b), a, b, idx)
  }

  lemma MoveKeepsPool(m: Entries, a: Bytes, b: Bytes, l: bool, r: bool, now: nat, lru: nat)
    requires a != b && PlainList(m, a) && PlainList(m, b)
    ensures var m' := LMoveFlat(m, a, b, l, r, now, lru).0;
      PlainList(m', a) && PlainList(m', b) && Pool(m', a, b) == Pool(m, a, b)
  {
    var (m', reply) := LMoveFlat(m, a, b, l, r, now, lru);
    LMoveFrame(m, a, b, l, r, now, lru);
    assert Items(m, a) == Elements(m, a, now) && Items(m, b) == Elements(m, b, now);
    assert PlainList(m', a) && PlainList(m', b);
    assert Items(m', a) == Elements(m', a, now) && Items(m', b) == Elements(m', b, now);
    if reply.Moved? {
      LMoveConserves(m, a, b, l, r, now, lru);
    } else {
      assert Live(m', a, now) == Live(m, a, now) && Live(m', b, now) == Live(m, b, now);
    }
  }

  /** Both lists are plain and hold `pool` between them. */
  ghost predicate Holding(m: Entries, a: Bytes, b: Bytes, pool: multiset<Bytes>) {
    PlainList(m, a) && PlainList(m, b) && Pool(m, a, b) == pool
  }

  lemma ChangeHolds(m: Entries, a: Bytes, b: Bytes, l: bool, r: bool, now: nat, lru: nat, pool: multiset<Bytes>)
    requires a != b && Holding(m, a, b, pool)
    ensures Holding(Change(LMove(l, r, now, lru), a, b)(m), a, b, pool)
  {
    ChangeIs(LMove(l, r, now, lru), a, b, m);
    MoveKeepsPool(m, a, b, l, r, now, lru);
  }

  lemma HoldingSame(m: Entries, m': Entries, a: Bytes, b: Bytes, pool: multiset<Bytes>)
    requires m == m' && Holding(m, a, b, pool)
    ensures Holding(m', a, b, pool)
  {
  }

  lemma MoveStep(m: Entries, a: Bytes, b: Bytes, op: Op, idx: Route, pool: multiset<Bytes>)
    requires a != b && Holding(m, a, b, pool) && IsMove(op, a, b, idx)
    ensures Holding(Apply(m, op, idx), a, b, pool)
  {
    var l, r, now, lru :| op == MoveOp(a, b, l, r, now, lru, idx);
    MovePerforms(LMove(l, r, now, lru), a, b, idx, m);
    ChangeHolds(m, a, b, l, r, now, lru, pool);
    HoldingSame(Change(LMove(l, r, now, lru), a, b)(m), Apply(m, op, idx), a, b, pool);
  }

  lemma {:induction false} MovesKeepPool(m: Entries, log: seq<Op>, a: Bytes, b: Bytes, idx: Route, pool: multiset<Bytes>)
    requires a != b && Holding(m, a, b, pool)
    requires forall i :: 0 <= i < |log| ==> IsRead(log[i], idx) || IsMove(log[i], a, b, idx) || IsMove(log[i], b, a, idx)
    ensures Holding(Replay(m, log, idx), a, b, pool)
    decreases |log|
  {
    if log != [] {
      var n := |log| - 1;
      MovesKeepPool(m, log[..n], a, b, idx, pool);
      var before := Replay(m, log[..n], idx);
      if IsRead(log[n], idx) {
        ReadChangesNothing(before, log[n], idx);
      } else if IsMove(log[n], a, b, idx) {
        MoveStep(before, a, b, log[n], idx, pool);
      } else {
        MoveStep(before, b, a, log[n], idx, pool);
      }
    }
  }

  /** A reader that sees both lists while threads move elements between them counts every element exactly once. */
  lemma ReaderCountsEveryElement(run: seq<State>, a: Bytes, b: Bytes, idx: Route, t: nat)
    requires Run(run, idx) && a != b && PlainList(run[0].data, a) && PlainList(run[0].data, b)
    requires var s := run[|run| - 1];
      && (forall i :: 0 <= i < |s.log| ==>
            IsRead(s.log[i], idx) || IsMove(s.log[i], a, b, idx) || IsMove(s.log[i], b, a, idx))
      && t < |s.pc| && s.pc[t].Work? && !s.pc[t].op.writes && idx(a) in s.pc[t].op.need && idx(b) in s.pc[t].op.need
    ensures var s := run[|run| - 1]; Pool(View(s.data, s.pc[t].op.need, idx), a, b) == Pool(run[0].data, a, b)
  {
    var s := run[|run| - 1];
    ReadersSeeWholeOperations(run, idx, t);
    MovesKeepPool(run[0].data, s.log, a, b, idx, Pool(run[0].data, a, b));
  }

  // ---- Racing MSETNX ----

  datatype Batch = Batch(pairs: Pairs, need: seq<nat>, now: nat)

  function BatchOp(x: Batch): Op {
    MSetNxOp(x.pairs, x.need, x.now)
  }

  /** The batch, in the order the sort has chosen, sets `k`, and only to entries that do not expire. */
  ghost predicate Claims(x: Batch, k: Bytes, idx: Route) {
    Covers(x.need, x.pairs, idx) && Names(x.pairs, k) &&
    forall i :: 0 <= i < |x.pairs| && x.pairs[i].0 == k ==> x.pairs[i].1.expiry.None?
  }

  lemma ClaimHolds(m: Entries, x: Batch, k: Bytes, idx: Route, now: nat)
    requires Claims(x, k, idx)
    ensures Live(PutAll(m, x.pairs), k, now).Some?
  {
    PutAllPicks(m, x.pairs, k);
    var e := Find(PutAll(m, x.pairs), k).value;
    var i :| 0 <= i < |x.pairs| && x.pairs[i] == (k, e);
  }

  lemma LoserChangesNothing(m: Entries, x: Batch, k: Bytes, idx: Route)
    requires Claims(x, k, idx) && Live(m, k, x.now).Some?
    ensures Apply(m, BatchOp(x), idx) == m
  {
    MSetNxPerforms(x.pairs, x.pairs, x.need, x.now, idx, m);
    var i :| 0 <= i < |x.pairs| && x.pairs[i].0 == k;
    assert x.pairs[i] in x.pairs;
  }

  /** `op` is the batch `x`, which claims `k`, or a read where there is none. */
  ghost predicate Races(op: Op, x: Option<Batch>, k: Bytes, idx: Route) {
    if x.Some? then Claims(x.value, k, idx) && op == BatchOp(x.value) else IsRead(op, idx)
  }

  ghost predicate Racing(log: seq<Op>, xs: seq<Option<Batch>>, k: Bytes, idx: Route) {
    |log| == |xs| && forall i :: 0 <= i < |xs| ==> Races(log[i], xs[i], k, idx)
  }

  function Either(w: Option<Batch>, x: Option<Batch>): Option<Batch> {
    if w.Some? then w else x
  }

  /** The first batch of the log. */
  function First(xs: seq<Option<Batch>>): Option<Batch> {
    if xs == [] then None else Either(First(xs[..|xs| - 1]), xs[|xs| - 1])
  }

  /** The winner, if there is one, claims `k` and finds all its keys free. */
  ghost predicate MayWin(m: Entries, w: Option<Batch>, k: Bytes, idx: Route) {
    w.Some? ==> Claims(w.value, k, idx) && AllAbsent(m, w.value.pairs, w.value.now)
  }

  function Won(m: Entries, w: Option<Batch>): Entries {
    if w.Some? then PutAll(m, w.value.pairs) else m
  }

  lemma RaceStep(m: Entries, w: Option<Batch>, x: Option<Batch>, op: Op, k: Bytes, idx: Route)
    requires Races(op, x, k, idx) && MayWin(m, Either(w, x), k, idx)
    ensures Apply(Won(m, w), op, idx) == Won(m, Either(w, x))
  {
    if x.None? {
      ReadChangesNothing(Won(m, w), op, idx);
    } else if w.Some? {
      ClaimHolds(m, w.value, k, idx, x.value.now);
      LoserChangesNothing(Won(m, w), x.value, k, idx);
    } else {
      MSetNxPerforms(x.value.pairs, x.value.pairs, x.value.need, x.value.now, idx, m);
    }
  }

  /** Of any number of MSETNX that compete for a free key, the first to commit wins whole and the rest do nothing. */
  lemma {:induction false} FirstBatchWins(m: Entries, xs: seq<Option<Batch>>, log: seq<Op>, k: Bytes, idx: Route)
    requires Racing(log, xs, k, idx) && MayWin(m, First(xs), k, idx)
    ensures Replay(m, log, idx) == Won(m, First(xs))
    decreases |log|
  {
    if log != [] {
      var n := |log| - 1;
      FirstBatchWins(m, xs[..n], log[..n], k, idx);
      RaceStep(m, First(xs[..n]), xs[n], log[n], k, idx);
    }
  }

  lemma {:induction false} FirstClaims(xs: seq<Option<Batch>>, log: seq<Op>, k: Bytes, idx: Route)
    requires Racing(log, xs, k, idx) && First(xs).Some?
    ensures Claims(First(xs).value, k, idx)
    decreases |log|
  {
    var n := |log| - 1;
    assert Races(log[n], xs[n], k, idx);
    if First(xs[..n]).Some? { FirstClaims(xs[..n], log[..n], k, idx); }
  }

  /** Among any readers, MSETNX has exactly one winner, and nothing of any other batch is ever stored. */
  lemma ExactlyOneWinner(run: seq<State>, xs: seq<Option<Batch>>, k: Bytes, idx: Route)
    requires Run(run, idx) && AllIdle(run[|run| - 1]) && Racing(run[|run| - 1].log, xs, k, idx)
    requires First(xs).Some? && AllAbsent(run[0].data, First(xs).value.pairs, First(xs).value.now)
    ensures run[|run| - 1].data == PutAll(run[0].data, First(xs).value.pairs)
  {
    Serialisable(run, idx);
    FirstClaims(xs, run[|run| - 1].log, k, idx);
    FirstBatchWins(run[0].data, xs, run[|run| - 1].log, k, idx);
  }

  // ---- What is there is not overwritten ----

  /** A RENAMENX or a COPY without REPLACE onto `k`. */
  ghost predicate IsPairNx(op: Op, k: Bytes, idx: Route) {
    exists src, now, lru :: src != k && (op == NxOp(RenameNx(now, lru), src, k, idx) || op == NxOp(Copy(false, now, lru), src, k, idx))
  }

  function NxOp(mv: Move, src: Bytes, k: Bytes, idx: Route): Op {
    PairOp(Change(mv, src, k), src, k, idx)
  }

  /** An operation that stores at `k` only if `k` is free. */
  ghost predicate IsNx(op: Op, k: Bytes, idx: Route) {
    IsPairNx(op, k, idx) || exists x :: Claims(x, k, idx) && op == BatchOp(x)
  }

  /** `k` holds `e`, which does not expire, up to its LRU stamp. */
  predicate Keeps(m: Entries, k: Bytes, e: Entry) {
    e.expiry.None? && SameValue(Some(e), Find(m, k))
  }

  lemma PairNxStep(m: Entries, op: Op, k: Bytes, idx: Route, e: Entry)
    requires Keeps(m, k, e) && IsPairNx(op, k, idx)
    ensures Keeps(Apply(m, op, idx), k, e)
  {
    var src, now, lru :| src != k && (op == NxOp(RenameNx(now, lru), src, k, idx) || op == NxOp(Copy(false, now, lru), src, k, idx));
    var mv := if op == NxOp(RenameNx(now, lru), src, k, idx) then RenameNx(now, lru) else Copy(false, now, lru);
    MovePerforms(mv, src, k, idx, m);
    NxKeeps(m, mv, src, k, now, lru, e);
  }

  lemma NxKeeps(m: Entries, mv: Move, src: Bytes, k: Bytes, now: nat, lru: nat, e: Entry)
    requires Keeps(m, k, e) && src != k && (mv == RenameNx(now, lru) || mv == Copy(false, now, lru))
    ensures Keeps(Change(mv, src, k)(m), k, e)
  {
    ChangeIs(mv, src, k, m);
    assert Live(m, k, now) == Find(m, k);
    if mv == RenameNx(now, lru) {
      RenameNxIs(m, src, k, now, lru);
      LiveKeeps(m, RenameNxFlat(m, src, k, now, lru).0, k, now, e);
    } else {
      CopyIs(m, src, k, false, now, lru);
      LiveKeeps(m, CopyFlat(m, src, k, false, now, lru).0, k, now, e);
    }
  }

  lemma LiveKeeps(m: Entries, m': Entries, k: Bytes, now: nat, e: Entry)
    requires Keeps(m, k, e) && NothingChanged(m, m', now)
    ensures Keeps(m', k, e)
  {
    assert SameValue(Live(m, k, now), Live(m', k, now));
  }

  lemma NxStep(m: Entries, op: Op, k: Bytes, idx: Route, e: Entry)
    requires Keeps(m, k, e) && (IsRead(op, idx) || IsNx(op, k, idx))
    ensures Keeps(Apply(m, op, idx), k, e)
  {
    if IsRead(op, idx) {
      ReadChangesNothing(m, op, idx);
    } else if IsPairNx(op, k, idx) {
      PairNxStep(m, op, k, idx, e);
    } else {
      var x :| Claims(x, k, idx) && op == BatchOp(x);
      LoserChangesNothing(m, x, k, idx);
    }
  }

  lemma {:induction false} NxRun(m: Entries, log: seq<Op>, k: Bytes, idx: Route, e: Entry)
    requires Keeps(m, k, e) && forall i :: 0 <= i < |log| ==> IsRead(log[i], idx) || IsNx(log[i], k, idx)
    ensures Keeps(Replay(m, log, idx), k, e)
    decreases |log|
  {
    if log != [] {
      var n := |log| - 1;
      NxRun(m, log[..n], k, idx, e);
      NxStep(Replay(m, log[..n], idx), log[n], k, idx, e);
    }
  }

  /** Whatever RENAMENX, COPY and MSETNX the clients fire at a key that is there, in any interleaving, its entry stays. */
  lemma NxNeverOverwrites(run: seq<State>, k: Bytes, idx: Route, e: Entry)
    requires Run(run, idx) && AllIdle(run[|run| - 1]) && Keeps(run[0].data, k, e)
    requires var log := run[|run| - 1].log; forall i :: 0 <= i < |log| ==> IsRead(log[i], idx) || IsNx(log[i], k, idx)
    ensures Keeps(run[|run| - 1].data, k, e)
  {
    Serialisable(run, idx);
    NxRun(run[0].data, run[|run| - 1].log, k, idx, e);
  }
}
