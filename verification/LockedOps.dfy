/**
 The cross-shard operations as lock-holding operations: run whole, each is the flat-map operation,
 so the interleavings of `ShardLocks` serialise exactly RENAME, RENAMENX, COPY, LMOVE, SMOVE, MSET and MSETNX.
 */
module LockedOps {
  import opened ByteStrings
  import opened Keyspace
  import opened FlatOps
  import opened ShardLocks
  import opened Sharded

  // ---- Operations on a source and a destination ----

  /** The shards `lock_two` locks, in the order it locks them. */
  function TwoShards(si: nat, di: nat): seq<nat> {
    var g := LockTwo(si, di);
    match g.1
    case Some(hi) => [g.0, hi]
    case None => [g.0]
  }

  datatype Move =
    | Rename
    | RenameNx(now: nat, lru: nat)
    | Copy(replace: bool, now: nat, lru: nat)
    | LMove(fromLeft: bool, toLeft: bool, now: nat, lru: nat)
    | SMove(x: Bytes, now: nat, lru: nat)

  /** The operation on one flat map. */
  function Moved(mv: Move, m: Entries, src: Bytes, dst: Bytes): Entries {
    match mv
    case Rename => RenameFlat(m, src, dst)
    case RenameNx(now, lru) => RenameNxFlat(m, src, dst, now, lru).0
    case Copy(replace, now, lru) => CopyFlat(m, src, dst, replace, now, lru).0
    case LMove(fromLeft, toLeft, now, lru) => LMoveFlat(m, src, dst, fromLeft, toLeft, now, lru).0
    case SMove(x, now, lru) => SMoveFlat(m, src, dst, x, now, lru).0
  }

  /** A change `f` of two keys under the locks of their shards. */
  function PairOp(f: Entries -> Entries, src: Bytes, dst: Bytes, idx: Route): Op {
    Op(true, TwoShards(idx(src), idx(dst)), 0, v => PairEdits(f(v), src, dst), 2)
  }

  function PairEdits(m: Entries, src: Bytes, dst: Bytes): seq<Edit> {
    [(src, Find(m, src)), (dst, Find(m, dst))]
  }

  ghost predicate AgreeAt(m: Entries, m': Entries, src: Bytes, dst: Bytes) {
    Find(m, src) == Find(m', src) && Find(m, dst) == Find(m', dst)
  }

  /** A change to one of the two keys that is decided by what is stored under them. */
  lemma WithAgrees(m: Entries, m': Entries, src: Bytes, dst: Bytes, k: Bytes, o: Option<Entry>)
    requires AgreeAt(m, m', src, dst)
    ensures AgreeAt(With(m, k, o), With(m', k, o), src, dst)
  {
    FindWith(m, k, o, src);
    FindWith(m', k, o, src);
    FindWith(m, k, o, dst);
    FindWith(m', k, o, dst);
  }

  lemma LiveAgrees(m: Entries, m': Entries, src: Bytes, dst: Bytes, now: nat)
    requires AgreeAt(m, m', src, dst)
    ensures (src in m <==> src in m') && (dst in m <==> dst in m')
    ensures src in m ==> m[src] == m'[src]
    ensures Live(m, src, now) == Live(m', src, now) && Live(m, dst, now) == Live(m', dst, now)
  {
  }

  lemma RenameAgrees(m: Entries, m': Entries, src: Bytes, dst: Bytes)
    requires AgreeAt(m, m', src, dst)
    ensures AgreeAt(RenameFlat(m, src, dst), RenameFlat(m', src, dst), src, dst)
    ensures forall k :: k != src && k != dst ==> Find(RenameFlat(m, src, dst), k) == Find(m, k)
  {
  }

  lemma RenameNxAgrees(m: Entries, m': Entries, src: Bytes, dst: Bytes, now: nat, lru: nat)
    requires AgreeAt(m, m', src, dst)
    ensures var r, r' := RenameNxFlat(m, src, dst, now, lru), RenameNxFlat(m', src, dst, now, lru);
      AgreeAt(r.0, r'.0, src, dst) && r.1 == r'.1
  {
    LiveAgrees(m, m', src, dst, now);
    var m1, m1' := Probed(m, dst, now, lru), Probed(m', dst, now, lru);
    WithAgrees(m, m', src, dst, dst, Refreshed(Live(m, dst, now), lru));
    LiveAgrees(m1, m1', src, dst, now);
    RenameAgrees(m1, m1', src, dst);
  }

  lemma RenameNxFrame(m: Entries, src: Bytes, dst: Bytes, now: nat, lru: nat, k: Bytes)
    ensures k != src && k != dst ==> Find(RenameNxFlat(m, src, dst, now, lru).0, k) == Find(m, k)
  {
  }

  lemma CopyAgrees(m: Entries, m': Entries, src: Bytes, dst: Bytes, replace: bool, now: nat, lru: nat)
    requires AgreeAt(m, m', src, dst)
    ensures var r, r' := CopyFlat(m, src, dst, replace, now, lru), CopyFlat(m', src, dst, replace, now, lru);
      AgreeAt(r.0, r'.0, src, dst) && r.1 == r'.1
  {
    LiveAgrees(m, m', src, dst, now);
    var m1 := if replace then m else Probed(m, dst, now, lru);
    var m1' := if replace then m' else Probed(m', dst, now, lru);
    WithAgrees(m, m', src, dst, dst, Refreshed(Live(m, dst, now), lru));
    LiveAgrees(m1, m1', src, dst, now);
    WithAgrees(m1, m1', src, dst, src, Refreshed(Live(m1, src, now), lru));
    LiveAgrees(Probed(m1, src, now, lru), Probed(m1', src, now, lru), src, dst, now);
  }

  lemma CopyFrame(m: Entries, src: Bytes, dst: Bytes, replace: bool, now: nat, lru: nat, k: Bytes)
    ensures k != src && k != dst ==> Find(CopyFlat(m, src, dst, replace, now, lru).0, k) == Find(m, k)
  {
  }

  lemma LMoveAgrees(m: Entries, m': Entries, src: Bytes, dst: Bytes, fromLeft: bool, toLeft: bool, now: nat, lru: nat)
    requires AgreeAt(m, m', src, dst)
    ensures var r := LMoveFlat(m, src, dst, fromLeft, toLeft, now, lru);
      var r' := LMoveFlat(m', src, dst, fromLeft, toLeft, now, lru);
      AgreeAt(r.0, r'.0, src, dst) && r.1 == r'.1
  {
    LiveAgrees(m, m', src, dst, now);
    var left := TakeOutcome(Live(m, src, now), fromLeft).1;
    WithAgrees(m, m', src, dst, src, left);
    LiveAgrees(With(m, src, left), With(m', src, left), src, dst, now);
  }

  lemma SMoveAgrees(m: Entries, m': Entries, src: Bytes, dst: Bytes, x: Bytes, now: nat, lru: nat)
    requires AgreeAt(m, m', src, dst)
    ensures var r, r' := SMoveFlat(m, src, dst, x, now, lru), SMoveFlat(m', src, dst, x, now, lru);
      AgreeAt(r.0, r'.0, src, dst) && r.1 == r'.1
  {
    LiveAgrees(m, m', src, dst, now);
    var left := TakeMemberOutcome(Live(m, src, now), x).1;
    WithAgrees(m, m', src, dst, src, left);
    LiveAgrees(With(m, src, left), With(m', src, left), src, dst, now);
  }

  /** What an operation does to its two keys depends on those two keys only. */
  lemma MovedAgrees(mv: Move, m: Entries, m': Entries, src: Bytes, dst: Bytes)
    requires AgreeAt(m, m', src, dst)
    ensures AgreeAt(Moved(mv, m, src, dst), Moved(mv, m', src, dst), src, dst)
  {
    match mv
    case Rename => RenameAgrees(m, m', src, dst);
    case RenameNx(now, lru) => RenameNxAgrees(m, m', src, dst, now, lru);
    case Copy(replace, now, lru) => CopyAgrees(m, m', src, dst, replace, now, lru);
    case LMove(fromLeft, toLeft, now, lru) => LMoveAgrees(m, m', src, dst, fromLeft, toLeft, now, lru);
    case SMove(x, now, lru) => SMoveAgrees(m, m', src, dst, x, now, lru);
  }

  /** No third key is touched. */
  lemma MovedFrame(mv: Move, m: Entries, src: Bytes, dst: Bytes, k: Bytes)
    requires k != src && k != dst
    ensures Find(Moved(mv, m, src, dst), k) == Find(m, k)
  {
    match mv
    case Rename =>
    case RenameNx(now, lru) => RenameNxFrame(m, src, dst, now, lru, k);
    case Copy(replace, now, lru) => CopyFrame(m, src, dst, replace, now, lru, k);
    case LMove(fromLeft, toLeft, now, lru) => LMoveFrame(m, src, dst, fromLeft, toLeft, now, lru);
    case SMove(x, now, lru) => SMoveFrame(m, src, dst, x, now, lru);
  }

  lemma EditsMake(m: Entries, w: Entries, src: Bytes, dst: Bytes)
    requires forall k :: k != src && k != dst ==> Find(w, k) == Find(m, k)
    ensures ApplyEdits(m, PairEdits(w, src, dst)) == w
  {
    var es: seq<Edit> := PairEdits(w, src, dst);
    var first: seq<Edit> := es[..1];
    assert first == [es[0]] && first[..0] == [];
    assert ApplyEdits(m, es[..1]) == With(m, src, Find(w, src));
    forall k ensures Find(ApplyEdits(m, es), k) == Find(w, k) {
      FindWith(m, src, Find(w, src), k);
      FindWith(ApplyEdits(m, es[..1]), dst, Find(w, dst), k);
    }
    SameFinds(ApplyEdits(m, es), w);
  }

  lemma ViewAgrees(m: Entries, need: seq<nat>, idx: Route, src: Bytes, dst: Bytes)
    requires idx(src) in need && idx(dst) in need
    ensures AgreeAt(View(m, need, idx), m, src, dst)
  {
  }

  /** On `m` and on what is seen of it, `f` reads and writes the two keys only. */
  ghost predicate Local(f: Entries -> Entries, src: Bytes, dst: Bytes, m: Entries, v: Entries) {
    && (forall k :: k != src && k != dst ==> Find(f(m), k) == Find(m, k))
    && (AgreeAt(v, m, src, dst) ==> AgreeAt(f(v), f(m), src, dst))
  }

  lemma PairOpWellFormed(f: Entries -> Entries, src: Bytes, dst: Bytes, idx: Route)
    ensures WellFormed(PairOp(f, src, dst, idx), idx)
  {
    var op := PairOp(f, src, dst, idx);
    forall v ensures |op.plan(v)| <= 2 && Inside(op.plan(v), op.need, idx) {
      assert op.plan(v) == PairEdits(f(v), src, dst);
    }
  }

  /** Locking two shards in index order and editing the two keys performs the whole change. */
  lemma PairOpPerforms(f: Entries -> Entries, src: Bytes, dst: Bytes, idx: Route, m: Entries)
    requires Local(f, src, dst, m, View(m, TwoShards(idx(src), idx(dst)), idx))
    ensures Apply(m, PairOp(f, src, dst, idx), idx) == f(m)
  {
    var op := PairOp(f, src, dst, idx);
    var v := View(m, op.need, idx);
    ViewAgrees(m, op.need, idx, src, dst);
    assert op.plan(v) == PairEdits(f(m), src, dst);
    EditsMake(m, f(m), src, dst);
  }

  /** The move `mv` as a change of a flat map. */
  function Change(mv: Move, src: Bytes, dst: Bytes): Entries -> Entries {
    m => Moved(mv, m, src, dst)
  }

  lemma ChangeIs(mv: Move, src: Bytes, dst: Bytes, m: Entries)
    ensures Change(mv, src, dst)(m) == Moved(mv, m, src, dst)
  {
  }

  lemma MoveIsLocal(mv: Move, src: Bytes, dst: Bytes, m: Entries, v: Entries)
    ensures Local(Change(mv, src, dst), src, dst, m, v)
  {
    if AgreeAt(v, m, src, dst) { MovedAgrees(mv, v, m, src, dst); }
    forall k | k != src && k != dst ensures Find(Moved(mv, m, src, dst), k) == Find(m, k) {
      MovedFrame(mv, m, src, dst, k);
    }
  }

  /** RENAME, RENAMENX, COPY, LMOVE and SMOVE under their two locks are the flat operations. */
  lemma MovePerforms(mv: Move, src: Bytes, dst: Bytes, idx: Route, m: Entries)
    ensures WellFormed(PairOp(Change(mv, src, dst), src, dst, idx), idx)
    ensures Apply(m, PairOp(Change(mv, src, dst), src, dst, idx), idx) == Change(mv, src, dst)(m)
  {
    MoveIsLocal(mv, src, dst, m, View(m, TwoShards(idx(src), idx(dst)), idx));
    PairOpWellFormed(Change(mv, src, dst), src, dst, idx);
    PairOpPerforms(Change(mv, src, dst), src, dst, idx, m);
  }

  // ---- Batches ----

  /** Try-lock sweeps before blocking: 64 spinning and 128 parking. */
  const SWEEPS: nat := 192

  function Puts(pairs: Pairs): (es: seq<Edit>)
    ensures |es| == |pairs| && forall i :: 0 <= i < |es| ==> es[i] == (pairs[i].0, Some(pairs[i].1))
  {
    seq(|pairs|, i requires 0 <= i < |pairs| => (pairs[i].0, Some(pairs[i].1)))
  }

  /** A batch over one shard takes its lock directly; a wider one sweeps first. */
  function MSetOp(pairs: Pairs, need: seq<nat>): Op {
    Op(true, need, if |need| == 1 then 0 else SWEEPS, v => Puts(pairs), |pairs|)
  }

  predicate AnyPresent(v: Entries, pairs: Pairs, now: nat) {
    exists i :: 0 <= i < |pairs| && Live(v, pairs[i].0, now).Some?
  }

  function MSetNxOp(pairs: Pairs, need: seq<nat>, now: nat): Op {
    Op(true, need, if |need| == 1 then 0 else SWEEPS, v => if AnyPresent(v, pairs, now) then [] else Puts(pairs), |pairs|)
  }

  ghost predicate Covers(need: seq<nat>, pairs: Pairs, idx: Route) {
    Climbing(need) && forall i :: 0 <= i < |pairs| ==> idx(pairs[i].0) in need
  }

  lemma {:induction false} PutsArePutAll(m: Entries, pairs: Pairs)
    ensures ApplyEdits(m, Puts(pairs)) == PutAll(m, pairs)
    decreases |pairs|
  {
    if pairs != [] {
      var n := |pairs| - 1;
      PutsArePutAll(m, pairs[..n]);
      assert Puts(pairs)[..n] == Puts(pairs[..n]);
      PutAllSnoc(m, pairs[..n], pairs[n]);
      assert pairs == pairs[..n] + [pairs[n]];
    }
  }

  /** MSET under its locks, in the order the sort has chosen. */
  lemma MSetPerforms(pairs: Pairs, order: Pairs, need: seq<nat>, idx: Route, m: Entries)
    requires Covers(need, order, idx) && Reorders(order, pairs)
    ensures WellFormed(MSetOp(order, need), idx)
    ensures StoredInSomeOrder(m, pairs, Apply(m, MSetOp(order, need), idx))
    ensures Agreeing(pairs) ==> Apply(m, MSetOp(order, need), idx) == PutAll(m, pairs)
  {
    PutsArePutAll(m, order);
    if Agreeing(pairs) { PutAllAnyOrder(m, order, pairs); }
  }

  lemma MSetNxWellFormed(pairs: Pairs, need: seq<nat>, now: nat, idx: Route)
    requires Covers(need, pairs, idx)
    ensures WellFormed(MSetNxOp(pairs, need, now), idx)
  {
  }

  lemma ViewShows(m: Entries, pairs: Pairs, need: seq<nat>, now: nat, idx: Route)
    requires Covers(need, pairs, idx)
    ensures AnyPresent(View(m, need, idx), pairs, now) <==> !AllAbsent(m, pairs, now)
  {
    var v := View(m, need, idx);
    assert forall i :: 0 <= i < |pairs| ==> Live(v, pairs[i].0, now) == Live(m, pairs[i].0, now);
    if AllAbsent(m, pairs, now) {
      assert forall i :: 0 <= i < |pairs| ==> pairs[i] in pairs;
    }
  }

  /** MSETNX under its locks, in the order the sort has chosen. */
  lemma MSetNxPerforms(pairs: Pairs, order: Pairs, need: seq<nat>, now: nat, idx: Route, m: Entries)
    requires Covers(need, order, idx) && Reorders(order, pairs)
    ensures WellFormed(MSetNxOp(order, need, now), idx)
    ensures !AllAbsent(m, pairs, now) ==> Apply(m, MSetNxOp(order, need, now), idx) == m
    ensures AllAbsent(m, pairs, now) ==> Apply(m, MSetNxOp(order, need, now), idx) == PutAll(m, order)
    ensures AllAbsent(m, pairs, now) ==> StoredInSomeOrder(m, pairs, Apply(m, MSetNxOp(order, need, now), idx))
    ensures AllAbsent(m, pairs, now) && Agreeing(pairs) ==> Apply(m, MSetNxOp(order, need, now), idx) == PutAll(m, pairs)
  {
    MSetNxWellFormed(order, need, now, idx);
    ViewShows(m, order, need, now, idx);
    SameMembers(order, pairs);
    PutsArePutAll(m, order);
    if Agreeing(pairs) { PutAllAnyOrder(m, order, pairs); }
  }
}
