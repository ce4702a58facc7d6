/** Whole runs of one shard under every mutator: the step relation, the bookkeeping and the slot bound. */
module StoreRuns {
  import opened ByteStrings
  import opened Packed
  import opened RespText
  import opened OrderedSets
  import opened Keyspace
  import opened ShardStore
  import opened Eviction

  datatype Op =
    | DoInsert(k: Bytes, e: Entry)
    | DoSet(k: Bytes, v: Bytes, now: nat, lru: nat)
    | DoEdit(k: Bytes, value: Value, now: nat)          // get_mut, write in place, report the delta
    | DoGetOrInsert(k: Bytes, e: Entry, now: nat, lru: nat)
    | DoIncr(k: Bytes, delta: i64, now: nat, lru: nat)
    | DoFastIncr(k: Bytes, delta: i64, now: nat)        // under the read lock, on the integer's own cell
    | DoExpireAt(k: Bytes, expiry: Option<nat>)
    | DoTouch(k: Bytes)                                 // the version alone, as a write through a kept reference
    | DoRemove(k: Bytes)
    | DoGet(k: Bytes, now: nat, lru: nat)
    | DoExpireBatch(max: u32, now: nat)
    | DoExpireCycle(now: nat)
    | DoEvict(policy: Policy, now: nat)
    | DoFlush

  /** A shard between two calls. */
  datatype Shard = Shard(entries: Entries, versions: Versions, index: set<Stamped>, live: nat)

  const EMPTY: Shard := Shard(map[], map[], {}, 0)

  // ---- The step relation ----

  /** The entries after a call whose outcome is determined. */
  ghost function EntriesAfter(op: Op, m: Entries): Entries {
    match op
    case DoInsert(k, e) => m[k := e]
    case DoSet(k, v, now, lru) => m[k := Entry(Str(v), None, if Live(m, k, now).Some? then lru else 0)]
    case DoEdit(k, value, now) =>
      (match Live(m, k, now) case Some(e) => m[k := e.(value := value)] case None => m - {k})
    case DoGetOrInsert(k, e, now, lru) =>
      m[k := match Live(m, k, now) case Some(x) => x.(lru := lru) case None => e]
    case DoIncr(k, delta, now, lru) =>
      (match IncrOutcome(Live(m, k, now), delta)
       case Incremented(n) => m[k := IncrEntry(Live(m, k, now), n, lru)]
       case Refused(_) => m)
    case DoFastIncr(k, delta, now) => FastEntries(m, k, delta, now)
    case DoExpireAt(k, expiry) => if k in m then m[k := m[k].(expiry := expiry)] else m
    case DoRemove(k) => m - {k}
    case DoGet(k, now, lru) =>
      (match Live(m, k, now) case Some(e) => m[k := e.(lru := lru)] case None => m - {k})
    case DoExpireBatch(max, now) => Reaped(m, now, max)
    case DoExpireCycle(now) => Reaped(m, now, CYCLE_CAP)
    case DoFlush => map[]
    case DoTouch(_) => m
    case DoEvict(_, _) => m
  }

  /** Eviction takes some eligible key if there is one; every other call has one outcome. */
  ghost predicate EntriesStep(op: Op, m: Entries, m': Entries) {
    if op.DoEvict? && HasVictim(op.policy, m, op.now) then
      exists k :: IsVictim(op.policy, m, op.now, k) && m' == m - {k}
    else
      m' == EntriesAfter(op, m)
  }

  /** The operation writes `j` and moves its slot on, in a shard holding `m`. */
  predicate Writes(op: Op, m: Entries, j: Bytes) {
    match op
    case DoInsert(k, _) => k == j
    case DoSet(k, _, _, _) => k == j
    case DoEdit(k, _, now) => k == j && Live(m, k, now).Some?
    case DoGetOrInsert(k, _, _, _) => k == j
    case DoIncr(k, delta, now, _) => k == j && IncrOutcome(Live(m, k, now), delta).Incremented?
    case DoExpireAt(k, _) => k == j && k in m
    case DoTouch(k) => k == j && k in m
    case _ => false
  }

  /** The version of `j` after a write: on from its slot, except that an insert of a vacant key starts over. */
  function VersionAfter(op: Op, m: Entries, vs: Versions, j: Bytes): nat {
    if j !in m && (op.DoInsert? || op.DoSet?) then 1 else if j in vs then Bump(vs[j]) else 1
  }

  /** Calls that may drop slots of absent keys. */
  predicate MayPrune(op: Op) {
    op.DoRemove? || op.DoEdit? || op.DoGet? || op.DoExpireBatch? || op.DoExpireCycle? || op.DoEvict? || op.DoFlush?
  }

  /**
   Every live key has a slot. A write sets the slot as above and a removal moves it on by one; every
   other slot stays as it is, except that slots of absent keys may go where pruning is possible.
   */
  ghost predicate VersionsStep(op: Op, m: Entries, vs: Versions, m': Entries, vs': Versions) {
    && m'.Keys <= vs'.Keys
    && (forall j :: j in vs' ==>
          if Writes(op, m, j) then j in m' && vs'[j] == VersionAfter(op, m, vs, j)
          else j in vs && vs'[j] == if j in m && j !in m' then Bump(vs[j]) else vs[j])
    && (MayPrune(op) || vs.Keys <= vs'.Keys)
    && (op.DoFlush? ==> vs' == map[])
  }

  /** Removals step versions as they should. */
  lemma ShedSteps(op: Op, m: Entries, vs: Versions, m': Entries, vs': Versions)
    requires Shed(m, vs, m', vs') && MayPrune(op) && !op.DoFlush? && forall j :: !Writes(op, m, j)
    ensures VersionsStep(op, m, vs, m', vs')
  {
  }

  ghost predicate Steps(op: Op, a: Shard, b: Shard) {
    EntriesStep(op, a.entries, b.entries) && VersionsStep(op, a.entries, a.versions, b.entries, b.versions)
  }

  /** `tr` starts with an empty shard and takes one step per operation. */
  ghost predicate IsTrace(ops: seq<Op>, tr: seq<Shard>) {
    |tr| == |ops| + 1 &&
    if ops == [] then tr[0] == EMPTY
    else
      var n := |ops| - 1;
      IsTrace(ops[..n], tr[..n + 1]) && Steps(ops[n], tr[n], tr[n + 1])
  }

  /** The most keys present at any point of the trace. */
  ghost function MostKeys(tr: seq<Shard>): nat {
    if tr == [] then 0 else Max(MostKeys(tr[..|tr| - 1]), |tr[|tr| - 1].entries|)
  }

  /** The index, the counter and the slots are exact, and the slots are bounded by the peak `p` so far. */
  ghost predicate Sound(s: Shard, p: nat) {
    && IndexExact(s.index, s.entries)
    && s.live == TotalSize(s.entries)
    && s.entries.Keys <= s.versions.Keys
    && |s.versions| <= |s.entries| + Max(p, PRUNE_MIN) + (PRUNE_INTERVAL - 1)
  }

  ghost predicate AllSound(tr: seq<Shard>) {
    tr == [] || (AllSound(tr[..|tr| - 1]) && Sound(tr[|tr| - 1], MostKeys(tr)))
  }

  // ---- Every call of the shard is a step ----

  function Snap(db: Database): Shard
    reads db
  {
    Shard(db.entries, db.keyVersions, db.expiryIndex, db.liveBytes)
  }

  /** Slots stay few, and the peak is the old one or the present size. */
  ghost predicate Settled(db: Database, p: nat)
    reads db
  {
    db.Valid() && db.SlotsBounded() && (db.peak == p || db.peak == Max(p, |db.entries|))
  }

  /** A write to `k` adds at most one slot and moves only `k`'s version. */
  lemma PutOutcome(op: Op, m: Entries, vs: Versions, r: nat, p: nat, k: Bytes, e: Entry, vs': Versions)
    requires FewSlots(m, vs, r, p) && m.Keys <= vs.Keys
    requires vs' == vs[k := VersionAfter(op, m, vs, k)]
    requires Writes(op, m, k) && forall j :: Writes(op, m, j) ==> j == k
    ensures FewSlots(m[k := e], vs', r, Max(p, |m[k := e]|))
    ensures VersionsStep(op, m, vs, m[k := e], vs')
  {
    PutFewSlots(m, vs, r, p, k, e, vs');
    PutSteps(op, m, vs, k, e, vs');
  }

  lemma PutSteps(op: Op, m: Entries, vs: Versions, k: Bytes, e: Entry, vs': Versions)
    requires m.Keys <= vs.Keys && vs' == vs[k := VersionAfter(op, m, vs, k)]
    requires Writes(op, m, k) && forall j :: Writes(op, m, j) ==> j == k
    ensures VersionsStep(op, m, vs, m[k := e], vs')
  {
  }

  lemma RefreshFewSlots(m: Entries, vs: Versions, r: nat, p: nat, k: Bytes, e: Entry)
    requires FewSlots(m, vs, r, p) && m.Keys <= vs.Keys && k in m
    ensures FewSlots(m[k := e], vs, r, Max(p, |m[k := e]|))
  {
    assert vs.Keys == vs.Keys + {k};
    PutFewSlots(m, vs, r, p, k, e, vs);
  }

  method PerformPut(db: Database, op: Op)
    requires db.Valid() && db.SlotsBounded() && (op.DoInsert? || op.DoSet? || op.DoGetOrInsert?)
    modifies db
    ensures Settled(db, old(db.peak)) && Steps(op, old(Snap(db)), Snap(db))
  {
    ghost var m, vs, r, p := db.entries, db.keyVersions, db.removalsSincePrune, db.peak;
    match op {
      case DoInsert(k, e) => db.Insert(k, e);
      case DoSet(k, v, now, lru) => db.SetPlain(k, v, now, lru);
      case DoGetOrInsert(k, e, now, lru) => var _ := db.GetOrInsertWith(k, e, now, lru);
    }
    PutOutcome(op, m, vs, r, p, op.k, db.entries[op.k], db.keyVersions);
  }

  method PerformIncr(db: Database, op: Op)
    requires db.Valid() && db.SlotsBounded() && op.DoIncr?
    modifies db
    ensures Settled(db, old(db.peak)) && Steps(op, old(Snap(db)), Snap(db))
  {
    ghost var m, vs, r, p := db.entries, db.keyVersions, db.removalsSincePrune, db.peak;
    var n := db.IncrInt(op.k, op.delta, op.now, op.lru);
    if n.Incremented? { PutOutcome(op, m, vs, r, p, op.k, db.entries[op.k], db.keyVersions); }
  }

  method PerformFastIncr(db: Database, op: Op)
    requires db.Valid() && db.SlotsBounded() && op.DoFastIncr?
    modifies db
    ensures Settled(db, old(db.peak)) && Steps(op, old(Snap(db)), Snap(db))
  {
    ghost var m := db.entries;
    var _ := db.FastIncr(op.k, op.delta, op.now);
    if op.k in m { UpdatedCard(m, op.k, db.entries[op.k]); }
    assert db.entries.Keys == m.Keys;
  }

  method PerformExpireAt(db: Database, op: Op)
    requires db.Valid() && db.SlotsBounded() && op.DoExpireAt?
    modifies db
    ensures Settled(db, old(db.peak)) && Steps(op, old(Snap(db)), Snap(db))
  {
    ghost var m, vs, r, p := db.entries, db.keyVersions, db.removalsSincePrune, db.peak;
    db.SetExpiry(op.k, op.expiry);
    if op.k in m { PutOutcome(op, m, vs, r, p, op.k, db.entries[op.k], db.keyVersions); }
  }

  method PerformGet(db: Database, op: Op)
    requires db.Valid() && db.SlotsBounded() && op.DoGet?
    modifies db
    ensures Settled(db, old(db.peak)) && Steps(op, old(Snap(db)), Snap(db))
  {
    ghost var m, vs, r, p := db.entries, db.keyVersions, db.removalsSincePrune, db.peak;
    var e := db.Get(op.k, op.now, op.lru);
    ShedSteps(op, m, vs, db.entries, db.keyVersions);
    if e.Some? { RefreshFewSlots(m, vs, r, p, op.k, e.value); }
  }

  method PerformEdit(db: Database, op: Op)
    requires db.Valid() && db.SlotsBounded() && op.DoEdit?
    modifies db
    ensures Settled(db, old(db.peak)) && Steps(op, old(Snap(db)), Snap(db))
  {
    ghost var m, vs := db.entries, db.keyVersions;
    var e := db.GetMut(op.k, op.now);
    if e.None? {
      ShedSteps(op, m, vs, db.entries, db.keyVersions);
    } else {
      UpdatedCard(db.entries, op.k, db.entries[op.k].(value := op.value));
      db.Edit(op.k, op.value, Payload(op.value) - Payload(e.value.value));
    }
  }

  method PerformTouch(db: Database, op: Op)
    requires db.Valid() && db.SlotsBounded() && op.DoTouch?
    modifies db
    ensures Settled(db, old(db.peak)) && Steps(op, old(Snap(db)), Snap(db))
  {
    if op.k in db.entries {
      BumpedCard(db.keyVersions, op.k);
      db.Touch(op.k);
    }
  }

  method PerformRemove(db: Database, op: Op)
    requires db.Valid() && db.SlotsBounded() && op.DoRemove?
    modifies db
    ensures Settled(db, old(db.peak)) && Steps(op, old(Snap(db)), Snap(db))
  {
    ghost var m, vs := db.entries, db.keyVersions;
    var _ := db.Remove(op.k);
    ShedSteps(op, m, vs, db.entries, db.keyVersions);
  }

  method PerformCycle(db: Database, op: Op)
    requires db.Valid() && db.SlotsBounded() && (op.DoExpireCycle? || op.DoExpireBatch?)
    modifies db
    ensures Settled(db, old(db.peak)) && Steps(op, old(Snap(db)), Snap(db))
  {
    ghost var m, vs := db.entries, db.keyVersions;
    var ordered := InOrder(db.expiryIndex);
    if op.DoExpireCycle? {
      ReapedBy(db.entries, db.expiryIndex, ordered, op.now, CYCLE_CAP);
      var _, _ := db.ExpireCycle(op.now, ordered);
    } else {
      ReapedBy(db.entries, db.expiryIndex, ordered, op.now, op.max);
      var _ := db.ExpireBatch(op.max, op.now, ordered);
    }
    ShedSteps(op, m, vs, db.entries, db.keyVersions);
  }

  method PerformEvict(db: Database, op: Op)
    requires db.Valid() && db.SlotsBounded() && op.DoEvict?
    modifies db
    ensures Settled(db, old(db.peak)) && Steps(op, old(Snap(db)), Snap(db))
  {
    ghost var m, vs := db.entries, db.keyVersions;
    var _ := EvictOne(db, op.policy, op.now);
    ShedSteps(op, m, vs, db.entries, db.keyVersions);
  }

  method Perform(db: Database, op: Op)
    requires db.Valid() && db.SlotsBounded()
    modifies db
    ensures Settled(db, old(db.peak)) && Steps(op, old(Snap(db)), Snap(db))
  {
    match op {
      case DoIncr(_, _, _, _) => PerformIncr(db, op);
      case DoFastIncr(_, _, _) => PerformFastIncr(db, op);
      case DoExpireAt(_, _) => PerformExpireAt(db, op);
      case DoGet(_, _, _) => PerformGet(db, op);
      case DoEdit(_, _, _) => PerformEdit(db, op);
      case DoInsert(_, _) => PerformPut(db, op);
      case DoSet(_, _, _, _) => PerformPut(db, op);
      case DoGetOrInsert(_, _, _, _) => PerformPut(db, op);
      case DoRemove(_) => PerformRemove(db, op);
      case DoExpireCycle(_) => PerformCycle(db, op);
      case DoExpireBatch(_, _) => PerformCycle(db, op);
      case DoEvict(_, _) => PerformEvict(db, op);
      case DoTouch(k) => PerformTouch(db, op);
      case DoFlush => db.Flush();
    }
  }

  // ---- Whole runs ----

  /** A trace so far: sound, and ending in what the shard holds. */
  ghost predicate Follows(db: Database, ops: seq<Op>, tr: seq<Shard>)
    reads db
  {
    && db.Valid() && db.SlotsBounded()
    && IsTrace(ops, tr) && AllSound(tr) && tr[|ops|] == Snap(db) && db.peak <= MostKeys(tr)
  }

  lemma TraceMore(ops: seq<Op>, tr: seq<Shard>, op: Op, s: Shard)
    requires IsTrace(ops, tr) && Steps(op, tr[|ops|], s)
    ensures IsTrace(ops + [op], tr + [s])
  {
    var ops', tr' := ops + [op], tr + [s];
    assert ops'[..|ops|] == ops && tr'[..|tr|] == tr;
    assert ops'[|ops|] == op && tr'[|ops|] == tr[|ops|] && tr'[|tr|] == s;
  }

  lemma SoundMore(tr: seq<Shard>, s: Shard)
    requires AllSound(tr) && Sound(s, Max(MostKeys(tr), |s.entries|))
    ensures AllSound(tr + [s]) && MostKeys(tr + [s]) == Max(MostKeys(tr), |s.entries|)
  {
    assert (tr + [s])[..|tr|] == tr;
  }

  /** Performs `ops` and notes the shard after each. */
  method RunFrom(db: Database, ghost done: seq<Op>, ops: seq<Op>, tr: seq<Shard>) returns (tr': seq<Shard>, ghost all: seq<Op>)
    requires Follows(db, done, tr)
    modifies db
    ensures all == done + ops && Follows(db, all, tr')
    decreases |ops|
  {
    tr', all := tr, done;
    if ops != [] {
      tr' := StepOnce(db, done, ops[0], tr);
      tr', all := RunFrom(db, done + [ops[0]], ops[1..], tr');
    }
  }

  method StepOnce(db: Database, ghost done: seq<Op>, op: Op, tr: seq<Shard>) returns (tr': seq<Shard>)
    requires Follows(db, done, tr)
    modifies db
    ensures Follows(db, done + [op], tr')
  {
    Perform(db, op);
    TraceMore(done, tr, op, Snap(db));
    SoundMore(tr, Snap(db));
    tr' := tr + [Snap(db)];
  }

  method NewShard() returns (db: Database, tr: seq<Shard>)
    ensures fresh(db) && Follows(db, [], tr)
  {
    db := new Database();
    tr := [Snap(db)];
    assert tr[..0] == [] && Snap(db) == EMPTY;
  }

  /**
   Every run from an empty shard, under every mutator: the shards after each call are a trace of the
   step relation, and in each of them index, byte counter and slots are exact and the slots bounded.
   */
  method RunShard(ops: seq<Op>) returns (tr: seq<Shard>)
    ensures IsTrace(ops, tr) && AllSound(tr)
  {
    var db, start := NewShard();
    ghost var all;
    tr, all := RunFrom(db, [], ops, start);
    assert all == ops;
  }

  /** A trace cut off after `j` operations is a trace. */
  lemma {:induction false} TracePrefix(ops: seq<Op>, tr: seq<Shard>, j: nat)
    requires IsTrace(ops, tr) && j <= |ops|
    ensures IsTrace(ops[..j], tr[..j + 1])
    decreases |ops|
  {
    var n := |ops|;
    if j == n {
      assert ops[..j] == ops && tr[..j + 1] == tr;
    } else {
      TracePrefix(ops[..n - 1], tr[..n], j);
      assert ops[..n - 1][..j] == ops[..j] && tr[..n][..j + 1] == tr[..j + 1];
    }
  }

  lemma TraceStep(ops: seq<Op>, tr: seq<Shard>, i: nat)
    requires IsTrace(ops, tr) && i < |ops|
    ensures Steps(ops[i], tr[i], tr[i + 1])
  {
    TracePrefix(ops, tr, i + 1);
    assert ops[..i + 1][i] == ops[i] && tr[..i + 2][i] == tr[i] && tr[..i + 2][i + 1] == tr[i + 1];
  }

  function Last(tr: seq<Shard>): Shard
    requires tr != []
  {
    tr[|tr| - 1]
  }

  /** Every shard of a trace has a slot for each of its keys. */
  lemma TraceSlots(ops: seq<Op>, tr: seq<Shard>)
    requires IsTrace(ops, tr)
    ensures Last(tr).entries.Keys <= Last(tr).versions.Keys
  {
  }
}
