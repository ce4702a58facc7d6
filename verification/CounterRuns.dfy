/** INCRBY and its relatives: what one call answers, and what any number of them add up to. */
module CounterRuns {
  import opened ByteStrings
  import opened RespText
  import opened Keyspace
  import opened ShardStore
  import opened FlatOps
  import opened StoreRuns
  import opened WatchRuns

  /** The entry stands for the number `n`: an integer, a numeral in range, or, being absent, 0. */
  ghost predicate StandsFor(o: Option<Entry>, n: int) {
    match o
    case None => n == 0
    case Some(e) =>
      match e.value
      case Int(i, _) => n == i
      case Str(s) => Spells(s, n) && InI64(n)
      case _ => false
  }

  ghost predicate IsNumeric(o: Option<Entry>) {
    exists n :: StandsFor(o, n)
  }

  /** The number the code finds, if any. */
  function Found(o: Option<Entry>): Option<i64> {
    match o
    case None => Some(0)
    case Some(e) =>
      match e.value
      case Int(i, _) => Some(i)
      case Str(s) => ParseI64(s)
      case _ => None
  }

  lemma FoundIs(o: Option<Entry>, n: int)
    ensures StandsFor(o, n) <==> Found(o) == Some(n)
  {
    if o.Some? && o.value.value.Str? { ParsesNumerals(o.value.value.bytes, n); }
  }

  /** The sum if it is in range. */
  predicate AnswersFrom(cur: Option<Entry>, delta: i64, n: int) {
    IncrOutcome(cur, delta) == if InI64(n + delta) then Incremented(n + delta) else Refused(Overflow)
  }

  /**
   What one increment answers, for every entry and every delta: the sum from the number the entry stands
   for, if it is in range; and for an entry that stands for none, what is wrong with it.
   */
  lemma IncrAnswers(cur: Option<Entry>, delta: i64, n: int)
    ensures StandsFor(cur, n) ==> AnswersFrom(cur, delta, n)
    ensures !IsNumeric(cur) ==> cur.Some? && IncrOutcome(cur, delta) == Refused(if cur.value.value.Str? then NotInteger else WrongType)
  {
    FoundIs(cur, n);
    if Found(cur).Some? { FoundIs(cur, Found(cur).value); }
  }

  /** The new entry stands for the answer and keeps the deadline the live one had. */
  lemma IncrStores(cur: Option<Entry>, n: i64, lru: nat)
    ensures StandsFor(Some(IncrEntry(cur, n, lru)), n)
    ensures IncrEntry(cur, n, lru).expiry == if cur.Some? then cur.value.expiry else None
  {
  }

  // ---- Whole runs ----

  /** The step is an increment of `k`, on either path, made before any deadline of `k` has passed. */
  predicate IsIncrement(op: Op, m: Entries, k: Bytes) {
    (op.DoIncr? || op.DoFastIncr?) && op.k == k && Live(m, k, op.now) == Find(m, k)
  }

  ghost predicate Permitted(op: Op, a: Shard, b: Shard, k: Bytes) {
    Moves(op, a, b, k) ==> IsIncrement(op, a.entries, k)
  }

  /** What the step adds to `k`: its delta, unless it is refused. */
  function Added(op: Op, a: Shard, b: Shard, k: Bytes): int {
    if Moves(op, a, b, k) && (op.DoIncr? || op.DoFastIncr?) then op.delta else 0
  }

  /**
   Between shards `i` and `j`, nothing but increments writes or removes `k`, and the deltas of those that
   were not refused come to `sum`.
   */
  ghost predicate Tallies(ops: seq<Op>, tr: seq<Shard>, i: nat, j: nat, k: Bytes, sum: int)
    requires |tr| == |ops| + 1 && j < |tr|
  {
    if j <= i then sum == 0
    else
      && Permitted(ops[j - 1], tr[j - 1], tr[j], k)
      && Tallies(ops, tr, i, j - 1, k, sum - Added(ops[j - 1], tr[j - 1], tr[j], k))
  }

  /** A key that has an entry keeps it and its deadline; one that has none gets none with a deadline. */
  predicate SameDeadline(a: Option<Entry>, b: Option<Entry>) {
    (a.Some? ==> b.Some? && b.value.expiry == a.value.expiry) && (a.None? && b.Some? ==> b.value.expiry == None)
  }

  lemma CounterStep(op: Op, a: Shard, b: Shard, k: Bytes, n: int)
    requires Steps(op, a, b) && Permitted(op, a, b, k) && StandsFor(Find(a.entries, k), n)
    ensures StandsFor(Find(b.entries, k), n + Added(op, a, b, k)) && SameDeadline(Find(a.entries, k), Find(b.entries, k))
  {
    if Moves(op, a, b, k) {
      assert b.entries == EntriesAfter(op, a.entries);
      IncrAnswers(Find(a.entries, k), op.delta, n);
    } else {
      UnmovedKeeps(op, a, b, k);
    }
  }

  lemma CounterAt(ops: seq<Op>, tr: seq<Shard>, j: nat, k: Bytes, n: int)
    requires IsTrace(ops, tr) && j < |ops| && Permitted(ops[j], tr[j], tr[j + 1], k)
    ensures StandsFor(Find(tr[j].entries, k), n) ==>
      && StandsFor(Find(tr[j + 1].entries, k), n + Added(ops[j], tr[j], tr[j + 1], k))
      && SameDeadline(Find(tr[j].entries, k), Find(tr[j + 1].entries, k))
  {
    TraceStep(ops, tr, j);
    if StandsFor(Find(tr[j].entries, k), n) { CounterStep(ops[j], tr[j], tr[j + 1], k, n); }
  }

  /**
   A counter adds up: in every trace in which nothing but increments touches `k`, refused ones and the
   traffic on other keys included, `k` ends as the number it was plus the sum of all deltas taken,
   and with the deadline it had.
   */
  lemma {:induction false} CounterAddsUp(ops: seq<Op>, tr: seq<Shard>, i: nat, j: nat, k: Bytes, n: int, sum: int)
    requires IsTrace(ops, tr) && i <= j < |tr| && Tallies(ops, tr, i, j, k, sum) && StandsFor(Find(tr[i].entries, k), n)
    ensures StandsFor(Find(tr[j].entries, k), n + sum) && SameDeadline(Find(tr[i].entries, k), Find(tr[j].entries, k))
    decreases j
  {
    if i < j {
      var before := sum - Added(ops[j - 1], tr[j - 1], tr[j], k);
      CounterAddsUp(ops, tr, i, j - 1, k, n, before);
      CounterAt(ops, tr, j - 1, k, n + before);
    }
  }

  /** And the next increment answers the number plus the sum plus its own delta, if that is in range. */
  lemma IncrementAnswersSum(ops: seq<Op>, tr: seq<Shard>, i: nat, j: nat, k: Bytes, n: int, sum: int, op: Op)
    requires IsTrace(ops, tr) && i <= j < |tr| && Tallies(ops, tr, i, j, k, sum) && StandsFor(Find(tr[i].entries, k), n)
    requires IsIncrement(op, tr[j].entries, k)
    ensures AnswersFrom(Live(tr[j].entries, k, op.now), op.delta, n + sum)
  {
    CounterAddsUp(ops, tr, i, j, k, n, sum);
    IncrAnswers(Live(tr[j].entries, k, op.now), op.delta, n + sum);
  }
}
