/**
 WATCH: a client reads the version of a key, other clients run any operations, and EXEC compares the
 version then. What the second reading is, and exactly when a change goes unnoticed.
 */
module WatchRuns {
  import opened ByteStrings
  import opened RespText
  import opened Keyspace
  import opened ShardStore
  import opened FlatOps
  import opened StoreRuns

  function Wrap(n: int): nat {
    n % TWO_64
  }

  lemma WrapSum(a: int, b: int)
    ensures Wrap(Wrap(a) + b) == Wrap(a + b)
  {
    assert a == a / TWO_64 * TWO_64 + Wrap(a);
  }

  lemma SameWrap(a: int, b: int)
    ensures Wrap(a) == Wrap(b) <==> Wrap(a - b) == 0
  {
    assert a == a / TWO_64 * TWO_64 + Wrap(a) && b == b / TWO_64 * TWO_64 + Wrap(b);
    assert a - b == (a / TWO_64 - b / TWO_64) * TWO_64 + (Wrap(a) - Wrap(b));
  }

  /** The version slot of `k`, or 0 without one. */
  function Slot(s: Shard, k: Bytes): nat {
    if k in s.versions then s.versions[k] else 0
  }

  /** How many increments the cell of an integer has counted itself. */
  function Cell(m: Entries, k: Bytes): nat {
    if k in m && m[k].value.Int? then m[k].value.fastWrites else 0
  }

  /** What is on record for `k`: slot and cell together. */
  function Reading(s: Shard, k: Bytes): nat {
    Wrap(Slot(s, k) + Cell(s.entries, k))
  }

  /** `key_version`: the cell counts while the integer is live. */
  function KeyVersion(s: Shard, k: Bytes, now: nat): nat {
    Wrap(Slot(s, k) + if HasCell(s.entries, k, now) then s.entries[k].value.fastWrites else 0)
  }

  /** The count of an integer past its deadline, which `key_version` leaves out. */
  function Hidden(s: Shard, k: Bytes, now: nat): nat {
    if HasCell(s.entries, k, now) then 0 else Cell(s.entries, k)
  }

  /** The step counts a write in the cell of `k`. */
  predicate CellWrites(op: Op, m: Entries, k: Bytes) {
    op.DoFastIncr? && op.k == k && HasCell(m, k, op.now) && IncrOutcome(Live(m, k, op.now), op.delta).Incremented?
  }

  /** The step writes `k` or removes it: its version is meant to move on by one. */
  predicate Moves(op: Op, a: Shard, b: Shard, k: Bytes) {
    Writes(op, a.entries, k) || CellWrites(op, a.entries, k) || (k in a.entries && k !in b.entries)
  }

  /** The step inserts `k` where there was none, which sets its slot to 1. */
  predicate InsertsVacant(op: Op, m: Entries, k: Bytes) {
    (op.DoInsert? || op.DoSet?) && op.k == k && k !in m
  }

  /** The step replaces a counted cell by something that has counted otherwise. */
  predicate Swaps(op: Op, a: Shard, b: Shard, k: Bytes) {
    !CellWrites(op, a.entries, k) && Cell(b.entries, k) != Cell(a.entries, k)
  }

  /**
   The step makes the version start over: an insert of a vacant key at 1, the loss of the slot at 0,
   the loss of a cell at what the slot says.
   */
  function Restart(op: Op, a: Shard, b: Shard, k: Bytes): Option<nat> {
    if InsertsVacant(op, a.entries, k) then Some(Wrap(1 + Cell(b.entries, k)))
    else if k in a.versions && k !in b.versions then Some(0)
    else if Swaps(op, a, b, k) then Some(Wrap(Slot(a, k) + 1 + Cell(b.entries, k)))
    else None
  }

  // ---- One step ----

  /** The slot is set, lost, moved on or kept as it should. */
  ghost predicate SlotRight(op: Op, a: Shard, b: Shard, k: Bytes) {
    && (k in b.entries ==> k in b.versions)
    && Slot(b, k) ==
       if InsertsVacant(op, a.entries, k) then 1
       else if k in a.versions && k !in b.versions then 0
       else if Writes(op, a.entries, k) || (k in a.entries && k !in b.entries) then Bump(Slot(a, k))
       else Slot(a, k)
  }

  lemma SlotStep(op: Op, a: Shard, b: Shard, k: Bytes)
    requires Steps(op, a, b) && a.entries.Keys <= a.versions.Keys
    ensures SlotRight(op, a, b, k)
  {
    if k in b.versions {
      assert if Writes(op, a.entries, k) then b.versions[k] == VersionAfter(op, a.entries, a.versions, k) else k in a.versions;
    } else {
      assert k !in b.entries;
    }
  }

  /** The cell counts its own writes and changes with no other step than those that move the version. */
  ghost predicate CellRight(op: Op, a: Shard, b: Shard, k: Bytes) {
    && (CellWrites(op, a.entries, k) ==> Cell(b.entries, k) == Cell(a.entries, k) + 1 && k in b.entries)
    && (Cell(b.entries, k) != Cell(a.entries, k) ==> Moves(op, a, b, k))
  }

  lemma CellStep(op: Op, a: Shard, b: Shard, k: Bytes)
    requires Steps(op, a, b)
    ensures CellRight(op, a, b, k)
  {
    if Moves(op, a, b, k) {
      if CellWrites(op, a.entries, k) { assert b.entries == EntriesAfter(op, a.entries); }
    } else {
      UnmovedKeeps(op, a, b, k);
    }
  }

  /** A step that does not move the version leaves the key's entry as it is. */
  lemma UnmovedKeeps(op: Op, a: Shard, b: Shard, k: Bytes)
    requires Steps(op, a, b) && !Moves(op, a, b, k)
    ensures SameValue(Find(a.entries, k), Find(b.entries, k))
  {
    var m, m' := a.entries, b.entries;
    if op.DoEvict? {
      assert forall j :: j in m' ==> j in m && m'[j] == m[j];
    } else {
      assert m' == EntriesAfter(op, m);
    }
  }

  lemma Carry(x: nat, c: nat)
    ensures Wrap(Bump(x) + c) == Bump(Wrap(x + c)) == Wrap(x + 1 + c)
  {
    WrapSum(x + 1, c);
    WrapSum(x + c, 1);
  }

  /** One step changes the reading as it should. */
  ghost predicate StepReads(op: Op, a: Shard, b: Shard, k: Bytes) {
    Reading(b, k) == match Restart(op, a, b, k)
      case Some(v) => v
      case None => if Moves(op, a, b, k) then Bump(Reading(a, k)) else Reading(a, k)
  }

  lemma ReadingStep(op: Op, a: Shard, b: Shard, k: Bytes)
    requires Steps(op, a, b) && a.entries.Keys <= a.versions.Keys
    ensures StepReads(op, a, b, k)
  {
    SlotStep(op, a, b, k);
    CellStep(op, a, b, k);
    SlotAndCell(op, a, b, k);
  }

  lemma SlotAndCell(op: Op, a: Shard, b: Shard, k: Bytes)
    requires SlotRight(op, a, b, k) && CellRight(op, a, b, k)
    ensures StepReads(op, a, b, k)
  {
    Carry(Slot(a, k), Cell(b.entries, k));
    Carry(Slot(a, k), Cell(a.entries, k));
  }

  /**
   A write to a present key, or its removal, goes unnoticed at once exactly when the cell it discards
   had counted one write more than the new one has.
   */
  lemma WriteMissedIff(op: Op, a: Shard, b: Shard, k: Bytes)
    requires Steps(op, a, b) && a.entries.Keys <= a.versions.Keys
    requires k in a.entries && Moves(op, a, b, k) && k in b.versions
    ensures Reading(b, k) == Reading(a, k) <==>
      !CellWrites(op, a.entries, k) && Wrap(Cell(a.entries, k)) == Wrap(1 + Cell(b.entries, k))
  {
    SlotStep(op, a, b, k);
    CellStep(op, a, b, k);
    SameAfter(Slot(a, k), Cell(a.entries, k), Cell(b.entries, k));
  }

  lemma SameAfter(x: nat, c: nat, d: nat)
    ensures Wrap(Bump(x) + d) == Wrap(x + c) <==> Wrap(c) == Wrap(1 + d)
    ensures Wrap(x + c + 1) != Wrap(x + c)
  {
    WrapSum(x + 1, d);
    SameWrap(1 + d, c);
    SameWrap(x + 1 + d, x + c);
    SameWrap(x + c + 1, x + c);
  }

  // ---- Whole windows ----

  /** Where a reading comes from: the shard it counts on from, the version there, and the moves since. */
  datatype Origin = Origin(at: nat, base: nat, moves: nat)

  /** The last restart in the window from shard `i`, or shard `i` itself. */
  function OriginOf(ops: seq<Op>, tr: seq<Shard>, i: nat, k: Bytes): (o: Origin)
    requires |tr| == |ops| + 1 && i < |tr|
  {
    var n := |ops|;
    if n == i then Origin(i, Reading(tr[i], k), 0)
    else OriginNext(OriginOf(ops[..n - 1], tr[..n], i, k), n, ops[n - 1], tr[n - 1], tr[n], k)
  }

  /** The reading in `b` is the version at the origin plus the moves since; an origin at `i` is the reading in `a`. */
  ghost predicate Explains(o: Origin, i: nat, a: Shard, b: Shard, k: Bytes) {
    i <= o.at && Reading(b, k) == Wrap(o.base + o.moves) && (o.at == i ==> o.base == Reading(a, k))
  }

  /** The origin after one more step. */
  function OriginNext(o: Origin, n: nat, op: Op, a: Shard, b: Shard, k: Bytes): Origin {
    match Restart(op, a, b, k)
    case Some(v) => Origin(n, v, 0)
    case None => if Moves(op, a, b, k) then o.(moves := o.moves + 1) else o
  }

  lemma ExplainsNext(o: Origin, i: nat, n: nat, a: Shard, b: Shard, c: Shard, k: Bytes, op: Op)
    requires Explains(o, i, a, b, k) && StepReads(op, b, c, k) && i < n
    ensures Explains(OriginNext(o, n, op, b, c, k), i, a, c, k)
  {
    WrapSum(o.base + o.moves, 1);
  }

  /** Every reading is the version at the last restart, or the one read before, plus the moves since. */
  lemma {:induction false} OriginReads(ops: seq<Op>, tr: seq<Shard>, i: nat, k: Bytes)
    requires IsTrace(ops, tr) && i < |tr|
    ensures Explains(OriginOf(ops, tr, i, k), i, tr[i], Last(tr), k)
    decreases |ops|
  {
    var n := |ops|;
    if n > i {
      OriginReads(ops[..n - 1], tr[..n], i, k);
      TraceSlots(ops[..n - 1], tr[..n]);
      ReadingStep(ops[n - 1], tr[n - 1], tr[n], k);
      ExplainsNext(OriginOf(ops[..n - 1], tr[..n], i, k), i, n, tr[i], tr[n - 1], tr[n], k, ops[n - 1]);
    }
  }

  /**
   WATCH in `a` at time `t`, EXEC in `b` at time `u`. EXEC reads the version at the origin plus the
   moves since, the count of an integer past its deadline apart; if nothing started over, it reads
   what WATCH read if and only if the moves make up for what a deadline hides, modulo 2^64.
   */
  ghost predicate Compares(o: Origin, i: nat, a: Shard, b: Shard, k: Bytes, t: nat, u: nat) {
    && KeyVersion(b, k, u) == Wrap(o.base + o.moves - Hidden(b, k, u))
    && (o.at == i ==>
          (KeyVersion(b, k, u) == KeyVersion(a, k, t) <==> Wrap(o.moves - Hidden(b, k, u) + Hidden(a, k, t)) == 0))
  }

  /** The exact condition, for every window of every run. */
  lemma WatchSeesSameIff(ops: seq<Op>, tr: seq<Shard>, i: nat, k: Bytes, t: nat, u: nat)
    requires IsTrace(ops, tr) && i < |tr|
    ensures Compares(OriginOf(ops, tr, i, k), i, tr[i], Last(tr), k, t, u)
  {
    OriginReads(ops, tr, i, k);
    Compared(OriginOf(ops, tr, i, k), i, tr[i], Last(tr), k, t, u);
  }

  lemma Compared(o: Origin, i: nat, a: Shard, b: Shard, k: Bytes, t: nat, u: nat)
    requires Explains(o, i, a, b, k)
    ensures Compares(o, i, a, b, k, t, u)
  {
    KeyVersionIs(a, k, t);
    KeyVersionIs(b, k, u);
    var h: int, g: int := Hidden(a, k, t), Hidden(b, k, u);
    WrapSum(o.base + o.moves, -g);
    SameWrap(o.base + o.moves - g, o.base - h);
  }

  /** What `key_version` answers, against what is on record. */
  lemma KeyVersionIs(s: Shard, k: Bytes, now: nat)
    ensures KeyVersion(s, k, now) == Wrap(Reading(s, k) - Hidden(s, k, now))
  {
    WrapSum(Slot(s, k) + Cell(s.entries, k), 0 - Hidden(s, k, now));
  }

  /** Nothing from shard `i` on wrote or removed the key or made its version start over. */
  predicate Untouched(o: Origin, i: nat) {
    o.at == i && o.moves == 0
  }

  /**
   A change leaves the record as it was exactly when the version started over and caught up, or moved
   on by a multiple of 2^64.
   */
  ghost predicate MissedIff(o: Origin, i: nat, a: Shard, b: Shard, k: Bytes) {
    !Untouched(o, i) && Reading(b, k) == Reading(a, k)
    <==> if o.at > i then Wrap(o.base + o.moves) == Reading(a, k) else o.moves > 0 && Wrap(o.moves) == 0
  }

  lemma ChangeMissedIff(ops: seq<Op>, tr: seq<Shard>, i: nat, k: Bytes)
    requires IsTrace(ops, tr) && i < |tr|
    ensures MissedIff(OriginOf(ops, tr, i, k), i, tr[i], Last(tr), k)
  {
    OriginReads(ops, tr, i, k);
    Missed(OriginOf(ops, tr, i, k), i, tr[i], Last(tr), k);
  }

  lemma Missed(o: Origin, i: nat, a: Shard, b: Shard, k: Bytes)
    requires Explains(o, i, a, b, k)
    ensures MissedIff(o, i, a, b, k)
  {
    Noticed(o, i, a, b, k);
  }

  lemma Noticed(o: Origin, i: nat, a: Shard, b: Shard, k: Bytes)
    requires Explains(o, i, a, b, k)
    ensures o.at == i ==> (Reading(b, k) == Reading(a, k) <==> Wrap(o.moves) == 0)
  {
    var x := Slot(a, k) + Cell(a.entries, k);
    WrapSum(x, o.moves);
    SameWrap(x + o.moves, x);
  }

  /** An untouched key holds the same value as when it was watched, and reads the same. */
  lemma {:induction false} UntouchedKeeps(ops: seq<Op>, tr: seq<Shard>, i: nat, k: Bytes)
    requires IsTrace(ops, tr) && i < |tr| && Untouched(OriginOf(ops, tr, i, k), i)
    ensures SameValue(Find(tr[i].entries, k), Find(Last(tr).entries, k))
    ensures Reading(Last(tr), k) == Reading(tr[i], k)
    decreases |ops|
  {
    var n := |ops|;
    if n > i {
      UntouchedKeeps(ops[..n - 1], tr[..n], i, k);
      UnmovedKeeps(ops[n - 1], tr[n - 1], tr[n], k);
    }
    OriginReads(ops, tr, i, k);
    Noticed(OriginOf(ops, tr, i, k), i, tr[i], Last(tr), k);
  }

  // ---- A key that stays, goes, or comes back ----

  /** The key is present from shard `i` on, and no cell of it is discarded. */
  predicate Stays(ops: seq<Op>, tr: seq<Shard>, i: nat, k: Bytes)
    requires |tr| == |ops| + 1
  {
    (forall n :: i <= n < |tr| ==> k in tr[n].entries) &&
    (forall n :: i <= n < |ops| ==> !Swaps(ops[n], tr[n], tr[n + 1], k))
  }

  /** The key is absent from shard `i` on. */
  predicate StaysAway(tr: seq<Shard>, i: nat, k: Bytes) {
    forall n :: i <= n < |tr| ==> k !in tr[n].entries
  }

  /** While a key stays, nothing makes its version start over. */
  lemma {:induction false} StaysNoRestart(ops: seq<Op>, tr: seq<Shard>, i: nat, k: Bytes)
    requires IsTrace(ops, tr) && i < |tr| && Stays(ops, tr, i, k)
    ensures OriginOf(ops, tr, i, k).at == i
    decreases |ops|
  {
    var n := |ops|;
    if n > i {
      TraceSlots(ops, tr);
      assert Restart(ops[n - 1], tr[n - 1], tr[n], k).None?;
      StaysNoRestart(ops[..n - 1], tr[..n], i, k);
    }
  }

  /** From `a` to `b` the version of `k` moves on by `writes`; fewer than 2^64 are noticed exactly when there are any. */
  ghost predicate CountsOn(writes: nat, a: Shard, b: Shard, k: Bytes) {
    && Reading(b, k) == Wrap(Reading(a, k) + writes)
    && (writes < TWO_64 ==> (Reading(b, k) != Reading(a, k) <==> writes > 0))
  }

  /**
   While a key stays, its version moves by exactly the number of writes to it, modulo 2^64, and by
   nothing else; so fewer than 2^64 operations are noticed exactly when one of them was a write.
   */
  lemma WatchCounts(ops: seq<Op>, tr: seq<Shard>, i: nat, k: Bytes)
    requires IsTrace(ops, tr) && i < |tr| && Stays(ops, tr, i, k)
    ensures var o := OriginOf(ops, tr, i, k); o.at == i && CountsOn(o.moves, tr[i], Last(tr), k)
  {
    StaysNoRestart(ops, tr, i, k);
    OriginReads(ops, tr, i, k);
    CountedOn(OriginOf(ops, tr, i, k), i, tr[i], Last(tr), k);
  }

  lemma CountedOn(o: Origin, i: nat, a: Shard, b: Shard, k: Bytes)
    requires Explains(o, i, a, b, k) && o.at == i
    ensures CountsOn(o.moves, a, b, k)
  {
    Noticed(o, i, a, b, k);
  }

  lemma SlotsAt(ops: seq<Op>, tr: seq<Shard>, i: nat)
    requires IsTrace(ops, tr) && i < |tr|
    ensures tr[i].entries.Keys <= tr[i].versions.Keys
  {
    TracePrefix(ops, tr, i);
    TraceSlots(ops[..i], tr[..i + 1]);
  }

  /**
   A key that is vacant at operation `j`, inserted by it and then stays has counted on from 1; so
   whoever had read just that version misses all that happened.
   */
  lemma RecreatedStartsOver(ops: seq<Op>, tr: seq<Shard>, j: nat, k: Bytes)
    requires IsTrace(ops, tr) && j < |ops| && InsertsVacant(ops[j], tr[j].entries, k) && Stays(ops, tr, j + 1, k)
    ensures var o := OriginOf(ops, tr, j + 1, k);
      o.at == j + 1 && Reading(Last(tr), k) == Wrap(1 + Cell(tr[j + 1].entries, k) + o.moves)
  {
    SlotNext(ops, tr, j, k);
    WatchCounts(ops, tr, j + 1, k);
    CountedFrom(0, tr[j + 1], Last(tr), k, OriginOf(ops, tr, j + 1, k).moves);
  }

  lemma CountedFrom(slot: nat, a: Shard, b: Shard, k: Bytes, n: nat)
    requires CountsOn(n, a, b, k) && Slot(a, k) == Bump(slot)
    ensures Reading(b, k) == Wrap(slot + 1 + Cell(a.entries, k) + n)
  {
    Carry(slot, Cell(a.entries, k));
    WrapSum(slot + 1 + Cell(a.entries, k), n);
  }

  lemma SlotNext(ops: seq<Op>, tr: seq<Shard>, i: nat, k: Bytes)
    requires IsTrace(ops, tr) && i < |ops|
    ensures SlotRight(ops[i], tr[i], tr[i + 1], k) && (k in tr[i].entries ==> k in tr[i].versions)
  {
    SlotsAt(ops, tr, i);
    TraceStep(ops, tr, i);
    SlotStep(ops[i], tr[i], tr[i + 1], k);
  }

  /**
   A key that is vacant at operation `j` and re-created by get_or_insert_with or incr_int counts on from its
   slot: its removal is noticed, unless the slot had been pruned or flushed and it starts over at 1.
   */
  lemma RecreatedGoesOn(ops: seq<Op>, tr: seq<Shard>, j: nat, k: Bytes)
    requires IsTrace(ops, tr) && j < |ops| && k !in tr[j].entries && Stays(ops, tr, j + 1, k)
    requires (ops[j].DoGetOrInsert? || ops[j].DoIncr?) && Writes(ops[j], tr[j].entries, k)
    ensures Slot(tr[j + 1], k) == if k in tr[j].versions then Bump(tr[j].versions[k]) else 1
    ensures var o := OriginOf(ops, tr, j + 1, k);
      o.at == j + 1 && Reading(Last(tr), k) == Wrap(Slot(tr[j], k) + 1 + Cell(tr[j + 1].entries, k) + o.moves)
  {
    SlotNext(ops, tr, j, k);
    WatchCounts(ops, tr, j + 1, k);
    CountedFrom(Slot(tr[j], k), tr[j + 1], Last(tr), k, OriginOf(ops, tr, j + 1, k).moves);
  }

  /** The slot of a key that stays away is as it was, or lost. */
  lemma {:induction false} AwayKeepsSlot(ops: seq<Op>, tr: seq<Shard>, i: nat, k: Bytes)
    requires IsTrace(ops, tr) && i < |tr| && StaysAway(tr, i, k)
    ensures k in Last(tr).versions ==> k in tr[i].versions && Last(tr).versions[k] == tr[i].versions[k]
    decreases |ops|
  {
    var n := |ops|;
    if n > i {
      AwayKeepsSlot(ops[..n - 1], tr[..n], i, k);
      AwayStep(ops[n - 1], tr[n - 1], tr[n], k);
    }
  }

  lemma AwayStep(op: Op, a: Shard, b: Shard, k: Bytes)
    requires Steps(op, a, b) && k !in a.entries && k !in b.entries
    ensures k in b.versions ==> k in a.versions && b.versions[k] == a.versions[k]
  {
  }

  /**
   A deletion: `k` is present in shard `i`, removed by the next operation and stays away. EXEC reads
   one more than the slot was, or 0 once the slot is lost; so it notices, unless the key was an
   integer whose cell had counted one write, or the slot is lost and the version read was 0.
   */
  lemma DeletionNoticed(ops: seq<Op>, tr: seq<Shard>, i: nat, k: Bytes)
    requires IsTrace(ops, tr) && i < |ops| && k in tr[i].entries && StaysAway(tr, i + 1, k)
    ensures Reading(Last(tr), k) == if k in Last(tr).versions then Wrap(Slot(tr[i], k) + 1) else 0
    ensures Reading(Last(tr), k) != Reading(tr[i], k) <==>
      if k in Last(tr).versions then Wrap(Cell(tr[i].entries, k)) != 1 else Reading(tr[i], k) != 0
  {
    SlotNext(ops, tr, i, k);
    AwayKeepsSlot(ops, tr, i + 1, k);
    Gone(tr[i], Last(tr), k);
  }

  lemma Gone(a: Shard, b: Shard, k: Bytes)
    requires k !in b.entries && (k in b.versions ==> b.versions[k] == Bump(Slot(a, k)))
    ensures Reading(b, k) == if k in b.versions then Wrap(Slot(a, k) + 1) else 0
    ensures Reading(b, k) != Reading(a, k) <==>
      if k in b.versions then Wrap(Cell(a.entries, k)) != 1 else Reading(a, k) != 0
  {
    WrapSum(Slot(a, k) + 1, 0);
    SameAfter(Slot(a, k), Cell(a.entries, k), 0);
  }

  // ---- Changes that go unnoticed do occur ----

  /** Insert, remove, insert again: version 1 before and after. */
  lemma RecreationGoesUnnoticed(k: Bytes, x: Bytes, y: Bytes, tr: seq<Shard>)
    requires IsTrace([DoInsert(k, NewEntry(Str(x))), DoRemove(k), DoInsert(k, NewEntry(Str(y)))], tr)
    ensures tr[1].entries == map[k := NewEntry(Str(x))] && tr[3].entries == map[k := NewEntry(Str(y))]
    ensures Reading(tr[1], k) == Reading(tr[3], k) == 1
  {
    var e, f := NewEntry(Str(x)), NewEntry(Str(y));
    var ops := [DoInsert(k, e), DoRemove(k), DoInsert(k, f)];
    StartsEmpty(ops, tr);
    InsertAt(ops, tr, 0, k, e);
    TraceStep(ops, tr, 1);
    assert tr[2].entries == map[];
    InsertAt(ops, tr, 2, k, f);
  }

  /** Later writes can catch up with any version: twice inserted, removed, twice inserted again. */
  lemma CatchingUpGoesUnnoticed(k: Bytes, x: Bytes, y: Bytes, tr: seq<Shard>)
    requires var e, f := NewEntry(Str(x)), NewEntry(Str(y));
      IsTrace([DoInsert(k, e), DoInsert(k, e), DoRemove(k), DoInsert(k, f), DoInsert(k, f)], tr)
    ensures tr[2].entries == map[k := NewEntry(Str(x))] && tr[5].entries == map[k := NewEntry(Str(y))]
    ensures Reading(tr[2], k) == Reading(tr[5], k) == 2
  {
    var e, f := NewEntry(Str(x)), NewEntry(Str(y));
    var ops := [DoInsert(k, e), DoInsert(k, e), DoRemove(k), DoInsert(k, f), DoInsert(k, f)];
    StartsEmpty(ops, tr);
    InsertedTwice(ops, tr, 0, k, e);
    TraceStep(ops, tr, 2);
    assert tr[3].entries == map[];
    InsertedTwice(ops, tr, 3, k, f);
  }

  lemma InsertedTwice(ops: seq<Op>, tr: seq<Shard>, i: nat, k: Bytes, e: Entry)
    requires IsTrace(ops, tr) && i + 1 < |ops| && ops[i] == ops[i + 1] == DoInsert(k, e) && k !in tr[i].entries
    ensures tr[i + 2].entries == tr[i].entries[k := e] && Slot(tr[i + 2], k) == 2
  {
    InsertAt(ops, tr, i, k, e);
    InsertAt(ops, tr, i + 1, k, e);
  }

  lemma StartsEmpty(ops: seq<Op>, tr: seq<Shard>)
    requires IsTrace(ops, tr)
    ensures tr[0] == EMPTY
  {
    TracePrefix(ops, tr, 0);
  }

  lemma InsertAt(ops: seq<Op>, tr: seq<Shard>, i: nat, k: Bytes, e: Entry)
    requires IsTrace(ops, tr) && i < |ops| && ops[i] == DoInsert(k, e)
    ensures tr[i + 1].entries == tr[i].entries[k := e]
    ensures Slot(tr[i + 1], k) == if k in tr[i].entries then Bump(Slot(tr[i], k)) else 1
  {
    TraceStep(ops, tr, i);
    SlotNext(ops, tr, i, k);
  }

  /** A flush loses the slot, so even incr_int starts over. */
  lemma FlushGoesUnnoticed(k: Bytes, x: Bytes, d: i64, tr: seq<Shard>)
    requires IsTrace([DoInsert(k, NewEntry(Str(x))), DoFlush, DoIncr(k, d, 0, 0)], tr)
    ensures tr[1].entries == map[k := NewEntry(Str(x))] && tr[3].entries == map[k := NewEntry(Int(d, 0))]
    ensures Reading(tr[1], k) == Reading(tr[3], k) == 1
  {
    var ops := [DoInsert(k, NewEntry(Str(x))), DoFlush, DoIncr(k, d, 0, 0)];
    StartsEmpty(ops, tr);
    InsertAt(ops, tr, 0, k, NewEntry(Str(x)));
    TraceStep(ops, tr, 1);
    TraceStep(ops, tr, 2);
    SlotNext(ops, tr, 2, k);
  }

  /**
   A counter needs no removal: two increments, the second in the cell, read 2; the next SET or DEL
   discards the cell and moves the slot to 2.
   */
  lemma CounterGoesUnnoticed(k: Bytes, x: Bytes, last: Op, tr: seq<Shard>)
    requires last == DoSet(k, x, 0, 0) || last == DoRemove(k)
    requires IsTrace([DoIncr(k, 1, 0, 0), DoFastIncr(k, 1, 0), last], tr) && k in tr[3].versions
    ensures tr[2].entries == map[k := NewEntry(Int(2, 1))]
    ensures tr[3].entries == if last.DoSet? then map[k := NewEntry(Str(x))] else map[]
    ensures KeyVersion(tr[2], k, 0) == KeyVersion(tr[3], k, 0) == 2
  {
    var ops := [DoIncr(k, 1, 0, 0), DoFastIncr(k, 1, 0), last];
    StartsEmpty(ops, tr);
    TraceStep(ops, tr, 0);
    TraceStep(ops, tr, 1);
    TraceStep(ops, tr, 2);
    CountedTwice(k, tr[0], tr[1], tr[2]);
    CounterLost(k, x, last, tr[2], tr[3]);
  }

  lemma CountedTwice(k: Bytes, a: Shard, b: Shard, c: Shard)
    requires a == EMPTY && Steps(DoIncr(k, 1, 0, 0), a, b) && Steps(DoFastIncr(k, 1, 0), b, c)
    ensures c.entries == map[k := NewEntry(Int(2, 1))] && k in c.versions && c.versions[k] == 1
  {
    assert b.entries == map[k := NewEntry(Int(1, 0))];
    assert k in c.versions && k in b.versions;
  }

  lemma CounterLost(k: Bytes, x: Bytes, last: Op, c: Shard, d: Shard)
    requires last == DoSet(k, x, 0, 0) || last == DoRemove(k)
    requires c.entries == map[k := NewEntry(Int(2, 1))] && k in c.versions && c.versions[k] == 1
    requires Steps(last, c, d) && k in d.versions
    ensures d.entries == if last.DoSet? then map[k := NewEntry(Str(x))] else map[]
    ensures KeyVersion(c, k, 0) == KeyVersion(d, k, 0) == 2
  {
  }

  // ---- On the shard itself ----

  /** What is on record when a client watches `k` and when it commits, and what explains it. */
  datatype Report = Report(before: nat, after: nat, origin: Origin)

  function ReportOf(ops: seq<Op>, tr: seq<Shard>, i: nat, k: Bytes): Report
    requires |tr| == |ops| + 1 && i < |tr|
  {
    Report(Reading(tr[i], k), Reading(Last(tr), k), OriginOf(ops, tr, i, k))
  }

  /** Runs `ops` on an empty shard and reports on a client that watches `k` from operation `i` on. */
  method Watch(ops: seq<Op>, i: nat, k: Bytes) returns (r: Report, tr: seq<Shard>)
    requires i <= |ops|
    ensures IsTrace(ops, tr) && AllSound(tr) && r == ReportOf(ops, tr, i, k)
  {
    tr := RunShard(ops);
    r := ReportOf(ops, tr, i, k);
  }
}
