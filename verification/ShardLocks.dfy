/**
 Shard locks as a state machine. Any number of threads run operations that lock several shards,
 edit the keys of those shards one insert at a time and let go again; every single lock attempt,
 insert and release is a step of its own, in any interleaving.

 Two ways of locking are modelled: blocking acquisition in index order (`lock_two`), and sweeps of
 try-locks that give everything back on a miss and end in blocking acquisition (`lock_shard_arcs`).
 */
module ShardLocks {
  import opened ByteStrings
  import opened Keyspace
  import opened FlatOps

  /** Which shard owns a key. */
  type Route = Bytes -> nat

  type Edit = (Bytes, Option<Entry>)

  /**
   `need` lists the shards to lock and `rounds` the try-lock sweeps made before blocking. `plan`
   says which edits the operation makes, given the contents of its shards; at most `work` of them.
   */
  datatype Op = Op(writes: bool, need: seq<nat>, rounds: nat, plan: Entries -> seq<Edit>, work: nat)

  ghost predicate WellFormed(op: Op, idx: Route) {
    && Climbing(op.need)
    && (!op.writes ==> op.work == 0)
    && forall v :: |op.plan(v)| <= op.work && Inside(op.plan(v), op.need, idx)
  }

  /** Every edit falls in one of the listed shards. */
  ghost predicate Inside(es: seq<Edit>, need: seq<nat>, idx: Route) {
    forall i :: 0 <= i < |es| ==> idx(es[i].0) in need
  }

  /** Where a thread is. It holds the shards taken so far, or those not yet given back. */
  datatype Phase =
    | Idle
    | Sweep(op: Op, taken: nat, left: nat)         // try_write on need[taken]; `left` more sweeps allowed
    | Undo(op: Op, held: seq<nat>, left: nat)      // a try failed: partial guards drop
    | Wait(op: Op, taken: nat)                     // blocking acquire of need[taken]
    | Work(op: Op, edits: seq<Edit>, done: nat)    // all locks held
    | Unlock(op: Op, held: seq<nat>)               // guards drop

  /**
   `start` is what the store held at first, `log` lists the operations in the order they committed,
   `begun` all in the order they started.
   */
  datatype State = State(start: Entries, data: Entries, log: seq<Op>, begun: seq<Op>, pc: seq<Phase>)

  datatype Action =
    | Begin(op: Op) | Take | Miss | Drop(j: nat) | Retry | Start | Write | Commit | Finish

  predicate Owns(p: Phase, i: nat) {
    match p
    case Idle => false
    case Sweep(op, taken, _) => taken <= |op.need| && i in op.need[..taken]
    case Undo(_, held, _) => i in held
    case Wait(op, taken) => taken <= |op.need| && i in op.need[..taken]
    case Work(op, _, _) => i in op.need
    case Unlock(_, held) => i in held
  }

  /** A reader-writer lock: granted unless someone else's hold conflicts. */
  predicate CanTake(s: State, t: nat, writes: bool, i: nat) {
    forall u :: 0 <= u < |s.pc| && u != t && Owns(s.pc[u], i) ==> !writes && !s.pc[u].op.writes
  }

  predicate Locking(p: Phase) {
    p.Sweep? || p.Wait?
  }

  ghost predicate Enabled(s: State, t: nat, a: Action, idx: Route) {
    t < |s.pc| &&
    var p := s.pc[t];
    match a
    case Begin(op) => p.Idle? && WellFormed(op, idx)
    case Take => Locking(p) && p.taken < |p.op.need| && CanTake(s, t, p.op.writes, p.op.need[p.taken])
    case Miss => p.Sweep? && p.taken < |p.op.need|
    case Drop(j) => (p.Undo? || p.Unlock?) && j < |p.held|
    case Retry => p.Undo? && p.held == []
    case Start => Locking(p) && p.taken == |p.op.need|
    case Write => p.Work? && p.done < |p.edits|
    case Commit => p.Work? && p.done == |p.edits|
    case Finish => p.Unlock? && p.held == []
  }

  function Attempt(op: Op, left: nat): Phase {
    if left > 0 then Sweep(op, 0, left - 1) else Wait(op, 0)
  }

  function NextPhase(s: State, p: Phase, a: Action, idx: Route): Phase
    requires a.Take? || a.Start? ==> Locking(p)
    requires a.Miss? ==> p.Sweep? && p.taken < |p.op.need|
    requires a.Drop? ==> (p.Undo? || p.Unlock?) && a.j < |p.held|
    requires a.Retry? ==> p.Undo?
    requires a.Write? || a.Commit? ==> p.Work?
  {
    match a
    case Begin(op) => Attempt(op, op.rounds)
    case Take => p.(taken := p.taken + 1)
    case Miss => Undo(p.op, p.op.need[..p.taken], p.left)
    case Drop(j) => p.(held := p.held[..j] + p.held[j + 1..])
    case Retry => Attempt(p.op, p.left)
    case Start => Work(p.op, p.op.plan(View(s.data, p.op.need, idx)), 0)
    case Write => p.(done := p.done + 1)
    case Commit => Unlock(p.op, p.op.need)
    case Finish => Idle
  }

  /** The keys of the listed shards. */
  function View(m: Entries, need: seq<nat>, idx: Route): Entries {
    map k | k in m && idx(k) in need :: m[k]
  }

  ghost function Step(s: State, t: nat, a: Action, idx: Route): State
    requires Enabled(s, t, a, idx)
  {
    var p := s.pc[t];
    State(
      s.start,
      if a.Write? then With(s.data, p.edits[p.done].0, p.edits[p.done].1) else s.data,
      if a.Commit? then s.log + [p.op] else s.log,
      if a.Begin? then s.begun + [a.op] else s.begun,
      s.pc[t := NextPhase(s, p, a, idx)])
  }

  ghost predicate Init(s: State) {
    s.data == s.start && s.log == [] && s.begun == [] && AllIdle(s)
  }

  ghost predicate AllIdle(s: State) {
    forall t :: 0 <= t < |s.pc| ==> s.pc[t].Idle?
  }

  ghost predicate Follows(s: State, s': State, idx: Route) {
    exists t, a :: Enabled(s, t, a, idx) && s' == Step(s, t, a, idx)
  }

  /** An interleaving of any operations by any threads. */
  ghost predicate Run(run: seq<State>, idx: Route) {
    |run| > 0 && Init(run[0]) && forall i :: 0 < i < |run| ==> Follows(run[i - 1], run[i], idx)
  }

  // ---- The serial reference: whole operations, one at a time ----

  function ApplyEdits(m: Entries, es: seq<Edit>): Entries {
    if es == [] then m else
      var n := |es| - 1;
      With(ApplyEdits(m, es[..n]), es[n].0, es[n].1)
  }

  /** The whole operation in one step. */
  function Apply(m: Entries, op: Op, idx: Route): Entries {
    ApplyEdits(m, op.plan(View(m, op.need, idx)))
  }

  /** The operations of `log` run one after another on `m`. */
  function Replay(m: Entries, log: seq<Op>, idx: Route): Entries {
    if log == [] then m else Apply(Replay(m, log[..|log| - 1], idx), log[|log| - 1], idx)
  }

  lemma ApplyNext(m: Entries, es: seq<Edit>, n: nat)
    requires n < |es|
    ensures ApplyEdits(m, es[..n + 1]) == With(ApplyEdits(m, es[..n]), es[n].0, es[n].1)
  {
    assert es[..n + 1][..n] == es[..n];
  }

  lemma ReplayNext(m: Entries, log: seq<Op>, op: Op, idx: Route)
    ensures Replay(m, log + [op], idx) == Apply(Replay(m, log, idx), op, idx)
  {
    assert (log + [op])[..|log|] == log;
  }

  /** Edits act key by key, and only on the keys they name. */
  lemma {:induction false} ApplyLocal(m: Entries, m': Entries, es: seq<Edit>, k: Bytes)
    ensures Find(m, k) == Find(m', k) ==> Find(ApplyEdits(m, es), k) == Find(ApplyEdits(m', es), k)
    ensures (forall i :: 0 <= i < |es| ==> es[i].0 != k) ==> Find(ApplyEdits(m, es), k) == Find(m, k)
    decreases |es|
  {
    if es != [] {
      var n := |es| - 1;
      ApplyLocal(m, m', es[..n], k);
      FindWith(ApplyEdits(m, es[..n]), es[n].0, es[n].1, k);
      FindWith(ApplyEdits(m', es[..n]), es[n].0, es[n].1, k);
    }
  }

  lemma ViewSame(m: Entries, m': Entries, need: seq<nat>, idx: Route)
    requires forall k :: idx(k) in need ==> Find(m, k) == Find(m', k)
    ensures View(m, need, idx) == View(m', need, idx)
  {
    forall k ensures Find(View(m, need, idx), k) == Find(View(m', need, idx), k) {
      if idx(k) in need {
        assert Find(m, k) == Find(m', k);
      }
    }
    SameFinds(View(m, need, idx), View(m', need, idx));
  }

  // ---- The invariant ----

  ghost predicate PhaseOk(p: Phase, m: Entries, idx: Route) {
    p.Idle? || (
      && WellFormed(p.op, idx)
      && (Locking(p) ==> p.taken <= |p.op.need|)
      && (p.Undo? || p.Unlock? ==> forall i :: i in p.held ==> i in p.op.need)
      && (p.Work? ==> p.done <= |p.edits| && p.edits == p.op.plan(View(m, p.op.need, idx))))
  }

  ghost predicate Phases(s: State, m: Entries, idx: Route) {
    forall t :: 0 <= t < |s.pc| ==> PhaseOk(s.pc[t], m, idx)
  }

  /** Two threads share a shard only to read. */
  ghost predicate Exclusive(s: State) {
    forall t, u, i :: 0 <= t < |s.pc| && 0 <= u < |s.pc| && t != u && Owns(s.pc[t], i) && Owns(s.pc[u], i) ==>
      !s.pc[t].op.writes && !s.pc[u].op.writes
  }

  /** The thread is editing shard `i`. */
  predicate Editing(p: Phase, i: nat) {
    p.Work? && p.op.writes && i in p.op.need
  }

  ghost predicate Unedited(s: State, i: nat) {
    forall t :: 0 <= t < |s.pc| ==> !Editing(s.pc[t], i)
  }

  function Done(p: Phase): seq<Edit> {
    if p.Work? && p.done <= |p.edits| then p.edits[..p.done] else []
  }

  /** The stored keys are the serial result, plus the edits made so far by the thread editing their shard. */
  ghost predicate Contents(s: State, m: Entries, idx: Route) {
    && (forall t, k :: 0 <= t < |s.pc| && Editing(s.pc[t], idx(k)) ==>
          Find(s.data, k) == Find(ApplyEdits(m, Done(s.pc[t])), k))
    && (forall k :: Unedited(s, idx(k)) ==> Find(s.data, k) == Find(m, k))
  }

  ghost predicate Inv(s: State, idx: Route) {
    var m := Replay(s.start, s.log, idx);
    Phases(s, m, idx) && Exclusive(s) && Contents(s, m, idx)
  }

  lemma EditorHolds(p: Phase, i: nat)
    ensures Editing(p, i) ==> Owns(p, i)
  {
  }

  /** A thread holding shard `i` keeps every other thread from editing it. */
  lemma HolderShields(s: State, t: nat, i: nat)
    requires Exclusive(s) && t < |s.pc| && Owns(s.pc[t], i) && !Editing(s.pc[t], i)
    ensures Unedited(s, i)
  {
    forall u | 0 <= u < |s.pc| ensures !Editing(s.pc[u], i) {
      EditorHolds(s.pc[u], i);
    }
  }

  /** Whoever holds all its shards and is not editing sees the serial contents of them. */
  lemma SeesSerial(s: State, t: nat, idx: Route)
    requires Inv(s, idx) && t < |s.pc| && !s.pc[t].Idle?
    requires forall i :: i in s.pc[t].op.need ==> Owns(s.pc[t], i) && !Editing(s.pc[t], i)
    ensures View(s.data, s.pc[t].op.need, idx) == View(Replay(s.start, s.log, idx), s.pc[t].op.need, idx)
  {
    var p, m := s.pc[t], Replay(s.start, s.log, idx);
    forall k | idx(k) in p.op.need ensures Find(s.data, k) == Find(m, k) {
      HolderShields(s, t, idx(k));
    }
    ViewSame(s.data, m, p.op.need, idx);
  }

  // ---- Every step keeps it ----

  lemma ExclusiveStep(s: State, t: nat, a: Action, idx: Route)
    requires Inv(s, idx) && Enabled(s, t, a, idx)
    ensures Exclusive(Step(s, t, a, idx))
  {
    var p, s' := s.pc[t], Step(s, t, a, idx);
    var p' := s'.pc[t];
    forall i | Owns(p', i) ensures Owns(p, i) || (a.Take? && CanTake(s, t, p'.op.writes, i)) {
      NewHold(s, t, a, idx, i);
    }
    forall u, i | 0 <= u < |s.pc| && u != t && Owns(p', i) && Owns(s.pc[u], i)
      ensures !p'.op.writes && !s.pc[u].op.writes
    {
      if Owns(p, i) { assert p'.op == p.op; }
    }
  }

  /** A step gains at most the shard it was granted. */
  lemma NewHold(s: State, t: nat, a: Action, idx: Route, i: nat)
    requires Inv(s, idx) && Enabled(s, t, a, idx) && Owns(Step(s, t, a, idx).pc[t], i)
    ensures Owns(s.pc[t], i) || (a.Take? && CanTake(s, t, s.pc[t].op.writes, i))
  {
    var p := s.pc[t];
    assert PhaseOk(p, Replay(s.start, s.log, idx), idx);
    if a.Take? {
      assert p.op.need[..p.taken + 1] == p.op.need[..p.taken] + [p.op.need[p.taken]];
    }
    if a.Start? {
      assert p.op.need[..p.taken] == p.op.need;
    }
  }

  /** A committing thread changes no key of a shard it does not write-lock. */
  lemma CommitOutside(s: State, t: nat, idx: Route, k: Bytes)
    requires Inv(s, idx) && Enabled(s, t, Commit, idx) && !Editing(s.pc[t], idx(k))
    ensures Find(Replay(s.start, s.log + [s.pc[t].op], idx), k) == Find(Replay(s.start, s.log, idx), k)
  {
    var p, m := s.pc[t], Replay(s.start, s.log, idx);
    assert PhaseOk(p, m, idx);
    ReplayNext(s.start, s.log, p.op, idx);
    ApplyLocal(m, m, p.edits, k);
    assert Inside(p.edits, p.op.need, idx);
  }

  lemma PhasesStep(s: State, t: nat, a: Action, idx: Route)
    requires Inv(s, idx) && Enabled(s, t, a, idx)
    ensures var s' := Step(s, t, a, idx); Phases(s', Replay(s'.start, s'.log, idx), idx)
  {
    var m, s' := Replay(s.start, s.log, idx), Step(s, t, a, idx);
    var m' := Replay(s'.start, s'.log, idx);
    forall u | 0 <= u < |s.pc| ensures PhaseOk(s'.pc[u], m', idx) {
      assert PhaseOk(s.pc[u], m, idx);
      if u == t {
        OwnPhaseStep(s, t, a, idx);
      } else if a.Commit? && s.pc[u].Work? {
        forall k | idx(k) in s.pc[u].op.need ensures Find(m, k) == Find(m', k) {
          assert Owns(s.pc[u], idx(k));
          EditorHolds(s.pc[t], idx(k));
          CommitOutside(s, t, idx, k);
        }
        ViewSame(m, m', s.pc[u].op.need, idx);
      }
    }
  }

  lemma OwnPhaseStep(s: State, t: nat, a: Action, idx: Route)
    requires Inv(s, idx) && Enabled(s, t, a, idx)
    ensures var s' := Step(s, t, a, idx); PhaseOk(s'.pc[t], Replay(s'.start, s'.log, idx), idx)
  {
    var p := s.pc[t];
    assert PhaseOk(p, Replay(s.start, s.log, idx), idx);
    if a.Start? {
      assert p.op.need[..p.taken] == p.op.need;
      SeesSerial(s, t, idx);
    }
  }

  ghost predicate SameEditing(s: State, s': State) {
    |s.pc| == |s'.pc| && forall u :: 0 <= u < |s.pc| ==>
      (forall i :: Editing(s'.pc[u], i) <==> Editing(s.pc[u], i)) && Done(s'.pc[u]) == Done(s.pc[u])
  }

  lemma ContentsQuiet(s: State, s': State, m: Entries, idx: Route)
    requires Contents(s, m, idx) && SameEditing(s, s') && s'.data == s.data
    ensures Contents(s', m, idx)
  {
    forall k | Unedited(s', idx(k)) ensures Find(s'.data, k) == Find(m, k) {
      assert Unedited(s, idx(k));
    }
  }

  lemma ContentsStart(s: State, t: nat, idx: Route)
    requires Inv(s, idx) && Enabled(s, t, Start, idx)
    ensures Contents(Step(s, t, Start, idx), Replay(s.start, s.log, idx), idx)
  {
    var p, s', m := s.pc[t], Step(s, t, Start, idx), Replay(s.start, s.log, idx);
    assert p.op.need[..p.taken] == p.op.need;
    forall u, k | 0 <= u < |s.pc| && Editing(s'.pc[u], idx(k))
      ensures Find(s'.data, k) == Find(ApplyEdits(m, Done(s'.pc[u])), k)
    {
      if u == t {
        HolderShields(s, t, idx(k));
        assert Done(s'.pc[t]) == [];
      }
    }
    forall k | Unedited(s', idx(k)) ensures Find(s'.data, k) == Find(m, k) {
      forall u | 0 <= u < |s.pc| ensures !Editing(s.pc[u], idx(k)) {
        assert u != t ==> s'.pc[u] == s.pc[u];
      }
      assert Unedited(s, idx(k));
    }
  }

  lemma ContentsWrite(s: State, t: nat, idx: Route)
    requires Inv(s, idx) && Enabled(s, t, Write, idx)
    ensures Contents(Step(s, t, Write, idx), Replay(s.start, s.log, idx), idx)
  {
    var p, s', m := s.pc[t], Step(s, t, Write, idx), Replay(s.start, s.log, idx);
    var e := p.edits[p.done];
    assert PhaseOk(p, m, idx) && Inside(p.edits, p.op.need, idx);
    ApplyNext(m, p.edits, p.done);
    assert Editing(p, idx(e.0)) && Owns(p, idx(e.0));
    forall u, k | 0 <= u < |s.pc| && Editing(s'.pc[u], idx(k))
      ensures Find(s'.data, k) == Find(ApplyEdits(m, Done(s'.pc[u])), k)
    {
      assert Editing(s.pc[u], idx(k)) && Owns(s.pc[u], idx(k));
      FindWith(s.data, e.0, e.1, k);
      FindWith(ApplyEdits(m, p.edits[..p.done]), e.0, e.1, k);
    }
    forall k | Unedited(s', idx(k)) ensures Find(s'.data, k) == Find(m, k) {
      forall u | 0 <= u < |s.pc| ensures !Editing(s.pc[u], idx(k)) {
        assert !Editing(s'.pc[u], idx(k));
      }
      assert Unedited(s, idx(k));
      FindWith(s.data, e.0, e.1, k);
    }
  }

  lemma ContentsCommit(s: State, t: nat, idx: Route)
    requires Inv(s, idx) && Enabled(s, t, Commit, idx)
    ensures var s' := Step(s, t, Commit, idx); Contents(s', Replay(s'.start, s'.log, idx), idx)
  {
    var p, s', m := s.pc[t], Step(s, t, Commit, idx), Replay(s.start, s.log, idx);
    var m' := Replay(s'.start, s'.log, idx);
    assert PhaseOk(p, m, idx);
    forall u, k | 0 <= u < |s.pc| && Editing(s'.pc[u], idx(k))
      ensures Find(s'.data, k) == Find(ApplyEdits(m', Done(s'.pc[u])), k)
    {
      assert u != t && Editing(s.pc[u], idx(k)) && Owns(s.pc[u], idx(k));
      EditorHolds(p, idx(k));
      CommitOutside(s, t, idx, k);
      ApplyLocal(m, m', Done(s.pc[u]), k);
    }
    forall k | Unedited(s', idx(k)) ensures Find(s'.data, k) == Find(m', k) {
      if Editing(p, idx(k)) {
        assert p.edits[..p.done] == p.edits;
        ReplayNext(s.start, s.log, p.op, idx);
      } else {
        CommitOutside(s, t, idx, k);
        forall u | 0 <= u < |s.pc| ensures !Editing(s.pc[u], idx(k)) {
          assert !Editing(s'.pc[u], idx(k));
        }
        assert Unedited(s, idx(k));
      }
    }
  }

  lemma InvStep(s: State, t: nat, a: Action, idx: Route)
    requires Inv(s, idx) && Enabled(s, t, a, idx)
    ensures Inv(Step(s, t, a, idx), idx)
  {
    ExclusiveStep(s, t, a, idx);
    PhasesStep(s, t, a, idx);
    match a
    case Start => ContentsStart(s, t, idx);
    case Write => ContentsWrite(s, t, idx);
    case Commit => ContentsCommit(s, t, idx);
    case _ =>
      assert SameEditing(s, Step(s, t, a, idx));
      ContentsQuiet(s, Step(s, t, a, idx), Replay(s.start, s.log, idx), idx);
  }

  lemma {:induction false} RunInv(run: seq<State>, idx: Route)
    requires Run(run, idx)
    ensures Inv(run[|run| - 1], idx) && run[|run| - 1].start == run[0].data
  {
    if |run| > 1 {
      var n := |run| - 1;
      RunInv(run[..n], idx);
      assert Follows(run[n - 1], run[n], idx);
      var t, a :| Enabled(run[n - 1], t, a, idx) && run[n] == Step(run[n - 1], t, a, idx);
      InvStep(run[n - 1], t, a, idx);
    }
  }

  // ---- What it means ----

  /** The operation a thread has begun and not yet committed, counted against `o`. */
  ghost function PendingOf(p: Phase, o: Op): nat {
    if !p.Idle? && !p.Unlock? && p.op == o then 1 else 0
  }

  ghost function Pending(pc: seq<Phase>, o: Op): nat {
    if pc == [] then 0 else PendingOf(pc[0], o) + Pending(pc[1..], o)
  }

  lemma {:induction false} PendingUpdate(pc: seq<Phase>, t: nat, p: Phase, o: Op)
    requires t < |pc|
    ensures Pending(pc[t := p], o) + PendingOf(pc[t], o) == Pending(pc, o) + PendingOf(p, o)
  {
    if t > 0 {
      assert pc[t := p][1..] == pc[1..][t - 1 := p];
      PendingUpdate(pc[1..], t - 1, p, o);
    }
  }

  lemma {:induction false} NothingPending(pc: seq<Phase>, o: Op)
    requires forall t :: 0 <= t < |pc| ==> pc[t].Idle?
    ensures Pending(pc, o) == 0
  {
    if pc != [] { NothingPending(pc[1..], o); }
  }

  /** How often `o` was begun, less how often it committed and how often it is under way. */
  ghost function Uncounted(s: State, o: Op): int {
    multiset(s.begun)[o] - multiset(s.log)[o] - Pending(s.pc, o)
  }

  lemma CountStep(s: State, t: nat, a: Action, idx: Route, o: Op)
    requires Enabled(s, t, a, idx)
    ensures Uncounted(Step(s, t, a, idx), o) == Uncounted(s, o)
  {
    PendingUpdate(s.pc, t, NextPhase(s, s.pc[t], a, idx), o);
  }

  /** Conservation: every operation begun is under way or has committed once. */
  lemma {:induction false} EachCommitsOnce(run: seq<State>, idx: Route, o: Op)
    requires Run(run, idx)
    ensures Uncounted(run[|run| - 1], o) == 0
  {
    if |run| == 1 {
      NothingPending(run[0].pc, o);
    } else {
      var n := |run| - 1;
      EachCommitsOnce(run[..n], idx, o);
      assert Follows(run[n - 1], run[n], idx);
      var t, a :| Enabled(run[n - 1], t, a, idx) && run[n] == Step(run[n - 1], t, a, idx);
      CountStep(run[n - 1], t, a, idx, o);
    }
  }

  /**
   Atomicity to readers: in every interleaving, a reader that holds the locks of all its shards sees
   exactly what the committed operations leave there when each is run whole, one after another. In
   particular it never sees part of a batch.
   */
  lemma ReadersSeeWholeOperations(run: seq<State>, idx: Route, t: nat)
    requires Run(run, idx)
    requires var s := run[|run| - 1]; t < |s.pc| && s.pc[t].Work? && !s.pc[t].op.writes
    ensures var s := run[|run| - 1]; var need := s.pc[t].op.need;
      View(s.data, need, idx) == View(Replay(run[0].data, s.log, idx), need, idx)
  {
    RunInv(run, idx);
    SeesSerial(run[|run| - 1], t, idx);
  }

  /**
   Serialisability: when no operation is under way, the store is what the operations begun so far
   give when run whole, each exactly once, in the order they committed.
   */
  lemma Serialisable(run: seq<State>, idx: Route)
    requires Run(run, idx)
    requires AllIdle(run[|run| - 1])
    ensures var s := run[|run| - 1]; s.data == Replay(run[0].data, s.log, idx) && multiset(s.log) == multiset(s.begun)
  {
    RunInv(run, idx);
    var s := run[|run| - 1];
    forall o: Op ensures multiset(s.log)[o] == multiset(s.begun)[o] {
      EachCommitsOnce(run, idx, o);
      NothingPending(s.pc, o);
    }
    forall k ensures Find(s.data, k) == Find(Replay(s.start, s.log, idx), k) {
      assert Unedited(s, idx(k));
    }
    SameFinds(s.data, Replay(s.start, s.log, idx));
  }

  // ---- No deadlock, and every operation finishes ----

  /** A thread blocked on a lock. */
  predicate Waiting(p: Phase) {
    p.Wait? && p.taken < |p.op.need|
  }

  function Target(p: Phase): nat
    requires Waiting(p)
  {
    p.op.need[p.taken]
  }

  /** Lock order: a thread waits only for a shard above all those it holds. */
  lemma WaitsUpward(run: seq<State>, idx: Route, t: nat, i: nat)
    requires Run(run, idx)
    requires var s := run[|run| - 1]; t < |s.pc| && Waiting(s.pc[t]) && Owns(s.pc[t], i)
    ensures i < Target(run[|run| - 1].pc[t])
  {
    RunInv(run, idx);
    HeldBelow(run[|run| - 1], idx, t, i);
  }

  lemma HeldBelow(s: State, idx: Route, t: nat, i: nat)
    requires Inv(s, idx) && t < |s.pc| && Waiting(s.pc[t]) && Owns(s.pc[t], i)
    ensures i < Target(s.pc[t])
  {
    assert PhaseOk(s.pc[t], Replay(s.start, s.log, idx), idx);
  }

  /** Under a fair policy a reader also waits while a writer is queued for the same shard. */
  ghost predicate FairlyEnabled(s: State, t: nat, a: Action, idx: Route) {
    && Enabled(s, t, a, idx)
    && (a.Take? && Waiting(s.pc[t]) && !s.pc[t].op.writes ==>
          forall u :: 0 <= u < |s.pc| ==> !(Waiting(s.pc[u]) && s.pc[u].op.writes && Target(s.pc[u]) == Target(s.pc[t])))
  }

  /** A thread that is neither idle nor blocked can always move. */
  lemma UnblockedMoves(s: State, t: nat, idx: Route) returns (a: Action)
    requires Inv(s, idx) && t < |s.pc| && !s.pc[t].Idle? && !Waiting(s.pc[t])
    ensures !a.Begin? && FairlyEnabled(s, t, a, idx)
  {
    var p := s.pc[t];
    assert PhaseOk(p, Replay(s.start, s.log, idx), idx);
    match p
    case Sweep(op, taken, _) => a := if taken < |op.need| then Miss else Start;
    case Undo(_, held, _) => a := if held == [] then Retry else Drop(0);
    case Wait(_, _) => a := Start;
    case Work(_, edits, done) => a := if done < |edits| then Write else Commit;
    case Unlock(_, held) => a := if held == [] then Finish else Drop(0);
  }

  ghost predicate Blocked(pc: seq<Phase>) {
    forall t :: 0 <= t < |pc| ==> pc[t].Idle? || Waiting(pc[t])
  }

  ghost predicate Topmost(pc: seq<Phase>, t: nat) {
    t < |pc| && Waiting(pc[t]) && forall u :: 0 <= u < |pc| && Waiting(pc[u]) ==> Target(pc[u]) <= Target(pc[t])
  }

  /** Among the waiting threads one waits for the highest shard. */
  lemma {:induction false} HighestWaiter(pc: seq<Phase>, w: nat) returns (t: nat)
    requires w < |pc| && Waiting(pc[w])
    ensures Topmost(pc, t)
    decreases |pc|
  {
    var n := |pc| - 1;
    if u :| 0 <= u < n && Waiting(pc[u]) {
      var v := HighestWaiter(pc[..n], u);
      assert forall x :: 0 <= x < n ==> pc[..n][x] == pc[x];
      t := if Waiting(pc[n]) && Target(pc[v]) < Target(pc[n]) then n else v;
    } else {
      t := w;
    }
  }

  /** When everyone is blocked, nobody holds the highest shard waited for. */
  lemma TopIsFree(s: State, t: nat, idx: Route)
    requires Inv(s, idx) && Blocked(s.pc) && Topmost(s.pc, t)
    ensures CanTake(s, t, s.pc[t].op.writes, Target(s.pc[t]))
  {
    var i := Target(s.pc[t]);
    forall u | 0 <= u < |s.pc| ensures !Owns(s.pc[u], i) {
      if Owns(s.pc[u], i) {
        HeldBelow(s, idx, u, i);
        assert false;
      }
    }
  }

  /** No deadlock: while any operation is under way, some thread can take a step. */
  lemma NoDeadlock(s: State, idx: Route, w: nat) returns (t: nat, a: Action)
    requires Inv(s, idx) && w < |s.pc| && !s.pc[w].Idle?
    ensures !a.Begin? && FairlyEnabled(s, t, a, idx)
  {
    if !Blocked(s.pc) {
      t :| 0 <= t < |s.pc| && !s.pc[t].Idle? && !Waiting(s.pc[t]);
      a := UnblockedMoves(s, t, idx);
    } else {
      t := HighestWaiter(s.pc, w);
      if u :| 0 <= u < |s.pc| && Waiting(s.pc[u]) && s.pc[u].op.writes && Target(s.pc[u]) == Target(s.pc[t]) {
        t := u;
      }
      a := Take;
      TopIsFree(s, t, idx);
    }
  }

  /** Steps that `n` sweeps over `shards` shards can take, misses and releases included. */
  function SweepCost(n: nat, shards: nat): nat {
    if n == 0 then 0 else SweepCost(n - 1, shards) + 2 * shards + 4
  }

  function BlockCost(op: Op): nat {
    op.work + 2 * |op.need| + 4
  }

  /** The steps a thread can still take before it is idle. */
  function ThreadCost(p: Phase): nat {
    match p
    case Idle => 0
    case Sweep(op, taken, left) => BlockCost(op) + SweepCost(left, |op.need|) + if taken <= |op.need| then 2 * |op.need| - taken + 3 else 0
    case Undo(op, held, left) => BlockCost(op) + SweepCost(left, |op.need|) + |held| + 1
    case Wait(op, taken) => if taken <= |op.need| then BlockCost(op) - taken else 0
    case Work(op, edits, done) => (if done <= |edits| then |edits| - done else 0) + |op.need| + 2
    case Unlock(op, held) => |held| + 1
  }

  function Cost(pc: seq<Phase>): nat {
    if pc == [] then 0 else ThreadCost(pc[0]) + Cost(pc[1..])
  }

  lemma {:induction false} CostUpdate(pc: seq<Phase>, t: nat, p: Phase)
    requires t < |pc|
    ensures Cost(pc[t := p]) == Cost(pc) - ThreadCost(pc[t]) + ThreadCost(p)
  {
    if t > 0 {
      assert pc[t := p][1..] == pc[1..][t - 1 := p];
      CostUpdate(pc[1..], t - 1, p);
    }
  }

  /** Every step of an operation uses up some of the remaining work. */
  lemma CostFalls(s: State, t: nat, a: Action, idx: Route)
    requires Inv(s, idx) && Enabled(s, t, a, idx) && !a.Begin?
    ensures Cost(Step(s, t, a, idx).pc) < Cost(s.pc)
  {
    var p := s.pc[t];
    assert PhaseOk(p, Replay(s.start, s.log, idx), idx);
    CostUpdate(s.pc, t, NextPhase(s, p, a, idx));
    if a.Start? {
      assert |p.op.plan(View(s.data, p.op.need, idx))| <= p.op.work;
    }
  }

  ghost predicate Advances(s: State, s': State, idx: Route) {
    exists t, a :: Enabled(s, t, a, idx) && !a.Begin? && s' == Step(s, t, a, idx)
  }

  ghost predicate Stuck(s: State, idx: Route) {
    forall t, a :: FairlyEnabled(s, t, a, idx) ==> a.Begin?
  }

  lemma AdvanceStep(s: State, s': State, idx: Route)
    requires Inv(s, idx) && Advances(s, s', idx)
    ensures Inv(s', idx) && Cost(s'.pc) < Cost(s.pc)
  {
    var t, a :| Enabled(s, t, a, idx) && !a.Begin? && s' == Step(s, t, a, idx);
    InvStep(s, t, a, idx);
    CostFalls(s, t, a, idx);
  }

  lemma StuckIsIdle(s: State, idx: Route)
    requires Inv(s, idx)
    ensures Stuck(s, idx) ==> AllIdle(s)
  {
    if w :| 0 <= w < |s.pc| && !s.pc[w].Idle? {
      var t, a := NoDeadlock(s, idx, w);
    }
  }

  /** A continuation in which no new operation begins. */
  ghost predicate Advancing(run: seq<State>, idx: Route) {
    |run| > 0 && forall i :: 0 < i < |run| ==> Advances(run[i - 1], run[i], idx)
  }

  lemma {:induction false} AdvanceBound(run: seq<State>, idx: Route)
    requires Advancing(run, idx) && Inv(run[0], idx)
    ensures |run| - 1 + Cost(run[|run| - 1].pc) <= Cost(run[0].pc) && Inv(run[|run| - 1], idx)
    decreases |run|
  {
    var n := |run| - 1;
    if n > 0 {
      assert Advancing(run[..n], idx);
      AdvanceBound(run[..n], idx);
      AdvanceStep(run[n - 1], run[n], idx);
    }
  }

  /**
   Under every scheduler the operations under way finish: once no new one begins, at most
   `Cost` more steps are possible, and a state without a step left has every thread idle.
   */
  lemma OperationsFinish(run: seq<State>, idx: Route)
    requires Advancing(run, idx) && Inv(run[0], idx)
    ensures |run| - 1 <= Cost(run[0].pc)
    ensures Stuck(run[|run| - 1], idx) ==> AllIdle(run[|run| - 1])
  {
    AdvanceBound(run, idx);
    StuckIsIdle(run[|run| - 1], idx);
  }
}
