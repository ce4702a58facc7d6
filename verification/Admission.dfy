/**
 The persistence admission protocol: writers enter by load / add / re-load on two
 atomics, quiescers close admission under a mutex and wait for the counter to drain.
 Any number of threads interleave at the level of single atomic operations, which are
 taken as sequentially consistent.
 */
module Admission {
  import opened ByteStrings

  type Tid = nat

  /** Which call an `enter_mutation` attempt belongs to. */
  datatype Caller =
    | Direct   // enter_mutation called on its own
    | Fast     // first attempt of enter_mutation_waiting
    | Looping  // attempt made after arming the notification
    | Final    // last attempt, after the deadline

  /** Program counter: the atomic operation a thread performs next. */
  datatype Phase =
    | Idle
    | Try(caller: Caller)            // load state
    | Admit(caller: Caller)          // fetch_add on the counter
    | Recheck(caller: Caller)        // re-load state
    | Retreat(caller: Caller)        // fetch_sub on the counter
    | RetreatNotify(caller: Caller)  // the sub returned 1: notify_waiters
    | Permit                         // holds a PersistenceMutation; next is its drop
    | DropNotify                     // the drop's sub returned 1: notify_waiters
    | Arm                            // create and enable the notification
    | Parked                         // writer awaits the notification or the deadline
    | QLock                          // await the exclusive mutex
    | QClose                         // store QUIESCING
    | QCheck                         // load the counter
    | QArm                           // create and enable the notification
    | QRecheck                       // re-load the counter
    | QParked                        // await the notification
    | QGuard                         // holds a PersistenceQuiesce; next is its drop
    | QReopened                      // drop stored RUNNING: notify_waiters
    | QNotified                      // release the mutex

  /** `woken` holds the armed threads whose notification has fired. */
  datatype State = State(
    quiescing: bool,
    active: int,
    owner: Option<Tid>,
    pc: map<Tid, Phase>,
    woken: set<Tid>)

  datatype Action = BeginEnter | BeginWaiting | BeginQuiesce | Go | Timeout

  /** A thread holds an enabled notification. */
  predicate Armed(p: Phase) {
    match p
    case Try(c) => c == Looping
    case Admit(c) => c == Looping
    case Recheck(c) => c == Looping
    case Retreat(c) => c == Looping
    case RetreatNotify(c) => c == Looping
    case Parked => true
    case QRecheck => true
    case QParked => true
    case _ => false
  }

  /** Between a thread's add and its sub. */
  predicate InFlight(p: Phase) {
    p.Recheck? || p.Retreat? || p.Permit?
  }

  predicate Notifier(p: Phase) {
    p.RetreatNotify? || p.DropNotify?
  }

  predicate Owns(p: Phase) {
    p.QClose? || Closed(p) || p.QReopened? || p.QNotified?
  }

  /** The owner has closed admission and not yet reopened it. */
  predicate Closed(p: Phase) {
    p.QCheck? || p.QArm? || p.QRecheck? || p.QParked? || p.QGuard?
  }

  /** Where a refused attempt continues. */
  function OnRefused(c: Caller): Phase {
    match c
    case Direct => Idle
    case Fast => Arm
    case Looping => Parked
    case Final => Idle
  }

  predicate Enabled(s: State, t: Tid, a: Action) {
    t in s.pc &&
    match a
    case Go =>
      !s.pc[t].Idle? &&
      (s.pc[t].Parked? || s.pc[t].QParked? ==> t in s.woken) &&
      (s.pc[t].QLock? ==> s.owner.None?)
    case Timeout => s.pc[t].Parked?
    case _ => s.pc[t].Idle?
  }

  /** Control flow: where `t` goes after the operation at its program counter. */
  function NextPhase(s: State, t: Tid, a: Action): Phase
    requires Enabled(s, t, a)
  {
    match a
    case BeginEnter => Try(Direct)
    case BeginWaiting => Try(Fast)
    case BeginQuiesce => QLock
    case Timeout => Try(Final)
    case Go =>
      match s.pc[t]
      case Idle => Idle
      case Try(c) => if s.quiescing then OnRefused(c) else Admit(c)
      case Admit(c) => Recheck(c)
      case Recheck(c) => if s.quiescing then Retreat(c) else Permit
      case Retreat(c) => if s.active == 1 then RetreatNotify(c) else OnRefused(c)
      case RetreatNotify(c) => OnRefused(c)
      case Permit => if s.active == 1 then DropNotify else Idle
      case DropNotify => Idle
      case Arm => Try(Looping)
      case Parked => Arm
      case QLock => QClose
      case QClose => QCheck
      case QCheck => if s.active == 0 then QGuard else QArm
      case QArm => QRecheck
      case QRecheck => if s.active == 0 then QGuard else QParked
      case QParked => QCheck
      case QGuard => QReopened
      case QReopened => QNotified
      case QNotified => Idle
  }

  /** The counter after the operation: one fetch_add, two fetch_subs. */
  function NextActive(p: Phase, active: int): int {
    match p
    case Admit(_) => active + 1
    case Retreat(_) => active - 1
    case Permit => active - 1
    case _ => active
  }

  /** notify_waiters wakes every thread armed at that moment and leaves nothing for later ones. */
  function NextWoken(s: State, p: Phase): set<Tid> {
    if Notifier(p) || p.QReopened? then s.woken + set t | t in s.pc && Armed(s.pc[t]) else s.woken
  }

  /** One atomic operation of thread `t`. A thread that moves on without its notification drops it. */
  function Step(s: State, t: Tid, a: Action): State
    requires Enabled(s, t, a)
  {
    var p, p' := s.pc[t], NextPhase(s, t, a);
    var woken := NextWoken(s, p);
    State(
      if p.QClose? then true else if p.QGuard? then false else s.quiescing,
      NextActive(p, s.active),
      if p.QLock? then Some(t) else if p.QNotified? then None else s.owner,
      s.pc[t := p'],
      if Armed(p') then woken else woken - {t})
  }

  ghost predicate Init(s: State) {
    !s.quiescing && s.active == 0 && s.owner.None? && s.woken == {} && forall t :: t in s.pc ==> s.pc[t].Idle?
  }

  /** `run` is an interleaving: every state follows from the one before by a step of some thread. */
  ghost predicate Run(run: seq<State>) {
    |run| > 0 && Init(run[0]) &&
    forall i :: 0 < i < |run| ==> Follows(run[i - 1], run[i])
  }

  ghost predicate Follows(s: State, s': State) {
    exists t, a :: Enabled(s, t, a) && s' == Step(s, t, a)
  }

  // ---- The invariant ----

  ghost function Flying(s: State): set<Tid> {
    set t | t in s.pc && InFlight(s.pc[t])
  }

  /** The counter counts exactly the threads between their add and their sub. */
  ghost predicate CounterExact(s: State) {
    s.active == |Flying(s)|
  }

  /** The mutex owner is the one thread past its lock, and admission is closed exactly while it says so. */
  ghost predicate OneOwner(s: State) {
    && (forall t :: t in s.pc ==> (Owns(s.pc[t]) <==> s.owner == Some(t)))
    && (s.owner.Some? ==> s.owner.value in s.pc)
    && (s.quiescing <==> s.owner.Some? && Closed(s.pc[s.owner.value]))
  }

  /** A quiesce guard excludes every permit. */
  ghost predicate Exclusive(s: State) {
    forall g, t :: g in s.pc && t in s.pc && s.pc[g].QGuard? ==> !s.pc[t].Permit?
  }

  ghost predicate WokenArmed(s: State) {
    forall t :: t in s.woken ==> t in s.pc && Armed(s.pc[t])
  }

  /** A parked quiescer whose wake-up has not fired: writers are still counted, or their notify is on its way. */
  ghost predicate QuiescerWillWake(s: State) {
    forall q :: q in s.pc && s.pc[q].QParked? && q !in s.woken ==>
      s.active > 0 || exists u :: u in s.pc && Notifier(s.pc[u])
  }

  /** The owner is between storing RUNNING and notifying. */
  ghost predicate Reopening(s: State) {
    s.owner.Some? && s.owner.value in s.pc && s.pc[s.owner.value].QReopened?
  }

  /** A writer that was refused after arming: admission is still closed, or the reopening notify is on its way. */
  ghost predicate WriterWillWake(s: State) {
    forall w :: w in s.pc && w !in s.woken && RefusedArmed(s.pc[w]) ==> s.quiescing || Reopening(s)
  }

  predicate RefusedArmed(p: Phase) {
    p.Parked? || p == Retreat(Looping) || p == RetreatNotify(Looping)
  }

  ghost predicate Inv(s: State) {
    && CounterExact(s) && OneOwner(s) && Exclusive(s)
    && WokenArmed(s) && QuiescerWillWake(s) && WriterWillWake(s)
  }

  lemma CounterStep(s: State, t: Tid, a: Action)
    requires CounterExact(s) && Enabled(s, t, a)
    ensures CounterExact(Step(s, t, a))
  {
    var s' := Step(s, t, a);
    if InFlight(s.pc[t]) == InFlight(s'.pc[t]) {
      assert Flying(s') == Flying(s);
    } else if InFlight(s.pc[t]) {
      assert Flying(s') == Flying(s) - {t};
    } else {
      assert Flying(s') == Flying(s) + {t};
    }
  }

  lemma OwnerStep(s: State, t: Tid, a: Action)
    requires OneOwner(s) && Enabled(s, t, a)
    ensures OneOwner(Step(s, t, a))
  {
  }

  /** A positive counter has a thread behind it, and a counted thread makes it positive. */
  lemma CounterWitness(s: State)
    requires CounterExact(s)
    ensures s.active >= 0
    ensures s.active > 0 <==> exists t :: t in s.pc && InFlight(s.pc[t])
  {
    if s.active > 0 {
      var t :| t in Flying(s);
    }
    if t :| t in s.pc && InFlight(s.pc[t]) {
      assert t in Flying(s);
    }
  }

  lemma ExclusiveStep(s: State, t: Tid, a: Action)
    requires Inv(s) && Enabled(s, t, a)
    ensures Exclusive(Step(s, t, a))
  {
    CounterWitness(s);
  }

  lemma WakeStep(s: State, t: Tid, a: Action)
    requires Inv(s) && Enabled(s, t, a)
    ensures WokenArmed(Step(s, t, a))
    ensures QuiescerWillWake(Step(s, t, a))
  {
    CounterWitness(s);
    var s' := Step(s, t, a);
    forall q | q in s'.pc && s'.pc[q].QParked? && q !in s'.woken
      ensures s'.active > 0 || exists u :: u in s'.pc && Notifier(s'.pc[u])
    {
      if s'.active <= 0 {
        assert q != t ==> s.pc[q].QParked? && q !in s.woken;
        if s.active > 0 {
          assert Notifier(s'.pc[t]);
        } else if q != t {
          var u :| u in s.pc && Notifier(s.pc[u]);
          assert Notifier(s'.pc[u]);
        }
      }
    }
  }

  lemma WriterStep(s: State, t: Tid, a: Action)
    requires Inv(s) && Enabled(s, t, a)
    ensures WriterWillWake(Step(s, t, a))
  {
    OwnerStep(s, t, a);
  }

  lemma InvStep(s: State, t: Tid, a: Action)
    requires Inv(s) && Enabled(s, t, a)
    ensures Inv(Step(s, t, a))
  {
    CounterStep(s, t, a);
    OwnerStep(s, t, a);
    ExclusiveStep(s, t, a);
    WakeStep(s, t, a);
    WriterStep(s, t, a);
  }

  /** Every state of every interleaving satisfies the invariant. */
  lemma {:induction false} RunInv(run: seq<State>, i: nat)
    requires Run(run) && i < |run|
    ensures Inv(run[i])
  {
    if i == 0 {
      assert Flying(run[0]) == {};
    } else {
      RunInv(run, i - 1);
      assert Follows(run[i - 1], run[i]);
      var t, a :| Enabled(run[i - 1], t, a) && run[i] == Step(run[i - 1], t, a);
      InvStep(run[i - 1], t, a);
    }
  }

  // ---- What the protocol promises ----

  /** Safety: the counter is exact in every interleaving, and no permit coexists with a guard. */
  lemma SnapshotSeesNoWriter(run: seq<State>, i: nat, g: Tid)
    requires Run(run) && i < |run|
    requires g in run[i].pc && run[i].pc[g].QGuard?
    ensures run[i].quiescing && run[i].owner == Some(g)
    ensures forall t :: t in run[i].pc ==> !run[i].pc[t].Permit?
    ensures forall t :: t in run[i].pc && t != g ==> !run[i].pc[t].QGuard?
    ensures run[i].active == |Flying(run[i])|
  {
    RunInv(run, i);
  }

  /** No wake-up is lost, for either kind of waiter. */
  lemma NoLostWakeup(run: seq<State>, i: nat, w: Tid)
    requires Run(run) && i < |run| && w in run[i].pc && w !in run[i].woken
    ensures run[i].pc[w].QParked? ==>
      || (exists t :: t in run[i].pc && InFlight(run[i].pc[t]))
      || (exists t :: t in run[i].pc && Notifier(run[i].pc[t]))
    ensures run[i].pc[w].Parked? ==>
      exists q :: q in run[i].pc && (Closed(run[i].pc[q]) || run[i].pc[q].QReopened?)
  {
    RunInv(run, i);
    CounterWitness(run[i]);
    if run[i].pc[w].Parked? {
      assert Closed(run[i].pc[run[i].owner.value]) || run[i].pc[run[i].owner.value].QReopened?;
    }
  }

  /** Some thread other than the idle ones can move without a timeout, unless all are idle. */
  lemma NoDeadlock(run: seq<State>, i: nat, t: Tid)
    requires Run(run) && i < |run| && t in run[i].pc && !run[i].pc[t].Idle?
    ensures exists u :: Enabled(run[i], u, Go)
  {
    RunInv(run, i);
    SomeoneMoves(run[i], t);
  }

  lemma SomeoneMoves(s: State, t: Tid)
    requires Inv(s) && t in s.pc && !s.pc[t].Idle?
    ensures exists u :: Enabled(s, u, Go)
  {
    CounterWitness(s);
    if s.pc[t].QParked? && t !in s.woken {
      QuiescerUnblocked(s, t);
    } else if (s.pc[t].Parked? && t !in s.woken) || (s.pc[t].QLock? && s.owner.Some?) {
      // The owner holds t up, and the owner itself is not stuck.
      var q := s.owner.value;
      if s.pc[q].QParked? && q !in s.woken {
        QuiescerUnblocked(s, q);
      } else {
        assert Enabled(s, q, Go);
      }
    } else {
      assert Enabled(s, t, Go);
    }
  }

  lemma QuiescerUnblocked(s: State, q: Tid)
    requires Inv(s) && q in s.pc && s.pc[q].QParked? && q !in s.woken
    ensures exists u :: Enabled(s, u, Go)
  {
    CounterWitness(s);
    if s.active > 0 {
      var u :| u in s.pc && InFlight(s.pc[u]);
      assert Enabled(s, u, Go);
    } else {
      var u :| u in s.pc && Notifier(s.pc[u]);
      assert Enabled(s, u, Go);
    }
  }

  // ---- A closed admission drains ----

  /** Steps `p` may still take while admission stays closed; each pending notify is worth `k`. */
  function Cost(p: Phase, k: nat): nat {
    match p
    case Idle => 0
    case Try(c) => 1 + RefusedCost(c)
    case Admit(c) => k + 3 + RefusedCost(c)
    case Recheck(c) => k + 2 + RefusedCost(c)
    case Retreat(c) => k + 1 + RefusedCost(c)
    case RetreatNotify(c) => k + RefusedCost(c)
    case Permit => k + 1
    case DropNotify => k
    case Arm => 4
    case Parked => 2
    case QCheck => 3
    case QArm => 2
    case QRecheck => 1
    case _ => 0
  }

  function Weigh(k: nat): Phase -> nat {
    p => Cost(p, k)
  }

  function RefusedCost(c: Caller): nat {
    match c
    case Direct => 0
    case Fast => 4
    case Looping => 2
    case Final => 0
  }

  ghost function TotalCost(pc: map<Tid, Phase>, ts: set<Tid>, w: Phase -> nat): nat
    requires ts <= pc.Keys
    decreases |ts|
  {
    if ts == {} then 0
    else
      var t :| t in ts;
      w(pc[t]) + TotalCost(pc, ts - {t}, w)
  }

  lemma {:induction false} TotalCostSplit(pc: map<Tid, Phase>, ts: set<Tid>, w: Phase -> nat, t: Tid)
    requires ts <= pc.Keys && t in ts
    ensures TotalCost(pc, ts, w) == w(pc[t]) + TotalCost(pc, ts - {t}, w)
    decreases |ts|
  {
    var u :| u in ts && TotalCost(pc, ts, w) == w(pc[u]) + TotalCost(pc, ts - {u}, w);
    if u != t {
      TotalCostSplit(pc, ts - {u}, w, t);
      TotalCostSplit(pc, ts - {t}, w, u);
      assert ts - {u} - {t} == ts - {t} - {u};
    }
  }

  lemma {:induction false} TotalCostSame(pc: map<Tid, Phase>, pc': map<Tid, Phase>, ts: set<Tid>, w: Phase -> nat)
    requires ts <= pc.Keys && ts <= pc'.Keys && forall t :: t in ts ==> pc[t] == pc'[t]
    ensures TotalCost(pc, ts, w) == TotalCost(pc', ts, w)
    decreases |ts|
  {
    if ts != {} {
      var t :| t in ts;
      TotalCostSplit(pc, ts, w, t);
      TotalCostSplit(pc', ts, w, t);
      TotalCostSame(pc, pc', ts - {t}, w);
    }
  }

  /** An upper bound on the steps left until the owner holds its guard, as long as no new call begins. */
  ghost function Backlog(s: State): nat {
    TotalCost(s.pc, s.pc.Keys, Weigh(4 * |s.pc| + 1)) + 4 * |s.woken|
  }

  /** Admission is closed and its owner is still waiting for the drain. */
  ghost predicate Draining(s: State) {
    s.quiescing && s.owner.Some? && s.owner.value in s.pc && !s.pc[s.owner.value].QGuard?
  }

  lemma WokenBounded(s: State)
    requires WokenArmed(s)
    ensures |s.woken| <= |s.pc|
  {
    assert s.woken <= s.pc.Keys;
    SubsetSize(s.woken, s.pc.Keys);
  }

  /** With the owner draining, no other thread is past its lock. */
  lemma DrainingPhases(s: State, t: Tid, a: Action)
    requires OneOwner(s) && Draining(s) && Enabled(s, t, a)
    ensures !s.pc[t].QClose? && !s.pc[t].QGuard? && !s.pc[t].QReopened? && !s.pc[t].QNotified?
    ensures a.Go? ==> !s.pc[t].QLock?
  {
  }

  /** Leaving a phase costs at least one; a phase left with its notification spent gives four back. */
  lemma PhaseCost(s: State, t: Tid, a: Action, k: nat)
    requires Enabled(s, t, a) && s.quiescing && (a.Go? || a.Timeout?)
    requires !s.pc[t].QClose? && !s.pc[t].QGuard? && !s.pc[t].QReopened? && !s.pc[t].QNotified? && !s.pc[t].QLock?
    ensures Cost(NextPhase(s, t, a), k) + (if Notifier(s.pc[t]) then k else 1)
         <= Cost(s.pc[t], k) + (if t in s.woken && Armed(s.pc[t]) && !Armed(NextPhase(s, t, a)) then 4 else 0)
  {
  }

  /** The price paid by the moving thread covers the wake-ups it hands out. */
  lemma WokenCost(s: State, t: Tid, a: Action)
    requires WokenArmed(s) && Enabled(s, t, a) && !s.pc[t].QReopened? && !Notifier(s.pc[t])
    ensures |Step(s, t, a).woken| ==
      |s.woken| - (if t in s.woken && Armed(s.pc[t]) && !Armed(NextPhase(s, t, a)) then 1 else 0)
  {
    if !Armed(NextPhase(s, t, a)) && t !in s.woken {
      assert s.woken - {t} == s.woken;
    }
  }

  /** While admission is closed, every step that does not begin a new call brings the guard closer. */
  lemma BacklogFalls(s: State, t: Tid, a: Action)
    requires Inv(s) && Draining(s) && Enabled(s, t, a) && (a.Go? || a.Timeout?)
    ensures Step(s, t, a).owner == s.owner && Step(s, t, a).quiescing
    ensures Backlog(Step(s, t, a)) < Backlog(s)
  {
    DrainingPhases(s, t, a);
    PriceFalls(s, t, a);
    BacklogMove(s, t, a);
  }

  /** The moving thread's cost and the wake-ups, together. */
  lemma PriceFalls(s: State, t: Tid, a: Action)
    requires Inv(s) && Draining(s) && Enabled(s, t, a) && (a.Go? || a.Timeout?)
    ensures var k := 4 * |s.pc| + 1;
      Cost(NextPhase(s, t, a), k) + 4 * |Step(s, t, a).woken| < Cost(s.pc[t], k) + 4 * |s.woken|
  {
    DrainingPhases(s, t, a);
    PhaseCost(s, t, a, 4 * |s.pc| + 1);
    if Notifier(s.pc[t]) {
      WakeStep(s, t, a);
      WokenBounded(Step(s, t, a));
      TotalCostMove(s.pc, t, NextPhase(s, t, a), DrainCost);
    } else {
      WokenCost(s, t, a);
    }
  }

  lemma BacklogMove(s: State, t: Tid, a: Action)
    requires Enabled(s, t, a)
    ensures var s', k := Step(s, t, a), 4 * |s.pc| + 1;
      Backlog(s') == Backlog(s) - Cost(s.pc[t], k) + Cost(NextPhase(s, t, a), k) - 4 * |s.woken| + 4 * |s'.woken|
  {
    var k := 4 * |s.pc| + 1;
    TotalCostMove(s.pc, t, NextPhase(s, t, a), Weigh(k));
  }

  lemma TotalCostMove(pc: map<Tid, Phase>, t: Tid, p: Phase, w: Phase -> nat)
    requires t in pc
    ensures pc[t := p].Keys == pc.Keys && |pc[t := p]| == |pc|
    ensures TotalCost(pc[t := p], pc.Keys, w) == TotalCost(pc, pc.Keys, w) - w(pc[t]) + w(p)
  {
    var pc' := pc[t := p];
    assert pc'.Keys == pc.Keys && |pc'| == |pc'.Keys| && |pc| == |pc.Keys|;
    TotalCostSplit(pc, pc.Keys, w, t);
    TotalCostSplit(pc', pc.Keys, w, t);
    TotalCostSame(pc, pc', pc.Keys - {t}, w);
  }

  /** A step that does not begin a new call. */
  ghost predicate QuietStep(s: State, s': State) {
    exists t, a :: Enabled(s, t, a) && (a.Go? || a.Timeout?) && s' == Step(s, t, a)
  }

  /** Some thread has a step left other than a timeout. */
  ghost predicate CanMove(s: State) {
    exists u :: Enabled(s, u, Go)
  }

  /** The owner of state `s` holds its guard in `s'`. */
  ghost predicate Guards(s: State, s': State) {
    s.owner.Some? && s'.owner == s.owner && s.owner.value in s'.pc && s'.pc[s.owner.value].QGuard?
  }

  /**
   Quiesce completes: take any continuation, of any length, of a state in which admission is closed, in
   which no new call begins. Either the owner has held its guard on the way, or the continuation is no
   longer than the backlog was and some thread can still move. So under every scheduler the owner gets
   its guard after at most `Backlog` steps.
   */
  lemma {:induction false} QuiesceCompletes(run: seq<State>, k: nat)
    requires Run(run) && k < |run| && Draining(run[k])
    requires forall i :: k < i < |run| ==> QuietStep(run[i - 1], run[i])
    ensures
      || (exists i :: k < i <= k + Backlog(run[k]) && i < |run| && Guards(run[k], run[i]))
      || (|run| - 1 - k <= Backlog(run[k]) && Draining(run[|run| - 1]) && CanMove(run[|run| - 1]))
    decreases |run| - k
  {
    RunInv(run, k);
    if k + 1 == |run| {
      SomeoneMoves(run[k], run[k].owner.value);
    } else {
      assert QuietStep(run[k], run[k + 1]);
      var t, a :| Enabled(run[k], t, a) && (a.Go? || a.Timeout?) && run[k + 1] == Step(run[k], t, a);
      BacklogFalls(run[k], t, a);
      if Draining(run[k + 1]) {
        QuiesceCompletes(run, k + 1);
        if i :| k + 1 < i <= k + 1 + Backlog(run[k + 1]) && i < |run| && Guards(run[k + 1], run[i]) {
          assert Guards(run[k], run[i]);
        }
      } else {
        assert Guards(run[k], run[k + 1]);
      }
    }
  }

  // ---- New callers cannot hold a quiescer up ----

  /** What is still to do before the owner gets its guard; callers that arrive after closing add nothing. */
  function DrainCost(p: Phase): nat {
    match p
    case Admit(_) => 9
    case Recheck(_) => 8
    case Retreat(_) => 7
    case Permit => 7
    case RetreatNotify(_) => 6
    case DropNotify => 6
    case QCheck => 3
    case QArm => 2
    case QRecheck => 1
    case _ => 0
  }

  ghost function Drain(s: State): nat {
    TotalCost(s.pc, s.pc.Keys, DrainCost) + if s.owner.Some? && s.owner.value in s.woken then 4 else 0
  }

  /** The thread is the owner, or a writer or notifier the owner waits for. */
  predicate Needed(s: State, t: Tid) {
    s.owner == Some(t) || (t in s.pc && (s.pc[t].Admit? || InFlight(s.pc[t]) || Notifier(s.pc[t])))
  }

  /** How the phase of a moving thread other than the owner changes the cost. */
  lemma DrainPhase(s: State, t: Tid, a: Action)
    requires Inv(s) && Draining(s) && Enabled(s, t, a) && s.owner != Some(t)
    ensures var p, p' := s.pc[t], NextPhase(s, t, a);
      && DrainCost(p') <= DrainCost(p)
      && (Notifier(p) ==> DrainCost(p') + 6 <= DrainCost(p))
      && (Needed(s, t) ==> DrainCost(p') < DrainCost(p))
  {
    DrainingPhases(s, t, a);
  }

  /** The owner's own steps. */
  lemma DrainOwner(s: State, a: Action)
    requires Inv(s) && Draining(s) && Enabled(s, s.owner.value, a)
    ensures var t := s.owner.value; var s' := Step(s, t, a);
      && a.Go? && s'.owner == s.owner && s'.quiescing
      && DrainCost(NextPhase(s, t, a)) + (if t in s'.woken then 4 else 0) < DrainCost(s.pc[t]) + if t in s.woken then 4 else 0
  {
  }

  /** No step of any thread, new calls included, adds to what is left; a needed thread's step takes away. */
  lemma DrainFalls(s: State, t: Tid, a: Action)
    requires Inv(s) && Draining(s) && Enabled(s, t, a)
    ensures Step(s, t, a).owner == s.owner && Step(s, t, a).quiescing
    ensures Drain(Step(s, t, a)) <= Drain(s)
    ensures Needed(s, t) ==> Drain(Step(s, t, a)) < Drain(s)
  {
    TotalCostMove(s.pc, t, NextPhase(s, t, a), DrainCost);
    DrainingPhases(s, t, a);
    if s.owner == Some(t) {
      DrainOwner(s, a);
    } else {
      DrainPhase(s, t, a);
    }
  }

  /** While the owner waits, a thread it needs can move. */
  lemma NeededMoves(s: State) returns (u: Tid)
    requires Inv(s) && Draining(s)
    ensures Needed(s, u) && Enabled(s, u, Go)
  {
    var q := s.owner.value;
    CounterWitness(s);
    if s.pc[q].QParked? && q !in s.woken {
      if s.active > 0 {
        u :| u in s.pc && InFlight(s.pc[u]);
      } else {
        u :| u in s.pc && Notifier(s.pc[u]);
      }
    } else {
      u := q;
    }
  }

  datatype Turn = Turn(t: Tid, a: Action)

  /** `run` is what the schedule makes of its first state; it may begin calls at any time. */
  ghost predicate Plays(run: seq<State>, turns: seq<Turn>) {
    |run| == |turns| + 1 &&
    forall i :: 0 <= i < |turns| ==> Enabled(run[i], turns[i].t, turns[i].a) && run[i + 1] == Step(run[i], turns[i].t, turns[i].a)
  }

  /** How many turns went to threads the owner needed. */
  ghost function NeededTurns(run: seq<State>, turns: seq<Turn>): nat
    requires |run| == |turns| + 1
  {
    if turns == [] then 0
    else (if Needed(run[0], turns[0].t) then 1 else 0) + NeededTurns(run[1..], turns[1..])
  }

  /**
   New callers cannot starve a quiescer. From any state in which admission is closed, under any
   schedule, with any number of new calls: either the owner has held its guard, or at most `Drain`
   turns have gone to threads it needs, and such a thread can take the next one.
   */
  lemma {:induction false} NewCallersCannotStarve(run: seq<State>, turns: seq<Turn>)
    requires Plays(run, turns) && Inv(run[0]) && Draining(run[0])
    ensures
      || (exists i :: 0 < i < |run| && Guards(run[0], run[i]))
      || (NeededTurns(run, turns) + Drain(run[|turns|]) <= Drain(run[0])
          && exists u :: Needed(run[|turns|], u) && Enabled(run[|turns|], u, Go))
    decreases |turns|
  {
    if turns == [] {
      var u := NeededMoves(run[0]);
    } else {
      InvStep(run[0], turns[0].t, turns[0].a);
      DrainFalls(run[0], turns[0].t, turns[0].a);
      if Draining(run[1]) {
        NewCallersCannotStarve(run[1..], turns[1..]);
        if i :| 0 < i < |run[1..]| && Guards(run[1], run[1..][i]) {
          assert Guards(run[0], run[i + 1]);
        }
      } else {
        assert Guards(run[0], run[1]);
      }
    }
  }
}
