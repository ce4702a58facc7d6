/**
 What writers get from the admission protocol, under every schedule: an open admission lets them in,
 only a closed one turns them away, and `enter_mutation` itself waits for nobody.
 */
module AdmissionCalls {
  import opened ByteStrings
  import opened Admission

  /** How many turns went to `t`. */
  ghost function OwnTurns(turns: seq<Turn>, t: Tid): nat {
    if turns == [] then 0 else (if turns[0].t == t then 1 else 0) + OwnTurns(turns[1..], t)
  }

  ghost predicate OpenThroughout(run: seq<State>) {
    forall i :: 0 <= i < |run| ==> !run[i].quiescing
  }

  /** The run from its second state on, and where its threads are then. */
  lemma PlaysOn(run: seq<State>, turns: seq<Turn>)
    requires Plays(run, turns) && turns != []
    ensures Enabled(run[0], turns[0].t, turns[0].a) && run[1] == Step(run[0], turns[0].t, turns[0].a)
    ensures Plays(run[1..], turns[1..]) && run[1..][|turns[1..]|] == run[|turns|]
    ensures run[1].pc == run[0].pc[turns[0].t := NextPhase(run[0], turns[0].t, turns[0].a)]
  {
    forall i | 0 <= i < |turns[1..]|
      ensures Enabled(run[1..][i], turns[1..][i].t, turns[1..][i].a)
      ensures run[1..][i + 1] == Step(run[1..][i], turns[1..][i].t, turns[1..][i].a)
    {
      assert Enabled(run[i + 1], turns[i + 1].t, turns[i + 1].a);
    }
  }

  // ---- An open admission lets every writer in ----

  /** The steps of one attempt that meets an open admission: load, add, re-load. */
  predicate Entering(p: Phase) {
    p.Try? || p.Admit? || p.Recheck? || p.Permit?
  }

  function Left(p: Phase): nat {
    match p
    case Try(_) => 3
    case Admit(_) => 2
    case Recheck(_) => 1
    case _ => 0
  }

  lemma {:induction false} AttemptProceeds(run: seq<State>, turns: seq<Turn>, t: Tid)
    requires Plays(run, turns) && OpenThroughout(run) && t in run[0].pc && Entering(run[0].pc[t])
    requires OwnTurns(turns, t) <= Left(run[0].pc[t])
    ensures t in run[|turns|].pc && Entering(run[|turns|].pc[t])
    ensures Left(run[|turns|].pc[t]) == Left(run[0].pc[t]) - OwnTurns(turns, t)
    decreases |turns|
  {
    if turns != [] {
      PlaysOn(run, turns);
      AttemptProceeds(run[1..], turns[1..], t);
    }
  }

  /**
   A writer that calls while admission is open, and for whom it stays open, holds its permit after
   three turns of its own, whichever call it made and whatever the other threads do meanwhile.
   */
  lemma OpenLetsIn(run: seq<State>, turns: seq<Turn>, t: Tid)
    requires Plays(run, turns) && turns != [] && turns[0].t == t && (turns[0].a.BeginEnter? || turns[0].a.BeginWaiting?)
    requires OpenThroughout(run) && OwnTurns(turns[1..], t) == 3
    ensures t in run[|turns|].pc && run[|turns|].pc[t] == Permit
  {
    PlaysOn(run, turns);
    AttemptProceeds(run[1..], turns[1..], t);
  }

  /** In a waiting call, or in an attempt not yet turned away. */
  predicate WillEnter(p: Phase) {
    Entering(p) || p.Arm? || p.Parked? || ((p.Retreat? || p.RetreatNotify?) && (p.caller.Fast? || p.caller.Looping?))
  }

  /** Turns of its own that keep a writer from its permit once admission is open. */
  function Away(p: Phase): nat {
    match p
    case Arm => 4
    case Parked => 5
    case RetreatNotify(c) => 6
    case Retreat(c) => 7
    case _ => Left(p)
  }

  lemma OpenStep(s: State, t: Tid, a: Action)
    requires !s.quiescing && Enabled(s, t, a) && WillEnter(s.pc[t]) && !s.pc[t].Permit?
    ensures WillEnter(NextPhase(s, t, a)) && Away(NextPhase(s, t, a)) < Away(s.pc[t])
  {
  }

  /** The thread can go, or the notify that wakes it is the owner's next step. */
  ghost predicate Unheld(s: State, t: Tid) {
    || Enabled(s, t, Go)
    || (s.owner.Some? && Enabled(s, s.owner.value, Go) && t in Step(s, s.owner.value, Go).woken)
  }

  lemma OpenUnheld(s: State, t: Tid)
    requires Inv(s) && !s.quiescing && t in s.pc && WillEnter(s.pc[t])
    ensures Unheld(s, t)
  {
    if s.pc[t].Parked? && t !in s.woken {
      assert Reopening(s);
    } else {
      assert Enabled(s, t, Go);
    }
  }

  /**
   Once admission has reopened and stays open, every writer inside a waiting call gets in, wherever the
   reopening met it: either it has had its permit, or it has used up at most seven turns on the way
   there, and nothing but its own next turn, or the reopening notify, is between it and the next step.
   */
  lemma {:induction false} WaitingGetsIn(run: seq<State>, turns: seq<Turn>, t: Tid)
    requires Plays(run, turns) && Inv(run[0]) && OpenThroughout(run) && t in run[0].pc && WillEnter(run[0].pc[t])
    ensures
      || (exists i :: 0 <= i < |run| && t in run[i].pc && run[i].pc[t].Permit?)
      || (t in run[|turns|].pc && OwnTurns(turns, t) + Away(run[|turns|].pc[t]) <= Away(run[0].pc[t]) <= 7
          && Unheld(run[|turns|], t))
    decreases |turns|
  {
    if run[0].pc[t].Permit? {
    } else if turns == [] {
      OpenUnheld(run[0], t);
    } else {
      PlaysOn(run, turns);
      InvStep(run[0], turns[0].t, turns[0].a);
      if turns[0].t == t { OpenStep(run[0], t, turns[0].a); }
      WaitingGetsIn(run[1..], turns[1..], t);
      if i :| 0 <= i < |run[1..]| && t in run[1..][i].pc && run[1..][i].pc[t].Permit? {
        assert run[i + 1].pc[t].Permit?;
      }
    }
  }

  // ---- Only a closed admission turns a writer away ----

  /** In a call that has neither returned nor been admitted. */
  predicate InCall(p: Phase) {
    p.Try? || p.Admit? || p.Recheck? || p.Retreat? || p.RetreatNotify? || p.Arm? || p.Parked?
  }

  /** Every turn of `t` belongs to the call it is in at the start. */
  ghost predicate OneCall(run: seq<State>, turns: seq<Turn>, t: Tid) {
    Plays(run, turns) && forall i :: 0 <= i < |turns| && turns[i].t == t ==> InCall(run[i].pc[t])
  }

  lemma OneCallOn(run: seq<State>, turns: seq<Turn>, t: Tid)
    requires OneCall(run, turns, t) && turns != []
    ensures OneCall(run[1..], turns[1..], t)
  {
    PlaysOn(run, turns);
    forall i | 0 <= i < |turns[1..]| && turns[1..][i].t == t ensures InCall(run[1..][i].pc[t]) {
      assert turns[i + 1].t == t;
    }
  }

  /** At turn `i` a load of `t`, made for the caller `c`, finds admission closed. */
  ghost predicate ClosedLoad(run: seq<State>, turns: seq<Turn>, t: Tid, c: Caller, i: nat) {
    && i < |turns| && i < |run| && turns[i].t == t && t in run[i].pc && run[i].quiescing
    && (run[i].pc[t] == Try(c) || run[i].pc[t] == Recheck(c))
  }

  ghost predicate SawClosed(run: seq<State>, turns: seq<Turn>, t: Tid, c: Caller) {
    exists i :: ClosedLoad(run, turns, t, c, i)
  }

  lemma SawClosedOn(run: seq<State>, turns: seq<Turn>, t: Tid, c: Caller)
    requires |run| == |turns| + 1 && turns != []
    ensures SawClosed(run, turns, t, c) <==> ClosedLoad(run, turns, t, c, 0) || SawClosed(run[1..], turns[1..], t, c)
  {
    if i: nat :| ClosedLoad(run, turns, t, c, i) && i > 0 {
      assert ClosedLoad(run[1..], turns[1..], t, c, i - 1);
    }
    if i: nat :| ClosedLoad(run[1..], turns[1..], t, c, i) {
      assert ClosedLoad(run, turns, t, c, i + 1);
    }
  }

  /** A single attempt: its caller goes nowhere else when refused. */
  predicate Single(c: Caller) {
    c.Direct? || c.Final?
  }

  predicate Attempting(p: Phase, c: Caller) {
    p == Try(c) || p == Admit(c) || p == Recheck(c)
  }

  predicate TurnedAway(p: Phase, c: Caller) {
    p == Retreat(c) || p == RetreatNotify(c) || p == Idle
  }

  /** Turns a single attempt can still take. */
  function Rest(p: Phase): nat {
    match p
    case Try(_) => 5
    case Admit(_) => 4
    case Recheck(_) => 3
    case Retreat(_) => 2
    case RetreatNotify(_) => 1
    case _ => 0
  }

  /** Where a single attempt stands, given whether one of its loads has found admission closed. */
  ghost predicate Stands(p: Phase, c: Caller, saw: bool) {
    if saw then TurnedAway(p, c) else Attempting(p, c) || p.Permit?
  }

  lemma {:induction false} SingleDecided(run: seq<State>, turns: seq<Turn>, t: Tid, c: Caller)
    requires OneCall(run, turns, t) && t in run[0].pc && Single(c)
    requires Attempting(run[0].pc[t], c) || TurnedAway(run[0].pc[t], c) || run[0].pc[t].Permit?
    ensures t in run[|turns|].pc
    ensures Stands(run[|turns|].pc[t], c, TurnedAway(run[0].pc[t], c) || SawClosed(run, turns, t, c))
    ensures OwnTurns(turns, t) + Rest(run[|turns|].pc[t]) <= Rest(run[0].pc[t])
    decreases |turns|
  {
    if turns != [] {
      PlaysOn(run, turns);
      OneCallOn(run, turns, t);
      SawClosedOn(run, turns, t, c);
      SingleDecided(run[1..], turns[1..], t, c);
    }
  }

  /**
   `enter_mutation` ends within five turns of its own. It is refused exactly when its load or its
   re-load found admission closed, and admitted exactly when neither did.
   */
  lemma EnterIsDecided(run: seq<State>, turns: seq<Turn>, t: Tid)
    requires OneCall(run, turns, t) && t in run[0].pc && run[0].pc[t] == Try(Direct)
    ensures t in run[|turns|].pc && Stands(run[|turns|].pc[t], Direct, SawClosed(run, turns, t, Direct))
    ensures OwnTurns(turns, t) + Rest(run[|turns|].pc[t]) <= 5
  {
    SingleDecided(run, turns, t, Direct);
  }

  /** At turn `i` the deadline of `t` passes; at the later turn `j` its last attempt finds admission closed. */
  ghost predicate OutOfTime(run: seq<State>, turns: seq<Turn>, t: Tid, i: nat, j: nat) {
    i < j && i < |turns| && turns[i] == Turn(t, Timeout) && ClosedLoad(run, turns, t, Final, j)
  }

  /** In a waiting call, before its deadline. */
  predicate Waiting(p: Phase) {
    InCall(p) && (p.Arm? || p.Parked? || p.caller.Fast? || p.caller.Looping?)
  }

  /**
   `enter_mutation_waiting` gives up only after its deadline has passed and its last attempt, made
   after that, has found admission closed.
   */
  lemma {:induction false} GivesUpOnlyIfClosed(run: seq<State>, turns: seq<Turn>, t: Tid)
    requires OneCall(run, turns, t) && t in run[0].pc && Waiting(run[0].pc[t])
    ensures t in run[|turns|].pc
    ensures run[|turns|].pc[t].Idle? ==> exists i, j :: OutOfTime(run, turns, t, i, j)
    decreases |turns|
  {
    if turns != [] {
      PlaysOn(run, turns);
      OneCallOn(run, turns, t);
      if turns[0] == Turn(t, Timeout) {
        SingleDecided(run[1..], turns[1..], t, Final);
        if j: nat :| ClosedLoad(run[1..], turns[1..], t, Final, j) {
          assert ClosedLoad(run, turns, t, Final, j + 1);
          assert OutOfTime(run, turns, t, 0, j + 1);
        }
      } else if run[1].pc[t].Permit? {
        PermitStays(run[1..], turns[1..], t);
      } else {
        GivesUpOnlyIfClosed(run[1..], turns[1..], t);
        if i: nat, j: nat :| OutOfTime(run[1..], turns[1..], t, i, j) {
          assert ClosedLoad(run, turns, t, Final, j + 1);
          assert OutOfTime(run, turns, t, i + 1, j + 1);
        }
      }
    }
  }

  /** Once its deadline has passed the call makes one more attempt, which ends it within five turns as any attempt ends. */
  lemma DeadlineDecides(run: seq<State>, turns: seq<Turn>, t: Tid)
    requires OneCall(run, turns, t) && turns != [] && turns[0] == Turn(t, Timeout)
    ensures t in run[|turns|].pc && Stands(run[|turns|].pc[t], Final, SawClosed(run[1..], turns[1..], t, Final))
    ensures OwnTurns(turns[1..], t) + Rest(run[|turns|].pc[t]) <= 5
  {
    PlaysOn(run, turns);
    OneCallOn(run, turns, t);
    SingleDecided(run[1..], turns[1..], t, Final);
  }

  lemma {:induction false} PermitStays(run: seq<State>, turns: seq<Turn>, t: Tid)
    requires OneCall(run, turns, t) && t in run[0].pc && run[0].pc[t].Permit?
    ensures t in run[|turns|].pc && run[|turns|].pc[t].Permit?
    decreases |turns|
  {
    if turns != [] {
      PlaysOn(run, turns);
      OneCallOn(run, turns, t);
      PermitStays(run[1..], turns[1..], t);
    }
  }

  // ---- Permits and guards are given back ----

  /** Turns left to a thread that drops its permit or its guard. */
  function Closing(p: Phase): nat {
    match p
    case QGuard => 3
    case QReopened => 2
    case QNotified => 1
    case Permit => 2
    case DropNotify => 1
    case _ => 0
  }

  /** A drop waits for nobody: it takes at most three turns, each of them enabled, and ends the call. */
  lemma {:induction false} DropsFinish(run: seq<State>, turns: seq<Turn>, t: Tid)
    requires Plays(run, turns) && t in run[0].pc && (Closing(run[0].pc[t]) > 0 || run[0].pc[t].Idle?)
    requires forall i :: 0 <= i < |turns| && turns[i].t == t ==> !run[i].pc[t].Idle?
    ensures t in run[|turns|].pc && OwnTurns(turns, t) + Closing(run[|turns|].pc[t]) <= Closing(run[0].pc[t])
    ensures if Closing(run[|turns|].pc[t]) > 0 then Enabled(run[|turns|], t, Go) else run[|turns|].pc[t].Idle?
    decreases |turns|
  {
    if turns != [] {
      PlaysOn(run, turns);
      forall i | 0 <= i < |turns[1..]| && turns[1..][i].t == t ensures !run[1..][i].pc[t].Idle? {
        assert turns[i + 1].t == t;
      }
      DropsFinish(run[1..], turns[1..], t);
    }
  }
}
