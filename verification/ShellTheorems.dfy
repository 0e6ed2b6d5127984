/** What the protocol of mps/03/tsh.c guarantees on every run, and where it does
    not do what its comments say. */
module ShellTheorems {
  import opened JobTable
  import opened Shell

  // ------------------------------------------------------------------ safety

  /** Every reachable state: at most one foreground job, none at the prompt, and
      distinct jobs for distinct children that have not been reaped, but for the one
      that the handler has just reaped and is about to delete. */
  lemma JobControl(r: seq<State>, n: nat)
    requires Run(r) && n < |r|
    ensures var s := r[n]; var t := s.jobs.table;
            && |t| == MAXJOBS
            && (forall i, k | 0 <= i < MAXJOBS && 0 <= k < MAXJOBS && t[i].state == Fg && t[k].state == Fg :: i == k)
            && (s.main == Prompt ==> forall i | 0 <= i < MAXJOBS :: t[i].state != Fg)
            && (forall i, k | 0 <= i < k < MAXJOBS && t[i].pid != 0 :: t[i].pid != t[k].pid)
            && (forall i | 0 <= i < MAXJOBS && t[i].pid != 0 ::
                  t[i].pid in s.children || (s.handler.Got? && s.handler.pid == t[i].pid && t[i].state == Fg))
            && s.handler != Crashed
  {
    RunSafe(r, n);
    var s := r[n];
    var t := s.jobs.table;
    forall i | 0 <= i < MAXJOBS && t[i].state == Fg { FgPidIs(s, i); }
    forall i | 0 <= i < MAXJOBS && t[i].pid != 0 && t[i].pid !in s.children
      ensures s.handler.Got? && s.handler.pid == t[i].pid && t[i].state == Fg
    {
      ForegroundHolds(s, i);
    }
  }

  lemma ForegroundHolds(s: State, i: int)
    requires Safe(s) && 0 <= i < MAXJOBS && s.jobs.table[i].pid == FgPid(s.jobs.table) != 0
    ensures s.jobs.table[i].state == Fg
  {
    var k := FgSlot(s.jobs.table);
    assert s.jobs.table[k].pid == s.jobs.table[i].pid;
  }

  /** The handler reaps the foreground job only, and only a job that was in the
      foreground ever leaves the table: children in the background stay zombies. */
  lemma OnlyForegroundReaped(s: State, s': State, pid: int)
    requires Safe(s) && Next(s, s')
    ensures pid in s.children && pid !in s'.children ==> pid == FgPid(s.jobs.table) && s.children[pid].Zombie?
    ensures SlotOf(s.jobs.table, pid) < MAXJOBS == |s'.jobs.table| && SlotOf(s'.jobs.table, pid) == MAXJOBS ==>
              pid == 0 || pid == FgPid(s.jobs.table)
  {
    if pid in s.children && pid !in s'.children {
      LeavesByReaping(s, s', pid);
    }
    if SlotOf(s.jobs.table, pid) < MAXJOBS == |s'.jobs.table| && SlotOf(s'.jobs.table, pid) == MAXJOBS && pid != 0 {
      LeavesByDeleting(s, s', pid);
    }
  }

  lemma LeavesByReaping(s: State, s': State, pid: int)
    requires Safe(s) && Next(s, s') && pid in s.children && pid !in s'.children
    ensures pid == FgPid(s.jobs.table) && s.children[pid].Zombie?
  {
    hide TableOk, MainOk, FgPid, Deleted, Added, SlotOf, JidSlot, WithState;
  }

  lemma LeavesByDeleting(s: State, s': State, pid: int)
    requires Safe(s) && Next(s, s') && pid != 0
    requires SlotOf(s.jobs.table, pid) < MAXJOBS == |s'.jobs.table| && SlotOf(s'.jobs.table, pid) == MAXJOBS
    ensures pid == FgPid(s.jobs.table)
  {
    hide MainOk, HandlerOk, KernelStep, HandlerStep, MainStep, Record, List, Mark, FgPid;
    var i := SlotOf(s.jobs.table, pid);
    assert s.jobs.table[i].pid == pid && s'.jobs.table[i].pid != pid;
    JobsChange(s, s');
    if Record(s, s') {
      RecordSlot(s, s', i);
    } else if List(s, s') || Mark(s, s') {
      ListSlot(s, s', i);
    }
  }

  lemma RecordSlot(s: State, s': State, i: nat)
    requires Safe(s) && Record(s, s') && i < MAXJOBS == |s.jobs.table| == |s'.jobs.table|
    ensures s.jobs.table[i].pid != FgPid(s.jobs.table) ==> s'.jobs.table[i].pid == s.jobs.table[i].pid
  {
    hide TableOk, MainOk, MaxJid, FgPid;
    HandlerAsked(s);
  }

  lemma ListSlot(s: State, s': State, i: nat)
    requires (List(s, s') || Mark(s, s')) && i < MAXJOBS == |s.jobs.table| == |s'.jobs.table|
    ensures s.jobs.table[i].pid != 0 ==> s'.jobs.table[i].pid == s.jobs.table[i].pid
  {
  }

  lemma HandlerAsked(s: State)
    requires Safe(s) && s.handler.Got?
    ensures s.handler.pid == FgPid(s.jobs.table)
  {
  }

  /** The steps that touch the job table. */
  lemma JobsChange(s: State, s': State)
    requires Next(s, s')
    ensures Record(s, s') || List(s, s') || Mark(s, s') || s'.jobs == s.jobs
  {
    hide Safe;
  }

  // ---------------------------------------------------------------- liveness

  /** The shell waits for a foreground job whose change of state is unreported. */
  ghost predicate WaitsForChange(s: State) {
    && s.main.Waiting? && FgPid(s.jobs.table) == s.main.pid
    && s.main.pid in s.children && Reportable(s.children[s.main.pid])
  }

  /** Steps of the shell's own, main loop and handler. */
  ghost predicate OwnStep(s: State, s': State) {
    HandlerStep(s, s') || MainStep(s, s')
  }

  ghost predicate OwnRun(r: seq<State>) {
    |r| > 0 && forall i {:trigger OwnHop(r, i)} | 0 <= i < |r| - 1 :: OwnHop(r, i)
  }

  ghost predicate OwnHop(r: seq<State>, i: int)
    requires 0 <= i < |r| - 1
  {
    OwnStep(r[i], r[i + 1])
  }

  ghost predicate Reaches(r: seq<State>, s: State, main: Main) {
    OwnRun(r) && r[0] == s && r[|r| - 1].main == main
  }

  lemma OwnBefore(s: State, r: seq<State>, main: Main) returns (r': seq<State>)
    requires OwnRun(r) && OwnStep(s, r[0]) && r[|r| - 1].main == main
    ensures Reaches(r', s, main)
  {
    r' := [s] + r;
    forall i | 0 <= i < |r'| - 1
      ensures OwnHop(r', i)
    {
      if i > 0 { assert OwnHop(r, i - 1); }
    }
  }

  /** With no signal on its way, no step of the shell changes anything. */
  lemma WithoutSignal(s: State, s': State)
    requires Safe(s) && WaitsForChange(s) && !s.pending && s.handler == Idle && OwnStep(s, s')
    ensures s' == s
  {
  }

  lemma {:induction false} WithoutSignalRun(r: seq<State>, i: nat)
    requires OwnRun(r) && i < |r|
    requires Safe(r[0]) && WaitsForChange(r[0]) && !r[0].pending && r[0].handler == Idle
    ensures r[i] == r[0]
  {
    hide Safe, WaitsForChange, OwnStep;
    if i > 0 {
      WithoutSignalRun(r, i - 1);
      assert OwnHop(r, i - 1);
      WithoutSignal(r[i - 1], r[i]);
    }
  }

  /** Once no foreground job is listed, the handler ends and waitfg returns. */
  lemma ReturnsAfterLoop(s: State) returns (r: seq<State>)
    requires s.main.Waiting? && s.main.pid >= 1 && s.handler == Loop && FgPid(s.jobs.table) == 0
    ensures Reaches(r, s, Prompt)
  {
    var s1 := s.(handler := Asking(0));
    var s2 := s.(handler := Idle);
    var s3 := s2.(main := Prompt);
    assert FindForeground(s, s1) && WaitPid(s1, s2) && Spin(s2, s3);
    r := OwnBefore(s2, [s3], Prompt);
    r := OwnBefore(s1, r, Prompt);
    r := OwnBefore(s, r, Prompt);
  }

  lemma ReturnsAfterAsking(s: State) returns (r: seq<State>)
    requires Safe(s) && WaitsForChange(s) && s.handler.Asking?
    ensures Reaches(r, s, Prompt)
  {
    var p := s.main.pid;
    var i := FgSlot(s.jobs.table);
    FgPidIs(s, i);
    assert SlotOf(s.jobs.table, p) == i;
    var s1, s2: State;
    if s.children[p].Zombie? {
      s1 := s.(children := s.children - {p}, handler := Got(p, WasEnded(s.children[p].signaled)));
      s2 := s1.(jobs := Deleted(s.jobs, p), handler := Loop);
    } else {
      s1 := s.(children := s.children[p := Stopped(true)], handler := Got(p, WasStopped));
      s2 := s1.(jobs := s.jobs.(table := WithState(s.jobs.table, i, St)), handler := Loop);
    }
    assert WaitPid(s, s1) && Record(s1, s2);
    NoForegroundLeft(s, s2, i);
    r := ReturnsAfterLoop(s2);
    r := OwnBefore(s1, r, Prompt);
    r := OwnBefore(s, r, Prompt);
  }

  /** The child changed again while the handler held the report of its stop. */
  lemma ReturnsAfterGot(s: State) returns (r: seq<State>)
    requires Safe(s) && WaitsForChange(s) && s.handler.Got? && s.handler.status.WasStopped?
    ensures Reaches(r, s, Prompt)
  {
    var i := FgSlot(s.jobs.table);
    FgPidIs(s, i);
    assert SlotOf(s.jobs.table, s.main.pid) == i;
    var s1 := s.(jobs := s.jobs.(table := WithState(s.jobs.table, i, St)), handler := Loop);
    assert Record(s, s1);
    NoForegroundLeft(s, s1, i);
    r := ReturnsAfterLoop(s1);
    r := OwnBefore(s, r, Prompt);
  }

  lemma NoForegroundLeft(s: State, s': State, i: int)
    requires Safe(s) && 0 <= i < MAXJOBS && s.jobs.table[i].state == Fg
    requires |s'.jobs.table| == MAXJOBS && s'.jobs.table[i].state != Fg
    requires forall k | 0 <= k < MAXJOBS && k != i :: s'.jobs.table[k] == s.jobs.table[k]
    ensures FgPid(s'.jobs.table) == 0
  {
    var k := FgSlot(s'.jobs.table);
    if k < MAXJOBS {
      FgPidIs(s, k);
      FgPidIs(s, i);
    }
  }

  /** waitfg can return by the shell's own steps exactly when a SIGCHLD is still
      pending or its handler has not yet called waitpid. */
  lemma WaitEndsIff(s: State)
    requires Safe(s) && WaitsForChange(s)
    ensures (exists r :: Reaches(r, s, Prompt)) <==> s.pending || s.handler != Idle
  {
    hide Safe;
    if s.pending || s.handler != Idle {
      WaitEnds(s);
    } else {
      forall r | Reaches(r, s, Prompt)
        ensures false
      {
        WithoutSignalRun(r, |r| - 1);
      }
    }
  }

  /** A wait that cannot end was begun by `fg` on a job whose last change of state
      had been signalled before it came to the foreground.  Jobs started by eval,
      which keeps SIGCHLD blocked from fork to addjob, never wait in vain. */
  lemma NoWaitInVain(r: seq<State>, n: nat)
    requires Run(r) && n < |r| && WaitsForChange(r[n]) && !r[n].missed
    ensures exists q :: Reaches(q, r[n], Prompt)
  {
    hide Run, Reaches, TableOk;
    RunSafe(r, n);
    var s := r[n];
    assert s.jobs.table[FgSlot(s.jobs.table)].state == Fg;
    WaitEndsIff(s);
  }

  lemma WaitEnds(s: State)
    requires Safe(s) && WaitsForChange(s) && (s.pending || s.handler != Idle)
    ensures exists r :: Reaches(r, s, Prompt)
  {
    hide TableOk, Reaches;
    GotElsewhere(s);
    if s.handler.Asking? {
      var r := ReturnsAfterAsking(s);
    } else if s.handler.Got? {
      var r := ReturnsAfterGot(s);
    } else {
      var s1 := if s.handler == Loop then s else s.(pending := false, handler := Loop);
      if s.handler != Loop { assert Deliver(s, s1); DeliverSafe(s, s1); }
      var s2 := s1.(handler := Asking(s.main.pid));
      assert FindForeground(s1, s2);
      FindForegroundSafe(s1, s2);
      var r := ReturnsAfterAsking(s2);
      r := ReachesBefore(s1, s2, r);
      if s.handler != Loop { r := ReachesBefore(s, s1, r); }
    }
  }

  lemma ReachesBefore(s: State, s1: State, r: seq<State>) returns (r': seq<State>)
    requires Reaches(r, s1, Prompt) && OwnStep(s, s1)
    ensures Reaches(r', s, Prompt)
  {
    r' := OwnBefore(s, r, Prompt);
  }

  lemma GotElsewhere(s: State)
    requires Safe(s) && WaitsForChange(s)
    ensures s.handler == Idle ==> !s.blocked
    ensures s.handler == Idle || s.handler == Loop || s.handler.Asking? ||
            (s.handler.Got? && s.handler.status.WasStopped?)
  {
  }

  // ------------------------------------------------------------ must return

  /** The foreground job has changed state and the report of it is on its way, or has
      been made. */
  ghost predicate Underway(s: State) {
    && Safe(s) && s.main.Waiting?
    && (FgPid(s.jobs.table) == s.main.pid ==> s.handler.Got? || (WaitsForChange(s) && (s.pending || s.handler != Idle)))
  }

  /** How many own steps at most are left before waitfg returns. */
  ghost function Rank(s: State): nat {
    (if s.pending then 4 else 0) +
    if s.main.Waiting? && FgPid(s.jobs.table) == s.main.pid then
      (match s.handler case Idle => 3 case Loop => 6 case Asking(_) => 5 case Got(_, _) => 4 case Crashed => 0)
    else
      (match s.handler case Idle => 1 case Loop => 3 case Asking(_) => 2 case Got(_, _) => 0 case Crashed => 0)
  }

  lemma UnderwayForeground(s: State)
    requires Underway(s)
    ensures FgPid(s.jobs.table) == s.main.pid || FgPid(s.jobs.table) == 0
    ensures FgPid(s.jobs.table) == 0 ==> !s.handler.Got? && (s.handler.Asking? ==> s.handler.pid == 0)
    ensures FgPid(s.jobs.table) == s.main.pid && s.handler.Asking? ==> s.handler.pid == s.main.pid
    ensures s.handler != Crashed && s.main.pid >= 1 && !s.blocked
    ensures 1 <= Rank(s) <= 10
  {
    var i := FgSlot(s.jobs.table);
    assert i < MAXJOBS ==> InForeground(s, i);
  }

  lemma OwnStepSafe(s: State, s': State)
    requires Underway(s) && OwnStep(s, s')
    ensures Safe(s') && (MainStep(s, s') ==> Spin(s, s'))
  {
    hide Safe, Underway, Deliver, FindForeground, WaitPid, Record;
    assert Safe(s) && s.main.Waiting? by { UnderwaySafe(s); }
    if Deliver(s, s') {
      DeliverSafe(s, s');
    } else if FindForeground(s, s') {
      FindForegroundSafe(s, s');
    } else if WaitPid(s, s') {
      WaitPidSafe(s, s');
    } else if Record(s, s') {
      RecordSafe(s, s');
    } else {
      WaitSafe(s, s');
    }
  }

  lemma UnderwaySafe(s: State)
    requires Underway(s)
    ensures Safe(s) && s.main.Waiting?
  {
  }

  /** Recording the report takes the job out of the foreground. */
  lemma RecordClears(s: State, s': State)
    requires Underway(s) && Record(s, s')
    ensures FgPid(s'.jobs.table) == 0 && s' == s'.(handler := Loop) && s'.main == s.main && s'.pending == s.pending
  {
    hide MaxJid;
    var i := FgSlot(s.jobs.table);
    assert s.handler.pid == FgPid(s.jobs.table) >= 1;
    FgPidIs(s, i);
    assert SlotOf(s.jobs.table, s.handler.pid) == i;
    NoForegroundLeft(s, s', i);
  }

  /** Every step of the shell that is not an idle turn of the busy loop brings waitfg
      closer to its return. */
  lemma Closer(s: State, s': State)
    requires Underway(s) && OwnStep(s, s') && s' != s
    ensures s'.main == Prompt || (Underway(s') && Rank(s') < Rank(s))
  {
    hide Safe, TableOk, FgPid;
    UnderwayForeground(s);
    OwnStepSafe(s, s');
    if Record(s, s') {
      RecordClears(s, s');
    }
  }

  /** There is such a step. */
  lemma NotIdle(s: State) returns (s': State)
    requires Underway(s)
    ensures OwnStep(s, s') && s' != s
  {
    UnderwayForeground(s);
    match s.handler
    case Idle =>
      if s.pending {
        s' := s.(pending := false, handler := Loop);
        assert Deliver(s, s');
      } else {
        s' := s.(main := Prompt);
        assert Spin(s, s');
      }
    case Loop =>
      s' := s.(handler := Asking(FgPid(s.jobs.table)));
      assert FindForeground(s, s');
    case Asking(p) =>
      s' := AfterWaitPid(s);
    case Got(p, status) =>
      s' := AfterRecord(s);
  }

  lemma AfterWaitPid(s: State) returns (s': State)
    requires s.handler.Asking?
    ensures WaitPid(s, s') && s' != s
  {
    var p := s.handler.pid;
    if p < 1 || p !in s.children || !Reportable(s.children[p]) {
      s' := s.(handler := Idle);
    } else if s.children[p].Zombie? {
      s' := s.(children := s.children - {p}, handler := Got(p, WasEnded(s.children[p].signaled)));
    } else {
      s' := s.(children := s.children[p := Stopped(true)], handler := Got(p, WasStopped));
    }
  }

  lemma AfterRecord(s: State) returns (s': State)
    requires s.handler.Got?
    ensures Record(s, s') && s' != s
  {
    var i := SlotOf(s.jobs.table, s.handler.pid);
    if !s.handler.status.WasStopped? {
      s' := s.(jobs := Deleted(s.jobs, s.handler.pid), handler := Loop);
    } else if s.handler.pid < 1 || i == |s.jobs.table| {
      s' := s.(handler := Crashed);
    } else {
      s' := s.(jobs := s.jobs.(table := WithState(s.jobs.table, i, St)), handler := Loop);
    }
  }

  /** A run of own steps without idle turns. */
  ghost predicate BusyRun(r: seq<State>) {
    |r| > 0 && forall i {:trigger OwnHop(r, i)} | 0 <= i < |r| - 1 :: OwnHop(r, i) && r[i] != r[i + 1]
  }

  /** After `n` steps without an idle turn the prompt was reached, or the rank went
      down by `n`. */
  lemma {:induction false} RankFalls(r: seq<State>, n: nat)
    requires BusyRun(r) && n < |r| && Underway(r[0])
    ensures (exists i :: 0 <= i <= n && r[i].main == Prompt) || (Underway(r[n]) && Rank(r[n]) + n <= Rank(r[0]))
  {
    hide Underway, Rank, OwnStep;
    if n > 0 {
      RankFalls(r, n - 1);
      assert OwnHop(r, n - 1);
      if !(exists i :: 0 <= i <= n - 1 && r[i].main == Prompt) {
        Closer(r[n - 1], r[n]);
      }
    }
  }

  /** With a SIGCHLD pending or its handler at work waitfg must return: every run of the
      shell's own steps without idle turns is back at the prompt within ten of them. */
  lemma WaitMustEnd(r: seq<State>)
    requires BusyRun(r) && |r| > 10 && Safe(r[0]) && WaitsForChange(r[0]) && (r[0].pending || r[0].handler != Idle)
    ensures exists i :: 0 <= i <= 10 && r[i].main == Prompt
  {
    hide Safe, WaitsForChange, Rank, OwnStep;
    assert Underway(r[0]) by { StartsUnderway(r[0]); }
    RankFalls(r, 10);
    UnderwayForeground(r[0]);
    if Underway(r[10]) {
      UnderwayForeground(r[10]);
    }
  }

  lemma StartsUnderway(s: State)
    requires Safe(s) && WaitsForChange(s) && (s.pending || s.handler != Idle)
    ensures Underway(s)
  {
  }

  // -------------------------------------------------------- at the fg command

  /** After `fg` has marked a job whose child has a report outstanding, waitfg can
      return exactly when the SIGCHLD for it is still pending. */
  lemma FgReturnsIff(s: State, s': State)
    requires Safe(s) && s.handler == Idle && Mark(s, s') && s.main.fg
    requires s.main.pid in s.children && Reportable(s.children[s.main.pid])
    ensures (exists r :: Reaches(r, s', Prompt)) <==> s.pending
  {
    hide Safe, Reaches, OwnStep;
    var p := s.main.pid;
    var s1, s2 := s'.(main := WaitCall(p)), s'.(main := Waiting(p));
    MarkSafe(s, s');
    FgWaits(s, s', s1, s2);
    WaitEndsIff(s2);
    if s.pending {
      var r :| Reaches(r, s2, Prompt);
      r := ReachesBefore(s1, s2, r);
      r := ReachesBefore(s', s1, r);
    } else {
      forall r | Reaches(r, s', Prompt)
        ensures false
      {
        ReachesRun(r, s', Prompt);
        FgOnlyWay(s', p);
        FgStuckRun(r, |r| - 1, s', s1, s2);
      }
    }
  }

  lemma ReachesRun(r: seq<State>, s: State, main: Main)
    requires Reaches(r, s, main)
    ensures OwnRun(r) && |r| > 0 && r[0] == s && r[|r| - 1].main == main
  {
  }

  /** From fg to the loop of waitfg there is one way for the main loop. */
  lemma FgWaits(s: State, s': State, s1: State, s2: State)
    requires Safe(s) && s.handler == Idle && Mark(s, s') && s.main.fg && Safe(s')
    requires s.main.pid in s.children && Reportable(s.children[s.main.pid])
    requires s1 == s'.(main := WaitCall(s.main.pid)) && s2 == s'.(main := Waiting(s.main.pid))
    ensures s'.main == Marked(s.main.slot) && s'.handler == Idle && s'.pending == s.pending
    ensures OwnStep(s', s1) && OwnStep(s1, s2) && Safe(s2) && WaitsForChange(s2)
    ensures var p := s.main.pid;
            p >= 1 && Holds(s'.jobs.table, s'.main.slot, p) && SlotOf(s'.jobs.table, p) < |s'.jobs.table|
  {
    assert Holds(s'.jobs.table, s.main.slot, s.main.pid);
    FgPidIs(s', s.main.slot);
    assert CallWait(s', s1);
    WaitSafe(s', s1);
    assert SlotOf(s1.jobs.table, s.main.pid) < MAXJOBS;
    assert EnterWait(s1, s2);
    WaitSafe(s1, s2);
  }

  /** Without a SIGCHLD to deliver no other step is possible. */
  lemma FgOnlyWay(s0: State, p: int)
    requires s0.main.Marked? && s0.handler == Idle && !s0.pending && Holds(s0.jobs.table, s0.main.slot, p)
    requires p >= 1 && SlotOf(s0.jobs.table, p) < |s0.jobs.table|
    ensures forall t | OwnStep(s0, t) :: t == s0.(main := WaitCall(p))
    ensures forall t | OwnStep(s0.(main := WaitCall(p)), t) :: t == s0.(main := Waiting(p))
  {
  }

  lemma {:induction false} FgStuckRun(r: seq<State>, i: nat, s0: State, s1: State, s2: State)
    requires OwnRun(r) && i < |r| && r[0] == s0 && !s2.pending && s2.handler == Idle && Safe(s2) && WaitsForChange(s2)
    requires forall t | OwnStep(s0, t) :: t == s1
    requires forall t | OwnStep(s1, t) :: t == s2
    ensures r[i] == s0 || r[i] == s1 || r[i] == s2
  {
    hide Safe, WaitsForChange, OwnStep;
    if i > 0 {
      FgStuckRun(r, i - 1, s0, s1, s2);
      assert OwnHop(r, i - 1);
      if r[i - 1] == s2 {
        WithoutSignal(s2, r[i]);
      }
    }
  }

  /** `fg` on a background job that has finished never returns: waitfg waits for a
      SIGCHLD that the handler took while there was no foreground job. */
  lemma FgLosesWakeup() returns (r: seq<State>)
    ensures Run(r)
    ensures var s := r[|r| - 1];
            && s.missed && WaitsForChange(s) && s.children == map[1 := Zombie(false)]
            && !exists q :: Reaches(q, s, Prompt)
  {
    hide Next, Safe, Awake, Run, Reaches;
    var t0 := seq(MAXJOBS, i => NO_JOB);
    var s0 := State(Jobs(t0, 1), map[], false, false, Prompt, Idle, false);
    var s1 := s0.(main := Masked(true, "sleep 1 &"), blocked := true);
    var s2 := s1.(main := Forked(1, true, "sleep 1 &"), children := map[1 := Running]);
    var s3 := s2.(main := Listed(1, true), jobs := Jobs(t0[0 := Job(1, 1, Bg, "sleep 1 &")], 2));
    var s4 := s3.(main := Prompt, blocked := false);
    var s5 := s4.(children := map[1 := Zombie(false)], pending := true);
    var s6 := s5.(pending := false, handler := Loop);
    var s7 := s6.(handler := Asking(0));
    var s8 := s7.(handler := Idle);
    var s9 := s8.(main := Picked(0, 1, true));
    var s10 := s9.(main := Continued(0, 1, true));
    var s11 := s10.(main := Marked(0), jobs := Jobs(t0[0 := Job(1, 1, Fg, "sleep 1 &")], 2), missed := true);
    var s12 := s11.(main := WaitCall(1));
    var s13 := s12.(main := Waiting(1));
    ExampleEval(s0, s1, s2, s3, s4);
    ExampleExit(s4, s5, s6, s7, s8);
    ExampleFg(s8, s9, s10, s11, s12, s13);
    r := [s0, s1, s2, s3, s4, s5, s6, s7, s8, s9, s10, s11, s12, s13];
    ExampleRun(r);
    RunSafe(r, 13);
    ExampleStuck(s13);
  }

  lemma ExampleStuck(s: State)
    requires Safe(s) && s.jobs.table == seq(MAXJOBS, i => NO_JOB)[0 := Job(1, 1, Fg, "sleep 1 &")]
    requires s.main == Waiting(1) && s.children == map[1 := Zombie(false)] && !s.pending && s.handler == Idle
    ensures WaitsForChange(s) && !exists q :: Reaches(q, s, Prompt)
  {
    hide Safe, Reaches;
    assert FgPid(s.jobs.table) == 1;
    WaitEndsIff(s);
  }

  lemma ExampleEval(s0: State, s1: State, s2: State, s3: State, s4: State)
    requires s0.jobs == Jobs(seq(MAXJOBS, i => NO_JOB), 1) && s0.main == Prompt && s0.handler == Idle &&
             s0.children == map[] && !s0.missed
    requires s1 == s0.(main := Masked(true, "sleep 1 &"), blocked := true)
    requires s2 == s1.(main := Forked(1, true, "sleep 1 &"), children := map[1 := Running])
    requires s3 == s2.(main := Listed(1, true), jobs := Jobs(s0.jobs.table[0 := Job(1, 1, Bg, "sleep 1 &")], 2))
    requires s4 == s3.(main := Prompt, blocked := false)
    ensures Next(s0, s1) && Next(s1, s2) && Next(s2, s3) && Next(s3, s4)
  {
    hide KernelStep, HandlerStep;
    assert Block(s0, s1) && Fork(s1, s2);
    assert SlotOf(s0.jobs.table, 0) == 0;
    assert List(s2, s3) && Unblock(s3, s4);
  }

  lemma ExampleExit(s4: State, s5: State, s6: State, s7: State, s8: State)
    requires s4.children == map[1 := Running] && !s4.blocked && s4.handler == Idle && FgPid(s4.jobs.table) == 0
    requires s5 == s4.(children := map[1 := Zombie(false)], pending := true)
    requires s6 == s5.(pending := false, handler := Loop) && s7 == s6.(handler := Asking(0)) &&
             s8 == s7.(handler := Idle)
    ensures Next(s4, s5) && Next(s5, s6) && Next(s6, s7) && Next(s7, s8)
  {
    hide MainStep;
    assert ChildChanges(s4, s5, 1, Zombie(false));
    assert Deliver(s5, s6) && FindForeground(s6, s7) && WaitPid(s7, s8);
  }

  lemma ExampleFg(s8: State, s9: State, s10: State, s11: State, s12: State, s13: State)
    requires s8.jobs.table == seq(MAXJOBS, i => NO_JOB)[0 := Job(1, 1, Bg, "sleep 1 &")]
    requires s8.main == Prompt && s8.handler == Idle && s8.children == map[1 := Zombie(false)] && !s8.pending
    requires s9 == s8.(main := Picked(0, 1, true)) && s10 == s9.(main := Continued(0, 1, true))
    requires s11 == s10.(main := Marked(0), jobs := s8.jobs.(table := WithState(s8.jobs.table, 0, Fg)), missed := true)
    requires s12 == s11.(main := WaitCall(1)) && s13 == s12.(main := Waiting(1))
    ensures Next(s8, s9) && Next(s9, s10) && Next(s10, s11) && Next(s11, s12) && Next(s12, s13)
  {
    hide KernelStep, HandlerStep;
    assert SlotOf(s8.jobs.table, 1) == 0 && SlotOf(s12.jobs.table, 1) == 0;
    assert Pick(s8, s9) && Continue(s9, s10) && Mark(s10, s11) && CallWait(s11, s12) && EnterWait(s12, s13);
  }

  lemma ExampleRun(r: seq<State>)
    requires |r| == 14 && Init(r[0])
    requires Next(r[0], r[1]) && Next(r[1], r[2]) && Next(r[2], r[3]) && Next(r[3], r[4]) && Next(r[4], r[5])
    requires Next(r[5], r[6]) && Next(r[6], r[7]) && Next(r[7], r[8]) && Next(r[8], r[9]) && Next(r[9], r[10])
    requires Next(r[10], r[11]) && Next(r[11], r[12]) && Next(r[12], r[13])
    ensures Run(r)
  {
    hide Next, Init;
  }

  /** Were SIGCHLD not blocked between fork and addjob, a job that ends there would
      be waited for in vain. */
  lemma MaskNeeded(s0: State) returns (s: State, r: seq<State>)
    requires Safe(s0) && s0.main == Forked(1, false, "ls") && s0.handler == Idle
    requires s0.jobs == Jobs(seq(MAXJOBS, i => NO_JOB), 1) && s0.children == map[1 := Running] && !s0.pending
    ensures |r| == 9 && r[0] == s0.(blocked := false) && r[8] == s
    ensures forall i | 0 <= i < 8 :: Hop(r, i)
    ensures WaitsForChange(s) && !s.missed && forall s' | OwnStep(s, s') :: s' == s
  {
    hide Safe, Next, OwnStep;
    var u0 := s0.(blocked := false);
    var u1 := u0.(children := map[1 := Zombie(false)], pending := true);
    var u2 := u1.(pending := false, handler := Loop);
    var u3 := u2.(handler := Asking(0));
    var u4 := u3.(handler := Idle);
    var u5 := u4.(main := Listed(1, false), jobs := Jobs(s0.jobs.table[0 := Job(1, 1, Fg, "ls")], 2), missed := false);
    var u6 := u5.(main := WaitCall(1));
    s := u6.(main := Waiting(1));
    r := [u0, u1, u2, u3, u4, u5, u6, s, s];
    ExampleExit(u0, u1, u2, u3, u4);
    UnmaskedList(u4, u5, u6, s);
    forall i | 0 <= i < 8 ensures Hop(r, i) {
      assert i == 0 || i == 1 || i == 2 || i == 3 || i == 4 || i == 5 || i == 6 || i == 7;
    }
  }

  lemma UnmaskedList(u4: State, u5: State, u6: State, s: State)
    requires u4.main == Forked(1, false, "ls") && u4.jobs == Jobs(seq(MAXJOBS, i => NO_JOB), 1) && u4.handler == Idle
    requires u4.children == map[1 := Zombie(false)] && !u4.pending && !u4.blocked
    requires u5 == u4.(main := Listed(1, false), jobs := Jobs(u4.jobs.table[0 := Job(1, 1, Fg, "ls")], 2),
                         missed := false)
    requires u6 == u5.(main := WaitCall(1)) && s == u6.(main := Waiting(1))
    ensures Next(u4, u5) && Next(u5, u6) && Next(u6, s) && Next(s, s)
    ensures WaitsForChange(s) && forall s' | OwnStep(s, s') :: s' == s
  {
    assert SlotOf(u4.jobs.table, 0) == 0 && SlotOf(u6.jobs.table, 1) == 0;
    assert List(u4, u5) && Unblock(u5, u6) && EnterWait(u6, s) && Spin(s, s);
  }
}
