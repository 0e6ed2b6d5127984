/** What the steps of mps/03/tsh.c do to the state of a job and to its child, and when
    the two agree. */
module JobStates {
  import opened JobTable
  import opened Shell
  import opened ShellTheorems

  // ------------------------------------------------------------- single steps

  /** eval lists the child that it forked in a clear slot, if there is one, in the
      background exactly when the command line asked for that, and goes on to wait for it
      exactly when it did not. */
  lemma EvalLists(s: State, s': State, s'': State) returns (i: nat)
    requires Safe(s) && s.main.Forked? && MainStep(s, s') && MainStep(s', s'')
    ensures i <= MAXJOBS == |s.jobs.table|
    ensures i == MAXJOBS <==> forall k | 0 <= k < MAXJOBS :: s.jobs.table[k].pid != 0
    ensures i < MAXJOBS ==> s.jobs.table[i].pid == 0
    ensures s'.jobs.table == s''.jobs.table && s'.children == s''.children == s.children
    ensures s'.jobs.table ==
            if i == MAXJOBS then s.jobs.table
            else s.jobs.table[i := Job(s.main.pid, s.jobs.nextjid, if s.main.bg then Bg else Fg, s.main.cmdline)]
    ensures !s''.blocked && s''.main == if s.main.bg then Prompt else WaitCall(s.main.pid)
  {
    hide TableOk, Added;
    i := SlotOf(s.jobs.table, 0);
    AddedOk(s.jobs, s.main.pid, if s.main.bg then Bg else Fg, s.main.cmdline);
  }

  /** bg and fg can pick any listed job. */
  lemma AnyJobPicked(s: State, i: nat, fg: bool)
    requires Safe(s) && s.main == Prompt && s.handler == Idle && i < MAXJOBS && s.jobs.table[i].pid != 0
    ensures MainStep(s, s.(main := Picked(i, s.jobs.table[i].pid, fg)))
  {
    assert SlotOf(s.jobs.table, s.jobs.table[i].pid) == i;
    assert Pick(s, s.(main := Picked(i, s.jobs.table[i].pid, fg)));
  }

  /** Then they send SIGCONT: a stopped child runs again, which is signalled; any other
      child, and the job table, stay as they are. */
  lemma PickedRuns(s: State, s': State)
    requires s.main.Picked? && MainStep(s, s')
    ensures var p := s.main.pid;
            && s'.main == Continued(s.main.slot, p, s.main.fg) && s'.jobs == s.jobs && s'.handler == Idle
            && (if p in s.children && s.children[p].Stopped? then
                  s'.children == s.children[p := Running] && s'.pending
                else
                  s'.children == s.children && s'.pending == s.pending)
  {
  }

  /** And then they set the state of the job; fg goes on to wait for it. */
  lemma ContinuedMarked(s: State, s': State)
    requires Safe(s) && s.main.Continued? && MainStep(s, s')
    ensures var i, t := s.main.slot, s.jobs.table;
            && i < |t| == MAXJOBS && t[i].pid == s.main.pid && s'.children == s.children
            && s'.jobs.table == t[i := t[i].(state := if s.main.fg then Fg else Bg)]
            && s'.main == if s.main.fg then Marked(i) else Prompt
  {
    hide TableOk;
    WithStateOk(s.jobs, s.main.slot, if s.main.fg then Fg else Bg);
  }

  /** fg waits for the process of the job that it has marked. */
  lemma MarkedWaits(s: State, s': State)
    requires Safe(s) && s.main.Marked? && MainStep(s, s')
    ensures s.main.slot < |s.jobs.table| && s' == s.(main := WaitCall(s.jobs.table[s.main.slot].pid))
  {
    hide TableOk;
  }

  /** waitpid reports a stop of the child it is asked for once, reaps it once it has
      ended, and changes no other child. */
  lemma AskedReports(s: State, s': State)
    requires s.handler.Asking? && HandlerStep(s, s')
    ensures var p := s.handler.pid;
            && s'.jobs == s.jobs && s'.main == s.main
            && (if p >= 1 && p in s.children && s.children[p].Zombie? then
                  s'.children == s.children - {p} && s'.handler == Got(p, WasEnded(s.children[p].signaled))
                else if p >= 1 && p in s.children && s.children[p] == Stopped(false) then
                  s'.children == s.children[p := Stopped(true)] && s'.handler == Got(p, WasStopped)
                else
                  s'.children == s.children && s'.handler == Idle)
  {
  }

  /** The handler records it: a stopped job is in state ST, one that has ended leaves the
      table, and no other slot changes. */
  lemma GotRecorded(s: State, s': State) returns (i: nat)
    requires Safe(s) && s.handler.Got? && HandlerStep(s, s')
    ensures i < |s.jobs.table| == MAXJOBS && s.jobs.table[i].pid == s.handler.pid
    ensures s'.children == s.children && s'.handler == Loop && s'.main == s.main
    ensures s'.jobs.table ==
            if s.handler.status.WasStopped? then s.jobs.table[i := s.jobs.table[i].(state := St)]
            else s.jobs.table[i := NO_JOB]
  {
    hide TableOk, FgPid, MaxJid, Deleted;
    i := GotSlot(s);
    DeletedOk(s.jobs, s.handler.pid, i);
  }

  // ------------------------------------------------------------------- runs

  /** A step after which the child of a job to be marked is stopped. */
  lemma StopStep(s: State, s': State)
    requires Next(s, s') && s'.main.Continued? && s'.main.pid in s'.children && s'.children[s'.main.pid].Stopped?
    ensures s.main == s'.main && s.main.pid in s.children
    ensures s.children[s.main.pid].Stopped? || ChildChanges(s, s', s.main.pid, Stopped(false))
  {
    if KernelStep(s, s') {
      var pid, c :| ChildChanges(s, s', pid, c);
    } else if HandlerStep(s, s') {
      HandlerLeaves(s, s');
    } else if s.main.Picked? {
      PickedRuns(s, s');
      assert false;
    } else {
      MainLeaves(s, s');
    }
  }

  lemma HandlerLeaves(s: State, s': State)
    requires HandlerStep(s, s')
    ensures s'.main == s.main
    ensures forall p | p in s'.children && s'.children[p].Stopped? :: p in s.children && s.children[p].Stopped?
  {
    hide Deleted, SlotOf, FgPid;
  }

  lemma MainLeaves(s: State, s': State)
    requires MainStep(s, s') && !s.main.Picked?
    ensures !s'.main.Continued?
  {
    hide Added, SlotOf, JidSlot, FgPid;
  }

  /** Unless the kernel has stopped it since the SIGCONT, the child is not stopped when its
      job is marked as running, by bg or by fg. */
  lemma {:induction false} StoppedSince(r: seq<State>, j: nat) returns (k: nat)
    requires Run(r) && j < |r| && r[j].main.Continued?
    requires r[j].main.pid in r[j].children && r[j].children[r[j].main.pid].Stopped?
    ensures k < j && ChildChanges(r[k], r[k + 1], r[j].main.pid, Stopped(false))
    ensures forall i | k <= i <= j :: r[i].main == r[j].main
  {
    hide Next, ChildChanges;
    assert j > 0;
    assert Hop(r, j - 1);
    StopStep(r[j - 1], r[j]);
    if ChildChanges(r[j - 1], r[j], r[j].main.pid, Stopped(false)) {
      k := j - 1;
    } else {
      k := StoppedSince(r, j - 1);
    }
  }

  /** A step after which slot `i` is in state ST. */
  lemma StStep(s: State, s': State, i: nat)
    requires Safe(s) && Next(s, s') && i < MAXJOBS == |s.jobs.table| == |s'.jobs.table| && s'.jobs.table[i].state == St
    ensures s.jobs.table[i] == s'.jobs.table[i] ||
            (s.handler == Got(s'.jobs.table[i].pid, WasStopped) && s'.handler == Loop)
  {
    hide TableOk, MainOk, KernelStep, HandlerStep, MainStep, Record, List, Mark, FgPid;
    JobsChange(s, s');
    if Record(s, s') {
      StByRecord(s, s', i);
    } else if List(s, s') || Mark(s, s') {
      StByMain(s, s', i);
    }
  }

  lemma StByRecord(s: State, s': State, i: nat)
    requires Safe(s) && Record(s, s') && i < MAXJOBS == |s.jobs.table| == |s'.jobs.table|
    requires s'.jobs.table[i].state == St
    ensures s.jobs.table[i] == s'.jobs.table[i] ||
            (s.handler == Got(s'.jobs.table[i].pid, WasStopped) && s'.handler == Loop)
  {
    hide TableOk, MainOk, FgPid;
    var k := GotRecorded(s, s');
  }

  lemma StByMain(s: State, s': State, i: nat)
    requires (List(s, s') || Mark(s, s')) && i < |s.jobs.table| == |s'.jobs.table| && s'.jobs.table[i].state == St
    ensures s.jobs.table[i] == s'.jobs.table[i]
  {
  }

  /** The table says of a job that it is stopped only when waitpid has reported a stop of
      this very process, since when nothing was recorded of it. */
  lemma {:induction false} StoppedReported(r: seq<State>, j: nat, i: nat) returns (k: nat)
    requires Run(r) && j < |r| && i < |r[j].jobs.table| && r[j].jobs.table[i].state == St
    ensures k < j && r[k].handler == Got(r[j].jobs.table[i].pid, WasStopped) && r[k + 1].handler == Loop
    ensures forall n | k < n <= j :: i < |r[n].jobs.table| && r[n].jobs.table[i] == r[j].jobs.table[i]
  {
    hide Next, Safe, Awake, Init;
    TableSize(r, j);
    if j == 0 {
      NothingAtStart(r[0], i);
    } else {
      TableSize(r, j - 1);
      RunSafe(r, j - 1);
      assert Hop(r, j - 1);
      StStep(r[j - 1], r[j], i);
      if r[j - 1].handler == Got(r[j].jobs.table[i].pid, WasStopped) && r[j].handler == Loop {
        k := j - 1;
      } else {
        k := StoppedReported(r, j - 1, i);
      }
    }
  }

  lemma TableSize(r: seq<State>, j: nat)
    requires Run(r) && j < |r|
    ensures |r[j].jobs.table| == MAXJOBS
  {
    hide Next, Init;
    RunSafe(r, j);
  }

  lemma NothingAtStart(s: State, i: nat)
    requires Init(s) && i < |s.jobs.table|
    ensures s.jobs.table[i].state != St
  {
  }
}
