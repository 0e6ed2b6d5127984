/** Job control of mps/03/tsh.c as a protocol between the shell's main loop, its
    SIGCHLD handler and the kernel.  A step is one action of one of them; the handler
    preempts the main loop and the kernel acts at any time.  Children run in process
    groups of their own. */
module Shell {
  import opened JobTable

  /** A child that was forked and not yet reaped.  A stop is reported by waitpid
      once, an end until the child is reaped. */
  datatype Child = Running | Stopped(reported: bool) | Zombie(signaled: bool)

  datatype Status = WasStopped | WasEnded(signaled: bool)

  /** Where the main loop is.  `slot` is a pointer into the job table. */
  datatype Main =
    | Prompt
    | Masked(bg: bool, cmdline: string)           // SIGCHLD blocked, before fork
    | Forked(pid: int, bg: bool, cmdline: string) // before addjob
    | Listed(pid: int, bg: bool)                  // before SIGCHLD is unblocked
    | WaitCall(pid: int)                          // on entry to waitfg
    | Waiting(pid: int)                           // in the loop of waitfg
    | Picked(slot: nat, pid: int, fg: bool)       // do_bgfg, before kill
    | Continued(slot: nat, pid: int, fg: bool)    // do_bgfg, after kill
    | Marked(slot: nat)                           // do_bgfg, before calling waitfg

  /** Where the SIGCHLD handler is. */
  datatype Handler =
    | Idle
    | Loop                                        // before fgpid
    | Asking(pid: int)                            // before waitpid
    | Got(pid: int, status: Status)               // after waitpid
    | Crashed                                     // a null job was dereferenced

  datatype State = State(
    jobs: Jobs,
    children: map<int, Child>,
    pending: bool,      // SIGCHLD is pending
    blocked: bool,      // SIGCHLD is blocked by the main loop
    main: Main,
    handler: Handler,
    /** A job was put in the foreground when its last change of state had already
        been signalled. */
    missed: bool)

  predicate Reportable(c: Child) {
    c.Zombie? || c == Stopped(false)
  }

  ghost predicate Init(s: State) {
    && s.jobs == Jobs(seq(MAXJOBS, i => NO_JOB), 1)
    && s.children == map[] && !s.pending && !s.blocked && s.main == Prompt && s.handler == Idle && !s.missed
  }

  // ------------------------------------------------------------------ kernel

  /** A child exits, is killed, stops or continues; SIGCHLD becomes pending. */
  ghost predicate ChildChanges(s: State, s': State, pid: int, c: Child) {
    && pid in s.children
    && s' == s.(children := s.children[pid := c], pending := true)
    && (match s.children[pid]
        case Running => c != Running && c != Stopped(true)
        case Stopped(_) => !c.Stopped?
        case Zombie(_) => false)
  }

  /** Delivery of SIGCHLD. */
  ghost predicate Deliver(s: State, s': State) {
    s.pending && !s.blocked && s.handler == Idle && s' == s.(pending := false, handler := Loop)
  }

  // ----------------------------------------------------------------- handler

  ghost predicate FindForeground(s: State, s': State) {
    s.handler == Loop && s' == s.(handler := Asking(FgPid(s.jobs.table)))
  }

  /** waitpid with WNOHANG and WUNTRACED.  waitpid(0) looks for children in the
      shell's own process group, and there are none. */
  ghost predicate WaitPid(s: State, s': State) {
    && s.handler.Asking?
    && var p := s.handler.pid;
       if p < 1 || p !in s.children || !Reportable(s.children[p]) then
         s' == s.(handler := Idle)
       else if s.children[p].Zombie? then
         s' == s.(children := s.children - {p}, handler := Got(p, WasEnded(s.children[p].signaled)))
       else
         s' == s.(children := s.children[p := Stopped(true)], handler := Got(p, WasStopped))
  }

  function WithState(t: Table, i: nat, state: JobState): Table
    requires i < |t|
  {
    t[i := t[i].(state := state)]
  }

  ghost predicate Record(s: State, s': State) {
    && s.handler.Got?
    && var p := s.handler.pid;
       if s.handler.status.WasStopped? then
         var i := SlotOf(s.jobs.table, p);
         if p < 1 || i == |s.jobs.table| then s' == s.(handler := Crashed)
         else s' == s.(jobs := s.jobs.(table := WithState(s.jobs.table, i, St)), handler := Loop)
       else
         s' == s.(jobs := Deleted(s.jobs, p), handler := Loop)
  }

  // --------------------------------------------------------------- main loop

  ghost predicate Block(s: State, s': State) {
    s.main == Prompt && s'.main.Masked? && s' == s.(main := s'.main, blocked := true)
  }

  ghost predicate Fork(s: State, s': State) {
    && s.main.Masked? && s'.main.Forked?
    && var pid := s'.main.pid;
       && pid >= 1 && pid !in s.children
       && s' == s.(children := s.children[pid := Running], main := Forked(pid, s.main.bg, s.main.cmdline))
  }

  ghost predicate List(s: State, s': State) {
    && s.main.Forked?
    && s' == s.(jobs := Added(s.jobs, s.main.pid, if s.main.bg then Bg else Fg, s.main.cmdline),
                main := Listed(s.main.pid, s.main.bg), missed := false)
  }

  ghost predicate Unblock(s: State, s': State) {
    && s.main.Listed?
    && s' == s.(blocked := false, main := if s.main.bg then Prompt else WaitCall(s.main.pid))
  }

  ghost predicate EnterWait(s: State, s': State) {
    && s.main.WaitCall?
    && var p := s.main.pid;
       s' == s.(main := if p >= 1 && SlotOf(s.jobs.table, p) < |s.jobs.table| then Waiting(p) else Prompt)
  }

  /** One turn of the busy loop of waitfg. */
  ghost predicate Spin(s: State, s': State) {
    s.main.Waiting? && s' == if s.main.pid == FgPid(s.jobs.table) then s else s.(main := Prompt)
  }

  /** do_bgfg finds the job, by its job id or its process id. */
  ghost predicate Pick(s: State, s': State) {
    && s.main == Prompt && s'.main.Picked?
    && var i := s'.main.slot;
       && i < |s.jobs.table| && s.jobs.table[i].jid >= 1 && s.jobs.table[i].pid >= 1
       && (i == JidSlot(s.jobs.table, s.jobs.table[i].jid) || i == SlotOf(s.jobs.table, s.jobs.table[i].pid))
       && s' == s.(main := Picked(i, s.jobs.table[i].pid, s'.main.fg))
  }

  /** kill(-pid, SIGCONT) */
  ghost predicate Continue(s: State, s': State) {
    && s.main.Picked?
    && var p := s.main.pid;
       var wakes := p in s.children && s.children[p].Stopped?;
       s' == s.(children := if wakes then s.children[p := Running] else s.children,
                pending := s.pending || wakes,
                main := Continued(s.main.slot, p, s.main.fg))
  }

  /** do_bgfg sets the state of the job it picked. */
  ghost predicate Mark(s: State, s': State) {
    && s.main.Continued? && s.main.slot < |s.jobs.table|
    && var (i, p) := (s.main.slot, s.main.pid);
       if s.main.fg then
         s' == s.(jobs := s.jobs.(table := WithState(s.jobs.table, i, Fg)), main := Marked(i),
                  missed := p in s.children && Reportable(s.children[p]) && !s.pending)
       else
         s' == s.(jobs := s.jobs.(table := WithState(s.jobs.table, i, Bg)), main := Prompt)
  }

  ghost predicate CallWait(s: State, s': State) {
    && s.main.Marked? && s.main.slot < |s.jobs.table|
    && s' == s.(main := WaitCall(s.jobs.table[s.main.slot].pid))
  }

  // ------------------------------------------------------------------- steps

  ghost predicate KernelStep(s: State, s': State) {
    exists pid, c :: ChildChanges(s, s', pid, c)
  }

  ghost predicate HandlerStep(s: State, s': State) {
    Deliver(s, s') || FindForeground(s, s') || WaitPid(s, s') || Record(s, s')
  }

  ghost predicate MainStep(s: State, s': State) {
    && s.handler == Idle
    && (Block(s, s') || Fork(s, s') || List(s, s') || Unblock(s, s') || EnterWait(s, s')
        || Spin(s, s') || Pick(s, s') || Continue(s, s') || Mark(s, s') || CallWait(s, s'))
  }

  ghost predicate Next(s: State, s': State) {
    KernelStep(s, s') || HandlerStep(s, s') || MainStep(s, s')
  }

  // -------------------------------------------------------------- invariants

  /** Empty slots and listed jobs; no process is listed twice. */
  ghost predicate TableOk(j: Jobs) {
    && |j.table| == MAXJOBS && 1 <= j.nextjid
    && (forall i | 0 <= i < MAXJOBS ::
          j.table[i] == NO_JOB || (j.table[i].pid >= 1 && j.table[i].jid >= 1 && j.table[i].state != Undef))
    && (forall i, k | 0 <= i < k < MAXJOBS && j.table[i].pid == j.table[k].pid :: j.table[i].pid == 0)
  }

  ghost predicate Holds(t: Table, i: int, pid: int) {
    0 <= i < |t| && t[i].pid == pid
  }

  /** The process that the main loop has put in the foreground. */
  ghost predicate InForeground(s: State, i: int) {
    0 <= i < |s.jobs.table| &&
    match s.main
    case Listed(p, bg) => !bg && s.jobs.table[i].pid == p
    case WaitCall(p) => s.jobs.table[i].pid == p
    case Waiting(p) => s.jobs.table[i].pid == p
    case Marked(k) => i == k
    case _ => false
  }

  /** Reaped by the handler, and not yet taken off the table. */
  predicate BeingDeleted(s: State, pid: int) {
    s.handler.Got? && s.handler.pid == pid && s.handler.status.WasEnded?
  }

  ghost predicate MainOk(s: State) {
    && (s.blocked <==> s.main.Masked? || s.main.Forked? || s.main.Listed?)
    && match s.main
       case Forked(p, _, _) => p >= 1 && p in s.children && SlotOf(s.jobs.table, p) == |s.jobs.table|
       case Listed(p, _) => p >= 1
       case Waiting(p) => p >= 1
       case Picked(i, p, _) => p >= 1 && Holds(s.jobs.table, i, p)
       case Continued(i, p, _) => p >= 1 && Holds(s.jobs.table, i, p)
       case Marked(i) => i < MAXJOBS
       case _ => true
  }

  ghost predicate HandlerOk(s: State) {
    && s.handler != Crashed
    && (s.handler != Idle ==> !s.blocked)
    && (s.handler.Asking? || s.handler.Got? ==> s.handler.pid == FgPid(s.jobs.table))
    && (s.handler.Got? ==> s.handler.pid >= 1)
    && (s.handler.Got? ==> (s.handler.pid !in s.children <==> s.handler.status.WasEnded?))
  }

  ghost predicate Safe(s: State) {
    && TableOk(s.jobs) && MainOk(s) && HandlerOk(s)
    && (forall i | 0 <= i < MAXJOBS && s.jobs.table[i].state == Fg :: InForeground(s, i))
    && (forall i | 0 <= i < MAXJOBS && s.jobs.table[i].pid != 0 ::
          s.jobs.table[i].pid in s.children || BeingDeleted(s, s.jobs.table[i].pid))
  }

  /** A foreground job whose change of state has not been reported: a SIGCHLD is on
      its way, unless it was signalled before the job came to the foreground. */
  ghost predicate Awake(s: State) {
    && (forall i | 0 <= i < |s.jobs.table| && s.jobs.table[i].state == Fg &&
                   s.jobs.table[i].pid in s.children && Reportable(s.children[s.jobs.table[i].pid]) ::
          s.pending || s.handler.Loop? || s.handler.Asking? || s.missed)
    && (s.main.Forked? && s.main.pid in s.children && Reportable(s.children[s.main.pid]) ==> s.pending)
  }

  // ---------------------------------------------------------- the table alone

  lemma AddedOk(j: Jobs, pid: int, state: JobState, cmdline: string)
    requires TableOk(j) && pid >= 1 && state != Undef && SlotOf(j.table, pid) == |j.table|
    ensures TableOk(Added(j, pid, state, cmdline))
    ensures |j.table| == MAXJOBS
    ensures var i := SlotOf(j.table, 0);
            var t := Added(j, pid, state, cmdline).table;
            if i == MAXJOBS then t == j.table else t == j.table[i := Job(pid, j.nextjid, state, cmdline)]
  {
  }

  lemma DeletedOk(j: Jobs, pid: int, i: nat)
    requires TableOk(j) && pid >= 1 && Holds(j.table, i, pid)
    ensures TableOk(Deleted(j, pid)) && |j.table| == MAXJOBS
    ensures Deleted(j, pid).table == j.table[i := NO_JOB] && SlotOf(j.table, pid) == i
    ensures forall k | 0 <= k < MAXJOBS && k != i :: j.table[k].pid != pid
  {
  }

  lemma WithStateOk(j: Jobs, i: nat, state: JobState)
    requires TableOk(j) && i < |j.table| && j.table[i].pid >= 1 && state != Undef
    ensures TableOk(j.(table := WithState(j.table, i, state))) && |j.table| == MAXJOBS
  {
  }

  /** The foreground job, when there is at most one. */
  lemma FgPidIs(s: State, i: int)
    requires Safe(s) && 0 <= i < MAXJOBS && s.jobs.table[i].state == Fg
    ensures FgPid(s.jobs.table) == s.jobs.table[i].pid && FgSlot(s.jobs.table) == i
  {
    var k := FgSlot(s.jobs.table);
    assert InForeground(s, i) && InForeground(s, k);
  }

  lemma InitSafe(s: State)
    requires Init(s)
    ensures Safe(s) && Awake(s)
  {
  }

  lemma KernelSafe(s: State, s': State)
    requires Safe(s) && KernelStep(s, s')
    ensures Safe(s')
  {
  }

  lemma DeliverSafe(s: State, s': State)
    requires Safe(s) && Deliver(s, s')
    ensures Safe(s')
  {
  }

  lemma FindForegroundSafe(s: State, s': State)
    requires Safe(s) && FindForeground(s, s')
    ensures Safe(s')
  {
  }

  lemma WaitPidSafe(s: State, s': State)
    requires Safe(s) && WaitPid(s, s')
    ensures Safe(s')
  {
    hide TableOk, FgPid, SlotOf;
  }

  /** The job that the handler has a report for. */
  lemma GotSlot(s: State) returns (i: nat)
    requires Safe(s) && s.handler.Got?
    ensures i < MAXJOBS == |s.jobs.table| && s.jobs.table[i].state == Fg && s.jobs.table[i].pid == s.handler.pid >= 1
    ensures forall k | 0 <= k < MAXJOBS && k != i :: s.jobs.table[k].state != Fg
    ensures forall k | 0 <= k < MAXJOBS && k != i :: s.jobs.table[k].pid != s.handler.pid
  {
    i := FgSlot(s.jobs.table);
    forall k | 0 <= k < MAXJOBS && s.jobs.table[k].state == Fg
      ensures k == i
    {
      FgPidIs(s, k);
    }
  }

  lemma RecordSafe(s: State, s': State)
    requires Safe(s) && Record(s, s')
    ensures Safe(s')
  {
    hide TableOk, FgPid, MaxJid, Deleted;
    var i := GotSlot(s);
    DeletedOk(s.jobs, s.handler.pid, i);
    WithStateOk(s.jobs, i, St);
  }

  lemma EvalSafe(s: State, s': State)
    requires Safe(s) && s.handler == Idle && (Block(s, s') || Fork(s, s') || Unblock(s, s'))
    ensures Safe(s')
  {
  }

  lemma ListSafe(s: State, s': State)
    requires Safe(s) && s.handler == Idle && List(s, s')
    ensures Safe(s')
  {
    hide TableOk, Added;
    AddedOk(s.jobs, s.main.pid, if s.main.bg then Bg else Fg, s.main.cmdline);
  }

  lemma WaitSafe(s: State, s': State)
    requires Safe(s) && s.handler == Idle && (EnterWait(s, s') || Spin(s, s') || CallWait(s, s'))
    ensures Safe(s')
  {
  }

  lemma PickSafe(s: State, s': State)
    requires Safe(s) && s.handler == Idle && (Pick(s, s') || Continue(s, s'))
    ensures Safe(s')
  {
  }

  lemma MarkSafe(s: State, s': State)
    requires Safe(s) && s.handler == Idle && Mark(s, s')
    ensures Safe(s')
  {
    hide TableOk;
    WithStateOk(s.jobs, s.main.slot, if s.main.fg then Fg else Bg);
  }

  // ---------------------------------------------------------------- wake-ups

  lemma KernelAwake(s: State, s': State)
    requires Safe(s) && Awake(s) && KernelStep(s, s')
    ensures Awake(s')
  {
    hide Safe;
  }

  lemma DeliverAwake(s: State, s': State)
    requires Safe(s) && Awake(s) && (Deliver(s, s') || FindForeground(s, s'))
    ensures Awake(s')
  {
  }

  lemma WaitPidAwake(s: State, s': State)
    requires Safe(s) && Awake(s) && WaitPid(s, s')
    ensures Awake(s')
  {
    forall i | 0 <= i < |s.jobs.table| && s.jobs.table[i].state == Fg {
      FgPidIs(s, i);
    }
  }

  lemma RecordAwake(s: State, s': State)
    requires Safe(s) && Awake(s) && Record(s, s')
    ensures Awake(s')
  {
    forall i | 0 <= i < |s.jobs.table| && s.jobs.table[i].state == Fg {
      FgPidIs(s, i);
    }
  }

  lemma EvalAwake(s: State, s': State)
    requires Safe(s) && Awake(s) && s.handler == Idle && (Block(s, s') || Fork(s, s') || Unblock(s, s'))
    ensures Awake(s')
  {
  }

  lemma ListAwake(s: State, s': State)
    requires Safe(s) && Awake(s) && s.handler == Idle && List(s, s')
    ensures Awake(s')
  {
  }

  lemma WaitAwake(s: State, s': State)
    requires Safe(s) && Awake(s) && s.handler == Idle && (EnterWait(s, s') || Spin(s, s') || CallWait(s, s'))
    ensures Awake(s')
  {
    hide Safe;
  }

  lemma PickAwake(s: State, s': State)
    requires Safe(s) && Awake(s) && s.handler == Idle && (Pick(s, s') || Continue(s, s') || Mark(s, s'))
    ensures Awake(s')
  {
  }

  // --------------------------------------------------------------- every run

  lemma StepSafe(s: State, s': State)
    requires Safe(s) && Awake(s) && Next(s, s')
    ensures Safe(s') && Awake(s')
  {
    hide Safe, Awake, Deliver, FindForeground, WaitPid, Record, Block, Fork, List, Unblock, EnterWait, Spin, Pick,
         Continue, Mark, CallWait, KernelStep;
    if KernelStep(s, s') {
      KernelSafe(s, s');
      KernelAwake(s, s');
    } else if HandlerStep(s, s') {
      HandlerStepSafe(s, s');
    } else {
      MainStepSafe(s, s');
    }
  }

  lemma HandlerStepSafe(s: State, s': State)
    requires Safe(s) && Awake(s) && HandlerStep(s, s')
    ensures Safe(s') && Awake(s')
  {
    hide Safe, Awake, Deliver, FindForeground, WaitPid, Record;
    if Deliver(s, s') {
      DeliverSafe(s, s');
      DeliverAwake(s, s');
    } else if FindForeground(s, s') {
      FindForegroundSafe(s, s');
      DeliverAwake(s, s');
    } else if WaitPid(s, s') {
      WaitPidSafe(s, s');
      WaitPidAwake(s, s');
    } else {
      RecordSafe(s, s');
      RecordAwake(s, s');
    }
  }

  lemma MainStepSafe(s: State, s': State)
    requires Safe(s) && Awake(s) && MainStep(s, s')
    ensures Safe(s') && Awake(s')
  {
    hide Safe, Awake, Block, Fork, List, Unblock, EnterWait, Spin, Pick, Continue, Mark, CallWait;
    if Block(s, s') || Fork(s, s') || Unblock(s, s') {
      EvalSafe(s, s');
      EvalAwake(s, s');
    } else if List(s, s') {
      ListSafe(s, s');
      ListAwake(s, s');
    } else if EnterWait(s, s') || Spin(s, s') || CallWait(s, s') {
      WaitSafe(s, s');
      WaitAwake(s, s');
    } else if Mark(s, s') {
      MarkSafe(s, s');
      PickAwake(s, s');
    } else {
      PickSafe(s, s');
      PickAwake(s, s');
    }
  }

  ghost predicate Run(r: seq<State>) {
    |r| > 0 && Init(r[0]) && forall i {:trigger Hop(r, i)} | 0 <= i < |r| - 1 :: Hop(r, i)
  }

  ghost predicate Hop(r: seq<State>, i: int)
    requires 0 <= i < |r| - 1
  {
    Next(r[i], r[i + 1])
  }

  lemma {:induction false} RunSafe(r: seq<State>, i: nat)
    requires Run(r) && i < |r|
    ensures Safe(r[i]) && Awake(r[i])
  {
    hide Safe, Awake, Next, Init;
    if i == 0 {
      InitSafe(r[0]);
    } else {
      RunSafe(r, i - 1);
      assert Hop(r, i - 1);
      StepSafe(r[i - 1], r[i]);
    }
  }
}
