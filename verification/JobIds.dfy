/** Job ids in mps/03/tsh.c: when addjob gives out an id that is already in use. */
module JobIds {
  import opened JobTable
  import opened Shell

  ghost predicate IdsDistinct(t: Table) {
    forall i, k | 0 <= i < k < |t| && t[i].pid != 0 && t[k].pid != 0 :: t[i].jid != t[k].jid
  }

  /** addjob keeps the job ids distinct exactly when nextjid is not in use. */
  lemma AddKeepsIdsIff(j: Jobs, pid: int, state: JobState, cmdline: string)
    requires TableOk(j) && IdsDistinct(j.table) && pid >= 1 && SlotOf(j.table, 0) < MAXJOBS
    ensures IdsDistinct(Added(j, pid, state, cmdline).table) <==> JidSlot(j.table, j.nextjid) == MAXJOBS
  {
    var i := SlotOf(j.table, 0);
    var t := Added(j, pid, state, cmdline).table;
    var k := JidSlot(j.table, j.nextjid);
    if k < MAXJOBS {
      assert t[k].jid == t[i].jid && k != i;
    }
  }

  /** After deletejob the next id is larger than all that are in use. */
  lemma DeleteFreesIds(j: Jobs, pid: int)
    requires TableOk(j) && IdsDistinct(j.table) && pid >= 1 && SlotOf(j.table, pid) < MAXJOBS
    ensures var d := Deleted(j, pid);
            IdsDistinct(d.table) && JidSlot(d.table, d.nextjid) == MAXJOBS &&
                forall i | 0 <= i < MAXJOBS :: d.table[i].jid < d.nextjid
  {
  }

  function Filled(n: nat): Jobs
    requires n <= MAXJOBS
  {
    Jobs(seq(MAXJOBS, i requires 0 <= i => if i < n then Job(i + 1, i + 1, Bg, "") else NO_JOB),
         if n == MAXJOBS then 1 else n + 1)
  }

  function AddedUpTo(n: nat): Jobs {
    if n == 0 then Jobs(seq(MAXJOBS, i => NO_JOB), 1) else Added(AddedUpTo(n - 1), n, Bg, "")
  }

  lemma SlotIs(t: Table, pid: int, i: nat)
    requires i < |t| && t[i].pid == pid && forall k | 0 <= k < i :: t[k].pid != pid
    ensures SlotOf(t, pid) == i
  {
  }

  lemma {:induction false} FillTable(n: nat)
    requires n <= MAXJOBS
    ensures AddedUpTo(n) == Filled(n)
  {
    hide SlotOf;
    if n == 0 {
      assert Filled(0).table == AddedUpTo(0).table;
    } else {
      FillTable(n - 1);
      SlotIs(Filled(n - 1).table, 0, n - 1);
      assert Filled(n - 1).table[n - 1 := Job(n, n, Bg, "")] == Filled(n).table;
    }
  }

  /** One deletejob and one addjob at a known slot. */
  lemma DeletedAt(j: Jobs, pid: int, i: nat)
    requires pid >= 1 && i < 15 && |j.table| == MAXJOBS && j.table[i].pid == pid &&
             forall k | 0 <= k < i :: j.table[k].pid != pid
    requires j.table[15].jid == 16 && forall k | 0 <= k < 15 :: j.table[k].jid <= 15
    ensures Deleted(j, pid) == Jobs(j.table[i := NO_JOB], 17)
  {
    SlotIs(j.table, pid, i);
    LastJid(j.table[i := NO_JOB]);
  }

  lemma AddedAt(j: Jobs, pid: int, i: nat)
    requires pid >= 1 && i < |j.table| && j.table[i].pid == 0 && forall k | 0 <= k < i :: j.table[k].pid != 0
    ensures Added(j, pid, Bg, "") ==
            Jobs(j.table[i := Job(pid, j.nextjid, Bg, "")], if j.nextjid + 1 > MAXJOBS then 1 else j.nextjid + 1)
  {
    SlotIs(j.table, 0, i);
  }

  /** Job ids are not unique: fill the table, delete two jobs, add two. */
  lemma IdsRepeat() returns (j: Jobs)
    ensures j == Added(Added(Deleted(Deleted(AddedUpTo(16), 5), 6), 17, Bg, ""), 18, Bg, "")
    ensures |j.table| == MAXJOBS && !IdsDistinct(j.table)
    ensures j.table[0].jid == j.table[5].jid == 1 && j.table[4].jid == MAXJOBS + 1
  {
    hide Deleted, Added, SlotOf, MaxJid, AddedUpTo;
    FillTable(16);
    var j0 := Filled(16);
    DeletedAt(j0, 5, 4);
    var j1 := Jobs(j0.table[4 := NO_JOB], 17);
    DeletedAt(j1, 6, 5);
    var j2 := Jobs(j1.table[5 := NO_JOB], 17);
    AddedAt(j2, 17, 4);
    var j3 := Jobs(j2.table[4 := Job(17, 17, Bg, "")], 1);
    AddedAt(j3, 18, 5);
    j := Jobs(j3.table[5 := Job(18, 1, Bg, "")], 2);
    assert j.table[0] == Job(1, 1, Bg, "") && j.table[5].pid != 0;
  }

  lemma LastJid(t: Table)
    requires |t| == MAXJOBS && t[15].jid == 16 && forall i | 0 <= i < 15 :: t[i].jid <= 15
    ensures MaxJid(t) == 16
  {
  }

  // ---------------------------------------------------- the same as a run

  ghost predicate Reachable(s: State) {
    exists r :: Run(r) && r[|r| - 1] == s
  }

  lemma ReachStep(s: State, s': State)
    requires Reachable(s) && Next(s, s')
    ensures Reachable(s')
  {
    hide Next, Init;
    var r :| Run(r) && r[|r| - 1] == s;
    var q := r + [s'];
    forall i | 0 <= i < |q| - 1
      ensures Hop(q, i)
    {
      assert i < |r| - 1 ==> Hop(r, i);
    }
    assert q[0] == r[0] && q[|q| - 1] == s';
  }

  /** At the prompt with nothing pending, the children `live` all running. */
  ghost predicate Calm(s: State, j: Jobs, live: set<int>) {
    && s.main == Prompt && s.handler == Idle && !s.blocked && !s.pending && s.jobs == j
    && s.children.Keys == live && forall p | p in live :: s.children[p] == Running
  }

  ghost predicate CalmReached(s: State, j: Jobs, live: set<int>) {
    Reachable(s) && Calm(s, j, live)
  }

  /** A background command. */
  lemma StartJob(s: State, j: Jobs, live: set<int>, pid: int) returns (s': State)
    requires CalmReached(s, j, live) && pid >= 1 && pid !in live
    ensures CalmReached(s', Added(j, pid, Bg, ""), live + {pid})
  {
    hide Reachable, KernelStep, HandlerStep, Added;
    var s1 := s.(main := Masked(true, ""), blocked := true);
    var s2 := s1.(main := Forked(pid, true, ""), children := s.children[pid := Running]);
    var s3 := s2.(main := Listed(pid, true), jobs := Added(j, pid, Bg, ""), missed := false);
    s' := s3.(main := Prompt, blocked := false);
    assert Block(s, s1) && Fork(s1, s2) && List(s2, s3) && Unblock(s3, s');
    ReachStep(s, s1);
    ReachStep(s1, s2);
    ReachStep(s2, s3);
    ReachStep(s3, s');
  }

  /** `fg` on a running background job, up to the loop of waitfg. */
  lemma BringToFront(s: State, j: Jobs, live: set<int>, i: nat) returns (s': State)
    requires CalmReached(s, j, live) && i < |j.table| && j.table[i].jid >= 1
    requires var pid := j.table[i].pid;
             pid >= 1 && pid in live && SlotOf(j.table, pid) == i
    ensures var pid := j.table[i].pid;
            Reachable(s') &&
            s' == s.(main := Waiting(pid), jobs := j.(table := WithState(j.table, i, Fg)), missed := false)
  {
    hide Reachable, KernelStep, HandlerStep;
    var pid := j.table[i].pid;
    var s1 := s.(main := Picked(i, pid, true));
    var s2 := s1.(main := Continued(i, pid, true));
    var s3 := s2.(main := Marked(i), jobs := j.(table := WithState(j.table, i, Fg)), missed := false);
    var s4 := s3.(main := WaitCall(pid));
    s' := s4.(main := Waiting(pid));
    assert Pick(s, s1) && Continue(s1, s2) && Mark(s2, s3) && CallWait(s3, s4);
    assert s4.jobs.table[i].pid == pid;
    assert EnterWait(s4, s');
    ReachStep(s, s1);
    ReachStep(s1, s2);
    ReachStep(s2, s3);
    ReachStep(s3, s4);
    ReachStep(s4, s');
  }

  /** The foreground job exits and the shell is back at the prompt. */
  lemma EndForeground(s: State, i: nat) returns (s': State)
    requires Reachable(s) && s.handler == Idle && !s.blocked && !s.pending && s.main.Waiting?
    requires var pid := s.main.pid;
             && pid >= 1 && pid in s.children && s.children[pid] == Running
             && FgPid(s.jobs.table) == pid && FgPid(Deleted(s.jobs, pid).table) == 0
    ensures var pid := s.main.pid;
            && Reachable(s')
            && s' == s.(main := Prompt, jobs := Deleted(s.jobs, pid), children := s.children - {pid})
  {
    hide Reachable, FgPid, Deleted;
    var pid := s.main.pid;
    var s1 := s.(children := s.children[pid := Zombie(false)], pending := true);
    var s2 := s1.(pending := false, handler := Loop);
    var s3 := s2.(handler := Asking(pid));
    var s4 := s3.(children := s.children - {pid}, handler := Got(pid, WasEnded(false)));
    var s5 := s4.(jobs := Deleted(s.jobs, pid), handler := Loop);
    var s6 := s5.(handler := Asking(0));
    var s7 := s6.(handler := Idle);
    s' := s7.(main := Prompt);
    assert s.children[pid := Zombie(false)] - {pid} == s.children - {pid};
    assert ChildChanges(s, s1, pid, Zombie(false)) && Deliver(s1, s2) && FindForeground(s2, s3) && WaitPid(s3, s4);
    assert Record(s4, s5) && FindForeground(s5, s6) && WaitPid(s6, s7) && Spin(s7, s');
    ReachAll(s, s1, s2, s3, s4);
    ReachAll(s4, s5, s6, s7, s');
  }

  lemma ReachAll(s: State, s1: State, s2: State, s3: State, s4: State)
    requires Reachable(s) && Next(s, s1) && Next(s1, s2) && Next(s2, s3) && Next(s3, s4)
    ensures Reachable(s4)
  {
    hide Reachable, Next;
    ReachStep(s, s1);
    ReachStep(s1, s2);
    ReachStep(s2, s3);
    ReachStep(s3, s4);
  }

  /** Bringing a job to the foreground and letting it exit deletes it. */
  lemma EndJob(s: State, j: Jobs, live: set<int>, i: nat) returns (s': State)
    requires CalmReached(s, j, live) && i < |j.table| == MAXJOBS && j.table[i].jid >= 1
    requires forall k | 0 <= k < MAXJOBS :: j.table[k].state != Fg
    requires var pid := j.table[i].pid;
             pid >= 1 && pid in live && SlotOf(j.table, pid) == i
    ensures CalmReached(s', Deleted(j, j.table[i].pid), live - {j.table[i].pid})
  {
    hide Reachable, Next;
    var pid := j.table[i].pid;
    var s1 := BringToFront(s, j, live, i);
    DeletedFront(j, i);
    s' := EndForeground(s1, i);
    assert (s.children - {pid}).Keys == live - {pid};
  }

  /** Deleting a job does not depend on its state. */
  lemma DeletedFront(j: Jobs, i: nat)
    requires i < |j.table| == MAXJOBS && j.table[i].pid >= 1 && SlotOf(j.table, j.table[i].pid) == i
    requires forall k | 0 <= k < MAXJOBS :: j.table[k].state != Fg
    ensures var j1 := j.(table := WithState(j.table, i, Fg)); var pid := j.table[i].pid;
            && FgPid(j1.table) == pid && Deleted(j1, pid) == Deleted(j, pid) && FgPid(Deleted(j, pid).table) == 0
  {
    hide MaxJid;
    var t := WithState(j.table, i, Fg);
    assert t[i].state == Fg;
    assert FgSlot(t) == i;
    SlotIs(t, j.table[i].pid, i);
    assert t[i := NO_JOB] == j.table[i := NO_JOB];
    var d := j.table[i := NO_JOB];
    assert forall k | 0 <= k < MAXJOBS :: d[k].state != Fg;
    assert FgSlot(d) == MAXJOBS;
  }

  function UpTo(n: nat): (r: set<int>)
    ensures forall p :: p in r <==> 1 <= p <= n
  {
    if n == 0 then {} else UpTo(n - 1) + {n}
  }

  lemma {:induction false} FillRun(n: nat) returns (s: State)
    requires n <= MAXJOBS
    ensures CalmReached(s, AddedUpTo(n), UpTo(n))
  {
    hide Reachable, Next;
    if n == 0 {
      s := State(AddedUpTo(0), map[], false, false, Prompt, Idle, false);
      NewShell(s);
    } else {
      s := FillRun(n - 1);
      s := StartJob(s, AddedUpTo(n - 1), UpTo(n - 1), n);
    }
  }

  lemma NewShell(s: State)
    requires Init(s)
    ensures Reachable(s)
  {
    var r := [s];
    assert Run(r) && r[|r| - 1] == s;
  }

  /** A run of the shell, handler and kernel after which two listed jobs have the same
      job id, and one an id above MAXJOBS. */
  lemma IdsRepeatInRun() returns (s: State)
    ensures Reachable(s) && s.main == Prompt && |s.jobs.table| == MAXJOBS && !IdsDistinct(s.jobs.table)
    ensures s.jobs.table[0].jid == s.jobs.table[5].jid == 1 && s.jobs.table[4].jid == MAXJOBS + 1
  {
    hide Reachable, Next, Deleted, Added, SlotOf, MaxJid, AddedUpTo;
    var j := IdsRepeat();
    s := FillRun(16);
    FillTable(16);
    var j0 := Filled(16);
    var live := UpTo(16);
    SlotIs(j0.table, 5, 4);
    s := EndJob(s, j0, live, 4);
    DeletedAt(j0, 5, 4);
    var j1 := Jobs(j0.table[4 := NO_JOB], 17);
    SlotIs(j1.table, 6, 5);
    s := EndJob(s, j1, live - {5}, 5);
    s := StartJob(s, Deleted(j1, 6), live - {5} - {6}, 17);
    s := StartJob(s, Added(Deleted(j1, 6), 17, Bg, ""), live - {5} - {6} + {17}, 18);
  }
}
