/** The job table of mps/03/tsh.c. */
module JobTable {

  const MAXJOBS := 16

  datatype JobState = Undef | Fg | Bg | St

  datatype Job = Job(pid: int, jid: int, state: JobState, cmdline: string)

  type Table = seq<Job>

  const NO_JOB := Job(0, 0, Undef, "")

  /** The first slot that holds `pid`, or |t|. */
  function SlotOf(t: Table, pid: int): (i: nat)
    ensures i <= |t| && (i < |t| ==> t[i].pid == pid)
    ensures forall j | 0 <= j < i :: t[j].pid != pid
  {
    if t == [] || t[0].pid == pid then 0 else 1 + SlotOf(t[1..], pid)
  }

  function JidSlot(t: Table, jid: int): (i: nat)
    ensures i <= |t| && (i < |t| ==> t[i].jid == jid)
    ensures forall j | 0 <= j < i :: t[j].jid != jid
  {
    if t == [] || t[0].jid == jid then 0 else 1 + JidSlot(t[1..], jid)
  }

  function FgSlot(t: Table): (i: nat)
    ensures i <= |t| && (i < |t| ==> t[i].state == Fg)
    ensures forall j | 0 <= j < i :: t[j].state != Fg
  {
    if t == [] || t[0].state == Fg then 0 else 1 + FgSlot(t[1..])
  }

  function FgPid(t: Table): int {
    if FgSlot(t) < |t| then t[FgSlot(t)].pid else 0
  }

  function MaxJid(t: Table): (m: int)
    ensures 0 <= m && (m == 0 || exists i | 0 <= i < |t| :: t[i].jid == m)
    ensures forall i | 0 <= i < |t| :: t[i].jid <= m
  {
    if t == [] then 0
    else
      var i := |t| - 1;
      var m := MaxJid(t[..i]);
      if t[i].jid > m then t[i].jid else m
  }

  datatype Jobs = Jobs(table: Table, nextjid: int)

  function Added(s: Jobs, pid: int, state: JobState, cmdline: string): Jobs {
    var i := SlotOf(s.table, 0);
    if pid < 1 || i == |s.table| then s
    else Jobs(s.table[i := Job(pid, s.nextjid, state, cmdline)], if s.nextjid + 1 > MAXJOBS then 1 else s.nextjid + 1)
  }

  function Deleted(s: Jobs, pid: int): Jobs {
    var i := SlotOf(s.table, pid);
    if pid < 1 || i == |s.table| then s
    else var t := s.table[i := NO_JOB]; Jobs(t, MaxJid(t) + 1)
  }

  class JobList {
    const jobs: array<Job>
    var nextjid: int

    ghost predicate Valid() {
      jobs.Length == MAXJOBS
    }

    ghost function Value(): Jobs
      reads this, jobs
    {
      Jobs(jobs[..], nextjid)
    }

    /** initjobs */
    constructor ()
      ensures Valid() && fresh(jobs) && nextjid == 1 && forall i | 0 <= i < MAXJOBS :: jobs[i] == NO_JOB
    {
      jobs := new Job[MAXJOBS];
      nextjid := 1;
      new;
      for i := 0 to MAXJOBS
        invariant nextjid == 1 && forall j | 0 <= j < i :: jobs[j] == NO_JOB
      {
        jobs[i] := NO_JOB;
      }
    }

    method GetJobPid(pid: int) returns (slot: nat)
      requires Valid()
      ensures slot == if pid < 1 then MAXJOBS else SlotOf(jobs[..], pid)
    {
      if pid < 1 {
        return MAXJOBS;
      }
      for i := 0 to MAXJOBS
        invariant forall j | 0 <= j < i :: jobs[j].pid != pid
      {
        if jobs[i].pid == pid {
          return i;
        }
      }
      return MAXJOBS;
    }

    method GetJobJid(jid: int) returns (slot: nat)
      requires Valid()
      ensures slot == if jid < 1 then MAXJOBS else JidSlot(jobs[..], jid)
    {
      if jid < 1 {
        return MAXJOBS;
      }
      for i := 0 to MAXJOBS
        invariant forall j | 0 <= j < i :: jobs[j].jid != jid
      {
        if jobs[i].jid == jid {
          return i;
        }
      }
      return MAXJOBS;
    }

    method Fgpid() returns (pid: int)
      requires Valid()
      ensures pid == FgPid(jobs[..])
    {
      for i := 0 to MAXJOBS
        invariant forall j | 0 <= j < i :: jobs[j].state != Fg
      {
        if jobs[i].state == Fg {
          return jobs[i].pid;
        }
      }
      return 0;
    }

    method Maxjid() returns (max: int)
      requires Valid()
      ensures max == MaxJid(jobs[..])
    {
      max := 0;
      for i := 0 to MAXJOBS
        invariant max == MaxJid(jobs[..i])
      {
        assert jobs[..i + 1][..i] == jobs[..i];
        if jobs[i].jid > max {
          max := jobs[i].jid;
        }
      }
      assert jobs[..MAXJOBS] == jobs[..];
    }

    method AddJob(pid: int, state: JobState, cmdline: string) returns (ok: bool)
      requires Valid()
      modifies this, jobs
      ensures Value() == Added(old(Value()), pid, state, cmdline)
      ensures ok <==> pid >= 1 && exists i | 0 <= i < MAXJOBS :: old(jobs[i].pid) == 0
    {
      if pid < 1 {
        return false;
      }
      for i := 0 to MAXJOBS
        invariant Value() == old(Value()) && forall j | 0 <= j < i :: jobs[j].pid != 0
      {
        if jobs[i].pid == 0 {
          jobs[i] := Job(pid, nextjid, state, cmdline);
          nextjid := nextjid + 1;
          if nextjid > MAXJOBS {
            nextjid := 1;
          }
          return true;
        }
      }
      return false;
    }

    method DeleteJob(pid: int) returns (ok: bool)
      requires Valid()
      modifies this, jobs
      ensures Value() == Deleted(old(Value()), pid)
      ensures ok <==> pid >= 1 && exists i | 0 <= i < MAXJOBS :: old(jobs[i].pid) == pid
    {
      if pid < 1 {
        return false;
      }
      for i := 0 to MAXJOBS
        invariant Value() == old(Value()) && forall j | 0 <= j < i :: jobs[j].pid != pid
      {
        if jobs[i].pid == pid {
          jobs[i] := NO_JOB;
          var max := Maxjid();
          nextjid := max + 1;
          return true;
        }
      }
      return false;
    }
  }
}
