/**
 * One drain of the spool's `out/` directory into every repository, as a machine
 * whose steps are single storage operations.
 *
 * The machine does not fix the order of the steps of different segments, nor
 * the order of the targets of one segment, nor what happens to the other
 * targets after one has failed. The serial loop, the pool with one job a
 * segment and the pool with one job a target are all runs of it.
 */
module DrainMachine {
  import opened Base
  import opened Wal

  /** What a drain is given besides the disk: the codec in use and the transforms. */
  datatype Plan = Plan(suffix: Suffix, codec: Codec)

  datatype Phase = Copying | Removed | Archived | Rejected

  /** Progress of one segment: the targets that have its copy, and whether any operation for it has failed. */
  datatype Job = Job(written: set<nat>, failed: bool, phase: Phase)

  type Jobs = map<Name, Job>

  datatype State = State(disk: Disk, jobs: Jobs)

  datatype Step =
    | Copy(seg: Name, target: nat)
    | Fault(seg: Name)
    | RemoveStaged(seg: Name)
    | RecordOk(seg: Name)
    | RecordError(seg: Name, message: Bytes)

  function StartJobs(out: Spool): (jobs: Jobs)
    ensures jobs.Keys == StagedNames(out)
  {
    map name | name in StagedNames(out) :: Job({}, false, Copying)
  }

  function Start(disk: Disk): State {
    State(disk, StartJobs(disk.out))
  }

  /** Every one of the `n` targets has the segment's copy. */
  predicate Everywhere(job: Job, n: nat) {
    forall i :: 0 <= i < n ==> i in job.written
  }

  predicate Enabled(st: State, step: Step) {
    && step.seg in st.jobs
    && var job := st.jobs[step.seg];
       match step
       case Copy(seg, i) =>
         job.phase == Copying && i < |st.disk.repos| && i !in job.written && Staged(seg) in st.disk.out
       case Fault(seg) => job.phase == Copying && !job.failed
       case RemoveStaged(seg) => job.phase == Copying && !job.failed && Everywhere(job, |st.disk.repos|)
       case RecordOk(seg) => job.phase == Removed
       case RecordError(seg, _) => job.phase == Copying && job.failed
  }

  function Apply(plan: Plan, st: State, step: Step): State
    requires Enabled(st, step)
  {
    var job := st.jobs[step.seg];
    var disk := st.disk;
    match step
    case Copy(seg, i) =>
      var stored := plan.codec.forward(plan.suffix, i, disk.out[Staged(seg)]);
      State(disk.(repos := disk.repos[i := disk.repos[i][RepoFile(seg, plan.suffix) := stored]]),
            st.jobs[seg := job.(written := job.written + {i})])
    case Fault(seg) =>
      State(disk, st.jobs[seg := job.(failed := true)])
    case RemoveStaged(seg) =>
      State(disk.(out := disk.out - {Staged(seg)}), st.jobs[seg := job.(phase := Removed)])
    case RecordOk(seg) =>
      State(disk.(out := disk.out[OkStatus(seg) := []]), st.jobs[seg := job.(phase := Archived)])
    case RecordError(seg, message) =>
      State(disk.(out := disk.out[ErrorStatus(seg) := message]), st.jobs[seg := job.(phase := Rejected)])
  }

  /** The drain has recorded a status for every segment it listed. */
  predicate Complete(st: State) {
    forall name :: name in st.jobs ==> st.jobs[name].phase in {Archived, Rejected}
  }

  /**
   * The disk is determined by where the drain began and by the jobs' progress:
   * no operation of one segment touches what another segment's left behind.
   */
  ghost predicate Accounted(plan: Plan, disk0: Disk, st: State) {
    && StagedNames(disk0.out) == st.jobs.Keys
    && |st.disk.repos| == |disk0.repos|
    && (forall name :: name in st.jobs ==> JobAccounted(disk0, st, name))
    && (forall name :: (OkStatus(name) in st.disk.out <==>
          OkStatus(name) in disk0.out || (name in st.jobs && st.jobs[name].phase == Archived)))
    && (forall name :: (ErrorStatus(name) in st.disk.out <==>
          ErrorStatus(name) in disk0.out || (name in st.jobs && st.jobs[name].phase == Rejected)))
    && (forall name :: Staged(name) in st.disk.out ==> Staged(name) in disk0.out)
    && (forall i, f :: 0 <= i < |disk0.repos| ==> RepoFileAccounted(plan, disk0, st, i, f))
  }

  ghost predicate JobAccounted(disk0: Disk, st: State, name: Name)
    requires name in st.jobs
  {
    var job := st.jobs[name];
    && Staged(name) in disk0.out
    && (forall i :: i in job.written ==> i < |disk0.repos|)
    && (job.phase in {Removed, Archived} ==> !job.failed && Everywhere(job, |disk0.repos|))
    && (job.phase == Rejected ==> job.failed)
    && (Staged(name) in st.disk.out <==> job.phase in {Copying, Rejected})
    && (Staged(name) in st.disk.out ==> st.disk.out[Staged(name)] == disk0.out[Staged(name)])
  }

  /** File `f` of repository `i` was written by this drain. */
  predicate Written(plan: Plan, jobs: Jobs, i: nat, f: RepoFile) {
    f.suffix == plan.suffix && f.name in jobs && i in jobs[f.name].written
  }

  ghost predicate RepoFileAccounted(plan: Plan, disk0: Disk, st: State, i: nat, f: RepoFile)
    requires i < |disk0.repos| == |st.disk.repos|
    requires StagedNames(disk0.out) == st.jobs.Keys
  {
    && (f in st.disk.repos[i] <==> f in disk0.repos[i] || Written(plan, st.jobs, i, f))
    && (f in st.disk.repos[i] ==>
          if Written(plan, st.jobs, i, f) then
            Staged(f.name) in disk0.out
            && st.disk.repos[i][f] == plan.codec.forward(plan.suffix, i, disk0.out[Staged(f.name)])
          else
            f in disk0.repos[i] && st.disk.repos[i][f] == disk0.repos[i][f])
  }

  lemma StartAccounted(plan: Plan, disk0: Disk)
    ensures Accounted(plan, disk0, Start(disk0))
  {
  }

  lemma StepKeepsJob(plan: Plan, disk0: Disk, st: State, step: Step, name: Name)
    requires Enabled(st, step) && |st.disk.repos| == |disk0.repos|
    requires name in st.jobs && JobAccounted(disk0, st, name)
    ensures JobAccounted(disk0, Apply(plan, st, step), name)
  {
  }

  lemma StepKeepsRepoFile(plan: Plan, disk0: Disk, st: State, step: Step, i: nat, f: RepoFile)
    requires Enabled(st, step) && i < |st.disk.repos| == |disk0.repos| && StagedNames(disk0.out) == st.jobs.Keys
    requires JobAccounted(disk0, st, step.seg) && RepoFileAccounted(plan, disk0, st, i, f)
    ensures RepoFileAccounted(plan, disk0, Apply(plan, st, step), i, f)
  {
  }

  lemma StepKeepsAccount(plan: Plan, disk0: Disk, st: State, step: Step)
    requires Accounted(plan, disk0, st) && Enabled(st, step)
    ensures Accounted(plan, disk0, Apply(plan, st, step))
  {
    var st' := Apply(plan, st, step);
    assert JobAccounted(disk0, st, step.seg);
    forall name | name in st'.jobs ensures JobAccounted(disk0, st', name) {
      StepKeepsJob(plan, disk0, st, step, name);
    }
    forall i, f | 0 <= i < |disk0.repos| ensures RepoFileAccounted(plan, disk0, st', i, f) {
      StepKeepsRepoFile(plan, disk0, st, step, i, f);
    }
  }

  // ----- Failure as a fixed function of (segment, target)

  type Failures = (Name, nat) -> bool

  predicate FailsSomewhere(fails: Failures, seg: Name, n: nat) {
    exists i :: 0 <= i < n && fails(seg, i)
  }

  predicate Obeys(fails: Failures, st: State, step: Step) {
    match step
    case Copy(seg, i) => !fails(seg, i)
    case Fault(seg) => FailsSomewhere(fails, seg, |st.disk.repos|)
    case _ => true
  }

  ghost predicate Next(plan: Plan, fails: Failures, a: State, b: State) {
    exists step :: Enabled(a, step) && Obeys(fails, a, step) && b == Apply(plan, a, step)
  }

  /** A run: any interleaving of enabled steps from the start of the drain. */
  ghost predicate IsRun(plan: Plan, fails: Failures, disk0: Disk, run: seq<State>) {
    && run != []
    && run[0] == Start(disk0)
    && forall k :: 0 <= k < |run| - 1 ==> Next(plan, fails, run[k], run[k + 1])
  }

  /** Only failing segments are marked, and no copy was made where the copy fails. */
  ghost predicate Consistent(fails: Failures, st: State) {
    forall name :: name in st.jobs ==>
      && (st.jobs[name].failed ==> FailsSomewhere(fails, name, |st.disk.repos|))
      && (forall i :: i in st.jobs[name].written ==> !fails(name, i))
  }

  lemma StepKeepsConsistency(plan: Plan, fails: Failures, st: State, step: Step)
    requires Consistent(fails, st) && Enabled(st, step) && Obeys(fails, st, step)
    ensures Consistent(fails, Apply(plan, st, step))
  {
  }

  lemma NextKeeps(plan: Plan, fails: Failures, disk0: Disk, a: State, b: State)
    requires Next(plan, fails, a, b) && Accounted(plan, disk0, a) && Consistent(fails, a)
    ensures Accounted(plan, disk0, b) && Consistent(fails, b)
  {
    var step :| Enabled(a, step) && Obeys(fails, a, step) && b == Apply(plan, a, step);
    StepKeepsAccount(plan, disk0, a, step);
    StepKeepsConsistency(plan, fails, a, step);
  }

  lemma {:induction false} RunAccounted(plan: Plan, fails: Failures, disk0: Disk, run: seq<State>, k: nat)
    requires IsRun(plan, fails, disk0, run) && k < |run|
    ensures Accounted(plan, disk0, run[k]) && Consistent(fails, run[k])
  {
    if k == 0 {
      StartAccounted(plan, disk0);
    } else {
      RunAccounted(plan, fails, disk0, run, k - 1);
      assert Next(plan, fails, run[k - 1], run[k - 1 + 1]);
      NextKeeps(plan, fails, disk0, run[k - 1], run[k]);
    }
  }

  /**
   * The end of a drain in closed form: what is staged, which statuses there are
   * and what every repository holds, from the disk before and the failures only.
   */
  ghost predicate DrainedDisk(plan: Plan, fails: Failures, disk0: Disk, disk: Disk) {
    var n := |disk0.repos|;
    && |disk.repos| == n
    && (forall name :: Staged(name) in disk.out <==> Staged(name) in disk0.out && FailsSomewhere(fails, name, n))
    && (forall name :: Staged(name) in disk.out ==> disk.out[Staged(name)] == disk0.out[Staged(name)])
    && (forall name :: OkStatus(name) in disk.out <==>
          OkStatus(name) in disk0.out || (Staged(name) in disk0.out && !FailsSomewhere(fails, name, n)))
    && (forall name :: ErrorStatus(name) in disk.out <==>
          ErrorStatus(name) in disk0.out || (Staged(name) in disk0.out && FailsSomewhere(fails, name, n)))
    && (forall i, f :: 0 <= i < n ==> RepoFileDrained(plan, fails, disk0, disk, i, f))
  }

  ghost predicate RepoFileDrained(plan: Plan, fails: Failures, disk0: Disk, disk: Disk, i: nat, f: RepoFile)
    requires i < |disk0.repos| == |disk.repos|
  {
    if f.suffix != plan.suffix || Staged(f.name) !in disk0.out || fails(f.name, i) then
      // not this drain's to write
      (f in disk.repos[i] <==> f in disk0.repos[i])
      && (f in disk.repos[i] ==> disk.repos[i][f] == disk0.repos[i][f])
    else if FailsSomewhere(fails, f.name, |disk0.repos|) then
      // a partial copy of a failed segment: there or not, but never anything else
      (f in disk0.repos[i] ==> f in disk.repos[i])
      && (f in disk.repos[i] ==>
            || disk.repos[i][f] == plan.codec.forward(plan.suffix, i, disk0.out[Staged(f.name)])
            || (f in disk0.repos[i] && disk.repos[i][f] == disk0.repos[i][f]))
    else
      f in disk.repos[i] && disk.repos[i][f] == plan.codec.forward(plan.suffix, i, disk0.out[Staged(f.name)])
  }

  lemma CompleteRunOutcome(plan: Plan, fails: Failures, disk0: Disk, run: seq<State>)
    requires IsRun(plan, fails, disk0, run) && Complete(Last(run))
    ensures DrainedDisk(plan, fails, disk0, Last(run).disk)
  {
    var st := Last(run);
    RunAccounted(plan, fails, disk0, run, |run| - 1);
    forall name | name in st.jobs
      ensures st.jobs[name].phase == Archived <==> !FailsSomewhere(fails, name, |disk0.repos|)
    {
      assert JobAccounted(disk0, st, name);
    }
    forall name ensures Staged(name) in disk0.out <==> name in st.jobs {
      if Staged(name) in disk0.out { assert name in StagedNames(disk0.out); }
    }
    forall i, f | 0 <= i < |disk0.repos| ensures RepoFileDrained(plan, fails, disk0, st.disk, i, f) {
      assert RepoFileAccounted(plan, disk0, st, i, f);
      if f.name in st.jobs { assert JobAccounted(disk0, st, f.name); }
    }
  }

  /**
   * Any two orders of the work end with the same staged segments, the same
   * status kinds and the same copies of every successful segment.
   */
  lemma OrderDoesNotMatter(plan: Plan, fails: Failures, disk0: Disk, run1: seq<State>, run2: seq<State>)
    requires IsRun(plan, fails, disk0, run1) && Complete(Last(run1))
    requires IsRun(plan, fails, disk0, run2) && Complete(Last(run2))
    ensures var d1, d2 := Last(run1).disk, Last(run2).disk;
      && StagedNames(d1.out) == StagedNames(d2.out)
      && d1.out.Keys == d2.out.Keys
      && |d1.repos| == |d2.repos|
      && forall i, f: RepoFile :: 0 <= i < |d1.repos| && f.name !in StagedNames(d1.out) ==>
           (f in d1.repos[i] <==> f in d2.repos[i]) && (f in d1.repos[i] ==> d1.repos[i][f] == d2.repos[i][f])
  {
    var d1, d2 := Last(run1).disk, Last(run2).disk;
    CompleteRunOutcome(plan, fails, disk0, run1);
    CompleteRunOutcome(plan, fails, disk0, run2);
    forall f: SpoolFile ensures f in d1.out <==> f in d2.out {
      match f case Staged(name) => case OkStatus(name) => case ErrorStatus(name) =>
    }
    forall i, f: RepoFile | 0 <= i < |d1.repos| && f.name !in StagedNames(d1.out)
      ensures (f in d1.repos[i] <==> f in d2.repos[i]) && (f in d1.repos[i] ==> d1.repos[i][f] == d2.repos[i][f])
    {
      assert Staged(f.name) !in d1.out;
      assert RepoFileDrained(plan, fails, disk0, d1, i, f) && RepoFileDrained(plan, fails, disk0, d2, i, f);
    }
  }

  // ----- A drain under whatever failures there were

  ghost predicate OneStep(plan: Plan, a: State, b: State) {
    exists step :: Enabled(a, step) && b == Apply(plan, a, step)
  }

  /** A drain as it went, from its start, whatever failed. */
  ghost predicate IsPath(plan: Plan, disk0: Disk, path: seq<State>) {
    && path != []
    && path[0] == Start(disk0)
    && forall k :: 0 <= k < |path| - 1 ==> OneStep(plan, path[k], path[k + 1])
  }

  lemma PathExtended(plan: Plan, disk0: Disk, path: seq<State>, next: State)
    requires IsPath(plan, disk0, path) && OneStep(plan, Last(path), next)
    ensures IsPath(plan, disk0, path + [next])
  {
    var longer := path + [next];
    forall k | 0 <= k < |longer| - 1 ensures OneStep(plan, longer[k], longer[k + 1]) {
      if k < |path| - 1 {
        assert OneStep(plan, path[k], path[k + 1]);
      }
    }
  }

  /** The copies and the other operations that failed, as a failure function. */
  function FailsOf(blamed: set<(Name, nat)>): Failures {
    (name, i) => (name, i) in blamed
  }

  predicate Blamed(blamed: set<(Name, nat)>, name: Name) {
    exists b :: b in blamed && b.0 == name
  }

  /**
   * What failed so far is `blamed`: a segment is marked failed exactly when
   * something failed for it, and what failed has not been written.
   */
  ghost predicate BlameTrue(st: State, blamed: set<(Name, nat)>) {
    && (forall name :: name in st.jobs ==> (st.jobs[name].failed <==> Blamed(blamed, name)))
    && (forall b :: b in blamed ==>
          && b.0 in st.jobs && b.1 !in st.jobs[b.0].written
          && (|st.disk.repos| > 0 ==> b.1 < |st.disk.repos|))
  }

  /** A drain under way: how it went so far, and what failed. */
  ghost predicate Underway(plan: Plan, disk0: Disk, path: seq<State>, st: State, blamed: set<(Name, nat)>) {
    IsPath(plan, disk0, path) && Last(path) == st && BlameTrue(st, blamed)
  }

  /** A step goes on with the drain; a copy that failed is not made, and a failure is blamed. */
  lemma UnderwayStep(plan: Plan, disk0: Disk, path: seq<State>, st: State, blamed: set<(Name, nat)>,
      more: set<(Name, nat)>, step: Step)
    requires Underway(plan, disk0, path, st, blamed) && Enabled(st, step)
    requires step.Copy? ==> (step.seg, step.target) !in blamed
    requires more == {} <==> !step.Fault?
    requires forall b :: b in more ==>
      b.0 == step.seg && b.1 !in st.jobs[b.0].written && (|st.disk.repos| > 0 ==> b.1 < |st.disk.repos|)
    ensures var next := Apply(plan, st, step); Underway(plan, disk0, path + [next], next, blamed + more)
  {
    var next := Apply(plan, st, step);
    PathExtended(plan, disk0, path, next);
    if step.Fault? {
      var b :| b in more;
      assert b in blamed + more;
    }
    forall name | name in next.jobs ensures next.jobs[name].failed <==> Blamed(blamed + more, name) {
      if Blamed(blamed, name) {
        var b :| b in blamed && b.0 == name;
        assert b in blamed + more;
      }
    }
  }

  /** One more failure for a segment that has failed already. */
  lemma UnderwayBlame(plan: Plan, disk0: Disk, path: seq<State>, st: State, blamed: set<(Name, nat)>, b: (Name, nat))
    requires Underway(plan, disk0, path, st, blamed)
    requires b.0 in st.jobs && st.jobs[b.0].failed && b.1 !in st.jobs[b.0].written && b.1 < |st.disk.repos|
    ensures Underway(plan, disk0, path, st, blamed + {b})
  {
    forall name | name in st.jobs ensures st.jobs[name].failed <==> Blamed(blamed + {b}, name) {
      if Blamed(blamed, name) {
        var c :| c in blamed && c.0 == name;
        assert c in blamed + {b};
      }
    }
  }

  /** Progress is never undone. */
  ghost predicate Further(a: State, b: State) {
    && a.jobs.Keys == b.jobs.Keys && |a.disk.repos| == |b.disk.repos|
    && forall name :: name in a.jobs ==>
         a.jobs[name].written <= b.jobs[name].written && (a.jobs[name].failed ==> b.jobs[name].failed)
  }

  lemma {:induction false} PathGoesFurther(plan: Plan, disk0: Disk, path: seq<State>, j: nat, k: nat)
    requires IsPath(plan, disk0, path) && j <= k < |path|
    ensures Further(path[j], path[k])
  {
    if j < k {
      PathGoesFurther(plan, disk0, path, j, k - 1);
      assert OneStep(plan, path[k - 1], path[k - 1 + 1]);
    }
  }

  lemma {:induction false} PathAccounted(plan: Plan, disk0: Disk, path: seq<State>, k: nat)
    requires IsPath(plan, disk0, path) && k < |path|
    ensures Accounted(plan, disk0, path[k])
  {
    if k == 0 {
      StartAccounted(plan, disk0);
    } else {
      PathAccounted(plan, disk0, path, k - 1);
      assert OneStep(plan, path[k - 1], path[k - 1 + 1]);
      var step :| Enabled(path[k - 1], step) && path[k] == Apply(plan, path[k - 1], step);
      StepKeepsAccount(plan, disk0, path[k - 1], step);
    }
  }

  /** At its end, however it went, the archived segments are those that are no longer staged. */
  lemma ArchivedAreGone(plan: Plan, disk0: Disk, path: seq<State>, name: Name)
    requires IsPath(plan, disk0, path) && Complete(Last(path))
    ensures name in Last(path).jobs && Last(path).jobs[name].phase == Archived <==>
      Staged(name) in disk0.out && Staged(name) !in Last(path).disk.out
  {
    var st := Last(path);
    PathAccounted(plan, disk0, path, |path| - 1);
    if name in st.jobs {
      assert JobAccounted(disk0, st, name);
    } else {
      assert name !in StagedNames(disk0.out);
    }
  }

  /** A drain leaves the set of repositories alone. */
  lemma SameTargets(plan: Plan, disk0: Disk, path: seq<State>)
    requires IsPath(plan, disk0, path)
    ensures |Last(path).disk.repos| == |disk0.repos|
  {
    PathGoesFurther(plan, disk0, path, 0, |path| - 1);
  }

  /** However a drain went, it is a run in which exactly what failed fails. */
  lemma UnderwayIsRun(plan: Plan, disk0: Disk, path: seq<State>, st: State, blamed: set<(Name, nat)>)
    requires Underway(plan, disk0, path, st, blamed) && disk0.repos != []
    ensures IsRun(plan, FailsOf(blamed), disk0, path)
  {
    var fails := FailsOf(blamed);
    PathGoesFurther(plan, disk0, path, 0, |path| - 1);
    forall k | 0 <= k < |path| - 1 ensures Next(plan, fails, path[k], path[k + 1]) {
      PathGoesFurther(plan, disk0, path, k, |path| - 1);
      PathGoesFurther(plan, disk0, path, k + 1, |path| - 1);
      assert OneStep(plan, path[k], path[k + 1]);
      var step :| Enabled(path[k], step) && path[k + 1] == Apply(plan, path[k], step);
      if step.Copy? {
        assert step.target in path[k + 1].jobs[step.seg].written;
      }
      if step.Fault? {
        assert path[k + 1].jobs[step.seg].failed;
        var b :| b in blamed && b.0 == step.seg;
        assert fails(step.seg, b.1);
      }
      assert Obeys(fails, path[k], step);
    }
  }

  /** The end of a drain, however it went, in closed form. */
  lemma UnderwayOutcome(plan: Plan, disk0: Disk, path: seq<State>, st: State, blamed: set<(Name, nat)>)
    requires Underway(plan, disk0, path, st, blamed) && disk0.repos != [] && Complete(st)
    ensures DrainedDisk(plan, FailsOf(blamed), disk0, st.disk)
  {
    UnderwayIsRun(plan, disk0, path, st, blamed);
    CompleteRunOutcome(plan, FailsOf(blamed), disk0, path);
  }

  // ----- Every drain can be brought to its end

  /** A drain is never stuck: while a segment has no status, some step can be taken. */
  lemma NeverStuck(plan: Plan, fails: Failures, disk0: Disk, run: seq<State>)
    requires IsRun(plan, fails, disk0, run) && !Complete(Last(run))
    ensures exists step :: Enabled(Last(run), step) && Obeys(fails, Last(run), step)
  {
    var st := Last(run);
    RunAccounted(plan, fails, disk0, run, |run| - 1);
    var name :| name in st.jobs && st.jobs[name].phase !in {Archived, Rejected};
    assert JobAccounted(disk0, st, name);
    var job := st.jobs[name];
    if job.phase == Removed {
      assert Enabled(st, RecordOk(name));
    } else if job.failed {
      assert Enabled(st, RecordError(name, []));
    } else if FailsSomewhere(fails, name, |st.disk.repos|) {
      assert Enabled(st, Fault(name));
    } else if Everywhere(job, |st.disk.repos|) {
      assert Enabled(st, RemoveStaged(name));
    } else {
      var i :| 0 <= i < |st.disk.repos| && i !in job.written;
      assert Enabled(st, Copy(name, i));
    }
  }

  datatype Task = Fail(name: Name) | Send(name: Name, target: nat) | Finish(name: Name) | Report(name: Name)

  function Targets(n: nat): (s: set<nat>)
    ensures forall i :: i in s <==> 0 <= i < n
  {
    if n == 0 then {} else Targets(n - 1) + {n - 1}
  }

  /** What may still happen: failing, sending to a target, leaving the copying phase, getting a status. */
  predicate MayHappen(st: State, task: Task) {
    && task.name in st.jobs
    && var job := st.jobs[task.name];
       match task
       case Fail(_) => !job.failed
       case Send(_, i) => i < |st.disk.repos| && i !in job.written
       case Finish(_) => job.phase == Copying
       case Report(_) => job.phase in {Copying, Removed}
  }

  ghost function Pending(st: State): (tasks: set<Task>)
    ensures forall task :: task in tasks <==> MayHappen(st, task)
  {
    (set name | name in st.jobs && MayHappen(st, Fail(name)) :: Fail(name))
    + (set name, i | name in st.jobs && i in Targets(|st.disk.repos|) && MayHappen(st, Send(name, i)) :: Send(name, i))
    + (set name | name in st.jobs && MayHappen(st, Finish(name)) :: Finish(name))
    + (set name | name in st.jobs && MayHappen(st, Report(name)) :: Report(name))
  }

  /** Every step leaves less that may still happen. */
  lemma StepLowers(plan: Plan, st: State, step: Step)
    requires Enabled(st, step)
    ensures Pending(Apply(plan, st, step)) < Pending(st)
  {
    hide Pending;
    var next := Apply(plan, st, step);
    var gone := match step
      case Copy(seg, i) => Send(seg, i)
      case Fault(seg) => Fail(seg)
      case RemoveStaged(seg) => Finish(seg)
      case RecordOk(seg) => Report(seg)
      case RecordError(seg, _) => Report(seg);
    assert MayHappen(st, gone) && !MayHappen(next, gone);
    forall task | MayHappen(next, task) ensures MayHappen(st, task) {
    }
  }

  /** Every run can be continued to one in which each listed segment has its status. */
  lemma {:induction false} RunsToCompletion(plan: Plan, fails: Failures, disk0: Disk, run: seq<State>)
    returns (whole: seq<State>)
    requires IsRun(plan, fails, disk0, run)
    ensures run <= whole && IsRun(plan, fails, disk0, whole) && Complete(Last(whole))
    decreases Pending(Last(run))
  {
    if Complete(Last(run)) {
      return run;
    }
    hide Pending;
    NeverStuck(plan, fails, disk0, run);
    var step :| Enabled(Last(run), step) && Obeys(fails, Last(run), step);
    var next := Apply(plan, Last(run), step);
    StepLowers(plan, Last(run), step);
    RunExtended(plan, fails, disk0, run, next);
    whole := RunsToCompletion(plan, fails, disk0, run + [next]);
  }

  lemma RunExtended(plan: Plan, fails: Failures, disk0: Disk, run: seq<State>, next: State)
    requires IsRun(plan, fails, disk0, run) && Next(plan, fails, Last(run), next)
    ensures IsRun(plan, fails, disk0, run + [next])
  {
    var longer := run + [next];
    forall k | 0 <= k < |longer| - 1 ensures Next(plan, fails, longer[k], longer[k + 1]) {
      if k < |run| - 1 {
        assert Next(plan, fails, run[k], run[k + 1]);
      }
    }
  }
}
