/**
 * The whole `archive-push` protocol of one host as a machine: synchronous and
 * asynchronous pushes, drains of the backlog, the status handshake, failures
 * and crashes. Each step does at most one storage operation.
 *
 * The archive lock lets one command run at a time, so there is one `control`.
 */
module PushMachine {
  import opened Base
  import opened Wal
  import Drain = DrainMachine
  import WalWindow

  /**
   * One push. `wal` is the directory of the source file; the size of its segments
   * is what a synchronous push compares with the queue limit.
   */
  datatype Request = Request(name: Name, async: bool, limit: Option<nat>, wal: map<Name, Bytes>, suffix: Suffix)

  /** A push that reported success, and on what grounds. */
  datatype Ack = Stored(name: Name) | Dropped(req: Request)

  datatype Control =
    | Idle
    | Copying(req: Request, next: nat)
    | Staging(req: Request)
    | Draining(caller: Option<Request>, suffix: Suffix, jobs: Drain.Jobs)
    | Confirming(req: Request)

  /** `acks` and `accepted` (every segment ever staged) only record the past. */
  datatype Host = Host(disk: Disk, control: Control, acks: set<Ack>, accepted: set<Name>)

  datatype Step =
    | Drop(req: Request)
    | TakeOk(req: Request)
    | TakeError(req: Request)
    | BeginAsync(req: Request)
    | BeginSync(req: Request)
    | Stage
    | BeginDrain(suffix: Suffix)
    | DrainStep(step: Drain.Step)
    | EndDrain
    | ConfirmOk
    | ConfirmError
    | ConfirmHeld
    | CopyNext
    | EndCopy
    | Stop

  /** The total size of the staged segments. */
  ghost function OutBacklog(out: Spool): nat {
    TotalSize(out, StagedFiles(out))
  }

  /** The files of a WAL directory that are named like segments. */
  function WalSegments(wal: map<Name, Bytes>): set<Name> {
    set name | name in wal && WalWindow.ParseSegment(name).Some?
  }

  ghost function Backlog(req: Request, out: Spool): nat {
    if req.async then OutBacklog(out) else TotalSize(req.wal, WalSegments(req.wal))
  }

  /** A staged segment counts with its size, a status not at all. */
  lemma BacklogGrows(out: Spool, f: SpoolFile, bytes: Bytes)
    requires f !in out
    ensures OutBacklog(map[]) == 0
    ensures OutBacklog(out[f := bytes]) == OutBacklog(out) + match f case Staged(_) => |bytes| case _ => 0
  {
    var more := out[f := bytes];
    assert StagedFiles(map[]) == {};
    TotalUnchanged(out, more, StagedFiles(out));
    if f.Staged? {
      TotalWithout(more, StagedFiles(more), f);
      assert StagedFiles(more) - {f} == StagedFiles(out);
    } else {
      assert StagedFiles(more) == StagedFiles(out);
    }
  }

  /** The segments of a WAL directory are the names of exactly 24 hex digits. */
  lemma SegmentsAreHexNames(wal: map<Name, Bytes>, name: Name)
    requires name in wal
    ensures name in WalSegments(wal) <==>
      |name| == 24 && forall i :: 0 <= i < 24 ==>
        '0' <= name[i] <= '9' || 'A' <= name[i] <= 'F' || 'a' <= name[i] <= 'f'
  {
    WalWindow.SegmentNamesAreHex(name);
  }

  ghost predicate QueueReached(req: Request, out: Spool) {
    req.limit.Some? && Backlog(req, out) >= req.limit.value
  }

  ghost predicate Enabled(h: Host, step: Step) {
    var out, control := h.disk.out, h.control;
    match step
    case Drop(req) => control.Idle? && QueueReached(req, out)
    case TakeOk(req) => control.Idle? && req.async && OkStatus(req.name) in out
    case TakeError(req) => control.Idle? && req.async && OkStatus(req.name) !in out && ErrorStatus(req.name) in out
    case BeginAsync(req) => control.Idle? && req.async && OkStatus(req.name) !in out && ErrorStatus(req.name) !in out
    case BeginSync(req) => control.Idle? && !req.async
    case Stage => control.Staging?
    case BeginDrain(_) => control.Idle?
    case DrainStep(step) => control.Draining? && Drain.Enabled(Drain.State(h.disk, control.jobs), step)
    case EndDrain => control.Draining? && Drain.Complete(Drain.State(h.disk, control.jobs))
    case ConfirmOk => control.Confirming? && OkStatus(control.req.name) in out
    case ConfirmError =>
      control.Confirming? && OkStatus(control.req.name) !in out && ErrorStatus(control.req.name) in out
    case ConfirmHeld =>
      control.Confirming? && OkStatus(control.req.name) !in out && ErrorStatus(control.req.name) !in out
      && HeldByAll(h.disk.repos, control.req.name)
    case CopyNext => control.Copying? && control.next < |h.disk.repos|
    case EndCopy => control.Copying? && control.next == |h.disk.repos|
    case Stop => true
  }

  /** A WAL name has one content, so reading the source is a function of the name. */
  datatype World = World(codec: Codec, content: Name -> Bytes)

  ghost function Apply(w: World, h: Host, step: Step): Host
    requires Enabled(h, step)
  {
    var disk, control := h.disk, h.control;
    match step
    case Drop(req) => h.(acks := h.acks + {Dropped(req)})
    case TakeOk(req) => h.(disk := disk.(out := disk.out - {OkStatus(req.name)}), acks := h.acks + {Stored(req.name)})
    case TakeError(req) => h.(disk := disk.(out := disk.out - {ErrorStatus(req.name)}))
    case BeginAsync(req) => h.(control := Staging(req))
    case BeginSync(req) => h.(control := Copying(req, 0))
    case Stage =>
      var req := control.req;
      var out := disk.out[Staged(req.name) := w.content(req.name)];
      h.(disk := disk.(out := out), accepted := h.accepted + {req.name},
         control := Draining(Some(req), req.suffix, Drain.StartJobs(out)))
    case BeginDrain(suffix) => h.(control := Draining(None, suffix, Drain.StartJobs(disk.out)))
    case DrainStep(step) =>
      var st := Drain.Apply(Drain.Plan(control.suffix, w.codec), Drain.State(disk, control.jobs), step);
      h.(disk := st.disk, control := control.(jobs := st.jobs))
    case EndDrain => h.(control := match control.caller case Some(req) => Confirming(req) case None => Idle)
    case ConfirmOk =>
      h.(disk := disk.(out := disk.out - {OkStatus(control.req.name)}),
         acks := h.acks + {Stored(control.req.name)}, control := Idle)
    case ConfirmError => h.(disk := disk.(out := disk.out - {ErrorStatus(control.req.name)}), control := Idle)
    case ConfirmHeld => h.(acks := h.acks + {Stored(control.req.name)}, control := Idle)
    case CopyNext =>
      var i, req := control.next, control.req;
      var stored := w.codec.forward(req.suffix, i, w.content(req.name));
      h.(disk := disk.(repos := disk.repos[i := disk.repos[i][RepoFile(req.name, req.suffix) := stored]]),
         control := Copying(req, i + 1))
    case EndCopy => h.(acks := h.acks + {Stored(control.req.name)}, control := Idle)
    // an error return at any point, or a crash and restart: the disk stays as it is
    case Stop => h.(control := Idle)
  }

  // ----- Safety

  /** No segment that was ever staged is lost, and nothing claims more than is true. */
  ghost predicate Safe(h: Host) {
    && (forall name :: name in h.accepted ==> Staged(name) in h.disk.out || HeldByAll(h.disk.repos, name))
    && (forall name :: OkStatus(name) in h.disk.out ==> HeldByAll(h.disk.repos, name))
    && (forall name :: Stored(name) in h.acks ==> HeldByAll(h.disk.repos, name))
  }

  ghost predicate JobsTrue(disk: Disk, jobs: Drain.Jobs) {
    forall name :: name in jobs ==> JobTrue(disk, jobs, name)
  }

  ghost predicate JobTrue(disk: Disk, jobs: Drain.Jobs, name: Name)
    requires name in jobs
  {
    && (forall i :: i in jobs[name].written && i < |disk.repos| ==> Holds(disk.repos[i], name))
    && (jobs[name].phase in {Drain.Removed, Drain.Archived} ==> HeldByAll(disk.repos, name))
  }

  ghost predicate ControlTrue(h: Host) {
    match h.control
    case Copying(req, next) => next <= |h.disk.repos| && forall i :: 0 <= i < next ==> Holds(h.disk.repos[i], req.name)
    case Draining(_, _, jobs) => JobsTrue(h.disk, jobs)
    case _ => true
  }

  ghost predicate Faithful(w: World, disk: Disk) {
    StagedFaithful(w.content, disk.out) && ReposFaithful(w.codec, w.content, disk.repos)
  }

  ghost predicate Inv(w: World, h: Host) {
    Safe(h) && ControlTrue(h) && Faithful(w, h.disk)
  }

  lemma ReposNeverShrink(w: World, h: Host, step: Step)
    requires Enabled(h, step)
    ensures Grown(h.disk.repos, Apply(w, h, step).disk.repos)
  {
  }

  lemma StepKeepsFaithful(w: World, h: Host, step: Step)
    requires Lossless(w.codec) && Faithful(w, h.disk) && Enabled(h, step)
    ensures Faithful(w, Apply(w, h, step).disk)
  {
  }

  lemma DrainStepKeepsSafe(w: World, h: Host, step: Drain.Step)
    requires Safe(h) && ControlTrue(h) && Enabled(h, DrainStep(step))
    ensures Safe(Apply(w, h, DrainStep(step))) && ControlTrue(Apply(w, h, DrainStep(step)))
  {
    var h' := Apply(w, h, DrainStep(step));
    var jobs, jobs' := h.control.jobs, h'.control.jobs;
    var repos, repos' := h.disk.repos, h'.disk.repos;
    ReposNeverShrink(w, h, DrainStep(step));
    assert JobTrue(h.disk, jobs, step.seg);
    forall name | HeldByAll(repos, name) ensures HeldByAll(repos', name) {
      HeldStaysHeld(repos, repos', name);
    }
    forall i, name | 0 <= i < |repos| && Holds(repos[i], name) ensures Holds(repos'[i], name) {
      assert repos[i].Keys <= repos'[i].Keys;
    }
    if step.Copy? {
      assert RepoFile(step.seg, h.control.suffix) in repos'[step.target];
    }
    forall name | name in jobs' ensures JobTrue(h'.disk, jobs', name) {
      assert JobTrue(h.disk, jobs, name);
    }
  }

  lemma StepKeepsSafe(w: World, h: Host, step: Step)
    requires Safe(h) && ControlTrue(h) && Enabled(h, step)
    ensures Safe(Apply(w, h, step)) && ControlTrue(Apply(w, h, step))
  {
    if step.DrainStep? {
      DrainStepKeepsSafe(w, h, step.step);
    } else if step.CopyNext? {
      var h' := Apply(w, h, step);
      var repos, repos' := h.disk.repos, h'.disk.repos;
      ReposNeverShrink(w, h, step);
      forall name | HeldByAll(repos, name) ensures HeldByAll(repos', name) {
        HeldStaysHeld(repos, repos', name);
      }
      forall i | 0 <= i < h'.control.next ensures Holds(repos'[i], h.control.req.name) {
        if i < h.control.next {
          assert Holds(repos[i], h.control.req.name);
          assert repos[i].Keys <= repos'[i].Keys;
        } else {
          assert RepoFile(h.control.req.name, h.control.req.suffix) in repos'[i];
        }
      }
    }
  }

  // ----- Runs

  ghost predicate Next(w: World, a: Host, b: Host) {
    exists step {:trigger Taken(step)} :: Taken(step) && Enabled(a, step) && b == Apply(w, a, step)
  }

  /** Names a step taken, as `Place` names a place. */
  predicate Taken(step: Step) {
    true
  }

  /** Names a place in a run; quantifiers over a run are instantiated only at named places. */
  predicate Place(k: nat) {
    true
  }

  /** Consecutive hosts are one step apart. */
  ghost predicate IsChain(w: World, run: seq<Host>) {
    forall k: nat {:trigger Place(k)} :: k + 1 < |run| ==> Place(k) && Next(w, run[k], run[k + 1])
  }

  lemma ChainStep(w: World, run: seq<Host>, k: nat)
    requires IsChain(w, run) && k + 1 < |run|
    ensures Next(w, run[k], run[k + 1])
  {
    assert Place(k);
  }

  lemma ChainExtended(w: World, run: seq<Host>, next: Host)
    requires run != [] && IsChain(w, run) && Next(w, Last(run), next)
    ensures IsChain(w, run + [next])
  {
    var run' := run + [next];
    forall k: nat | k + 1 < |run'| ensures Next(w, run'[k], run'[k + 1]) {
      if k + 1 < |run| {
        ChainStep(w, run, k);
      }
    }
  }

  /** Any history: from an empty spool, any steps in any order. */
  ghost predicate IsHistory(w: World, run: seq<Host>) {
    && run != []
    && run[0].disk.out == map[] && run[0].control == Idle && run[0].acks == {} && run[0].accepted == {}
    && ReposFaithful(w.codec, w.content, run[0].disk.repos)
    && IsChain(w, run)
  }

  lemma NextKeepsInv(w: World, a: Host, b: Host)
    requires Lossless(w.codec) && Inv(w, a) && Next(w, a, b)
    ensures Inv(w, b) && Grown(a.disk.repos, b.disk.repos)
  {
    var step :| Taken(step) && Enabled(a, step) && b == Apply(w, a, step);
    StepKeepsSafe(w, a, step);
    StepKeepsFaithful(w, a, step);
    ReposNeverShrink(w, a, step);
  }

  /**
   * At every point of every history: each segment ever staged is still in
   * `out/` or in every repository; a `.ok` means every repository has the
   * segment; so does a push reported as stored; and every copy decodes.
   */
  lemma {:induction false} HistorySafe(w: World, run: seq<Host>, k: nat)
    requires Lossless(w.codec) && IsHistory(w, run) && k < |run|
    ensures Inv(w, run[k])
  {
    if k > 0 {
      HistorySafe(w, run, k - 1);
      ChainStep(w, run, k - 1);
      NextKeepsInv(w, run[k - 1], run[k]);
    }
  }

  /**
   * A push that reports success at some step either leaves the segment in
   * every repository, then and ever after, or was dropped because the backlog
   * had reached the queue limit.
   */
  lemma SuccessMeansStored(w: World, run: seq<Host>, j: nat, k: nat, ack: Ack)
    requires Lossless(w.codec) && IsHistory(w, run) && j < k < |run|
    requires ack in run[j + 1].acks && ack !in run[j].acks
    ensures match ack
      case Stored(name) => HeldByAll(run[k].disk.repos, name)
      case Dropped(req) => req.limit.Some? && Backlog(req, run[j].disk.out) >= req.limit.value
  {
    ChainStep(w, run, j);
    if ack.Stored? {
      AcksLast(w, run, j + 1, k);
      HistorySafe(w, run, k);
    } else {
      var step :| Taken(step) && Enabled(run[j], step) && run[j + 1] == Apply(w, run[j], step);
      assert step.Drop?;
    }
  }

  lemma {:induction false} AcksLast(w: World, run: seq<Host>, j: nat, k: nat)
    requires IsHistory(w, run) && j <= k < |run|
    ensures run[j].acks <= run[k].acks
  {
    if j < k {
      AcksLast(w, run, j, k - 1);
      ChainStep(w, run, k - 1);
    }
  }

  // ----- The status handshake

  /**
   * While a push waits for its own drain, the statuses of its segment tell
   * exactly what this drain did with it.
   */
  ghost predicate Handshake(h: Host) {
    var out := h.disk.out;
    match h.control
    case Staging(req) => OkStatus(req.name) !in out && ErrorStatus(req.name) !in out
    case Draining(Some(req), _, jobs) =>
      && req.name in jobs
      && (OkStatus(req.name) in out <==> jobs[req.name].phase == Drain.Archived)
      && (ErrorStatus(req.name) in out <==> jobs[req.name].phase == Drain.Rejected)
      && (jobs[req.name].phase in {Drain.Copying, Drain.Rejected} ==> Staged(req.name) in out)
    case Confirming(req) =>
      && (OkStatus(req.name) in out <==> ErrorStatus(req.name) !in out)
      && (ErrorStatus(req.name) in out ==> Staged(req.name) in out)
    case _ => true
  }

  lemma StepKeepsHandshake(w: World, h: Host, step: Step)
    requires Handshake(h) && Enabled(h, step)
    ensures Handshake(Apply(w, h, step))
  {
    if step.Stage? {
      assert h.control.req.name in StagedNames(Apply(w, h, step).disk.out);
    }
  }

  lemma {:induction false} HistoryHandshake(w: World, run: seq<Host>, k: nat)
    requires IsHistory(w, run) && k < |run|
    ensures Handshake(run[k])
  {
    if k > 0 {
      HistoryHandshake(w, run, k - 1);
      ChainStep(w, run, k - 1);
      var step :| Taken(step) && Enabled(run[k - 1], step) && run[k] == Apply(w, run[k - 1], step);
      StepKeepsHandshake(w, run[k - 1], step);
    }
  }

  /**
   * In a history of one host the last resort of an asynchronous push, looking
   * for the segment in every repository, is never reached: the drain has left
   * exactly one status, and `.error` means the staged copy awaits a retry.
   */
  lemma DrainAlwaysAnswers(w: World, run: seq<Host>, k: nat)
    requires Lossless(w.codec) && IsHistory(w, run) && k < |run| && run[k].control.Confirming?
    ensures !Enabled(run[k], ConfirmHeld)
    ensures var name := run[k].control.req.name;
      || (Enabled(run[k], ConfirmOk) && HeldByAll(run[k].disk.repos, name))
      || (Enabled(run[k], ConfirmError) && Staged(name) in run[k].disk.out)
  {
    HistoryHandshake(w, run, k);
    HistorySafe(w, run, k);
  }
}
