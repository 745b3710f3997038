/**
 * The byte cap that the workers of the parallel pre-fetch keep together through
 * one shared atomic counter. Each worker adds its segment's size to the
 * counter, then looks at what the counter was, then either takes its addition
 * back or writes the segment; any other worker may run between two of these.
 *
 * `backlog` is what the counter starts with: the size of what the spool holds, or
 * nothing when the spool could not be listed.
 */
module QueueCap {
  import opened Base
  import opened Wal

  const U64: nat := 0x1_0000_0000_0000_0000

  /** A pre-fetched segment: its file in the `in/` spool and its plaintext. */
  datatype Fetched = Fetched(name: Name, bytes: Bytes)

  datatype Worker =
    | Waiting
    | Bumped(prev: nat)
    | Admitted
    | Skipped   // turned away
    | Missed    // there is nothing to stage
    | Published
    | WriteFailed

  datatype State = State(counter: nat, inn: map<Name, Bytes>, workers: seq<Worker>)

  datatype Step =
    | SkipAbsent(j: nat)
    | Bump(j: nat)
    | Admit(j: nat)
    | RollBack(j: nat)
    | Write(j: nat)
    | FailWrite(j: nat)

  /** `prev.saturating_add(size) > limit` */
  predicate Overshoots(prev: nat, size: nat, limit: nat) {
    (if prev + size >= U64 then U64 - 1 else prev + size) > limit
  }

  predicate Enabled(jobs: seq<Fetched>, limit: nat, st: State, step: Step) {
    && step.j < |jobs| == |st.workers|
    && var worker, size := st.workers[step.j], |jobs[step.j].bytes|;
       match step
       case SkipAbsent(_) => worker.Waiting?
       case Bump(_) => worker.Waiting?
       case Admit(_) => worker.Bumped? && !Overshoots(worker.prev, size, limit)
       case RollBack(_) => worker.Bumped? && Overshoots(worker.prev, size, limit)
       case Write(_) => worker.Admitted?
       case FailWrite(_) => worker.Admitted?
  }

  /** The counter is a `u64` and wraps. */
  function Apply(jobs: seq<Fetched>, limit: nat, st: State, step: Step): State
    requires Enabled(jobs, limit, st, step)
  {
    var j := step.j;
    var size := |jobs[j].bytes|;
    match step
    case SkipAbsent(_) => st.(workers := st.workers[j := Missed])
    case Bump(_) => st.(counter := (st.counter + size) % U64, workers := st.workers[j := Bumped(st.counter)])
    case Admit(_) => st.(workers := st.workers[j := Admitted])
    case RollBack(_) => st.(counter := (st.counter - size) % U64, workers := st.workers[j := Skipped])
    case Write(_) => st.(inn := st.inn[jobs[j].name := jobs[j].bytes], workers := st.workers[j := Published])
    case FailWrite(_) => st.(workers := st.workers[j := WriteFailed])
  }

  // ----- Sums over the workers

  /** Which workers a sum counts. */
  datatype Kind =
    | All
    | Counted                // its addition is in the counter
    | Passing(limit: nat)    // it has been, or will be, let through
    | Done                   // its segment is in the spool
    | Lost                   // let through, but the write failed

  predicate Counts(kind: Kind, worker: Worker, size: nat) {
    match kind
    case All => true
    case Counted => !worker.Waiting? && !worker.Skipped? && !worker.Missed?
    case Passing(limit) => worker.Admitted? || worker.Published? || worker.WriteFailed?
      || (worker.Bumped? && !Overshoots(worker.prev, size, limit))
    case Done => worker.Published?
    case Lost => worker.WriteFailed?
  }

  function Share(kind: Kind, worker: Worker, size: nat): nat {
    if Counts(kind, worker, size) then size else 0
  }

  /** The total size of the segments of the workers of a kind. */
  function Sum(kind: Kind, jobs: seq<Fetched>, workers: seq<Worker>): nat
    requires |jobs| == |workers|
  {
    if jobs == [] then 0
    else Share(kind, workers[0], |jobs[0].bytes|) + Sum(kind, jobs[1..], workers[1..])
  }

  lemma {:induction false} SumAfter(kind: Kind, jobs: seq<Fetched>, workers: seq<Worker>, j: nat, worker: Worker)
    requires j < |jobs| == |workers|
    ensures Sum(kind, jobs, workers[j := worker]) ==
      Sum(kind, jobs, workers) - Share(kind, workers[j], |jobs[j].bytes|) + Share(kind, worker, |jobs[j].bytes|)
  {
    if j == 0 {
      assert workers[0 := worker][1..] == workers[1..];
    } else {
      assert workers[j := worker][1..] == workers[1..][j - 1 := worker];
      SumAfter(kind, jobs[1..], workers[1..], j - 1, worker);
    }
  }

  lemma {:induction false} SumWithin(small: Kind, large: Kind, jobs: seq<Fetched>, workers: seq<Worker>)
    requires |jobs| == |workers|
    requires forall worker, size :: Counts(small, worker, size) ==> Counts(large, worker, size)
    ensures Sum(small, jobs, workers) <= Sum(large, jobs, workers)
  {
    if jobs != [] {
      SumWithin(small, large, jobs[1..], workers[1..]);
    }
  }

  lemma {:induction false} SumZero(kind: Kind, jobs: seq<Fetched>, workers: seq<Worker>)
    requires |jobs| == |workers|
    requires forall j :: 0 <= j < |jobs| ==> !Counts(kind, workers[j], |jobs[j].bytes|)
    ensures Sum(kind, jobs, workers) == 0
  {
    if jobs != [] {
      forall j | 0 <= j < |jobs[1..]| ensures !Counts(kind, workers[1..][j], |jobs[1..][j].bytes|) {
        assert !Counts(kind, workers[j + 1], |jobs[j + 1].bytes|);
      }
      SumZero(kind, jobs[1..], workers[1..]);
    }
  }

  // ----- The cap

  function AllWaiting(n: nat): seq<Worker> {
    seq(n, _ => Waiting)
  }

  /** The byte total of everything there is to count fits the counter. */
  predicate Fits(jobs: seq<Fetched>, workers: seq<Worker>, backlog: nat)
    requires |jobs| == |workers|
  {
    backlog + Sum(All, jobs, workers) < 18_446_744_073_709_551_616
  }

  /** The counter is the backlog and every addition not rolled back. */
  ghost predicate CounterTrue(jobs: seq<Fetched>, backlog: nat, st: State) {
    && |jobs| == |st.workers| && Fits(jobs, st.workers, backlog)
    && st.counter == backlog + Sum(Counted, jobs, st.workers)
  }

  /** What is let through stays within the limit with the backlog. */
  ghost predicate PassingFits(jobs: seq<Fetched>, limit: nat, backlog: nat, st: State)
    requires |jobs| == |st.workers|
  {
    Sum(Passing(limit), jobs, st.workers) > 0 ==> backlog + Sum(Passing(limit), jobs, st.workers) <= limit
  }

  /** `held` is what the spool held at the start. */
  ghost predicate Inv(jobs: seq<Fetched>, limit: nat, backlog: nat, held: nat, st: State) {
    && CounterTrue(jobs, backlog, st)
    && PassingFits(jobs, limit, backlog, st)
    && TurnedForRoom(jobs, limit, backlog, st)
    && TotalSize(st.inn, st.inn.Keys) <= held + Sum(Done, jobs, st.workers)
  }

  // ----- What a segment that is turned away means

  /** It has been, or will be, turned away. */
  predicate TurnedAway(worker: Worker, size: nat, limit: nat) {
    worker.Skipped? || (worker.Bumped? && Overshoots(worker.prev, size, limit))
  }

  predicate Turned(jobs: seq<Fetched>, limit: nat, st: State, j: nat)
    requires |jobs| == |st.workers|
  {
    j < |jobs| && TurnedAway(st.workers[j], |jobs[j].bytes|, limit)
  }

  /** Segment `j` is within the limit beside what is let through. */
  predicate HasRoom(jobs: seq<Fetched>, limit: nat, backlog: nat, st: State, j: nat)
    requires j < |jobs| == |st.workers|
  {
    backlog + Sum(Passing(limit), jobs, st.workers) + |jobs[j].bytes| <= limit
  }

  /** If somebody is turned away then somebody is for whom there really is no room. */
  ghost predicate TurnedForRoom(jobs: seq<Fetched>, limit: nat, backlog: nat, st: State)
    requires |jobs| == |st.workers|
  {
    (exists j :: Turned(jobs, limit, st, j)) ==>
      exists i :: Turned(jobs, limit, st, i) && !HasRoom(jobs, limit, backlog, st, i)
  }

  lemma {:induction false} SumSame(kind: Kind, kind': Kind, jobs: seq<Fetched>, workers: seq<Worker>)
    requires |jobs| == |workers|
    requires forall j :: 0 <= j < |jobs| ==>
      (Counts(kind, workers[j], |jobs[j].bytes|) <==> Counts(kind', workers[j], |jobs[j].bytes|))
    ensures Sum(kind, jobs, workers) == Sum(kind', jobs, workers)
  {
    if jobs != [] {
      forall j | 0 <= j < |jobs[1..]|
        ensures Counts(kind, workers[1..][j], |jobs[1..][j].bytes|) <==>
          Counts(kind', workers[1..][j], |jobs[1..][j].bytes|)
      {
        assert workers[1..][j] == workers[j + 1] && jobs[1..][j] == jobs[j + 1];
      }
      SumSame(kind, kind', jobs[1..], workers[1..]);
    }
  }

  /** As long as nobody is turned away the counter is the backlog and what is let through. */
  lemma NobodyTurned(jobs: seq<Fetched>, limit: nat, backlog: nat, st: State)
    requires CounterTrue(jobs, backlog, st) && forall j :: !Turned(jobs, limit, st, j)
    ensures st.counter == backlog + Sum(Passing(limit), jobs, st.workers)
  {
    forall j | 0 <= j < |jobs|
      ensures Counts(Counted, st.workers[j], |jobs[j].bytes|) <==>
        Counts(Passing(limit), st.workers[j], |jobs[j].bytes|)
    {
      assert !Turned(jobs, limit, st, j);
    }
    SumSame(Counted, Passing(limit), jobs, st.workers);
  }

  /** The first to be turned away found just the backlog and what is let through; later ones change nothing about it. */
  lemma StepKeepsTurned(jobs: seq<Fetched>, limit: nat, backlog: nat, st: State, step: Step)
    requires CounterTrue(jobs, backlog, st) && TurnedForRoom(jobs, limit, backlog, st)
    requires Enabled(jobs, limit, st, step)
    ensures TurnedForRoom(jobs, limit, backlog, Apply(jobs, limit, st, step))
  {
    var st', j := Apply(jobs, limit, st, step), step.j;
    SumAfter(Passing(limit), jobs, st.workers, j, st'.workers[j]);
    if i :| Turned(jobs, limit, st, i) && !HasRoom(jobs, limit, backlog, st, i) {
      assert Turned(jobs, limit, st', i) && !HasRoom(jobs, limit, backlog, st', i);
    } else if step.Bump? {
      NobodyTurned(jobs, limit, backlog, st);
      StepKeepsCounter(jobs, limit, backlog, st, step);
      SumAfter(Counted, jobs, st.workers, j, st'.workers[j]);
      SumWithin(Counted, All, jobs, st'.workers);
      OnlyOneMoved(jobs, limit, st, st', j);
      if Turned(jobs, limit, st', j) {
        assert !HasRoom(jobs, limit, backlog, st', j);
      }
    } else {
      OnlyOneMoved(jobs, limit, st, st', j);
      assert !Turned(jobs, limit, st, j);
    }
  }

  lemma OnlyOneMoved(jobs: seq<Fetched>, limit: nat, st: State, st': State, j: nat)
    requires j < |jobs| == |st.workers| == |st'.workers| && st'.workers == st.workers[j := st'.workers[j]]
    ensures forall i :: i != j ==> (Turned(jobs, limit, st, i) <==> Turned(jobs, limit, st', i))
  {
  }

  lemma StepKeepsCounter(jobs: seq<Fetched>, limit: nat, backlog: nat, st: State, step: Step)
    requires CounterTrue(jobs, backlog, st) && Enabled(jobs, limit, st, step)
    ensures CounterTrue(jobs, backlog, Apply(jobs, limit, st, step))
  {
    var st' := Apply(jobs, limit, st, step);
    var j := step.j;
    SumAfter(All, jobs, st.workers, j, st'.workers[j]);
    SumAfter(Counted, jobs, st.workers, j, st'.workers[j]);
    SumWithin(Counted, All, jobs, st'.workers);
  }

  /** A worker's addition found the counter at no less than the backlog and what others let through. */
  lemma StepKeepsPassing(jobs: seq<Fetched>, limit: nat, backlog: nat, st: State, step: Step)
    requires CounterTrue(jobs, backlog, st) && PassingFits(jobs, limit, backlog, st) && Enabled(jobs, limit, st, step)
    ensures PassingFits(jobs, limit, backlog, Apply(jobs, limit, st, step))
  {
    var st' := Apply(jobs, limit, st, step);
    SumAfter(Passing(limit), jobs, st.workers, step.j, st'.workers[step.j]);
    SumWithin(Passing(limit), Counted, jobs, st.workers);
    if step.Bump? {
      SumAfter(All, jobs, st.workers, step.j, st'.workers[step.j]);
      SumAfter(Counted, jobs, st.workers, step.j, st'.workers[step.j]);
      SumWithin(Counted, All, jobs, st'.workers);
    }
  }

  lemma StepKeepsInv(jobs: seq<Fetched>, limit: nat, backlog: nat, held: nat, st: State, step: Step)
    requires Inv(jobs, limit, backlog, held, st) && Enabled(jobs, limit, st, step)
    ensures Inv(jobs, limit, backlog, held, Apply(jobs, limit, st, step))
  {
    var st' := Apply(jobs, limit, st, step);
    var j := step.j;
    StepKeepsCounter(jobs, limit, backlog, st, step);
    StepKeepsPassing(jobs, limit, backlog, st, step);
    StepKeepsTurned(jobs, limit, backlog, st, step);
    SumAfter(Done, jobs, st.workers, j, st'.workers[j]);
    if step.Write? {
      TotalAfterWrite(st.inn, jobs[j].name, jobs[j].bytes);
    }
  }

  ghost predicate Next(jobs: seq<Fetched>, limit: nat, a: State, b: State) {
    exists step :: Enabled(jobs, limit, a, step) && b == Apply(jobs, limit, a, step)
  }

  /** What the counter may start with: the size of the spool, or nothing when it could not be listed. */
  ghost predicate Seeds(backlog: nat, inn: map<Name, Bytes>) {
    backlog == TotalSize(inn, inn.Keys) || backlog == 0
  }

  /** Any interleaving of the workers, from a counter at `backlog`. */
  ghost predicate IsRun(jobs: seq<Fetched>, limit: nat, backlog: nat, run: seq<State>) {
    && run != []
    && run[0].counter == backlog && Seeds(backlog, run[0].inn)
    && run[0].workers == AllWaiting(|jobs|)
    && Fits(jobs, run[0].workers, backlog)
    && forall k :: 0 <= k < |run| - 1 ==> Next(jobs, limit, run[k], run[k + 1])
  }

  lemma StartInv(jobs: seq<Fetched>, limit: nat, st: State)
    requires st.workers == AllWaiting(|jobs|) && Fits(jobs, st.workers, st.counter)
    ensures Inv(jobs, limit, st.counter, TotalSize(st.inn, st.inn.Keys), st)
  {
    SumZero(Counted, jobs, st.workers);
    SumZero(Passing(limit), jobs, st.workers);
    SumZero(Done, jobs, st.workers);
  }

  lemma {:induction false} RunInv(jobs: seq<Fetched>, limit: nat, backlog: nat, run: seq<State>, k: nat)
    requires IsRun(jobs, limit, backlog, run) && k < |run|
    ensures Inv(jobs, limit, backlog, TotalSize(run[0].inn, run[0].inn.Keys), run[k])
  {
    if k == 0 {
      StartInv(jobs, limit, run[0]);
    } else {
      RunInv(jobs, limit, backlog, run, k - 1);
      assert Next(jobs, limit, run[k - 1], run[k - 1 + 1]);
      var step :| Enabled(jobs, limit, run[k - 1], step) && run[k] == Apply(jobs, limit, run[k - 1], step);
      StepKeepsInv(jobs, limit, backlog, TotalSize(run[0].inn, run[0].inn.Keys), run[k - 1], step);
    }
  }

  lemma PublishedWithinCap(jobs: seq<Fetched>, limit: nat, backlog: nat, held: nat, st: State)
    requires Inv(jobs, limit, backlog, held, st)
    ensures var published := Sum(Done, jobs, st.workers);
      && backlog + published <= (if limit < backlog then backlog else limit)
      && TotalSize(st.inn, st.inn.Keys) <= held + published
  {
    SumWithin(Done, Passing(limit), jobs, st.workers);
  }

  /**
   * At every point of every interleaving the bytes the counter began with and
   * those published since stay within the limit, or within what it began with
   * where that was over it already; and the spool holds no more than at the start
   * and what was published. So where the spool could be listed it stays within the
   * limit, and where it could not it is over it by at most what it held.
   */
  lemma CapIsKept(jobs: seq<Fetched>, limit: nat, backlog: nat, run: seq<State>, k: nat)
    requires IsRun(jobs, limit, backlog, run) && k < |run|
    ensures |jobs| == |run[k].workers|
    ensures var published, held := Sum(Done, jobs, run[k].workers), TotalSize(run[0].inn, run[0].inn.Keys);
      && backlog + published <= (if limit < backlog then backlog else limit)
      && TotalSize(run[k].inn, run[k].inn.Keys) <= held + published
      && TotalSize(run[k].inn, run[k].inn.Keys) <=
        if backlog < held then held + limit else if limit < held then held else limit
  {
    RunInv(jobs, limit, backlog, run, k);
    PublishedWithinCap(jobs, limit, backlog, TotalSize(run[0].inn, run[0].inn.Keys), run[k]);
  }

  predicate Ended(worker: Worker) {
    worker.Skipped? || worker.Missed? || worker.Published? || worker.WriteFailed?
  }

  /** When every worker has ended, the counter is off by exactly the segments whose write failed. */
  lemma CounterAtEnd(jobs: seq<Fetched>, limit: nat, backlog: nat, run: seq<State>)
    requires IsRun(jobs, limit, backlog, run)
    requires forall j :: 0 <= j < |jobs| && j < |Last(run).workers| ==> Ended(Last(run).workers[j])
    ensures var workers := Last(run).workers;
      |workers| == |jobs| && Last(run).counter == backlog + Sum(Done, jobs, workers) + Sum(Lost, jobs, workers)
  {
    RunInv(jobs, limit, backlog, run, |run| - 1);
    SplitCounted(jobs, Last(run).workers);
  }

  lemma {:induction false} SplitCounted(jobs: seq<Fetched>, workers: seq<Worker>)
    requires |jobs| == |workers| && forall j :: 0 <= j < |jobs| ==> Ended(workers[j])
    ensures Sum(Counted, jobs, workers) == Sum(Done, jobs, workers) + Sum(Lost, jobs, workers)
  {
    if jobs != [] {
      SplitCounted(jobs[1..], workers[1..]);
    }
  }

  /**
   * The cap counts additions in flight too, so it can turn away a segment that
   * would have fitted, because of an addition that is then taken back: here the
   * spool stays empty although the first segment alone is within the limit.
   */
  lemma FittingSegmentTurnedAway() returns (jobs: seq<Fetched>, run: seq<State>)
    ensures |jobs| == 2 && IsRun(jobs, 1, 0, run) && |jobs[0].bytes| == 1
    ensures Last(run).workers == [Skipped, Skipped] && Last(run).inn == map[]
  {
    jobs := [Fetched("a", [0]), Fetched("b", [0, 0])];
    var s0 := State(0, map[], [Waiting, Waiting]);
    var s1 := Apply(jobs, 1, s0, Bump(1));
    var s2 := Apply(jobs, 1, s1, Bump(0));
    var s3 := Apply(jobs, 1, s2, RollBack(0));
    var s4 := Apply(jobs, 1, s3, RollBack(1));
    run := [s0, s1, s2, s3, s4];
    assert Next(jobs, 1, s0, s1) && Next(jobs, 1, s1, s2) && Next(jobs, 1, s2, s3) && Next(jobs, 1, s3, s4);
    assert Sum(All, jobs, s0.workers) == 3 by {
      assert jobs[1..] == [Fetched("b", [0, 0])] && s0.workers[1..] == [Waiting];
      assert jobs[1..][1..] == [] && s0.workers[1..][1..] == [];
    }
    assert TotalSize(s0.inn, s0.inn.Keys) == 0;
  }

  // ----- When nobody is turned away

  /** A worker between its addition and its check found no more than all the others' bytes. */
  ghost predicate BumpedFit(jobs: seq<Fetched>, backlog: nat, st: State)
    requires |jobs| == |st.workers|
  {
    forall j :: 0 <= j < |jobs| && st.workers[j].Bumped? ==>
      st.workers[j].prev + |jobs[j].bytes| <= backlog + Sum(All, jobs, st.workers)
  }

  lemma {:induction false} SumOfAll(jobs: seq<Fetched>, workers: seq<Worker>, others: seq<Worker>)
    requires |jobs| == |workers| == |others|
    ensures Sum(All, jobs, workers) == Sum(All, jobs, others)
  {
    if jobs != [] {
      SumOfAll(jobs[1..], workers[1..], others[1..]);
    }
  }

  lemma StepKeepsBumped(jobs: seq<Fetched>, limit: nat, backlog: nat, st: State, step: Step)
    requires CounterTrue(jobs, backlog, st) && BumpedFit(jobs, backlog, st) && Enabled(jobs, limit, st, step)
    ensures BumpedFit(jobs, backlog, Apply(jobs, limit, st, step))
  {
    var st' := Apply(jobs, limit, st, step);
    SumOfAll(jobs, st.workers, st'.workers);
    SumAfter(Counted, jobs, st.workers, step.j, st'.workers[step.j]);
    SumWithin(Counted, All, jobs, st'.workers);
  }

  /** Where all there is to fetch fits, no check fails. */
  lemma AllFitNoRollBack(jobs: seq<Fetched>, limit: nat, backlog: nat, st: State, j: nat)
    requires CounterTrue(jobs, backlog, st) && BumpedFit(jobs, backlog, st)
    requires backlog + Sum(All, jobs, st.workers) <= limit
    ensures !Enabled(jobs, limit, st, RollBack(j))
  {
  }

  lemma {:induction false} RunBumped(jobs: seq<Fetched>, limit: nat, backlog: nat, run: seq<State>, k: nat)
    requires IsRun(jobs, limit, backlog, run) && k < |run|
    ensures CounterTrue(jobs, backlog, run[k]) && BumpedFit(jobs, backlog, run[k])
  {
    RunInv(jobs, limit, backlog, run, k);
    if k > 0 {
      RunBumped(jobs, limit, backlog, run, k - 1);
      assert Next(jobs, limit, run[k - 1], run[k - 1 + 1]);
      var step :| Enabled(jobs, limit, run[k - 1], step) && run[k] == Apply(jobs, limit, run[k - 1], step);
      StepKeepsBumped(jobs, limit, backlog, run[k - 1], step);
    }
  }

  /** In no interleaving does a worker take its addition back. */
  ghost predicate NeverTurnsAway(jobs: seq<Fetched>, limit: nat, backlog: nat) {
    forall run, k, j :: IsRun(jobs, limit, backlog, run) && 0 <= k < |run| && 0 <= j < |jobs| ==>
      !Enabled(jobs, limit, run[k], RollBack(j))
  }

  /** A spool of a given size. */
  function SpoolOf(size: nat): map<Name, Bytes> {
    map["" := seq(size, _ => 0)]
  }

  lemma SpoolSize(size: nat)
    ensures TotalSize(SpoolOf(size), SpoolOf(size).Keys) == size
  {
    TotalWithout(SpoolOf(size), {""}, "");
    assert SpoolOf(size).Keys == {""} && {""} - {""} == {};
  }

  /** The run in which the first `n` workers add one after the other, before any check. */
  lemma {:induction false} AllAdd(jobs: seq<Fetched>, limit: nat, backlog: nat, n: nat) returns (run: seq<State>)
    requires n <= |jobs| && Fits(jobs, AllWaiting(|jobs|), backlog)
    ensures IsRun(jobs, limit, backlog, run) && |Last(run).workers| == |jobs|
    ensures forall j :: 0 <= j < n ==> Last(run).workers[j].Bumped?
    ensures forall j :: n <= j < |jobs| ==> Last(run).workers[j].Waiting?
    ensures n > 0 ==> Last(run).counter == Last(run).workers[n - 1].prev + |jobs[n - 1].bytes|
  {
    if n == 0 {
      SpoolSize(backlog);
      return [State(backlog, SpoolOf(backlog), AllWaiting(|jobs|))];
    }
    var before := AllAdd(jobs, limit, backlog, n - 1);
    var st := Last(before);
    RunInv(jobs, limit, backlog, before, |before| - 1);
    var next := Apply(jobs, limit, st, Bump(n - 1));
    StepKeepsCounter(jobs, limit, backlog, st, Bump(n - 1));
    SumAfter(Counted, jobs, st.workers, n - 1, next.workers[n - 1]);
    assert next.counter == st.counter + |jobs[n - 1].bytes|;
    run := before + [next];
    assert Next(jobs, limit, st, next);
    forall k | 0 <= k < |run| - 1 ensures Next(jobs, limit, run[k], run[k + 1]) {
      if k < |before| - 1 {
        assert Next(jobs, limit, before[k], before[k + 1]);
      }
    }
  }

  lemma {:induction false} AllCounted(jobs: seq<Fetched>, workers: seq<Worker>)
    requires |jobs| == |workers| && forall j :: 0 <= j < |jobs| ==> workers[j].Bumped?
    ensures Sum(Counted, jobs, workers) == Sum(All, jobs, workers)
  {
    if jobs != [] {
      AllCounted(jobs[1..], workers[1..]);
    }
  }

  lemma NobodyTurnedAway(jobs: seq<Fetched>, limit: nat, backlog: nat)
    requires backlog + Sum(All, jobs, AllWaiting(|jobs|)) <= limit
    ensures NeverTurnsAway(jobs, limit, backlog)
  {
    forall run: seq<State>, k, j | IsRun(jobs, limit, backlog, run) && 0 <= k < |run| && 0 <= j < |jobs|
      ensures !Enabled(jobs, limit, run[k], RollBack(j))
    {
      RunBumped(jobs, limit, backlog, run, k);
      SumOfAll(jobs, run[k].workers, AllWaiting(|jobs|));
      AllFitNoRollBack(jobs, limit, backlog, run[k], j);
    }
  }

  /** Over the limit, the worker that adds last takes its addition back when all add first. */
  lemma SomebodyTurnedAway(jobs: seq<Fetched>, limit: nat, backlog: nat) returns (run: seq<State>)
    requires jobs != [] && Fits(jobs, AllWaiting(|jobs|), backlog)
    requires backlog + Sum(All, jobs, AllWaiting(|jobs|)) > limit
    ensures IsRun(jobs, limit, backlog, run) && Enabled(jobs, limit, Last(run), RollBack(|jobs| - 1))
  {
    run := AllAdd(jobs, limit, backlog, |jobs|);
    RunInv(jobs, limit, backlog, run, |run| - 1);
    AllCounted(jobs, Last(run).workers);
    SumOfAll(jobs, Last(run).workers, AllWaiting(|jobs|));
  }

  /**
   * No worker is ever turned away exactly when everything fits: backlog and all
   * segments together are within the limit. Otherwise some interleaving turns one away.
   */
  lemma NobodyTurnedAwayExactlyWhenAllFit(jobs: seq<Fetched>, limit: nat, backlog: nat)
    requires jobs != [] && Fits(jobs, AllWaiting(|jobs|), backlog)
    ensures NeverTurnsAway(jobs, limit, backlog) <==> backlog + Sum(All, jobs, AllWaiting(|jobs|)) <= limit
  {
    if backlog + Sum(All, jobs, AllWaiting(|jobs|)) <= limit {
      NobodyTurnedAway(jobs, limit, backlog);
    } else {
      var run := SomebodyTurnedAway(jobs, limit, backlog);
      var k, j := |run| - 1, |jobs| - 1;
      assert Enabled(jobs, limit, run[k], RollBack(j));
    }
  }

  function PublishedJobs(workers: seq<Worker>): set<nat> {
    set j: nat | j < |workers| && workers[j].Published?
  }

  lemma PublishedAfter(workers: seq<Worker>, j: nat, worker: Worker)
    requires j < |workers| && !workers[j].Published?
    ensures |PublishedJobs(workers[j := worker])| == |PublishedJobs(workers)| + if worker.Published? then 1 else 0
  {
    assert PublishedJobs(workers[j := worker]) == PublishedJobs(workers) + if worker.Published? then {j} else {};
  }

  /** How many operations the workers have left at most. */
  function Remaining(workers: seq<Worker>): nat {
    if workers == [] then 0 else Left(workers[0]) + Remaining(workers[1..])
  }

  function Left(worker: Worker): nat {
    match worker case Waiting => 3 case Bumped(_) => 2 case Admitted => 1 case _ => 0
  }

  lemma {:induction false} RemainingAfter(workers: seq<Worker>, j: nat, worker: Worker)
    requires j < |workers|
    ensures Remaining(workers[j := worker]) == Remaining(workers) - Left(workers[j]) + Left(worker)
  {
    if j == 0 {
      assert workers[0 := worker][1..] == workers[1..];
    } else {
      assert workers[j := worker][1..] == workers[1..][j - 1 := worker];
      RemainingAfter(workers[1..], j - 1, worker);
    }
  }
}
