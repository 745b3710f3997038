/**
 * When the byte cap of the parallel pre-fetch is tight. An addition in flight
 * counts although it may be taken back, so a segment can be turned away beside
 * which there was room. This never happens exactly when, whatever has been let
 * through, there is room for all the others alike or for none.
 */
module QueueRoom {
  import opened Base
  import opened Wal
  import opened QueueCap

  /** The size of the segments `b` among the first `n`. */
  function Total(jobs: seq<Fetched>, b: set<nat>, n: nat): nat
    requires n <= |jobs|
  {
    if n == 0 then 0 else Total(jobs, b, n - 1) + if n - 1 in b then |jobs[n - 1].bytes| else 0
  }

  /** Segment `j` is within the limit beside the segments `b`. */
  predicate Room(jobs: seq<Fetched>, limit: nat, backlog: nat, b: set<nat>, j: nat)
    requires j < |jobs|
  {
    backlog + Total(jobs, b, |jobs|) + |jobs[j].bytes| <= limit
  }

  /** Beside whatever segments of `live`, all others of them have room or none has. */
  predicate RoomForAllOrNone(jobs: seq<Fetched>, limit: nat, backlog: nat, live: set<nat>)
    requires live <= Indices(|jobs|)
  {
    forall b: set<nat> | b <= live :: RoomAlike(jobs, limit, backlog, live, b)
  }

  predicate RoomAlike(jobs: seq<Fetched>, limit: nat, backlog: nat, live: set<nat>, b: set<nat>)
    requires live <= Indices(|jobs|)
  {
    (forall j :: j in live - b ==> Room(jobs, limit, backlog, b, j)) ||
    (forall j :: j in live - b ==> !Room(jobs, limit, backlog, b, j))
  }

  /** In no interleaving is a worker turned away whose segment has room beside what is let through. */
  ghost predicate NeverTurnsAwayFitting(jobs: seq<Fetched>, limit: nat, backlog: nat) {
    forall run, k, j | IsRun(jobs, limit, backlog, run) && 0 <= k < |run| && 0 <= j < |jobs| ::
      Enabled(jobs, limit, run[k], RollBack(j)) ==> !HasRoom(jobs, limit, backlog, run[k], j)
  }

  // ----- Sums of workers are sums of sets

  function Members(kind: Kind, jobs: seq<Fetched>, workers: seq<Worker>): set<nat>
    requires |jobs| == |workers|
  {
    set j: nat | j < |jobs| && Counts(kind, workers[j], |jobs[j].bytes|)
  }

  lemma {:induction false} SumAppend(kind: Kind, jobs: seq<Fetched>, workers: seq<Worker>, job: Fetched, worker: Worker)
    requires |jobs| == |workers|
    ensures Sum(kind, jobs + [job], workers + [worker]) == Sum(kind, jobs, workers) + Share(kind, worker, |job.bytes|)
  {
    if jobs != [] {
      assert (jobs + [job])[1..] == jobs[1..] + [job] && (workers + [worker])[1..] == workers[1..] + [worker];
      SumAppend(kind, jobs[1..], workers[1..], job, worker);
    }
  }

  lemma {:induction false} SumIsTotal(kind: Kind, jobs: seq<Fetched>, workers: seq<Worker>, n: nat)
    requires n <= |jobs| == |workers|
    ensures Sum(kind, jobs[..n], workers[..n]) == Total(jobs, Members(kind, jobs, workers), n)
  {
    if n > 0 {
      SumIsTotal(kind, jobs, workers, n - 1);
      assert jobs[..n] == jobs[..n - 1] + [jobs[n - 1]] && workers[..n] == workers[..n - 1] + [workers[n - 1]];
      SumAppend(kind, jobs[..n - 1], workers[..n - 1], jobs[n - 1], workers[n - 1]);
    }
  }

  lemma RoomIsRoom(jobs: seq<Fetched>, limit: nat, backlog: nat, st: State, j: nat)
    requires j < |jobs| == |st.workers|
    ensures HasRoom(jobs, limit, backlog, st, j) <==>
      Room(jobs, limit, backlog, Members(Passing(limit), jobs, st.workers), j)
  {
    SumIsTotal(Passing(limit), jobs, st.workers, |jobs|);
    assert jobs[..|jobs|] == jobs && st.workers[..|jobs|] == st.workers;
  }

  // ----- Where there is room for all or for none

  /** Workers whose segments are not among `live` have nothing to stage. */
  predicate OnlyLive(jobs: seq<Fetched>, limit: nat, st: State, live: set<nat>)
    requires |jobs| == |st.workers|
  {
    forall j :: 0 <= j < |jobs| && j !in live ==> st.workers[j].Waiting? || st.workers[j].Missed?
  }

  lemma TurnedHaveNoRoom(jobs: seq<Fetched>, limit: nat, backlog: nat, st: State, live: set<nat>)
    requires |jobs| == |st.workers| && TurnedForRoom(jobs, limit, backlog, st)
    requires live <= Indices(|jobs|) && OnlyLive(jobs, limit, st, live)
    requires RoomForAllOrNone(jobs, limit, backlog, live)
    ensures forall j :: Turned(jobs, limit, st, j) ==> !HasRoom(jobs, limit, backlog, st, j)
  {
    var b := Members(Passing(limit), jobs, st.workers);
    forall j | Turned(jobs, limit, st, j) ensures !HasRoom(jobs, limit, backlog, st, j) {
      var i :| Turned(jobs, limit, st, i) && !HasRoom(jobs, limit, backlog, st, i);
      RoomIsRoom(jobs, limit, backlog, st, i);
      RoomIsRoom(jobs, limit, backlog, st, j);
      assert RoomAlike(jobs, limit, backlog, live, b);
      assert i in live - b && j in live - b;
    }
  }

  /** Segments of one size, as full WAL segments are, have room alike. */
  lemma OneSizeHasRoomAlike(jobs: seq<Fetched>, limit: nat, backlog: nat, live: set<nat>, size: nat)
    requires live <= Indices(|jobs|) && forall j :: j in live ==> |jobs[j].bytes| == size
    ensures RoomForAllOrNone(jobs, limit, backlog, live)
  {
  }

  /** And so have segments that are within the limit all together. */
  lemma AllFittingHaveRoom(jobs: seq<Fetched>, limit: nat, backlog: nat, live: set<nat>)
    requires live <= Indices(|jobs|) && backlog + Total(jobs, live, |jobs|) <= limit
    ensures RoomForAllOrNone(jobs, limit, backlog, live)
  {
    forall b: set<nat>, i | b <= live && i in live && i !in b ensures Room(jobs, limit, backlog, b, i) {
      TotalAdds(jobs, b, i, |jobs|);
      TotalWithin(jobs, b + {i}, live, |jobs|);
    }
  }

  lemma {:induction false} TotalAdds(jobs: seq<Fetched>, b: set<nat>, i: nat, n: nat)
    requires n <= |jobs| && i < |jobs| && i !in b
    ensures Total(jobs, b + {i}, n) == Total(jobs, b, n) + if i < n then |jobs[i].bytes| else 0
  {
    if n > 0 {
      TotalAdds(jobs, b, i, n - 1);
    }
  }

  lemma {:induction false} TotalWithin(jobs: seq<Fetched>, small: set<nat>, large: set<nat>, n: nat)
    requires n <= |jobs| && small <= large
    ensures Total(jobs, small, n) <= Total(jobs, large, n)
  {
    if n > 0 {
      TotalWithin(jobs, small, large, n - 1);
    }
  }

  // ----- Where there is not

  lemma {:induction false} TotalGrows(jobs: seq<Fetched>, b: set<nat>, m: nat, n: nat)
    requires m <= n <= |jobs|
    ensures Total(jobs, b, m) <= Total(jobs, b, n)
  {
    if m < n {
      TotalGrows(jobs, b, m, n - 1);
    }
  }

  /** The first `n` workers have been let through if they are among `b`, and no other has begun. */
  function Filled(jobs: seq<Fetched>, b: set<nat>, n: nat): seq<Worker> {
    seq(|jobs|, j => if j < n && j in b then Admitted else Waiting)
  }

  lemma RunExtended(jobs: seq<Fetched>, limit: nat, backlog: nat, run: seq<State>, step: Step)
    requires IsRun(jobs, limit, backlog, run) && Enabled(jobs, limit, Last(run), step)
    ensures IsRun(jobs, limit, backlog, run + [Apply(jobs, limit, Last(run), step)])
  {
    var run' := run + [Apply(jobs, limit, Last(run), step)];
    assert Next(jobs, limit, Last(run), Last(run'));
    forall k | 0 <= k < |run'| - 1 ensures Next(jobs, limit, run'[k], run'[k + 1]) {
      if k < |run| - 1 {
        assert Next(jobs, limit, run[k], run[k + 1]);
      }
    }
  }

  /** Worker `j` adds its size to a counter that has room for it. */
  lemma AddsUp(jobs: seq<Fetched>, limit: nat, backlog: nat, run: seq<State>, j: nat) returns (run': seq<State>)
    requires IsRun(jobs, limit, backlog, run) && j < |jobs| == |Last(run).workers| && Last(run).workers[j].Waiting?
    ensures IsRun(jobs, limit, backlog, run')
    ensures Last(run').workers == Last(run).workers[j := Bumped(Last(run).counter)]
    ensures Last(run').counter == Last(run).counter + |jobs[j].bytes| < U64
  {
    var st := Last(run);
    RunExtended(jobs, limit, backlog, run, Bump(j));
    run' := run + [Apply(jobs, limit, st, Bump(j))];
    RunInv(jobs, limit, backlog, run, |run| - 1);
    RunInv(jobs, limit, backlog, run', |run|);
    SumAfter(Counted, jobs, st.workers, j, Last(run').workers[j]);
    SumWithin(Counted, All, jobs, Last(run').workers);
  }

  /** The run in which the segments `b` among the first `n` are let through one after the other. */
  lemma {:induction false} Fill(jobs: seq<Fetched>, limit: nat, backlog: nat, b: set<nat>, n: nat)
    returns (run: seq<State>)
    requires n <= |jobs| && Fits(jobs, AllWaiting(|jobs|), backlog)
    requires backlog + Total(jobs, b, |jobs|) <= limit
    ensures IsRun(jobs, limit, backlog, run) && Last(run).workers == Filled(jobs, b, n)
    ensures Last(run).counter == backlog + Total(jobs, b, n)
  {
    if n == 0 {
      SpoolSize(backlog);
      assert Filled(jobs, b, 0) == AllWaiting(|jobs|);
      return [State(backlog, SpoolOf(backlog), AllWaiting(|jobs|))];
    }
    run := Fill(jobs, limit, backlog, b, n - 1);
    if n - 1 in b {
      TotalGrows(jobs, b, n, |jobs|);
      run := AddsUp(jobs, limit, backlog, run, n - 1);
      RunExtended(jobs, limit, backlog, run, Admit(n - 1));
      run := run + [Apply(jobs, limit, Last(run), Admit(n - 1))];
    }
    assert Last(run).workers == Filled(jobs, b, n);
  }

  /** Beside those let through two workers are to be turned away. */
  lemma {:induction false} FilledMembers(jobs: seq<Fetched>, limit: nat, b: set<nat>, i: nat, j: nat,
      workers: seq<Worker>)
    requires b <= Indices(|jobs|) && i < |jobs| && j < |jobs| && i !in b && j !in b && |workers| == |jobs|
    requires forall k :: 0 <= k < |jobs| && k != i && k != j ==> workers[k] == Filled(jobs, b, |jobs|)[k]
    requires TurnedAway(workers[i], |jobs[i].bytes|, limit) && TurnedAway(workers[j], |jobs[j].bytes|, limit)
    ensures Members(Passing(limit), jobs, workers) == b
  {
    forall k | 0 <= k < |jobs| ensures k in Members(Passing(limit), jobs, workers) <==> k in b {
      if k != i && k != j {
        assert workers[k] == if k in b then Admitted else Waiting;
      }
    }
  }

  /** Beside `b` there is room for `j` but not for `i`: when `i` adds first, `j` is turned away. */
  lemma FittingTurnedAway(jobs: seq<Fetched>, limit: nat, backlog: nat, b: set<nat>, i: nat, j: nat)
    returns (run: seq<State>)
    requires Fits(jobs, AllWaiting(|jobs|), backlog)
    requires b <= Indices(|jobs|) && i < |jobs| && j < |jobs| && i !in b && j !in b
    requires Room(jobs, limit, backlog, b, j) && !Room(jobs, limit, backlog, b, i)
    ensures IsRun(jobs, limit, backlog, run) && Enabled(jobs, limit, Last(run), RollBack(j))
    ensures HasRoom(jobs, limit, backlog, Last(run), j)
  {
    run := Fill(jobs, limit, backlog, b, |jobs|);
    run := AddsUp(jobs, limit, backlog, run, i);
    run := AddsUp(jobs, limit, backlog, run, j);
    FilledMembers(jobs, limit, b, i, j, Last(run).workers);
    RoomIsRoom(jobs, limit, backlog, Last(run), j);
  }

  /**
   * No worker is ever turned away whose segment has room beside what is let
   * through exactly when, beside whatever segments, all others have room or none
   * has.
   */
  lemma FittingNeverTurnedAwayExactlyWhen(jobs: seq<Fetched>, limit: nat, backlog: nat)
    requires Fits(jobs, AllWaiting(|jobs|), backlog)
    ensures NeverTurnsAwayFitting(jobs, limit, backlog) <==>
      RoomForAllOrNone(jobs, limit, backlog, Indices(|jobs|))
  {
    var all := Indices(|jobs|);
    if RoomForAllOrNone(jobs, limit, backlog, all) {
      forall run: seq<State>, k, j | IsRun(jobs, limit, backlog, run) && 0 <= k < |run| && 0 <= j < |jobs|
        && Enabled(jobs, limit, run[k], RollBack(j))
        ensures !HasRoom(jobs, limit, backlog, run[k], j)
      {
        RunInv(jobs, limit, backlog, run, k);
        TurnedHaveNoRoom(jobs, limit, backlog, run[k], all);
        assert Turned(jobs, limit, run[k], j);
      }
    } else {
      var b: set<nat> :| b <= all && !RoomAlike(jobs, limit, backlog, all, b);
      var i :| i in all - b && !Room(jobs, limit, backlog, b, i);
      var j :| j in all - b && Room(jobs, limit, backlog, b, j);
      var run := FittingTurnedAway(jobs, limit, backlog, b, i, j);
      var k := |run| - 1;
      assert Enabled(jobs, limit, run[k], RollBack(j));
    }
  }

  lemma OneSizeNeverTurnsAwayFitting(jobs: seq<Fetched>, limit: nat, backlog: nat, size: nat)
    requires Fits(jobs, AllWaiting(|jobs|), backlog) && forall j :: 0 <= j < |jobs| ==> |jobs[j].bytes| == size
    ensures NeverTurnsAwayFitting(jobs, limit, backlog)
  {
    OneSizeHasRoomAlike(jobs, limit, backlog, Indices(|jobs|), size);
    FittingNeverTurnedAwayExactlyWhen(jobs, limit, backlog);
  }

  /** At any point of any run: if somebody is turned away, somebody is for whom there is no room. */
  lemma SomebodyHasNoRoom(jobs: seq<Fetched>, limit: nat, backlog: nat, run: seq<State>, k: nat, j: nat)
    returns (i: nat)
    requires IsRun(jobs, limit, backlog, run) && k < |run|
    requires j < |jobs| && Enabled(jobs, limit, run[k], RollBack(j))
    ensures i < |jobs| == |run[k].workers| && !HasRoom(jobs, limit, backlog, run[k], i)
    ensures TurnedAway(run[k].workers[i], |jobs[i].bytes|, limit)
  {
    RunInv(jobs, limit, backlog, run, k);
    assert Turned(jobs, limit, run[k], j);
    i :| Turned(jobs, limit, run[k], i) && !HasRoom(jobs, limit, backlog, run[k], i);
  }
}
