/**
 * `archive-push` and the spool drain as they run: methods that change the spool
 * and the repositories one storage operation at a time. Any operation can fail.
 *
 * Every operation that changes the disk is recorded as one step of the push
 * machine (`run`), so what is proved of all histories holds of these methods at
 * every point of their execution.
 */
module Archiver {
  import opened Base
  import opened Wal
  import Drain = DrainMachine
  import opened PushMachine

  /** What the command line and the configuration settle before any storage is touched. */
  datatype Gate = Gate(stopped: bool, stanzaCreated: bool, headerMatches: bool)

  datatype Pool = Pool(processMax: nat, allLocal: bool)

  class Archiver {
    const w: World
    var out: Spool
    var repos: seq<Repo>
    /** The machine's state now, and all its states so far. */
    ghost var host: Host
    ghost var run: seq<Host>
    /** How many storage operations have failed so far. */
    ghost var faults: nat
    /** The drain under way: the disk it began with, how it went so far, and which copies failed. */
    ghost var drain0: Disk
    ghost var drain: seq<Drain.State>
    ghost var blamed: set<(Name, nat)>

    ghost predicate Recorded()
      reads `host, `run
    {
      run != [] && host == Last(run) && IsChain(w, run)
    }

    /** The drain under way is one of the drain machine's, and failed exactly where it is blamed. */
    ghost predicate DrainTrue(failed: set<(Name, nat)>)
      reads `host, `drain0, `drain
      requires Control().Draining?
    {
      Drain.Underway(DrainPlan(), drain0, drain, Drain.State(host.disk, Jobs()), failed)
    }

    /**
     * The drain has come to its end: a segment is rejected exactly when something
     * failed for it, and the disk is what that makes of the disk before.
     */
    ghost predicate DrainOver()
      reads this
      requires Control().Draining?
    {
      && (forall name :: name in Jobs() ==>
            Jobs()[name].phase == if Drain.Blamed(blamed, name) then Drain.Rejected else Drain.Archived)
      && ArchivedNames(Jobs()) == StagedNames(drain0.out) - StagedNames(out)
      && (repos != [] ==> Drain.DrainedDisk(DrainPlan(), Drain.FailsOf(blamed), drain0, Disk(out, repos)))
    }

    ghost predicate Valid()
      reads this
    {
      Recorded() && host.disk == Disk(out, repos) && (Control().Draining? ==> DrainTrue(blamed))
    }

    ghost function Control(): Control
      reads `host
    {
      host.control
    }

    ghost function Jobs(): Drain.Jobs
      reads `host
      requires Control().Draining?
    {
      Control().jobs
    }

    ghost function DrainPlan(): Drain.Plan
      reads `host
      requires Control().Draining?
    {
      Drain.Plan(Control().suffix, w.codec)
    }

    /** The spool and the repositories as a host starts with them. */
    constructor (w: World, repos: seq<Repo>)
      ensures Valid() && this.w == w && run == [Host(Disk(map[], repos), Idle, {}, {})]
    {
      this.w, this.out, this.repos := w, map[], repos;
      host := Host(Disk(map[], repos), Idle, {}, {});
      run, faults := [Host(Disk(map[], repos), Idle, {}, {})], 0;
    }

    // ----- Storage operations

    ghost method Record(step: Step)
      requires Recorded() && Enabled(host, step) && !step.DrainStep? && !step.Stage? && !step.BeginDrain?
      requires Apply(w, host, step).disk == Disk(out, repos)
      modifies `host, `run
      ensures Valid() && old(run) <= run && host == Apply(w, old(host), step)
    {
      var next := Apply(w, host, step);
      assert Taken(step);
      ChainExtended(w, run, next);
      host, run := next, run + [next];
    }

    /** A step that begins a drain. */
    ghost method RecordBegin(step: Step)
      requires Recorded() && Enabled(host, step) && (step.Stage? || step.BeginDrain?)
      requires Apply(w, host, step).disk == Disk(out, repos)
      modifies `host, `run, `drain0, `drain, `blamed
      ensures Valid() && old(run) <= run && host == Apply(w, old(host), step)
      ensures drain0 == Disk(out, repos)
    {
      var next := Apply(w, host, step);
      assert Taken(step);
      ChainExtended(w, run, next);
      host, run := next, run + [next];
      drain0, drain, blamed := Disk(out, repos), [Drain.Start(Disk(out, repos))], {};
    }

    /** A step of the drain under way; `before` is what was blamed before the operation. */
    ghost method RecordDrain(step: Drain.Step, before: set<(Name, nat)>)
      requires Recorded() && Enabled(host, DrainStep(step)) && DrainTrue(before)
      requires Apply(w, host, DrainStep(step)).disk == Disk(out, repos)
      requires step.Copy? ==> (step.seg, step.target) !in before
      requires if step.Fault? then BlamesSegment(blamed, before, Jobs(), step.seg, |repos|) else blamed == before
      modifies `host, `run, `drain
      ensures Valid() && old(run) <= run && host == Apply(w, old(host), DrainStep(step))
    {
      var next := Apply(w, host, DrainStep(step));
      assert Taken(DrainStep(step));
      ChainExtended(w, run, next);
      var st := Drain.State(host.disk, Jobs());
      Drain.UnderwayStep(DrainPlan(), drain0, drain, st, before, blamed - before, step);
      assert before + (blamed - before) == blamed;
      drain := drain + [Drain.Apply(DrainPlan(), st, step)];
      host, run := next, run + [next];
    }

    /** An error return: the disk stays as it is. */
    ghost method GiveUp()
      requires Valid()
      modifies `host, `run
      ensures Valid() && old(run) <= run && host == old(host).(control := Idle)
    {
      Record(Stop);
    }

    ghost method LeaveDrain(caller: Option<Request>)
      requires Valid() && Control().Draining? && Control().caller == caller
      requires Drain.Complete(Drain.State(Disk(out, repos), Jobs()))
      modifies `host, `run
      ensures Valid() && old(run) <= run
      ensures host == old(host).(control := if caller.Some? then Confirming(caller.value) else Idle)
    {
      Record(EndDrain);
    }

    ghost method FoundHeld(req: Request)
      requires Valid() && Control() == Confirming(req) && HeldByAll(repos, req.name)
      requires OkStatus(req.name) !in out && ErrorStatus(req.name) !in out
      modifies `host, `run
      ensures Valid() && old(run) <= run && Control().Idle?
      ensures host.acks == old(host).acks + {Stored(req.name)} && host.accepted == old(host).accepted
    {
      Record(ConfirmHeld);
    }

    method WriteRepo(i: nat, f: RepoFile, bytes: Bytes) returns (ok: bool)
      requires i < |repos|
      modifies `repos, `faults, `blamed
      ensures repos == if ok then old(repos)[i := old(repos[i])[f := bytes]] else old(repos)
      ensures faults == old(faults) + if ok then 0 else 1
      ensures blamed == old(blamed) + if ok then {} else {(f.name, i)}
    {
      if * {
        faults, blamed := faults + 1, blamed + {(f.name, i)};
        return false;
      }
      repos := repos[i := repos[i][f := bytes]];
      return true;
    }

    method WriteOut(f: SpoolFile, bytes: Bytes) returns (ok: bool)
      modifies `out, `faults
      ensures out == if ok then old(out)[f := bytes] else old(out)
      ensures faults == old(faults) + if ok then 0 else 1
    {
      if * {
        faults := faults + 1;
        return false;
      }
      out := out[f := bytes];
      return true;
    }

    method RemoveOut(f: SpoolFile) returns (ok: bool)
      modifies `out, `faults
      ensures out == if ok then old(out) - {f} else old(out)
      ensures faults == old(faults) + if ok then 0 else 1
    {
      if * {
        faults := faults + 1;
        return false;
      }
      out := out - {f};
      return true;
    }

    /** Any operation that only looks: it may fail, and then the caller gives up. */
    method Probe() returns (ok: bool)
      modifies `faults
      ensures faults == old(faults) + if ok then 0 else 1
    {
      if * {
        faults := faults + 1;
        return false;
      }
      return true;
    }

    /** What comes before the copies of a segment: without it none of them is made. */
    method Prepare(seg: Name) returns (ok: bool)
      modifies `faults, `blamed
      ensures faults == old(faults) + if ok then 0 else 1
      ensures blamed == old(blamed) + if ok then {} else AllCopies(seg, |repos|)
    {
      if * {
        faults, blamed := faults + 1, blamed + AllCopies(seg, |repos|);
        return false;
      }
      return true;
    }

    // ----- Draining one segment

    /** The drain has not begun on the segment. */
    ghost predicate Untouched(seg: Name)
      reads `host, `out
      requires Control().Draining?
    {
      seg in Jobs() && Jobs()[seg] == Drain.Job({}, false, Drain.Copying) && Staged(seg) in out
    }

    /** One attempt to copy a staged segment to one target. */
    method CopyTo(suffix: Suffix, seg: Name, bytes: Bytes, i: nat) returns (ok: bool)
      requires Valid() && Control().Draining? && Control().suffix == suffix
      requires seg in Jobs() && Jobs()[seg].phase == Drain.Copying && i !in Jobs()[seg].written && i < |repos|
      requires Staged(seg) in out && out[Staged(seg)] == bytes && (seg, i) !in blamed
      modifies `repos, `host, `run, `faults, `drain, `blamed
      ensures Valid() && old(run) <= run && |repos| == |old(repos)|
      ensures faults == old(faults) + if ok then 0 else 1
      ensures ok ==> OnlyJob(old(host), host, seg, WithCopy(old(Jobs()[seg]), i))
      ensures !ok ==> OnlyJob(old(host), host, seg, old(Jobs()[seg]).(failed := true))
      ensures blamed == old(blamed) + if ok then {} else {(seg, i)}
    {
      ghost var job := Jobs()[seg];
      ghost var before := blamed;
      ok := WriteRepo(i, RepoFile(seg, suffix), w.codec.forward(suffix, i, bytes));
      if ok {
        RecordDrain(Drain.Copy(seg, i), before);
      } else if !job.failed {
        assert (seg, i) in blamed - before;
        RecordDrain(Drain.Fault(seg), before);
      } else {
        Drain.UnderwayBlame(DrainPlan(), drain0, drain, Drain.State(host.disk, Jobs()), before, (seg, i));
        assert old(Jobs())[seg := job] == Jobs();
      }
    }

    /** What comes before a segment's copies, with its failure recorded. */
    method Begin(seg: Name) returns (ok: bool)
      requires Valid() && Control().Draining? && Untouched(seg)
      modifies `host, `run, `faults, `drain, `blamed
      ensures Valid() && old(run) <= run
      ensures faults == old(faults) + if ok then 0 else 1
      ensures ok ==> host == old(host) && forall i :: (seg, i) !in blamed
      ensures !ok ==> OnlyJob(old(host), host, seg, old(Jobs()[seg]).(failed := true))
    {
      ghost var before := blamed;
      NothingBlamed(Drain.State(host.disk, Jobs()), blamed, seg);
      ok := Prepare(seg);
      if !ok {
        PrepareBlames(blamed, before, Jobs(), seg, |repos|);
        RecordDrain(Drain.Fault(seg), before);
      }
    }

    /** Copy a staged segment to every target in turn, stopping at the first failure. */
    method DrainOneSerial(suffix: Suffix, seg: Name) returns (ok: bool)
      requires Valid() && Control().Draining? && Control().suffix == suffix && Untouched(seg)
      modifies `repos, `host, `run, `faults, `drain, `blamed
      ensures Valid() && old(run) <= run && |repos| == |old(repos)|
      ensures OneDrained(old(host), host, seg, ok)
      ensures faults == old(faults) + if ok then 0 else 1
    {
      hide Drain.Underway, Drain.DrainedDisk, IsChain;
      ok := Begin(seg);  // read the staged copy
      if !ok {
        return;
      }
      var bytes := out[Staged(seg)];
      var i := 0;
      while i < |repos|
        invariant 0 <= i <= |repos| == |old(repos)|
        invariant Valid() && old(run) <= run && faults == old(faults)
        invariant Control().Draining? && seg in Jobs()
        invariant OnlyJob(old(host), host, seg, Jobs()[seg])
        invariant CopiedBefore(Jobs()[seg], i)
        invariant forall j :: (seg, j) !in blamed
      {
        ok := CopyTo(suffix, seg, bytes, i);
        if !ok {
          return;
        }
        i := i + 1;
      }
    }

    /** Copy a staged segment to every target in any order; every target is tried. */
    method DrainOnePooled(suffix: Suffix, seg: Name) returns (ok: bool)
      requires Valid() && Control().Draining? && Control().suffix == suffix && Untouched(seg)
      modifies `repos, `host, `run, `faults, `drain, `blamed
      ensures Valid() && old(run) <= run && |repos| == |old(repos)|
      ensures OneDrained(old(host), host, seg, ok)
      ensures ok <==> faults == old(faults)
      ensures faults >= old(faults)
    {
      hide Drain.Underway, Drain.DrainedDisk, IsChain;
      ok := Begin(seg);  // read the staged copy
      if ok {
        // create and resolve every target's directory before the workers start
        ok := Begin(seg);
      }
      if ok {
        ok := SendToAll(suffix, seg);
      }
    }

    /** The jobs of the targets, in any order. */
    method SendToAll(suffix: Suffix, seg: Name) returns (ok: bool)
      requires Valid() && Control().Draining? && Control().suffix == suffix && Untouched(seg)
      requires forall i :: (seg, i) !in blamed
      modifies `repos, `host, `run, `faults, `drain, `blamed
      ensures Valid() && old(run) <= run && |repos| == |old(repos)|
      ensures OneDrained(old(host), host, seg, ok)
      ensures faults >= old(faults) && (ok <==> faults == old(faults))
    {
      hide Drain.Underway, Drain.DrainedDisk, IsChain;
      ok := true;
      var bytes := out[Staged(seg)];
      var left := set i: nat | i in Indices(|repos|);
      while left != {}
        invariant |repos| == |old(repos)| && left <= Indices(|repos|)
        invariant Valid() && old(run) <= run && faults >= old(faults)
        invariant Control().Draining? && seg in Jobs()
        invariant OnlyJob(old(host), host, seg, Jobs()[seg])
        invariant Jobs()[seg].phase == Drain.Copying && (Jobs()[seg].failed <==> !ok)
        invariant ok <==> faults == old(faults)
        invariant Tried(Jobs()[seg], blamed, seg, left, |repos|)
      {
        var i :| i in left;
        var copied := CopyTo(suffix, seg, bytes, i);
        ok := ok && copied;
        left := left - {i};
      }
    }

    /** Record what became of one segment; `done` is false when the spool itself failed. */
    method Settle(seg: Name, ok: bool) returns (done: bool)
      requires Valid() && Control().Draining? && seg in Jobs() && Jobs()[seg].phase == Drain.Copying
      requires if ok then !Jobs()[seg].failed && Drain.Everywhere(Jobs()[seg], |repos|) else Jobs()[seg].failed
      modifies `out, `host, `run, `faults, `drain
      ensures Valid() && old(run) <= run && faults >= old(faults)
      ensures Control().Draining? && seg in Jobs() && OnlyJob(old(host), host, seg, Jobs()[seg])
      ensures done ==> faults == old(faults)
      ensures done ==> Jobs()[seg] == old(Jobs()[seg]).(phase := if ok then Drain.Archived else Drain.Rejected)
      ensures !done ==> faults > old(faults)
      ensures done && ok ==> out == (old(out) - {Staged(seg)})[OkStatus(seg) := []]
      ensures done && !ok ==> forall f :: f in out <==> f == ErrorStatus(seg) || f in old(out)
    {
      hide Drain.Underway, Drain.DrainedDisk, IsChain;
      if ok {
        done := RemoveOut(Staged(seg));
        if done {
          RecordDrain(Drain.RemoveStaged(seg), blamed);
          done := WriteOut(OkStatus(seg), []);
          if done {
            RecordDrain(Drain.RecordOk(seg), blamed);
          }
        }
      } else {
        var message: Bytes := *;
        done := WriteOut(ErrorStatus(seg), message);
        if done {
          RecordDrain(Drain.RecordError(seg, message), blamed);
        }
      }
    }

    /** When every segment has its status the drain is over. */
    ghost method Conclude()
      requires Valid() && Control().Draining?
      requires forall name :: name in Jobs() ==>
        Jobs()[name].phase == if Jobs()[name].failed then Drain.Rejected else Drain.Archived
      ensures DrainOver()
    {
      forall name ensures name in ArchivedNames(Jobs()) <==> name in StagedNames(drain0.out) - StagedNames(out) {
        Drain.ArchivedAreGone(DrainPlan(), drain0, drain, name);
      }
      if repos != [] {
        Drain.SameTargets(DrainPlan(), drain0, drain);
        Drain.UnderwayOutcome(DrainPlan(), drain0, drain, Drain.State(host.disk, Jobs()), blamed);
      }
    }

    // ----- Draining the backlog

    /** The segments staged in `out/`, each once, in the order the listing gives them. */
    method ListStaged() returns (segments: seq<Name>)
      requires Valid()
      ensures Distinct(segments) && forall name :: name in segments <==> name in StagedNames(out)
    {
      segments := [];
      var rest := StagedNames(out);
      while rest != {}
        invariant Distinct(segments) && rest <= StagedNames(out)
        invariant forall name :: name in segments <==> name in StagedNames(out) - rest
      {
        var name :| name in rest;
        DistinctAppend(segments, name);
        segments, rest := segments + [name], rest - {name};
      }
    }

    ghost predicate AboutToDrain(suffix: Suffix, segments: seq<Name>)
      reads this
    {
      && Valid() && Control().Draining? && Control().suffix == suffix
      && Jobs() == Drain.StartJobs(out)
      && Distinct(segments) && forall name :: name in segments <==> name in Jobs()
    }

    /** Copy one segment to every target and record its status. */
    method DrainAndSettle(suffix: Suffix, seg: Name, pool: Pool, ghost left: set<Name>, ghost count: nat,
        ghost out0: Spool)
      returns (ok: bool, done: bool)
      requires Valid() && Control().Draining? && Control().suffix == suffix && Untouched(seg)
      requires seg in left && Ledger(Jobs(), left, count)
      modifies `out, `repos, `host, `run, `faults, `drain, `blamed
      ensures Valid() && old(run) <= run && |repos| == |old(repos)| && faults >= old(faults)
      ensures Control().Draining? && seg in Jobs() && OnlyJob(old(host), host, seg, Jobs()[seg])
      ensures done ==> Ledger(Jobs(), left - {seg}, count + if ok then 1 else 0)
      ensures done ==> forall name :: name != seg && Staged(name) in old(out) ==> Staged(name) in out
      ensures !done || !ok ==> faults > old(faults)
      ensures done && ok && Clean(old(Jobs()), left, out0, old(out)) ==> Clean(Jobs(), left - {seg}, out0, out)
    {
      hide Drain.Underway, Drain.DrainedDisk, IsChain;
      if pool.processMax > 1 && |repos| > 1 && pool.allLocal {
        ok := DrainOnePooled(suffix, seg);
      } else {
        ok := DrainOneSerial(suffix, seg);
      }
      ghost var jobs, during := Jobs(), out;
      done := Settle(seg, ok);
      if done {
        LedgerStep(old(Jobs()), Jobs(), left, seg, count, ok);
        if ok && Clean(old(Jobs()), left, out0, during) {
          CleanStep(old(Jobs()), Jobs(), left, seg, out0, during, out);
        }
      }
    }

    /** One segment after the other; a status that cannot be recorded ends the drain. */
    method DrainSerial(suffix: Suffix, segments: seq<Name>, pool: Pool) returns (drained: Option<nat>)
      requires AboutToDrain(suffix, segments)
      modifies `out, `repos, `host, `run, `faults, `drain, `blamed
      ensures Valid() && old(run) <= run && |repos| == |old(repos)|
      ensures OnlyJobs(old(host), host) && faults >= old(faults)
      ensures drained.Some? ==> DrainOver() && drained.value == |ArchivedNames(Jobs())|
      ensures drained.Some? ==> |segments| <= drained.value + (faults - old(faults))
      ensures drained.None? ==> faults > old(faults)
      ensures faults == old(faults) ==> ArchivedNames(Jobs()) == Jobs().Keys && Drained(old(out), out, Jobs().Keys)
    {
      hide Drain.Underway, Drain.DrainedDisk, IsChain;
      drained := DrainEach(suffix, segments, pool);
      if drained.Some? {
        LedgerEnd(Jobs(), drained.value);
        Conclude();
      }
    }

    /** The loop over the segments. */
    method DrainEach(suffix: Suffix, segments: seq<Name>, pool: Pool) returns (drained: Option<nat>)
      requires AboutToDrain(suffix, segments)
      modifies `out, `repos, `host, `run, `faults, `drain, `blamed
      ensures Valid() && old(run) <= run && |repos| == |old(repos)|
      ensures OnlyJobs(old(host), host) && faults >= old(faults)
      ensures drained.Some? ==> Ledger(Jobs(), {}, drained.value)
      ensures drained.Some? ==> |segments| <= drained.value + (faults - old(faults))
      ensures drained.None? ==> faults > old(faults)
      ensures faults == old(faults) ==> Clean(Jobs(), {}, old(out), out)
    {
      hide Drain.Underway, Drain.DrainedDisk, IsChain, Ledger, Clean;
      var k, count := 0, 0;
      ghost var left := Jobs().Keys;
      LedgerBegins(Jobs(), left, out);
      while k < |segments|
        invariant 0 <= k <= |segments|
        invariant Valid() && old(run) <= run && |repos| == |old(repos)|
        invariant OnlyJobs(old(host), host) && faults >= old(faults)
        invariant k <= count + (faults - old(faults))
        invariant left == Elements(segments[k..]) && Ledger(Jobs(), left, count)
        invariant forall name :: name in left ==> Untouched(name)
        invariant faults == old(faults) ==> Clean(Jobs(), left, old(out), out)
      {
        var seg := segments[k];
        ElementsStep(segments, k);
        var ok, done := DrainAndSettle(suffix, seg, pool, left, count, old(out));
        if !done {
          return None;
        }
        left, k, count := left - {seg}, k + 1, count + if ok then 1 else 0;
      }
      assert left == {};
      return Some(count);
    }

    /**
     * One worker job a segment. The workers run in any interleaving, one storage
     * operation at a time; when all have ended, their results are settled in the
     * order they ended.
     */
    method DrainPool(suffix: Suffix, segments: seq<Name>) returns (drained: Option<nat>)
      requires AboutToDrain(suffix, segments)
      modifies `out, `repos, `host, `run, `faults, `drain, `blamed
      ensures Valid() && old(run) <= run && |repos| == |old(repos)|
      ensures OnlyJobs(old(host), host) && faults >= old(faults)
      ensures drained.Some? ==> DrainOver() && drained.value == |ArchivedNames(Jobs())|
      ensures drained.Some? ==> |segments| <= drained.value + (faults - old(faults))
      ensures drained.None? ==> faults > old(faults)
      ensures faults == old(faults) ==> ArchivedNames(Jobs()) == Jobs().Keys && Drained(old(out), out, Jobs().Keys)
    {
      hide Drain.Underway, Drain.DrainedDisk, IsChain;
      var ready := Probe();  // resolve the staging directory and every target's directory
      if !ready {
        return None;
      }
      var results := RunWorkers(suffix, segments);
      DistinctCount(segments, results.Keys);
      if faults == old(faults) { NoneRefused(results); }
      drained := SettleAll(results);
    }

    /** The results of a pool, settled in any order. */
    method SettleAll(results: map<Name, bool>) returns (drained: Option<nat>)
      requires Valid() && Control().Draining? && results.Keys == Jobs().Keys == StagedNames(out)
      requires forall name :: name in results ==> WorkerDone(Jobs(), name, results[name], |repos|)
      modifies `out, `host, `run, `faults, `drain
      ensures Valid() && old(run) <= run
      ensures OnlyJobs(old(host), host) && faults >= old(faults)
      ensures drained.Some? ==> DrainOver() && drained.value == |ArchivedNames(Jobs())|
      ensures drained.Some? ==>
        forall name :: name in results ==>
          Jobs()[name].phase == if results[name] then Drain.Archived else Drain.Rejected
      ensures drained.Some? ==> drained.value + |Refused(results)| == |results.Keys|
      ensures drained.None? ==> faults > old(faults)
      ensures faults == old(faults) && AllOk(results) ==>
        ArchivedNames(Jobs()) == Jobs().Keys && Drained(old(out), out, Jobs().Keys)
    {
      hide Drain.Underway, Drain.DrainedDisk, IsChain, Clean, Ledger, ResultsTrue, Drained;
      ResultsBegin(Jobs(), results, |repos|);
      drained := SettleEach(results);
      if drained.Some? {
        LedgerEnd(Jobs(), drained.value);
        SettledPhases(Jobs(), results, |repos|, drained.value);
        Conclude();
      }
      if faults == old(faults) && AllOk(results) {
        CleanEnd(Jobs(), old(out), out);
      }
    }

    /** The loop over the results. */
    method SettleEach(results: map<Name, bool>) returns (drained: Option<nat>)
      requires Valid() && Control().Draining? && results.Keys == Jobs().Keys == StagedNames(out)
      requires ResultsTrue(Jobs(), results, results.Keys, |repos|)
      modifies `out, `host, `run, `faults, `drain
      ensures Valid() && old(run) <= run
      ensures OnlyJobs(old(host), host) && faults >= old(faults)
      ensures drained.Some? ==> Ledger(Jobs(), {}, drained.value) && ResultsTrue(Jobs(), results, {}, |repos|)
      ensures drained.None? ==> faults > old(faults)
      ensures faults == old(faults) && AllOk(results) ==> Clean(Jobs(), {}, old(out), out)
    {
      hide Drain.Underway, Drain.DrainedDisk, IsChain, Ledger, Clean;
      var left, count := results.Keys, 0;
      LedgerBegins(Jobs(), left, out);
      while left != {}
        invariant Valid() && old(run) <= run
        invariant OnlyJobs(old(host), host) && faults >= old(faults)
        invariant left <= results.Keys && Ledger(Jobs(), left, count)
        invariant ResultsTrue(Jobs(), results, left, |repos|)
        invariant faults == old(faults) && AllOk(results) ==> Clean(Jobs(), left, old(out), out)
        decreases left
      {
        var seg :| seg in left;
        ghost var jobs := Jobs();
        var done := SettleNext(seg, results[seg], left, count, old(out));
        if !done {
          return None;
        }
        ResultSettled(jobs, Jobs(), results, left, |repos|, seg);
        left, count := left - {seg}, count + if results[seg] then 1 else 0;
      }
      return Some(count);
    }

    /** Settle one segment and enter it in the ledger. */
    method SettleNext(seg: Name, ok: bool, ghost left: set<Name>, ghost count: nat, ghost out0: Spool)
      returns (done: bool)
      requires Valid() && Control().Draining? && seg in left && Ledger(Jobs(), left, count)
      requires WorkerDone(Jobs(), seg, ok, |repos|)
      modifies `out, `host, `run, `faults, `drain
      ensures Valid() && old(run) <= run && faults >= old(faults)
      ensures Control().Draining? && seg in Jobs() && OnlyJob(old(host), host, seg, Jobs()[seg])
      ensures done ==> Jobs()[seg] == old(Jobs()[seg]).(phase := if ok then Drain.Archived else Drain.Rejected)
      ensures done ==> faults == old(faults) && Ledger(Jobs(), left - {seg}, count + if ok then 1 else 0)
      ensures done && ok && Clean(old(Jobs()), left, out0, old(out)) ==> Clean(Jobs(), left - {seg}, out0, out)
      ensures !done ==> faults > old(faults)
    {
      hide Drain.Underway, Drain.DrainedDisk, IsChain;
      ghost var jobs, during := Jobs(), out;
      done := Settle(seg, ok);
      if done {
        LedgerStep(jobs, Jobs(), left, seg, count, ok);
        if ok && Clean(jobs, left, out0, during) {
          CleanStep(jobs, Jobs(), left, seg, out0, during, out);
        }
      }
    }

    /** Every worker's job to its end: copies made in any interleaving, `out/` not changed. */
    method RunWorkers(suffix: Suffix, segments: seq<Name>) returns (results: map<Name, bool>)
      requires AboutToDrain(suffix, segments)
      modifies `repos, `host, `run, `faults, `drain, `blamed
      ensures Valid() && old(run) <= run && |repos| == |old(repos)|
      ensures OnlyJobs(old(host), host) && faults >= old(faults)
      ensures results.Keys == Jobs().Keys
      ensures forall name :: name in results ==> WorkerDone(Jobs(), name, results[name], |repos|)
      ensures |Refused(results)| <= faults - old(faults)
    {
      hide Drain.Underway, Drain.DrainedDisk, IsChain, Todo, Workers;
      // per unfinished worker, the next target it copies to
      var next: map<Name, nat> := map name | name in segments :: 0;
      results := map[];
      WorkersBegin(Jobs(), next, |repos|);
      while next.Keys != {}
        invariant |repos| == |old(repos)| && Valid() && old(run) <= run && faults >= old(faults)
        invariant OnlyJobs(old(host), host)
        invariant Workers(Jobs(), next, results, |repos|)
        invariant forall name :: name in next ==> Staged(name) in out
        invariant |Refused(results)| <= faults - old(faults)
        decreases Todo(next, |repos|)
      {
        next, results := PoolTick(suffix, next, results);
      }
      WorkersEnd(Jobs(), next, results, |repos|);
    }

    /** The scheduler lets any one of the unfinished workers go on by one operation. */
    method PoolTick(suffix: Suffix, next: map<Name, nat>, results: map<Name, bool>)
      returns (next': map<Name, nat>, results': map<Name, bool>)
      requires Valid() && Control().Draining? && Control().suffix == suffix && next.Keys != {}
      requires Workers(Jobs(), next, results, |repos|) && forall name :: name in next ==> Staged(name) in out
      modifies `repos, `host, `run, `faults, `drain, `blamed
      ensures Valid() && old(run) <= run && |repos| == |old(repos)| && faults >= old(faults)
      ensures OnlyJobs(old(host), host) && Workers(Jobs(), next', results', |repos|)
      ensures Later(next, results, next', results', |repos|, faults - old(faults))
    {
      hide Drain.Underway, Drain.DrainedDisk, IsChain;
      var seg :| seg in next.Keys;
      if next[seg] == |repos| {
        WorkerEnds(Jobs(), Jobs(), next, results, |repos|, seg, true);
        return next - {seg}, results[seg := true];
      }
      next', results' := CopyTick(suffix, next, results, seg);
    }

    /** The worker of `seg` makes its next copy, or ends by a failure. */
    method CopyTick(suffix: Suffix, next: map<Name, nat>, results: map<Name, bool>, seg: Name)
      returns (next': map<Name, nat>, results': map<Name, bool>)
      requires Valid() && Control().Draining? && Control().suffix == suffix && seg in next && next[seg] < |repos|
      requires Workers(Jobs(), next, results, |repos|) && Staged(seg) in out
      modifies `repos, `host, `run, `faults, `drain, `blamed
      ensures Valid() && old(run) <= run && |repos| == |old(repos)| && faults >= old(faults)
      ensures OnlyJobs(old(host), host) && Workers(Jobs(), next', results', |repos|)
      ensures Later(next, results, next', results', |repos|, faults - old(faults))
    {
      hide Drain.Underway, Drain.DrainedDisk, IsChain;
      ghost var jobs := Jobs();
      var ok := WorkerTick(suffix, seg, next[seg]);
      if ok {
        WorkerCopies(jobs, Jobs(), next, results, |repos|, seg);
        return next[seg := next[seg] + 1], results;
      }
      WorkerEnds(jobs, Jobs(), next, results, |repos|, seg, false);
      return next - {seg}, results[seg := false];
    }

    /** A worker's next operation: read the staged file if it has just begun, then copy to target `i`. */
    method WorkerTick(suffix: Suffix, seg: Name, i: nat) returns (ok: bool)
      requires Valid() && Control().Draining? && Control().suffix == suffix && i < |repos|
      requires seg in Jobs() && CopiedBefore(Jobs()[seg], i) && Staged(seg) in out
      modifies `repos, `host, `run, `faults, `drain, `blamed
      ensures Valid() && old(run) <= run && |repos| == |old(repos)|
      ensures faults == old(faults) + if ok then 0 else 1
      ensures ok ==> OnlyJob(old(host), host, seg, WithCopy(old(Jobs()[seg]), i))
      ensures !ok ==> OnlyJob(old(host), host, seg, old(Jobs()[seg]).(failed := true))
    {
      if i == 0 {
        ok := Begin(seg);
        if !ok {
          return;
        }
      }
      NothingBlamed(Drain.State(host.disk, Jobs()), blamed, seg);
      ok := CopyTo(suffix, seg, out[Staged(seg)], i);
    }

    // ----- The drain

    /** Drain the whole backlog; nothing but the listing decides what is drained. */
    method DrainOut(suffix: Suffix, pool: Pool) returns (drained: Option<nat>)
      requires Valid() && Control().Draining? && Control().suffix == suffix && Jobs() == Drain.StartJobs(out)
      modifies `out, `repos, `host, `run, `faults, `drain, `blamed
      ensures Valid() && old(run) <= run && |repos| == |old(repos)|
      ensures OnlyJobs(old(host), host) && faults >= old(faults)
      ensures drained.Some? ==> DrainOver() && drained.value == |ArchivedNames(Jobs())|
      // and each segment that was not archived cost an operation that failed
      ensures drained.Some? ==> |Jobs().Keys| <= drained.value + (faults - old(faults))
      ensures drained.None? ==> faults > old(faults)
      ensures faults == old(faults) ==> ArchivedNames(Jobs()) == Jobs().Keys && Drained(old(out), out, Jobs().Keys)
    {
      hide Drain.Underway, Drain.DrainedDisk, IsChain;
      var listed := Probe();
      if !listed {
        return None;
      }
      var segments := ListStaged();
      DistinctCount(segments, Jobs().Keys);
      if pool.processMax > 1 && pool.allLocal && |segments| > 1 && |repos| > 0 {
        drained := DrainPool(suffix, segments);
      } else {
        drained := DrainSerial(suffix, segments, pool);
      }
    }

    /** A drain on its own, outside any push. */
    method DrainPushSpool(suffix: Suffix, pool: Pool) returns (drained: Option<nat>)
      requires Valid() && Control().Idle?
      modifies `out, `repos, `host, `run, `faults, `drain, `blamed, `drain0
      ensures Valid() && old(run) <= run && |repos| == |old(repos)| && Control().Idle?
      ensures host.acks == old(host).acks && host.accepted == old(host).accepted && faults >= old(faults)
      ensures drained.None? ==> faults > old(faults)
      // however it went, the disk is what the copies that failed make of the disk before
      ensures drained.Some? && repos != [] ==>
        Drain.DrainedDisk(Drain.Plan(suffix, w.codec), Drain.FailsOf(blamed), old(Disk(out, repos)), Disk(out, repos))
      // the count is of the segments that are no longer staged
      ensures drained.Some? ==> drained.value == |StagedNames(old(out)) - StagedNames(out)|
      // and each segment that was not archived cost an operation that failed
      ensures drained.Some? ==> |StagedNames(old(out))| <= drained.value + (faults - old(faults))
      ensures faults == old(faults) ==>
        Drained(old(out), out, StagedNames(old(out))) && drained.Some? && drained.value == |StagedNames(old(out))|
    {
      hide Drain.Underway, Drain.DrainedDisk, IsChain;
      RecordBegin(BeginDrain(suffix));
      drained := DrainOut(suffix, pool);
      if drained.Some? {
        LeaveDrain(None);
      } else {
        GiveUp();
      }
    }

    // ----- The push

    /** The total size of the segments staged or of those in the WAL directory; unlisted, they count nothing. */
    method MeasureBacklog(req: Request) returns (n: nat)
      modifies `faults
      ensures faults >= old(faults)
      ensures faults == old(faults) ==> n == Backlog(req, out)
      ensures faults != old(faults) ==> n == 0
    {
      var listed := Probe();
      if !listed {
        return 0;
      }
      if req.async {
        n := SumSizes(out, StagedFiles(out));
      } else {
        n := SumSizes(req.wal, WalSegments(req.wal));
      }
    }

    /** Look for a status of the segment, and take it away when there is one. */
    method ConsumeStatus(req: Request) returns (found: Consumed)
      requires Valid()
      requires (Control().Idle? && req.async) || Control() == Confirming(req)
      modifies `out, `host, `run, `faults
      ensures Valid() && old(run) <= run && host.accepted == old(host).accepted
      ensures found.Broken? <==> faults > old(faults)
      ensures faults >= old(faults)
      ensures match found
        case Broken => host == old(host) && out == old(out)
        case NoStatus =>
          host == old(host) && out == old(out) && OkStatus(req.name) !in out && ErrorStatus(req.name) !in out
        case Answer(true) =>
          && Control().Idle? && OkStatus(req.name) in old(out) && out == old(out) - {OkStatus(req.name)}
          && host.acks == old(host).acks + {Stored(req.name)}
        case Answer(false) =>
          && Control().Idle? && OkStatus(req.name) !in old(out) && ErrorStatus(req.name) in old(out)
          && out == old(out) - {ErrorStatus(req.name)} && host.acks == old(host).acks
    {
      hide Drain.Underway, Drain.DrainedDisk, IsChain;
      var ok := Probe();
      if !ok {
        return Broken;
      }
      if OkStatus(req.name) in out {
        ok := RemoveOut(OkStatus(req.name));
        if !ok {
          return Broken;
        }
        Record(if Control().Idle? then TakeOk(req) else ConfirmOk);
        return Answer(true);
      }
      ok := Probe();
      if !ok {
        return Broken;
      }
      if ErrorStatus(req.name) in out {
        ok := RemoveOut(ErrorStatus(req.name));
        if !ok {
          return Broken;
        }
        Record(if Control().Idle? then TakeError(req) else ConfirmError);
        return Answer(false);
      }
      return NoStatus;
    }

    /** `archive-push`. The result is whether the command reports success. */
    method Push(req: Request, gate: Gate, pool: Pool) returns (ok: bool)
      requires Valid() && Control().Idle?
      modifies `out, `repos, `host, `run, `faults, `drain, `blamed, `drain0
      ensures Valid() && old(run) <= run && |repos| == |old(repos)| && Control().Idle? && faults >= old(faults)
      // success is never claimed without grounds
      ensures ok ==>
        Stored(req.name) in host.acks || (QueueReached(req, old(out)) && Disk(out, repos) == old(Disk(out, repos)))
      // and when no operation fails the answer and what is left in `out/` are known beforehand
      ensures faults == old(faults) ==> ok == Succeeds(req, gate, old(out), |repos|)
      ensures faults == old(faults) ==> PushedOut(req, gate, old(out), out, |repos|)
      // a backlog that has come to the limit drops the segment, and one below it does not
      ensures faults == old(faults) && repos != [] && !gate.stopped && req.limit.Some? ==>
        (Backlog(req, old(out)) >= req.limit.value ==> ok && Disk(out, repos) == old(Disk(out, repos)))
        && (Backlog(req, old(out)) < req.limit.value && ok ==> Stored(req.name) in host.acks)
      // and so is what every repository holds
      ensures ok && !req.async ==>
        || PushedTo(w, req, old(repos), repos, |repos|)
        || (QueueReached(req, old(out)) && Disk(out, repos) == old(Disk(out, repos)))
      ensures faults == old(faults) ==> PushedRepos(w, req, gate, old(out), old(repos), repos)
      // a synchronous push that fails has sent its copy to the first repositories only
      ensures !req.async ==> exists k: nat :: k <= |repos| && PushedTo(w, req, old(repos), repos, k)
    {
      hide Drain.Underway, Drain.DrainedDisk, IsChain, DrainedTo;
      assert PushedTo(w, req, repos, repos, 0);
      if |repos| == 0 || gate.stopped {
        return false;
      }
      var backlog := MeasureBacklog(req);
      if req.limit.Some? && backlog >= req.limit.value {
        if faults == old(faults) {
          Record(Drop(req));
        }
        return true;
      }
      if !gate.stanzaCreated {
        return false;
      }
      if req.async {
        ok := PushAsync(req, gate, pool);
      } else {
        ok := PushSync(req, gate);
      }
    }

    method PushAsync(req: Request, gate: Gate, pool: Pool) returns (ok: bool)
      requires Valid() && Control().Idle? && req.async
      modifies `out, `repos, `host, `run, `faults, `drain, `blamed, `drain0
      ensures Valid() && old(run) <= run && |repos| == |old(repos)| && Control().Idle? && faults >= old(faults)
      ensures ok ==> Stored(req.name) in host.acks
      ensures faults == old(faults) ==> ok == SucceedsAsync(req, gate, old(out))
      ensures faults == old(faults) ==> PushedOutAsync(req, gate, old(out), out)
      ensures faults == old(faults) ==>
        if Stages(req, gate, old(out)) then
          DrainedTo(w, req.suffix, old(out)[Staged(req.name) := w.content(req.name)], old(repos), repos)
        else
          repos == old(repos)
    {
      hide Drain.Underway, Drain.DrainedDisk, IsChain, DrainedTo;
      var found := ConsumeStatus(req);
      match found {
        case Answer(outcome) => return outcome;
        case Broken => return false;
        case NoStatus =>
      }
      var read := Probe();
      if !read || !gate.headerMatches {
        return false;
      }
      ok := StageAndDrain(req, pool);
    }

    /** An asynchronous push once nothing stands in its way: stage the segment, then drain. */
    method StageAndDrain(req: Request, pool: Pool) returns (ok: bool)
      requires Valid() && Control().Idle? && req.async
      requires Enabled(host, BeginAsync(req))
      modifies `out, `repos, `host, `run, `faults, `drain, `blamed, `drain0
      ensures Valid() && old(run) <= run && |repos| == |old(repos)| && Control().Idle? && faults >= old(faults)
      ensures ok ==> Stored(req.name) in host.acks
      ensures faults == old(faults) ==>
        ok && forall f :: f in out <==>
          f in AfterDrain(old(out)[Staged(req.name) := w.content(req.name)]) && f != OkStatus(req.name)
      ensures faults == old(faults) ==>
        DrainedTo(w, req.suffix, old(out)[Staged(req.name) := w.content(req.name)], old(repos), repos)
    {
      hide Drain.Underway, Drain.DrainedDisk, IsChain, DrainedTo;
      Record(BeginAsync(req));
      var staged := WriteOut(Staged(req.name), w.content(req.name));
      if !staged {
        GiveUp();
        return false;
      }
      RecordBegin(Stage);
      ok := DrainAndConfirm(req, pool);
    }

    /** The second half of an asynchronous push: drain everything staged, then read the answer. */
    method DrainAndConfirm(req: Request, pool: Pool) returns (ok: bool)
      requires Valid() && Control() == Draining(Some(req), req.suffix, Drain.StartJobs(out)) && Staged(req.name) in out
      requires drain0 == Disk(out, repos)
      modifies `out, `repos, `host, `run, `faults, `drain, `blamed
      ensures Valid() && old(run) <= run && |repos| == |old(repos)| && Control().Idle? && faults >= old(faults)
      ensures ok ==> Stored(req.name) in host.acks
      ensures faults == old(faults) ==>
        ok && forall f :: f in out <==> f in AfterDrain(old(out)) && f != OkStatus(req.name)
      ensures faults == old(faults) ==> DrainedTo(w, req.suffix, old(out), old(repos), repos)
    {
      hide Drain.Underway, Drain.DrainedDisk, IsChain, DrainedTo;
      assert Staged(req.name) in out;
      var drained := DrainBacklog(req, pool);
      if !drained {
        return false;
      }
      ok := Confirm(req);
    }

    /** The drain of a push, to its end. */
    method DrainBacklog(req: Request, pool: Pool) returns (drained: bool)
      requires Valid() && Control() == Draining(Some(req), req.suffix, Drain.StartJobs(out))
      requires drain0 == Disk(out, repos)
      modifies `out, `repos, `host, `run, `faults, `drain, `blamed
      ensures Valid() && old(run) <= run && |repos| == |old(repos)| && faults >= old(faults)
      ensures Control() == if drained then Confirming(req) else Idle
      ensures faults == old(faults) ==> drained && out.Keys == AfterDrain(old(out))
      ensures faults == old(faults) ==> DrainedTo(w, req.suffix, old(out), old(repos), repos)
    {
      hide Drain.Underway, Drain.DrainedDisk, IsChain, DrainedTo;
      var count := DrainOut(req.suffix, pool);
      if count.None? {
        GiveUp();
        return false;
      }
      if faults == old(faults) {
        EverythingDrained(w, req.suffix, blamed, old(out), old(repos), Jobs(), Disk(out, repos));
        DrainedIsAfterDrain(old(out), out);
      }
      LeaveDrain(Some(req));
      return true;
    }

    /** The answer to a push whose drain has ended. */
    method Confirm(req: Request) returns (ok: bool)
      requires Valid() && Control() == Confirming(req)
      modifies `out, `host, `run, `faults
      ensures Valid() && old(run) <= run && Control().Idle? && faults >= old(faults)
      ensures ok ==> Stored(req.name) in host.acks
      ensures faults == old(faults) && OkStatus(req.name) in old(out) ==>
        ok && out == old(out) - {OkStatus(req.name)}
    {
      hide Drain.Underway, Drain.DrainedDisk, IsChain;
      var found := ConsumeStatus(req);
      match found {
        case Answer(outcome) => return outcome;
        case Broken => GiveUp(); return false;
        case NoStatus =>
      }
      ok := ConfirmInAllRepos(req);
      if ok {
        FoundHeld(req);
      } else {
        GiveUp();
      }
    }

    /** The last resort when the drain left no status: look in every repository. */
    method ConfirmInAllRepos(req: Request) returns (ok: bool)
      modifies `faults
      ensures faults >= old(faults)
      ensures ok ==> HeldByAll(repos, req.name)
      ensures faults == old(faults) ==> (ok <==> HeldByAll(repos, req.name))
    {
      var i := 0;
      while i < |repos|
        invariant 0 <= i <= |repos| && faults >= old(faults)
        invariant forall j :: 0 <= j < i ==> Holds(repos[j], req.name)
      {
        var probed := Probe();
        if !probed || !Holds(repos[i], req.name) {
          return false;
        }
        i := i + 1;
      }
      return true;
    }

    /** One repository's copy of a synchronous push; a failed write ends the push. */
    method CopyNow(req: Request, i: nat, bytes: Bytes) returns (ok: bool)
      requires Valid() && Control() == Copying(req, i) && i < |repos| && bytes == w.content(req.name)
      modifies `repos, `host, `run, `faults, `blamed
      ensures Valid() && old(run) <= run && faults == old(faults) + if ok then 0 else 1
      ensures Control() == if ok then Copying(req, i + 1) else Idle
      ensures ok ==>
        repos == old(repos)[i := old(repos[i])[RepoFile(req.name, req.suffix) := w.codec.forward(req.suffix, i, bytes)]]
      ensures !ok ==> repos == old(repos)
    {
      hide Drain.Underway, Drain.DrainedDisk, IsChain;
      ok := WriteRepo(i, RepoFile(req.name, req.suffix), w.codec.forward(req.suffix, i, bytes));
      if ok {
        Record(CopyNext);
      } else {
        GiveUp();
      }
    }

    method PushSync(req: Request, gate: Gate) returns (ok: bool)
      requires Valid() && Control().Idle? && !req.async
      modifies `repos, `host, `run, `faults, `blamed
      ensures Valid() && old(run) <= run && |repos| == |old(repos)| && Control().Idle? && faults >= old(faults)
      ensures ok ==> Stored(req.name) in host.acks && PushedTo(w, req, old(repos), repos, |repos|)
      ensures exists k: nat :: k <= |repos| && PushedTo(w, req, old(repos), repos, k)
      ensures faults == old(faults) ==> ok == gate.headerMatches && (ok || repos == old(repos))
    {
      hide Drain.Underway, Drain.DrainedDisk, IsChain;
      assert PushedTo(w, req, repos, repos, 0);
      var read := Probe();
      if !read || !gate.headerMatches {
        return false;
      }
      var bytes := w.content(req.name);
      Record(BeginSync(req));
      var i := 0;
      while i < |repos|
        invariant 0 <= i <= |repos| == |old(repos)|
        invariant Valid() && old(run) <= run && faults == old(faults)
        invariant Control() == Copying(req, i)
        invariant PushedTo(w, req, old(repos), repos, i)
      {
        var sent := CopyNow(req, i, bytes);
        if !sent {
          return false;
        }
        i := i + 1;
      }
      Record(EndCopy);
      return true;
    }
  }

  /** The copies of a segment to `n` targets; to the first one at least. */
  ghost function AllCopies(seg: Name, n: nat): (copies: set<(Name, nat)>)
    ensures copies != {}
    ensures forall b :: b in copies ==> b.0 == seg && (n > 0 ==> b.1 < n)
  {
    var copies := (set i | i in Indices(n) :: (seg, i)) + {(seg, 0)};
    assert (seg, 0) in copies;
    copies
  }

  /** Something that was not made has failed for a segment, and nothing for another. */
  ghost predicate BlamesSegment(blamed: set<(Name, nat)>, before: set<(Name, nat)>, jobs: Drain.Jobs, seg: Name, n: nat)
    requires seg in jobs
  {
    && before < blamed
    && forall b :: b in blamed - before ==> b.0 == seg && b.1 !in jobs[seg].written && (n > 0 ==> b.1 < n)
  }

  datatype Consumed = Answer(ok: bool) | NoStatus | Broken

  /** The first `k` repositories have got the pushed segment; nothing else has changed. */
  ghost predicate PushedTo(w: World, req: Request, before: seq<Repo>, after: seq<Repo>, k: nat) {
    && |before| == |after|
    && (forall i :: k <= i < |before| ==> after[i] == before[i])
    && (forall i :: 0 <= i < k && i < |before| ==>
          after[i] == before[i][RepoFile(req.name, req.suffix) := w.codec.forward(req.suffix, i, w.content(req.name))])
  }

  /** Every repository has got the staged segments in the form of the suffix; nothing else about it has changed. */
  ghost predicate DrainedTo(w: World, suffix: Suffix, staged: Spool, before: seq<Repo>, after: seq<Repo>) {
    && |before| == |after|
    && forall i, f :: 0 <= i < |before| ==> FileDrainedTo(w, suffix, staged, before[i], after[i], i, f)
  }

  ghost predicate FileDrainedTo(w: World, suffix: Suffix, staged: Spool, before: Repo, after: Repo, i: nat,
      f: RepoFile) {
    if f.suffix == suffix && Staged(f.name) in staged then
      f in after && after[f] == w.codec.forward(suffix, i, staged[Staged(f.name)])
    else
      (f in after <==> f in before) && (f in after ==> after[f] == before[f])
  }

  /** Where every segment is archived the closed form of the drain comes to this. */
  lemma EverythingDrained(w: World, suffix: Suffix, blamed: set<(Name, nat)>, staged: Spool, before: seq<Repo>,
      jobs: Drain.Jobs, disk: Disk)
    requires jobs.Keys == StagedNames(staged) && |disk.repos| == |before|
    requires forall name :: name in jobs ==> !Drain.Blamed(blamed, name)
    requires before != [] ==>
      Drain.DrainedDisk(Drain.Plan(suffix, w.codec), Drain.FailsOf(blamed), Disk(staged, before), disk)
    ensures DrainedTo(w, suffix, staged, before, disk.repos)
  {
    var plan, fails, disk0 := Drain.Plan(suffix, w.codec), Drain.FailsOf(blamed), Disk(staged, before);
    forall i, f | 0 <= i < |before| ensures FileDrainedTo(w, suffix, staged, before[i], disk.repos[i], i, f) {
      assert Drain.RepoFileDrained(plan, fails, disk0, disk, i, f);
      if Staged(f.name) in staged {
        assert f.name in jobs;
        assert !Drain.FailsSomewhere(fails, f.name, |before|);
      }
    }
  }

  /** An asynchronous push comes to staging its segment. */
  ghost predicate Stages(req: Request, gate: Gate, out: Spool) {
    OkStatus(req.name) !in out && ErrorStatus(req.name) !in out && gate.headerMatches
  }

  /** What a push leaves in the repositories when nothing fails. */
  ghost predicate PushedRepos(w: World, req: Request, gate: Gate, out: Spool, before: seq<Repo>, after: seq<Repo>) {
    if before == [] || gate.stopped || QueueReached(req, out) || !gate.stanzaCreated then
      after == before
    else if req.async && Stages(req, gate, out) then
      DrainedTo(w, req.suffix, out[Staged(req.name) := w.content(req.name)], before, after)
    else if !req.async && gate.headerMatches then
      PushedTo(w, req, before, after, |before|)
    else
      after == before
  }

  /** The files of `out/` after its whole backlog has been drained: a `.ok` for every staged segment. */
  ghost function AfterDrain(before: Spool): set<SpoolFile> {
    (set f | f in before && !f.Staged?) + (set f | f in before && f.Staged? :: OkStatus(f.name))
  }

  lemma NothingBlamed(st: Drain.State, blamed: set<(Name, nat)>, seg: Name)
    requires Drain.BlameTrue(st, blamed) && seg in st.jobs && !st.jobs[seg].failed
    ensures forall i :: (seg, i) !in blamed
  {
    forall i ensures (seg, i) !in blamed {
      if (seg, i) in blamed { assert Drain.Blamed(blamed, seg); }
    }
  }

  lemma PrepareBlames(blamed: set<(Name, nat)>, before: set<(Name, nat)>, jobs: Drain.Jobs, seg: Name, n: nat)
    requires seg in jobs && jobs[seg].written == {} && blamed == before + AllCopies(seg, n)
    requires forall i :: (seg, i) !in before
    ensures BlamesSegment(blamed, before, jobs, seg, n)
  {
    var b :| b in AllCopies(seg, n);
    assert b in blamed && b !in before;
  }

  lemma DrainedIsAfterDrain(before: Spool, after: Spool)
    requires Drained(before, after, StagedNames(before))
    ensures after.Keys == AfterDrain(before)
  {
    forall f ensures f in after.Keys <==> f in AfterDrain(before) {
      match f
      case OkStatus(name) =>
        if name in StagedNames(before) { assert Staged(name) in before; }
      case Staged(name) =>
        if f in before { assert name in StagedNames(before); }
      case ErrorStatus(_) =>
    }
  }

  /** What an asynchronous push answers when nothing fails. */
  ghost predicate SucceedsAsync(req: Request, gate: Gate, out: Spool) {
    OkStatus(req.name) in out || (ErrorStatus(req.name) !in out && gate.headerMatches)
  }

  ghost predicate Succeeds(req: Request, gate: Gate, out: Spool, n: nat) {
    n > 0 && !gate.stopped && (QueueReached(req, out) ||
      (gate.stanzaCreated && if req.async then SucceedsAsync(req, gate, out) else gate.headerMatches))
  }

  /** What an asynchronous push leaves in `out/` when nothing fails. */
  ghost predicate PushedOutAsync(req: Request, gate: Gate, before: Spool, after: Spool) {
    if OkStatus(req.name) in before then
      after == before - {OkStatus(req.name)}
    else if ErrorStatus(req.name) in before then
      after == before - {ErrorStatus(req.name)}
    else if !gate.headerMatches then
      after == before
    else
      // the whole backlog is gone, each segment but the pushed one leaving its `.ok`
      after.Keys == AfterDrain(before) - {OkStatus(req.name)}
  }

  ghost predicate PushedOut(req: Request, gate: Gate, before: Spool, after: Spool, n: nat) {
    if n > 0 && !gate.stopped && !QueueReached(req, before) && gate.stanzaCreated && req.async then
      PushedOutAsync(req, gate, before, after)
    else
      after == before
  }

  /**
   * Whatever pushes and drains a host has run, wherever the last of them
   * stopped: the guarantees of every history hold of it.
   */
  lemma HostIsSafe(a: Archiver, repos0: seq<Repo>)
    requires a.Valid() && a.run[0] == Host(Disk(map[], repos0), Idle, {}, {})
    requires Lossless(a.w.codec) && ReposFaithful(a.w.codec, a.w.content, repos0)
    // after every storage operation there was
    ensures forall k :: 0 <= k < |a.run| ==> Safe(a.run[k]) && Faithful(a.w, a.run[k].disk)
    // and now
    ensures forall name :: name in a.host.accepted ==> Staged(name) in a.out || HeldByAll(a.repos, name)
    ensures forall name :: OkStatus(name) in a.out || Stored(name) in a.host.acks ==> HeldByAll(a.repos, name)
    ensures Faithful(a.w, Disk(a.out, a.repos))
  {
    forall k | 0 <= k < |a.run| ensures Safe(a.run[k]) && Faithful(a.w, a.run[k].disk) {
      HistorySafe(a.w, a.run, k);
    }
    assert a.run[|a.run| - 1] == a.host;
  }

  function WithCopy(job: Drain.Job, i: nat): Drain.Job {
    job.(written := job.written + {i})
  }

  /** The segment has been copied to exactly the targets before `i`. */
  ghost predicate CopiedBefore(job: Drain.Job, i: nat) {
    job.phase == Drain.Copying && !job.failed && forall j :: j in job.written <==> 0 <= j < i
  }

  /** The workers' results are true of their jobs, and the jobs `left` are not settled. */
  ghost predicate ResultsTrue(jobs: Drain.Jobs, results: map<Name, bool>, left: set<Name>, n: nat) {
    && results.Keys == jobs.Keys && left <= results.Keys
    && (forall name :: name in results ==> (jobs[name].failed <==> !results[name]))
    && (forall name :: name in left ==> WorkerDone(jobs, name, results[name], n))
  }

  lemma ResultSettled(jobs: Drain.Jobs, jobs': Drain.Jobs, results: map<Name, bool>, left: set<Name>, n: nat, seg: Name)
    requires ResultsTrue(jobs, results, left, n) && seg in left
    requires seg in jobs' && jobs' == jobs[seg := jobs'[seg]] && jobs'[seg].failed == jobs[seg].failed
    ensures ResultsTrue(jobs', results, left - {seg}, n)
  {
  }

  /** The targets not `left` have been tried: without a failure they have the copy. */
  ghost predicate Tried(job: Drain.Job, blamed: set<(Name, nat)>, seg: Name, left: set<nat>, n: nat) {
    && (forall j :: j in job.written ==> j in Indices(n) && j !in left)
    && (!job.failed ==> forall j :: j in Indices(n) && j !in left ==> j in job.written)
    && (forall j :: j in left ==> (seg, j) !in blamed)
  }

  ghost predicate WorkerDone(jobs: Drain.Jobs, seg: Name, ok: bool, n: nat) {
    && seg in jobs && jobs[seg].phase == Drain.Copying && (jobs[seg].failed <==> !ok)
    && (ok ==> Drain.Everywhere(jobs[seg], n))
  }

  /** The workers of a pool: some at work, each at its next target, and some ended, each with its result. */
  ghost predicate Workers(jobs: Drain.Jobs, next: map<Name, nat>, results: map<Name, bool>, n: nat) {
    && next.Keys !! results.Keys && next.Keys + results.Keys == jobs.Keys
    && (forall name :: name in next ==> next[name] <= n && CopiedBefore(jobs[name], next[name]))
    && (forall name :: name in results ==> WorkerDone(jobs, name, results[name], n))
  }

  lemma WorkersBegin(jobs: Drain.Jobs, next: map<Name, nat>, n: nat)
    requires next.Keys == jobs.Keys
    requires forall name :: name in jobs ==> jobs[name] == Drain.Job({}, false, Drain.Copying) && next[name] == 0
    ensures Workers(jobs, next, map[], n)
  {
  }

  lemma WorkersEnd(jobs: Drain.Jobs, next: map<Name, nat>, results: map<Name, bool>, n: nat)
    requires Workers(jobs, next, results, n) && next.Keys == {}
    ensures results.Keys == jobs.Keys && forall name :: name in results ==> WorkerDone(jobs, name, results[name], n)
  {
  }

  predicate AllOk(results: map<Name, bool>) {
    forall name :: name in results ==> results[name]
  }

  lemma NoneRefused(results: map<Name, bool>)
    requires |Refused(results)| == 0
    ensures AllOk(results)
  {
    forall name | name in results ensures results[name] {
      assert name !in Refused(results);
    }
  }

  /** The segments of the workers that failed. */
  function Refused(results: map<Name, bool>): set<Name> {
    set name | name in results && !results[name]
  }

  /** The pool has gone on: less is to be done, and no worker has failed but by one of the faults there were. */
  ghost predicate Later(next: map<Name, nat>, results: map<Name, bool>, next': map<Name, nat>,
      results': map<Name, bool>, n: nat, faults: nat) {
    && next'.Keys <= next.Keys && Todo(next', n) < Todo(next, n)
    && |Refused(results')| <= |Refused(results)| + faults
  }

  lemma WorkerCopies(jobs: Drain.Jobs, jobs': Drain.Jobs, next: map<Name, nat>, results: map<Name, bool>, n: nat,
      seg: Name)
    requires Workers(jobs, next, results, n) && seg in next && next[seg] < n
    requires jobs' == jobs[seg := WithCopy(jobs[seg], next[seg])]
    ensures Workers(jobs', next[seg := next[seg] + 1], results, n)
    ensures Later(next, results, next[seg := next[seg] + 1], results, n, 0)
  {
    assert (seg, next[seg]) in Todo(next, n) - Todo(next[seg := next[seg] + 1], n);
  }

  /** What is still to be done, were nothing to fail: the copies, and each worker's end. */
  ghost function Todo(next: map<Name, nat>, n: nat): set<(Name, nat)> {
    set name, j | name in next && j in Indices(n + 1) && next[name] <= j :: (name, j)
  }

  lemma RefusedGrows(results: map<Name, bool>, seg: Name, ok: bool)
    ensures |Refused(results[seg := ok])| <= |Refused(results)| + if ok then 0 else 1
  {
    var more := Refused(results) + if ok then {} else {seg};
    SubsetCount(Refused(results[seg := ok]), more);
  }

  lemma WorkerEnds(jobs: Drain.Jobs, jobs': Drain.Jobs, next: map<Name, nat>, results: map<Name, bool>, n: nat,
      seg: Name, ok: bool)
    requires Workers(jobs, next, results, n) && seg in next
    requires if ok then jobs' == jobs && next[seg] == n else jobs' == jobs[seg := jobs[seg].(failed := true)]
    ensures Workers(jobs', next - {seg}, results[seg := ok], n)
    ensures Later(next, results, next - {seg}, results[seg := ok], n, if ok then 0 else 1)
  {
    hide Refused;
    assert (seg, n) in Todo(next, n) - Todo(next - {seg}, n);
    RefusedGrows(results, seg, ok);
  }

  /** The sizes of the files added up, in any order. */
  method SumSizes<K(!new)>(files: map<K, Bytes>, keys: set<K>) returns (n: nat)
    requires keys <= files.Keys
    ensures n == TotalSize(files, keys)
  {
    n := 0;
    var rest := keys;
    while rest != {}
      invariant rest <= keys && n + TotalSize(files, rest) == TotalSize(files, keys)
    {
      var f :| f in rest;
      TotalWithout(files, rest, f);
      n, rest := n + |files[f]|, rest - {f};
    }
  }

  function Elements(s: seq<Name>): set<Name> {
    set x | x in s
  }

  lemma ElementsStep(s: seq<Name>, k: nat)
    requires Distinct(s) && k < |s|
    ensures s[k] in Elements(s[k..]) && Elements(s[k + 1..]) == Elements(s[k..]) - {s[k]}
  {
    assert s[k..] == [s[k]] + s[k + 1..];
  }

  lemma DistinctAppend<T>(s: seq<T>, x: T)
    requires Distinct(s) && x !in s
    ensures Distinct(s + [x])
  {
  }

  /** Of the results of a pool those that are archived in the end, and those that failed. */
  lemma RefusedCount(jobs: Drain.Jobs, results: map<Name, bool>)
    requires results.Keys == jobs.Keys
    requires forall name :: name in results ==> (jobs[name].phase == Drain.Archived <==> results[name])
    ensures |ArchivedNames(jobs)| + |Refused(results)| == |results.Keys|
  {
    assert ArchivedNames(jobs) + Refused(results) == results.Keys;
  }

  lemma ResultsBegin(jobs: Drain.Jobs, results: map<Name, bool>, n: nat)
    requires results.Keys == jobs.Keys
    requires forall name :: name in results ==> WorkerDone(jobs, name, results[name], n)
    ensures ResultsTrue(jobs, results, results.Keys, n)
  {
  }

  /** When all results are settled each segment's phase is its worker's result. */
  lemma SettledPhases(jobs: Drain.Jobs, results: map<Name, bool>, n: nat, count: nat)
    requires ResultsTrue(jobs, results, {}, n) && Ledger(jobs, {}, count)
    ensures forall name :: name in results ==>
      jobs[name].phase == if results[name] then Drain.Archived else Drain.Rejected
    ensures count + |Refused(results)| == |results.Keys|
  {
    RefusedCount(jobs, results);
  }

  lemma CleanEnd(jobs: Drain.Jobs, before: Spool, after: Spool)
    requires Clean(jobs, {}, before, after)
    ensures ArchivedNames(jobs) == jobs.Keys && Drained(before, after, jobs.Keys)
  {
    assert jobs.Keys - {} == jobs.Keys;
  }

  function ArchivedNames(jobs: Drain.Jobs): set<Name> {
    set name | name in jobs && jobs[name].phase == Drain.Archived
  }

  /** Every segment but those `left` has its status, and `count` of them were archived. */
  ghost predicate Ledger(jobs: Drain.Jobs, left: set<Name>, count: nat) {
    && left <= jobs.Keys
    && (forall name :: name in jobs ==>
          jobs[name].phase ==
            if name in left then Drain.Copying else if jobs[name].failed then Drain.Rejected else Drain.Archived)
    && count == |ArchivedNames(jobs)|
  }

  lemma LedgerBegins(jobs: Drain.Jobs, left: set<Name>, out: Spool)
    requires left == jobs.Keys && forall name :: name in jobs ==> jobs[name].phase == Drain.Copying
    ensures Ledger(jobs, left, 0) && Clean(jobs, left, out, out)
  {
    assert ArchivedNames(jobs) == {};
  }

  /** No operation has failed: every segment but those `left` is archived, and `out/` is as that leaves it. */
  ghost predicate Clean(jobs: Drain.Jobs, left: set<Name>, before: Spool, after: Spool) {
    && (forall name :: name in jobs && name !in left ==> jobs[name].phase == Drain.Archived)
    && Drained(before, after, jobs.Keys - left)
  }

  lemma LedgerStep(jobs: Drain.Jobs, jobs': Drain.Jobs, left: set<Name>, seg: Name, count: nat, ok: bool)
    requires Ledger(jobs, left, count) && seg in left && seg in jobs' && jobs' == jobs[seg := jobs'[seg]]
    requires jobs'[seg].phase == (if ok then Drain.Archived else Drain.Rejected) && jobs'[seg].failed == !ok
    ensures Ledger(jobs', left - {seg}, count + if ok then 1 else 0)
  {
    assert ArchivedNames(jobs') == if ok then ArchivedNames(jobs) + {seg} else ArchivedNames(jobs);
  }

  lemma CleanStep(jobs: Drain.Jobs, jobs': Drain.Jobs, left: set<Name>, seg: Name, before: Spool, during: Spool,
      after: Spool)
    requires Clean(jobs, left, before, during) && seg in left && seg in jobs' && jobs' == jobs[seg := jobs'[seg]]
    requires seg in jobs
    requires jobs'[seg].phase == Drain.Archived
    requires after == (during - {Staged(seg)})[OkStatus(seg) := []]
    ensures Clean(jobs', left - {seg}, before, after)
  {
  }

  lemma LedgerEnd(jobs: Drain.Jobs, count: nat)
    requires Ledger(jobs, {}, count)
    ensures forall name :: name in jobs ==>
      jobs[name].phase == if jobs[name].failed then Drain.Rejected else Drain.Archived
    ensures count == |ArchivedNames(jobs)|
    ensures (forall name :: name in jobs ==> jobs[name].phase == Drain.Archived) ==> ArchivedNames(jobs) == jobs.Keys
  {
  }

  /** `out/` after the segments `done` have been drained without a fault. */
  ghost predicate Drained(before: Spool, after: Spool, done: set<Name>) {
    forall f :: f in after <==>
      match f
      case Staged(name) => f in before && name !in done
      case OkStatus(name) => f in before || name in done
      case ErrorStatus(_) => f in before
  }

  ghost predicate SameOtherwise(h: Host, h': Host)
    requires h.control.Draining? && h'.control.Draining?
  {
    && h'.acks == h.acks && h'.accepted == h.accepted
    && h'.control.caller == h.control.caller && h'.control.suffix == h.control.suffix
  }

  /** From `h` to `h'` only the progress of the drain and the disk have changed. */
  ghost predicate OnlyJobs(h: Host, h': Host) {
    && h.control.Draining? && h'.control.Draining? && h.control.jobs.Keys == h'.control.jobs.Keys
    && SameOtherwise(h, h')
  }

  /** During a drain, from `h` to `h'` only the job of `seg` (and the disk) has changed. */
  ghost predicate OnlyJob(h: Host, h': Host, seg: Name, job: Drain.Job) {
    && h.control.Draining? && h'.control.Draining? && h'.control.jobs == h.control.jobs[seg := job]
    && SameOtherwise(h, h')
  }

  /** The targets of `seg` have been tried: every one has it, or some operation failed. */
  ghost predicate OneDrained(h: Host, h': Host, seg: Name, ok: bool) {
    && h'.control.Draining? && seg in h'.control.jobs
    && OnlyJob(h, h', seg, h'.control.jobs[seg])
    && h'.disk.out == h.disk.out
    && var job := h'.control.jobs[seg];
       job.phase == Drain.Copying && (job.failed <==> !ok) && (ok ==> Drain.Everywhere(job, |h'.disk.repos|))
  }
}
