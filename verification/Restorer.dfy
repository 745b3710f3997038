/**
 * `archive-get` and the pre-fetch as they run. Any storage operation can fail;
 * between the two passes of a get other hosts may archive more.
 */
module Restorer {
  import opened Base
  import opened Wal
  import Cap = QueueCap
  import QueueRoom
  import opened ArchiveGet

  /** The compression suffixes in the order they are probed in, after the plain copy. */
  const SUFFIXES: seq<Suffix> := [Gz, Zst, Bz2, Lz4]

  /** What the stop files and the lookup of `archive.info` come to. */
  datatype Gate = Gate(stopped: bool, stanzaCreated: bool)

  class Restorer {
    const codec: Codec
    var inn: map<Name, Bytes>
    var repos: seq<Repo>
    /** How many operations have failed so far. */
    ghost var faults: nat
    /** How often a get has paused before a second look. */
    ghost var pauses: nat
    /** The cache and the repositories so far, after each step of the cache machine. */
    ghost var run: seq<ArchiveGet.State>

    ghost predicate Valid()
      reads this
    {
      IsRun(codec, run) && Last(run) == ArchiveGet.State(inn, repos)
    }

    /** A restore begins with an empty spool. */
    constructor (codec: Codec, repos: seq<Repo>)
      ensures Valid() && this.codec == codec && inn == map[] && this.repos == repos && |run| == 1
    {
      this.codec, this.inn, this.repos := codec, map[], repos;
      run := [ArchiveGet.State(map[], repos)];
    }

    ghost method Record(step: Step)
      requires IsRun(codec, run) && Enabled(codec, Last(run), step)
      requires Apply(codec, Last(run), step) == ArchiveGet.State(inn, repos)
      modifies `run
      ensures Valid() && old(run) <= run
    {
      var next := Apply(codec, Last(run), step);
      assert Next(codec, Last(run), next);
      RunExtended(codec, run, next);
      run := run + [next];
    }

    method Probe() returns (ok: bool)
      modifies `faults
      ensures faults == old(faults) + if ok then 0 else 1
    {
      if * {
        faults := faults + 1;
        return false;
      }
      return true;
    }

    /** Probe a repository for the stored form of a segment; `None` when a probe fails. */
    method Find(repo: Repo, name: Name) returns (found: Option<Option<Suffix>>)
      modifies `faults
      ensures found.Some? <==> faults == old(faults)
      ensures faults >= old(faults)
      ensures found.Some? ==>
        match found.value
        case Some(suffix) => Served(repo, name, suffix)
        case None => !Holds(repo, name)
    {
      var ok := Probe();
      if !ok {
        return None;
      }
      if RepoFile(name, Plain) in repo {
        return Some(Some(Plain));
      }
      var i := 0;
      while i < |SUFFIXES|
        invariant 0 <= i <= |SUFFIXES| && faults == old(faults)
        invariant forall suffix :: Rank(suffix) <= i ==> RepoFile(name, suffix) !in repo
      {
        ok := Probe();
        if !ok {
          return None;
        }
        if RepoFile(name, SUFFIXES[i]) in repo {
          assert Rank(SUFFIXES[i]) == i + 1;
          return Some(Some(SUFFIXES[i]));
        }
        i := i + 1;
      }
      return Some(None);
    }

    /** Read the segment from one repository and undo its transform. */
    method ReadFrom(repo: Repo, name: Name) returns (got: Got)
      modifies `faults
      ensures faults >= old(faults) && (got.Fault? <==> faults != old(faults))
      ensures got != Fault ==> got == FetchFrom(codec, repo, name)
    {
      var found := Find(repo, name);
      if found.None? {
        return Fault;
      }
      var ok := Probe();
      if !ok {
        return Fault;
      }
      match found.value {
        case None => return NotFound;
        case Some(suffix) =>
          ServedIsUnique(repo, name, suffix);
          match codec.reverse(suffix, 0, repo[RepoFile(name, suffix)]) {
            case Some(bytes) => return Delivered(bytes);
            case None => return Undecodable;
          }
      }
    }

    /** Ask the repositories in order; `None` when none has the segment. */
    method Pass(name: Name) returns (got: Option<Got>)
      modifies `faults
      ensures faults >= old(faults) && (got == Some(Fault) <==> faults != old(faults))
      ensures got == None ==> forall i :: 0 <= i < |repos| ==> !Holds(repos[i], name)
      ensures got.Some? && got.value != Fault ==>
        got.value == Fetch(codec, repos, name) && HeldBySome(repos, name)
    {
      var i := 0;
      while i < |repos|
        invariant 0 <= i <= |repos| && faults == old(faults)
        invariant forall j :: 0 <= j < i ==> !Holds(repos[j], name)
      {
        var found := Find(repos[i], name);
        if found.None? {
          return Some(Fault);
        }
        if found.value.Some? {
          FetchSkips(codec, repos, name, i);
          var answer := ReadFrom(repos[i], name);
          return Some(answer);
        }
        i := i + 1;
      }
      return None;
    }

    /** The pause before the second pass: only other hosts' pushes happen. */
    method Pause()
      requires Valid()
      modifies `repos, `run, `pauses
      ensures Valid() && old(run) <= run
      ensures Grown(old(repos), repos) && pauses == old(pauses) + 1
    {
      pauses := pauses + 1;
      var more: seq<Repo> := *;
      if Grown(repos, more) {
        repos := more;
        Record(Archive(more));
      }
    }

    method FetchWithRetry(name: Name, retry: bool) returns (got: Got)
      requires Valid()
      modifies `repos, `faults, `run, `pauses
      ensures Valid() && old(run) <= run
      ensures faults >= old(faults) && (got.Fault? <==> faults != old(faults))
      ensures Grown(old(repos), repos)
      // the answer is that of a second look, after a pause, exactly where the first finds nothing
      ensures got != Fault ==> got == Answer(old(repos), repos, name)
      ensures got != Fault ==>
        pauses == old(pauses) + if retry && !HeldBySome(old(repos), name) then 1 else 0
      ensures pauses == old(pauses) ==> repos == old(repos)
    {
      var first := Pass(name);
      if first.Some? {
        return first.value;
      }
      if retry {
        Pause();
        var second := Pass(name);
        if second.Some? {
          return second.value;
        }
      }
      FetchNowhere(codec, repos, name);
      if IsHistoryFile(name) {
        return NoHistory;
      }
      if repos == [] {
        return NotFound;
      }
      got := ReadFrom(repos[|repos| - 1], name);
    }

    /**
     * `archive-get`: from the `in/` spool when the segment was pre-fetched, else from
     * the repositories, if one of them has an `archive.info`.
     */
    method Get(name: Name, gate: Gate, async: bool, retry: bool) returns (got: Got)
      requires Valid()
      modifies `inn, `repos, `faults, `run, `pauses
      ensures Valid() && old(run) <= run
      ensures faults >= old(faults) && (got.Fault? <==> faults != old(faults))
      ensures Grown(old(repos), repos)
      ensures got.Refused? <==> old(repos) == [] || gate.stopped
      ensures got.Refused? || got.Fault? ==> inn == old(inn)
      ensures !got.Refused? && got != Fault ==>
        if async && name in old(inn) then
          got == Delivered(old(inn)[name]) && inn == old(inn) - {name} && repos == old(repos)
        else if !gate.stanzaCreated then
          got == NotFound && inn == old(inn) && repos == old(repos)
        else
          && inn == old(inn) && got == Answer(old(repos), repos, name)
          && pauses == old(pauses) + if retry && !HeldBySome(old(repos), name) then 1 else 0
      // and where the repositories have always been faithful, asynchronous or not makes no difference
      ensures !got.Refused? && got != Fault && gate.stanzaCreated && SomeContent(codec, old(run)) ==>
        got == Answer(old(repos), repos, name)
    {
      if repos == [] || gate.stopped {
        return Refused;
      }
      if async {
        var served := ServeFromSpool(name);
        if served.Some? {
          return served.value;
        }
      }
      var found := Probe();  // look up `archive.info`
      if !found {
        return Fault;
      }
      if !gate.stanzaCreated {
        return NotFound;
      }
      var keyed := Probe();  // resolve the key
      if !keyed {
        return Fault;
      }
      got := FetchWithRetry(name, retry);
      FetchAnswers(codec, old(repos), name);
      FetchAnswers(codec, repos, name);
      if got.Delivered? {
        var written := Probe();
        if !written {
          return Fault;
        }
      }
    }

    /** Serve and consume the pre-fetched copy; `None` when there is none. */
    method ServeFromSpool(name: Name) returns (got: Option<Got>)
      requires Valid()
      modifies `inn, `faults, `run
      ensures Valid() && old(run) <= run
      ensures faults >= old(faults) && (got == Some(Fault) <==> faults != old(faults))
      ensures got == None ==> name !in inn
      ensures got == None || got == Some(Fault) ==> inn == old(inn)
      ensures got.Some? && got.value != Fault ==>
        && name in old(inn) && got.value == Delivered(old(inn)[name]) && inn == old(inn) - {name}
        && (SomeContent(codec, old(run)) ==> got.value == Answer(repos, repos, name))
    {
      var ok := Probe();
      if !ok {
        return Some(Fault);
      }
      if name !in inn {
        return None;
      }
      ok := Probe();  // read the staged copy and write the destination
      if ok {
        ok := Probe();  // remove the staged copy
      }
      if !ok {
        return Some(Fault);
      }
      got := Some(Delivered(inn[name]));
      CachedIsFetched(codec, run, inn, repos, name);
      inn := inn - {name};
      Record(Consume(name));
    }

    /** What the repositories answer before a pause or, if none of them has the segment, after it. */
    ghost function Answer(before: seq<Repo>, after: seq<Repo>, name: Name): Got {
      if HeldBySome(before, name) then Fetch(codec, before, name) else Fetch(codec, after, name)
    }

    // ----- Pre-fetching

    /**
     * One segment after the other, stopping once the spool holds `limit` bytes.
     * `written` is what was staged, in order, for the first `upto` segments; `seed`
     * is what the spool was taken to hold at the start.
     */
    method PrefetchSerial(segments: seq<Name>, limit: Option<nat>)
      returns (count: Option<nat>, ghost written: seq<Cap.Fetched>, ghost upto: nat, ghost seed: nat)
      requires Valid() && repos != []
      modifies `inn, `faults, `run
      ensures Valid() && old(run) <= run && faults >= old(faults)
      // a spool that cannot be listed is taken for empty
      ensures seed == TotalSize(old(inn), old(inn).Keys) || (seed == 0 && faults > old(faults))
      // each segment of those that the repository holds, once for each time it is asked for
      ensures upto <= |segments| && written == FetchesOf(codec, repos[0], segments[..upto])
      ensures inn == AfterWrites(old(inn), written)
      ensures TotalSize(inn, inn.Keys) <= TotalSize(old(inn), old(inn).Keys) + BytesOf(written)
      // the limit is overshot by less than the last segment staged, and what was not listed
      ensures limit.Some? ==> Overshoot(seed, written, limit.value)
      ensures limit.Some? && written != [] ==>
        TotalSize(inn, inn.Keys) + seed <
          TotalSize(old(inn), old(inn).Keys) + limit.value + |Last(written).bytes|
      ensures Reads(codec, repos[0], segments, written)
      ensures count.Some? ==> count.value == |written| && NoneUndecodable(codec, repos[0], segments[..upto])
      // and only a fault, a copy that does not decode or the limit ends it early
      ensures count.Some? && upto < |segments| ==> limit.Some? && seed + BytesOf(written) >= limit.value
      ensures count.Some? && (limit.Some? ==> seed + BytesOf(written) < limit.value) ==>
        HeldAreIn(repos[0], segments, inn)
      ensures count.None? && faults == old(faults) ==>
        exists name :: name in segments && FetchFrom(codec, repos[0], name).Undecodable?
    {
      hide Staging, SoFar;
      var staged: nat := Measure();
      seed := staged;
      ghost var g := Given(codec, repos[0], segments, limit, seed, TotalSize(inn, inn.Keys));
      ghost var failed := faults;
      written, upto := [], 0;
      SerialBegins(g, inn);
      var n, i := 0, 0;
      while i < |segments|
        invariant 0 <= i == upto <= |segments| && faults == failed
        invariant n == |written| && Staging(g, old(inn), inn, written, staged)
        invariant SoFar(g, segments[..i], written, inn)
        invariant Valid() && old(run) <= run
      {
        if limit.Some? && staged >= limit.value {
          break;
        }
        FetchesStep(g, segments, i, written, inn);
        var got := StageIfHeld(g, old(inn), written, staged, segments[i]);
        match got {
          case NotFound =>
          case Delivered(bytes) =>
            written := written + [Cap.Fetched(segments[i], bytes)];
            staged, n := staged + |bytes|, n + 1;
          case _ =>
            SerialEnds(g, segments[..i], old(inn), inn, written, staged);
            return None, written, upto, seed;
        }
        i, upto := i + 1, upto + 1;
      }
      SerialEnds(g, segments[..i], old(inn), inn, written, staged);
      assert segments[..|segments|] == segments;
      return Some(n), written, upto, seed;
    }

    /** Fetches one segment, and writes it to the spool when the repository holds it. */
    method StageIfHeld(ghost g: Given, ghost inn0: map<Name, Bytes>, ghost written: seq<Cap.Fetched>,
        ghost staged: nat, name: Name)
      returns (got: Got)
      requires repos != [] && g.codec == codec && g.repo == repos[0] && name in g.segments
      requires Staging(g, inn0, inn, written, staged) && (g.limit.Some? ==> staged < g.limit.value)
      requires Valid()
      modifies `inn, `faults, `run
      ensures Valid() && old(run) <= run
      ensures faults >= old(faults) && (got.Fault? <==> faults != old(faults))
      ensures got != Fault ==> got == FetchFrom(codec, repos[0], name)
      ensures inn == if got.Delivered? then old(inn)[name := got.bytes] else old(inn)
      ensures got.Delivered? ==> Staging(g, inn0, inn, written + [Cap.Fetched(name, got.bytes)], staged + |got.bytes|)
    {
      got := ReadIfHeld(repos[0], name);
      match got {
        case Delivered(bytes) =>
          var ok := Probe();
          if !ok {
            return Fault;
          }
          StagesOne(g, inn0, inn, written, staged, name, bytes);
          inn := inn[name := bytes];
          Record(Prefetch(name, repos[0]));
        case _ =>
      }
    }

    /** Probe for the stored form, and read and decode it when there is one. */
    method ReadIfHeld(repo: Repo, name: Name) returns (got: Got)
      modifies `faults
      ensures faults >= old(faults) && (got.Fault? <==> faults != old(faults))
      ensures got != Fault ==> got == FetchFrom(codec, repo, name)
    {
      var found := Find(repo, name);
      match found {
        case None => return Fault;
        case Some(None) => return NotFound;
        case Some(Some(suffix)) =>
          ServedIsUnique(repo, name, suffix);
          var ok := Probe();
          if !ok {
            return Fault;
          }
          match codec.reverse(suffix, 0, repo[RepoFile(name, suffix)]) {
            case Some(bytes) => return Delivered(bytes);
            case None => return Undecodable;
          }
      }
    }

    /**
     * One worker job a segment; the scheduler lets any unfinished worker go on
     * by one operation on the shared counter or the spool. `g` is what the pool was
     * started with, `end` how the workers and the counter ended.
     */
    method PrefetchPool(segments: seq<Name>, limit: Option<nat>)
      returns (count: Option<nat>, ghost g: Given, ghost end: Pool)
      requires Valid() && repos != []
      // everything there is to count fits the counter
      requires forall seen :: PartOf(seen, repos[0]) ==>
        Cap.Fits(JobsFor(codec, seen, segments), Cap.AllWaiting(|segments|), TotalSize(inn, inn.Keys))
      modifies `inn, `faults, `run
      ensures Valid() && old(run) <= run && faults >= old(faults)
      // what could not be looked at is taken for absent, a spool that could not be listed for empty
      ensures g == Given(codec, g.repo, segments, limit, g.backlog, TotalSize(old(inn), old(inn).Keys))
      ensures PartOf(g.repo, repos[0]) && (g.backlog == g.held || g.backlog == 0)
      ensures |repos[0].Keys - g.repo.Keys| <= faults - old(faults)
      ensures faults == old(faults) ==> g.repo == repos[0] && g.backlog == g.held
      ensures Prefetched(codec, g.repo, segments, old(inn), inn)
      // the cap, for a spool that was listed and for one that was not
      ensures limit.Some? ==>
        TotalSize(inn, inn.Keys) <=
          if g.backlog < g.held then g.held + limit.value else if limit.value < g.held then g.held else limit.value
      ensures PoolInv(g, inn, end) && forall j :: 0 <= j < |segments| ==> Cap.Ended(end.workers[j])
      ensures count == if end.failed then None else Some(|Cap.PublishedJobs(end.workers)|)
      // and, failures apart, nothing is left out but for want of room
      ensures count.Some? ==> LeftOutForRoom(g, inn, end)
      ensures count.Some? && g.AllFit() ==> HeldAreIn(g.repo, segments, inn)
      ensures count.None? && faults == old(faults) ==>
        exists name :: name in segments && FetchFrom(codec, repos[0], name).Undecodable?
    {
      hide PoolInv, LeftOutForRoom, Prefetched;
      var backlog := Measure();
      var seen := LookUp();
      g := Given(codec, seen, segments, limit, backlog, TotalSize(inn, inn.Keys));
      var pool := Pool(backlog, Cap.AllWaiting(|segments|), map[], false, 0);
      PoolBegins(g, inn);
      while exists j :: 0 <= j < |segments| && !Cap.Ended(pool.workers[j])
        invariant |pool.workers| == |segments| && PoolInv(g, inn, pool) && faults >= old(faults)
        invariant Prefetched(codec, seen, segments, old(inn), inn)
        invariant |repos[0].Keys - seen.Keys| <= faults - old(faults)
        invariant faults == old(faults) ==> seen == repos[0] && g.backlog == g.held
        invariant pool.failed && faults == old(faults) ==> g.SomeUndecodable()
        invariant Valid() && old(run) <= run
        decreases Cap.Remaining(pool.workers)
      {
        var j: nat :| j < |segments| && !Cap.Ended(pool.workers[j]);
        pool := WorkerGoesOn(g, seen, segments, limit, pool, j, old(inn));
      }
      PoolEnds(g, inn, pool);
      return if pool.failed then None else Some(pool.published), g, pool;
    }

    /** The files of the repository that its workers see. */
    method LookUp() returns (seen: Repo)
      requires repos != []
      modifies `faults
      ensures PartOf(seen, repos[0]) && |repos[0].Keys - seen.Keys| == faults - old(faults)
      ensures faults == old(faults) ==> seen == repos[0]
    {
      var unseen: set<RepoFile> := *;
      unseen := unseen * repos[0].Keys;
      seen := repos[0] - unseen;
      assert repos[0].Keys - seen.Keys == unseen;
      faults := faults + |unseen|;
    }

    /** The next operation of a worker. */
    method WorkerGoesOn(ghost g: Given, seen: Repo, segments: seq<Name>, limit: Option<nat>, pool: Pool, j: nat,
        ghost inn0: map<Name, Bytes>)
      returns (pool': Pool)
      requires Valid() && repos != [] && g.codec == codec && g.repo == seen && PartOf(seen, repos[0])
      requires g.segments == segments && g.limit == limit
      requires PoolInv(g, inn, pool) && j < |pool.workers| == |segments| && !Cap.Ended(pool.workers[j])
      requires Prefetched(codec, seen, segments, inn0, inn)
      modifies `inn, `faults, `run
      ensures Valid() && old(run) <= run && faults >= old(faults)
      ensures |pool'.workers| == |segments| && PoolInv(g, inn, pool')
      ensures Cap.Remaining(pool'.workers) < Cap.Remaining(pool.workers)
      ensures pool'.failed && faults == old(faults) ==> pool.failed || g.SomeUndecodable()
      ensures Prefetched(codec, seen, segments, inn0, inn)
    {
      hide Prefetched;
      assert WorkerHolds(g, inn, pool, j);
      match pool.workers[j] {
        case Waiting => pool' := WorkerReads(g, seen, segments, limit, pool, j);
        case Bumped(_) => pool' := WorkerChecks(g, limit.value, pool, j);
        case Admitted => pool' := WorkerWrites(g, segments[j], pool, j, inn0);
      }
    }

    /** A worker fetches its segment and, under a limit, adds its size to the counter. */
    method WorkerReads(ghost g: Given, seen: Repo, segments: seq<Name>, limit: Option<nat>, pool: Pool, j: nat)
      returns (pool': Pool)
      requires g.codec == codec && g.repo == seen && g.segments == segments && g.limit == limit
      requires PoolInv(g, inn, pool) && j < |segments| && pool.workers[j].Waiting?
      modifies `faults
      ensures PoolInv(g, inn, pool') && faults >= old(faults)
      ensures Cap.Remaining(pool'.workers) < Cap.Remaining(pool.workers)
      ensures pool'.failed && faults == old(faults) ==> pool.failed || g.SomeUndecodable()
    {
      var got := ReadSeen(seen, segments[j]);
      if got.Delivered? {
        TakesKeeps(g, inn, pool, j, got.bytes);
        return pool.Takes(j, got.bytes, limit.Some?);
      }
      var broken := got.Fault? || got.Undecodable?;
      MissesKeeps(g, inn, pool, j, broken);
      return pool.Misses(j, broken);
    }

    /** Read and decode the stored form of a segment among the files seen. */
    method ReadSeen(seen: Repo, name: Name) returns (got: Got)
      modifies `faults
      ensures faults >= old(faults) && (got.Fault? <==> faults != old(faults))
      ensures got != Fault ==> got == FetchFrom(codec, seen, name)
    {
      var found := Look(seen, name);
      match found {
        case None => return NotFound;
        case Some(suffix) =>
          ServedIsUnique(seen, name, suffix);
          var ok := Probe();
          if !ok {
            return Fault;
          }
          match codec.reverse(suffix, 0, seen[RepoFile(name, suffix)]) {
            case Some(bytes) => return Delivered(bytes);
            case None => return Undecodable;
          }
      }
    }

    /** The stored form of a segment among the files seen. */
    method Look(seen: Repo, name: Name) returns (found: Option<Suffix>)
      ensures match found
        case Some(suffix) => Served(seen, name, suffix)
        case None => !Holds(seen, name)
    {
      if RepoFile(name, Plain) in seen {
        return Some(Plain);
      }
      var i := 0;
      while i < |SUFFIXES|
        invariant 0 <= i <= |SUFFIXES|
        invariant forall suffix :: Rank(suffix) <= i ==> RepoFile(name, suffix) !in seen
      {
        if RepoFile(name, SUFFIXES[i]) in seen {
          assert Rank(SUFFIXES[i]) == i + 1;
          return Some(SUFFIXES[i]);
        }
        i := i + 1;
      }
      return None;
    }

    /** A worker looks at what the counter was and goes on, or takes its addition back. */
    method WorkerChecks(ghost g: Given, limit: nat, pool: Pool, j: nat) returns (pool': Pool)
      requires g.limit == Some(limit) && PoolInv(g, inn, pool) && j < |pool.workers| && pool.workers[j].Bumped?
      ensures PoolInv(g, inn, pool') && pool'.failed == pool.failed
      ensures Cap.Remaining(pool'.workers) < Cap.Remaining(pool.workers)
    {
      assert WorkerHolds(g, inn, pool, j);
      var size := |pool.plain[j]|;
      if Cap.Overshoots(pool.workers[j].prev, size, limit) {
        pool' := pool.(counter := (pool.counter - size) % Cap.U64, workers := pool.workers[j := Cap.Skipped]);
        ChecksKeep(g, inn, pool, pool', Cap.RollBack(j), limit);
      } else {
        pool' := pool.(workers := pool.workers[j := Cap.Admitted]);
        ChecksKeep(g, inn, pool, pool', Cap.Admit(j), limit);
      }
    }

    /** A worker writes its segment into the spool. */
    method WorkerWrites(ghost g: Given, name: Name, pool: Pool, j: nat, ghost inn0: map<Name, Bytes>)
      returns (pool': Pool)
      requires Valid() && repos != [] && g.codec == codec && PartOf(g.repo, repos[0])
      requires PoolInv(g, inn, pool) && j < |pool.workers| && pool.workers[j].Admitted? && g.segments[j] == name
      modifies `inn, `faults, `run
      ensures Valid() && old(run) <= run
      ensures PoolInv(g, inn, pool') && faults >= old(faults)
      ensures Cap.Remaining(pool'.workers) < Cap.Remaining(pool.workers)
      ensures pool'.failed && faults == old(faults) ==> pool.failed
      ensures Prefetched(g.codec, g.repo, g.segments, inn0, old(inn)) ==>
        Prefetched(g.codec, g.repo, g.segments, inn0, inn)
    {
      assert WorkerHolds(g, inn, pool, j);
      var ok := Probe();
      if ok {
        inn := inn[name := pool.plain[j]];
        Record(Prefetch(name, g.repo));
        pool' := pool.(published := pool.published + 1, workers := pool.workers[j := Cap.Published]);
      } else {
        pool' := pool.(failed := true, workers := pool.workers[j := Cap.WriteFailed]);
      }
      WritesKeeps(g, old(inn), inn, pool, pool', j, ok);
    }

    /** The size of what the spool holds, or nothing when it cannot be listed. */
    method Measure() returns (n: nat)
      modifies `faults
      ensures faults >= old(faults)
      ensures n == if faults == old(faults) then TotalSize(inn, inn.Keys) else 0
    {
      var listed := Probe();
      if !listed {
        return 0;
      }
      n := 0;
      var rest := inn.Keys;
      while rest != {}
        invariant faults == old(faults) && rest <= inn.Keys
        invariant n + TotalSize(inn, rest) == TotalSize(inn, inn.Keys)
      {
        var name :| name in rest;
        TotalWithout(inn, rest, name);
        n, rest := n + |inn[name]|, rest - {name};
      }
    }
  }

  /** Some repository has the segment. */
  predicate HeldBySome(repos: seq<Repo>, name: Name) {
    exists i :: 0 <= i < |repos| && Holds(repos[i], name)
  }

  /**
   * A timeline's history file that nobody has is no error, any other segment that
   * nobody has is not found.
   */
  lemma NobodyHas(codec: Codec, repos: seq<Repo>, name: Name)
    requires !HeldBySome(repos, name)
    ensures forall stem :: name == stem + ".history" ==> Fetch(codec, repos, name) == NoHistory
    ensures (forall stem :: name != stem + ".history") ==> Fetch(codec, repos, name) == NotFound
  {
    FetchNowhere(codec, repos, name);
    if IsHistoryFile(name) {
      assert name == name[..|name| - 8] + ".history";
    }
    forall stem | name == stem + ".history" ensures IsHistoryFile(name) {
      assert name[|name| - 8..] == ".history";
    }
  }

  /** The pool while it runs: the shared counter, each worker, and the plaintext each worker has in hand. */
  datatype Pool = Pool(counter: nat, workers: seq<Cap.Worker>, plain: map<nat, Bytes>, failed: bool, published: nat) {
    function State(inn: map<Name, Bytes>): Cap.State {
      Cap.State(counter, inn, workers)
    }

    /** Worker `j` has its segment in hand and, under a limit, has added its size to the counter. */
    function Takes(j: nat, bytes: Bytes, capped: bool): Pool
      requires j < |workers|
    {
      if capped then
        Pool((counter + |bytes|) % Cap.U64, workers[j := Cap.Bumped(counter)], plain[j := bytes], failed, published)
      else
        Pool(counter, workers[j := Cap.Admitted], plain[j := bytes], failed, published)
    }

    function Misses(j: nat, broken: bool): Pool
      requires j < |workers|
    {
      Pool(counter, workers[j := Cap.Missed], plain, failed || broken, published)
    }
  }

  /**
   * What a pool was started with: the files it sees of the repository, what the
   * counter starts at, and what the spool really holds.
   */
  datatype Given = Given(codec: Codec, repo: Repo, segments: seq<Name>, limit: Option<nat>, backlog: nat, held: nat) {
    ghost function Jobs(): seq<Cap.Fetched> {
      JobsFor(codec, repo, segments)
    }

    /** No limit, or one that backlog and all segments together are within. */
    ghost predicate AllFit() {
      limit.Some? ==> backlog + Cap.Sum(Cap.All, Jobs(), Cap.AllWaiting(|segments|)) <= limit.value
    }

    ghost predicate SomeUndecodable() {
      exists name :: name in segments && FetchFrom(codec, repo, name).Undecodable?
    }

    /** The segments there is something to stage of. */
    ghost function Live(): set<nat> {
      set j | j in Indices(|segments|) && FetchFrom(codec, repo, segments[j]).Delivered?
    }
  }

  ghost predicate PoolInv(g: Given, inn: map<Name, Bytes>, pool: Pool) {
    && |pool.workers| == |g.segments|
    && (g.limit.Some? ==> Cap.Inv(g.Jobs(), g.limit.value, g.backlog, g.held, pool.State(inn)))
    && (forall j :: 0 <= j < |pool.workers| ==> WorkerHolds(g, inn, pool, j))
    && pool.published == |Cap.PublishedJobs(pool.workers)|
  }

  /** A worker under way has in hand what the repository says of its segment. */
  ghost predicate WorkerHolds(g: Given, inn: map<Name, Bytes>, pool: Pool, j: nat)
    requires j < |pool.workers| == |g.segments|
  {
    && (pool.workers[j].Bumped? || pool.workers[j].Skipped? ==> g.limit.Some?)
    && (pool.workers[j].Bumped? || pool.workers[j].Admitted? ==>
          j in pool.plain && FetchFrom(g.codec, g.repo, g.segments[j]) == Delivered(pool.plain[j])
          && pool.plain[j] == g.Jobs()[j].bytes)
    && (pool.workers[j].Waiting? || pool.workers[j].Missed? || FetchFrom(g.codec, g.repo, g.segments[j]).Delivered?)
    && (pool.workers[j].Published? ==> g.segments[j] in inn)
    && (pool.workers[j].Missed? ==> pool.failed || !Holds(g.repo, g.segments[j]))
    && (pool.workers[j].WriteFailed? ==> pool.failed)
  }

  /** Where only worker `j` has moved, only it need be looked at. */
  lemma OthersStillHold(g: Given, inn: map<Name, Bytes>, inn': map<Name, Bytes>, pool: Pool, pool': Pool, j: nat)
    requires j < |pool.workers| == |pool'.workers| == |g.segments|
    requires forall i :: 0 <= i < |pool.workers| ==> WorkerHolds(g, inn, pool, i)
    requires pool'.workers == pool.workers[j := pool'.workers[j]]
    requires pool'.plain == pool.plain || (j in pool'.plain && pool'.plain == pool.plain[j := pool'.plain[j]])
    requires inn.Keys <= inn'.Keys && (pool.failed ==> pool'.failed)
    requires WorkerHolds(g, inn', pool', j)
    ensures forall i :: 0 <= i < |pool'.workers| ==> WorkerHolds(g, inn', pool', i)
  {
    forall i | 0 <= i < |pool'.workers| ensures WorkerHolds(g, inn', pool', i) {
      assert WorkerHolds(g, inn, pool, i);
    }
  }

  lemma PoolBegins(g: Given, inn: map<Name, Bytes>)
    requires g.held == TotalSize(inn, inn.Keys)
    requires g.backlog <= g.held && Cap.Fits(g.Jobs(), Cap.AllWaiting(|g.segments|), g.held)
    ensures PoolInv(g, inn, Pool(g.backlog, Cap.AllWaiting(|g.segments|), map[], false, 0))
    ensures Prefetched(g.codec, g.repo, g.segments, inn, inn)
  {
    var pool := Pool(g.backlog, Cap.AllWaiting(|g.segments|), map[], false, 0);
    if g.limit.Some? {
      Cap.StartInv(g.Jobs(), g.limit.value, pool.State(inn));
    }
  }

  lemma ChecksKeep(g: Given, inn: map<Name, Bytes>, pool: Pool, pool': Pool, step: Cap.Step, limit: nat)
    requires g.limit == Some(limit) && PoolInv(g, inn, pool) && (step.RollBack? || step.Admit?)
    requires Cap.Enabled(g.Jobs(), limit, pool.State(inn), step)
    requires pool'.State(inn) == Cap.Apply(g.Jobs(), limit, pool.State(inn), step)
    requires pool' == pool.(counter := pool'.counter, workers := pool'.workers)
    ensures PoolInv(g, inn, pool') && Cap.Remaining(pool'.workers) < Cap.Remaining(pool.workers)
  {
    assert WorkerHolds(g, inn, pool, step.j);
    Cap.StepKeepsInv(g.Jobs(), limit, g.backlog, g.held, pool.State(inn), step);
    OthersStillHold(g, inn, inn, pool, pool', step.j);
    Cap.PublishedAfter(pool.workers, step.j, pool'.workers[step.j]);
    Cap.RemainingAfter(pool.workers, step.j, pool'.workers[step.j]);
  }

  lemma TakesKeeps(g: Given, inn: map<Name, Bytes>, pool: Pool, j: nat, bytes: Bytes)
    requires PoolInv(g, inn, pool) && j < |pool.workers| && pool.workers[j].Waiting?
    requires FetchFrom(g.codec, g.repo, g.segments[j]) == Delivered(bytes)
    ensures PoolInv(g, inn, pool.Takes(j, bytes, g.limit.Some?))
    ensures Cap.Remaining(pool.Takes(j, bytes, g.limit.Some?).workers) < Cap.Remaining(pool.workers)
  {
    var pool' := pool.Takes(j, bytes, g.limit.Some?);
    if g.limit.Some? {
      Cap.StepKeepsInv(g.Jobs(), g.limit.value, g.backlog, g.held, pool.State(inn), Cap.Bump(j));
      assert pool'.State(inn) == Cap.Apply(g.Jobs(), g.limit.value, pool.State(inn), Cap.Bump(j));
    }
    assert WorkerHolds(g, inn, pool', j);
    OthersStillHold(g, inn, inn, pool, pool', j);
    Cap.PublishedAfter(pool.workers, j, pool'.workers[j]);
    Cap.RemainingAfter(pool.workers, j, pool'.workers[j]);
  }

  lemma MissesKeeps(g: Given, inn: map<Name, Bytes>, pool: Pool, j: nat, broken: bool)
    requires PoolInv(g, inn, pool) && j < |pool.workers| && pool.workers[j].Waiting?
    requires broken || !Holds(g.repo, g.segments[j])
    ensures PoolInv(g, inn, pool.Misses(j, broken))
    ensures Cap.Remaining(pool.Misses(j, broken).workers) < Cap.Remaining(pool.workers)
  {
    var pool' := pool.Misses(j, broken);
    if g.limit.Some? {
      Cap.StepKeepsInv(g.Jobs(), g.limit.value, g.backlog, g.held, pool.State(inn), Cap.SkipAbsent(j));
    }
    OthersStillHold(g, inn, inn, pool, pool', j);
    Cap.PublishedAfter(pool.workers, j, pool'.workers[j]);
    Cap.RemainingAfter(pool.workers, j, pool'.workers[j]);
  }

  lemma WritesKeeps(g: Given, inn: map<Name, Bytes>, inn': map<Name, Bytes>, pool: Pool, pool': Pool, j: nat,
      ok: bool)
    requires PoolInv(g, inn, pool) && j < |pool.workers| && pool.workers[j].Admitted? && j in pool.plain
    requires
      && inn' == (if ok then inn[g.segments[j] := pool.plain[j]] else inn)
      && pool' == if ok then pool.(published := pool.published + 1, workers := pool.workers[j := Cap.Published])
                  else pool.(failed := true, workers := pool.workers[j := Cap.WriteFailed])
    ensures PoolInv(g, inn', pool') && Cap.Remaining(pool'.workers) < Cap.Remaining(pool.workers)
  {
    assert WorkerHolds(g, inn, pool, j);
    if g.limit.Some? {
      var step := if ok then Cap.Write(j) else Cap.FailWrite(j);
      Cap.StepKeepsInv(g.Jobs(), g.limit.value, g.backlog, g.held, pool.State(inn), step);
    }
    OthersStillHold(g, inn, inn', pool, pool', j);
    Cap.PublishedAfter(pool.workers, j, pool'.workers[j]);
    Cap.RemainingAfter(pool.workers, j, pool'.workers[j]);
  }

  // ----- What a pool leaves out

  /** Segment `j` is over the limit beside what has been published. */
  ghost predicate NoRoom(g: Given, end: Pool, j: nat)
    requires j < |g.segments| == |end.workers|
  {
    g.limit.Some? &&
      g.backlog + Cap.Sum(Cap.Done, g.Jobs(), end.workers) + |g.Jobs()[j].bytes| > g.limit.value
  }

  /**
   * A held segment is left out only by being turned away; then one that was turned
   * away has no room, and none of them has where there is room for all or for none.
   */
  ghost predicate LeftOutForRoom(g: Given, inn: map<Name, Bytes>, end: Pool)
    requires |g.segments| == |end.workers|
  {
    && (forall j :: 0 <= j < |g.segments| && Holds(g.repo, g.segments[j]) && g.segments[j] !in inn ==>
          end.workers[j].Skipped?)
    && ((exists j :: 0 <= j < |g.segments| && end.workers[j].Skipped?) ==>
          exists i :: 0 <= i < |g.segments| && end.workers[i].Skipped? && NoRoom(g, end, i))
    && (g.limit.Some? && QueueRoom.RoomForAllOrNone(g.Jobs(), g.limit.value, g.backlog, g.Live()) ==>
          forall j :: 0 <= j < |g.segments| && end.workers[j].Skipped? ==> NoRoom(g, end, j))
  }

  lemma PoolEnds(g: Given, inn: map<Name, Bytes>, end: Pool)
    requires PoolInv(g, inn, end) && forall j :: 0 <= j < |end.workers| ==> Cap.Ended(end.workers[j])
    requires g.backlog == g.held || g.backlog == 0
    ensures |end.workers| == |g.segments| && end.published == |Cap.PublishedJobs(end.workers)|
    ensures !end.failed ==> LeftOutForRoom(g, inn, end)
    ensures !end.failed && g.AllFit() ==> HeldAreIn(g.repo, g.segments, inn)
    ensures g.limit.Some? ==>
      TotalSize(inn, inn.Keys) <=
        if g.backlog < g.held then g.held + g.limit.value
        else if g.limit.value < g.held then g.held else g.limit.value
  {
    if g.limit.Some? {
      Cap.PublishedWithinCap(g.Jobs(), g.limit.value, g.backlog, g.held, end.State(inn));
    }
    forall j | 0 <= j < |end.workers| ensures WorkerHolds(g, inn, end, j) {
    }
    if !end.failed {
      if g.limit.Some? {
        TurnedForWantOfRoom(g, inn, end, g.limit.value);
      } else {
        NobodyTurnedAway(g, inn, end);
      }
      if g.AllFit() && exists j :: 0 <= j < |g.segments| && end.workers[j].Skipped? {
        var i :| 0 <= i < |g.segments| && end.workers[i].Skipped? && NoRoom(g, end, i);
        RoomWhereAllFit(g, end, i);
      }
    }
  }

  /** Without a limit only what is not held is left out. */
  lemma NobodyTurnedAway(g: Given, inn: map<Name, Bytes>, end: Pool)
    requires PoolInv(g, inn, end) && g.limit.None? && !end.failed
    requires forall j :: 0 <= j < |end.workers| ==> Cap.Ended(end.workers[j])
    ensures LeftOutForRoom(g, inn, end)
  {
    forall j | 0 <= j < |end.workers|
      ensures !end.workers[j].Skipped? && (Holds(g.repo, g.segments[j]) ==> g.segments[j] in inn)
    {
      assert WorkerHolds(g, inn, end, j);
    }
  }

  lemma TurnedForWantOfRoom(g: Given, inn: map<Name, Bytes>, end: Pool, limit: nat)
    requires PoolInv(g, inn, end) && g.limit == Some(limit) && !end.failed
    requires forall j :: 0 <= j < |end.workers| ==> Cap.Ended(end.workers[j]) && WorkerHolds(g, inn, end, j)
    ensures LeftOutForRoom(g, inn, end)
  {
    var st := end.State(inn);
    Cap.SumSame(Cap.Passing(limit), Cap.Done, g.Jobs(), end.workers);
    assert forall j: nat :: j < |g.segments| ==> (Cap.Turned(g.Jobs(), limit, st, j) <==> end.workers[j].Skipped?);
    assert forall j: nat :: j < |g.segments| ==>
      (NoRoom(g, end, j) <==> !Cap.HasRoom(g.Jobs(), limit, g.backlog, st, j));
    if QueueRoom.RoomForAllOrNone(g.Jobs(), limit, g.backlog, g.Live()) {
      QueueRoom.TurnedHaveNoRoom(g.Jobs(), limit, g.backlog, st, g.Live());
    }
  }

  lemma RoomWhereAllFit(g: Given, end: Pool, j: nat)
    requires j < |g.segments| == |end.workers| && g.AllFit() && end.workers[j].Skipped?
    ensures !NoRoom(g, end, j)
  {
    var workers := end.workers[j := Cap.Published];
    Cap.SumAfter(Cap.Done, g.Jobs(), end.workers, j, Cap.Published);
    Cap.SumWithin(Cap.Done, Cap.All, g.Jobs(), workers);
    Cap.SumOfAll(g.Jobs(), workers, Cap.AllWaiting(|g.segments|));
  }

  /** What each segment of a pre-fetch would stage; nothing where it cannot be fetched. */
  ghost function JobsFor(codec: Codec, repo: Repo, segments: seq<Name>): seq<Cap.Fetched> {
    seq(|segments|, j requires 0 <= j < |segments| =>
      match FetchFrom(codec, repo, segments[j])
      case Delivered(bytes) => Cap.Fetched(segments[j], bytes)
      case _ => Cap.Fetched(segments[j], []))
  }

  /** The spool has what it had before, or what the repository says of a requested segment. */
  ghost predicate Prefetched(codec: Codec, repo: Repo, segments: seq<Name>, before: map<Name, Bytes>,
      after: map<Name, Bytes>) {
    && before.Keys <= after.Keys
    && forall name :: name in after ==>
      || (name in before && after[name] == before[name])
      || (name in segments && FetchFrom(codec, repo, name) == Delivered(after[name]))
  }

  function AfterWrites(inn: map<Name, Bytes>, written: seq<Cap.Fetched>): map<Name, Bytes> {
    if written == [] then inn
    else AfterWrites(inn, written[..|written| - 1])[Last(written).name := Last(written).bytes]
  }

  function BytesOf(written: seq<Cap.Fetched>): nat {
    if written == [] then 0 else BytesOf(written[..|written| - 1]) + |Last(written).bytes|
  }

  /** Every requested segment that the repository holds is in the spool. */
  ghost predicate HeldAreIn(repo: Repo, segments: seq<Name>, inn: map<Name, Bytes>) {
    forall name :: name in segments && Holds(repo, name) ==> name in inn
  }

  /** What the repository says of the segments, in order, without those it does not have. */
  ghost function FetchesOf(codec: Codec, repo: Repo, segments: seq<Name>): seq<Cap.Fetched> {
    if segments == [] then [] else
      FetchesOf(codec, repo, segments[..|segments| - 1]) +
      match FetchFrom(codec, repo, Last(segments))
      case Delivered(bytes) => [Cap.Fetched(Last(segments), bytes)]
      case _ => []
  }

  ghost predicate NoneUndecodable(codec: Codec, repo: Repo, segments: seq<Name>) {
    forall name :: name in segments ==> !FetchFrom(codec, repo, name).Undecodable?
  }

  /** The serial pre-fetch has gone through the segments `done`. */
  ghost predicate SoFar(g: Given, done: seq<Name>, written: seq<Cap.Fetched>, inn: map<Name, Bytes>) {
    && written == FetchesOf(g.codec, g.repo, done)
    && NoneUndecodable(g.codec, g.repo, done) && HeldAreIn(g.repo, done, inn)
  }

  lemma FetchesStep(g: Given, segments: seq<Name>, i: nat, written: seq<Cap.Fetched>, inn: map<Name, Bytes>)
    requires i < |segments| && SoFar(g, segments[..i], written, inn)
    ensures match FetchFrom(g.codec, g.repo, segments[i])
      case NotFound => SoFar(g, segments[..i + 1], written, inn)
      case Delivered(bytes) =>
        SoFar(g, segments[..i + 1], written + [Cap.Fetched(segments[i], bytes)], inn[segments[i] := bytes])
      case _ => true
  {
    var done := segments[..i + 1];
    assert done[..i] == segments[..i] && done == segments[..i] + [segments[i]];
    forall name | name in done ensures name in segments[..i] || name == segments[i] {
    }
  }

  /** Each segment was staged while the spool was still below the limit. */
  ghost predicate Overshoot(backlog: nat, written: seq<Cap.Fetched>, limit: nat) {
    forall k :: 0 <= k < |written| ==> backlog + BytesOf(written[..k]) < limit
  }

  /** Everything written is what the repository says of a requested segment. */
  ghost predicate Reads(codec: Codec, repo: Repo, segments: seq<Name>, written: seq<Cap.Fetched>) {
    forall f :: f in written ==> f.name in segments && FetchFrom(codec, repo, f.name) == Delivered(f.bytes)
  }

  /** The serial pre-fetch under way: `staged` is its count of the bytes in the spool. */
  ghost predicate Staging(g: Given, inn0: map<Name, Bytes>, inn: map<Name, Bytes>, written: seq<Cap.Fetched>,
      staged: nat) {
    && staged == g.backlog + BytesOf(written)
    && inn == AfterWrites(inn0, written) && TotalSize(inn, inn.Keys) <= g.held + BytesOf(written)
    && (g.limit.Some? ==> Overshoot(g.backlog, written, g.limit.value))
    && Reads(g.codec, g.repo, g.segments, written)
  }

  lemma SerialBegins(g: Given, inn: map<Name, Bytes>)
    requires g.held == TotalSize(inn, inn.Keys)
    ensures Staging(g, inn, inn, [], g.backlog) && SoFar(g, g.segments[..0], [], inn)
  {
  }

  /** What the serial pre-fetch has done when it ends after the segments `done`. */
  lemma SerialEnds(g: Given, done: seq<Name>, inn0: map<Name, Bytes>, inn: map<Name, Bytes>,
      written: seq<Cap.Fetched>, staged: nat)
    requires Staging(g, inn0, inn, written, staged) && SoFar(g, done, written, inn)
    ensures staged == g.backlog + BytesOf(written) && inn == AfterWrites(inn0, written)
    ensures TotalSize(inn, inn.Keys) <= g.held + BytesOf(written)
    ensures g.limit.Some? ==> Overshoot(g.backlog, written, g.limit.value)
    ensures g.limit.Some? && written != [] ==>
      TotalSize(inn, inn.Keys) + g.backlog < g.held + g.limit.value + |Last(written).bytes|
    ensures Reads(g.codec, g.repo, g.segments, written) && written == FetchesOf(g.codec, g.repo, done)
    ensures NoneUndecodable(g.codec, g.repo, done) && HeldAreIn(g.repo, done, inn)
  {
  }

  lemma StagesOne(g: Given, inn0: map<Name, Bytes>, inn: map<Name, Bytes>, written: seq<Cap.Fetched>, staged: nat,
      name: Name, bytes: Bytes)
    requires Staging(g, inn0, inn, written, staged) && (g.limit.Some? ==> staged < g.limit.value)
    requires name in g.segments && FetchFrom(g.codec, g.repo, name) == Delivered(bytes)
    ensures Staging(g, inn0, inn[name := bytes], written + [Cap.Fetched(name, bytes)], staged + |bytes|)
  {
    var written' := written + [Cap.Fetched(name, bytes)];
    assert written'[..|written|] == written;
    TotalAfterWrite(inn, name, bytes);
    if g.limit.Some? {
      forall k | 0 <= k < |written'| ensures g.backlog + BytesOf(written'[..k]) < g.limit.value {
        if k < |written| {
          assert written'[..k] == written[..k];
        }
      }
    }
  }

  /** Names have had one content each all along. */
  ghost predicate SomeContent(codec: Codec, run: seq<ArchiveGet.State>) {
    exists content: Name -> Bytes :: AlwaysFaithful(codec, content, run)
  }

  lemma CachedIsFetched(codec: Codec, run: seq<ArchiveGet.State>, inn: map<Name, Bytes>, repos: seq<Repo>, name: Name)
    requires IsRun(codec, run) && Last(run) == ArchiveGet.State(inn, repos) && name in inn
    ensures SomeContent(codec, run) ==>
      repos != [] && Holds(repos[0], name) && Fetch(codec, repos, name) == Delivered(inn[name])
  {
    if SomeContent(codec, run) {
      var content: Name -> Bytes :| AlwaysFaithful(codec, content, run);
      CacheIsTransparent(codec, content, run, |run| - 1);
    }
  }

  /**
   * Whatever gets and pre-fetches a restore has made, and wherever the last of
   * them stopped: after every step everything in the spool is its segment's
   * content, and what a synchronous get would deliver.
   */
  lemma SpoolIsTrue(r: Restorer, content: Name -> Bytes)
    requires r.Valid() && AlwaysFaithful(r.codec, content, r.run)
    ensures forall k :: 0 <= k < |r.run| ==> CacheTrue(r.codec, content, r.run[k])
    ensures forall name :: name in r.inn ==>
      r.inn[name] == content(name) && Fetch(r.codec, r.repos, name) == Delivered(r.inn[name])
  {
    forall k | 0 <= k < |r.run| ensures CacheTrue(r.codec, content, r.run[k]) {
      CacheIsTransparent(r.codec, content, r.run, k);
    }
    CacheIsTransparent(r.codec, content, r.run, |r.run| - 1);
  }

  lemma {:induction false} FetchSkips(codec: Codec, repos: seq<Repo>, name: Name, i: nat)
    requires i < |repos| && Holds(repos[i], name) && forall j :: 0 <= j < i ==> !Holds(repos[j], name)
    ensures Fetch(codec, repos, name) == FetchFrom(codec, repos[i], name)
  {
    if i > 0 {
      forall j | 0 <= j < i - 1 ensures !Holds(repos[1..][j], name) {
        assert !Holds(repos[j + 1], name);
      }
      FetchSkips(codec, repos[1..], name, i - 1);
    }
  }

  lemma {:induction false} FetchAnswers(codec: Codec, repos: seq<Repo>, name: Name)
    ensures !Fetch(codec, repos, name).Refused?
  {
    if repos != [] && !Holds(repos[0], name) {
      FetchAnswers(codec, repos[1..], name);
    }
  }

  lemma {:induction false} FetchNowhere(codec: Codec, repos: seq<Repo>, name: Name)
    requires forall j :: 0 <= j < |repos| ==> !Holds(repos[j], name)
    ensures Fetch(codec, repos, name) == if IsHistoryFile(name) then NoHistory else NotFound
  {
    if repos != [] {
      forall j | 0 <= j < |repos| - 1 ensures !Holds(repos[1..][j], name) {
        assert !Holds(repos[j + 1], name);
      }
      FetchNowhere(codec, repos[1..], name);
    }
  }
}
