/**
 * `archive-get`: fetching a segment from the repositories in whatever form it
 * is stored, and the `in/` spool that an asynchronous get uses as a cache.
 */
module ArchiveGet {
  import opened Base
  import opened Wal

  /** The place of a stored form in the order they are probed in. */
  function Rank(suffix: Suffix): nat {
    match suffix case Plain => 0 case Gz => 1 case Zst => 2 case Bz2 => 3 case Lz4 => 4
  }

  /** The form a get serves: of those the repository has, the one probed first. */
  ghost predicate Served(repo: Repo, name: Name, suffix: Suffix) {
    RepoFile(name, suffix) in repo && forall other :: RepoFile(name, other) in repo ==> Rank(suffix) <= Rank(other)
  }

  lemma SomeFormServed(repo: Repo, name: Name)
    requires Holds(repo, name)
    ensures exists suffix :: Served(repo, name, suffix)
  {
    var suffix :| RepoFile(name, suffix) in repo;
    SomeFormServedFrom(repo, name, suffix);
  }

  lemma {:induction false} SomeFormServedFrom(repo: Repo, name: Name, suffix: Suffix)
    requires RepoFile(name, suffix) in repo
    ensures exists form :: Served(repo, name, form)
    decreases Rank(suffix)
  {
    if other :| RepoFile(name, other) in repo && Rank(other) < Rank(suffix) {
      SomeFormServedFrom(repo, name, other);
    } else {
      assert Served(repo, name, suffix);
    }
  }

  /** The plain copy is served before any other, then the forms in the order of the compression suffixes. */
  lemma FormsInOrder(repo: Repo, name: Name)
    requires Holds(repo, name)
    ensures ServedForm(repo, name) ==
      if RepoFile(name, Plain) in repo then Plain
      else if RepoFile(name, Gz) in repo then Gz
      else if RepoFile(name, Zst) in repo then Zst
      else if RepoFile(name, Bz2) in repo then Bz2
      else Lz4
  {
  }

  ghost function ServedForm(repo: Repo, name: Name): (suffix: Suffix)
    requires Holds(repo, name)
    ensures Served(repo, name, suffix)
  {
    SomeFormServed(repo, name);
    var suffix :| Served(repo, name, suffix);
    suffix
  }

  lemma ServedIsUnique(repo: Repo, name: Name, suffix: Suffix)
    requires Served(repo, name, suffix)
    ensures Holds(repo, name) && ServedForm(repo, name) == suffix
  {
    var form := ServedForm(repo, name);
    assert Rank(form) == Rank(suffix);
  }

  /**
   * How a get ends. `NoHistory`: a timeline history file that nobody has, which is not
   * an error. `Refused`: before anything is looked up. `Fault`: an operation failed.
   */
  datatype Got = Delivered(bytes: Bytes) | NoHistory | NotFound | Undecodable | Refused | Fault

  predicate IsHistoryFile(name: Name) {
    EndsWith(name, ".history")
  }

  /** One repository's answer. The transform is undone with the key of the first repository. */
  ghost function FetchFrom(codec: Codec, repo: Repo, name: Name): Got {
    if !Holds(repo, name) then NotFound else
      var suffix := ServedForm(repo, name);
      match codec.reverse(suffix, 0, repo[RepoFile(name, suffix)])
      case Some(bytes) => Delivered(bytes)
      case None => Undecodable
  }

  /** A synchronous get: the first repository that has the segment answers. */
  ghost function Fetch(codec: Codec, repos: seq<Repo>, name: Name): Got {
    if repos == [] then (if IsHistoryFile(name) then NoHistory else NotFound)
    else if Holds(repos[0], name) then FetchFrom(codec, repos[0], name)
    else Fetch(codec, repos[1..], name)
  }

  // ----- The cache

  /** The spool's `in/` directory and the repositories. */
  datatype State = State(inn: map<Name, Bytes>, repos: seq<Repo>)

  datatype Step =
    | Archive(repos: seq<Repo>)  // pushes, by this or any other host
    // from the files that were seen; a worker takes one it cannot look at for absent
    | Prefetch(name: Name, seen: Repo)
    | Consume(name: Name)

  /** Some of the files of a repository. */
  ghost predicate PartOf(seen: Repo, repo: Repo) {
    forall f :: f in seen ==> f in repo && seen[f] == repo[f]
  }

  ghost predicate Enabled(codec: Codec, st: State, step: Step) {
    match step
    case Archive(repos) => Grown(st.repos, repos)
    case Prefetch(name, seen) => st.repos != [] && PartOf(seen, st.repos[0]) && FetchFrom(codec, seen, name).Delivered?
    case Consume(name) => name in st.inn
  }

  ghost function Apply(codec: Codec, st: State, step: Step): State
    requires Enabled(codec, st, step)
  {
    match step
    case Archive(repos) => st.(repos := repos)
    case Prefetch(name, seen) => st.(inn := st.inn[name := FetchFrom(codec, seen, name).bytes])
    case Consume(name) => st.(inn := st.inn - {name})
  }

  ghost predicate Next(codec: Codec, a: State, b: State) {
    exists step :: Enabled(codec, a, step) && b == Apply(codec, a, step)
  }

  /** Any pre-fetches, gets and pushes, from an empty spool. */
  ghost predicate IsRun(codec: Codec, run: seq<State>) {
    && run != [] && run[0].inn == map[]
    && forall k :: 0 <= k < |run| - 1 ==> Next(codec, run[k], run[k + 1])
  }

  lemma RunExtended(codec: Codec, run: seq<State>, next: State)
    requires IsRun(codec, run) && Next(codec, Last(run), next)
    ensures IsRun(codec, run + [next])
  {
    var longer := run + [next];
    forall k | 0 <= k < |longer| - 1 ensures Next(codec, longer[k], longer[k + 1]) {
      if k < |run| - 1 {
        assert Next(codec, run[k], run[k + 1]);
      }
    }
  }

  /** Whatever the repositories held on the way decodes to a segment's content. */
  ghost predicate AlwaysFaithful(codec: Codec, content: Name -> Bytes, run: seq<State>) {
    forall k :: 0 <= k < |run| ==> ReposFaithful(codec, content, run[k].repos)
  }

  /** Everything in the cache is true, and the first repository would say the same. */
  ghost predicate CacheTrue(codec: Codec, content: Name -> Bytes, st: State) {
    && ReposFaithful(codec, content, st.repos)
    && forall name :: name in st.inn ==>
         st.repos != [] && Holds(st.repos[0], name) && st.inn[name] == content(name)
  }

  lemma FaithfulFetch(codec: Codec, content: Name -> Bytes, repos: seq<Repo>, name: Name)
    requires ReposFaithful(codec, content, repos) && repos != [] && Holds(repos[0], name)
    ensures FetchFrom(codec, repos[0], name) == Delivered(content(name))
    ensures Fetch(codec, repos, name) == Delivered(content(name))
  {
    var f := RepoFile(name, ServedForm(repos[0], name));
    assert codec.reverse(f.suffix, 0, repos[0][f]) == Some(content(f.name));
  }

  lemma StepKeepsCache(codec: Codec, content: Name -> Bytes, st: State, step: Step)
    requires CacheTrue(codec, content, st) && Enabled(codec, st, step)
    requires ReposFaithful(codec, content, Apply(codec, st, step).repos)
    ensures CacheTrue(codec, content, Apply(codec, st, step))
  {
    match step
    case Archive(repos) =>
      forall name | name in st.inn ensures repos != [] && Holds(repos[0], name) {
        assert Holds(st.repos[0], name) && st.repos[0].Keys <= repos[0].Keys;
      }
    case Prefetch(name, seen) =>
      FaithfulFetch(codec, content, [seen], name);
      assert Holds(st.repos[0], name) by {
        assert RepoFile(name, ServedForm(seen, name)) in st.repos[0];
      }
    case Consume(_) =>
  }

  /**
   * Whatever has been pre-fetched, consumed and pushed in between, a segment
   * served from the cache is what a synchronous get would deliver, and that is
   * the segment's content.
   */
  lemma {:induction false} CacheIsTransparent(codec: Codec, content: Name -> Bytes, run: seq<State>, k: nat)
    requires IsRun(codec, run) && AlwaysFaithful(codec, content, run) && k < |run|
    ensures CacheTrue(codec, content, run[k])
    ensures forall name :: name in run[k].inn ==>
      Fetch(codec, run[k].repos, name) == Delivered(run[k].inn[name]) && run[k].inn[name] == content(name)
  {
    if k > 0 {
      CacheIsTransparent(codec, content, run, k - 1);
      assert Next(codec, run[k - 1], run[k - 1 + 1]);
      var step :| Enabled(codec, run[k - 1], step) && run[k] == Apply(codec, run[k - 1], step);
      StepKeepsCache(codec, content, run[k - 1], step);
    }
    forall name | name in run[k].inn ensures Fetch(codec, run[k].repos, name) == Delivered(content(name)) {
      FaithfulFetch(codec, content, run[k].repos, name);
    }
  }

  // ----- The round trip through one repository

  datatype Pushed = Pushed(name: Name, suffix: Suffix, bytes: Bytes)

  /** A repository after a list of pushes, from the first to the last. */
  function RepoAfter(codec: Codec, pushes: seq<Pushed>): Repo {
    if pushes == [] then map[] else
      var p := Last(pushes);
      RepoAfter(codec, pushes[..|pushes| - 1])[RepoFile(p.name, p.suffix) := codec.forward(p.suffix, 0, p.bytes)]
  }

  /** The bytes last pushed under a name and a codec. */
  function LastPush(pushes: seq<Pushed>, name: Name, suffix: Suffix): Option<Bytes> {
    if pushes == [] then None
    else if Last(pushes).name == name && Last(pushes).suffix == suffix then Some(Last(pushes).bytes)
    else LastPush(pushes[..|pushes| - 1], name, suffix)
  }

  lemma {:induction false} RepoHasLastPush(codec: Codec, pushes: seq<Pushed>, name: Name, suffix: Suffix)
    ensures var repo, f := RepoAfter(codec, pushes), RepoFile(name, suffix);
      && (f in repo <==> LastPush(pushes, name, suffix).Some?)
      && (f in repo ==> repo[f] == codec.forward(suffix, 0, LastPush(pushes, name, suffix).value))
  {
    if pushes != [] {
      RepoHasLastPush(codec, pushes[..|pushes| - 1], name, suffix);
    }
  }

  /**
   * After any list of pushes under any codecs a get delivers the bytes last
   * pushed in the form that is probed first, of the forms the segment was ever
   * pushed in; and it finds nothing exactly when the segment was never pushed.
   */
  lemma GetAfterPushes(codec: Codec, pushes: seq<Pushed>, name: Name)
    requires Lossless(codec)
    ensures var repo := RepoAfter(codec, pushes);
      if exists p :: p in pushes && p.name == name then
        && Holds(repo, name)
        && LastPush(pushes, name, ServedForm(repo, name)).Some?
        && Fetch(codec, [repo], name) == Delivered(LastPush(pushes, name, ServedForm(repo, name)).value)
      else
        Fetch(codec, [repo], name) in {NotFound, NoHistory}
  {
    var repo := RepoAfter(codec, pushes);
    if p :| p in pushes && p.name == name {
      PushedIsThere(pushes, p);
      RepoHasLastPush(codec, pushes, name, p.suffix);
      assert RepoFile(name, p.suffix) in repo;
      RepoHasLastPush(codec, pushes, name, ServedForm(repo, name));
    } else {
      forall suffix ensures RepoFile(name, suffix) !in repo {
        RepoHasLastPush(codec, pushes, name, suffix);
        NeverPushed(pushes, name, suffix);
      }
      assert [repo][1..] == [];
    }
  }

  lemma {:induction false} PushedIsThere(pushes: seq<Pushed>, p: Pushed)
    requires p in pushes
    ensures LastPush(pushes, p.name, p.suffix).Some?
  {
    if Last(pushes) != p {
      assert p in pushes[..|pushes| - 1];
      PushedIsThere(pushes[..|pushes| - 1], p);
    }
  }

  lemma {:induction false} NeverPushed(pushes: seq<Pushed>, name: Name, suffix: Suffix)
    requires forall p :: p in pushes ==> p.name != name
    ensures LastPush(pushes, name, suffix) == None
  {
    if pushes != [] {
      NeverPushed(pushes[..|pushes| - 1], name, suffix);
    }
  }

  /** The round trip: where a name always carries the same bytes, a get returns them. */
  lemma {:induction false} RoundTrip(codec: Codec, pushes: seq<Pushed>, p: Pushed)
    requires Lossless(codec) && p in pushes
    requires forall q :: q in pushes && q.name == p.name ==> q.bytes == p.bytes
    ensures Fetch(codec, [RepoAfter(codec, pushes)], p.name) == Delivered(p.bytes)
  {
    GetAfterPushes(codec, pushes, p.name);
    LastPushIsAPush(pushes, p.name, ServedForm(RepoAfter(codec, pushes), p.name));
  }

  lemma {:induction false} LastPushIsAPush(pushes: seq<Pushed>, name: Name, suffix: Suffix)
    requires LastPush(pushes, name, suffix).Some?
    ensures Pushed(name, suffix, LastPush(pushes, name, suffix).value) in pushes
  {
    if Last(pushes).name != name || Last(pushes).suffix != suffix {
      LastPushIsAPush(pushes[..|pushes| - 1], name, suffix);
    }
  }

  /** A get delivers given bytes exactly when they were the last pushed in the form that is probed first. */
  lemma DeliveredExactlyWhenLast(codec: Codec, pushes: seq<Pushed>, name: Name, x: Bytes)
    requires Lossless(codec)
    ensures var repo := RepoAfter(codec, pushes);
      Fetch(codec, [repo], name) == Delivered(x) <==>
        Holds(repo, name) && LastPush(pushes, name, ServedForm(repo, name)) == Some(x)
  {
    var repo := RepoAfter(codec, pushes);
    GetAfterPushes(codec, pushes, name);
    if Holds(repo, name) && forall p :: p in pushes ==> p.name != name {
      NeverPushed(pushes, name, ServedForm(repo, name));
    }
  }

  /** A name whose content changes between codecs is not covered: a later push can stay unseen. */
  lemma StaleForm(codec: Codec, name: Name, x: Bytes, y: Bytes)
    requires Lossless(codec)
    ensures Fetch(codec, [RepoAfter(codec, [Pushed(name, Plain, x), Pushed(name, Gz, y)])], name) == Delivered(x)
  {
    var pushes := [Pushed(name, Plain, x), Pushed(name, Gz, y)];
    assert pushes[..1] == [Pushed(name, Plain, x)];
    var repo := RepoAfter(codec, pushes);
    assert pushes[0] in pushes;
    GetAfterPushes(codec, pushes, name);
    RepoHasLastPush(codec, pushes, name, Plain);
    assert RepoFile(name, Plain) in repo && Served(repo, name, Plain);
    ServedIsUnique(repo, name, Plain);
  }
}
