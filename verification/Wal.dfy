/**
 * What is on disk: the spool's `out/` directory and the configured repositories.
 *
 * A directory is a map from file to bytes. The files of `out/` are the staged
 * segments and their status files; the files of a repository are the stored
 * segments, each under one compression suffix.
 */
module Wal {
  import opened Base

  type Bytes = seq<bv8>
  type Name = string

  /** Stored forms, in no particular order; `Plain` is the suffix-less copy. */
  datatype Suffix = Plain | Gz | Zst | Bz2 | Lz4

  datatype RepoFile = RepoFile(name: Name, suffix: Suffix)

  datatype SpoolFile = Staged(name: Name) | OkStatus(name: Name) | ErrorStatus(name: Name)

  type Repo = map<RepoFile, Bytes>
  type Spool = map<SpoolFile, Bytes>

  datatype Disk = Disk(out: Spool, repos: seq<Repo>)

  /**
   * Compression and encryption: the transform of the repository at an index
   * (each has its own cipher key), for the codec a suffix names.
   */
  datatype Codec = Codec(forward: (Suffix, nat, Bytes) -> Bytes, reverse: (Suffix, nat, Bytes) -> Option<Bytes>)

  ghost predicate Lossless(codec: Codec) {
    forall suffix, i, bytes :: codec.reverse(suffix, i, codec.forward(suffix, i, bytes)) == Some(bytes)
  }

  /** The repository has the segment in some stored form. */
  predicate Holds(repo: Repo, name: Name) {
    exists suffix :: RepoFile(name, suffix) in repo
  }

  predicate HeldByAll(repos: seq<Repo>, name: Name) {
    forall i :: 0 <= i < |repos| ==> Holds(repos[i], name)
  }

  /** Every file of the earlier repositories is still there. */
  predicate Grown(before: seq<Repo>, after: seq<Repo>) {
    && |before| == |after|
    && forall i :: 0 <= i < |before| ==> before[i].Keys <= after[i].Keys
  }

  lemma HeldStaysHeld(before: seq<Repo>, after: seq<Repo>, name: Name)
    requires Grown(before, after) && HeldByAll(before, name)
    ensures HeldByAll(after, name)
  {
    forall i | 0 <= i < |after| ensures Holds(after[i], name) {
      assert Holds(before[i], name);
    }
  }

  /** The segment names staged in `out/`; status files are not segments. */
  function StagedNames(out: Spool): set<Name> {
    set f | f in out && f.Staged? :: f.name
  }

  /** Every stored form of every segment decodes to that segment's content. */
  ghost predicate ReposFaithful(codec: Codec, content: Name -> Bytes, repos: seq<Repo>) {
    forall i, f :: 0 <= i < |repos| && f in repos[i] ==>
      codec.reverse(f.suffix, i, repos[i][f]) == Some(content(f.name))
  }

  ghost predicate StagedFaithful(content: Name -> Bytes, out: Spool) {
    forall f :: f in out && f.Staged? ==> out[f] == content(f.name)
  }

  function StagedFiles(out: Spool): set<SpoolFile> {
    set f | f in out && f.Staged?
  }

  // ----- Sizes of directories

  /** The total size of the files `keys` of a directory. */
  ghost function TotalSize<K(!new)>(files: map<K, Bytes>, keys: set<K>): nat {
    if keys == {} then 0 else
      var f :| f in keys;
      SizeOf(files, f) + TotalSize(files, keys - {f})
  }

  function SizeOf<K>(files: map<K, Bytes>, f: K): nat {
    if f in files then |files[f]| else 0
  }

  /** The total does not depend on the order the files are counted in. */
  lemma {:induction false} TotalWithout<K(!new)>(files: map<K, Bytes>, keys: set<K>, f: K)
    requires f in keys
    ensures TotalSize(files, keys) == SizeOf(files, f) + TotalSize(files, keys - {f})
    decreases keys
  {
    var first :| first in keys && TotalSize(files, keys) == SizeOf(files, first) + TotalSize(files, keys - {first});
    if first != f {
      TotalWithout(files, keys - {first}, f);
      TotalWithout(files, keys - {f}, first);
      assert keys - {first} - {f} == keys - {f} - {first};
    }
  }

  lemma {:induction false} TotalUnchanged<K(!new)>(before: map<K, Bytes>, after: map<K, Bytes>, keys: set<K>)
    requires forall f :: f in keys ==> SizeOf(before, f) == SizeOf(after, f)
    ensures TotalSize(before, keys) == TotalSize(after, keys)
    decreases keys
  {
    if keys != {} {
      var f :| f in keys;
      TotalWithout(before, keys, f);
      TotalWithout(after, keys, f);
      TotalUnchanged(before, after, keys - {f});
    }
  }

  /** Writing a file adds at most its size: less, when it replaces an earlier one. */
  lemma TotalAfterWrite<K(!new)>(files: map<K, Bytes>, f: K, bytes: Bytes)
    ensures TotalSize(files[f := bytes], files[f := bytes].Keys) ==
      TotalSize(files, files.Keys) - SizeOf(files, f) + |bytes|
  {
    var after := files[f := bytes];
    TotalWithout(after, after.Keys, f);
    TotalUnchanged(files, after, files.Keys - {f});
    assert after.Keys - {f} == files.Keys - {f};
    if f in files {
      TotalWithout(files, files.Keys, f);
    } else {
      assert files.Keys - {f} == files.Keys;
    }
  }
}
