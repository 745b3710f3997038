/**
 * The file names behind the files of the spool and the repositories. The
 * machines speak of files; these lemmas say when the names tell them apart.
 */
module WalNames {
  import opened Base
  import opened Wal
  import WalWindow

  function SpoolText(f: SpoolFile): string {
    match f
    case Staged(name) => name
    case OkStatus(name) => name + ".ok"
    case ErrorStatus(name) => name + ".error"
  }

  function SuffixText(suffix: Suffix): string {
    match suffix case Plain => "" case Gz => ".gz" case Zst => ".zst" case Bz2 => ".bz2" case Lz4 => ".lz4"
  }

  function RepoText(f: RepoFile): string {
    f.name + SuffixText(f.suffix)
  }

  /** The test that skips status files when the backlog is listed or measured. */
  predicate IsStatusText(text: string) {
    EndsWith(text, ".ok") || EndsWith(text, ".error")
  }

  predicate IsCompressedText(text: string) {
    EndsWith(text, ".gz") || EndsWith(text, ".zst") || EndsWith(text, ".bz2") || EndsWith(text, ".lz4")
  }

  lemma EndsWithItsEnd(s: string, end: string)
    ensures EndsWith(s + end, end) && (s + end)[..|s|] == s
  {
  }

  /** The listing takes exactly the staged segments for segments, as long as no segment is named like a status. */
  lemma StatusTextTellsApart(f: SpoolFile)
    ensures f.Staged? ==> (IsStatusText(SpoolText(f)) <==> IsStatusText(f.name))
    ensures !f.Staged? ==> IsStatusText(SpoolText(f))
  {
    EndsWithItsEnd(f.name, ".ok");
    EndsWithItsEnd(f.name, ".error");
  }

  lemma LastOfText(s: string, end: string)
    requires end != ""
    ensures s + end != "" && Last(s + end) == Last(end)
  {
  }

  lemma SameEnd(s: string, t: string, end: string)
    requires s + end == t + end
    ensures s == t
  {
    assert (s + end)[..|s|] == s && (t + end)[..|t|] == t;
  }

  /** Two files of `out/` share a name only if they are one file, or a segment is named like the other's status. */
  lemma SpoolTextUnique(f: SpoolFile, g: SpoolFile)
    requires SpoolText(f) == SpoolText(g)
    ensures f == g || (f.Staged? && IsStatusText(f.name)) || (g.Staged? && IsStatusText(g.name))
  {
    StatusTextTellsApart(f);
    StatusTextTellsApart(g);
    LastOfText(f.name, ".ok");
    LastOfText(f.name, ".error");
    LastOfText(g.name, ".ok");
    LastOfText(g.name, ".error");
    match f
    case Staged(_) =>
    case OkStatus(name) =>
      if g.OkStatus? { SameEnd(f.name, g.name, ".ok"); }
    case ErrorStatus(name) =>
      if g.ErrorStatus? { SameEnd(f.name, g.name, ".error"); }
  }

  lemma CompressedText(f: RepoFile)
    requires f.suffix != Plain
    ensures IsCompressedText(RepoText(f)) && RepoText(f) != "" && Last(RepoText(f)) == Last(SuffixText(f.suffix))
  {
    EndsWithItsEnd(f.name, SuffixText(f.suffix));
    LastOfText(f.name, SuffixText(f.suffix));
  }

  /**
   * The ending of a stored name tells its form, for a segment not named like a
   * compressed one, and taking it off gives the segment's name.
   */
  lemma EndingTellsForm(f: RepoFile)
    requires !IsCompressedText(f.name)
    ensures EndsWith(RepoText(f), ".gz") <==> f.suffix == Gz
    ensures EndsWith(RepoText(f), ".zst") <==> f.suffix == Zst
    ensures EndsWith(RepoText(f), ".bz2") <==> f.suffix == Bz2
    ensures EndsWith(RepoText(f), ".lz4") <==> f.suffix == Lz4
    ensures WalWindow.Stripped(RepoText(f)) == f.name
  {
    WalWindow.StrippedIs(f.name);
    if f.suffix == Plain {
      assert RepoText(f) == f.name;
      forall stem ensures f.name !in {stem + ".gz", stem + ".zst", stem + ".bz2", stem + ".lz4"} {
        EndsWithItsEnd(stem, ".gz");
        EndsWithItsEnd(stem, ".zst");
        EndsWithItsEnd(stem, ".bz2");
        EndsWithItsEnd(stem, ".lz4");
      }
    } else {
      EndsWithItsEnd(f.name, SuffixText(f.suffix));
      LastOfText(f.name, SuffixText(f.suffix));
    }
  }

  /** Two files of a repository share a name only if they are one file, or a segment is named like a compressed one. */
  lemma RepoTextUnique(f: RepoFile, g: RepoFile)
    requires RepoText(f) == RepoText(g)
    ensures f == g || (f.suffix == Plain && IsCompressedText(f.name)) || (g.suffix == Plain && IsCompressedText(g.name))
  {
    if f.suffix == g.suffix {
      SameEnd(f.name, g.name, SuffixText(f.suffix));
    } else if f.suffix == Plain {
      CompressedText(g);
      assert RepoText(f) == f.name;
    } else if g.suffix == Plain {
      CompressedText(f);
      assert RepoText(g) == g.name;
    } else {
      CompressedText(f);
      CompressedText(g);
    }
  }
}
