/** Trimming and taking apart single lines of text. Whitespace is that of ASCII. */
module Lines {
  import opened Base

  predicate IsSpace(c: char) {
    c == ' ' || ('\t' <= c <= '\r')
  }

  /** Tab, line feed, vertical tab, form feed, carriage return and the blank. */
  lemma SpaceIs(c: char)
    ensures IsSpace(c) <==> c as int in {9, 10, 11, 12, 13, 32}
  {
  }

  function TrimStart(s: string): (t: string)
    ensures |t| <= |s|
  {
    if s != "" && IsSpace(s[0]) then TrimStart(s[1..]) else s
  }

  function TrimEnd(s: string): (t: string)
    ensures |t| <= |s|
  {
    if s != "" && IsSpace(s[|s| - 1]) then TrimEnd(s[..|s| - 1]) else s
  }

  function Trim(s: string): string {
    TrimEnd(TrimStart(s))
  }

  predicate AllSpace(s: string) {
    forall i :: 0 <= i < |s| ==> IsSpace(s[i])
  }

  /** Leading whitespace is all that comes off. */
  lemma {:induction false} TrimStartOf(pad: string, s: string)
    requires AllSpace(pad) && (s != "" ==> !IsSpace(s[0]))
    ensures TrimStart(pad + s) == s
  {
    if pad == "" {
      assert pad + s == s;
    } else {
      assert (pad + s)[1..] == pad[1..] + s;
      TrimStartOf(pad[1..], s);
    }
  }

  lemma {:induction false} TrimEndOf(s: string, pad: string)
    requires AllSpace(pad) && (s != "" ==> !IsSpace(s[|s| - 1]))
    ensures TrimEnd(s + pad) == s
  {
    if pad == "" {
      assert s + pad == s;
    } else {
      assert (s + pad)[..|s + pad| - 1] == s + pad[..|pad| - 1];
      TrimEndOf(s, pad[..|pad| - 1]);
    }
  }

  /** A string with whitespace around it trims to itself. */
  lemma TrimOf(before: string, s: string, after: string)
    requires AllSpace(before) && AllSpace(after)
    requires s != "" ==> !IsSpace(s[0]) && !IsSpace(s[|s| - 1])
    ensures Trim(before + s + after) == s
  {
    if s == "" {
      TrimStartOf(before + after, "");
      assert before + s + after == before + after + "";
    } else {
      TrimStartOf(before, s + after);
      TrimEndOf(s, after);
      assert before + s + after == before + (s + after);
    }
  }
}
