/**
 * The block mappings of a YAML text, seen through the indent and the key of
 * each line, and the rewriting that leaves every key once in its mapping.
 */
module Mappings {
  import opened Base

  /** A line: blank or a comment, an entry of a mapping, or anything else. */
  datatype Line = Skip | Other(indent: nat) | Entry(indent: nat, key: string, value: string)

  // ----- Mappings

  /** A line that does not end a mapping of an indent. */
  predicate Inside(line: Line, indent: nat) {
    line.Skip? || line.indent >= indent
  }

  /**
   * Two entries of one indent belong to one mapping when no line between them
   * is less indented (section 6.1 of YAML 1.2: a node's lines are indented
   * deeper than its parent's).
   */
  ghost predicate SameMapping(lines: seq<Line>, i: nat, j: nat)
    requires i < |lines| && j < |lines|
  {
    && lines[i].Entry? && lines[j].Entry? && lines[i].indent == lines[j].indent
    && (forall m :: i < m < j ==> Inside(lines[m], lines[i].indent))
    && (forall m :: j < m < i ==> Inside(lines[m], lines[i].indent))
  }

  /** No key twice in one mapping (section 3.2.1.1 of YAML 1.2). */
  ghost predicate NoDuplicates(lines: seq<Line>) {
    forall i, j :: 0 <= i < j < |lines| && SameMapping(lines, i, j) ==> lines[i].key != lines[j].key
  }

  /**
   * Of the first `n` lines, the entries for a key in the mapping of an indent
   * that is open after them, in order.
   */
  function OpenGroup(lines: seq<Line>, indent: nat, key: string, n: nat): (group: seq<nat>)
    requires n <= |lines|
  {
    if n == 0 then [] else
      var line, before := lines[n - 1], OpenGroup(lines, indent, key, n - 1);
      if !Inside(line, indent) then []
      else if line.Entry? && line.indent == indent && line.key == key then before + [n - 1]
      else before
  }

  /** The line at which a mapping of an indent open at line `n` ends. */
  function MappingEnd(lines: seq<Line>, indent: nat, n: nat): (end: nat)
    requires n <= |lines|
    ensures n <= end <= |lines|
    ensures forall m :: n <= m < end ==> Inside(lines[m], indent)
    ensures end < |lines| ==> !Inside(lines[end], indent)
    decreases |lines| - n
  {
    if n == |lines| || !Inside(lines[n], indent) then n else MappingEnd(lines, indent, n + 1)
  }

  /** All the entries for the key of entry `j` in its mapping. */
  function Group(lines: seq<Line>, j: nat): seq<nat>
    requires j < |lines| && lines[j].Entry?
  {
    OpenGroup(lines, lines[j].indent, lines[j].key, MappingEnd(lines, lines[j].indent, j))
  }

  ghost predicate InOpen(lines: seq<Line>, indent: nat, key: string, n: nat, j: nat)
    requires n <= |lines|
  {
    && j < n && lines[j].Entry? && lines[j].indent == indent && lines[j].key == key
    && forall m :: j < m < n ==> Inside(lines[m], indent)
  }

  ghost predicate Increasing(s: seq<nat>) {
    forall a, b :: 0 <= a < b < |s| ==> s[a] < s[b]
  }

  lemma {:induction false} OpenGroupMembers(lines: seq<Line>, indent: nat, key: string, n: nat)
    requires n <= |lines|
    ensures forall j: nat :: j in OpenGroup(lines, indent, key, n) <==> InOpen(lines, indent, key, n, j)
    ensures Increasing(OpenGroup(lines, indent, key, n))
  {
    if n > 0 {
      OpenGroupMembers(lines, indent, key, n - 1);
      forall j: nat ensures j in OpenGroup(lines, indent, key, n) <==> InOpen(lines, indent, key, n, j) {
        if j < n - 1 {
          assert InOpen(lines, indent, key, n, j) <==>
            InOpen(lines, indent, key, n - 1, j) && Inside(lines[n - 1], indent);
        }
      }
      var before := OpenGroup(lines, indent, key, n - 1);
      forall k | 0 <= k < |before| ensures before[k] < n - 1 {
        assert InOpen(lines, indent, key, n - 1, before[k]);
      }
    }
  }

  /** A key's group is what it should be: the entries of its mapping with its key. */
  lemma GroupIsMapping(lines: seq<Line>, j: nat, k: nat)
    requires j < |lines| && lines[j].Entry? && k < |lines|
    ensures k in Group(lines, j) <==> SameMapping(lines, j, k) && lines[j].key == lines[k].key
    ensures Increasing(Group(lines, j)) && j in Group(lines, j)
    ensures forall m :: m in Group(lines, j) ==> m < |lines|
  {
    var indent, key := lines[j].indent, lines[j].key;
    var end := MappingEnd(lines, indent, j);
    OpenGroupMembers(lines, indent, key, end);
    assert InOpen(lines, indent, key, end, j);
    if SameMapping(lines, j, k) && lines[k].key == key {
      assert k < end;
      forall m | k < m < end ensures Inside(lines[m], indent) {
        if m >= j { assert Inside(lines[m], indent); }
      }
      assert InOpen(lines, indent, key, end, k);
    }
    if k in Group(lines, j) {
      assert InOpen(lines, indent, key, end, k);
    }
  }

  /** The entries of a group all have that group. */
  lemma GroupShared(lines: seq<Line>, j: nat, k: nat)
    requires j < |lines| && lines[j].Entry? && k in Group(lines, j)
    ensures k < |lines| && lines[k].Entry? && Group(lines, k) == Group(lines, j)
  {
    var indent, key := lines[j].indent, lines[j].key;
    var end := MappingEnd(lines, indent, j);
    OpenGroupMembers(lines, indent, key, end);
    assert InOpen(lines, indent, key, end, k);
    EndIs(lines, indent, k, end);
  }

  lemma {:induction false} EndIs(lines: seq<Line>, indent: nat, k: nat, end: nat)
    requires k <= end <= |lines| && (end < |lines| ==> !Inside(lines[end], indent))
    requires forall m :: k <= m < end ==> Inside(lines[m], indent)
    ensures MappingEnd(lines, indent, k) == end
    decreases end - k
  {
    if k < end {
      assert Inside(lines[k], indent);
      EndIs(lines, indent, k + 1, end);
    }
  }

  // ----- The rewriting

  predicate Additive(key: string) {
    key != "" && (key[0] == '+' || key[0] == '-')
  }

  /** Between successive entries of a group there is nothing but blank lines and comments. */
  predicate Consecutive(lines: seq<Line>, group: seq<nat>) {
    forall a :: 0 <= a < |group| - 1 ==> forall m :: group[a] < m < group[a + 1] && m < |lines| ==> lines[m].Skip?
  }

  datatype Fate = Keep | Drop | Merge(values: seq<string>)

  function Values(lines: seq<Line>, group: seq<nat>): seq<string> {
    seq(|group|, k requires 0 <= k < |group| =>
      if group[k] < |lines| && lines[group[k]].Entry? then lines[group[k]].value else "")
  }

  /** What becomes of one entry of a group: additive keys are merged, of any other the last stays. */
  function FateIn(lines: seq<Line>, key: string, group: seq<nat>, j: nat): Fate {
    if |group| <= 1 then Keep
    else if Additive(key) && Consecutive(lines, group) then
      (if j == group[0] then Merge(Values(lines, group)) else Drop)
    else if j == Last(group) then Keep
    else Drop
  }

  function FateOf(lines: seq<Line>, j: nat): Fate
    requires j < |lines|
  {
    if lines[j].Entry? then FateIn(lines, lines[j].key, Group(lines, j), j) else Keep
  }

  function Separated(values: seq<string>): string {
    if values == [] then ""
    else if |values| == 1 then values[0]
    else Separated(values[..|values| - 1]) + ", " + Last(values)
  }

  function ListText(values: seq<string>): string {
    "[" + Separated(values) + "]"
  }

  // ----- Reading a list back

  /** The pieces of a text between its separators, `piece` being the one under way. */
  function Pieces(s: string, piece: string): seq<string> {
    if s == "" then [piece]
    else if |s| >= 2 && s[0] == ',' && s[1] == ' ' then [piece] + Pieces(s[2..], "")
    else Pieces(s[1..], piece + [s[0]])
  }

  /** The items of a list in brackets. */
  function ListItems(text: string): seq<string>
    requires |text| >= 2
  {
    Pieces(text[1..|text| - 1], "")
  }

  predicate HasSeparator(s: string) {
    exists i :: 0 <= i < |s| - 1 && s[i] == ',' && s[i + 1] == ' '
  }

  lemma {:induction false} PiecesOfValue(value: string, rest: string, piece: string)
    requires !HasSeparator(value) && (rest == "" || rest[0] == ',')
    ensures Pieces(value + rest, piece) == Pieces(rest, piece + value)
  {
    if value == "" {
      assert value + rest == rest && piece + value == piece;
    } else {
      var s := value + rest;
      assert s[1..] == value[1..] + rest && (piece + [value[0]]) + value[1..] == piece + value;
      if |value| >= 2 { assert !(value[0] == ',' && value[0 + 1] == ' '); }
      NoSeparatorAfter(value);
      PiecesOfValue(value[1..], rest, piece + [value[0]]);
    }
  }

  lemma NoSeparatorAfter(value: string)
    requires value != "" && !HasSeparator(value)
    ensures !HasSeparator(value[1..])
  {
    forall i | 0 <= i < |value[1..]| - 1 ensures !(value[1..][i] == ',' && value[1..][i + 1] == ' ') {
      assert !(value[i + 1] == ',' && value[i + 1 + 1] == ' ');
    }
  }

  lemma {:induction false} SeparatedFirst(values: seq<string>)
    requires |values| >= 2
    ensures Separated(values) == values[0] + (", " + Separated(values[1..]))
  {
    if |values| > 2 {
      SeparatedFirst(values[..|values| - 1]);
      assert values[1..][..|values| - 2] == values[..|values| - 1][1..];
    } else {
      assert values[..1] == [values[0]] && values[1..] == [values[1]];
    }
  }

  lemma {:induction false} SeparatedReadsBack(values: seq<string>)
    requires values != [] && forall v :: v in values ==> !HasSeparator(v)
    ensures Pieces(Separated(values), "") == values
  {
    if |values| == 1 {
      PiecesOfValue(values[0], "", "");
      assert values[0] + "" == values[0] && "" + values[0] == values[0];
    } else {
      var rest := ", " + Separated(values[1..]);
      SeparatedFirst(values);
      PiecesOfValue(values[0], rest, "");
      assert rest[2..] == Separated(values[1..]) && "" + values[0] == values[0];
      SeparatedReadsBack(values[1..]);
    }
  }

  /** No piece holds a separator. */
  lemma {:induction false} PiecesHaveNoSeparator(s: string, piece: string, p: string)
    requires !HasSeparator(piece) && (piece != "" && Last(piece) == ',' && s != "" ==> s[0] != ' ')
    requires p in Pieces(s, piece)
    ensures !HasSeparator(p)
  {
    if s != "" {
      if |s| >= 2 && s[0] == ',' && s[1] == ' ' {
        if p != piece {
          PiecesHaveNoSeparator(s[2..], "", p);
        }
      } else {
        var more := piece + [s[0]];
        forall i | 0 <= i < |more| - 1 ensures !(more[i] == ',' && more[i + 1] == ' ') {
          if i < |piece| - 1 {
            assert !(piece[i] == ',' && piece[i + 1] == ' ');
          }
        }
        PiecesHaveNoSeparator(s[1..], more, p);
      }
    }
  }

  /** A merged list reads back as its values exactly when none of them holds a separator. */
  lemma ListReadsBack(values: seq<string>)
    requires values != []
    ensures var text := ListText(values); |text| >= 2 && text[0] == '[' && Last(text) == ']'
    ensures ListItems(ListText(values)) == values <==>
      forall v :: v in values ==> forall i :: 0 <= i < |v| - 1 ==> !(v[i] == ',' && v[i + 1] == ' ')
  {
    var text := ListText(values);
    assert text[1..|text| - 1] == Separated(values);
    forall v | v in values
      ensures !HasSeparator(v) <==> forall i :: 0 <= i < |v| - 1 ==> !(v[i] == ',' && v[i + 1] == ' ')
    {
    }
    if forall v :: v in values ==> !HasSeparator(v) {
      SeparatedReadsBack(values);
    } else if ListItems(text) == values {
      var v :| v in values && HasSeparator(v);
      PiecesHaveNoSeparator(Separated(values), "", v);
    }
  }

  function Rewritten(line: Line, fate: Fate): Line {
    if fate.Merge? && line.Entry? then Entry(line.indent, line.key, ListText(fate.values)) else line
  }

  /** The lines kept of the first `n`, by their places. */
  function Kept(lines: seq<Line>, n: nat): (kept: seq<nat>)
    requires n <= |lines|
    ensures forall k :: 0 <= k < |kept| ==> kept[k] < n
  {
    if n == 0 then [] else
      Kept(lines, n - 1) + if FateOf(lines, n - 1).Drop? then [] else [n - 1]
  }

  /** The rewritten text. */
  function Rewrite(lines: seq<Line>): seq<Line> {
    var kept := Kept(lines, |lines|);
    seq(|kept|, k requires 0 <= k < |kept| => Rewritten(lines[kept[k]], FateOf(lines, kept[k])))
  }

  lemma {:induction false} KeptMembers(lines: seq<Line>, n: nat)
    requires n <= |lines|
    ensures Increasing(Kept(lines, n))
    ensures forall j: nat :: j in Kept(lines, n) <==> j < n && !FateOf(lines, j).Drop?
  {
    if n > 0 {
      KeptMembers(lines, n - 1);
    }
  }

  // ----- What the rewriting promises

  /** The next line that is not blank or a comment is not deeper. */
  ghost predicate Leaf(lines: seq<Line>, j: nat)
    requires j < |lines| && !lines[j].Skip?
  {
    forall k :: j < k < |lines| && !lines[k].Skip? && (forall m :: j < m < k ==> lines[m].Skip?) ==>
      lines[k].indent <= lines[j].indent
  }

  /** Every dropped entry is a leaf: it has no block of its own. */
  ghost predicate DropsLeaves(lines: seq<Line>) {
    forall j :: 0 <= j < |lines| && FateOf(lines, j).Drop? ==> Leaf(lines, j)
  }

  lemma DroppedIsEntry(lines: seq<Line>, j: nat)
    requires j < |lines| && FateOf(lines, j).Drop?
    ensures lines[j].Entry?
  {
  }

  /** A line that ends a mapping between two lines is kept, or a later one does. */
  lemma {:induction false} EndIsKept(lines: seq<Line>, m: nat, j: nat, indent: nat) returns (k: nat)
    requires DropsLeaves(lines) && m < j < |lines| && !Inside(lines[m], indent) && Inside(lines[j], indent)
    requires !lines[j].Skip?
    ensures m <= k < j && !Inside(lines[k], indent) && !FateOf(lines, k).Drop?
    decreases j - m
  {
    if !FateOf(lines, m).Drop? {
      return m;
    }
    DroppedIsEntry(lines, m);
    assert Leaf(lines, m);
    var next := NextLine(lines, m, j);
    assert lines[next].indent <= lines[m].indent;
    k := EndIsKept(lines, next, j, indent);
  }

  lemma {:induction false} NextLine(lines: seq<Line>, m: nat, j: nat) returns (next: nat)
    requires m < j < |lines| && !lines[j].Skip?
    ensures m < next <= j && !lines[next].Skip? && forall i :: m < i < next ==> lines[i].Skip?
    decreases j - m
  {
    next := m + 1;
    while lines[next].Skip?
      invariant m < next <= j && forall i :: m < i < next ==> lines[i].Skip?
      decreases j - next
    {
      next := next + 1;
    }
  }

  lemma PlaceOrder(s: seq<nat>, a: nat, b: nat)
    requires Increasing(s) && a < |s| && b < |s| && s[a] < s[b]
    ensures a < b
  {
  }

  lemma TwoMembers(s: seq<nat>)
    requires Increasing(s) && |s| > 1
    ensures s[0] in s && s[1] in s && s[0] < s[1]
  {
  }

  /**
   * Two entries that stay and have one indent and key stand apart: a line that
   * stays ends the mapping of the first before the second.
   */
  ghost predicate StaysApart(lines: seq<Line>) {
    forall i, j :: 0 <= i < j < |lines| && BothStay(lines, i, j) && SameKey(lines[i], lines[j]) ==> Parted(lines, i, j)
  }

  predicate BothStay(lines: seq<Line>, i: nat, j: nat)
    requires i < |lines| && j < |lines|
  {
    !FateOf(lines, i).Drop? && !FateOf(lines, j).Drop?
  }

  predicate SameIndent(a: Line, b: Line) {
    a.Entry? && b.Entry? && a.indent == b.indent
  }

  predicate SameKey(a: Line, b: Line) {
    SameIndent(a, b) && a.key == b.key
  }

  predicate Parted(lines: seq<Line>, i: nat, j: nat)
    requires i < j < |lines| && lines[i].Entry?
  {
    exists m :: i < m < j && !FateOf(lines, m).Drop? && !Inside(lines[m], lines[i].indent)
  }

  /** What of a line the mappings depend on is not rewritten. */
  lemma RewrittenLines(lines: seq<Line>, p: nat)
    requires p < |Rewrite(lines)|
    ensures p < |Kept(lines, |lines|)|
    ensures var line, out := lines[Kept(lines, |lines|)[p]], Rewrite(lines)[p];
      && (out.Entry? <==> line.Entry?) && (out.Entry? ==> out.indent == line.indent && out.key == line.key)
      && forall indent :: Inside(out, indent) <==> Inside(line, indent)
  {
  }

  lemma KeptPlace(lines: seq<Line>, m: nat) returns (r: nat)
    requires m < |lines| && !FateOf(lines, m).Drop?
    ensures r < |Kept(lines, |lines|)| && Kept(lines, |lines|)[r] == m
  {
    KeptMembers(lines, |lines|);
    var kept := Kept(lines, |lines|);
    r :| 0 <= r < |kept| && kept[r] == m;
  }

  /** Entries are parted in the rewritten text exactly when they were by a line that stays. */
  lemma PartedAfter(lines: seq<Line>, p: nat, q: nat)
    requires p < q < |Rewrite(lines)| && SameIndent(Rewrite(lines)[p], Rewrite(lines)[q])
    ensures |Kept(lines, |lines|)| == |Rewrite(lines)|
    ensures var i, j := Kept(lines, |lines|)[p], Kept(lines, |lines|)[q];
      && i < j && BothStay(lines, i, j) && SameIndent(lines[i], lines[j])
      && (SameKey(lines[i], lines[j]) <==> SameKey(Rewrite(lines)[p], Rewrite(lines)[q]))
      && (SameMapping(Rewrite(lines), p, q) <==> !Parted(lines, i, j))
  {
    hide Rewrite, Kept, FateOf;
    var kept, out := Kept(lines, |lines|), Rewrite(lines);
    KeptMembers(lines, |lines|);
    RewriteLength(lines);
    RewrittenLines(lines, p);
    RewrittenLines(lines, q);
    var i, j := kept[p], kept[q];
    if Parted(lines, i, j) {
      var m :| i < m < j && !FateOf(lines, m).Drop? && !Inside(lines[m], lines[i].indent);
      var r := KeptPlace(lines, m);
      PlaceOrder(kept, p, r);
      PlaceOrder(kept, r, q);
      RewrittenLines(lines, r);
      assert !Inside(out[r], out[p].indent);
    } else {
      forall r | p < r < q ensures Inside(out[r], out[p].indent) {
        RewrittenLines(lines, r);
        assert i < kept[r] < j && kept[r] in kept;
      }
    }
  }

  /**
   * Where every dropped entry is a leaf, entries that stay are of one mapping
   * after the rewriting exactly when they were before it.
   */
  lemma MappingsNotJoined(lines: seq<Line>, p: nat, q: nat)
    requires DropsLeaves(lines) && p < q < |Rewrite(lines)| && SameIndent(Rewrite(lines)[p], Rewrite(lines)[q])
    ensures |Kept(lines, |lines|)| == |Rewrite(lines)|
    ensures SameMapping(Rewrite(lines), p, q) <==> SameMapping(lines, Kept(lines, |lines|)[p], Kept(lines, |lines|)[q])
  {
    hide Rewrite, Kept, FateOf;
    PartedAfter(lines, p, q);
    var i, j := Kept(lines, |lines|)[p], Kept(lines, |lines|)[q];
    if m :| i < m < j && !Inside(lines[m], lines[i].indent) {
      var k := EndIsKept(lines, m, j, lines[i].indent);
      assert i < k < j && !FateOf(lines, k).Drop? && !Inside(lines[k], lines[i].indent);
    }
  }

  /** The rewritten text has no key twice in one mapping exactly when entries that stay stand apart. */
  lemma NoDuplicatesExactlyWhenApart(lines: seq<Line>)
    ensures NoDuplicates(Rewrite(lines)) <==> StaysApart(lines)
  {
    hide Rewrite, Kept, FateOf;
    var out := Rewrite(lines);
    RewriteLength(lines);
    if StaysApart(lines) {
      forall p, q | 0 <= p < q < |out| && SameMapping(out, p, q) ensures out[p].key != out[q].key {
        if out[p].key == out[q].key {
          PartedAfter(lines, p, q);
        }
      }
    }
    if NoDuplicates(out) {
      forall i, j | 0 <= i < j < |lines| && BothStay(lines, i, j) && SameKey(lines[i], lines[j])
        ensures Parted(lines, i, j)
      {
        var p := KeptPlace(lines, i);
        var q := KeptPlace(lines, j);
        KeptMembers(lines, |lines|);
        PlaceOrder(Kept(lines, |lines|), p, q);
        RewrittenLines(lines, p);
        RewrittenLines(lines, q);
        PartedAfter(lines, p, q);
      }
    }
  }

  lemma RewriteLength(lines: seq<Line>)
    ensures |Rewrite(lines)| == |Kept(lines, |lines|)|
  {
  }

  /** It is enough that every dropped entry is a leaf, without a block of its own. */
  lemma LeavesStayApart(lines: seq<Line>)
    requires DropsLeaves(lines)
    ensures StaysApart(lines)
  {
    forall i, j | 0 <= i < j < |lines| && BothStay(lines, i, j) && SameKey(lines[i], lines[j])
      ensures Parted(lines, i, j)
    {
      var indent := lines[i].indent;
      if m :| i < m < j && !Inside(lines[m], indent) {
        var k := EndIsKept(lines, m, j, indent);
        assert i < k < j && !FateOf(lines, k).Drop? && !Inside(lines[k], indent);
      } else {
        assert SameMapping(lines, i, j);
        GroupKeepsOne(lines, i, j);
      }
    }
  }

  /** Where every dropped entry is a leaf, the rewritten text has no key twice in one mapping. */
  lemma RewriteHasNoDuplicates(lines: seq<Line>)
    requires DropsLeaves(lines)
    ensures NoDuplicates(Rewrite(lines))
  {
    LeavesStayApart(lines);
    NoDuplicatesExactlyWhenApart(lines);
  }

  /** But it is not needed: here the second `a` takes the block of the first. */
  lemma LeavesAreNotNeeded()
    ensures var lines := [Entry(0, "a", ""), Entry(2, "x", "1"), Entry(0, "a", "")];
      !DropsLeaves(lines) && StaysApart(lines)
  {
    var ls := [Entry(0, "a", ""), Entry(2, "x", "1"), Entry(0, "a", "")];
    assert OpenGroup(ls, 0, "a", 3) == [0, 2] by {
      assert OpenGroup(ls, 0, "a", 1) == [0];
    }
    EndIs(ls, 0, 0, 3);
    EndIs(ls, 0, 2, 3);
    assert FateOf(ls, 0) == Drop;
    assert !Leaf(ls, 0) by {
      assert ls[1].indent > ls[0].indent;
    }
  }

  /** Two different entries of a group are not both kept. */
  lemma GroupKeepsOne(lines: seq<Line>, i: nat, j: nat)
    requires i < |lines| && j < |lines| && i != j && SameMapping(lines, i, j) && lines[i].key == lines[j].key
    ensures FateOf(lines, i).Drop? || FateOf(lines, j).Drop?
  {
    GroupIsMapping(lines, i, j);
    GroupShared(lines, i, j);
  }

  /** Several entries of a key with a plus or a minus, and only blanks and comments between them. */
  predicate Merges(lines: seq<Line>, group: seq<nat>, key: string)
    requires forall a :: 0 <= a < |group| ==> group[a] < |lines|
  {
    && |group| > 1 && key != "" && (key[0] == '+' || key[0] == '-')
    && forall a :: 0 <= a < |group| - 1 ==> forall m :: group[a] < m < group[a + 1] ==> lines[m].Skip?
  }

  /** A list in brackets that reads back as the values of the entries, if none of them holds a separator. */
  predicate IsListOf(text: string, lines: seq<Line>, group: seq<nat>)
    requires forall a :: 0 <= a < |group| ==> group[a] < |lines| && lines[group[a]].Entry?
  {
    && |text| >= 2 && text[0] == '[' && text[|text| - 1] == ']'
    && ((forall a :: 0 <= a < |group| ==> !HasSeparator(lines[group[a]].value)) ==>
          && |ListItems(text)| == |group|
          && forall a :: 0 <= a < |group| ==> ListItems(text)[a] == lines[group[a]].value)
  }

  lemma ValuesAreListed(lines: seq<Line>, group: seq<nat>)
    requires group != [] && forall a :: 0 <= a < |group| ==> group[a] < |lines| && lines[group[a]].Entry?
    ensures IsListOf(ListText(Values(lines, group)), lines, group)
  {
    var values := Values(lines, group);
    ListReadsBack(values);
    if forall a :: 0 <= a < |group| ==> !HasSeparator(lines[group[a]].value) {
      forall v | v in values ensures !HasSeparator(v) {
        var a :| 0 <= a < |group| && values[a] == v;
      }
    }
  }

  lemma GroupEntries(lines: seq<Line>, j: nat)
    requires j < |lines| && lines[j].Entry?
    ensures var group := Group(lines, j);
      group != [] && forall a :: 0 <= a < |group| ==> group[a] < |lines| && lines[group[a]].Entry?
  {
    var group := Group(lines, j);
    GroupIsMapping(lines, j, j);
    forall a | 0 <= a < |group| ensures group[a] < |lines| && lines[group[a]].Entry? {
      assert group[a] in group;
      GroupIsMapping(lines, j, group[a]);
    }
  }

  /** What the one that stays is rewritten to. */
  lemma SurvivorLine(lines: seq<Line>, group: seq<nat>, key: string, k: nat)
    requires group != [] && forall a :: 0 <= a < |group| ==> group[a] < |lines| && lines[group[a]].Entry?
    requires k == Survivor(lines, group, key)
    ensures k < |lines| && lines[k].Entry?
    ensures var line := Rewritten(lines[k], FateIn(lines, key, group, k));
      && line.Entry? && line.indent == lines[k].indent && line.key == lines[k].key
      && if Merges(lines, group, key) then k == group[0] && IsListOf(line.value, lines, group)
         else k == Last(group) && line.value == lines[k].value
  {
    hide ListText, Separated, ListItems, Pieces, IsListOf;
    ValuesAreListed(lines, group);
    assert Merges(lines, group, key) <==> |group| > 1 && Additive(key) && Consecutive(lines, group);
  }

  /** The entry of each group that stays, and the value it stays with. */
  function Survivor(lines: seq<Line>, group: seq<nat>, key: string): nat
    requires group != []
  {
    if |group| > 1 && Additive(key) && Consecutive(lines, group) then group[0] else Last(group)
  }

  /**
   * Every key stays, once: a group of an additive key between whose entries there
   * are only blanks and comments as one list of all their values in order, at the
   * place of the first, any other group with its last value at the place of the last.
   */
  lemma EveryKeyStays(lines: seq<Line>, j: nat)
    requires j < |lines| && lines[j].Entry?
    ensures var group := Group(lines, j);
      && group != [] && (forall a :: 0 <= a < |group| ==> group[a] < |lines| && lines[group[a]].Entry?)
      && var k := Survivor(lines, group, lines[j].key);
         && k in Kept(lines, |lines|) && (forall m :: m in group && m in Kept(lines, |lines|) ==> m == k)
         && var line := Rewritten(lines[k], FateOf(lines, k));
            && line.Entry? && line.indent == lines[j].indent && line.key == lines[j].key
            && if Merges(lines, group, lines[j].key) then k == group[0] && IsListOf(line.value, lines, group)
               else k == Last(group) && line.value == lines[Last(group)].value
  {
    hide ListText, Separated, IsListOf, Merges;
    GroupEntries(lines, j);
    var group := Group(lines, j);
    SurvivorLine(lines, group, lines[j].key, Survivor(lines, group, lines[j].key));
    GroupIsMapping(lines, j, j);
    KeptMembers(lines, |lines|);
    var k := Survivor(lines, group, lines[j].key);
    assert k in group;
    GroupIsMapping(lines, j, k);
    GroupShared(lines, j, k);
    forall m | m in group && m in Kept(lines, |lines|) ensures m == k {
      GroupShared(lines, j, m);
      GroupIsMapping(lines, j, m);
    }
  }

  /** On a text with no key twice in a mapping the rewriting changes nothing. */
  lemma RewriteOfCleanIsSame(lines: seq<Line>)
    requires NoDuplicates(lines)
    ensures Rewrite(lines) == lines
    ensures forall j :: 0 <= j < |lines| ==> FateOf(lines, j) == Keep
  {
    forall j | 0 <= j < |lines| ensures FateOf(lines, j) == Keep {
      if lines[j].Entry? {
        var group := Group(lines, j);
        GroupIsMapping(lines, j, j);
        forall k | k in group ensures k == j {
          GroupIsMapping(lines, j, k);
        }
        if |group| > 1 {
          TwoMembers(group);
          assert false;
        }
      }
    }
    AllKept(lines, |lines|);
  }

  lemma {:induction false} AllKept(lines: seq<Line>, n: nat)
    requires n <= |lines| && forall j :: 0 <= j < n ==> FateOf(lines, j) == Keep
    ensures Kept(lines, n) == seq(n, i => i)
  {
    if n > 0 {
      AllKept(lines, n - 1);
    }
  }

  /** The texts that rewriting leaves alone are exactly those with no key twice in a mapping. */
  lemma FixedExactlyWhenClean(lines: seq<Line>)
    ensures Rewrite(lines) == lines <==> NoDuplicates(lines)
  {
    if NoDuplicates(lines) {
      RewriteOfCleanIsSame(lines);
    } else {
      var i, j :| 0 <= i < j < |lines| && SameMapping(lines, i, j) && lines[i].key == lines[j].key;
      GroupKeepsOne(lines, i, j);
      KeptFewer(lines, |lines|, if FateOf(lines, i).Drop? then i else j);
      RewriteLength(lines);
    }
  }

  lemma {:induction false} KeptFewer(lines: seq<Line>, n: nat, j: nat)
    requires n <= |lines|
    ensures |Kept(lines, n)| <= n
    ensures j < n && FateOf(lines, j).Drop? ==> |Kept(lines, n)| < n
  {
    if n > 0 {
      KeptFewer(lines, n - 1, j);
    }
  }

  /** Rewriting again changes nothing, exactly when entries that stay stand apart. */
  lemma IdempotentExactlyWhenApart(lines: seq<Line>)
    ensures Rewrite(Rewrite(lines)) == Rewrite(lines) <==> StaysApart(lines)
  {
    FixedExactlyWhenClean(Rewrite(lines));
    NoDuplicatesExactlyWhenApart(lines);
  }

  lemma RewriteIsIdempotent(lines: seq<Line>)
    requires DropsLeaves(lines)
    ensures Rewrite(Rewrite(lines)) == Rewrite(lines)
  {
    LeavesStayApart(lines);
    IdempotentExactlyWhenApart(lines);
  }

  /** Here the first `a` goes and its block stays. */
  function LeftBehind(): seq<Line> {
    [Entry(0, "r", ""), Entry(2, "x", "1"), Entry(0, "a", ""), Entry(2, "x", "2"), Entry(0, "a", "")]
  }

  lemma LeftBehindFates()
    ensures var ls := LeftBehind();
      && FateOf(ls, 0) == FateOf(ls, 1) == FateOf(ls, 3) == FateOf(ls, 4) == Keep
      && FateOf(ls, 2) == Drop
  {
    var ls := LeftBehind();
    assert Group(ls, 0) == [0] by {
      EndIs(ls, 0, 0, 5);
      assert OpenGroup(ls, 0, "r", 1) == [0];
      assert OpenGroup(ls, 0, "r", 3) == [0];
    }
    assert Group(ls, 1) == [1] by {
      EndIs(ls, 2, 1, 2);
    }
    assert Group(ls, 3) == [3] by {
      EndIs(ls, 2, 3, 4);
      assert OpenGroup(ls, 2, "x", 3) == [];
    }
    assert OpenGroup(ls, 0, "a", 5) == [2, 4] by {
      assert OpenGroup(ls, 0, "a", 3) == [2];
    }
    EndIs(ls, 0, 2, 5);
    EndIs(ls, 0, 4, 5);
  }

  lemma LeftBehindKept()
    ensures Kept(LeftBehind(), 5) == [0, 1, 3, 4]
  {
    LeftBehindFates();
    var ls := LeftBehind();
    assert Kept(ls, 2) == [0, 1];
    assert Kept(ls, 4) == [0, 1, 3];
  }

  /** Without the leaf condition mappings can be joined: the two `x` end up in one mapping. */
  lemma BlocksLeftBehind()
    ensures !StaysApart(LeftBehind()) && !NoDuplicates(Rewrite(LeftBehind()))
    ensures Rewrite(Rewrite(LeftBehind())) != Rewrite(LeftBehind())
  {
    var ls := LeftBehind();
    var out := Rewrite(ls);
    LeftBehindFates();
    LeftBehindKept();
    assert out[1] == ls[1] && out[2] == ls[3];
    assert SameMapping(out, 1, 2);
    NoDuplicatesExactlyWhenApart(ls);
    IdempotentExactlyWhenApart(ls);
  }
}
