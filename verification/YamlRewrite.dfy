/**
 * The rewriter of `config.yaml`: reading a line, the stack of open mappings,
 * and the text it puts out. A text is a sequence of lines.
 */
module YamlRewrite {
  import opened Base
  import opened Lines
  import opened Mappings

  // ----- Reading a line

  function IndentOf(line: string): nat {
    |line| - |TrimStart(line)|
  }

  predicate IsBlank(trimmed: string) {
    trimmed == "" || trimmed[0] == '#'
  }

  predicate IsItem(trimmed: string) {
    trimmed == "-" || (|trimmed| >= 2 && trimmed[0] == '-' && trimmed[1] == ' ')
  }

  /** A colon that ends a key: the line's last character, or followed by a blank. */
  predicate EndsKey(s: string, i: nat)
    requires i < |s|
  {
    s[i] == ':' && (i + 1 == |s| || s[i + 1] == ' ' || s[i + 1] == '\t')
  }

  /** The first colon that ends a key is at `pos`. */
  ghost predicate KeyColon(trimmed: string, pos: nat) {
    pos < |trimmed| && EndsKey(trimmed, pos) && forall i :: 0 <= i < pos ==> !EndsKey(trimmed, i)
  }

  function FirstColon(trimmed: string, from: nat): (pos: Option<nat>)
    requires from <= |trimmed|
    requires forall i :: 0 <= i < from ==> !EndsKey(trimmed, i)
    ensures pos.Some? ==> KeyColon(trimmed, pos.value)
    ensures pos.None? ==> forall i :: 0 <= i < |trimmed| ==> !EndsKey(trimmed, i)
    decreases |trimmed| - from
  {
    if from == |trimmed| then None
    else if EndsKey(trimmed, from) then Some(from)
    else FirstColon(trimmed, from + 1)
  }

  lemma FirstColonIs(trimmed: string, pos: nat)
    requires KeyColon(trimmed, pos)
    ensures FirstColon(trimmed, 0) == Some(pos)
  {
  }

  /** What the rest of a line says, after its indent. */
  function ScanTrimmed(indent: nat, trimmed: string): Line {
    if IsBlank(trimmed) then Skip
    else if IsItem(trimmed) then Other(indent) else
      match FirstColon(trimmed, 0)
      case None => Other(indent)
      case Some(pos) => Entry(indent, trimmed[..pos], Trim(trimmed[pos + 1..]))
  }

  /** A line as the rewriter sees it. */
  function ScanLine(line: string): Line {
    ScanTrimmed(IndentOf(line), TrimStart(line))
  }

  function Scan(lines: seq<string>): seq<Line> {
    seq(|lines|, i requires 0 <= i < |lines| => ScanLine(lines[i]))
  }

  /**
   * What lines are: blanks and comments are skipped; a hyphen alone or before a blank
   * begins an item, which is no entry; else there is an entry with the key up to the
   * first colon that a blank, a tab or the end follows, and none without such a colon.
   */
  lemma LineIs(pad: string, s: string)
    requires forall i :: 0 <= i < |pad| ==> pad[i] as int in {9, 10, 11, 12, 13, 32}
    requires s != "" ==> s[0] as int !in {9, 10, 11, 12, 13, 32}
    ensures s == "" || s[0] == '#' ==> ScanLine(pad + s) == Skip
    ensures s == "-" || (|s| >= 2 && s[0] == '-' && s[1] == ' ') ==> ScanLine(pad + s) == Other(|pad|)
    ensures s != "" && s[0] != '#' && s != "-" && !(|s| >= 2 && s[0] == '-' && s[1] == ' ') ==>
      forall k :: 0 <= k < |s| && FirstEnds(s, k) ==>
        ScanLine(pad + s) == Entry(|pad|, s[..k], Trim(s[k + 1..]))
    ensures s != "" && s[0] != '#' && (forall k :: 0 <= k < |s| ==> !ColonEnds(s, k)) ==>
      ScanLine(pad + s) == Other(|pad|)
  {
    forall i | 0 <= i < |pad| ensures IsSpace(pad[i]) {
      SpaceIs(pad[i]);
    }
    if s != "" { SpaceIs(s[0]); }
    TrimStartOf(pad, s);
    forall k | 0 <= k < |s| ensures ColonEnds(s, k) <==> EndsKey(s, k) {
    }
    forall k | 0 <= k < |s| && FirstEnds(s, k) ensures FirstColon(s, 0) == Some(k) {
      FirstColonIs(s, k);
    }
  }

  predicate ColonEnds(s: string, k: nat) {
    k < |s| && s[k] == ':' && (k + 1 < |s| ==> s[k + 1] == ' ' || s[k + 1] as int == 9)
  }

  predicate FirstEnds(s: string, k: nat) {
    ColonEnds(s, k) && forall i :: 0 <= i < k ==> !ColonEnds(s, i)
  }

  datatype KeyValue = KeyValue(indent: nat, key: string, value: string)

  /** The entry a line introduces, by a scan for its colon. */
  method ParseKvLine(line: string) returns (entry: Option<KeyValue>)
    ensures entry.Some? <==> ScanLine(line).Entry?
    ensures entry.Some? ==> ScanLine(line) == Entry(entry.value.indent, entry.value.key, entry.value.value)
  {
    var trimmed := TrimStart(line);
    var indent := |line| - |trimmed|;
    if IsBlank(trimmed) || IsItem(trimmed) {
      return None;
    }
    var colon := ScanForColon(trimmed);
    if colon == None {
      return None;
    }
    return Some(KeyValue(indent, trimmed[..colon.value], Trim(trimmed[colon.value + 1..])));
  }

  method ScanForColon(trimmed: string) returns (colon: Option<nat>)
    ensures colon == FirstColon(trimmed, 0)
  {
    colon := None;
    var i: nat := 0;
    while i < |trimmed|
      invariant i <= |trimmed| && colon == None
      invariant forall k :: 0 <= k < i ==> !EndsKey(trimmed, k)
    {
      if EndsKey(trimmed, i) {
        FirstColonIs(trimmed, i);
        return Some(i);
      }
      i := i + 1;
    }
  }

  // ----- The text put out

  function Spaces(n: nat): string {
    seq(n, _ => ' ')
  }

  function MergedText(indent: nat, key: string, values: seq<string>): string {
    Spaces(indent) + (key + ": " + ListText(values))
  }

  lemma ListTextEnds(values: seq<string>)
    ensures var t := ListText(values); t != "" && t[0] == '[' && t[|t| - 1] == ']'
  {
  }

  /** The line put out for a merged group reads back as an entry of the same mapping with the list. */
  lemma MergedReadsBack(line: string, values: seq<string>)
    requires ScanLine(line).Entry? && Additive(ScanLine(line).key)
    ensures var e := ScanLine(line);
      ScanLine(MergedText(e.indent, e.key, values)) == Entry(e.indent, e.key, ListText(values))
    // indented by blanks alone
    ensures var e, text := ScanLine(line), MergedText(ScanLine(line).indent, ScanLine(line).key, values);
      && text[e.indent..] == e.key + ": " + ListText(values)
      && forall i :: 0 <= i < e.indent ==> text[i] == ' '
  {
    var e, trimmed, text := ScanLine(line), TrimStart(line), ListText(values);
    KeyAgain(trimmed, |e.key|, text);
    NotAnItem(trimmed, |e.key|, text);
    ListTextEnds(values);
    EntryReadsBack(e.indent, e.key, text);
  }

  lemma EntryReadsBack(indent: nat, key: string, text: string)
    requires Additive(key) && KeyColon(key + ": " + text, |key|) && !IsItem(key + ": " + text)
    requires text != "" && !IsSpace(text[0]) && !IsSpace(text[|text| - 1])
    ensures ScanLine(Spaces(indent) + (key + ": " + text)) == Entry(indent, key, text)
  {
    var body := key + ": " + text;
    assert body[0] == key[0];
    TrimStartOf(Spaces(indent), body);
    BodyReadsBack(indent, key, text);
  }

  lemma BodyReadsBack(indent: nat, key: string, text: string)
    requires Additive(key) && KeyColon(key + ": " + text, |key|) && !IsItem(key + ": " + text)
    requires text != "" && !IsSpace(text[0]) && !IsSpace(text[|text| - 1])
    ensures ScanTrimmed(indent, key + ": " + text) == Entry(indent, key, text)
  {
    var body := key + ": " + text;
    assert body[0] == key[0];
    FirstColonIs(body, |key|);
    assert body[..|key|] == key;
    AfterColon(key, text);
  }

  lemma AfterColon(key: string, text: string)
    requires text != "" && !IsSpace(text[0]) && !IsSpace(text[|text| - 1])
    ensures Trim((key + ": " + text)[|key| + 1..]) == text
  {
    assert (key + ": " + text)[|key| + 1..] == " " + text + "";
    TrimOf(" ", text, "");
  }

  /** A key is found again whatever value follows it. */
  lemma KeyAgain(trimmed: string, pos: nat, text: string)
    requires KeyColon(trimmed, pos)
    ensures KeyColon(trimmed[..pos] + ": " + text, pos)
  {
    var body := trimmed[..pos] + ": " + text;
    forall i | 0 <= i < pos ensures !EndsKey(body, i) {
      assert !EndsKey(trimmed, i);
    }
  }

  lemma NotAnItem(trimmed: string, pos: nat, text: string)
    requires !IsItem(trimmed) && 0 < pos < |trimmed| && trimmed[pos] == ':'
    ensures !IsItem(trimmed[..pos] + ": " + text)
  {
  }

  /** The text put out for one line that is not dropped; `items` is what the lines read as. */
  function TextOf(lines: seq<string>, items: seq<Line>, j: nat): string
    requires j < |lines| == |items|
  {
    var item, fate := items[j], FateOf(items, j);
    if fate.Merge? && item.Entry? then MergedText(item.indent, item.key, fate.values) else lines[j]
  }

  function TextsAt(lines: seq<string>, items: seq<Line>, places: seq<nat>): seq<string>
    requires |lines| == |items| && forall k :: 0 <= k < |places| ==> places[k] < |lines|
  {
    seq(|places|, k requires 0 <= k < |places| => TextOf(lines, items, places[k]))
  }

  /** What is put out for the first `n` lines. */
  function TextUpTo(lines: seq<string>, items: seq<Line>, n: nat): seq<string>
    requires n <= |lines| == |items|
  {
    TextsAt(lines, items, Kept(items, n))
  }

  function RewrittenText(lines: seq<string>): seq<string> {
    TextUpTo(lines, Scan(lines), |lines|)
  }

  lemma TextOfReads(lines: seq<string>, j: nat)
    requires j < |lines|
    ensures ScanLine(TextOf(lines, Scan(lines), j)) == Rewritten(Scan(lines)[j], FateOf(Scan(lines), j))
  {
    var item, fate := Scan(lines)[j], FateOf(Scan(lines), j);
    if fate.Merge? && item.Entry? {
      MergedReadsBack(lines[j], fate.values);
    }
  }

  /** The rewritten text reads as the rewriting of what the text reads as. */
  lemma TextReadsAsRewrite(lines: seq<string>)
    ensures Scan(RewrittenText(lines)) == Rewrite(Scan(lines))
  {
    var items := Scan(lines);
    var kept := Kept(items, |items|);
    forall k | 0 <= k < |kept| ensures Scan(RewrittenText(lines))[k] == Rewrite(items)[k] {
      TextOfReads(lines, kept[k]);
    }
  }

  /** No mapping of the text put out has a key twice, exactly when entries that stay stand apart. */
  lemma TextHasNoDuplicates(lines: seq<string>)
    ensures NoDuplicates(Scan(RewrittenText(lines))) <==> StaysApart(Scan(lines))
  {
    TextReadsAsRewrite(lines);
    NoDuplicatesExactlyWhenApart(Scan(lines));
  }

  /** A text with no key twice in a mapping comes out as it was, line by line. */
  lemma CleanTextIsSame(lines: seq<string>)
    requires NoDuplicates(Scan(lines))
    ensures RewrittenText(lines) == lines
  {
    RewriteOfCleanIsSame(Scan(lines));
    AllKept(Scan(lines), |lines|);
  }

  /** The texts that come out as they were are exactly those with no key twice in a mapping. */
  lemma TextIsSameExactlyWhenClean(lines: seq<string>)
    ensures RewrittenText(lines) == lines <==> NoDuplicates(Scan(lines))
  {
    if NoDuplicates(Scan(lines)) {
      CleanTextIsSame(lines);
    }
    if RewrittenText(lines) == lines {
      TextReadsAsRewrite(lines);
      FixedExactlyWhenClean(Scan(lines));
    }
  }

  /** Rewriting the text put out changes no line of it, exactly when entries that stay stand apart. */
  lemma TextRewriteIsIdempotent(lines: seq<string>)
    ensures RewrittenText(RewrittenText(lines)) == RewrittenText(lines) <==> StaysApart(Scan(lines))
  {
    TextIsSameExactlyWhenClean(RewrittenText(lines));
    TextHasNoDuplicates(lines);
  }

  // ----- The stack of open mappings

  /** An open mapping: its indent, and for each key the lines that introduced it. */
  datatype Frame = Frame(indent: nat, seen: map<string, seq<nat>>) {
    function Of(key: string): seq<nat> {
      if key in seen then seen[key] else []
    }

    function Record(key: string, i: nat): Frame {
      Frame(indent, seen[key := Of(key) + [i]])
    }
  }

  /** A frame holds, for every key, the lines of its mapping among the first `n`. */
  ghost predicate Holds(frame: Frame, items: seq<Line>, n: nat)
    requires n <= |items|
  {
    forall key :: frame.Of(key) == OpenGroup(items, frame.indent, key, n)
  }

  ghost predicate OnStack(stack: seq<Frame>, indent: nat) {
    exists a :: 0 <= a < |stack| && stack[a].indent == indent
  }

  ghost predicate Rising(stack: seq<Frame>) {
    forall a, b :: 0 <= a < b < |stack| ==> stack[a].indent < stack[b].indent
  }

  /** The mappings of an indent end at line `n`, or with the text. */
  ghost predicate Ends(items: seq<Line>, n: nat, indent: nat)
    requires n <= |items|
  {
    n < |items| ==> !Inside(items[n], indent)
  }

  /**
   * After `n` lines: the frames rise in indent, each holds its mapping, and a
   * mapping without a frame has no entry or ends right there.
   */
  ghost predicate StackHolds(stack: seq<Frame>, items: seq<Line>, n: nat)
    requires n <= |items|
  {
    && Rising(stack)
    && (forall a :: 0 <= a < |stack| ==> Holds(stack[a], items, n))
    && (forall indent: nat, key :: !OnStack(stack, indent) && !Ends(items, n, indent) ==>
          OpenGroup(items, indent, key, n) == [])
  }

  /** An entry that a frame of the stack still holds. */
  ghost predicate Pending(stack: seq<Frame>, item: Line, j: nat) {
    item.Entry? && exists a :: 0 <= a < |stack| && InFrame(stack[a], item, j)
  }

  predicate InFrame(frame: Frame, item: Line, j: nat) {
    item.Entry? && frame.indent == item.indent && j in frame.Of(item.key)
  }

  // ----- The marks

  /** The two marks of a line stand for a fate. */
  ghost predicate Marked(drop: bool, replacements: map<nat, string>, item: Line, j: nat, fate: Fate) {
    && drop == fate.Drop?
    && (j in replacements <==> fate.Merge?)
    && (fate.Merge? ==> item.Entry? && replacements[j] == MergedText(item.indent, item.key, fate.values))
  }

  ghost predicate MarkedWith(toDrop: seq<bool>, replacements: map<nat, string>, items: seq<Line>, fates: seq<Fate>)
  {
    && |toDrop| == |items| == |fates|
    && forall j :: 0 <= j < |items| ==> Marked(toDrop[j], replacements, items[j], j, fates[j])
  }

  /** The fates settled so far: those of the entries that no frame holds any more. */
  ghost function Settled(stack: seq<Frame>, items: seq<Line>, n: nat): seq<Fate> {
    seq(|items|, j requires 0 <= j < |items| =>
      if j < n && !Pending(stack, items[j], j) then FateOf(items, j) else Keep)
  }

  /** The fates with those of one frame's entries settled too. */
  ghost function WithFrame(fates: seq<Fate>, frame: Frame, items: seq<Line>): seq<Fate>
    requires |fates| == |items|
  {
    seq(|items|, j requires 0 <= j < |items| => if InFrame(frame, items[j], j) then FateOf(items, j) else fates[j])
  }

  /** The fates with those of one group settled too. */
  ghost function WithGroup(fates: seq<Fate>, key: string, group: seq<nat>, items: seq<Line>): seq<Fate>
    requires |fates| == |items|
  {
    seq(|items|, j requires 0 <= j < |items| => if j in group then FateIn(items, key, group, j) else fates[j])
  }

  /** A group of one key in one mapping, none of it marked yet. */
  ghost predicate FreshGroup(items: seq<Line>, fates: seq<Fate>, indent: nat, key: string, group: seq<nat>) {
    && |fates| == |items| && Increasing(group)
    && forall j :: j in group ==>
      && j < |items| && fates[j] == Keep
      && items[j].Entry? && items[j].indent == indent && items[j].key == key
  }

  method MarkDropped(indices: seq<nat>, toDrop: array<bool>)
    requires forall j :: j in indices ==> j < toDrop.Length
    modifies toDrop
    ensures forall j :: 0 <= j < toDrop.Length ==> toDrop[j] == (old(toDrop[j]) || j in indices)
  {
    for k := 0 to |indices|
      invariant forall j :: 0 <= j < toDrop.Length ==> toDrop[j] == (old(toDrop[j]) || j in indices[..k])
    {
      assert indices[k] in indices;
      toDrop[indices[k]] := true;
      assert indices[..k + 1] == indices[..k] + [indices[k]];
    }
    assert indices[..|indices|] == indices;
  }

  lemma OthersOf(s: seq<nat>)
    requires Increasing(s) && |s| > 1
    ensures forall j :: j in s[1..] <==> j in s && j != s[0]
    ensures forall j :: j in s[..|s| - 1] <==> j in s && j != Last(s)
  {
    forall j ensures j in s[1..] <==> j in s && j != s[0] {
      if j in s && j != s[0] {
        var k :| 0 <= k < |s| && s[k] == j;
        assert s[1..][k - 1] == j;
      }
    }
    forall j ensures j in s[..|s| - 1] <==> j in s && j != Last(s) {
      if j in s && j != Last(s) {
        var k :| 0 <= k < |s| && s[k] == j;
        assert s[..|s| - 1][k] == j;
      }
    }
  }

  lemma AloneMarks(before: seq<bool>, replacements: map<nat, string>, key: string, indices: seq<nat>, items: seq<Line>,
      fates: seq<Fate>, indent: nat)
    requires FreshGroup(items, fates, indent, key, indices) && |indices| <= 1
    requires MarkedWith(before, replacements, items, fates)
    ensures MarkedWith(before, replacements, items, WithGroup(fates, key, indices, items))
  {
    assert WithGroup(fates, key, indices, items) == fates;
  }

  lemma GroupPlaces(indices: seq<nat>, items: seq<Line>, fates: seq<Fate>, indent: nat, key: string)
    requires FreshGroup(items, fates, indent, key, indices)
    ensures forall j :: j in indices ==> j < |items|
  {
  }

  lemma MarksFit(before: seq<bool>, replacements: map<nat, string>, items: seq<Line>, fates: seq<Fate>)
    requires MarkedWith(before, replacements, items, fates)
    ensures |before| == |items|
  {
  }

  /** The marks that the two branches of a group leave are those of its fates. */
  lemma GroupMarks(before: seq<bool>, after: seq<bool>, replacements: map<nat, string>, replaced: map<nat, string>,
      indent: nat, key: string, indices: seq<nat>, items: seq<Line>, fates: seq<Fate>)
    requires FreshGroup(items, fates, indent, key, indices) && |indices| > 1 && |after| == |before| == |items|
    requires MarkedWith(before, replacements, items, fates)
    requires if Additive(key) && Consecutive(items, indices) then
        && replaced == replacements[indices[0] := MergedText(indent, key, Values(items, indices))]
        && forall j :: 0 <= j < |after| ==> (after[j] <==> before[j] || (j in indices && j != indices[0]))
      else
        && replaced == replacements
        && forall j :: 0 <= j < |after| ==> (after[j] <==> before[j] || (j in indices && j != Last(indices)))
    ensures MarkedWith(after, replaced, items, WithGroup(fates, key, indices, items))
  {
    hide ListText, MergedText, Consecutive, Values;
    var all := WithGroup(fates, key, indices, items);
    forall j | 0 <= j < |items| ensures Marked(after[j], replaced, items[j], j, all[j]) {
      assert Marked(before[j], replacements, items[j], j, fates[j]);
    }
  }

  /** Settles one key of a mapping: merge, or drop all but the last. */
  method FinalizeGroup(indent: nat, key: string, indices: seq<nat>, items: seq<Line>, toDrop: array<bool>,
                       replacements: map<nat, string>, ghost fates: seq<Fate>)
    returns (replaced: map<nat, string>)
    requires FreshGroup(items, fates, indent, key, indices)
    requires MarkedWith(toDrop[..], replacements, items, fates)
    modifies toDrop
    ensures MarkedWith(toDrop[..], replaced, items, WithGroup(fates, key, indices, items))
  {
    hide WithGroup, MarkedWith, Consecutive, Values, ListText, MergedText;
    replaced := replacements;
    ghost var before := toDrop[..];
    if |indices| <= 1 {
      AloneMarks(before, replacements, key, indices, items, fates, indent);
      return;
    }
    GroupPlaces(indices, items, fates, indent, key);
    MarksFit(before, replacements, items, fates);
    OthersOf(indices);
    if Additive(key) && Consecutive(items, indices) {
      replaced := replaced[indices[0] := MergedText(indent, key, Values(items, indices))];
      MarkDropped(indices[1..], toDrop);
      GroupMarks(before, toDrop[..], replacements, replaced, indent, key, indices, items, fates);
    } else {
      var earlier := indices[..|indices| - 1];
      assert forall j :: j in earlier ==> j in indices;
      MarkDropped(earlier, toDrop);
      GroupMarks(before, toDrop[..], replacements, replaced, indent, key, indices, items, fates);
    }
  }

  /** Settles every key of a mapping that has ended. */
  method FinalizeFrame(frame: Frame, items: seq<Line>, toDrop: array<bool>, replacements: map<nat, string>,
                       ghost fates: seq<Fate>, ghost n: nat)
    returns (replaced: map<nat, string>)
    requires n <= |items| && Holds(frame, items, n)
    requires Ends(items, n, frame.indent)
    requires MarkedWith(toDrop[..], replacements, items, fates)
    requires forall j :: 0 <= j < |fates| && InFrame(frame, items[j], j) ==> fates[j] == Keep
    modifies toDrop
    ensures MarkedWith(toDrop[..], replaced, items, WithFrame(fates, frame, items))
  {
    replaced := replacements;
    var keys := frame.seen.Keys;
    ghost var now := fates;
    while keys != {}
      invariant keys <= frame.seen.Keys && |now| == |items|
      invariant MarkedWith(toDrop[..], replaced, items, now)
      invariant forall j :: 0 <= j < |items| ==>
        now[j] == if InFrame(frame, items[j], j) && items[j].key !in keys then FateOf(items, j) else fates[j]
    {
      var key :| key in keys;
      var group := frame.seen[key];
      FrameGroup(frame, items, n, key);
      replaced := FinalizeGroup(frame.indent, key, group, items, toDrop, replaced, now);
      now := WithGroup(now, key, group, items);
      keys := keys - {key};
    }
    assert now == WithFrame(fates, frame, items);
  }

  /** What a frame of an ended mapping holds for a key is the whole group of each of its entries. */
  lemma FrameGroup(frame: Frame, items: seq<Line>, n: nat, key: string)
    requires n <= |items| && Holds(frame, items, n)
    requires Ends(items, n, frame.indent)
    ensures Increasing(frame.Of(key))
    ensures forall j :: j in frame.Of(key) ==>
      && j < |items| && items[j].Entry? && items[j].indent == frame.indent && items[j].key == key
      && FateOf(items, j) == FateIn(items, key, frame.Of(key), j)
  {
    OpenGroupMembers(items, frame.indent, key, n);
    forall j | j in frame.Of(key)
      ensures j < |items| && items[j].Entry? && items[j].indent == frame.indent && items[j].key == key
      ensures FateOf(items, j) == FateIn(items, key, frame.Of(key), j)
    {
      assert InOpen(items, frame.indent, key, n, j);
      EndIs(items, frame.indent, j, n);
    }
  }

  /** Popping a frame whose mapping has ended settles its entries. */
  lemma PopSettles(stack: seq<Frame>, items: seq<Line>, n: nat)
    requires stack != [] && n <= |items| && StackHolds(stack, items, n) && Ends(items, n, Last(stack).indent)
    ensures StackHolds(stack[..|stack| - 1], items, n)
    ensures WithFrame(Settled(stack, items, n), Last(stack), items) == Settled(stack[..|stack| - 1], items, n)
    ensures forall j :: 0 <= j < |items| && InFrame(Last(stack), items[j], j) ==> Settled(stack, items, n)[j] == Keep
  {
    var top, rest := Last(stack), stack[..|stack| - 1];
    forall indent: nat, key | !OnStack(rest, indent) && !Ends(items, n, indent)
      ensures OpenGroup(items, indent, key, n) == []
    {
      assert !OnStack(stack, indent);
    }
    forall j | 0 <= j < |items|
      ensures InFrame(top, items[j], j) ==> j < n
      ensures Pending(stack, items[j], j) <==> InFrame(top, items[j], j) || Pending(rest, items[j], j)
      ensures InFrame(top, items[j], j) ==> !Pending(rest, items[j], j)
    {
      if InFrame(top, items[j], j) {
        OpenGroupMembers(items, top.indent, items[j].key, n);
        assert InOpen(items, top.indent, items[j].key, n, j);
      }
    }
  }

  /** A blank line or a comment changes nothing. */
  lemma SkipStep(stack: seq<Frame>, items: seq<Line>, n: nat)
    requires n < |items| && items[n].Skip? && StackHolds(stack, items, n)
    ensures StackHolds(stack, items, n + 1)
    ensures Settled(stack, items, n + 1) == Settled(stack, items, n)
  {
    var m := n + 1;
    forall a | 0 <= a < |stack| ensures Holds(stack[a], items, m) {
      assert Holds(stack[a], items, n);
    }
    forall indent: nat, key | !OnStack(stack, indent) ensures OpenGroup(items, indent, key, m) == [] {
      assert !Ends(items, n, indent);
    }
  }

  lemma OnStackPush(stack: seq<Frame>, frame: Frame, indent: nat)
    ensures OnStack(stack + [frame], indent) <==> OnStack(stack, indent) || frame.indent == indent
  {
    var pushed := stack + [frame];
    assert pushed[|stack|] == frame;
    if OnStack(stack, indent) {
      var a :| 0 <= a < |stack| && stack[a].indent == indent;
      assert pushed[a].indent == indent;
    }
  }

  /** A deeper line opens a mapping. */
  lemma PushStep(stack: seq<Frame>, items: seq<Line>, n: nat)
    requires n < |items| && !items[n].Skip? && StackHolds(stack, items, n)
    requires stack != [] ==> Last(stack).indent < items[n].indent
    ensures var pushed := stack + [Frame(items[n].indent, map[])];
      StackHolds(pushed, items, n) && Settled(pushed, items, n) == Settled(stack, items, n)
  {
    var indent := items[n].indent;
    var pushed := stack + [Frame(indent, map[])];
    assert !OnStack(stack, indent);
    assert !Ends(items, n, indent);
    forall other: nat, key | !OnStack(pushed, other) && !Ends(items, n, other)
      ensures OpenGroup(items, other, key, n) == []
    {
      OnStackPush(stack, Last(pushed), other);
    }
    forall j | 0 <= j < |items| ensures Pending(pushed, items[j], j) <==> Pending(stack, items[j], j) {
      if Pending(stack, items[j], j) {
        var a :| 0 <= a < |stack| && InFrame(stack[a], items[j], j);
        assert InFrame(pushed[a], items[j], j);
      }
    }
  }

  function Recorded(stack: seq<Frame>, item: Line, n: nat): seq<Frame>
    requires stack != []
  {
    if item.Entry? then stack[|stack| - 1 := Last(stack).Record(item.key, n)] else stack
  }

  /** A line of the innermost mapping is recorded there. */
  lemma RecordStep(stack: seq<Frame>, items: seq<Line>, n: nat)
    requires n < |items| && !items[n].Skip? && StackHolds(stack, items, n)
    requires stack != [] && Last(stack).indent == items[n].indent
    ensures StackHolds(Recorded(stack, items[n], n), items, n + 1)
    ensures Settled(Recorded(stack, items[n], n), items, n + 1) == Settled(stack, items, n)
  {
    var after := Recorded(stack, items[n], n);
    var m := n + 1;
    forall a | 0 <= a < |after| ensures Holds(after[a], items, m) {
      assert Holds(stack[a], items, n);
    }
    forall indent: nat, key | !OnStack(after, indent) ensures OpenGroup(items, indent, key, m) == [] {
      RecordOnStack(stack, items[n], n, indent);
    }
    forall j | 0 <= j < |items|
      ensures Pending(after, items[j], j) <==> Pending(stack, items[j], j) || (j == n && items[n].Entry?)
    {
      RecordPending(stack, items[n], n, items[j], j);
    }
  }

  lemma RecordOnStack(stack: seq<Frame>, item: Line, n: nat, indent: nat)
    requires stack != []
    ensures OnStack(Recorded(stack, item, n), indent) <==> OnStack(stack, indent)
  {
    var after := Recorded(stack, item, n);
    if OnStack(stack, indent) {
      var a :| 0 <= a < |stack| && stack[a].indent == indent;
      assert after[a].indent == indent;
    }
  }

  lemma RecordPending(stack: seq<Frame>, item: Line, n: nat, other: Line, j: nat)
    requires stack != [] && !item.Skip? && Last(stack).indent == item.indent
    requires j == n ==> other == item
    ensures Pending(Recorded(stack, item, n), other, j) <==> Pending(stack, other, j) || (j == n && item.Entry?)
  {
    var after, top := Recorded(stack, item, n), |stack| - 1;
    if Pending(stack, other, j) {
      var a :| 0 <= a < |stack| && InFrame(stack[a], other, j);
      assert InFrame(after[a], other, j);
    }
    if j == n && item.Entry? {
      assert InFrame(after[top], other, j);
    }
    if Pending(after, other, j) {
      var a :| 0 <= a < |after| && InFrame(after[a], other, j);
      assert a != top ==> InFrame(stack[a], other, j);
      assert a == top ==> InFrame(stack[a], other, j) || j == n;
    }
  }

  /** What becomes of every line. */
  ghost function Fates(items: seq<Line>): seq<Fate> {
    seq(|items|, j requires 0 <= j < |items| => FateOf(items, j))
  }

  /** One pass over the lines with the stack of open mappings marks every line with its fate. */
  method Pass(items: seq<Line>, toDrop: array<bool>) returns (replacements: map<nat, string>)
    requires toDrop.Length == |items| && forall j :: 0 <= j < |items| ==> !toDrop[j]
    modifies toDrop
    ensures MarkedWith(toDrop[..], replacements, items, Fates(items))
  {
    replacements := map[];
    var stack: seq<Frame> := [];
    var i: nat := 0;
    while i < |items|
      invariant i <= |items| && StackHolds(stack, items, i)
      invariant MarkedWith(toDrop[..], replacements, items, Settled(stack, items, i))
    {
      if items[i].Skip? {
        SkipStep(stack, items, i);
      } else {
        stack, replacements := PopDeeper(stack, items, i, toDrop, replacements);
        stack := Enter(stack, items, i);
      }
      i := i + 1;
    }
    replacements := PopAll(stack, items, toDrop, replacements);
  }

  /** Pops and settles what is still open at the end of the text. */
  method PopAll(open: seq<Frame>, items: seq<Line>, toDrop: array<bool>, marks: map<nat, string>)
    returns (replacements: map<nat, string>)
    requires StackHolds(open, items, |items|)
    requires MarkedWith(toDrop[..], marks, items, Settled(open, items, |items|))
    modifies toDrop
    ensures MarkedWith(toDrop[..], replacements, items, Fates(items))
  {
    var stack := open;
    replacements := marks;
    while stack != []
      invariant StackHolds(stack, items, |items|)
      invariant MarkedWith(toDrop[..], replacements, items, Settled(stack, items, |items|))
      decreases |stack|
    {
      PopSettles(stack, items, |items|);
      replacements := FinalizeFrame(Last(stack), items, toDrop, replacements, Settled(stack, items, |items|), |items|);
      stack := stack[..|stack| - 1];
    }
    assert Settled(stack, items, |items|) == Fates(items);
  }

  /** Pops and settles the mappings that line `n` ends. */
  method PopDeeper(before: seq<Frame>, items: seq<Line>, n: nat, toDrop: array<bool>, marks: map<nat, string>)
    returns (stack: seq<Frame>, replacements: map<nat, string>)
    requires n < |items| && !items[n].Skip? && StackHolds(before, items, n)
    requires MarkedWith(toDrop[..], marks, items, Settled(before, items, n))
    modifies toDrop
    ensures StackHolds(stack, items, n)
    ensures MarkedWith(toDrop[..], replacements, items, Settled(stack, items, n))
    ensures stack != [] ==> Last(stack).indent <= items[n].indent
  {
    stack, replacements := before, marks;
    while stack != [] && Last(stack).indent > items[n].indent
      invariant StackHolds(stack, items, n)
      invariant MarkedWith(toDrop[..], replacements, items, Settled(stack, items, n))
      decreases |stack|
    {
      PopSettles(stack, items, n);
      replacements := FinalizeFrame(Last(stack), items, toDrop, replacements, Settled(stack, items, n), n);
      stack := stack[..|stack| - 1];
    }
  }

  /** Opens the mapping of line `n` if it is new, and records the line there. */
  method Enter(before: seq<Frame>, items: seq<Line>, n: nat) returns (stack: seq<Frame>)
    requires n < |items| && !items[n].Skip? && StackHolds(before, items, n)
    requires before != [] ==> Last(before).indent <= items[n].indent
    ensures StackHolds(stack, items, n + 1)
    ensures Settled(stack, items, n + 1) == Settled(before, items, n)
  {
    stack := before;
    if stack == [] || Last(stack).indent < items[n].indent {
      PushStep(stack, items, n);
      stack := stack + [Frame(items[n].indent, map[])];
    }
    RecordStep(stack, items, n);
    if items[n].Entry? {
      stack := stack[|stack| - 1 := Last(stack).Record(items[n].key, n)];
    }
  }

  // ----- The whole rewriter

  /** The text left by the marks of the first `n` lines. */
  ghost function Left(lines: seq<string>, drop: seq<bool>, replacements: map<nat, string>, n: nat): seq<string>
    requires n <= |lines| == |drop|
  {
    if n == 0 then [] else
      Left(lines, drop, replacements, n - 1) + if drop[n - 1] then [] else [TextAt(lines, replacements, n - 1)]
  }

  function TextAt(lines: seq<string>, replacements: map<nat, string>, j: nat): string
    requires j < |lines|
  {
    if j in replacements then replacements[j] else lines[j]
  }

  lemma {:induction false} MarksGiveText(lines: seq<string>, items: seq<Line>, drop: seq<bool>,
      replacements: map<nat, string>, n: nat)
    requires n <= |lines| == |items| && MarkedWith(drop, replacements, items, Fates(items))
    ensures Left(lines, drop, replacements, n) == TextUpTo(lines, items, n)
  {
    if n > 0 {
      MarksGiveText(lines, items, drop, replacements, n - 1);
      assert TextUpTo(lines, items, n) ==
        TextUpTo(lines, items, n - 1) + if drop[n - 1] then [] else [TextAt(lines, replacements, n - 1)];
    }
  }

  /** Puts out every line that is not dropped, or its replacement. */
  method PutOut(lines: seq<string>, toDrop: array<bool>, replacements: map<nat, string>) returns (out: seq<string>)
    requires toDrop.Length == |lines|
    ensures out == Left(lines, toDrop[..], replacements, |lines|)
  {
    out := [];
    var i: nat := 0;
    while i < |lines|
      invariant i <= |lines| && out == Left(lines, toDrop[..], replacements, i)
    {
      if !toDrop[i] {
        out := out + [TextAt(lines, replacements, i)];
      }
      i := i + 1;
    }
  }

  /** A line as the pass sees it: blank, an entry at its own indent, or anything else. */
  method ReadLine(line: string) returns (item: Line)
    ensures item == ScanLine(line)
  {
    var trimmed := TrimStart(line);
    if IsBlank(trimmed) {
      return Skip;
    }
    var indent := |line| - |trimmed|;
    var entry := ParseKvLine(line);
    if entry.Some? && entry.value.indent == indent {
      return Entry(indent, entry.value.key, entry.value.value);
    }
    return Other(indent);
  }

  method ReadLines(lines: seq<string>) returns (items: seq<Line>)
    ensures items == Scan(lines)
  {
    items := [];
    for i := 0 to |lines|
      invariant items == Scan(lines)[..i]
    {
      var item := ReadLine(lines[i]);
      assert item == Scan(lines)[i];
      items := items + [item];
    }
  }

  /** The rewriter. */
  method PreprocessConfig(lines: seq<string>) returns (out: seq<string>)
    ensures out == RewrittenText(lines)
  {
    var items := ReadLines(lines);
    var toDrop := new bool[|lines|](_ => false);
    var replacements := Pass(items, toDrop);
    out := PutOut(lines, toDrop, replacements);
    MarksGiveText(lines, items, toDrop[..], replacements, |lines|);
  }
}
