/** Reading `error.yaml`, line by line. A `None` result stands for the build script's panic. */
module ErrorTable {
  import opened Base
  import opened Lines
  import opened FixedWidth

  const DEFAULT_PARENT := "runtime"

  datatype Entry = Entry(name: string, code: int, fatal: bool, parent: string)

  // ----- Numbers

  predicate IsI32(n: int) {
    -0x8000_0000 <= n < 0x8000_0000
  }

  /** A signed 32-bit number: an optional sign and at least one digit. */
  function ParseI32(s: string): (n: Option<int>)
    ensures n.Some? ==> IsI32(n.value)
  {
    var signed := s != "" && (s[0] == '-' || s[0] == '+');
    var digits := if signed then s[1..] else s;
    var size := Value(Dec, digits);
    if digits == "" || size.None? then None else
      var n := if s[0] == '-' then -(size.value as int) else size.value;
      if IsI32(n) then Some(n) else None
  }

  function NumberText(n: int): string {
    if n < 0 then "-" + Decimal(-n) else Decimal(n)
  }

  /** A written number reads back exactly when it is one of 32 bits with a sign. */
  lemma NumberReadsBack(n: int)
    ensures ParseI32(NumberText(n)) == if -2_147_483_648 <= n <= 2_147_483_647 then Some(n) else None
  {
    DecimalRead(if n < 0 then -n else n);
    if n < 0 {
      assert NumberText(n)[1..] == Decimal(-n);
    }
  }

  /** What reads as a number: digits in the range of 32 bits, with one sign in front or none, and nothing else. */
  lemma NumberExactly(digits: string)
    ensures (exists i :: 0 <= i < |digits| && !('0' <= digits[i] <= '9')) || digits == "" ==>
      ParseI32("-" + digits) == None && ParseI32("+" + digits) == None
      && (digits == "" || (digits[0] != '-' && digits[0] != '+') ==> ParseI32(digits) == None)
    ensures digits != "" && (forall i :: 0 <= i < |digits| ==> '0' <= digits[i] <= '9') ==>
      var size := Value(Dec, digits);
      && size.Some?
      && ParseI32(digits) == ParseI32("+" + digits) == (if size.value <= 2_147_483_647 then Some(size.value) else None)
      && ParseI32("-" + digits) == (if size.value <= 2_147_483_648 then Some(-(size.value as int)) else None)
  {
    hide ParseI32, Value;
    ValueExactly(Dec, digits);
    SignedReads("-", digits);
    SignedReads("+", digits);
    if digits == "" || (digits[0] != '-' && digits[0] != '+') {
      UnsignedReads(digits);
    }
  }

  lemma SignedReads(sign: string, digits: string)
    requires sign == "-" || sign == "+"
    ensures ParseI32(sign + digits) ==
      var size := Value(Dec, digits);
      if digits == "" || size.None? then None else InRange(if sign == "-" then -(size.value as int) else size.value)
  {
    assert (sign + digits)[1..] == digits && (sign + digits)[0] == sign[0];
  }

  lemma UnsignedReads(digits: string)
    requires digits == "" || (digits[0] != '-' && digits[0] != '+')
    ensures ParseI32(digits) ==
      if digits == "" || Value(Dec, digits).None? then None else InRange(Value(Dec, digits).value)
  {
  }

  function InRange(n: int): Option<int> {
    if -2_147_483_648 <= n <= 2_147_483_647 then Some(n) else None
  }

  // ----- Lines

  datatype Scanned = Blank | NoColon | Top(key: string, value: string) | Sub(key: string, value: string)

  /** The place of the first `c`. */
  function Find(s: string, c: char): (i: Option<nat>)
    ensures i.Some? ==> i.value < |s| && s[i.value] == c && c !in s[..i.value]
    ensures i.None? ==> c !in s
  {
    if s == "" then None
    else if s[0] == c then Some(0)
    else
      var i := Find(s[1..], c);
      if i.None? then None else
        assert s[..i.value + 1] == [s[0]] + s[1..][..i.value];
        Some(i.value + 1)
  }

  function BeforeFirst(s: string, c: char): string {
    var i := Find(s, c);
    if i.Some? then s[..i.value] else s
  }

  function ScanLine(raw: string): Scanned {
    var line := BeforeFirst(raw, '#');
    var trimmed := Trim(line);
    if trimmed == "" then Blank else
      var colon := Find(trimmed, ':');
      if colon.None? then NoColon else
        var key, value := Trim(trimmed[..colon.value]), Trim(trimmed[colon.value + 1..]);
        if |TrimStart(line)| == |line| then Top(key, value) else Sub(key, value)
  }

  function Scan(lines: seq<string>): seq<Scanned> {
    if lines == [] then [] else Scan(lines[..|lines| - 1]) + [ScanLine(Last(lines))]
  }

  // ----- The state of the reader

  datatype Pending = Pending(name: string, code: Option<int>, fatal: bool, parent: string)

  datatype State = State(entries: seq<Entry>, pending: Option<Pending>) {
    /** The entries with the pending one; a pending entry without a code is dropped. */
    function Flushed(): seq<Entry> {
      if pending.Some? && pending.value.code.Some?
      then entries + [Entry(pending.value.name, pending.value.code.value, pending.value.fatal, pending.value.parent)]
      else entries
    }
  }

  function SetField(p: Pending, key: string, value: string): Option<Pending> {
    if key == "code" then
      var code := ParseI32(value);
      if code.Some? then Some(p.(code := code)) else None
    else if key == "fatal" then Some(p.(fatal := value == "true" || value == "yes"))
    else if key == "parent" then (if value == "" then None else Some(p.(parent := value)))
    else None
  }

  function Step(st: State, line: Scanned): Option<State> {
    match line
    case Blank => Some(st)
    case NoColon => None
    case Top(key, value) =>
      if value == "" then Some(State(st.Flushed(), Some(Pending(key, None, false, DEFAULT_PARENT)))) else
        var code := ParseI32(value);
        if code.None? then None else Some(State(st.Flushed() + [Entry(key, code.value, false, DEFAULT_PARENT)], None))
    case Sub(key, value) =>
      if st.pending.None? then None else
        var p := SetField(st.pending.value, key, value);
        if p.None? then None else Some(State(st.entries, p))
  }

  function Run(lines: seq<Scanned>): Option<State> {
    if lines == [] then Some(State([], None)) else
      var st := Run(lines[..|lines| - 1]);
      if st.None? then None else Step(st.value, Last(lines))
  }

  function Parse(lines: seq<Scanned>): Option<seq<Entry>> {
    var st := Run(lines);
    if st.None? then None else Some(st.value.Flushed())
  }

  /** One line of the reader's loop. */
  method ReadLine(before: seq<Entry>, open: Option<Pending>, line: Scanned)
    returns (ok: bool, entries: seq<Entry>, pending: Option<Pending>)
    ensures ok <==> Step(State(before, open), line).Some?
    ensures ok ==> Step(State(before, open), line) == Some(State(entries, pending))
  {
    ok, entries, pending := true, before, open;
    match line {
      case Blank =>
      case NoColon => ok := false;
      case Top(key, value) =>
        entries := Flush(entries, pending);
        pending := None;
        if value == "" {
          pending := Some(Pending(key, None, false, DEFAULT_PARENT));
        } else {
          var code := ParseI32(value);
          ok := code.Some?;
          if ok {
            entries := entries + [Entry(key, code.value, false, DEFAULT_PARENT)];
          }
        }
      case Sub(key, value) =>
        ok := pending.Some?;
        if ok {
          pending := SetField(pending.value, key, value);
          ok := pending.Some?;
        }
    }
  }

  method Flush(before: seq<Entry>, pending: Option<Pending>) returns (entries: seq<Entry>)
    ensures entries == State(before, pending).Flushed()
  {
    entries := before;
    if pending.Some? && pending.value.code.Some? {
      var p := pending.value;
      entries := entries + [Entry(p.name, p.code.value, p.fatal, p.parent)];
    }
  }

  /** The reader: one loop over the lines with a pending entry. */
  method ParseErrorYaml(lines: seq<string>) returns (result: Option<seq<Entry>>)
    ensures result == Parse(Scan(lines))
  {
    var entries: seq<Entry> := [];
    var pending: Option<Pending> := None;
    for i := 0 to |lines|
      invariant Run(Scan(lines[..i])) == Some(State(entries, pending))
    {
      ScanNext(lines, i);
      RunFails(Scan(lines), i + 1);
      var line := ScanLine(lines[i]);
      var ok;
      ok, entries, pending := ReadLine(entries, pending, line);
      if !ok {
        return None;
      }
    }
    assert lines[..|lines|] == lines;
    entries := Flush(entries, pending);
    return Some(entries);
  }

  lemma {:induction false} ScanLength(lines: seq<string>)
    ensures |Scan(lines)| == |lines|
  {
    if lines != [] {
      ScanLength(lines[..|lines| - 1]);
    }
  }

  lemma {:induction false} ScanPrefix(lines: seq<string>, n: nat)
    requires n <= |lines|
    ensures |Scan(lines)| == |lines| && Scan(lines)[..n] == Scan(lines[..n])
  {
    ScanLength(lines);
    if n == |lines| {
      assert lines[..n] == lines;
    } else {
      ScanPrefix(lines[..|lines| - 1], n);
      assert lines[..|lines| - 1][..n] == lines[..n];
    }
  }

  lemma ScanNext(lines: seq<string>, i: nat)
    requires i < |lines|
    ensures Scan(lines[..i + 1]) == Scan(lines[..i]) + [ScanLine(lines[i])]
    ensures |Scan(lines)| == |lines| && Scan(lines)[..i + 1] == Scan(lines[..i + 1])
    ensures var st := Run(Scan(lines[..i]));
      Run(Scan(lines[..i + 1])) == if st.None? then None else Step(st.value, ScanLine(lines[i]))
  {
    assert lines[..i + 1][..i] == lines[..i];
    ScanPrefix(lines, i + 1);
    RunNext(Scan(lines[..i]), ScanLine(lines[i]));
  }

  lemma RunNext(lines: seq<Scanned>, line: Scanned)
    ensures Run(lines + [line]) == if Run(lines).None? then None else Step(Run(lines).value, line)
  {
    assert (lines + [line])[..|lines|] == lines;
  }

  /** A line that fails fails the text. */
  lemma {:induction false} RunFails(lines: seq<Scanned>, n: nat)
    requires n <= |lines|
    ensures Run(lines[..n]).None? ==> Run(lines).None?
  {
    if n < |lines| {
      RunFails(lines[..|lines| - 1], n);
      assert lines[..|lines| - 1][..n] == lines[..n];
    } else {
      assert lines[..n] == lines;
    }
  }

  // ----- Which texts fail

  /** The last name before line `n` stands without a value, so that fields can follow. */
  predicate TakesFields(lines: seq<Scanned>, n: nat)
    requires n <= |lines|
  {
    n > 0 && if lines[n - 1].Top? then lines[n - 1].value == "" else TakesFields(lines, n - 1)
  }

  /** A line without a colon, a name with a value that is no number, or a field that is none or not expected. */
  predicate Wrong(lines: seq<Scanned>, k: nat)
    requires k < |lines|
  {
    match lines[k]
    case Blank => false
    case NoColon => true
    case Top(_, value) => value != "" && ParseI32(value) == None
    case Sub(key, value) =>
      || !TakesFields(lines, k)
      || key !in {"code", "fatal", "parent"}
      || (key == "code" && ParseI32(value) == None)
      || (key == "parent" && value == "")
  }

  lemma {:induction false} RunFailsExactlyWhen(lines: seq<Scanned>, n: nat)
    requires n <= |lines|
    ensures Run(lines[..n]).None? <==> exists k :: 0 <= k < n && Wrong(lines, k)
    ensures Run(lines[..n]).Some? ==> (Run(lines[..n]).value.pending.Some? <==> TakesFields(lines, n))
  {
    if n > 0 {
      RunFailsExactlyWhen(lines, n - 1);
      assert lines[..n] == lines[..n - 1] + [lines[n - 1]];
      RunNext(lines[..n - 1], lines[n - 1]);
      if k :| 0 <= k < n - 1 && Wrong(lines, k) {
        assert 0 <= k < n && Wrong(lines, k);
      } else {
        assert Run(lines[..n]).None? <==> Wrong(lines, n - 1);
      }
    }
  }

  /** A text is refused exactly when some line of it is wrong. */
  lemma ParseFailsExactlyWhen(lines: seq<Scanned>)
    ensures Parse(lines).None? <==> exists k :: 0 <= k < |lines| && Wrong(lines, k)
  {
    RunFailsExactlyWhen(lines, |lines|);
    assert lines[..|lines|] == lines;
  }

  // ----- What a text means

  datatype Field = CodeIs(code: int) | FatalIs(word: string) | ParentIs(parent: string)

  /** An item of the file: the shorthand, or a name with indented fields in any order and number. */
  datatype Item = Short(name: string, code: int) | Long(name: string, fields: seq<Field>)

  function FieldLine(field: Field): Scanned {
    match field
    case CodeIs(code) => Sub("code", NumberText(code))
    case FatalIs(word) => Sub("fatal", word)
    case ParentIs(parent) => Sub("parent", parent)
  }

  function FieldLines(fields: seq<Field>): seq<Scanned> {
    if fields == [] then [] else FieldLines(fields[..|fields| - 1]) + [FieldLine(Last(fields))]
  }

  function ItemLines(item: Item): seq<Scanned> {
    match item
    case Short(name, code) => [Top(name, NumberText(code))]
    case Long(name, fields) => [Top(name, "")] + FieldLines(fields)
  }

  function ItemsLines(items: seq<Item>): seq<Scanned> {
    if items == [] then [] else ItemsLines(items[..|items| - 1]) + ItemLines(Last(items))
  }

  function LastCode(fields: seq<Field>): Option<int> {
    if fields == [] then None
    else if Last(fields).CodeIs? then Some(Last(fields).code)
    else LastCode(fields[..|fields| - 1])
  }

  function LastFatal(fields: seq<Field>): bool {
    if fields == [] then false
    else if Last(fields).FatalIs? then Last(fields).word == "true" || Last(fields).word == "yes"
    else LastFatal(fields[..|fields| - 1])
  }

  function LastParent(fields: seq<Field>): string {
    if fields == [] then "runtime"
    else if Last(fields).ParentIs? then Last(fields).parent
    else LastParent(fields[..|fields| - 1])
  }

  /** The entry an item stands for; without a code it stands for none. */
  function Meaning(item: Item): seq<Entry> {
    match item
    case Short(name, code) => [Entry(name, code, false, "runtime")]
    case Long(name, fields) =>
      var code := LastCode(fields);
      if code.None? then [] else [Entry(name, code.value, LastFatal(fields), LastParent(fields))]
  }

  function Meanings(items: seq<Item>): seq<Entry> {
    if items == [] then [] else Meanings(items[..|items| - 1]) + Meaning(Last(items))
  }

  predicate ValidField(field: Field) {
    match field
    case CodeIs(code) => IsI32(code)
    case FatalIs(_) => true
    case ParentIs(parent) => parent != ""
  }

  predicate ValidItem(item: Item) {
    match item
    case Short(_, code) => IsI32(code)
    case Long(_, fields) => forall field :: field in fields ==> ValidField(field)
  }

  lemma {:induction false} FieldsRun(before: seq<Scanned>, entries: seq<Entry>, name: string, fields: seq<Field>)
    requires Run(before) == Some(State(entries, Some(Pending(name, None, false, DEFAULT_PARENT))))
    requires forall field :: field in fields ==> ValidField(field)
    ensures Run(before + FieldLines(fields)) ==
      Some(State(entries, Some(Pending(name, LastCode(fields), LastFatal(fields), LastParent(fields)))))
  {
    if fields == [] {
      assert before + [] == before;
    } else {
      var rest, last := fields[..|fields| - 1], Last(fields);
      FieldsRun(before, entries, name, rest);
      RunNext(before + FieldLines(rest), FieldLine(last));
      assert before + FieldLines(fields) == before + FieldLines(rest) + [FieldLine(last)];
      assert ValidField(last);
      if last.CodeIs? {
        NumberReadsBack(last.code);
      }
    }
  }

  lemma NumberTextNotEmpty(n: int)
    ensures NumberText(n) != ""
  {
  }

  lemma ShortRun(before: seq<Scanned>, st: State, name: string, code: int)
    requires Run(before) == Some(st) && IsI32(code)
    ensures Run(before + ItemLines(Short(name, code))) ==
      Some(State(st.Flushed() + [Entry(name, code, false, DEFAULT_PARENT)], None))
  {
    NumberReadsBack(code);
    NumberTextNotEmpty(code);
    RunNext(before, Top(name, NumberText(code)));
  }

  lemma LongRun(before: seq<Scanned>, st: State, name: string, fields: seq<Field>)
    requires Run(before) == Some(st) && forall field :: field in fields ==> ValidField(field)
    ensures Run(before + ItemLines(Long(name, fields))) ==
      Some(State(st.Flushed(), Some(Pending(name, LastCode(fields), LastFatal(fields), LastParent(fields)))))
  {
    var start := before + [Top(name, "")];
    assert before + ItemLines(Long(name, fields)) == start + FieldLines(fields);
    RunNext(before, Top(name, ""));
    FieldsRun(start, st.Flushed(), name, fields);
  }

  lemma {:induction false} ItemsRun(items: seq<Item>)
    requires forall item :: item in items ==> ValidItem(item)
    ensures Run(ItemsLines(items)).Some? && Run(ItemsLines(items)).value.Flushed() == Meanings(items)
  {
    if items != [] {
      var rest, last := items[..|items| - 1], Last(items);
      ItemsRun(rest);
      assert ValidItem(last);
      match last {
        case Short(name, code) => ShortRun(ItemsLines(rest), Run(ItemsLines(rest)).value, name, code);
        case Long(name, fields) => LongRun(ItemsLines(rest), Run(ItemsLines(rest)).value, name, fields);
      }
    }
  }

  /** Every file of items reads as what the items stand for, in their order. */
  lemma FileMeansItems(items: seq<Item>)
    requires forall item :: item in items ==> ValidItem(item)
    ensures Parse(ItemsLines(items)) == Some(Meanings(items))
  {
    ItemsRun(items);
  }

  function WithoutBlanks(lines: seq<Scanned>): seq<Scanned> {
    if lines == [] then [] else
      WithoutBlanks(lines[..|lines| - 1]) + if Last(lines).Blank? then [] else [Last(lines)]
  }

  /** Blank lines and comments make no difference. */
  lemma {:induction false} BlanksDoNotMatter(lines: seq<Scanned>)
    ensures Run(lines) == Run(WithoutBlanks(lines))
  {
    if lines != [] {
      BlanksDoNotMatter(lines[..|lines| - 1]);
      if !Last(lines).Blank? {
        RunNext(WithoutBlanks(lines[..|lines| - 1]), Last(lines));
      } else {
        assert WithoutBlanks(lines) == WithoutBlanks(lines[..|lines| - 1]);
      }
    }
  }

  // ----- Entries written and read back

  /** An entry as an item; the shorthand has room only for defaults. */
  function Written(entry: Entry, indented: bool): Item {
    if !indented && !entry.fatal && entry.parent == DEFAULT_PARENT then Short(entry.name, entry.code) else
      Long(entry.name, [CodeIs(entry.code), FatalIs(if entry.fatal then "true" else "false"), ParentIs(entry.parent)])
  }

  function WrittenAll(entries: seq<Entry>, indented: seq<bool>): seq<Item>
    requires |entries| == |indented|
  {
    if entries == [] then [] else
      WrittenAll(entries[..|entries| - 1], indented[..|indented| - 1]) + [Written(Last(entries), Last(indented))]
  }

  predicate ValidEntry(e: Entry) {
    IsI32(e.code) && e.parent != ""
  }

  lemma WrittenMeans(e: Entry, indented: bool)
    requires ValidEntry(e)
    ensures ValidItem(Written(e, indented)) && Meaning(Written(e, indented)) == [e]
  {
    var fields := [CodeIs(e.code), FatalIs(if e.fatal then "true" else "false"), ParentIs(e.parent)];
    assert fields[..2] == [fields[0], fields[1]] && fields[..2][..1] == [fields[0]];
    assert LastCode([fields[0]]) == Some(e.code);
    assert LastCode([fields[0], fields[1]]) == Some(e.code);
    assert LastFatal([fields[0], fields[1]]) == e.fatal;
  }

  lemma {:induction false} WrittenMean(entries: seq<Entry>, indented: seq<bool>)
    requires |entries| == |indented| && forall e :: e in entries ==> ValidEntry(e)
    ensures var items := WrittenAll(entries, indented);
      Meanings(items) == entries && forall item :: item in items ==> ValidItem(item)
  {
    if entries != [] {
      WrittenMean(entries[..|entries| - 1], indented[..|indented| - 1]);
      WrittenMeans(Last(entries), Last(indented));
      var items := WrittenAll(entries, indented);
      assert items[..|items| - 1] == WrittenAll(entries[..|entries| - 1], indented[..|indented| - 1]);
      assert entries == entries[..|entries| - 1] + [Last(entries)];
    }
  }

  /** Entries written in either form are read back, in their order. */
  lemma EntriesReadBack(entries: seq<Entry>, indented: seq<bool>)
    requires |entries| == |indented| && forall e :: e in entries ==> ValidEntry(e)
    ensures Parse(ItemsLines(WrittenAll(entries, indented))) == Some(entries)
  {
    WrittenMean(entries, indented);
    FileMeansItems(WrittenAll(entries, indented));
  }

  // ----- The text of a file

  /** A string that trimming leaves as it is. */
  predicate Trimmed(s: string) {
    s != "" ==> !IsSpace(s[0]) && !IsSpace(s[|s| - 1])
  }

  predicate NameLike(s: string) {
    Trimmed(s) && '#' !in s && ':' !in s
  }

  predicate ValueLike(s: string) {
    Trimmed(s) && '#' !in s
  }

  /** The parts of a line: a key and a value with whitespace around them, and a comment after. */
  datatype Layout = Layout(pad: string, gap: string, trail: string, comment: string) {
    predicate Valid() {
      AllSpace(pad) && AllSpace(gap) && AllSpace(trail) && (comment == "" || comment[0] == '#')
    }

    function Line(key: string, value: string): string {
      pad + (key + ":" + gap + value) + trail
    }

    function Text(key: string, value: string): string {
      Line(key, value) + comment
    }
  }

  lemma NoHashInSpace(s: string)
    requires AllSpace(s)
    ensures '#' !in s && ':' !in s
  {
  }

  lemma {:induction false} FindAfter(s: string, c: char, rest: string)
    requires c !in s && rest != "" && rest[0] == c
    ensures Find(s + rest, c) == Some(|s|)
  {
    if s == "" {
      assert s + rest == rest;
    } else {
      assert (s + rest)[1..] == s[1..] + rest;
      FindAfter(s[1..], c, rest);
    }
  }

  lemma CommentGoes(line: string, comment: string)
    requires '#' !in line && (comment == "" || comment[0] == '#')
    ensures BeforeFirst(line + comment, '#') == line
  {
    if comment == "" {
      assert line + comment == line;
    } else {
      FindAfter(line, '#', comment);
    }
  }

  /** The middle of a line, trimmed: without a value the gap goes too. */
  function Middle(key: string, gap: string, value: string): string {
    if value == "" then key + ":" else key + ":" + gap + value
  }

  lemma LineTrims(l: Layout, key: string, value: string)
    requires l.Valid() && NameLike(key) && ValueLike(value)
    ensures Trim(l.Line(key, value)) == Middle(key, l.gap, value)
  {
    var middle := Middle(key, l.gap, value);
    if value == "" {
      TrimOf(l.pad, middle, l.gap + l.trail);
      assert l.Line(key, value) == l.pad + middle + (l.gap + l.trail);
    } else {
      TrimOf(l.pad, middle, l.trail);
    }
  }

  lemma MiddleColon(key: string, gap: string, value: string)
    requires NameLike(key)
    ensures Find(Middle(key, gap, value), ':') == Some(|key|)
  {
    var rest := if value == "" then ":" else ":" + gap + value;
    assert Middle(key, gap, value) == key + rest;
    FindAfter(key, ':', rest);
  }

  lemma MiddleNotEmpty(key: string, gap: string, value: string)
    ensures Middle(key, gap, value) != "" && |Middle(key, gap, value)| > |key|
  {
  }

  lemma MiddleKey(key: string, gap: string, value: string)
    requires NameLike(key)
    ensures Trim(Middle(key, gap, value)[..|key|]) == key
  {
    TrimOf("", key, "");
    assert Middle(key, gap, value)[..|key|] == "" + key + "";
  }

  lemma MiddleValue(key: string, gap: string, value: string)
    requires AllSpace(gap) && ValueLike(value)
    ensures Trim(Middle(key, gap, value)[|key| + 1..]) == value
  {
    var between := if value == "" then "" else gap;
    TrimOf(between, value, "");
    assert Middle(key, gap, value)[|key| + 1..] == between + value + "";
  }

  lemma LineLeads(l: Layout, key: string, value: string)
    requires l.Valid() && NameLike(key)
    ensures |TrimStart(l.Line(key, value))| == |l.Line(key, value)| - |l.pad|
  {
    var body := key + ":" + l.gap + value + l.trail;
    TrimStartOf(l.pad, body);
    assert l.Line(key, value) == l.pad + body;
  }

  lemma NoHash(l: Layout, key: string, value: string)
    requires l.Valid() && NameLike(key) && ValueLike(value)
    ensures '#' !in l.Line(key, value)
  {
    NoHashInSpace(l.pad);
    NoHashInSpace(l.gap);
    NoHashInSpace(l.trail);
  }

  /** Whatever its layout a line gives its key and value; an indent makes it a field. */
  lemma LineReads(l: Layout, key: string, value: string)
    requires l.Valid() && NameLike(key) && ValueLike(value)
    ensures ScanLine(l.Text(key, value)) == if l.pad == "" then Top(key, value) else Sub(key, value)
  {
    hide Trim, TrimStart, Find, BeforeFirst, Middle, NameLike, ValueLike, AllSpace, Layout.Line;
    NoHash(l, key, value);
    CommentGoes(l.Line(key, value), l.comment);
    LineTrims(l, key, value);
    assert l.Line(key, value) + l.comment == l.Text(key, value);
    MiddleNotEmpty(key, l.gap, value);
    MiddleColon(key, l.gap, value);
    MiddleKey(key, l.gap, value);
    MiddleValue(key, l.gap, value);
    LineLeads(l, key, value);
  }

  /** What is before a comment has no colon, and is not all whitespace: a line that fails. */
  lemma NoColonReads(text: string, comment: string, i: nat)
    requires ':' !in text && '#' !in text && (comment == "" || comment[0] == '#')
    requires i < |text| && text[i] as int !in {9, 10, 11, 12, 13, 32}
    ensures ScanLine(text + comment) == NoColon
  {
    CommentGoes(text, comment);
    SpaceIs(text[i]);
    TrimKeeps(text, text[i]);
  }

  lemma {:induction false} TrimStartKeeps(s: string, c: char)
    ensures c in s && !IsSpace(c) ==> c in TrimStart(s)
    ensures forall d :: d in TrimStart(s) ==> d in s
  {
    if s != "" && IsSpace(s[0]) {
      TrimStartKeeps(s[1..], c);
    }
  }

  lemma {:induction false} TrimEndKeeps(s: string, c: char)
    ensures c in s && !IsSpace(c) ==> c in TrimEnd(s)
    ensures forall d :: d in TrimEnd(s) ==> d in s
  {
    if s != "" && IsSpace(s[|s| - 1]) {
      TrimEndKeeps(s[..|s| - 1], c);
      assert forall d :: d in s ==> d in s[..|s| - 1] || d == s[|s| - 1];
    }
  }

  /** Trimming takes nothing but whitespace. */
  lemma TrimKeeps(s: string, c: char)
    ensures c in s && !IsSpace(c) ==> c in Trim(s)
    ensures forall d :: d in Trim(s) ==> d in s
  {
    TrimStartKeeps(s, c);
    TrimEndKeeps(TrimStart(s), c);
  }

  /** Whitespace with a comment is blank. */
  lemma CommentReads(space: string, comment: string)
    requires AllSpace(space) && (comment == "" || comment[0] == '#')
    ensures ScanLine(space + comment) == Blank
  {
    NoHashInSpace(space);
    CommentGoes(space, comment);
    TrimOf(space, "", "");
    assert space + "" + "" == space;
  }

  /** A line that a text can hold: blank, or a key and a value that fit on a line. */
  predicate Writable(s: Scanned) {
    match s
    case Blank => true
    case NoColon => false
    case Top(key, value) => NameLike(key) && ValueLike(value)
    case Sub(key, value) => NameLike(key) && ValueLike(value)
  }

  /** A text line that lays out a blank, or a key and a value. */
  predicate LaysOut(l: Layout, text: string, s: Scanned) {
    && l.Valid()
    && match s
       case Blank => text == l.pad + l.comment
       case NoColon => false
       case Top(key, value) => l.pad == "" && text == l.Text(key, value)
       case Sub(key, value) => l.pad != "" && text == l.Text(key, value)
  }

  lemma LayoutReads(l: Layout, text: string, s: Scanned)
    requires LaysOut(l, text, s) && Writable(s)
    ensures ScanLine(text) == s
  {
    match s {
      case Blank => CommentReads(l.pad, l.comment);
      case Top(key, value) => LineReads(l, key, value);
      case Sub(key, value) => LineReads(l, key, value);
    }
  }

  lemma {:induction false} ScanIs(lines: seq<string>, scanned: seq<Scanned>)
    requires |lines| == |scanned| && forall i :: 0 <= i < |lines| ==> ScanLine(lines[i]) == scanned[i]
    ensures Scan(lines) == scanned
  {
    if lines != [] {
      ScanIs(lines[..|lines| - 1], scanned[..|lines| - 1]);
    }
  }

  lemma LayoutsRead(layouts: seq<Layout>, lines: seq<string>, scanned: seq<Scanned>)
    requires |lines| == |scanned| == |layouts|
    requires forall i :: 0 <= i < |lines| ==> LaysOut(layouts[i], lines[i], scanned[i]) && Writable(scanned[i])
    ensures Scan(lines) == scanned
  {
    forall i | 0 <= i < |lines| ensures ScanLine(lines[i]) == scanned[i] {
      LayoutReads(layouts[i], lines[i], scanned[i]);
    }
    ScanIs(lines, scanned);
  }

  /**
   * The whole file: items with well-formed names, in any layout, with blank
   * lines and comments anywhere, are read as what they stand for.
   */
  lemma TextMeansItems(layouts: seq<Layout>, lines: seq<string>, scanned: seq<Scanned>, items: seq<Item>)
    requires |lines| == |scanned| == |layouts|
    requires forall i :: 0 <= i < |lines| ==> LaysOut(layouts[i], lines[i], scanned[i]) && Writable(scanned[i])
    requires WithoutBlanks(scanned) == ItemsLines(items) && forall item :: item in items ==> ValidItem(item)
    ensures Parse(Scan(lines)) == Some(Meanings(items))
  {
    LayoutsRead(layouts, lines, scanned);
    BlanksDoNotMatter(scanned);
    FileMeansItems(items);
  }

  // ----- Entries as text

  predicate WellNamed(e: Entry) {
    IsI32(e.code) && NameLike(e.name) && e.parent != "" && ValueLike(e.parent)
  }

  function PlainLayout(s: Scanned): Layout
    requires s.Top? || s.Sub?
  {
    Layout(if s.Top? then "" else "  ", if s.value == "" then "" else " ", "", "")
  }

  function PlainLine(s: Scanned): string {
    if s.Top? || s.Sub? then PlainLayout(s).Text(s.key, s.value) else ""
  }

  function PlainText(scanned: seq<Scanned>): seq<string> {
    seq(|scanned|, i requires 0 <= i < |scanned| => PlainLine(scanned[i]))
  }

  lemma PlainTextReads(scanned: seq<Scanned>)
    requires forall s :: s in scanned ==> Writable(s) && !s.Blank?
    ensures Scan(PlainText(scanned)) == scanned
  {
    var layouts := seq(|scanned|, i requires 0 <= i < |scanned| =>
      if scanned[i].Top? || scanned[i].Sub? then PlainLayout(scanned[i]) else Layout("", "", "", ""));
    forall i | 0 <= i < |scanned|
      ensures LaysOut(layouts[i], PlainText(scanned)[i], scanned[i]) && Writable(scanned[i])
    {
      assert scanned[i] in scanned;
    }
    LayoutsRead(layouts, PlainText(scanned), scanned);
  }

  lemma NumberIsValue(n: int)
    ensures ValueLike(NumberText(n))
  {
    DecimalRead(if n < 0 then -n else n);
  }

  lemma PlainWords()
    ensures NameLike("code") && NameLike("fatal") && NameLike("parent") && ValueLike("true") && ValueLike("false")
    ensures ValueLike("")
  {
  }

  lemma ThreeFields(a: Field, b: Field, c: Field)
    ensures FieldLines([a, b, c]) == [FieldLine(a), FieldLine(b), FieldLine(c)]
  {
    assert [a, b, c][..2] == [a, b] && [a, b][..1] == [a] && [a][..0] == [];
    assert FieldLines([a]) == [FieldLine(a)];
  }

  lemma WrittenLines(e: Entry, indented: bool)
    requires WellNamed(e)
    ensures forall s :: s in ItemLines(Written(e, indented)) ==> Writable(s) && !s.Blank?
  {
    hide NameLike, ValueLike, NumberText;
    NumberIsValue(e.code);
    PlainWords();
    var a, b, c := CodeIs(e.code), FatalIs(if e.fatal then "true" else "false"), ParentIs(e.parent);
    ThreeFields(a, b, c);
    assert Writable(FieldLine(a)) && Writable(FieldLine(b)) && Writable(FieldLine(c));
  }

  lemma {:induction false} WrittenAllLines(entries: seq<Entry>, indented: seq<bool>)
    requires |entries| == |indented| && forall e :: e in entries ==> WellNamed(e)
    ensures forall s :: s in ItemsLines(WrittenAll(entries, indented)) ==> Writable(s) && !s.Blank?
  {
    if entries != [] {
      var items := WrittenAll(entries, indented);
      WrittenAllLines(entries[..|entries| - 1], indented[..|indented| - 1]);
      assert items[..|items| - 1] == WrittenAll(entries[..|entries| - 1], indented[..|indented| - 1]);
      assert WellNamed(Last(entries));
      WrittenLines(Last(entries), Last(indented));
    }
  }

  /** Well-named entries written as text, each in either form, are read back from it in their order. */
  lemma TextReadsBack(entries: seq<Entry>, indented: seq<bool>)
    requires |entries| == |indented| && forall e :: e in entries ==> WellNamed(e)
    ensures Parse(Scan(PlainText(ItemsLines(WrittenAll(entries, indented))))) == Some(entries)
  {
    WrittenAllLines(entries, indented);
    PlainTextReads(ItemsLines(WrittenAll(entries, indented)));
    EntriesReadBack(entries, indented);
  }
}
