/**
 * WAL segment names, the look-ahead window of the asynchronous get, and the
 * least and greatest name of an archive listing.
 */
module WalWindow {
  import opened Base
  import opened FixedWidth
  import Sorting

  const U32: nat := 0x1_0000_0000

  /** Segments in one 4 GiB logical file, at the default 16 MiB a segment. */
  const PER_FILE: nat := 256

  datatype Segment = Segment(timeline: nat, high: nat, low: nat)

  predicate Fits(s: Segment) {
    s.timeline < U32 && s.high < U32 && s.low < U32
  }

  function HexPart(n: nat): string {
    Digits(Hex, 8, n)
  }

  /** `{tli:08X}{high:08X}{low:08X}` */
  function SegmentName(s: Segment): string {
    HexPart(s.timeline) + (HexPart(s.high) + HexPart(s.low))
  }

  /** The three parts of a name of exactly 24 hex digits, of either case. */
  function ParseSegment(name: string): Option<Segment> {
    if |name| != 24 then None else
      match (Value(Hex, name[0..8]), Value(Hex, name[8..16]), Value(Hex, name[16..24]))
      case (Some(timeline), Some(high), Some(low)) => Some(Segment(timeline, high, low))
      case _ => None
  }

  lemma HexPartRead(n: nat)
    requires n < U32
    ensures |HexPart(n)| == 8 && Value(Hex, HexPart(n)) == Some(n)
  {
    HexRoom();
    DigitsRead(Hex, 8, n);
  }

  lemma HexRoom()
    ensures Hex.Room(8) == U32
  {
    assert Hex.Room(2) == 0x100;
    assert Hex.Room(4) == 0x1_0000;
    assert Hex.Room(6) == 0x100_0000;
  }

  lemma NameRead(s: Segment)
    requires Fits(s)
    ensures |SegmentName(s)| == 24 && ParseSegment(SegmentName(s)) == Some(s)
  {
    HexPartRead(s.timeline);
    HexPartRead(s.high);
    HexPartRead(s.low);
    var name := SegmentName(s);
    assert name[0..8] == HexPart(s.timeline) && name[8..16] == HexPart(s.high) && name[16..24] == HexPart(s.low);
  }

  /** The names that parse are those of exactly 24 hex digits, of either case. */
  lemma SegmentNamesAreHex(name: string)
    ensures ParseSegment(name).Some? <==>
      |name| == 24 && forall i :: 0 <= i < 24 ==>
        '0' <= name[i] <= '9' || 'A' <= name[i] <= 'F' || 'a' <= name[i] <= 'f'
  {
    if |name| == 24 {
      ValueExactly(Hex, name[0..8]);
      ValueExactly(Hex, name[8..16]);
      ValueExactly(Hex, name[16..24]);
      forall i | 0 <= i < 24
        ensures name[i] == if i < 8 then name[0..8][i] else if i < 16 then name[8..16][i - 8] else name[16..24][i - 16]
      {
      }
    }
  }

  lemma {:induction false} ValueBelowRoom(s: string)
    requires Value(Hex, s).Some?
    ensures Value(Hex, s).value < Hex.Room(|s|)
  {
    if s != "" {
      ValueBelowRoom(s[..|s| - 1]);
    }
  }

  lemma ParsedFits(name: string)
    requires ParseSegment(name).Some?
    ensures Fits(ParseSegment(name).value)
  {
    HexRoom();
    ValueBelowRoom(name[0..8]);
    ValueBelowRoom(name[8..16]);
    ValueBelowRoom(name[16..24]);
  }

  // ----- Segment numbers

  /** The place of a segment in its timeline. */
  function Number(s: Segment): nat {
    s.high * PER_FILE + s.low
  }

  /** The segment with a number: the low half counts within a logical file. */
  function Numbered(timeline: nat, number: nat): Segment {
    Segment(timeline, number / PER_FILE, number % PER_FILE)
  }

  /** The names of the segments from one number up to another, both included. */
  function NamesBetween(timeline: nat, first: nat, last: nat): (names: seq<string>)
    decreases last + 1 - first
  {
    if last < first then [] else [SegmentName(Numbered(timeline, first))] + NamesBetween(timeline, first + 1, last)
  }

  lemma {:induction false} NamesBetweenAt(timeline: nat, first: nat, last: nat, k: nat)
    requires first <= last + 1
    ensures |NamesBetween(timeline, first, last)| == last + 1 - first
    ensures k < last + 1 - first ==>
      NamesBetween(timeline, first, last)[k] == SegmentName(Numbered(timeline, first + k))
    decreases last + 1 - first
  {
    if first <= last {
      NamesBetweenAt(timeline, first + 1, last, if k > 0 then k - 1 else 0);
    }
  }

  /** Every segment name from `start` to `stop`, for segments of the default size. */
  function SegmentRange(start: string, stop: string): Option<seq<string>> {
    match (ParseSegment(start), ParseSegment(stop))
    case (Some(a), Some(z)) =>
      if a.timeline != z.timeline || Number(z) < Number(a) || Number(z) / PER_FILE >= U32 then None
      else Some(NamesBetween(a.timeline, Number(a), Number(z)))
    case _ => None
  }

  /** The look-ahead window: the names of up to `ahead` segments after the requested one. */
  function PrefetchWindow(requested: string, ahead: nat): seq<string> {
    match ParseSegment(requested)
    case None => []
    case Some(s) => WindowAfter(s.timeline, Number(s), ahead)
  }

  function WindowAfter(timeline: nat, number: nat, ahead: nat): seq<string> {
    if ahead == 0 then [] else WindowBetween(timeline, number + 1, number + ahead)
  }

  function WindowBetween(timeline: nat, first: nat, last: nat): seq<string> {
    if first / PER_FILE >= U32 || last / PER_FILE >= U32 then [] else
      match SegmentRange(SegmentName(Numbered(timeline, first)), SegmentName(Numbered(timeline, last)))
      case Some(names) => names
      case None => []
  }

  lemma NumberOfNumbered(timeline: nat, number: nat)
    requires timeline < U32 && number / PER_FILE < U32
    ensures Fits(Numbered(timeline, number)) && Number(Numbered(timeline, number)) == number
  {
  }

  lemma RangeOfNumbers(timeline: nat, first: nat, last: nat)
    requires timeline < U32 && first <= last && last / PER_FILE < U32
    ensures SegmentRange(SegmentName(Numbered(timeline, first)), SegmentName(Numbered(timeline, last)))
      == Some(NamesBetween(timeline, first, last))
  {
    assert first / PER_FILE <= last / PER_FILE;
    NumberOfNumbered(timeline, first);
    NumberOfNumbered(timeline, last);
    NameRead(Numbered(timeline, first));
    NameRead(Numbered(timeline, last));
  }

  /** There is a range exactly between names of one timeline in their order, as far as there are high halves. */
  lemma RangeExactlyWhen(start: string, stop: string)
    ensures SegmentRange(start, stop).Some? <==>
      && ParseSegment(start).Some? && ParseSegment(stop).Some?
      && var a, z := ParseSegment(start).value, ParseSegment(stop).value;
         a.timeline == z.timeline && Number(a) <= Number(z) && z.high + z.low / 256 < 4_294_967_296
  {
    if ParseSegment(stop).Some? {
      NumberHigh(ParseSegment(stop).value);
    }
  }

  lemma NumberHigh(s: Segment)
    ensures Number(s) / 256 == s.high + s.low / 256
  {
  }

  lemma DividesMonotone(m: nat, n: nat)
    requires m <= n
    ensures m / PER_FILE <= n / PER_FILE
  {
  }

  lemma WindowBetweenIsNames(timeline: nat, first: nat, last: nat)
    requires timeline < U32 && first <= last
    ensures WindowBetween(timeline, first, last) ==
      if last / PER_FILE >= U32 then [] else NamesBetween(timeline, first, last)
  {
    DividesMonotone(first, last);
    if last / PER_FILE < U32 {
      RangeOfNumbers(timeline, first, last);
    }
  }

  /** The names of `n` segments from a number on, as the window should have them. */
  ghost predicate SegmentsFrom(window: seq<string>, timeline: nat, first: nat, n: nat) {
    && |window| == n
    && forall k :: 0 <= k < n ==> window[k] == SegmentName(Numbered(timeline, first + k))
  }

  /** All that was asked for, or nothing when the last segment has no 32-bit high half. */
  function WindowLength(number: nat, ahead: nat): nat {
    if (number + ahead) / PER_FILE >= U32 then 0 else ahead
  }

  /**
   * The window is exactly the next `ahead` segments of the timeline, across the
   * roll-over of the low half; it is empty only when the name is not that of a
   * segment, nothing is asked for, or the last of them has no 32-bit high half.
   */
  lemma WindowIsNextSegments(requested: string, ahead: nat)
    ensures match ParseSegment(requested)
      case None => PrefetchWindow(requested, ahead) == []
      case Some(s) =>
        SegmentsFrom(PrefetchWindow(requested, ahead), s.timeline, Number(s) + 1, WindowLength(Number(s), ahead))
  {
    hide WindowAfter;
    if ParseSegment(requested).Some? {
      ParsedFits(requested);
      NamesAreNext(ParseSegment(requested).value.timeline, Number(ParseSegment(requested).value), ahead);
    }
  }

  lemma NamesAreNext(timeline: nat, number: nat, ahead: nat)
    requires timeline < U32
    ensures SegmentsFrom(WindowAfter(timeline, number, ahead), timeline, number + 1, WindowLength(number, ahead))
  {
    hide WindowBetween;
    if ahead > 0 {
      WindowBetweenIsNames(timeline, number + 1, number + ahead);
      NamesInOrder(timeline, number + 1, number + ahead);
    }
  }

  lemma NamesInOrder(timeline: nat, first: nat, last: nat)
    requires first <= last
    ensures SegmentsFrom(NamesBetween(timeline, first, last), timeline, first, last + 1 - first)
  {
    var names := NamesBetween(timeline, first, last);
    NamesBetweenAt(timeline, first, last, 0);
    forall k | 0 <= k < |names| ensures names[k] == SegmentName(Numbered(timeline, first + k)) {
      NamesBetweenAt(timeline, first, last, k);
    }
  }

  /** Stepping to the next number steps the low half, and rolls it over into the high half. */
  lemma NextSegment(s: Segment)
    requires s.low < 256
    ensures Number(s) == 256 * s.high + s.low && Numbered(s.timeline, Number(s)) == s
    ensures Numbered(s.timeline, Number(s) + 1) ==
      if s.low < 255 then Segment(s.timeline, s.high, s.low + 1) else Segment(s.timeline, s.high + 1, 0)
  {
  }

  // ----- Order

  predicate Earlier(s: Segment, t: Segment) {
    s.timeline < t.timeline || (s.timeline == t.timeline && (s.high < t.high || (s.high == t.high && s.low < t.low)))
  }

  /** Names are ordered as strings exactly as their segments are. */
  lemma NameOrder(s: Segment, t: Segment)
    requires Fits(s) && Fits(t)
    ensures LexLess(SegmentName(s), SegmentName(t)) <==> Earlier(s, t)
  {
    HexRoom();
    DigitsOrdered(Hex, 8, s.timeline, t.timeline);
    DigitsOrdered(Hex, 8, s.high, t.high);
    DigitsOrdered(Hex, 8, s.low, t.low);
    LexConcat(HexPart(s.timeline), HexPart(t.timeline),
      HexPart(s.high) + HexPart(s.low), HexPart(t.high) + HexPart(t.low));
    LexConcat(HexPart(s.high), HexPart(t.high), HexPart(s.low), HexPart(t.low));
  }

  lemma NumberOrder(timeline: nat, m: nat, n: nat)
    requires timeline < U32 && m < n && n / PER_FILE < U32
    ensures LexLess(SegmentName(Numbered(timeline, m)), SegmentName(Numbered(timeline, n)))
  {
    assert m / PER_FILE <= n / PER_FILE;
    NumberOfNumbered(timeline, m);
    NumberOfNumbered(timeline, n);
    NameOrder(Numbered(timeline, m), Numbered(timeline, n));
  }

  /** The names of the window strictly increase. */
  lemma WindowAfterIncreases(timeline: nat, number: nat, ahead: nat, j: nat, k: nat)
    requires timeline < U32 && j < k < |WindowAfter(timeline, number, ahead)|
    ensures LexLess(WindowAfter(timeline, number, ahead)[j], WindowAfter(timeline, number, ahead)[k])
  {
    hide WindowBetween;
    WindowName(timeline, number, ahead, j);
    WindowName(timeline, number, ahead, k);
    NumberOrder(timeline, number + 1 + j, number + 1 + k);
  }

  /** A segment is before those of higher numbers, whatever its own low half. */
  lemma NumberedLater(s: Segment, number: nat)
    requires Fits(s) && Number(s) < number && number / PER_FILE < U32
    ensures LexLess(SegmentName(s), SegmentName(Numbered(s.timeline, number)))
  {
    NumberOfNumbered(s.timeline, number);
    NameOrder(s, Numbered(s.timeline, number));
    assert s.high <= number / PER_FILE;
  }

  lemma WindowAfterFollows(s: Segment, ahead: nat, k: nat)
    requires Fits(s) && k < |WindowAfter(s.timeline, Number(s), ahead)|
    ensures LexLess(SegmentName(s), WindowAfter(s.timeline, Number(s), ahead)[k])
  {
    hide WindowBetween;
    WindowName(s.timeline, Number(s), ahead, k);
    NumberedLater(s, Number(s) + 1 + k);
  }

  lemma WindowName(timeline: nat, number: nat, ahead: nat, k: nat)
    requires timeline < U32 && k < |WindowAfter(timeline, number, ahead)|
    ensures WindowAfter(timeline, number, ahead)[k] == SegmentName(Numbered(timeline, number + 1 + k))
    ensures (number + 1 + k) / PER_FILE < U32
  {
    NamesAreNext(timeline, number, ahead);
    DividesMonotone(number + 1 + k, number + ahead);
  }

  lemma WindowIncreases(requested: string, ahead: nat, j: nat, k: nat)
    requires j < k < |PrefetchWindow(requested, ahead)|
    ensures LexLess(PrefetchWindow(requested, ahead)[j], PrefetchWindow(requested, ahead)[k])
  {
    ParsedFits(requested);
    var s := ParseSegment(requested).value;
    WindowAfterIncreases(s.timeline, Number(s), ahead, j, k);
  }

  /** Every name of the window comes after the requested segment's. */
  lemma WindowFollowsRequest(requested: string, ahead: nat, k: nat)
    requires k < |PrefetchWindow(requested, ahead)|
    ensures ParseSegment(requested).Some?
    ensures LexLess(SegmentName(ParseSegment(requested).value), PrefetchWindow(requested, ahead)[k])
  {
    ParsedFits(requested);
    var s := ParseSegment(requested).value;
    WindowAfterFollows(s, ahead, k);
  }

  // ----- The WAL range of an archive listing

  datatype Entry = File(name: string) | Other(name: string)

  function Strip(s: string, suffix: string): string {
    if EndsWith(s, suffix) then s[..|s| - |suffix|] else s
  }

  /** A file name without its compression suffix, of which there can be one. */
  function Stripped(name: string): string {
    if EndsWith(name, ".gz") then Strip(name, ".gz")
    else if EndsWith(name, ".zst") then Strip(name, ".zst")
    else if EndsWith(name, ".bz2") then Strip(name, ".bz2")
    else Strip(name, ".lz4")
  }

  /** Exactly one compression suffix comes off, of a name that has one. */
  lemma StrippedIs(name: string)
    ensures Stripped(name + ".gz") == name && Stripped(name + ".zst") == name
    ensures Stripped(name + ".bz2") == name && Stripped(name + ".lz4") == name
    ensures (forall stem :: name !in {stem + ".gz", stem + ".zst", stem + ".bz2", stem + ".lz4"}) ==>
      Stripped(name) == name
  {
    hide EndsWith, Strip;
    StripsEnd(name, ".gz");
    StripsEnd(name, ".zst");
    StripsEnd(name, ".bz2");
    StripsEnd(name, ".lz4");
    NotEnd(name, ".zst", ".gz");
    NotEnd(name, ".bz2", ".gz");
    NotEnd(name, ".bz2", ".zst");
    NotEnd(name, ".lz4", ".gz");
    NotEnd(name, ".lz4", ".zst");
    NotEnd(name, ".lz4", ".bz2");
  }

  lemma NotEnd(name: string, end: string, other: string)
    requires end != "" && other != "" && Last(end) != Last(other)
    ensures !EndsWith(name + end, other)
  {
    var text := name + end;
    assert Last(text) == Last(end);
    assert |text| >= |other| ==> text[|text| - |other|..][|other| - 1] == Last(text);
  }

  lemma StripsEnd(name: string, suffix: string)
    ensures EndsWith(name + suffix, suffix) && Strip(name + suffix, suffix) == name
    ensures EndsWith(name, suffix) ==> |name| >= |suffix| && name == name[..|name| - |suffix|] + suffix
    ensures !EndsWith(name, suffix) ==> Strip(name, suffix) == name
  {
  }

  /** The stripped names of the files of a listing. */
  function FileNames(entries: seq<Entry>): set<string> {
    set e | e in entries && e.File? :: Stripped(e.name)
  }

  predicate Sorted(s: seq<string>) {
    forall i, j :: 0 <= i < j < |s| ==> LexLeq(s[i], s[j])
  }

  lemma LexLeqTransitive(s: string, t: string, u: string)
    requires LexLeq(s, t) && LexLeq(t, u)
    ensures LexLeq(s, u)
  {
    if s != t && t != u {
      LexTransitive(s, t, u);
    }
  }

  /** Sorts strings in place. */
  method Sort(a: array<string>)
    modifies a
    ensures Sorted(a[..]) && multiset(a[..]) == multiset(old(a[..]))
  {
    LexOrders();
    Sorting.Sort(a, LexLeq);
  }

  lemma LexOrders()
    ensures Sorting.Orders(LexLeq)
  {
    forall s, t ensures LexLeq(s, t) || LexLeq(t, s) {
      LexTotal(s, t);
    }
    forall s, t, u | LexLeq(s, t) && LexLeq(t, u) ensures LexLeq(s, u) {
      LexLeqTransitive(s, t, u);
    }
  }

  /** The least and the greatest name of the files listed; none when there is no file. */
  method ScanWalRange(entries: seq<Entry>) returns (least: Option<string>, greatest: Option<string>)
    ensures FileNames(entries) == {} ==> least == None && greatest == None
    ensures FileNames(entries) != {} ==>
      && least.Some? && greatest.Some?
      && least.value in FileNames(entries) && greatest.value in FileNames(entries)
      && forall name :: name in FileNames(entries) ==> LexLeq(least.value, name) && LexLeq(name, greatest.value)
  {
    var names: seq<string> := [];
    for i := 0 to |entries|
      invariant forall name :: name in names <==>
        exists j :: 0 <= j < i && entries[j].File? && name == Stripped(entries[j].name)
    {
      if entries[i].File? {
        names := names + [Stripped(entries[i].name)];
      }
    }
    assert forall name :: name in names <==> name in FileNames(entries);
    if names == [] {
      return None, None;
    }
    assert names[0] in FileNames(entries);
    var a := new string[|names|](i requires 0 <= i < |names| => names[i]);
    assert a[..] == names;
    Sort(a);
    assert forall name :: name in names <==> name in multiset(a[..]);
    least, greatest := Some(a[0]), Some(a[a.Length - 1]);
    assert a[0] in multiset(a[..]) && a[a.Length - 1] in multiset(a[..]);
    forall name | name in FileNames(entries) ensures LexLeq(a[0], name) && LexLeq(name, a[a.Length - 1]) {
      assert name in multiset(a[..]);
      var k :| 0 <= k < a.Length && a[k] == name;
    }
  }

  /** In an archive of segments only, the ends of the range are its earliest and latest segments. */
  lemma RangeEndsAreSegments(segments: set<Segment>, least: Segment, greatest: Segment)
    requires (forall s :: s in segments ==> Fits(s)) && least in segments && greatest in segments
    requires forall s :: s in segments ==>
      LexLeq(SegmentName(least), SegmentName(s)) && LexLeq(SegmentName(s), SegmentName(greatest))
    ensures forall s :: s in segments ==> !Earlier(s, least) && !Earlier(greatest, s)
  {
    forall s | s in segments ensures !Earlier(s, least) && !Earlier(greatest, s) {
      NameOrder(s, least);
      NameOrder(greatest, s);
      LexNotBoth(SegmentName(least), SegmentName(s));
      LexNotBoth(SegmentName(s), SegmentName(greatest));
    }
  }

  lemma LexNotBoth(s: string, t: string)
    requires LexLeq(s, t)
    ensures !LexLess(t, s)
  {
    if LexLess(s, t) {
      LexAsymmetric(s, t);
    } else {
      LexIrreflexive(s);
    }
  }
}
