/**
 * The event stream of an XML document, how the help parser consumes it, and
 * that this agrees with the document's element tree.
 */
module HelpXml {
  import opened Base

  datatype QName = QName(prefix: string, local: string)

  /** An attribute; `None` is a value that cannot be unescaped, `Broken` an attribute that cannot be read. */
  datatype Attr = Attr(key: QName, value: Option<string>) | Broken

  /** What the XML reader delivers until the document ends. `Malformed` stands for its errors. */
  datatype Event =
    | Start(name: QName, attrs: seq<Attr>) | End(name: QName) | Empty(name: QName, attrs: seq<Attr>)
    | Text(text: string) | CData(text: string) | Comment(text: string)
    | Other(text: string) | Malformed

  type Content = seq<Event>

  // ----- Capturing and skipping an element

  datatype Captured = Captured(content: Content, rest: seq<Event>)

  /** What a capture writes for an event: declarations and instructions are left out. */
  function Written(e: Event): Content {
    if e.Other? then [] else [e]
  }

  function Kept(events: seq<Event>): Content {
    if events == [] then [] else Written(events[0]) + Kept(events[1..])
  }

  function Put(content: Content, c: Option<Captured>): Option<Captured> {
    if c.None? then None else Some(Captured(content + c.value.content, c.value.rest))
  }

  /** Everything up to the close tag that `depth` counts down to, for any tags on the way. */
  function CaptureTo(s: seq<Event>, closing: string, depth: nat): (c: Option<Captured>)
    ensures c.Some? ==> |c.value.rest| < |s|
  {
    if s == [] || s[0].Malformed? then None
    else if s[0].Start? then Put([s[0]], CaptureTo(s[1..], closing, depth + 1))
    else if s[0].End? then
      if depth == 0 && s[0].name.local == closing then Some(Captured([], s[1..]))
      else Put([s[0]], CaptureTo(s[1..], closing, if depth == 0 then 0 else depth - 1))
    else Put(Written(s[0]), CaptureTo(s[1..], closing, depth))
  }

  /** What follows the close tag that `depth` counts down to, where only tags of that name count. */
  function SkipTo(s: seq<Event>, name: QName, depth: nat): (rest: Option<seq<Event>>)
    ensures rest.Some? ==> |rest.value| < |s|
  {
    if s == [] || s[0].Malformed? then None
    else if s[0].Start? && s[0].name == name then SkipTo(s[1..], name, depth + 1)
    else if s[0].End? && s[0].name == name then
      if depth == 0 then Some(s[1..]) else SkipTo(s[1..], name, depth - 1)
    else SkipTo(s[1..], name, depth)
  }

  // ----- Element trees

  /** A well-formed piece of a document: elements and what stands between them. */
  datatype Forest =
    | Nil
    | Elem(name: QName, attrs: seq<Attr>, inner: Forest, after: Forest)
    | Bit(event: Event, after: Forest)
  {
    predicate WellFormed() {
      match this
      case Nil => true
      case Elem(_, _, inner, after) => inner.WellFormed() && after.WellFormed()
      case Bit(e, after) => !e.Start? && !e.End? && !e.Malformed? && after.WellFormed()
    }

    /** The events of the piece. */
    function Events(): seq<Event> {
      match this
      case Nil => []
      case Elem(name, attrs, inner, after) => [Start(name, attrs)] + (inner.Events() + ([End(name)] + after.Events()))
      case Bit(e, after) => [e] + after.Events()
    }
  }

  lemma {:induction false} KeptConcat(a: seq<Event>, b: seq<Event>)
    ensures Kept(a + b) == Kept(a) + Kept(b)
  {
    if a == [] {
      assert a + b == b;
    } else {
      assert (a + b)[1..] == a[1..] + b;
      KeptConcat(a[1..], b);
      assert Written(a[0]) + (Kept(a[1..]) + Kept(b)) == Written(a[0]) + Kept(a[1..]) + Kept(b);
    }
  }

  lemma Regroup<T>(a: T, x: seq<T>, b: T, y: seq<T>, t: seq<T>)
    ensures [a] + (x + ([b] + y)) + t == [a] + (x + ([b] + (y + t)))
    ensures ([a] + (x + ([b] + (y + t))))[1..] == x + ([b] + (y + t))
    ensures ([b] + (y + t))[1..] == y + t
  {
  }

  lemma PutPut(a: Content, b: Content, c: Option<Captured>)
    ensures Put(a, Put(b, c)) == Put(a + b, c)
  {
    if c.Some? {
      assert a + (b + c.value.content) == a + b + c.value.content;
    }
  }

  lemma PutNothing(c: Option<Captured>)
    ensures Put([], c) == c
  {
    if c.Some? {
      assert [] + c.value.content == c.value.content;
    }
  }

  /** A capture runs over a whole piece, whatever its tags are called, and keeps its count. */
  lemma {:induction false} CaptureRunsOver(f: Forest, t: seq<Event>, closing: string, depth: nat)
    requires f.WellFormed()
    ensures CaptureTo(f.Events() + t, closing, depth) == Put(Kept(f.Events()), CaptureTo(t, closing, depth))
    decreases f
  {
    match f {
      case Nil =>
        assert [] + t == t;
        PutNothing(CaptureTo(t, closing, depth));
      case Bit(e, after) =>
        assert (f.Events() + t)[1..] == after.Events() + t;
        CaptureRunsOver(after, t, closing, depth);
        PutPut(Written(e), Kept(after.Events()), CaptureTo(t, closing, depth));
        assert f.Events()[1..] == after.Events();
      case Elem(name, attrs, inner, after) => CaptureOverElement(f, t, closing, depth);
    }
  }

  lemma {:induction false} CaptureOverElement(f: Forest, t: seq<Event>, closing: string, depth: nat)
    requires f.WellFormed() && f.Elem?
    ensures CaptureTo(f.Events() + t, closing, depth) == Put(Kept(f.Events()), CaptureTo(t, closing, depth))
    decreases f, 0
  {
    var a, b := Start(f.name, f.attrs), End(f.name);
    var x, y := f.inner.Events(), f.after.Events();
    Regroup(a, x, b, y, t);
    var end := CaptureTo(t, closing, depth);
    CaptureRunsOver(f.inner, [b] + (y + t), closing, depth + 1);
    CaptureRunsOver(f.after, t, closing, depth);
    assert CaptureTo([b] + (y + t), closing, depth + 1) == Put([b], CaptureTo(y + t, closing, depth));
    PutPut([b], Kept(y), end);
    PutPut(Kept(x), [b] + Kept(y), end);
    PutPut([a], Kept(x) + ([b] + Kept(y)), end);
    KeptElement(a, x, b, y);
  }

  lemma KeptElement(a: Event, x: seq<Event>, b: Event, y: seq<Event>)
    requires !a.Other? && !b.Other?
    ensures Kept([a] + (x + ([b] + y))) == [a] + (Kept(x) + ([b] + Kept(y)))
  {
    KeptConcat([a], x + ([b] + y));
    KeptConcat(x, [b] + y);
    KeptConcat([b], y);
    assert [a][1..] == [] && [b][1..] == [];
  }

  /** A skip runs over a whole piece and keeps its count, although it counts one name only. */
  lemma {:induction false} SkipRunsOver(f: Forest, t: seq<Event>, name: QName, depth: nat)
    requires f.WellFormed()
    ensures SkipTo(f.Events() + t, name, depth) == SkipTo(t, name, depth)
    decreases f
  {
    match f {
      case Nil => assert [] + t == t;
      case Bit(e, after) =>
        assert (f.Events() + t)[1..] == after.Events() + t;
        SkipRunsOver(after, t, name, depth);
      case Elem(n, attrs, inner, after) =>
        Regroup(Start(n, attrs), inner.Events(), End(n), after.Events(), t);
        var inside := if n == name then depth + 1 else depth;
        SkipRunsOver(inner, [End(n)] + (after.Events() + t), name, inside);
        SkipRunsOver(after, t, name, depth);
    }
  }

  /** Capture and skip both stop at exactly the matching close tag. */
  lemma StopAtMatchingClose(f: Forest, name: QName, t: seq<Event>)
    requires f.WellFormed()
    ensures CaptureTo(f.Events() + ([End(name)] + t), name.local, 0) == Some(Captured(Kept(f.Events()), t))
    ensures SkipTo(f.Events() + ([End(name)] + t), name, 0) == Some(t)
  {
    var close := [End(name)] + t;
    assert close[1..] == t;
    CaptureRunsOver(f, close, name.local, 0);
    SkipRunsOver(f, close, name, 0);
    assert Kept(f.Events()) + [] == Kept(f.Events());
  }

  // ----- What each level of the help document does with an element

  datatype Level =
    | Top | Config | SectionList | Section | KeyList | Key
    | Operation | CommandList | Command | OptionList | Opt

  /** The tag whose close ends a level; the whole document ends with the stream. */
  function Tag(level: Level): string {
    match level
    case Top => ""
    case Config => "config"
    case SectionList => "config-section-list"
    case Section => "config-section"
    case KeyList => "config-key-list"
    case Key => "config-key"
    case Operation => "operation"
    case CommandList => "command-list"
    case Command => "command"
    case OptionList => "option-list"
    case Opt => "option"
  }

  /** Descend into a level, capture the text, skip the element, or look past its tag. */
  datatype Use = Into(level: Level) | Capture | Skip | Ignore

  function If(level: Level, local: string, otherwise: Use): Use {
    if local == Tag(level) then Into(level) else otherwise
  }

  function UseOf(level: Level, local: string): Use {
    match level
    case Top => If(Config, local, If(Operation, local, Ignore))
    case Config => If(SectionList, local, Ignore)
    case SectionList => If(Section, local, Ignore)
    case Section => if local == "text" then Capture else If(KeyList, local, Skip)
    case KeyList => If(Key, local, Ignore)
    case Key => if local == "summary" || local == "text" || local == "example" then Capture else Skip
    case Operation => If(CommandList, local, Ignore)
    case CommandList => If(Command, local, Ignore)
    case Command => if local == "summary" || local == "text" then Capture else If(OptionList, local, Skip)
    case OptionList => If(Opt, local, Ignore)
    case Opt => if local == "summary" || local == "text" || local == "example" then Capture else Skip
  }

  /** What a level found: captured texts, and parts with what they found in turn. */
  datatype Hit = Caught(local: string, content: Content) | Part(level: Level, attrs: seq<Attr>, hits: seq<Hit>)

  datatype Got = Got(hits: seq<Hit>, rest: seq<Event>)

  function Prepend(hits: seq<Hit>, g: Option<Got>): Option<Got> {
    if g.None? then None else Some(Got(hits + g.value.hits, g.value.rest))
  }

  /** The loop of a level over the events. */
  function Read(level: Level, s: seq<Event>): (g: Option<Got>)
    ensures g.Some? && !level.Top? ==> |g.value.rest| < |s|
    ensures g.Some? ==> |g.value.rest| <= |s|
    decreases |s|
  {
    if s == [] then (if level.Top? then Some(Got([], [])) else None)
    else if s[0].Malformed? then None
    else if s[0].End? && !level.Top? && s[0].name.local == Tag(level) then Some(Got([], s[1..]))
    else if s[0].Start? then ReadElement(level, s)
    else Read(level, s[1..])
  }

  /** The same at the start tag of an element. */
  function ReadElement(level: Level, s: seq<Event>): (g: Option<Got>)
    requires s != [] && s[0].Start?
    ensures g.Some? && !level.Top? ==> |g.value.rest| < |s|
    ensures g.Some? ==> |g.value.rest| <= |s|
    decreases |s|, 0
  {
    match UseOf(level, s[0].name.local)
    case Ignore => Read(level, s[1..])
    case Skip =>
      var rest := SkipTo(s[1..], s[0].name, 0);
      if rest.None? then None else Read(level, rest.value)
    case Capture =>
      var c := CaptureTo(s[1..], s[0].name.local, 0);
      if c.None? then None else Prepend([Caught(s[0].name.local, c.value.content)], Read(level, c.value.rest))
    case Into(l) =>
      var inner := Read(l, s[1..]);
      if inner.None? then None else Prepend([Part(l, s[0].attrs, inner.value.hits)], Read(level, inner.value.rest))
  }

  /** What a level finds in the element tree. */
  function HitsOf(level: Level, f: Forest): seq<Hit>
    decreases f
  {
    match f
    case Nil => []
    case Bit(_, after) => HitsOf(level, after)
    case Elem(name, attrs, inner, after) =>
      match UseOf(level, name.local)
      case Ignore => HitsOf(level, inner) + HitsOf(level, after)
      case Skip => HitsOf(level, after)
      case Capture => [Caught(name.local, Kept(inner.Events()))] + HitsOf(level, after)
      case Into(l) => [Part(l, attrs, HitsOf(l, inner))] + HitsOf(level, after)
  }

  /** No element a level looks past has the level's own name. */
  predicate Calm(level: Level, f: Forest)
    decreases f
  {
    match f
    case Nil => true
    case Bit(_, after) => Calm(level, after)
    case Elem(name, _, inner, after) =>
      && Calm(level, after)
      && match UseOf(level, name.local)
         case Ignore => (level.Top? || name.local != Tag(level)) && Calm(level, inner)
         case Skip => true
         case Capture => true
         case Into(l) => Calm(l, inner)
  }

  lemma PrependPrepend(a: seq<Hit>, b: seq<Hit>, g: Option<Got>)
    ensures Prepend(a, Prepend(b, g)) == Prepend(a + b, g)
  {
    if g.Some? {
      assert a + (b + g.value.hits) == a + b + g.value.hits;
    }
  }

  lemma PrependNone(g: Option<Got>)
    ensures Prepend([], g) == g
  {
    if g.Some? {
      assert [] + g.value.hits == g.value.hits;
    }
  }

  /** Over a whole piece of a document a level finds what its tree holds, and goes on after it. */
  lemma {:induction false} ReadRunsOver(level: Level, f: Forest, t: seq<Event>)
    requires f.WellFormed() && Calm(level, f)
    ensures Read(level, f.Events() + t) == Prepend(HitsOf(level, f), Read(level, t))
    decreases f, 1
  {
    match f {
      case Nil =>
        assert [] + t == t;
        PrependNone(Read(level, t));
      case Bit(e, after) =>
        assert (f.Events() + t)[1..] == after.Events() + t;
        ReadRunsOver(level, after, t);
      case Elem(name, attrs, inner, after) =>
        Regroup(Start(name, attrs), inner.Events(), End(name), after.Events(), t);
        assert Read(level, f.Events() + t) == ReadElement(level, f.Events() + t);
        ReadRunsOver(level, after, t);
        ElementRunsOver(level, f, t);
    }
  }

  lemma {:induction false} ElementRunsOver(level: Level, f: Forest, t: seq<Event>)
    requires f.WellFormed() && Calm(level, f) && f.Elem?
    requires Read(level, f.after.Events() + t) == Prepend(HitsOf(level, f.after), Read(level, t))
    ensures ReadElement(level, f.Events() + t) == Prepend(HitsOf(level, f), Read(level, t))
    decreases f, 0
  {
    var rest := f.after.Events() + t;
    var s := f.Events() + t;
    var close := [End(f.name)] + rest;
    Regroup(Start(f.name, f.attrs), f.inner.Events(), End(f.name), f.after.Events(), t);
    assert s[0] == Start(f.name, f.attrs) && s[1..] == f.inner.Events() + close && close[1..] == rest;
    match UseOf(level, f.name.local) {
      case Ignore =>
        ReadRunsOver(level, f.inner, close);
        PrependPrepend(HitsOf(level, f.inner), HitsOf(level, f.after), Read(level, t));
      case Skip =>
        StopAtMatchingClose(f.inner, f.name, rest);
      case Capture =>
        StopAtMatchingClose(f.inner, f.name, rest);
        PrependPrepend([Caught(f.name.local, Kept(f.inner.Events()))], HitsOf(level, f.after), Read(level, t));
      case Into(l) =>
        TagOfUse(level, f.name.local);
        LevelStops(l, f.name, f.inner, rest);
        IntoElement(level, l, f, s, rest);
        PrependPrepend([Part(l, f.attrs, HitsOf(l, f.inner))], HitsOf(level, f.after), Read(level, t));
    }
  }

  lemma IntoElement(level: Level, l: Level, f: Forest, s: seq<Event>, rest: seq<Event>)
    requires f.Elem? && UseOf(level, f.name.local) == Into(l) && s != [] && s[0] == Start(f.name, f.attrs)
    requires Read(l, s[1..]) == Some(Got(HitsOf(l, f.inner), rest))
    ensures ReadElement(level, s) == Prepend([Part(l, f.attrs, HitsOf(l, f.inner))], Read(level, rest))
  {
  }

  lemma TagOfUse(level: Level, local: string)
    ensures UseOf(level, local).Into? ==> local == Tag(UseOf(level, local).level) && !UseOf(level, local).level.Top?
  {
  }

  /** A level stops at the close tag of its element. */
  lemma {:induction false} LevelStops(level: Level, name: QName, inner: Forest, rest: seq<Event>)
    requires inner.WellFormed() && Calm(level, inner) && !level.Top? && name.local == Tag(level)
    ensures Read(level, inner.Events() + ([End(name)] + rest)) == Some(Got(HitsOf(level, inner), rest))
    decreases inner, 2
  {
    var close := [End(name)] + rest;
    assert close[1..] == rest;
    ReadRunsOver(level, inner, close);
    assert Read(level, close) == Some(Got([], rest));
    assert HitsOf(level, inner) + [] == HitsOf(level, inner);
  }

  // ----- Exactly when a level stops at its own close tag

  /** No element this level looks past has its own name. */
  predicate OwnCalm(level: Level, f: Forest)
    decreases f
  {
    match f
    case Nil => true
    case Bit(_, after) => OwnCalm(level, after)
    case Elem(name, _, inner, after) =>
      && OwnCalm(level, after)
      && (UseOf(level, name.local).Ignore? ==> (level.Top? || name.local != Tag(level)) && OwnCalm(level, inner))
  }

  /** The same for every level it descends into. */
  predicate PartsCalm(level: Level, f: Forest)
    decreases f
  {
    match f
    case Nil => true
    case Bit(_, after) => PartsCalm(level, after)
    case Elem(name, _, inner, after) =>
      && PartsCalm(level, after)
      && match UseOf(level, name.local)
         case Ignore => PartsCalm(level, inner)
         case Skip => true
         case Capture => true
         case Into(l) => Calm(l, inner)
  }

  lemma {:induction false} CalmIsBoth(level: Level, f: Forest)
    ensures Calm(level, f) <==> OwnCalm(level, f) && PartsCalm(level, f)
    decreases f
  {
    match f {
      case Nil =>
      case Bit(_, after) => CalmIsBoth(level, after);
      case Elem(_, _, inner, after) =>
        CalmIsBoth(level, after);
        CalmIsBoth(level, inner);
    }
  }

  /** A level that looks past an element of its own name stops before the piece is over. */
  lemma {:induction false} StopsEarly(level: Level, f: Forest, t: seq<Event>)
    requires f.WellFormed() && PartsCalm(level, f) && !OwnCalm(level, f) && !level.Top?
    ensures Read(level, f.Events() + t).Some? && |Read(level, f.Events() + t).value.rest| >= |t|
    decreases f, 2
  {
    match f {
      case Nil =>
      case Bit(e, after) =>
        assert (f.Events() + t)[1..] == after.Events() + t;
        StopsEarly(level, after, t);
      case Elem(name, attrs, inner, after) =>
        Regroup(Start(name, attrs), inner.Events(), End(name), after.Events(), t);
        assert Read(level, f.Events() + t) == ReadElement(level, f.Events() + t);
        ElementStopsEarly(level, f, t);
    }
  }

  lemma {:induction false} ElementStopsEarly(level: Level, f: Forest, t: seq<Event>)
    requires f.Elem? && f.WellFormed() && PartsCalm(level, f) && !OwnCalm(level, f) && !level.Top?
    ensures ReadElement(level, f.Events() + t).Some? && |ReadElement(level, f.Events() + t).value.rest| >= |t|
    decreases f, 1
  {
    var rest := f.after.Events() + t;
    var s := f.Events() + t;
    var close := [End(f.name)] + rest;
    Regroup(Start(f.name, f.attrs), f.inner.Events(), End(f.name), f.after.Events(), t);
    assert s[0] == Start(f.name, f.attrs) && s[1..] == f.inner.Events() + close && close[1..] == rest;
    if UseOf(level, f.name.local).Ignore? {
      PastStopsEarly(level, f, t);
    } else {
      ElementPassed(level, f, s, rest);
      StopsEarly(level, f.after, t);
    }
  }

  lemma {:induction false} PastStopsEarly(level: Level, f: Forest, t: seq<Event>)
    requires f.Elem? && UseOf(level, f.name.local).Ignore?
    requires f.WellFormed() && PartsCalm(level, f) && !OwnCalm(level, f) && !level.Top?
    ensures var past := Read(level, f.inner.Events() + ([End(f.name)] + (f.after.Events() + t)));
      past.Some? && |past.value.rest| >= |t|
    decreases f, 0
  {
    var rest := f.after.Events() + t;
    var close := [End(f.name)] + rest;
    assert close[1..] == rest;
    if OwnCalm(level, f.inner) {
      CalmIsBoth(level, f.inner);
      ReadRunsOver(level, f.inner, close);
      if f.name.local != Tag(level) {
        StopsEarly(level, f.after, t);
      }
    } else {
      StopsEarly(level, f.inner, close);
    }
  }

  /** An element that is captured, skipped or descended into is passed whole. */
  lemma ElementPassed(level: Level, f: Forest, s: seq<Event>, rest: seq<Event>)
    requires f.Elem? && f.WellFormed() && !UseOf(level, f.name.local).Ignore? && PartsCalm(level, f)
    requires s != [] && s[0] == Start(f.name, f.attrs) && s[1..] == f.inner.Events() + ([End(f.name)] + rest)
    ensures Read(level, rest).Some? ==>
      ReadElement(level, s).Some? && ReadElement(level, s).value.rest == Read(level, rest).value.rest
  {
    if UseOf(level, f.name.local).Into? {
      var l := UseOf(level, f.name.local).level;
      TagOfUse(level, f.name.local);
      LevelStops(l, f.name, f.inner, rest);
      IntoElement(level, l, f, s, rest);
    } else {
      StopAtMatchingClose(f.inner, f.name, rest);
    }
  }

  /**
   * A level finds what its element holds and stops at the close tag exactly when
   * it looks past no element of its own name, its parts being read as they should.
   */
  lemma StopsExactlyWhenCalm(level: Level, name: QName, inner: Forest, rest: seq<Event>)
    requires inner.WellFormed() && PartsCalm(level, inner) && !level.Top? && name.local == Tag(level)
    ensures OwnCalm(level, inner) <==>
      Read(level, inner.Events() + ([End(name)] + rest)) == Some(Got(HitsOf(level, inner), rest))
  {
    CalmIsBoth(level, inner);
    if OwnCalm(level, inner) {
      LevelStops(level, name, inner, rest);
    } else {
      StopsEarly(level, inner, [End(name)] + rest);
    }
  }

  /** A document: the top level finds what the tree holds. */
  lemma DocumentReads(f: Forest)
    requires f.WellFormed() && Calm(Top, f)
    ensures Read(Top, f.Events()) == Some(Got(HitsOf(Top, f), []))
  {
    ReadRunsOver(Top, f, []);
    assert f.Events() + [] == f.Events();
    assert HitsOf(Top, f) + [] == HitsOf(Top, f);
  }

  /** A capture gives all events of a piece exactly when it has no declarations or instructions. */
  lemma {:induction false} KeptAll(events: seq<Event>)
    ensures |Kept(events)| <= |events|
    ensures Kept(events) == events <==> forall e :: e in events ==> !e.Other?
  {
    if events != [] {
      KeptAll(events[1..]);
      assert events == [events[0]] + events[1..];
      if events[0].Other? {
        assert |Kept(events)| < |events|;
      } else {
        assert Kept(events)[1..] == Kept(events[1..]);
      }
    }
  }

  /** A key list inside a key list, and a key after it. */
  function NestedList(): Forest {
    var list, key := QName("", "config-key-list"), QName("", "config-key");
    Elem(list, [], Nil, Elem(key, [], Nil, Nil))
  }

  /** A level that looks past an element of its own name stops there: the key after it is lost. */
  lemma NestedListStopsEarly()
    ensures NestedList().WellFormed() && !Calm(KeyList, NestedList())
    ensures |HitsOf(KeyList, NestedList())| == 1
    ensures Read(KeyList, NestedList().Events()).Some? && Read(KeyList, NestedList().Events()).value.hits == []
  {
    var list, key := QName("", "config-key-list"), QName("", "config-key");
    var after := Elem(key, [], Nil, Nil);
    var s := NestedList().Events();
    assert s == [Start(list, [])] + ([] + ([End(list)] + after.Events()));
    assert s[1..][0] == End(list);
    assert Read(KeyList, s[1..]).value.hits == [];
    assert HitsOf(KeyList, after) == [Part(Key, [], [])] + [];
    assert Read(KeyList, s) == Read(KeyList, s[1..]);
  }
}
