/**
 * The help tree, the loops that parse it from the event stream, and the round
 * trip: a help tree rendered as a document parses back to itself.
 */
module HelpParser {
  import opened Base
  import opened HelpXml

  // ----- The help tree; its texts are of a type `C`

  datatype ConfigKey<C> = ConfigKey(id: string, name: Option<string>, summary: C, text: Option<C>, example: Option<C>)

  datatype ConfigSection<C> = ConfigSection(id: string, name: string, text: Option<C>, keys: seq<ConfigKey<C>>)

  datatype HelpCommandOption<C> =
    HelpCommandOption(id: string, name: Option<string>, summary: Option<C>, text: Option<C>, example: Option<C>)

  datatype HelpCommand<C> =
    HelpCommand(id: string, name: string, summary: C, text: Option<C>, options: seq<HelpCommandOption<C>>)

  datatype Help<C> = Help(configSections: seq<ConfigSection<C>>, commands: seq<HelpCommand<C>>)

  // ----- Attributes

  /** The value of the first attribute of a name; `None` outside is an error. */
  function FindAttr(attrs: seq<Attr>, attr: string): Option<Option<string>> {
    if attrs == [] then Some(None)
    else if attrs[0].Broken? then None
    else if attrs[0].key.local == attr then (if attrs[0].value.None? then None else Some(attrs[0].value))
    else FindAttr(attrs[1..], attr)
  }

  function RequiredAttr(attrs: seq<Attr>, attr: string): Option<string> {
    var a := FindAttr(attrs, attr);
    if a.None? then None else a.value
  }

  // ----- The tree from what the levels found

  /** A key or command being read, and whether its summary has been seen. */
  /** Up to where an attribute is found, all attributes are well-formed and have other names. */
  predicate NotBefore(attrs: seq<Attr>, attr: string, n: nat)
    requires n <= |attrs|
  {
    forall i :: 0 <= i < n ==> !attrs[i].Broken? && attrs[i].key.local != attr
  }

  /** The first attribute of a name counts, whatever its prefix; broken before it or in its value is an error. */
  lemma {:induction false} FindAttrIs(attrs: seq<Attr>, attr: string, n: nat)
    requires n <= |attrs| && NotBefore(attrs, attr, n)
    ensures n == |attrs| ==> FindAttr(attrs, attr) == Some(None)
    ensures n < |attrs| && attrs[n].Broken? ==> FindAttr(attrs, attr) == None
    ensures n < |attrs| && !attrs[n].Broken? && attrs[n].key.local == attr ==>
      FindAttr(attrs, attr) == if attrs[n].value.None? then None else Some(attrs[n].value)
  {
    if n > 0 {
      assert !attrs[0].Broken? && attrs[0].key.local != attr;
      assert NotBefore(attrs[1..], attr, n - 1) by {
        forall i | 0 <= i < n - 1 ensures !attrs[1..][i].Broken? && attrs[1..][i].key.local != attr {
          assert attrs[1..][i] == attrs[i + 1];
        }
      }
      FindAttrIs(attrs[1..], attr, n - 1);
    }
  }

  datatype Partial<T> = Partial(item: T, haveSummary: bool)

  function KeyStep(p: Partial<ConfigKey<Content>>, hit: Hit): Partial<ConfigKey<Content>> {
    if !hit.Caught? then p
    else if hit.local == "summary" then Partial(p.item.(summary := hit.content), true)
    else if hit.local == "text" then p.(item := p.item.(text := Some(hit.content)))
    else p.(item := p.item.(example := Some(hit.content)))
  }

  function KeyWith(p: Partial<ConfigKey<Content>>, hits: seq<Hit>): Partial<ConfigKey<Content>>
    decreases |hits|
  {
    if hits == [] then p else KeyWith(KeyStep(p, hits[0]), hits[1..])
  }

  function NewKey(attrs: seq<Attr>): Option<ConfigKey<Content>> {
    var id, name := RequiredAttr(attrs, "id"), FindAttr(attrs, "name");
    if id.None? || name.None? then None else Some(ConfigKey(id.value, name.value, [], None, None))
  }

  function KeyFrom(attrs: seq<Attr>, hits: seq<Hit>): Option<ConfigKey<Content>> {
    var key := NewKey(attrs);
    if key.None? then None else
      var p := KeyWith(Partial(key.value, false), hits);
      if p.haveSummary then Some(p.item) else None
  }

  function KeysWith(keys: seq<ConfigKey<Content>>, hits: seq<Hit>): Option<seq<ConfigKey<Content>>>
    decreases |hits|
  {
    if hits == [] then Some(keys)
    else if !hits[0].Part? then KeysWith(keys, hits[1..])
    else
      var key := KeyFrom(hits[0].attrs, hits[0].hits);
      if key.None? then None else KeysWith(keys + [key.value], hits[1..])
  }

  function SectionWith(section: ConfigSection<Content>, hits: seq<Hit>): Option<ConfigSection<Content>>
    decreases |hits|
  {
    if hits == [] then Some(section)
    else if hits[0].Caught? then SectionWith(section.(text := Some(hits[0].content)), hits[1..])
    else
      var keys := KeysWith(section.keys, hits[0].hits);
      if keys.None? then None else SectionWith(section.(keys := keys.value), hits[1..])
  }

  function NewSection(attrs: seq<Attr>): Option<ConfigSection<Content>> {
    var id, name := RequiredAttr(attrs, "id"), RequiredAttr(attrs, "name");
    if id.None? || name.None? then None else Some(ConfigSection(id.value, name.value, None, []))
  }

  function SectionFrom(attrs: seq<Attr>, hits: seq<Hit>): Option<ConfigSection<Content>> {
    var section := NewSection(attrs);
    if section.None? then None else SectionWith(section.value, hits)
  }

  function SectionsWith(sections: seq<ConfigSection<Content>>, hits: seq<Hit>): Option<seq<ConfigSection<Content>>>
    decreases |hits|
  {
    if hits == [] then Some(sections)
    else if !hits[0].Part? then SectionsWith(sections, hits[1..])
    else
      var section := SectionFrom(hits[0].attrs, hits[0].hits);
      if section.None? then None else SectionsWith(sections + [section.value], hits[1..])
  }

  function ConfigWith(sections: seq<ConfigSection<Content>>, hits: seq<Hit>): Option<seq<ConfigSection<Content>>>
    decreases |hits|
  {
    if hits == [] then Some(sections)
    else if !hits[0].Part? then ConfigWith(sections, hits[1..])
    else
      var more := SectionsWith(sections, hits[0].hits);
      if more.None? then None else ConfigWith(more.value, hits[1..])
  }

  function OptionStep(option: HelpCommandOption<Content>, hit: Hit): HelpCommandOption<Content> {
    if !hit.Caught? then option
    else if hit.local == "summary" then option.(summary := Some(hit.content))
    else if hit.local == "text" then option.(text := Some(hit.content))
    else option.(example := Some(hit.content))
  }

  function OptionWith(option: HelpCommandOption<Content>, hits: seq<Hit>): HelpCommandOption<Content>
    decreases |hits|
  {
    if hits == [] then option else OptionWith(OptionStep(option, hits[0]), hits[1..])
  }

  function NewOption(attrs: seq<Attr>): Option<HelpCommandOption<Content>> {
    var id, name := RequiredAttr(attrs, "id"), FindAttr(attrs, "name");
    if id.None? || name.None? then None else Some(HelpCommandOption(id.value, name.value, None, None, None))
  }

  function OptionFrom(attrs: seq<Attr>, hits: seq<Hit>): Option<HelpCommandOption<Content>> {
    var option := NewOption(attrs);
    if option.None? then None else Some(OptionWith(option.value, hits))
  }

  function OptionsWith(options: seq<HelpCommandOption<Content>>,
      hits: seq<Hit>): Option<seq<HelpCommandOption<Content>>>
    decreases |hits|
  {
    if hits == [] then Some(options)
    else if !hits[0].Part? then OptionsWith(options, hits[1..])
    else
      var option := OptionFrom(hits[0].attrs, hits[0].hits);
      if option.None? then None else OptionsWith(options + [option.value], hits[1..])
  }

  function CommandWith(p: Partial<HelpCommand<Content>>, hits: seq<Hit>): Option<Partial<HelpCommand<Content>>>
    decreases |hits|
  {
    if hits == [] then Some(p)
    else if hits[0].Part? then
      var options := OptionsWith(p.item.options, hits[0].hits);
      if options.None? then None else CommandWith(p.(item := p.item.(options := options.value)), hits[1..])
    else if hits[0].local == "summary" then CommandWith(Partial(p.item.(summary := hits[0].content), true), hits[1..])
    else CommandWith(p.(item := p.item.(text := Some(hits[0].content))), hits[1..])
  }

  function NewCommand(attrs: seq<Attr>): Option<HelpCommand<Content>> {
    var id, name := RequiredAttr(attrs, "id"), RequiredAttr(attrs, "name");
    if id.None? || name.None? then None else Some(HelpCommand(id.value, name.value, [], None, []))
  }

  function CommandFrom(attrs: seq<Attr>, hits: seq<Hit>): Option<HelpCommand<Content>> {
    var command := NewCommand(attrs);
    if command.None? then None else
      var p := CommandWith(Partial(command.value, false), hits);
      if p.Some? && p.value.haveSummary then Some(p.value.item) else None
  }

  function CommandsWith(commands: seq<HelpCommand<Content>>, hits: seq<Hit>): Option<seq<HelpCommand<Content>>>
    decreases |hits|
  {
    if hits == [] then Some(commands)
    else if !hits[0].Part? then CommandsWith(commands, hits[1..])
    else
      var command := CommandFrom(hits[0].attrs, hits[0].hits);
      if command.None? then None else CommandsWith(commands + [command.value], hits[1..])
  }

  function OperationWith(commands: seq<HelpCommand<Content>>, hits: seq<Hit>): Option<seq<HelpCommand<Content>>>
    decreases |hits|
  {
    if hits == [] then Some(commands)
    else if !hits[0].Part? then OperationWith(commands, hits[1..])
    else
      var more := CommandsWith(commands, hits[0].hits);
      if more.None? then None else OperationWith(more.value, hits[1..])
  }

  function HelpWith(help: Help<Content>, hits: seq<Hit>): Option<Help<Content>>
    decreases |hits|
  {
    if hits == [] then Some(help)
    else if !hits[0].Part? then HelpWith(help, hits[1..])
    else if hits[0].level == Config then
      var sections := ConfigWith(help.configSections, hits[0].hits);
      if sections.None? then None else HelpWith(help.(configSections := sections.value), hits[1..])
    else
      var commands := OperationWith(help.commands, hits[0].hits);
      if commands.None? then None else HelpWith(help.(commands := commands.value), hits[1..])
  }

  /** The help tree of an event stream; `None` is an error. */
  /** Without an id nothing can be built, and without a name no section and no command. */
  lemma IdIsRequired(attrs: seq<Attr>, hits: seq<Hit>)
    ensures NotBefore(attrs, "id", |attrs|) ==>
      KeyFrom(attrs, hits) == None && OptionFrom(attrs, hits) == None
      && SectionFrom(attrs, hits) == None && CommandFrom(attrs, hits) == None
    ensures NotBefore(attrs, "name", |attrs|) ==> SectionFrom(attrs, hits) == None && CommandFrom(attrs, hits) == None
  {
    if NotBefore(attrs, "id", |attrs|) { FindAttrIs(attrs, "id", |attrs|); }
    if NotBefore(attrs, "name", |attrs|) { FindAttrIs(attrs, "name", |attrs|); }
  }

  /** And without a summary no key and no command. */
  lemma {:induction false} SummaryIsRequired(attrs: seq<Attr>, hits: seq<Hit>)
    requires forall hit :: hit in hits && hit.Caught? ==> hit.local != "summary"
    ensures KeyFrom(attrs, hits) == None && CommandFrom(attrs, hits) == None
  {
    if NewKey(attrs).Some? {
      NoSummaryKey(Partial(NewKey(attrs).value, false), hits);
    }
    if NewCommand(attrs).Some? {
      NoSummaryCommand(Partial(NewCommand(attrs).value, false), hits);
    }
  }

  lemma {:induction false} NoSummaryKey(p: Partial<ConfigKey<Content>>, hits: seq<Hit>)
    requires !p.haveSummary && forall hit :: hit in hits && hit.Caught? ==> hit.local != "summary"
    ensures !KeyWith(p, hits).haveSummary
    decreases |hits|
  {
    if hits != [] {
      assert hits[0] in hits;
      NoSummaryKey(KeyStep(p, hits[0]), hits[1..]);
    }
  }

  lemma {:induction false} NoSummaryCommand(p: Partial<HelpCommand<Content>>, hits: seq<Hit>)
    requires !p.haveSummary && forall hit :: hit in hits && hit.Caught? ==> hit.local != "summary"
    ensures CommandWith(p, hits).Some? ==> !CommandWith(p, hits).value.haveSummary
    decreases |hits|
  {
    if hits != [] {
      assert hits[0] in hits;
      if hits[0].Part? {
        var options := OptionsWith(p.item.options, hits[0].hits);
        if options.Some? {
          NoSummaryCommand(p.(item := p.item.(options := options.value)), hits[1..]);
        }
      } else {
        NoSummaryCommand(p.(item := p.item.(text := Some(hits[0].content))), hits[1..]);
      }
    }
  }

  function Parse(events: seq<Event>): Option<Help<Content>> {
    var got := Read(Top, events);
    if got.None? then None else HelpWith(Help([], []), got.value.hits)
  }

  /** The help tree of an element tree. */
  function HelpOf(document: Forest): Option<Help<Content>> {
    HelpWith(Help([], []), HitsOf(Top, document))
  }

  /**
   * Parsing the events of a document gives the help tree of its elements,
   * whatever else the document holds and however its tags nest inside texts
   * and unknown elements.
   */
  lemma ParseIsHelpOf(document: Forest)
    requires document.WellFormed() && Calm(Top, document)
    ensures Parse(document.Events()) == HelpOf(document)
  {
    DocumentReads(document);
  }

  // ----- Rendering a help tree

  const ID := QName("", "id")
  const NAME := QName("", "name")

  function Tagged(local: string, attrs: seq<Attr>, inner: Forest, after: Forest): Forest {
    Elem(QName("", local), attrs, inner, after)
  }

  function IdAttrs(id: string, name: Option<string>): seq<Attr> {
    [Attr(ID, Some(id))] + if name.Some? then [Attr(NAME, name)] else []
  }

  function RenderText(local: string, text: Option<Forest>, after: Forest): Forest {
    if text.None? then after else Tagged(local, [], text.value, after)
  }

  function KeyBody(k: ConfigKey<Forest>): Forest {
    Tagged("summary", [], k.summary, RenderText("text", k.text, RenderText("example", k.example, Nil)))
  }

  function RenderKeys(keys: seq<ConfigKey<Forest>>): Forest {
    if keys == [] then Nil else
      Tagged("config-key", IdAttrs(keys[0].id, keys[0].name), KeyBody(keys[0]), RenderKeys(keys[1..]))
  }

  function SectionBody(c: ConfigSection<Forest>): Forest {
    RenderText("text", c.text, Tagged("config-key-list", [], RenderKeys(c.keys), Nil))
  }

  function RenderSections(sections: seq<ConfigSection<Forest>>): Forest {
    if sections == [] then Nil else
      var c := sections[0];
      Tagged("config-section", IdAttrs(c.id, Some(c.name)), SectionBody(c), RenderSections(sections[1..]))
  }

  function OptionBody(o: HelpCommandOption<Forest>): Forest {
    RenderText("summary", o.summary, RenderText("text", o.text, RenderText("example", o.example, Nil)))
  }

  function RenderOptions(options: seq<HelpCommandOption<Forest>>): Forest {
    if options == [] then Nil else
      Tagged("option", IdAttrs(options[0].id, options[0].name), OptionBody(options[0]), RenderOptions(options[1..]))
  }

  function CommandBody(c: HelpCommand<Forest>): Forest {
    var list := Tagged("option-list", [], RenderOptions(c.options), Nil);
    Tagged("summary", [], c.summary, RenderText("text", c.text, list))
  }

  function RenderCommands(commands: seq<HelpCommand<Forest>>): Forest {
    if commands == [] then Nil else
      var c := commands[0];
      Tagged("command", IdAttrs(c.id, Some(c.name)), CommandBody(c), RenderCommands(commands[1..]))
  }

  /** The document of a help tree. */
  function Render(help: Help<Forest>): Forest {
    Tagged("doc", [],
      Tagged("config", [], SectionListElement(help.configSections),
        Tagged("operation", [], CommandListElement(help.commands), Nil)),
      Nil)
  }

  function SectionListElement(sections: seq<ConfigSection<Forest>>): Forest {
    Tagged("config-section-list", [], RenderSections(sections), Nil)
  }

  function CommandListElement(commands: seq<HelpCommand<Forest>>): Forest {
    Tagged("command-list", [], RenderCommands(commands), Nil)
  }

  // ----- The tree with its texts as the parser gives them

  function Payload(text: Forest): Content {
    Kept(text.Events())
  }

  function PayloadOf(text: Option<Forest>): Option<Content> {
    if text.None? then None else Some(Payload(text.value))
  }

  function KeyOf(k: ConfigKey<Forest>): ConfigKey<Content> {
    ConfigKey(k.id, k.name, Payload(k.summary), PayloadOf(k.text), PayloadOf(k.example))
  }

  function KeysOf(keys: seq<ConfigKey<Forest>>): seq<ConfigKey<Content>> {
    seq(|keys|, i requires 0 <= i < |keys| => KeyOf(keys[i]))
  }

  function SectionOf(c: ConfigSection<Forest>): ConfigSection<Content> {
    ConfigSection(c.id, c.name, PayloadOf(c.text), KeysOf(c.keys))
  }

  function SectionsOf(sections: seq<ConfigSection<Forest>>): seq<ConfigSection<Content>> {
    seq(|sections|, i requires 0 <= i < |sections| => SectionOf(sections[i]))
  }

  function OptionOf(o: HelpCommandOption<Forest>): HelpCommandOption<Content> {
    HelpCommandOption(o.id, o.name, PayloadOf(o.summary), PayloadOf(o.text), PayloadOf(o.example))
  }

  function OptionsOf(options: seq<HelpCommandOption<Forest>>): seq<HelpCommandOption<Content>> {
    seq(|options|, i requires 0 <= i < |options| => OptionOf(options[i]))
  }

  function CommandOf(c: HelpCommand<Forest>): HelpCommand<Content> {
    HelpCommand(c.id, c.name, Payload(c.summary), PayloadOf(c.text), OptionsOf(c.options))
  }

  function CommandsOf(commands: seq<HelpCommand<Forest>>): seq<HelpCommand<Content>> {
    seq(|commands|, i requires 0 <= i < |commands| => CommandOf(commands[i]))
  }

  function WithPayloads(help: Help<Forest>): Help<Content> {
    Help(SectionsOf(help.configSections), CommandsOf(help.commands))
  }

  // ----- Round trip

  lemma AttrsRead(id: string, name: Option<string>)
    ensures RequiredAttr(IdAttrs(id, name), "id") == Some(id)
    ensures FindAttr(IdAttrs(id, name), "name") == Some(name)
  {
    if name.Some? {
      assert IdAttrs(id, name)[1..] == [Attr(NAME, name)];
      assert [Attr(NAME, name)][1..] == [];
    } else {
      assert IdAttrs(id, name)[1..] == [];
    }
  }

  function TextHits(local: string, text: Option<Forest>): seq<Hit> {
    if text.None? then [] else [Caught(local, Payload(text.value))]
  }

  lemma TextRead(level: Level, local: string, text: Option<Forest>, after: Forest)
    requires UseOf(level, local) == Capture
    ensures HitsOf(level, RenderText(local, text, after)) == TextHits(local, text) + HitsOf(level, after)
    ensures Calm(level, RenderText(local, text, after)) <==> Calm(level, after)
  {
  }

  // Keys

  function KeyHits(k: ConfigKey<Forest>): seq<Hit> {
    [Caught("summary", Payload(k.summary))] + (TextHits("text", k.text) + (TextHits("example", k.example) + []))
  }

  lemma KeyBodyRead(k: ConfigKey<Forest>)
    ensures HitsOf(Key, KeyBody(k)) == KeyHits(k) && Calm(Key, KeyBody(k))
  {
    TextRead(Key, "text", k.text, RenderText("example", k.example, Nil));
    TextRead(Key, "example", k.example, Nil);
  }

  lemma KeyText(p: Partial<ConfigKey<Content>>, local: string, text: Option<Forest>, more: seq<Hit>)
    ensures KeyWith(p, TextHits(local, text) + more) ==
      KeyWith(if text.None? then p else KeyStep(p, Caught(local, Payload(text.value))), more)
  {
    if text.Some? {
      assert (TextHits(local, text) + more)[1..] == more;
    } else {
      assert TextHits(local, text) + more == more;
    }
  }

  lemma KeyReadsBack(k: ConfigKey<Forest>)
    ensures KeyFrom(IdAttrs(k.id, k.name), KeyHits(k)) == Some(KeyOf(k))
  {
    AttrsRead(k.id, k.name);
    var p := Partial(ConfigKey(k.id, k.name, [], None, None), false);
    var p1 := Partial(p.item.(summary := Payload(k.summary)), true);
    assert KeyHits(k) ==
      TextHits("summary", Some(k.summary)) + (TextHits("text", k.text) + (TextHits("example", k.example) + []));
    KeyText(p, "summary", Some(k.summary), TextHits("text", k.text) + (TextHits("example", k.example) + []));
    KeyText(p1, "text", k.text, TextHits("example", k.example) + []);
    KeyText(p1.(item := p1.item.(text := PayloadOf(k.text))), "example", k.example, []);
  }

  function KeyParts(keys: seq<ConfigKey<Forest>>): seq<Hit> {
    if keys == [] then [] else [Part(Key, IdAttrs(keys[0].id, keys[0].name), KeyHits(keys[0]))] + KeyParts(keys[1..])
  }

  lemma {:induction false} KeysRead(keys: seq<ConfigKey<Forest>>)
    ensures HitsOf(KeyList, RenderKeys(keys)) == KeyParts(keys) && Calm(KeyList, RenderKeys(keys))
  {
    if keys != [] {
      KeyBodyRead(keys[0]);
      KeysRead(keys[1..]);
    }
  }

  lemma KeysNext(before: seq<ConfigKey<Content>>, attrs: seq<Attr>, hits: seq<Hit>, more: seq<Hit>)
    requires KeyFrom(attrs, hits).Some?
    ensures KeysWith(before, [Part(Key, attrs, hits)] + more) ==
      KeysWith(before + [KeyFrom(attrs, hits).value], more)
  {
    assert ([Part(Key, attrs, hits)] + more)[1..] == more;
  }

  lemma KeysAppend(before: seq<ConfigKey<Content>>, keys: seq<ConfigKey<Forest>>)
    requires keys != []
    ensures before + [KeyOf(keys[0])] + KeysOf(keys[1..]) == before + KeysOf(keys)
  {
  }

  lemma {:induction false} KeysReadBack(before: seq<ConfigKey<Content>>, keys: seq<ConfigKey<Forest>>)
    ensures KeysWith(before, KeyParts(keys)) == Some(before + KeysOf(keys))
    decreases |keys|
  {
    if keys == [] {
      assert before + KeysOf(keys) == before;
    } else {
      KeyReadsBack(keys[0]);
      var more := before + [KeyOf(keys[0])];
      KeysNext(before, IdAttrs(keys[0].id, keys[0].name), KeyHits(keys[0]), KeyParts(keys[1..]));
      KeysReadBack(more, keys[1..]);
      KeysAppend(before, keys);
    }
  }

  // Sections

  function SectionHits(c: ConfigSection<Forest>): seq<Hit> {
    TextHits("text", c.text) + [Part(KeyList, [], KeyParts(c.keys))]
  }

  lemma SectionBodyRead(c: ConfigSection<Forest>)
    ensures HitsOf(Section, SectionBody(c)) == SectionHits(c) && Calm(Section, SectionBody(c))
  {
    KeysRead(c.keys);
    TextRead(Section, "text", c.text, Tagged("config-key-list", [], RenderKeys(c.keys), Nil));
  }

  lemma SectionReadsBack(c: ConfigSection<Forest>)
    ensures SectionFrom(IdAttrs(c.id, Some(c.name)), SectionHits(c)) == Some(SectionOf(c))
  {
    AttrsRead(c.id, Some(c.name));
    KeysReadBack([], c.keys);
    assert [] + KeysOf(c.keys) == KeysOf(c.keys);
    var list := [Part(KeyList, [], KeyParts(c.keys))];
    var section := ConfigSection(c.id, c.name, PayloadOf(c.text), []);
    assert SectionWith(section, list) == Some(section.(keys := KeysOf(c.keys))) by {
      assert list[1..] == [];
    }
    if c.text.Some? {
      assert SectionHits(c)[1..] == list;
    } else {
      assert SectionHits(c) == list;
    }
  }

  function SectionParts(sections: seq<ConfigSection<Forest>>): seq<Hit> {
    if sections == [] then [] else
      var c := sections[0];
      [Part(Section, IdAttrs(c.id, Some(c.name)), SectionHits(c))] + SectionParts(sections[1..])
  }

  lemma {:induction false} SectionsRead(sections: seq<ConfigSection<Forest>>)
    ensures HitsOf(SectionList, RenderSections(sections)) == SectionParts(sections)
    ensures Calm(SectionList, RenderSections(sections))
  {
    if sections != [] {
      SectionBodyRead(sections[0]);
      SectionsRead(sections[1..]);
    }
  }

  lemma SectionsNext(before: seq<ConfigSection<Content>>, attrs: seq<Attr>, hits: seq<Hit>, more: seq<Hit>)
    requires SectionFrom(attrs, hits).Some?
    ensures SectionsWith(before, [Part(Section, attrs, hits)] + more) ==
      SectionsWith(before + [SectionFrom(attrs, hits).value], more)
  {
    assert ([Part(Section, attrs, hits)] + more)[1..] == more;
  }

  lemma SectionsAppend(before: seq<ConfigSection<Content>>, sections: seq<ConfigSection<Forest>>)
    requires sections != []
    ensures before + [SectionOf(sections[0])] + SectionsOf(sections[1..]) == before + SectionsOf(sections)
  {
  }

  lemma {:induction false} SectionsReadBack(before: seq<ConfigSection<Content>>, sections: seq<ConfigSection<Forest>>)
    ensures SectionsWith(before, SectionParts(sections)) == Some(before + SectionsOf(sections))
    decreases |sections|
  {
    if sections == [] {
      assert before + SectionsOf(sections) == before;
    } else {
      SectionReadsBack(sections[0]);
      var more := before + [SectionOf(sections[0])];
      SectionsNext(
        before, IdAttrs(sections[0].id, Some(sections[0].name)), SectionHits(sections[0]), SectionParts(sections[1..]));
      SectionsReadBack(more, sections[1..]);
      SectionsAppend(before, sections);
    }
  }

  // Options

  function OptionHits(o: HelpCommandOption<Forest>): seq<Hit> {
    TextHits("summary", o.summary) + (TextHits("text", o.text) + (TextHits("example", o.example) + []))
  }

  lemma OptionBodyRead(o: HelpCommandOption<Forest>)
    ensures HitsOf(Opt, OptionBody(o)) == OptionHits(o) && Calm(Opt, OptionBody(o))
  {
    TextRead(Opt, "summary", o.summary, RenderText("text", o.text, RenderText("example", o.example, Nil)));
    TextRead(Opt, "text", o.text, RenderText("example", o.example, Nil));
    TextRead(Opt, "example", o.example, Nil);
  }

  lemma OptionText(option: HelpCommandOption<Content>, local: string, text: Option<Forest>, more: seq<Hit>)
    ensures OptionWith(option, TextHits(local, text) + more) ==
      OptionWith(if text.None? then option else OptionStep(option, Caught(local, Payload(text.value))), more)
  {
    if text.Some? {
      assert (TextHits(local, text) + more)[1..] == more;
    } else {
      assert TextHits(local, text) + more == more;
    }
  }

  lemma OptionReadsBack(o: HelpCommandOption<Forest>)
    ensures OptionFrom(IdAttrs(o.id, o.name), OptionHits(o)) == Some(OptionOf(o))
  {
    AttrsRead(o.id, o.name);
    var start := HelpCommandOption(o.id, o.name, None, None, None);
    OptionText(start, "summary", o.summary, TextHits("text", o.text) + (TextHits("example", o.example) + []));
    var summed := start.(summary := PayloadOf(o.summary));
    OptionText(summed, "text", o.text, TextHits("example", o.example) + []);
    OptionText(summed.(text := PayloadOf(o.text)), "example", o.example, []);
  }

  function OptionParts(options: seq<HelpCommandOption<Forest>>): seq<Hit> {
    if options == [] then [] else
      [Part(Opt, IdAttrs(options[0].id, options[0].name), OptionHits(options[0]))] + OptionParts(options[1..])
  }

  lemma {:induction false} OptionsRead(options: seq<HelpCommandOption<Forest>>)
    ensures HitsOf(OptionList, RenderOptions(options)) == OptionParts(options)
    ensures Calm(OptionList, RenderOptions(options))
  {
    if options != [] {
      OptionBodyRead(options[0]);
      OptionsRead(options[1..]);
    }
  }

  lemma OptionsNext(before: seq<HelpCommandOption<Content>>, attrs: seq<Attr>, hits: seq<Hit>, more: seq<Hit>)
    requires OptionFrom(attrs, hits).Some?
    ensures OptionsWith(before, [Part(Opt, attrs, hits)] + more) ==
      OptionsWith(before + [OptionFrom(attrs, hits).value], more)
  {
    assert ([Part(Opt, attrs, hits)] + more)[1..] == more;
  }

  lemma OptionsAppend(before: seq<HelpCommandOption<Content>>, options: seq<HelpCommandOption<Forest>>)
    requires options != []
    ensures before + [OptionOf(options[0])] + OptionsOf(options[1..]) == before + OptionsOf(options)
  {
  }

  lemma {:induction false} OptionsReadBack(before: seq<HelpCommandOption<Content>>,
      options: seq<HelpCommandOption<Forest>>)
    ensures OptionsWith(before, OptionParts(options)) == Some(before + OptionsOf(options))
    decreases |options|
  {
    if options == [] {
      assert before + OptionsOf(options) == before;
    } else {
      OptionReadsBack(options[0]);
      var more := before + [OptionOf(options[0])];
      OptionsNext(before, IdAttrs(options[0].id, options[0].name), OptionHits(options[0]), OptionParts(options[1..]));
      OptionsReadBack(more, options[1..]);
      OptionsAppend(before, options);
    }
  }

  // Commands

  function CommandHits(c: HelpCommand<Forest>): seq<Hit> {
    [Caught("summary", Payload(c.summary))]
    + (TextHits("text", c.text) + [Part(OptionList, [], OptionParts(c.options))])
  }

  lemma CommandBodyRead(c: HelpCommand<Forest>)
    ensures HitsOf(Command, CommandBody(c)) == CommandHits(c) && Calm(Command, CommandBody(c))
  {
    OptionsRead(c.options);
    TextRead(Command, "text", c.text, Tagged("option-list", [], RenderOptions(c.options), Nil));
  }

  lemma CommandReadsBack(c: HelpCommand<Forest>)
    ensures CommandFrom(IdAttrs(c.id, Some(c.name)), CommandHits(c)) == Some(CommandOf(c))
  {
    AttrsRead(c.id, Some(c.name));
    OptionsReadBack([], c.options);
    assert [] + OptionsOf(c.options) == OptionsOf(c.options);
    var list := [Part(OptionList, [], OptionParts(c.options))];
    var command := HelpCommand(c.id, c.name, Payload(c.summary), PayloadOf(c.text), []);
    var done := Partial(command.(options := OptionsOf(c.options)), true);
    assert CommandWith(Partial(command, true), list) == Some(done) by {
      assert list[1..] == [];
    }
    var hits := TextHits("text", c.text) + list;
    assert CommandHits(c)[1..] == hits;
    var start := Partial(HelpCommand(c.id, c.name, Payload(c.summary), None, []), true);
    if c.text.Some? {
      assert hits[1..] == list;
    } else {
      assert hits == list;
    }
    assert CommandWith(start, hits) == CommandWith(Partial(command, true), list);
    var empty := Partial(HelpCommand(c.id, c.name, [], None, []), false);
    assert CommandWith(empty, CommandHits(c)) == CommandWith(start, hits);
  }

  function CommandParts(commands: seq<HelpCommand<Forest>>): seq<Hit> {
    if commands == [] then [] else
      var c := commands[0];
      [Part(Command, IdAttrs(c.id, Some(c.name)), CommandHits(c))] + CommandParts(commands[1..])
  }

  lemma {:induction false} CommandsRead(commands: seq<HelpCommand<Forest>>)
    ensures HitsOf(CommandList, RenderCommands(commands)) == CommandParts(commands)
    ensures Calm(CommandList, RenderCommands(commands))
  {
    if commands != [] {
      CommandBodyRead(commands[0]);
      CommandsRead(commands[1..]);
    }
  }

  lemma CommandsNext(before: seq<HelpCommand<Content>>, attrs: seq<Attr>, hits: seq<Hit>, more: seq<Hit>)
    requires CommandFrom(attrs, hits).Some?
    ensures CommandsWith(before, [Part(Command, attrs, hits)] + more) ==
      CommandsWith(before + [CommandFrom(attrs, hits).value], more)
  {
    assert ([Part(Command, attrs, hits)] + more)[1..] == more;
  }

  lemma CommandsAppend(before: seq<HelpCommand<Content>>, commands: seq<HelpCommand<Forest>>)
    requires commands != []
    ensures before + [CommandOf(commands[0])] + CommandsOf(commands[1..]) == before + CommandsOf(commands)
  {
  }

  lemma {:induction false} CommandsReadBack(before: seq<HelpCommand<Content>>, commands: seq<HelpCommand<Forest>>)
    ensures CommandsWith(before, CommandParts(commands)) == Some(before + CommandsOf(commands))
    decreases |commands|
  {
    if commands == [] {
      assert before + CommandsOf(commands) == before;
    } else {
      CommandReadsBack(commands[0]);
      var more := before + [CommandOf(commands[0])];
      CommandsNext(
        before, IdAttrs(commands[0].id, Some(commands[0].name)), CommandHits(commands[0]), CommandParts(commands[1..]));
      CommandsReadBack(more, commands[1..]);
      CommandsAppend(before, commands);
    }
  }

  // The whole document

  predicate TextWellFormed(text: Option<Forest>) {
    text.Some? ==> text.value.WellFormed()
  }

  predicate KeyWellFormed(k: ConfigKey<Forest>) {
    k.summary.WellFormed() && TextWellFormed(k.text) && TextWellFormed(k.example)
  }

  predicate OptionWellFormed(o: HelpCommandOption<Forest>) {
    TextWellFormed(o.summary) && TextWellFormed(o.text) && TextWellFormed(o.example)
  }

  predicate SectionWellFormed(c: ConfigSection<Forest>) {
    TextWellFormed(c.text) && forall k :: k in c.keys ==> KeyWellFormed(k)
  }

  predicate CommandWellFormed(c: HelpCommand<Forest>) {
    c.summary.WellFormed() && TextWellFormed(c.text) && forall o :: o in c.options ==> OptionWellFormed(o)
  }

  /** Every text of the help tree is a well-formed piece of XML. */
  predicate TextsWellFormed(help: Help<Forest>) {
    && (forall c :: c in help.configSections ==> SectionWellFormed(c))
    && forall c :: c in help.commands ==> CommandWellFormed(c)
  }

  lemma {:induction false} KeysWellFormed(keys: seq<ConfigKey<Forest>>)
    requires forall k :: k in keys ==> KeyWellFormed(k)
    ensures RenderKeys(keys).WellFormed()
  {
    if keys != [] {
      assert KeyWellFormed(keys[0]);
      assert RenderText("text", keys[0].text, RenderText("example", keys[0].example, Nil)).WellFormed();
      KeysWellFormed(keys[1..]);
    }
  }

  lemma {:induction false} OptionsWellFormed(options: seq<HelpCommandOption<Forest>>)
    requires forall o :: o in options ==> OptionWellFormed(o)
    ensures RenderOptions(options).WellFormed()
  {
    if options != [] {
      var o := options[0];
      assert OptionWellFormed(o);
      assert RenderText("text", o.text, RenderText("example", o.example, Nil)).WellFormed();
      OptionsWellFormed(options[1..]);
    }
  }

  lemma {:induction false} SectionsWellFormed(sections: seq<ConfigSection<Forest>>)
    requires forall c :: c in sections ==> SectionWellFormed(c)
    ensures RenderSections(sections).WellFormed()
  {
    if sections != [] {
      assert SectionWellFormed(sections[0]);
      KeysWellFormed(sections[0].keys);
      assert Tagged("config-key-list", [], RenderKeys(sections[0].keys), Nil).WellFormed();
      SectionsWellFormed(sections[1..]);
    }
  }

  lemma {:induction false} CommandsWellFormed(commands: seq<HelpCommand<Forest>>)
    requires forall c :: c in commands ==> CommandWellFormed(c)
    ensures RenderCommands(commands).WellFormed()
  {
    if commands != [] {
      assert CommandWellFormed(commands[0]);
      var c := commands[0];
      OptionsWellFormed(c.options);
      assert Tagged("option-list", [], RenderOptions(c.options), Nil).WellFormed();
      assert RenderText("text", c.text, Tagged("option-list", [], RenderOptions(c.options), Nil)).WellFormed();
      CommandsWellFormed(commands[1..]);
    }
  }

  function ConfigHits(help: Help<Forest>): seq<Hit> {
    [Part(SectionList, [], SectionParts(help.configSections))]
  }

  function OperationHits(help: Help<Forest>): seq<Hit> {
    [Part(CommandList, [], CommandParts(help.commands))]
  }

  function HelpHits(help: Help<Forest>): seq<Hit> {
    [Part(Config, [], ConfigHits(help))] + ([Part(Operation, [], OperationHits(help))] + [])
  }

  lemma ListsRead(help: Help<Forest>)
    ensures HitsOf(Config, SectionListElement(help.configSections)) == ConfigHits(help)
    ensures Calm(Config, SectionListElement(help.configSections))
    ensures HitsOf(Operation, CommandListElement(help.commands)) == OperationHits(help)
    ensures Calm(Operation, CommandListElement(help.commands))
  {
    SectionsRead(help.configSections);
    CommandsRead(help.commands);
  }

  lemma RenderRead(help: Help<Forest>)
    ensures Calm(Top, Render(help)) && HitsOf(Top, Render(help)) == HelpHits(help)
  {
    ListsRead(help);
    var operation := Tagged("operation", [], CommandListElement(help.commands), Nil);
    assert HitsOf(Top, operation) == [Part(Operation, [], OperationHits(help))] + [] && Calm(Top, operation);
    var config := Tagged("config", [], SectionListElement(help.configSections), operation);
    assert HitsOf(Top, config) == HelpHits(help) && Calm(Top, config);
    assert HelpHits(help) + [] == HelpHits(help);
  }

  lemma RenderWellFormed(help: Help<Forest>)
    requires TextsWellFormed(help)
    ensures Render(help).WellFormed()
  {
    SectionsWellFormed(help.configSections);
    CommandsWellFormed(help.commands);
    var sections, commands := SectionListElement(help.configSections), CommandListElement(help.commands);
    TaggedWellFormed("config-section-list", RenderSections(help.configSections), Nil);
    TaggedWellFormed("command-list", RenderCommands(help.commands), Nil);
    TaggedWellFormed("operation", commands, Nil);
    TaggedWellFormed("config", sections, Tagged("operation", [], commands, Nil));
  }

  lemma TaggedWellFormed(local: string, inner: Forest, after: Forest)
    requires inner.WellFormed() && after.WellFormed()
    ensures Tagged(local, [], inner, after).WellFormed()
  {
  }

  /** A text comes back whole exactly when there are no declarations or instructions in it. */
  lemma TextComesBackWhole(text: Forest)
    ensures Payload(text) == text.Events() <==> forall e :: e in text.Events() ==> !e.Other?
  {
    KeptAll(text.Events());
  }

  /**
   * Every help tree, rendered and parsed, comes back with its keys, options,
   * sections and commands in order and each text as the events inside it.
   */
  lemma RenderThenParse(help: Help<Forest>)
    requires TextsWellFormed(help)
    ensures Parse(Render(help).Events()) == Some(WithPayloads(help))
    // whole, but for declarations and instructions
    ensures forall text: Forest :: (forall e :: e in text.Events() ==> !e.Other?) ==> Payload(text) == text.Events()
  {
    forall text: Forest | forall e :: e in text.Events() ==> !e.Other? ensures Payload(text) == text.Events() {
      TextComesBackWhole(text);
    }
    RenderWellFormed(help);
    RenderRead(help);
    ParseIsHelpOf(Render(help));
    PartsReadBack(help);
  }

  lemma ListsReadBack(help: Help<Forest>)
    ensures ConfigWith([], ConfigHits(help)) == Some(SectionsOf(help.configSections))
    ensures OperationWith([], OperationHits(help)) == Some(CommandsOf(help.commands))
  {
    SectionsReadBack([], help.configSections);
    CommandsReadBack([], help.commands);
    assert [] + SectionsOf(help.configSections) == SectionsOf(help.configSections);
    assert [] + CommandsOf(help.commands) == CommandsOf(help.commands);
    assert ConfigHits(help)[1..] == [] && OperationHits(help)[1..] == [];
  }

  lemma PartsReadBack(help: Help<Forest>)
    ensures HelpWith(Help([], []), HelpHits(help)) == Some(WithPayloads(help))
  {
    ListsReadBack(help);
    var hits := HelpHits(help);
    var sections := Help(SectionsOf(help.configSections), []);
    assert hits[1..] == [Part(Operation, [], OperationHits(help))] && hits[1..][1..] == [];
    assert HelpWith(Help([], []), hits) == HelpWith(sections, hits[1..]);
    assert HelpWith(sections, hits[1..]) == HelpWith(WithPayloads(help), []);
  }
}
