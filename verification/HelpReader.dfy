/** The parser's loops on a mutable reader, each against what its level finds. */
module HelpReader {
  import opened Base
  import opened HelpXml
  import opened HelpParser

  class Reader {
    var rest: seq<Event>

    constructor (events: seq<Event>)
      ensures rest == events
    {
      rest := events;
    }

    /** The next event; `None` at the end of the document. */
    method ReadEvent() returns (e: Option<Event>)
      modifies this
      ensures old(rest) == [] ==> e == None && rest == []
      ensures old(rest) != [] ==> e == Some(old(rest)[0]) && rest == old(rest)[1..]
    {
      if rest == [] {
        e := None;
      } else {
        e, rest := Some(rest[0]), rest[1..];
      }
    }
  }

  // ----- Capture and skip

  method CaptureInnerXml(reader: Reader, closing: string) returns (content: Option<Content>)
    modifies reader
    ensures content.Some? <==> CaptureTo(old(reader.rest), closing, 0).Some?
    ensures content.Some? ==> CaptureTo(old(reader.rest), closing, 0) == Some(Captured(content.value, reader.rest))
  {
    var depth: nat := 0;
    var written: Content := [];
    ghost var whole := CaptureTo(reader.rest, closing, 0);
    PutNothing(whole);
    while true
      invariant Put(written, CaptureTo(reader.rest, closing, depth)) == whole
      decreases |reader.rest|
    {
      ghost var before := written;
      var e := reader.ReadEvent();
      if e == None {
        return None;
      }
      match e.value {
        case Malformed =>
          return None;
        case Start(_, _) =>
          depth := depth + 1;
          written := written + [e.value];
        case End(name) =>
          if depth == 0 && name.local == closing {
            return Some(written);
          }
          depth := if depth == 0 then 0 else depth - 1;
          written := written + [e.value];
        case Other(_) =>
          assert written + [] == written;
        case Empty(_, _) =>
          written := written + [e.value];
        case Text(_) =>
          written := written + [e.value];
        case CData(_) =>
          written := written + [e.value];
        case Comment(_) =>
          written := written + [e.value];
      }
      PutPut(before, Written(e.value), CaptureTo(reader.rest, closing, depth));
    }
  }

  method SkipElement(reader: Reader, openName: QName) returns (ok: bool)
    modifies reader
    ensures ok <==> SkipTo(old(reader.rest), openName, 0).Some?
    ensures ok ==> SkipTo(old(reader.rest), openName, 0) == Some(reader.rest)
  {
    var depth: nat := 0;
    while true
      invariant SkipTo(reader.rest, openName, depth) == SkipTo(old(reader.rest), openName, 0)
      decreases |reader.rest|
    {
      var e := reader.ReadEvent();
      if e == None || e.value.Malformed? {
        return false;
      }
      if e.value.Start? && e.value.name == openName {
        depth := depth + 1;
      } else if e.value.End? && e.value.name == openName {
        if depth == 0 {
          return true;
        }
        depth := depth - 1;
      }
    }
  }

  // ----- A level's result

  /** A value built from what a level found, and the events after the level. */
  datatype Done<T> = Done(value: T, rest: seq<Event>)

  function After<T>(value: Option<T>, g: Option<Got>): Option<Done<T>> {
    if g.None? || value.None? then None else Some(Done(value.value, g.value.rest))
  }

  function HitsIn(g: Option<Got>): seq<Hit> {
    if g.None? then [] else g.value.hits
  }

  // ----- Keys

  function KeyDone(p: Partial<ConfigKey<Content>>, g: Option<Got>): Option<Done<Partial<ConfigKey<Content>>>> {
    After(Some(KeyWith(p, HitsIn(g))), g)
  }

  lemma KeyCatches(p: Partial<ConfigKey<Content>>, hit: Hit, g: Option<Got>)
    ensures KeyDone(p, Prepend([hit], g)) == KeyDone(KeyStep(p, hit), g)
  {
    if g.Some? {
      assert ([hit] + g.value.hits)[1..] == g.value.hits;
    }
  }

  method ParseConfigKeyBody(reader: Reader, before: ConfigKey<Content>)
    returns (ok: bool, key: ConfigKey<Content>, haveSummary: bool)
    modifies reader
    ensures ok <==> Read(Key, old(reader.rest)).Some?
    ensures ok ==>
      KeyDone(Partial(before, false), Read(Key, old(reader.rest))) == Some(Done(Partial(key, haveSummary), reader.rest))
  {
    ok, key, haveSummary := true, before, false;
    ghost var whole := KeyDone(Partial(before, false), Read(Key, reader.rest));
    while true
      invariant KeyDone(Partial(key, haveSummary), Read(Key, reader.rest)) == whole
      decreases |reader.rest|
    {
      ghost var p := Partial(key, haveSummary);
      var e := reader.ReadEvent();
      if e == None || e.value.Malformed? {
        ok := false;
        return;
      }
      if e.value.Start? {
        var name := e.value.name;
        if name.local == "summary" || name.local == "text" || name.local == "example" {
          var content := CaptureInnerXml(reader, name.local);
          if content == None {
            ok := false;
            return;
          }
          KeyCatches(p, Caught(name.local, content.value), Read(Key, reader.rest));
          if name.local == "summary" {
            key := key.(summary := content.value);
            haveSummary := true;
          } else if name.local == "text" {
            key := key.(text := content);
          } else {
            key := key.(example := content);
          }
        } else {
          ok := SkipElement(reader, name);
          if !ok {
            return;
          }
        }
      } else if e.value.End? && e.value.name.local == "config-key" {
        return;
      }
    }
  }

  function KeysDone(keys: seq<ConfigKey<Content>>, g: Option<Got>): Option<Done<seq<ConfigKey<Content>>>> {
    After(KeysWith(keys, HitsIn(g)), g)
  }

  lemma KeysTake(keys: seq<ConfigKey<Content>>, attrs: seq<Attr>, hits: seq<Hit>, g: Option<Got>)
    ensures KeysDone(keys, Prepend([Part(Key, attrs, hits)], g)) ==
      if KeyFrom(attrs, hits).None? then None else KeysDone(keys + [KeyFrom(attrs, hits).value], g)
  {
    if g.Some? {
      assert ([Part(Key, attrs, hits)] + g.value.hits)[1..] == g.value.hits;
    }
  }

  method ParseConfigKeyList(reader: Reader, before: seq<ConfigKey<Content>>)
    returns (keys: Option<seq<ConfigKey<Content>>>)
    modifies reader
    ensures keys.Some? <==> KeysDone(before, Read(KeyList, old(reader.rest))).Some?
    ensures keys.Some? ==> KeysDone(before, Read(KeyList, old(reader.rest))) == Some(Done(keys.value, reader.rest))
  {
    var now := before;
    ghost var whole := KeysDone(before, Read(KeyList, reader.rest));
    while true
      invariant KeysDone(now, Read(KeyList, reader.rest)) == whole
      decreases |reader.rest|
    {
      var e := reader.ReadEvent();
      if e == None || e.value.Malformed? {
        return None;
      }
      if e.value.Start? && e.value.name.local == "config-key" {
        var attrs := e.value.attrs;
        var key := NewKey(attrs);
        ghost var inner := Read(Key, reader.rest);
        if inner.Some? {
          KeysTake(now, attrs, inner.value.hits, Read(KeyList, inner.value.rest));
        }
        if key == None {
          return None;
        }
        var ok, item, haveSummary := ParseConfigKeyBody(reader, key.value);
        if !ok || !haveSummary {
          return None;
        }
        now := now + [item];
      } else if e.value.End? && e.value.name.local == "config-key-list" {
        return Some(now);
      }
    }
  }

  // ----- Sections

  function SectionDone(section: ConfigSection<Content>, g: Option<Got>): Option<Done<ConfigSection<Content>>> {
    After(SectionWith(section, HitsIn(g)), g)
  }

  lemma SectionCatches(section: ConfigSection<Content>, hit: Hit, g: Option<Got>)
    ensures SectionDone(section, Prepend([hit], g)) ==
      if hit.Caught? then SectionDone(section.(text := Some(hit.content)), g)
      else if KeysWith(section.keys, hit.hits).None? then None
      else SectionDone(section.(keys := KeysWith(section.keys, hit.hits).value), g)
  {
    if g.Some? {
      assert ([hit] + g.value.hits)[1..] == g.value.hits;
    }
  }

  method ParseConfigSectionBody(reader: Reader, before: ConfigSection<Content>)
    returns (section: Option<ConfigSection<Content>>)
    modifies reader
    ensures section.Some? <==> SectionDone(before, Read(Section, old(reader.rest))).Some?
    ensures section.Some? ==>
      SectionDone(before, Read(Section, old(reader.rest))) == Some(Done(section.value, reader.rest))
  {
    var now := before;
    ghost var whole := SectionDone(before, Read(Section, reader.rest));
    while true
      invariant SectionDone(now, Read(Section, reader.rest)) == whole
      decreases |reader.rest|
    {
      var e := reader.ReadEvent();
      if e == None || e.value.Malformed? {
        return None;
      }
      if e.value.Start? {
        var name := e.value.name;
        if name.local == "text" {
          var content := CaptureInnerXml(reader, "text");
          if content == None {
            return None;
          }
          SectionCatches(now, Caught("text", content.value), Read(Section, reader.rest));
          now := now.(text := content);
        } else if name.local == "config-key-list" {
          ghost var inner := Read(KeyList, reader.rest);
          if inner.Some? {
            SectionCatches(now, Part(KeyList, e.value.attrs, inner.value.hits), Read(Section, inner.value.rest));
          }
          var keys := ParseConfigKeyList(reader, now.keys);
          if keys == None {
            return None;
          }
          now := now.(keys := keys.value);
        } else {
          var ok := SkipElement(reader, name);
          if !ok {
            return None;
          }
        }
      } else if e.value.End? && e.value.name.local == "config-section" {
        return Some(now);
      }
    }
  }

  function SectionsDone(sections: seq<ConfigSection<Content>>,
      g: Option<Got>): Option<Done<seq<ConfigSection<Content>>>> {
    After(SectionsWith(sections, HitsIn(g)), g)
  }

  lemma SectionsTake(sections: seq<ConfigSection<Content>>, attrs: seq<Attr>, hits: seq<Hit>, g: Option<Got>)
    ensures SectionsDone(sections, Prepend([Part(Section, attrs, hits)], g)) ==
      if SectionFrom(attrs, hits).None? then None else SectionsDone(sections + [SectionFrom(attrs, hits).value], g)
  {
    if g.Some? {
      assert ([Part(Section, attrs, hits)] + g.value.hits)[1..] == g.value.hits;
    }
  }

  method ParseConfigSectionList(reader: Reader, before: seq<ConfigSection<Content>>)
    returns (sections: Option<seq<ConfigSection<Content>>>)
    modifies reader
    ensures sections.Some? <==> SectionsDone(before, Read(SectionList, old(reader.rest))).Some?
    ensures sections.Some? ==>
      SectionsDone(before, Read(SectionList, old(reader.rest))) == Some(Done(sections.value, reader.rest))
  {
    var now := before;
    ghost var whole := SectionsDone(before, Read(SectionList, reader.rest));
    while true
      invariant SectionsDone(now, Read(SectionList, reader.rest)) == whole
      decreases |reader.rest|
    {
      var e := reader.ReadEvent();
      if e == None || e.value.Malformed? {
        return None;
      }
      if e.value.Start? && e.value.name.local == "config-section" {
        var attrs := e.value.attrs;
        var section := NewSection(attrs);
        ghost var inner := Read(Section, reader.rest);
        if inner.Some? {
          SectionsTake(now, attrs, inner.value.hits, Read(SectionList, inner.value.rest));
        }
        if section == None {
          return None;
        }
        section := ParseConfigSectionBody(reader, section.value);
        if section == None {
          return None;
        }
        now := now + [section.value];
      } else if e.value.End? && e.value.name.local == "config-section-list" {
        return Some(now);
      }
    }
  }

  function ConfigDone(sections: seq<ConfigSection<Content>>,
      g: Option<Got>): Option<Done<seq<ConfigSection<Content>>>> {
    After(ConfigWith(sections, HitsIn(g)), g)
  }

  lemma ConfigTake(sections: seq<ConfigSection<Content>>, attrs: seq<Attr>, hits: seq<Hit>, g: Option<Got>)
    ensures ConfigDone(sections, Prepend([Part(SectionList, attrs, hits)], g)) ==
      if SectionsWith(sections, hits).None? then None else ConfigDone(SectionsWith(sections, hits).value, g)
  {
    if g.Some? {
      assert ([Part(SectionList, attrs, hits)] + g.value.hits)[1..] == g.value.hits;
    }
  }

  method ParseConfig(reader: Reader, before: seq<ConfigSection<Content>>)
    returns (sections: Option<seq<ConfigSection<Content>>>)
    modifies reader
    ensures sections.Some? <==> ConfigDone(before, Read(Config, old(reader.rest))).Some?
    ensures sections.Some? ==>
      ConfigDone(before, Read(Config, old(reader.rest))) == Some(Done(sections.value, reader.rest))
  {
    var now := before;
    ghost var whole := ConfigDone(before, Read(Config, reader.rest));
    while true
      invariant ConfigDone(now, Read(Config, reader.rest)) == whole
      decreases |reader.rest|
    {
      var e := reader.ReadEvent();
      if e == None || e.value.Malformed? {
        return None;
      }
      if e.value.Start? && e.value.name.local == "config-section-list" {
        ghost var inner := Read(SectionList, reader.rest);
        if inner.Some? {
          ConfigTake(now, e.value.attrs, inner.value.hits, Read(Config, inner.value.rest));
        }
        var more := ParseConfigSectionList(reader, now);
        if more == None {
          return None;
        }
        now := more.value;
      } else if e.value.End? && e.value.name.local == "config" {
        return Some(now);
      }
    }
  }

  // ----- Options

  function OptionDone(option: HelpCommandOption<Content>, g: Option<Got>): Option<Done<HelpCommandOption<Content>>> {
    After(Some(OptionWith(option, HitsIn(g))), g)
  }

  lemma OptionCatches(option: HelpCommandOption<Content>, hit: Hit, g: Option<Got>)
    ensures OptionDone(option, Prepend([hit], g)) == OptionDone(OptionStep(option, hit), g)
  {
    if g.Some? {
      assert ([hit] + g.value.hits)[1..] == g.value.hits;
    }
  }

  method ParseOptionBody(reader: Reader, before: HelpCommandOption<Content>)
    returns (option: Option<HelpCommandOption<Content>>)
    modifies reader
    ensures option.Some? <==> Read(Opt, old(reader.rest)).Some?
    ensures option.Some? ==> OptionDone(before, Read(Opt, old(reader.rest))) == Some(Done(option.value, reader.rest))
  {
    var now := before;
    ghost var whole := OptionDone(before, Read(Opt, reader.rest));
    while true
      invariant OptionDone(now, Read(Opt, reader.rest)) == whole
      decreases |reader.rest|
    {
      var e := reader.ReadEvent();
      if e == None || e.value.Malformed? {
        return None;
      }
      if e.value.Start? {
        var name := e.value.name;
        if name.local == "summary" || name.local == "text" || name.local == "example" {
          var content := CaptureInnerXml(reader, name.local);
          if content == None {
            return None;
          }
          OptionCatches(now, Caught(name.local, content.value), Read(Opt, reader.rest));
          if name.local == "summary" {
            now := now.(summary := content);
          } else if name.local == "text" {
            now := now.(text := content);
          } else {
            now := now.(example := content);
          }
        } else {
          var ok := SkipElement(reader, name);
          if !ok {
            return None;
          }
        }
      } else if e.value.End? && e.value.name.local == "option" {
        return Some(now);
      }
    }
  }

  function OptionsDone(options: seq<HelpCommandOption<Content>>,
      g: Option<Got>): Option<Done<seq<HelpCommandOption<Content>>>> {
    After(OptionsWith(options, HitsIn(g)), g)
  }

  lemma OptionsTake(options: seq<HelpCommandOption<Content>>, attrs: seq<Attr>, hits: seq<Hit>, g: Option<Got>)
    ensures OptionsDone(options, Prepend([Part(Opt, attrs, hits)], g)) ==
      if OptionFrom(attrs, hits).None? then None else OptionsDone(options + [OptionFrom(attrs, hits).value], g)
  {
    if g.Some? {
      assert ([Part(Opt, attrs, hits)] + g.value.hits)[1..] == g.value.hits;
    }
  }

  method ParseOptionList(reader: Reader, before: seq<HelpCommandOption<Content>>)
    returns (options: Option<seq<HelpCommandOption<Content>>>)
    modifies reader
    ensures options.Some? <==> OptionsDone(before, Read(OptionList, old(reader.rest))).Some?
    ensures options.Some? ==>
      OptionsDone(before, Read(OptionList, old(reader.rest))) == Some(Done(options.value, reader.rest))
  {
    var now := before;
    ghost var whole := OptionsDone(before, Read(OptionList, reader.rest));
    while true
      invariant OptionsDone(now, Read(OptionList, reader.rest)) == whole
      decreases |reader.rest|
    {
      var e := reader.ReadEvent();
      if e == None || e.value.Malformed? {
        return None;
      }
      if e.value.Start? && e.value.name.local == "option" {
        var attrs := e.value.attrs;
        var option := NewOption(attrs);
        ghost var inner := Read(Opt, reader.rest);
        if inner.Some? {
          OptionsTake(now, attrs, inner.value.hits, Read(OptionList, inner.value.rest));
        }
        if option == None {
          return None;
        }
        option := ParseOptionBody(reader, option.value);
        if option == None {
          return None;
        }
        now := now + [option.value];
      } else if e.value.End? && e.value.name.local == "option-list" {
        return Some(now);
      }
    }
  }

  // ----- Commands

  function CommandDone(p: Partial<HelpCommand<Content>>, g: Option<Got>): Option<Done<Partial<HelpCommand<Content>>>> {
    After(CommandWith(p, HitsIn(g)), g)
  }

  lemma CommandCatches(p: Partial<HelpCommand<Content>>, hit: Hit, g: Option<Got>)
    ensures CommandDone(p, Prepend([hit], g)) ==
      if hit.Part? then
        (if OptionsWith(p.item.options, hit.hits).None? then None
         else CommandDone(p.(item := p.item.(options := OptionsWith(p.item.options, hit.hits).value)), g))
      else if hit.local == "summary" then CommandDone(Partial(p.item.(summary := hit.content), true), g)
      else CommandDone(p.(item := p.item.(text := Some(hit.content))), g)
  {
    if g.Some? {
      assert ([hit] + g.value.hits)[1..] == g.value.hits;
    }
  }

  method ParseCommandBody(reader: Reader, before: HelpCommand<Content>)
    returns (ok: bool, command: HelpCommand<Content>, haveSummary: bool)
    modifies reader
    ensures ok <==> CommandDone(Partial(before, false), Read(Command, old(reader.rest))).Some?
    ensures ok ==>
      CommandDone(Partial(before, false), Read(Command, old(reader.rest)))
        == Some(Done(Partial(command, haveSummary), reader.rest))
  {
    ok, command, haveSummary := true, before, false;
    ghost var whole := CommandDone(Partial(before, false), Read(Command, reader.rest));
    while true
      invariant CommandDone(Partial(command, haveSummary), Read(Command, reader.rest)) == whole
      decreases |reader.rest|
    {
      ghost var p := Partial(command, haveSummary);
      var e := reader.ReadEvent();
      if e == None || e.value.Malformed? {
        ok := false;
        return;
      }
      if e.value.Start? {
        var name := e.value.name;
        if name.local == "summary" || name.local == "text" {
          var content := CaptureInnerXml(reader, name.local);
          if content == None {
            ok := false;
            return;
          }
          CommandCatches(p, Caught(name.local, content.value), Read(Command, reader.rest));
          if name.local == "summary" {
            command := command.(summary := content.value);
            haveSummary := true;
          } else {
            command := command.(text := content);
          }
        } else if name.local == "option-list" {
          ghost var inner := Read(OptionList, reader.rest);
          if inner.Some? {
            CommandCatches(p, Part(OptionList, e.value.attrs, inner.value.hits), Read(Command, inner.value.rest));
          }
          var options := ParseOptionList(reader, command.options);
          if options == None {
            ok := false;
            return;
          }
          command := command.(options := options.value);
        } else {
          ok := SkipElement(reader, name);
          if !ok {
            return;
          }
        }
      } else if e.value.End? && e.value.name.local == "command" {
        return;
      }
    }
  }

  function CommandsDone(commands: seq<HelpCommand<Content>>, g: Option<Got>): Option<Done<seq<HelpCommand<Content>>>> {
    After(CommandsWith(commands, HitsIn(g)), g)
  }

  lemma CommandsTake(commands: seq<HelpCommand<Content>>, attrs: seq<Attr>, hits: seq<Hit>, g: Option<Got>)
    ensures CommandsDone(commands, Prepend([Part(Command, attrs, hits)], g)) ==
      if CommandFrom(attrs, hits).None? then None else CommandsDone(commands + [CommandFrom(attrs, hits).value], g)
  {
    if g.Some? {
      assert ([Part(Command, attrs, hits)] + g.value.hits)[1..] == g.value.hits;
    }
  }

  method ParseCommandList(reader: Reader, before: seq<HelpCommand<Content>>)
    returns (commands: Option<seq<HelpCommand<Content>>>)
    modifies reader
    ensures commands.Some? <==> CommandsDone(before, Read(CommandList, old(reader.rest))).Some?
    ensures commands.Some? ==>
      CommandsDone(before, Read(CommandList, old(reader.rest))) == Some(Done(commands.value, reader.rest))
  {
    var now := before;
    ghost var whole := CommandsDone(before, Read(CommandList, reader.rest));
    while true
      invariant CommandsDone(now, Read(CommandList, reader.rest)) == whole
      decreases |reader.rest|
    {
      var e := reader.ReadEvent();
      if e == None || e.value.Malformed? {
        return None;
      }
      if e.value.Start? && e.value.name.local == "command" {
        var attrs := e.value.attrs;
        var command := NewCommand(attrs);
        ghost var inner := Read(Command, reader.rest);
        if inner.Some? {
          CommandsTake(now, attrs, inner.value.hits, Read(CommandList, inner.value.rest));
        }
        if command == None {
          return None;
        }
        var ok, item, haveSummary := ParseCommandBody(reader, command.value);
        if !ok || !haveSummary {
          return None;
        }
        now := now + [item];
      } else if e.value.End? && e.value.name.local == "command-list" {
        return Some(now);
      }
    }
  }

  function OperationDone(commands: seq<HelpCommand<Content>>, g: Option<Got>): Option<Done<seq<HelpCommand<Content>>>> {
    After(OperationWith(commands, HitsIn(g)), g)
  }

  lemma OperationTake(commands: seq<HelpCommand<Content>>, attrs: seq<Attr>, hits: seq<Hit>, g: Option<Got>)
    ensures OperationDone(commands, Prepend([Part(CommandList, attrs, hits)], g)) ==
      if CommandsWith(commands, hits).None? then None else OperationDone(CommandsWith(commands, hits).value, g)
  {
    if g.Some? {
      assert ([Part(CommandList, attrs, hits)] + g.value.hits)[1..] == g.value.hits;
    }
  }

  method ParseOperation(reader: Reader, before: seq<HelpCommand<Content>>)
    returns (commands: Option<seq<HelpCommand<Content>>>)
    modifies reader
    ensures commands.Some? <==> OperationDone(before, Read(Operation, old(reader.rest))).Some?
    ensures commands.Some? ==>
      OperationDone(before, Read(Operation, old(reader.rest))) == Some(Done(commands.value, reader.rest))
  {
    var now := before;
    ghost var whole := OperationDone(before, Read(Operation, reader.rest));
    while true
      invariant OperationDone(now, Read(Operation, reader.rest)) == whole
      decreases |reader.rest|
    {
      var e := reader.ReadEvent();
      if e == None || e.value.Malformed? {
        return None;
      }
      if e.value.Start? && e.value.name.local == "command-list" {
        ghost var inner := Read(CommandList, reader.rest);
        if inner.Some? {
          OperationTake(now, e.value.attrs, inner.value.hits, Read(Operation, inner.value.rest));
        }
        var more := ParseCommandList(reader, now);
        if more == None {
          return None;
        }
        now := more.value;
      } else if e.value.End? && e.value.name.local == "operation" {
        return Some(now);
      }
    }
  }

  // ----- The document

  function HelpDone(help: Help<Content>, g: Option<Got>): Option<Help<Content>> {
    if g.None? then None else HelpWith(help, g.value.hits)
  }

  lemma HelpTakes(help: Help<Content>, hit: Hit, g: Option<Got>)
    requires hit.Part? && (hit.level == Config || hit.level == Operation)
    ensures HelpDone(help, Prepend([hit], g)) ==
      if hit.level == Config then
        (if ConfigWith(help.configSections, hit.hits).None? then None
         else HelpDone(help.(configSections := ConfigWith(help.configSections, hit.hits).value), g))
      else
        (if OperationWith(help.commands, hit.hits).None? then None
         else HelpDone(help.(commands := OperationWith(help.commands, hit.hits).value), g))
  {
    if g.Some? {
      assert ([hit] + g.value.hits)[1..] == g.value.hits;
    }
  }

  /** The parser. With `HelpParser.ParseIsHelpOf` it gives the help tree of any well-formed, calm document. */
  method ParseHelp(events: seq<Event>) returns (result: Option<Help<Content>>)
    ensures result == Parse(events)
  {
    var reader := new Reader(events);
    var help: Help<Content> := Help([], []);
    while true
      invariant HelpDone(help, Read(Top, reader.rest)) == Parse(events)
      invariant fresh(reader)
      decreases |reader.rest|
    {
      var e := reader.ReadEvent();
      if e == None {
        return Some(help);
      }
      if e.value.Malformed? {
        return None;
      }
      if e.value.Start? {
        var attrs, local := e.value.attrs, e.value.name.local;
        if local == "config" {
          ghost var inner := Read(Config, reader.rest);
          if inner.Some? {
            HelpTakes(help, Part(Config, attrs, inner.value.hits), Read(Top, inner.value.rest));
          }
          var sections := ParseConfig(reader, help.configSections);
          if sections == None {
            return None;
          }
          help := help.(configSections := sections.value);
        } else if local == "operation" {
          ghost var inner := Read(Operation, reader.rest);
          if inner.Some? {
            HelpTakes(help, Part(Operation, attrs, inner.value.hits), Read(Top, inner.value.rest));
          }
          var commands := ParseOperation(reader, help.commands);
          if commands == None {
            return None;
          }
          help := help.(commands := commands.value);
        }
      }
    }
  }
}
