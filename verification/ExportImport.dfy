/** Replaying what dev-list prints, HidHideCLI/src/Commands.cpp, as a script for another run. */
module ExportImport {
  import opened Names
  import opened Seqs
  import opened CliParsing
  import opened CliRoundTrip
  import opened ConfigStore
  import opened Commands
  import opened Driver
  import opened FilterDriverProxy
  import opened CommandInterpreter
  import opened MultiString

  /** The keyword names dev-hide and is one line and one token, apart from the blank behind it. */
  ghost predicate HidesDevice(p: Platform, keyword: string)
  {
    && Lookup(p, keyword) == Some(DevHide) && '\n' !in keyword
    && Classifies(p.space) && p.space(' ') && forall i | 0 <= i < |keyword| :: !p.space(keyword[i])
  }

  predicate Exportable(entry: string)
  {
    QUOTE !in entry && '\n' !in entry && |entry| <= MAX_DEVICE_ID_LEN
  }

  lemma ListedLineReads(space: char -> bool, keyword: string, entry: string)
    requires Classifies(space) && space(' ') && forall i | 0 <= i < |keyword| :: !space(keyword[i])
    requires Exportable(entry)
    ensures CommandsOf(space, ListingLine(keyword, entry)) == Read(Some([[keyword, entry]]), [])
  {
    var args := [Argument(" ", entry, true)];
    var cs := [Command([], keyword, args)];
    OneCommand(cs, keyword, entry);
    EmptyRight(CommandsText(cs));
    PrintedIsParsed(space, cs, []);
  }

  lemma OneCommand(cs: seq<Command>, keyword: string, entry: string)
    requires cs == [Command([], keyword, [Argument(" ", entry, true)])] && Exportable(entry)
    ensures CommandsText(cs) == ListingLine(keyword, entry)
    ensures Meaning(cs) == [[keyword, entry]]
    ensures Readable(cs)
  {
    var args := [Argument(" ", entry, true)];
    assert cs[0].args == args && args[1..] == [] && cs[1..] == [];
    assert ArgsText(args, []) == " " + Quoted(entry);
    assert Texts(args) == [entry];
    assert [keyword] + [entry] == [keyword, entry];
    assert ArgsReadable([], true);
  }

  lemma GetListedLine(keyword: string, entry: string, rest: string)
    requires '\n' !in keyword && '\n' !in entry
    ensures GetLine(ListingLine(keyword, entry) + ['\n'] + rest) == Piece(ListingLine(keyword, entry), rest)
  {
    assert '\n' !in ListingLine(keyword, entry);
    GetLineIsRead(ListingLine(keyword, entry), rest);
  }

  lemma HideCommand(p: Platform, c: Config, keyword: string, entry: string)
    requires HidesDevice(p, keyword) && Exportable(entry)
    ensures Accepted(p, [keyword, entry])
    ensures EffectIfAccepted(p, c, [keyword, entry]) == c.(blacklist := c.blacklist + {entry})
  {
  }

  lemma OneCommandCommits(p: Platform, line: string, args: Args)
    requires CommandsOf(p.space, line).result == Some([args])
    requires Accepted(p, args) && Lookup(p, args[0]) != Some(Cancel)
    ensures Commits(p, line)
  {
    assert Harmless(p, [args]);
  }

  lemma ListedLineHides(p: Platform, c: Config, keyword: string, entry: string)
    requires HidesDevice(p, keyword) && Exportable(entry)
    ensures Commits(p, ListingLine(keyword, entry))
    ensures CommandsOf(p.space, ListingLine(keyword, entry)).result == Some([[keyword, entry]])
    ensures Effects(p, c, [[keyword, entry]]) == c.(blacklist := c.blacklist + {entry})
  {
    ListedLineReads(p.space, keyword, entry);
    HideCommand(p, c, keyword, entry);
    OneCommandCommits(p, ListingLine(keyword, entry), [keyword, entry]);
    OneEffect(p, c, [keyword, entry]);
  }

  lemma ReplayLine(p: Platform, c: Config, keyword: string, entry: string, rest: string)
    requires HidesDevice(p, keyword) && Exportable(entry)
    ensures var lines := LinesOf(ListingLine(keyword, entry) + ['\n'] + rest);
      && (AllCommit(p, LinesOf(rest)) ==> AllCommit(p, lines))
      && Effects(p, c, Program(p, lines))
      == Effects(p, c.(blacklist := c.blacklist + {entry}), Program(p, LinesOf(rest)))
  {
    GetListedLine(keyword, entry, rest);
    ListedLineHides(p, c, keyword, entry);
    AllCommitFrom(p, ListingLine(keyword, entry), LinesOf(rest));
    EffectsConcat(p, c, [[keyword, entry]], Program(p, LinesOf(rest)));
  }

  lemma HidOneMore(c: Config, entries: seq<string>)
    requires entries != []
    ensures var hidden := c.(blacklist := c.blacklist + {entries[0]});
      hidden.(blacklist := hidden.blacklist + Elements(entries[1..]))
      == c.(blacklist := c.blacklist + Elements(entries))
  {
    ElementsOfConcat([entries[0]], entries[1..]);
    assert entries == [entries[0]] + entries[1..];
  }

  lemma {:induction false} ReplayLines(p: Platform, c: Config, keyword: string, entries: seq<string>)
    requires HidesDevice(p, keyword) && forall i | 0 <= i < |entries| :: Exportable(entries[i])
    ensures AllCommit(p, LinesOf(Listing(keyword, entries)))
    ensures Effects(p, c, Program(p, LinesOf(Listing(keyword, entries))))
         == c.(blacklist := c.blacklist + Elements(entries))
    decreases |entries|
  {
    if entries != [] {
      var hidden := c.(blacklist := c.blacklist + {entries[0]});
      ReplayLine(p, c, keyword, entries[0], Listing(keyword, entries[1..]));
      ReplayLines(p, hidden, keyword, entries[1..]);
      HidOneMore(c, entries);
    }
  }

  ghost predicate Separates(space: char -> bool)
  {
    Classifies(space) && space(' ') && forall i | 0 <= i < |DEV_HIDE| :: !space(DEV_HIDE[i])
  }

  lemma DevHideIsRegistered(p: Platform)
    requires p.registeredCommands == RegisteredCommands() && Separates(p.space)
    ensures HidesDevice(p, DEV_HIDE)
  {
  }

  /** A script of the printed lines commits, and adds exactly the printed entries. */
  lemma ReplayCommits(p: Platform, c: Config, exported: set<string>)
    requires p.registeredCommands == RegisteredCommands() && Separates(p.space)
    requires forall e | e in exported :: Exportable(e)
    ensures var lines := LinesRead(Script, [], Listing(DEV_HIDE, InOrder(exported)));
      && AllCommit(p, lines)
      && Effects(p, c, Program(p, lines)) == c.(blacklist := c.blacklist + exported)
  {
    var input := Listing(DEV_HIDE, InOrder(exported));
    InOrderElements(exported);
    assert forall i | 0 <= i < |InOrder(exported)| :: InOrder(exported)[i] in Elements(InOrder(exported));
    DevHideIsRegistered(p);
    ReplayLines(p, c, DEV_HIDE, InOrder(exported));
    EmptyLine(p.space);
    AllCommitFrom(p, [], LinesOf(input));
    EffectsConcat(p, c, [], Program(p, LinesOf(input)));
  }

  /** Export and import: a script made of the lines dev-list prints for `exported`, run against any
      configuration, commits, adds exactly those entries, and the driver reads them all back. */
  lemma ListedIsReplayed(p: Platform, s: Session, exported: set<string>)
    requires p.registeredCommands == RegisteredCommands() && Separates(p.space)
    requires !s.cancel && forall e | e in exported :: Exportable(e)
    ensures var r := RunFrom(p, Script, s, [], Listing(DEV_HIDE, InOrder(exported)));
      && r.committed
      && r.session.config == s.config.(blacklist := s.config.blacklist + exported)
      && (Elements(Stored(r.session.config.blacklist)) == s.config.blacklist + exported <==>
            Cleanly(s.config.blacklist + exported))
  {
    ReplayCommits(p, s.config, exported);
    Transaction(p, Script, s, [], Listing(DEV_HIDE, InOrder(exported)));
    SetRoundTrip(s.config.blacklist + exported);
  }

  /** The same between two drivers: what one interpreter lists, replayed on any device, ends with that
      device hiding the union and all its other settings as its own run leaves them. */
  method ExportThenImport(p: Platform, exporter: Interpreter, device: ControlDevice)
    requires p.registeredCommands == RegisteredCommands() && Separates(p.space)
    requires exporter.Valid() && exporter.console == []
    requires forall e | e in exporter.proxy.blacklist :: Exportable(e) && Clean(e)
    requires device.Valid() && exporter !in device.TableObjects() + device.SessionObjects()
    requires CanRead(device) && Transferable(Stored(WithApplication(p, DeviceConfig(device)).whitelist))
    modifies exporter`console, device, device.processes`contents, device.processes.pool`evaluationCache
    ensures device.Valid()
    ensures DeviceConfig(device).blacklist == old(DeviceConfig(device)).blacklist + old(exporter.proxy.blacklist)
    ensures DeviceConfig(device).active == old(DeviceConfig(device)).active
    ensures DeviceConfig(device).inverse == old(DeviceConfig(device)).inverse
    ensures DeviceConfig(device).whitelist ==
            Elements(Stored(WithApplication(p, old(DeviceConfig(device))).whitelist))
  {
    ghost var start, exported := WithApplication(p, DeviceConfig(device)), exporter.proxy.blacklist;
    RegistryDecodeClean(device.registryBlacklist);
    exporter.DevList();
    assert exporter.console == Listing(DEV_HIDE, InOrder(exported));
    ReplayCommits(p, start, exported);
    assert Cleanly(start.blacklist + exported);
    SetRoundTrip(start.blacklist + exported);
    MainApplication(p, Script, [], exporter.console, device);
  }

  lemma HidingNothingLine()
    ensures ListingLine(DEV_HIDE, "") == "--dev-hide \"\""
  {
  }

  /** The one command line that empties a blacklist without meaning to: an empty path is accepted,
      added, and takes every other entry with it when the set is stored. */
  lemma HidingNothingWipes(p: Platform, s: Session)
    requires p.registeredCommands == RegisteredCommands() && Separates(p.space) && !s.cancel
    ensures var r := RunFrom(p, Mode.Arguments, s, ListingLine(DEV_HIDE, ""), []);
      && r.committed
      && r.session.config == s.config.(blacklist := s.config.blacklist + {""})
      && Stored(r.session.config.blacklist) == []
  {
    var line := ListingLine(DEV_HIDE, "");
    DevHideIsRegistered(p);
    ListedLineHides(p, s.config, DEV_HIDE, "");
    Transaction(p, Mode.Arguments, s, line, []);
    AllCommitFrom(p, line, []);
    EmptyRight([line]);
    EmptyRight([[DEV_HIDE, ""]]);
    EmptyStringWipes(s.config.blacklist + {""});
  }

  lemma EmptyLine(space: char -> bool)
    ensures CommandsOf(space, []) == Read(Some([]), [])
  {
  }
}
