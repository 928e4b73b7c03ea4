/** HidHideCLI/src/CommandInterpreter.cpp and the command handlers of Commands.cpp. */
module CommandInterpreter {
  import opened Names
  import opened Seqs
  import opened CliParsing
  import opened CliRoundTrip
  import opened ConfigStore
  import opened Commands
  import opened CommandReadings
  import opened Driver
  import opened FilterDriverProxy

  /** The whitelist after AppClean has looked at the first `n` names. */
  function Cleaned(p: Platform, all: set<string>, names: seq<string>, n: nat): set<string>
    requires n <= |names|
  {
    if n == 0 then all
    else if p.isPresent(p.fileName(names[n - 1])) then Cleaned(p, all, names, n - 1)
    else Cleaned(p, all, names, n - 1) - {names[n - 1]}
  }

  lemma {:induction false} CleanedRemoves(p: Platform, all: set<string>, names: seq<string>, n: nat)
    requires n <= |names|
    ensures Cleaned(p, all, names, n) == all - AbsentNames(p, Elements(names[..n]))
  {
    if n != 0 {
      CleanedRemoves(p, all, names, n - 1);
      assert names[..n] == names[..n - 1] + [names[n - 1]];
    }
  }

  lemma LineRead(p: Platform, s: Session, line: string, commands: seq<Args>, rest: string)
    requires Signals(CommandsOf(p.space, line), commands, rest)
    ensures HaveKeywords(commands)
    ensures RunLine(p, s, line) ==
            if rest == [] then RunCommands(p, s, commands, 0) else Outcome(s, Some(SyntaxError))
  {
    Totality(p.space, line);
    AlwaysKeywords(p.space, line);
  }

  predicate Reports(keyword: Keyword)
  {
    keyword in {AppList, DevList, CloakState, InvState}
  }

  /** A command reports, or changes the configuration, or cancels. */
  lemma OneKind(p: Platform, c: Config, args: Args)
    requires Accepted(p, args)
    ensures var keyword := p.registeredCommands[args[0]];
      && (Reports(keyword) || keyword == Cancel ==> Effect(p, c, args) == c)
      && (!Reports(keyword) ==> Report(p, c, args) == [])
  {
  }

  method FileNameList(p: Platform, names: seq<string>) returns (files: seq<string>)
    ensures files == FileNames(p, names)
  {
    files := [];
    for i := 0 to |names|
      invariant files + FileNames(p, names[i..]) == FileNames(p, names)
    {
      assert names[i..][1..] == names[i + 1..];
      Assoc(files, [p.fileName(names[i])], FileNames(p, names[i + 1..]));
      files := files + [p.fileName(names[i])];
    }
    assert names[|names|..] == [];
    EmptyRight(files);
  }

  class Interpreter {
    const p: Platform
    const mode: Mode
    const proxy: Proxy
    var cancel: bool
    var console: string

    ghost function Value(): Session
      reads this, proxy
    {
      Session(proxy.Cache(), cancel, console)
    }

    ghost predicate Valid()
      reads this, proxy, proxy.device, proxy.device.processes, proxy.device.sessions
      reads proxy.device.TableObjects(), proxy.device.SessionObjects()
    {
      && this !in proxy.device.TableObjects() + proxy.device.SessionObjects()
      && proxy.Valid()
    }

    constructor (p: Platform, mode: Mode, writeThrough: bool, device: ControlDevice)
      requires device.Valid() && CanRead(device)
      modifies device`registryWhitelist, device`whitelistedFullImageNames
      modifies device.processes`contents, device.processes.pool`evaluationCache
      ensures Valid() && fresh(proxy) && proxy.device == device && proxy.writeThrough == writeThrough
      ensures this.p == p && this.mode == mode
      ensures proxy.Cache() == WithApplication(p, old(DeviceConfig(device))) && !cancel && console == []
      ensures DeviceConfig(device) == Surviving(proxy.Cache())
      ensures WroteAtMost(old(device.whitelistedFullImageNames), Stored(proxy.whitelist), device)
    {
      var x := new Proxy(p, writeThrough, device);
      this.p, this.mode, proxy, cancel, console := p, mode, x, false, [];
    }

    method PrintListing(keyword: string, entries: seq<string>)
      modifies this`console
      ensures console == old(console) + Listing(keyword, entries)
    {
      EmptyRight(console);
      for i := 0 to |entries|
        invariant console + Listing(keyword, entries[i..]) == old(console) + Listing(keyword, entries)
      {
        var line := ListingLine(keyword, entries[i]) + ['\n'];
        assert entries[i..][1..] == entries[i + 1..];
        Assoc(console, line, Listing(keyword, entries[i + 1..]));
        console := console + line;
      }
      assert entries[|entries|..] == [];
      EmptyRight(console);
    }

    method DevList()
      modifies this`console
      ensures console == old(console) + Listing(DEV_HIDE, InOrder(proxy.blacklist))
    {
      var entries := StringSetToStringList(proxy.blacklist);
      PrintListing(DEV_HIDE, entries);
    }

    method AppList()
      modifies this`console
      ensures console == old(console) + Listing(APP_REG, FileNames(p, InOrder(proxy.whitelist)))
    {
      var names := StringSetToStringList(proxy.whitelist);
      var files := FileNameList(p, names);
      PrintListing(APP_REG, files);
    }

    method AppClean()
      requires Valid()
      modifies proxy`whitelist, proxy.device`registryWhitelist, proxy.device`whitelistedFullImageNames
      modifies proxy.device.processes`contents, proxy.device.processes.pool`evaluationCache
      ensures Valid()
      ensures proxy.whitelist == old(proxy.whitelist) - AbsentNames(p, old(proxy.whitelist))
      ensures !proxy.writeThrough ==> proxy.device.Value() == old(proxy.device.Value())
    {
      var all := proxy.whitelist;
      var names := StringSetToStringList(all);
      CleanNames(names);
      CleanedRemoves(p, all, names, |names|);
      InOrderElements(all);
      assert names[..|names|] == names;
    }

    method CleanNames(names: seq<string>)
      requires Valid()
      modifies proxy`whitelist, proxy.device`registryWhitelist, proxy.device`whitelistedFullImageNames
      modifies proxy.device.processes`contents, proxy.device.processes.pool`evaluationCache
      ensures Valid() && proxy.whitelist == Cleaned(p, old(proxy.whitelist), names, |names|)
      ensures !proxy.writeThrough ==> proxy.device.Value() == old(proxy.device.Value())
    {
      for n := 0 to |names|
        invariant Valid() && proxy.whitelist == Cleaned(p, old(proxy.whitelist), names, n)
        invariant !proxy.writeThrough ==> proxy.device.Value() == old(proxy.device.Value())
      {
        CleanEntry(names[n]);
      }
    }

    method CleanEntry(fullImageName: string)
      requires Valid()
      modifies proxy`whitelist, proxy.device`registryWhitelist, proxy.device`whitelistedFullImageNames
      modifies proxy.device.processes`contents, proxy.device.processes.pool`evaluationCache
      ensures Valid()
      ensures proxy.whitelist ==
              if p.isPresent(p.fileName(fullImageName)) then old(proxy.whitelist) else old(proxy.whitelist) - {fullImageName}
      ensures !proxy.writeThrough ==> proxy.device.Value() == old(proxy.device.Value())
    {
      if !p.isPresent(p.fileName(fullImageName)) {
        proxy.WhitelistDelEntry(fullImageName);
      }
    }

    /** The commands that report and change nothing else. */
    method Print(args: Args)
      requires Accepted(p, args) && Reports(p.registeredCommands[args[0]])
      modifies this`console
      ensures console == old(console) + Report(p, proxy.Cache(), args)
    {
      match p.registeredCommands[args[0]]
      case AppList => AppList();
      case DevList => DevList();
      case CloakState => console := console + CloakText(proxy.active);
      case InvState => console := console + InvText(proxy.inverse);
    }

    /** The commands that change the configuration. */
    method Change(args: Args)
      requires Valid() && Accepted(p, args)
      modifies proxy`active, proxy`inverse, proxy`whitelist, proxy`blacklist
      modifies proxy.device`active, proxy.device`whitelistedInverse
      modifies proxy.device`registryBlacklist, proxy.device`blacklistedDeviceInstancePaths
      modifies proxy.device`registryWhitelist, proxy.device`whitelistedFullImageNames
      modifies proxy.device.processes`contents, proxy.device.processes.pool`evaluationCache
      ensures Valid() && proxy.Cache() == Effect(p, old(proxy.Cache()), args)
      ensures !proxy.writeThrough ==> proxy.device.Value() == old(proxy.device.Value())
    {
      match p.registeredCommands[args[0]]
      case AppReg => proxy.WhitelistAddEntry(p.fullImageName(args[1]));
      case AppUnreg => proxy.WhitelistDelEntry(p.fullImageName(args[1]));
      case AppClean => AppClean();
      case DevHide => proxy.BlacklistAddEntry(args[1]);
      case DevUnhide => proxy.BlacklistDelEntry(args[1]);
      case CloakOn => proxy.SetActive(true);
      case CloakOff => proxy.SetActive(false);
      case CloakToggle => proxy.SetActive(!proxy.active);
      case InvOn => proxy.SetInverse(true);
      case InvOff => proxy.SetInverse(false);
      case _ =>
    }

    /** The handler of an accepted command. */
    method ExecuteCommand(args: Args)
      requires Valid() && Accepted(p, args)
      modifies this`cancel, this`console
      modifies proxy`active, proxy`inverse, proxy`whitelist, proxy`blacklist
      modifies proxy.device`active, proxy.device`whitelistedInverse
      modifies proxy.device`registryBlacklist, proxy.device`blacklistedDeviceInstancePaths
      modifies proxy.device`registryWhitelist, proxy.device`whitelistedFullImageNames
      modifies proxy.device.processes`contents, proxy.device.processes.pool`evaluationCache
      ensures Valid() && Value() == Execute(p, old(Value()), args)
      ensures !proxy.writeThrough ==> proxy.device.Value() == old(proxy.device.Value())
    {
      OneKind(p, proxy.Cache(), args);
      EmptyRight(console);
      var keyword := p.registeredCommands[args[0]];
      if Reports(keyword) {
        Print(args);
      } else if keyword == Cancel {
        cancel := true;
      } else {
        Change(args);
      }
    }

    method ExecuteCommands(commands: seq<Args>) returns (error: Option<Error>)
      requires Valid() && HaveKeywords(commands)
      modifies this`cancel, this`console
      modifies proxy`active, proxy`inverse, proxy`whitelist, proxy`blacklist
      modifies proxy.device`active, proxy.device`whitelistedInverse
      modifies proxy.device`registryBlacklist, proxy.device`blacklistedDeviceInstancePaths
      modifies proxy.device`registryWhitelist, proxy.device`whitelistedFullImageNames
      modifies proxy.device.processes`contents, proxy.device.processes.pool`evaluationCache
      ensures Valid() && Outcome(Value(), error) == RunCommands(p, old(Value()), commands, 0)
      ensures !proxy.writeThrough ==> proxy.device.Value() == old(proxy.device.Value())
    {
      for i := 0 to |commands|
        invariant Valid()
        invariant RunCommands(p, Value(), commands, i) == RunCommands(p, old(Value()), commands, 0)
        invariant !proxy.writeThrough ==> proxy.device.Value() == old(proxy.device.Value())
      {
        error := Validate(p, commands[i]);
        if error.Some? {
          return;
        }
        ExecuteCommand(commands[i]);
      }
      error := None;
    }

    method ExecuteLine(line: string) returns (error: Option<Error>)
      requires Valid()
      modifies this`cancel, this`console
      modifies proxy`active, proxy`inverse, proxy`whitelist, proxy`blacklist
      modifies proxy.device`active, proxy.device`whitelistedInverse
      modifies proxy.device`registryBlacklist, proxy.device`blacklistedDeviceInstancePaths
      modifies proxy.device`registryWhitelist, proxy.device`whitelistedFullImageNames
      modifies proxy.device.processes`contents, proxy.device.processes.pool`evaluationCache
      ensures Valid() && Outcome(Value(), error) == RunLine(p, old(Value()), line)
      ensures !proxy.writeThrough ==> proxy.device.Value() == old(proxy.device.Value())
    {
      var commands, rest := ExtractCommands(p.space, line);
      LineRead(p, Value(), line, commands, rest);
      if rest == [] {
        error := ExecuteCommands(commands);
      } else {
        error := Some(SyntaxError);
      }
    }

    /** Start: `input` is what standard input still holds.  `finished` tells whether the loop ended
        without an error or a cancellation, so that the changes are applied. */
    method Start(commandLine: string, input: string) returns (finished: bool)
      requires Valid() && (proxy.writeThrough || CanRead(proxy.device))
      modifies this`cancel, this`console
      modifies proxy`active, proxy`inverse, proxy`whitelist, proxy`blacklist
      modifies proxy.device`active, proxy.device`whitelistedInverse
      modifies proxy.device`registryBlacklist, proxy.device`blacklistedDeviceInstancePaths
      modifies proxy.device`registryWhitelist, proxy.device`whitelistedFullImageNames
      modifies proxy.device.processes`contents, proxy.device.processes.pool`evaluationCache
      ensures Valid() && Ending(Value(), finished) == RunFrom(p, mode, old(Value()), commandLine, input)
      ensures !proxy.writeThrough && finished ==> DeviceConfig(proxy.device) == Surviving(Value().config)
      ensures !proxy.writeThrough && !finished ==> proxy.device.Value() == old(proxy.device.Value())
    {
      finished := ProcessLines(commandLine, input);
      if finished {
        var _ := proxy.ApplyConfigurationChanges();
      }
    }

    /** Start's loop. */
    method ProcessLines(commandLine: string, input: string) returns (finished: bool)
      requires Valid()
      modifies this`cancel, this`console
      modifies proxy`active, proxy`inverse, proxy`whitelist, proxy`blacklist
      modifies proxy.device`active, proxy.device`whitelistedInverse
      modifies proxy.device`registryBlacklist, proxy.device`blacklistedDeviceInstancePaths
      modifies proxy.device`registryWhitelist, proxy.device`whitelistedFullImageNames
      modifies proxy.device.processes`contents, proxy.device.processes.pool`evaluationCache
      ensures Valid() && Ending(Value(), finished) == RunFrom(p, mode, old(Value()), commandLine, input)
      ensures !proxy.writeThrough ==> proxy.device.Value() == old(proxy.device.Value())
    {
      var line, rest := commandLine, input;
      while true
        invariant Valid()
        invariant RunFrom(p, mode, Value(), line, rest) == RunFrom(p, mode, old(Value()), commandLine, input)
        invariant !proxy.writeThrough ==> proxy.device.Value() == old(proxy.device.Value())
        decreases |rest|
      {
        var error := ExecuteLine(line);
        if error.Some? && mode != Interactive {
          return false;
        }
        if cancel {
          return false;
        }
        if mode == Arguments || rest == [] {
          return true;
        }
        line, rest := GetLine(rest).text, GetLine(rest).rest;
      }
    }
  }

  /** MainApplication: the driver ends with the configuration the constructor left, or with the effect
      of every command on every line; an interactive session skips what follows a refused command on
      its line, and only a cancel takes its effect back. */
  method MainApplication(p: Platform, mode: Mode, commandLine: string, input: string, device: ControlDevice)
    requires device.Valid() && CanRead(device)
    requires Transferable(Stored(WithApplication(p, DeviceConfig(device)).whitelist))
    modifies device, device.processes`contents, device.processes.pool`evaluationCache
    ensures device.Valid()
    ensures p.registeredCommands == RegisteredCommands() ==>
      match Counting(p, mode, commandLine, input)
      case None => DeviceConfig(device) == Surviving(WithApplication(p, old(DeviceConfig(device))))
      case Some(program) => exists f ::
        DeviceConfig(device) == Surviving(f) && Leaves(p, WithApplication(p, old(DeviceConfig(device))), program, f)
    ensures DeviceConfig(device) ==
      Surviving(Final(p, mode, WithApplication(p, old(DeviceConfig(device))), commandLine, input))
  {
    var interpreter := new Interpreter(p, mode, false, device);
    if p.registeredCommands == RegisteredCommands() {
      FinalIsRead(p, mode, interpreter.Value().config, commandLine, input);
    }
    if mode == Interactive {
      InteractiveSession(p, interpreter.Value(), commandLine, input);
    } else {
      Transaction(p, mode, interpreter.Value(), commandLine, input);
    }
    var _ := interpreter.Start(commandLine, input);
  }
}
