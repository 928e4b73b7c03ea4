/** HidHideCLI/src/Commands.cpp and CommandInterpreter.cpp as functions: which commands are accepted,
    what each does to the configuration, and what a whole run over all its lines amounts to. */
module Commands {
  import opened Names
  import opened Seqs
  import opened CliParsing
  import opened CliRoundTrip
  import opened ConfigStore

  datatype Config = Config(active: bool, inverse: bool, whitelist: set<string>, blacklist: set<string>)

  /** What a run is given: the registered commands, and the operating system's answers. */
  datatype Platform = Platform(
    registeredCommands: map<string, Keyword>,
    space: char -> bool,               // iswspace
    isRelative: string -> bool,        // std::filesystem::path::is_relative
    isApplication: string -> bool,     // FileIsAnApplication
    fullImageName: string -> string,   // FileNameToFullImageName; empty when not on a volume
    fileName: string -> string,        // FullImageNameToFileName
    isPresent: string -> bool,         // std::filesystem::exists
    moduleFileName: string)            // ModuleFileName

  datatype Error = SyntaxError | CommandNotRecognized | WrongNumberOfArguments | DevInstPathTooLong
                 | NotAFullyQualifiedPath | NotAnExecutable | NotOnAVolume

  // ----- Registered commands and their validation -----

  datatype Keyword = AppList | AppReg | AppUnreg | AppClean | InvOff | InvOn | InvState | Cancel
                   | CloakOff | CloakOn | CloakState | CloakToggle
                   | DevAll | DevGaming | DevHide | DevList | DevUnhide | Help | Version

  const DEV_HIDE := "dev-hide"
  const APP_REG := "app-reg"

  /** The table the interpreter is constructed with. */
  function RegisteredCommands(): map<string, Keyword>
  {
    map[
      "app-list" := AppList, "app-reg" := AppReg, "app-unreg" := AppUnreg, "app-clean" := AppClean,
      "inv-off" := InvOff, "inv-on" := InvOn, "inv-state" := InvState, "cancel" := Cancel,
      "cloak-off" := CloakOff, "cloak-on" := CloakOn, "cloak-state" := CloakState, "cloak-toggle" := CloakToggle,
      "dev-all" := DevAll, "dev-gaming" := DevGaming, "dev-hide" := DevHide, "dev-list" := DevList,
      "dev-unhide" := DevUnhide, "help" := Help, "version" := Version
    ]
  }

  function Lookup(p: Platform, text: string): Option<Keyword>
  {
    if text in p.registeredCommands then Some(p.registeredCommands[text]) else None
  }

  const MAX_DEVICE_ID_LEN := 200

  function Validated(p: Platform, keyword: Keyword, args: Args): Option<Error>
  {
    match keyword
    case AppReg | AppUnreg =>
      if |args| != 2 then Some(WrongNumberOfArguments)
      else if p.isRelative(args[1]) then Some(NotAFullyQualifiedPath)
      else if !p.isApplication(args[1]) then Some(NotAnExecutable)
      else if p.fullImageName(args[1]) == "" then Some(NotOnAVolume)
      else None
    case DevHide | DevUnhide =>
      if |args| != 2 then Some(WrongNumberOfArguments)
      else if |args[1]| > MAX_DEVICE_ID_LEN then Some(DevInstPathTooLong)
      else None
    case _ => if |args| == 1 then None else Some(WrongNumberOfArguments)
  }

  /** What the interpreter finds wrong with a command before executing it. */
  function Validate(p: Platform, args: Args): Option<Error>
    requires args != []
  {
    if Lookup(p, args[0]).None? then Some(CommandNotRecognized) else Validated(p, Lookup(p, args[0]).value, args)
  }

  predicate Accepted(p: Platform, args: Args)
  {
    args != [] && Validate(p, args).None?
  }

  // ----- Execution -----

  function AbsentNames(p: Platform, names: set<string>): set<string>
  {
    set n | n in names && !p.isPresent(p.fileName(n))
  }

  function Effect(p: Platform, c: Config, args: Args): Config
    requires Accepted(p, args)
  {
    match Lookup(p, args[0]).value
    case AppReg => c.(whitelist := c.whitelist + {p.fullImageName(args[1])})
    case AppUnreg => c.(whitelist := c.whitelist - {p.fullImageName(args[1])})
    case AppClean => c.(whitelist := c.whitelist - AbsentNames(p, c.whitelist))
    case DevHide => c.(blacklist := c.blacklist + {args[1]})
    case DevUnhide => c.(blacklist := c.blacklist - {args[1]})
    case CloakOn => c.(active := true)
    case CloakOff => c.(active := false)
    case CloakToggle => c.(active := !c.active)
    case InvOn => c.(inverse := true)
    case InvOff => c.(inverse := false)
    case _ => c
  }

  /** `--keyword "entry"` for every entry in turn, one to a line. */
  function Listing(keyword: string, entries: seq<string>): string
  {
    if entries == [] then [] else ListingLine(keyword, entries[0]) + ['\n'] + Listing(keyword, entries[1..])
  }

  function ListingLine(keyword: string, entry: string): string
  {
    "--" + keyword + " " + [QUOTE] + entry + [QUOTE]
  }

  function FileNames(p: Platform, names: seq<string>): seq<string>
  {
    if names == [] then [] else [p.fileName(names[0])] + FileNames(p, names[1..])
  }

  function CloakText(active: bool): string
  {
    (if active then "--cloak-on" else "--cloak-off") + ['\n']
  }

  function InvText(inverse: bool): string
  {
    (if inverse then "--inv-on" else "--inv-off") + ['\n']
  }

  /** What the commands that report part of the configuration print. */
  ghost function Report(p: Platform, c: Config, args: Args): string
    requires Accepted(p, args)
  {
    match Lookup(p, args[0]).value
    case AppList => Listing(APP_REG, FileNames(p, InOrder(c.whitelist)))
    case DevList => Listing(DEV_HIDE, InOrder(c.blacklist))
    case CloakState => CloakText(c.active)
    case InvState => InvText(c.inverse)
    case _ => []
  }

  /** The interpreter between two commands. */
  datatype Session = Session(config: Config, cancel: bool, console: string)

  ghost function Execute(p: Platform, s: Session, args: Args): Session
    requires Accepted(p, args)
  {
    Session(Effect(p, s.config, args),
            s.cancel || Lookup(p, args[0]).value == Cancel,
            s.console + Report(p, s.config, args))
  }

  datatype Outcome = Outcome(session: Session, error: Option<Error>)

  /** ExecuteCommands from the `i`-th command on: the first command refused ends it. */
  ghost function RunCommands(p: Platform, s: Session, commands: seq<Args>, i: nat): Outcome
    requires i <= |commands| && HaveKeywords(commands)
    decreases |commands| - i
  {
    if i == |commands| then Outcome(s, None)
    else if Validate(p, commands[i]).Some? then Outcome(s, Validate(p, commands[i]))
    else RunCommands(p, Execute(p, s, commands[i]), commands, i + 1)
  }

  ghost function RunLine(p: Platform, s: Session, line: string): Outcome
  {
    Totality(p.space, line);
    AlwaysKeywords(p.space, line);
    var r := CommandsOf(p.space, line);
    if r.rest != [] then Outcome(s, Some(SyntaxError)) else RunCommands(p, s, r.result.value, 0)
  }

  // ----- A whole run -----

  /** Interactive: neither arguments nor redirected input; script: redirected input. */
  datatype Mode = Interactive | Script | Arguments

  predicate IsNewline(c: char)
  {
    c == '\n'
  }

  /** std::getline: a line, and the input behind its newline. */
  function GetLine(input: string): (r: Piece)
    ensures input != [] ==> |r.rest| < |input|
  {
    KeywordOf(IsNewline, input)
  }

  /** A line ends at its newline, the last one possibly without. */
  lemma GetLineIsRead(line: string, rest: string)
    requires '\n' !in line
    ensures GetLine(line + ['\n'] + rest) == Piece(line, rest) && GetLine(line) == Piece(line, [])
  {
    var value := line + ['\n'] + rest;
    assert forall j | 0 <= j < |line| :: value[j] == line[j] && line[j] in line;
    FindIs(IsNewline, value, 0, |line|);
    FindIs(IsNewline, line, 0, |line|);
    assert value[..|line|] == line && value[|line| + 1..] == rest;
  }

  datatype Ending = Ending(session: Session, committed: bool)

  /** Start's loop, from the processing of `line` on. */
  ghost function RunFrom(p: Platform, mode: Mode, s: Session, line: string, input: string): Ending
    decreases |input|
  {
    var r := RunLine(p, s, line);
    if (r.error.Some? && mode != Interactive) || r.session.cancel then Ending(r.session, false)
    else if mode != Arguments && input != [] then
      RunFrom(p, mode, r.session, GetLine(input).text, GetLine(input).rest)
    else Ending(r.session, true)
  }

  // ----- Reference: a run that is not interactive takes effect as a whole or not at all -----

  function LinesOf(input: string): seq<string>
    decreases |input|
  {
    if input == [] then [] else [GetLine(input).text] + LinesOf(GetLine(input).rest)
  }

  function LinesRead(mode: Mode, line: string, input: string): seq<string>
  {
    [line] + if mode == Arguments then [] else LinesOf(input)
  }

  /** Every command on the line is one the interpreter accepts, and none of them cancels. */
  predicate Harmless(p: Platform, commands: seq<Args>)
  {
    forall i | 0 <= i < |commands| :: Accepted(p, commands[i]) && Lookup(p, commands[i][0]) != Some(Cancel)
  }

  predicate Commits(p: Platform, line: string)
  {
    var r := CommandsOf(p.space, line);
    r.result.Some? && Harmless(p, r.result.value)
  }

  predicate AllCommit(p: Platform, lines: seq<string>)
  {
    forall i | 0 <= i < |lines| :: Commits(p, lines[i])
  }

  /** All commands of all lines, in order. */
  function Program(p: Platform, lines: seq<string>): seq<Args>
  {
    if lines == [] then []
    else CommandsOf(p.space, lines[0]).result.GetOr([]) + Program(p, lines[1..])
  }

  function EffectIfAccepted(p: Platform, c: Config, args: Args): Config
  {
    if Accepted(p, args) then Effect(p, c, args) else c
  }

  function Effects(p: Platform, c: Config, program: seq<Args>): Config
    decreases |program|
  {
    if program == [] then c else Effects(p, EffectIfAccepted(p, c, program[0]), program[1..])
  }

  lemma {:induction false} EffectsConcat(p: Platform, c: Config, a: seq<Args>, b: seq<Args>)
    ensures Effects(p, c, a + b) == Effects(p, Effects(p, c, a), b)
    decreases |a|
  {
    if a == [] {
      EmptyLeft(b);
    } else {
      TailOfConcat(a, b);
      EffectsConcat(p, EffectIfAccepted(p, c, a[0]), a[1..], b);
    }
  }

  lemma OneEffect(p: Platform, c: Config, args: Args)
    ensures Effects(p, c, [args]) == EffectIfAccepted(p, c, args)
  {
    TailOfCons(args, []);
    EmptyRight([args]);
  }

  lemma HarmlessFrom(p: Platform, commands: seq<Args>, i: nat)
    requires i < |commands|
    ensures Harmless(p, commands[i..]) <==>
            Accepted(p, commands[i]) && Lookup(p, commands[i][0]) != Some(Cancel) && Harmless(p, commands[i + 1..])
    ensures commands[i..][0] == commands[i] && commands[i..][1..] == commands[i + 1..]
  {
    var now, rest := commands[i..], commands[i + 1..];
    assert now == [commands[i]] + rest;
    assert forall k | 0 <= k < |rest| :: rest[k] == now[k + 1];
  }

  lemma {:induction false} CommandsTransaction(p: Platform, s: Session, commands: seq<Args>, i: nat)
    requires i <= |commands| && HaveKeywords(commands)
    ensures var r := RunCommands(p, s, commands, i);
      && (s.cancel ==> r.session.cancel)
      && (r.error.None? && !r.session.cancel <==> !s.cancel && Harmless(p, commands[i..]))
      && (r.error.None? ==> r.session.config == Effects(p, s.config, commands[i..]))
    decreases |commands| - i
  {
    if i < |commands| {
      HarmlessFrom(p, commands, i);
      if Accepted(p, commands[i]) {
        CommandsTransaction(p, Execute(p, s, commands[i]), commands, i + 1);
      }
    }
  }

  lemma LineTransaction(p: Platform, s: Session, line: string)
    ensures var r := RunLine(p, s, line);
      && (r.error.None? && !r.session.cancel <==> !s.cancel && Commits(p, line))
      && (r.error.None? ==>
            r.session.config == Effects(p, s.config, CommandsOf(p.space, line).result.GetOr([])))
  {
    Totality(p.space, line);
    AlwaysKeywords(p.space, line);
    var r := CommandsOf(p.space, line);
    if r.rest == [] {
      CommandsTransaction(p, s, r.result.value, 0);
      assert r.result.value[0..] == r.result.value;
    }
  }

  lemma AllCommitFrom(p: Platform, line: string, lines: seq<string>)
    ensures AllCommit(p, [line] + lines) <==> Commits(p, line) && AllCommit(p, lines)
    ensures Program(p, [line] + lines) == CommandsOf(p.space, line).result.GetOr([]) + Program(p, lines)
  {
    TailOfCons(line, lines);
    assert forall k | 0 <= k < |lines| :: lines[k] == ([line] + lines)[k + 1];
  }

  /** A run that is not interactive commits exactly when every line parses, every command on every
      line is accepted, and none cancels; what it commits is the effect of all of them in order. */
  lemma {:induction false} Transaction(p: Platform, mode: Mode, s: Session, line: string, input: string)
    requires mode != Interactive && !s.cancel
    ensures var r, lines := RunFrom(p, mode, s, line, input), LinesRead(mode, line, input);
      && (r.committed <==> AllCommit(p, lines))
      && (r.committed ==> r.session.config == Effects(p, s.config, Program(p, lines)))
    decreases |input|
  {
    var rest := if mode == Arguments then [] else LinesOf(input);
    var r := RunLine(p, s, line);
    LineTransaction(p, s, line);
    AllCommitFrom(p, line, rest);
    EffectsConcat(p, s.config, CommandsOf(p.space, line).result.GetOr([]), Program(p, rest));
    if r.error.None? && !r.session.cancel && mode != Arguments && input != [] {
      Transaction(p, mode, r.session, GetLine(input).text, GetLine(input).rest);
    }
  }

  /** A run from arguments alone never looks at standard input. */
  lemma ArgumentsIgnoreInput(p: Platform, s: Session, line: string, input: string)
    ensures RunFrom(p, Arguments, s, line, input) == RunFrom(p, Arguments, s, line, [])
    ensures Counting(p, Arguments, line, input) == Counting(p, Arguments, line, [])
  {
  }

  // ----- Reference: an interactive session loses only what follows a refused command on its line -----

  function AcceptedPrefix(p: Platform, commands: seq<Args>, i: nat): seq<Args>
    requires i <= |commands|
    decreases |commands| - i
  {
    if i == |commands| || !Accepted(p, commands[i]) then []
    else [commands[i]] + AcceptedPrefix(p, commands, i + 1)
  }

  function Executed(p: Platform, lines: seq<string>): seq<Args>
  {
    if lines == [] then []
    else AcceptedPrefix(p, CommandsOf(p.space, lines[0]).result.GetOr([]), 0) + Executed(p, lines[1..])
  }

  predicate Cancels(p: Platform, program: seq<Args>)
  {
    program != [] && ((program[0] != [] && Lookup(p, program[0][0]) == Some(Cancel)) || Cancels(p, program[1..]))
  }

  lemma {:induction false} CancelsConcat(p: Platform, a: seq<Args>, b: seq<Args>)
    ensures Cancels(p, a + b) <==> Cancels(p, a) || Cancels(p, b)
  {
    if a == [] {
      EmptyLeft(b);
    } else {
      TailOfConcat(a, b);
      CancelsConcat(p, a[1..], b);
    }
  }

  lemma {:induction false} CommandsExecuted(p: Platform, s: Session, commands: seq<Args>, i: nat)
    requires i <= |commands| && HaveKeywords(commands)
    ensures var r, done := RunCommands(p, s, commands, i), AcceptedPrefix(p, commands, i);
      && r.session.config == Effects(p, s.config, done)
      && (r.session.cancel <==> s.cancel || Cancels(p, done))
    decreases |commands| - i
  {
    if i < |commands| && Accepted(p, commands[i]) {
      CommandsExecuted(p, Execute(p, s, commands[i]), commands, i + 1);
      TailOfCons(commands[i], AcceptedPrefix(p, commands, i + 1));
    }
  }

  lemma LineExecuted(p: Platform, s: Session, line: string)
    ensures var r, done := RunLine(p, s, line), AcceptedPrefix(p, CommandsOf(p.space, line).result.GetOr([]), 0);
      && r.session.config == Effects(p, s.config, done)
      && (r.session.cancel <==> s.cancel || Cancels(p, done))
  {
    Totality(p.space, line);
    AlwaysKeywords(p.space, line);
    var r := CommandsOf(p.space, line);
    if r.rest == [] { CommandsExecuted(p, s, r.result.value, 0); }
  }

  /** It commits unless a cancel was executed, and then every executed command takes effect. */
  lemma {:induction false} InteractiveSession(p: Platform, s: Session, line: string, input: string)
    requires !s.cancel
    ensures var r, done := RunFrom(p, Interactive, s, line, input), Executed(p, [line] + LinesOf(input));
      && (r.committed <==> !Cancels(p, done))
      && (r.committed ==> r.session.config == Effects(p, s.config, done))
    decreases |input|
  {
    var done, rest := AcceptedPrefix(p, CommandsOf(p.space, line).result.GetOr([]), 0), Executed(p, LinesOf(input));
    var r := RunLine(p, s, line);
    LineExecuted(p, s, line);
    TailOfCons(line, LinesOf(input));
    EffectsConcat(p, s.config, done, rest);
    CancelsConcat(p, done, rest);
    if !r.session.cancel && input != [] {
      InteractiveSession(p, r.session, GetLine(input).text, GetLine(input).rest);
    }
  }

  /** The commands of a whole run that take effect, None if it takes all of them back. */
  function Counting(p: Platform, mode: Mode, line: string, input: string): Option<seq<Args>>
  {
    if mode == Interactive then
      var done := Executed(p, [line] + LinesOf(input));
      if Cancels(p, done) then None else Some(done)
    else
      var lines := LinesRead(mode, line, input);
      if AllCommit(p, lines) then Some(Program(p, lines)) else None
  }

  /** What a whole run makes of the configuration `c`, by its lines alone. */
  function Final(p: Platform, mode: Mode, c: Config, line: string, input: string): Config
  {
    match Counting(p, mode, line, input)
    case None => c
    case Some(program) => Effects(p, c, program)
  }
}
