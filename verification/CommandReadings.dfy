/** What a run of commands leaves, read off the words typed: a second account of HidHideCLI/src/Commands.cpp
    that looks only at which words came last, how often, and with which operand. */
module CommandReadings {
  import opened Names
  import opened Seqs
  import opened CliParsing
  import opened ConfigStore
  import opened Commands

  // ----- Words -----

  predicate Says(args: Args, word: string)
  {
    args != [] && args[0] == word
  }

  predicate SaysOf(args: Args, word: string, operand: string)
  {
    |args| == 2 && args[0] == word && args[1] == operand
  }

  /** The table maps each word to its handler, and no other word to it. */
  lemma WordsAreRegistered(p: Platform, text: string)
    requires p.registeredCommands == RegisteredCommands()
    ensures Lookup(p, text) == Some(CloakOn) <==> text == "cloak-on"
    ensures Lookup(p, text) == Some(CloakOff) <==> text == "cloak-off"
    ensures Lookup(p, text) == Some(CloakToggle) <==> text == "cloak-toggle"
    ensures Lookup(p, text) == Some(InvOn) <==> text == "inv-on"
    ensures Lookup(p, text) == Some(InvOff) <==> text == "inv-off"
    ensures Lookup(p, text) == Some(Cancel) <==> text == "cancel"
  {
  }

  lemma ListWordsAreRegistered(p: Platform, text: string)
    requires p.registeredCommands == RegisteredCommands()
    ensures Lookup(p, text) == Some(DevHide) <==> text == "dev-hide"
    ensures Lookup(p, text) == Some(DevUnhide) <==> text == "dev-unhide"
    ensures Lookup(p, text) == Some(AppReg) <==> text == "app-reg"
    ensures Lookup(p, text) == Some(AppUnreg) <==> text == "app-unreg"
    ensures Lookup(p, text) == Some(AppClean) <==> text == "app-clean"
  {
  }

  lemma ReportWordsAreRegistered(p: Platform, text: string)
    requires p.registeredCommands == RegisteredCommands()
    ensures Lookup(p, text) == Some(AppList) <==> text == "app-list"
    ensures Lookup(p, text) == Some(DevList) <==> text == "dev-list"
    ensures Lookup(p, text) == Some(CloakState) <==> text == "cloak-state"
    ensures Lookup(p, text) == Some(InvState) <==> text == "inv-state"
    ensures Lookup(p, text) == Some(DevAll) <==> text == "dev-all"
    ensures Lookup(p, text) == Some(DevGaming) <==> text == "dev-gaming"
    ensures Lookup(p, text) == Some(Help) <==> text == "help"
    ensures Lookup(p, text) == Some(Version) <==> text == "version"
  {
  }

  // ----- Which commands are accepted -----

  predicate ListWord(word: string)
  {
    word == "dev-hide" || word == "dev-unhide"
  }

  predicate ApplicationWord(word: string)
  {
    word == "app-reg" || word == "app-unreg"
  }

  predicate LoneWord(word: string)
  {
    || word == "app-list" || word == "app-clean" || word == "inv-off" || word == "inv-on" || word == "inv-state"
    || word == "cancel" || word == "cloak-off" || word == "cloak-on" || word == "cloak-state" || word == "cloak-toggle"
    || word == "dev-all" || word == "dev-gaming" || word == "dev-list" || word == "help" || word == "version"
  }

  lemma WordKinds(p: Platform, word: string)
    requires p.registeredCommands == RegisteredCommands()
    ensures Lookup(p, word) == None <==> !LoneWord(word) && !ListWord(word) && !ApplicationWord(word)
    ensures Lookup(p, word) in {Some(DevHide), Some(DevUnhide)} <==> ListWord(word)
    ensures Lookup(p, word) in {Some(AppReg), Some(AppUnreg)} <==> ApplicationWord(word)
    ensures LoneWord(word) ==> !ListWord(word) && !ApplicationWord(word)
  {
    WordsAreRegistered(p, word);
    ListWordsAreRegistered(p, word);
    ReportWordsAreRegistered(p, word);
  }

  /** A known word alone, a device path of at most 200 characters behind a device word, or an absolute
      path of an executable on a volume behind an application word; nothing else. */
  lemma AcceptedForms(p: Platform, args: Args)
    requires p.registeredCommands == RegisteredCommands()
    ensures Accepted(p, args) <==>
      || (|args| == 1 && LoneWord(args[0]))
      || (|args| == 2 && ListWord(args[0]) && |args[1]| <= 200)
      || (|args| == 2 && ApplicationWord(args[0]) && !p.isRelative(args[1]) && p.isApplication(args[1])
          && p.fullImageName(args[1]) != "")
  {
    if args != [] {
      WordKinds(p, args[0]);
    }
  }

  // ----- What the words leave -----

  /** The position just after the last of the first `n` commands that says one of two words; zero if none. */
  function LastSaid(program: seq<Args>, one: string, other: string, n: nat): (last: nat)
    requires n <= |program|
    ensures last <= n
  {
    if n == 0 then 0
    else if Says(program[n - 1], one) || Says(program[n - 1], other) then n
    else LastSaid(program, one, other, n - 1)
  }

  function Count(program: seq<Args>, word: string, first: nat, n: nat): nat
    requires first <= n <= |program|
    decreases n
  {
    if n == first then 0
    else Count(program, word, first, n - 1) + (if Says(program[n - 1], word) then 1 else 0)
  }

  /** The last of `on` and `off`, turned over by every `toggle` behind it. */
  predicate Switched(was: bool, program: seq<Args>, on: string, off: string, toggle: string, n: nat)
    requires n <= |program|
  {
    var last := LastSaid(program, on, off, n);
    (if last == 0 then was else Says(program[last - 1], on)) != (Count(program, toggle, last, n) % 2 == 1)
  }

  /** The last of `on` and `off`. */
  predicate Set(was: bool, program: seq<Args>, on: string, off: string, n: nat)
    requires n <= |program|
  {
    var last := LastSaid(program, on, off, n);
    if last == 0 then was else Says(program[last - 1], on)
  }

  lemma SwitchedNext(was: bool, program: seq<Args>, on: string, off: string, toggle: string, n: nat)
    requires n < |program| && on != toggle && off != toggle
    ensures Switched(was, program, on, off, toggle, n + 1) ==
            if Says(program[n], on) then true else if Says(program[n], off) then false
            else if Says(program[n], toggle) then !Switched(was, program, on, off, toggle, n)
            else Switched(was, program, on, off, toggle, n)
  {
    var last := LastSaid(program, on, off, n + 1);
    if last == n + 1 {
      assert Count(program, toggle, last, n + 1) == 0;
    } else {
      assert Count(program, toggle, last, n + 1)
          == Count(program, toggle, last, n) + if Says(program[n], toggle) then 1 else 0;
    }
  }

  /** Put and not taken since, or there and never taken. */
  ghost predicate Stands(was: bool, program: seq<Args>, n: nat, puts: Args -> bool, takes: Args -> bool)
    requires n <= |program|
  {
    || (was && forall k | 0 <= k < n :: !takes(program[k]))
    || exists i | 0 <= i < n :: puts(program[i]) && forall k | i < k < n :: !takes(program[k])
  }

  lemma StandsNext(was: bool, program: seq<Args>, n: nat, puts: Args -> bool, takes: Args -> bool)
    requires n < |program|
    ensures Stands(was, program, n + 1, puts, takes) <==>
            puts(program[n]) || (Stands(was, program, n, puts, takes) && !takes(program[n]))
  {
    if Stands(was, program, n, puts, takes) && !takes(program[n]) {
      if exists i :: 0 <= i < n && puts(program[i]) && forall k | i < k < n :: !takes(program[k]) {
        var i :| 0 <= i < n && puts(program[i]) && forall k | i < k < n :: !takes(program[k]);
        assert forall k | i < k < n + 1 :: !takes(program[k]);
      }
    }
  }

  ghost predicate BlacklistHolds(was: bool, program: seq<Args>, n: nat, adding: string, taking: string, x: string)
    requires n <= |program|
  {
    Stands(was, program, n, (a: Args) => SaysOf(a, adding, x), (a: Args) => SaysOf(a, taking, x))
  }

  predicate NamesImage(p: Platform, args: Args, word: string, x: string)
  {
    |args| == 2 && args[0] == word && p.fullImageName(args[1]) == x
  }

  predicate Removes(p: Platform, args: Args, unreg: string, clean: string, x: string)
  {
    NamesImage(p, args, unreg, x) || (Says(args, clean) && !p.isPresent(p.fileName(x)))
  }

  ghost predicate WhitelistHolds(p: Platform, was: bool, program: seq<Args>, n: nat, reg: string, unreg: string, clean: string, x: string)
    requires n <= |program|
  {
    Stands(was, program, n, (a: Args) => NamesImage(p, a, reg, x), (a: Args) => Removes(p, a, unreg, clean, x))
  }

  /** The configuration `f` is what the words of `program` leave of `c`. */
  ghost predicate Leaves(p: Platform, c: Config, program: seq<Args>, f: Config)
  {
    var n := |program|;
    && f.active == Switched(c.active, program, "cloak-on", "cloak-off", "cloak-toggle", n)
    && f.inverse == Set(c.inverse, program, "inv-on", "inv-off", n)
    && (forall x :: x in f.blacklist <==> BlacklistHolds(x in c.blacklist, program, n, "dev-hide", "dev-unhide", x))
    && (forall x :: x in f.whitelist <==>
          WhitelistHolds(p, x in c.whitelist, program, n, "app-reg", "app-unreg", "app-clean", x))
  }

  // ----- One command -----

  lemma FlagsAfterOne(p: Platform, c: Config, args: Args)
    requires p.registeredCommands == RegisteredCommands() && Accepted(p, args)
    ensures Effect(p, c, args).active ==
            if Says(args, "cloak-on") then true else if Says(args, "cloak-off") then false
            else if Says(args, "cloak-toggle") then !c.active else c.active
    ensures Effect(p, c, args).inverse ==
            if Says(args, "inv-on") then true else if Says(args, "inv-off") then false else c.inverse
  {
    WordsAreRegistered(p, args[0]);
  }

  lemma ListsAfterOne(p: Platform, c: Config, args: Args, x: string)
    requires p.registeredCommands == RegisteredCommands() && Accepted(p, args)
    ensures x in Effect(p, c, args).blacklist <==>
            SaysOf(args, "dev-hide", x) || (x in c.blacklist && !SaysOf(args, "dev-unhide", x))
    ensures x in Effect(p, c, args).whitelist <==>
            NamesImage(p, args, "app-reg", x) || (x in c.whitelist && !Removes(p, args, "app-unreg", "app-clean", x))
  {
    ListWordsAreRegistered(p, args[0]);
  }

  // ----- Any number of them -----

  function EffectsUpTo(p: Platform, c: Config, program: seq<Args>, n: nat): Config
    requires n <= |program|
  {
    if n == 0 then c else EffectIfAccepted(p, EffectsUpTo(p, c, program, n - 1), program[n - 1])
  }

  lemma {:induction false} EffectsUpToIs(p: Platform, c: Config, program: seq<Args>, n: nat)
    requires n <= |program|
    ensures Effects(p, c, program[..n]) == EffectsUpTo(p, c, program, n)
  {
    if n != 0 {
      EffectsUpToIs(p, c, program, n - 1);
      assert program[..n] == program[..n - 1] + [program[n - 1]];
      EffectsConcat(p, c, program[..n - 1], [program[n - 1]]);
      OneEffect(p, EffectsUpTo(p, c, program, n - 1), program[n - 1]);
    }
  }

  predicate AllAccepted(p: Platform, program: seq<Args>)
  {
    forall i | 0 <= i < |program| :: Accepted(p, program[i])
  }

  lemma {:induction false} ActiveRead(p: Platform, c: Config, program: seq<Args>, n: nat,
                                      on: string, off: string, toggle: string)
    requires n <= |program| && AllAccepted(p, program) && on != toggle && off != toggle
    requires forall d: Config, args: Args | Accepted(p, args) ::
      Effect(p, d, args).active == if Says(args, on) then true else if Says(args, off) then false
                                   else if Says(args, toggle) then !d.active else d.active
    ensures EffectsUpTo(p, c, program, n).active == Switched(c.active, program, on, off, toggle, n)
  {
    if n != 0 {
      ActiveRead(p, c, program, n - 1, on, off, toggle);
      SwitchedNext(c.active, program, on, off, toggle, n - 1);
    }
  }

  lemma {:induction false} InverseRead(p: Platform, c: Config, program: seq<Args>, n: nat, on: string, off: string)
    requires n <= |program| && AllAccepted(p, program)
    requires forall d: Config, args: Args | Accepted(p, args) ::
      Effect(p, d, args).inverse == if Says(args, on) then true else if Says(args, off) then false else d.inverse
    ensures EffectsUpTo(p, c, program, n).inverse == Set(c.inverse, program, on, off, n)
  {
    if n != 0 {
      InverseRead(p, c, program, n - 1, on, off);
    }
  }

  lemma FlagsRead(p: Platform, c: Config, program: seq<Args>, n: nat)
    requires p.registeredCommands == RegisteredCommands() && AllAccepted(p, program) && n <= |program|
    ensures var f := EffectsUpTo(p, c, program, n);
      && f.active == Switched(c.active, program, "cloak-on", "cloak-off", "cloak-toggle", n)
      && f.inverse == Set(c.inverse, program, "inv-on", "inv-off", n)
  {
    forall d: Config, args: Args | Accepted(p, args)
      ensures Effect(p, d, args).active ==
              if Says(args, "cloak-on") then true else if Says(args, "cloak-off") then false
              else if Says(args, "cloak-toggle") then !d.active else d.active
      ensures Effect(p, d, args).inverse ==
              if Says(args, "inv-on") then true else if Says(args, "inv-off") then false else d.inverse
    {
      FlagsAfterOne(p, d, args);
    }
    assert |"cloak-toggle"| > |"cloak-off"| && |"cloak-toggle"| > |"cloak-on"|;
    ActiveRead(p, c, program, n, "cloak-on", "cloak-off", "cloak-toggle");
    InverseRead(p, c, program, n, "inv-on", "inv-off");
  }

  lemma {:induction false} BlacklistRead(p: Platform, c: Config, program: seq<Args>, n: nat, x: string,
                                         adding: string, taking: string)
    requires n <= |program| && AllAccepted(p, program)
    requires forall d: Config, args: Args | Accepted(p, args) ::
      x in Effect(p, d, args).blacklist <==> SaysOf(args, adding, x) || (x in d.blacklist && !SaysOf(args, taking, x))
    ensures x in EffectsUpTo(p, c, program, n).blacklist <==>
            BlacklistHolds(x in c.blacklist, program, n, adding, taking, x)
  {
    if n != 0 {
      BlacklistRead(p, c, program, n - 1, x, adding, taking);
      BlacklistNext(x in c.blacklist, program, n - 1, adding, taking, x);
    }
  }

  lemma BlacklistNext(was: bool, program: seq<Args>, n: nat, adding: string, taking: string, x: string)
    requires n < |program|
    ensures BlacklistHolds(was, program, n + 1, adding, taking, x) <==>
            || SaysOf(program[n], adding, x)
            || (BlacklistHolds(was, program, n, adding, taking, x) && !SaysOf(program[n], taking, x))
  {
    StandsNext(was, program, n, (a: Args) => SaysOf(a, adding, x), (a: Args) => SaysOf(a, taking, x));
  }

  lemma {:induction false} WhitelistRead(p: Platform, c: Config, program: seq<Args>, n: nat, x: string,
                                         reg: string, unreg: string, clean: string)
    requires n <= |program| && AllAccepted(p, program)
    requires forall d: Config, args: Args | Accepted(p, args) ::
      x in Effect(p, d, args).whitelist <==>
      NamesImage(p, args, reg, x) || (x in d.whitelist && !Removes(p, args, unreg, clean, x))
    ensures x in EffectsUpTo(p, c, program, n).whitelist <==>
            WhitelistHolds(p, x in c.whitelist, program, n, reg, unreg, clean, x)
  {
    if n != 0 {
      WhitelistRead(p, c, program, n - 1, x, reg, unreg, clean);
      WhitelistNext(p, x in c.whitelist, program, n - 1, reg, unreg, clean, x);
    }
  }

  lemma WhitelistNext(p: Platform, was: bool, program: seq<Args>, n: nat, reg: string, unreg: string, clean: string, x: string)
    requires n < |program|
    ensures WhitelistHolds(p, was, program, n + 1, reg, unreg, clean, x) <==>
            || NamesImage(p, program[n], reg, x)
            || (WhitelistHolds(p, was, program, n, reg, unreg, clean, x) && !Removes(p, program[n], unreg, clean, x))
  {
    StandsNext(was, program, n, (a: Args) => NamesImage(p, a, reg, x), (a: Args) => Removes(p, a, unreg, clean, x));
  }

  lemma ListsRead(p: Platform, c: Config, program: seq<Args>, n: nat, x: string)
    requires p.registeredCommands == RegisteredCommands() && AllAccepted(p, program) && n <= |program|
    ensures x in EffectsUpTo(p, c, program, n).blacklist <==>
            BlacklistHolds(x in c.blacklist, program, n, "dev-hide", "dev-unhide", x)
    ensures x in EffectsUpTo(p, c, program, n).whitelist <==>
            WhitelistHolds(p, x in c.whitelist, program, n, "app-reg", "app-unreg", "app-clean", x)
  {
    forall d: Config, args: Args | Accepted(p, args)
      ensures x in Effect(p, d, args).blacklist <==>
              SaysOf(args, "dev-hide", x) || (x in d.blacklist && !SaysOf(args, "dev-unhide", x))
      ensures x in Effect(p, d, args).whitelist <==>
              NamesImage(p, args, "app-reg", x) || (x in d.whitelist && !Removes(p, args, "app-unreg", "app-clean", x))
    {
      ListsAfterOne(p, d, args, x);
    }
    BlacklistRead(p, c, program, n, x, "dev-hide", "dev-unhide");
    WhitelistRead(p, c, program, n, x, "app-reg", "app-unreg", "app-clean");
  }

  /** The two accounts agree: what commands do one by one is what their words leave. */
  lemma EffectsAreRead(p: Platform, c: Config, program: seq<Args>)
    requires p.registeredCommands == RegisteredCommands() && AllAccepted(p, program)
    ensures Leaves(p, c, program, Effects(p, c, program))
  {
    var n := |program|;
    assert program[..n] == program;
    EffectsUpToIs(p, c, program, n);
    FlagsRead(p, c, program, n);
    forall x
      ensures x in Effects(p, c, program).blacklist <==>
              BlacklistHolds(x in c.blacklist, program, n, "dev-hide", "dev-unhide", x)
      ensures x in Effects(p, c, program).whitelist <==>
              WhitelistHolds(p, x in c.whitelist, program, n, "app-reg", "app-unreg", "app-clean", x)
    {
      ListsRead(p, c, program, n, x);
    }
  }

  // ----- Whole runs -----

  lemma AcceptedConcat(p: Platform, a: seq<Args>, b: seq<Args>)
    requires AllAccepted(p, a) && AllAccepted(p, b)
    ensures AllAccepted(p, a + b)
  {
  }

  lemma {:induction false} ProgramAccepted(p: Platform, lines: seq<string>)
    requires AllCommit(p, lines)
    ensures AllAccepted(p, Program(p, lines))
  {
    if lines != [] {
      var commands := CommandsOf(p.space, lines[0]).result.GetOr([]);
      assert Commits(p, lines[0]);
      ProgramAccepted(p, lines[1..]);
      AcceptedConcat(p, commands, Program(p, lines[1..]));
    }
  }

  lemma {:induction false} PrefixAccepted(p: Platform, commands: seq<Args>, i: nat)
    requires i <= |commands|
    ensures AllAccepted(p, AcceptedPrefix(p, commands, i))
    decreases |commands| - i
  {
    if i < |commands| && Accepted(p, commands[i]) {
      PrefixAccepted(p, commands, i + 1);
      AcceptedConcat(p, [commands[i]], AcceptedPrefix(p, commands, i + 1));
    }
  }

  lemma {:induction false} ExecutedAccepted(p: Platform, lines: seq<string>)
    ensures AllAccepted(p, Executed(p, lines))
  {
    if lines != [] {
      var commands := CommandsOf(p.space, lines[0]).result.GetOr([]);
      PrefixAccepted(p, commands, 0);
      ExecutedAccepted(p, lines[1..]);
      AcceptedConcat(p, AcceptedPrefix(p, commands, 0), Executed(p, lines[1..]));
    }
  }

  /** A run leaves what the words of its counting commands leave, or everything as it was. */
  lemma FinalIsRead(p: Platform, mode: Mode, c: Config, line: string, input: string)
    requires p.registeredCommands == RegisteredCommands()
    ensures match Counting(p, mode, line, input)
            case None => Final(p, mode, c, line, input) == c
            case Some(program) => Leaves(p, c, program, Final(p, mode, c, line, input))
  {
    if Counting(p, mode, line, input).Some? {
      if mode == Interactive {
        ExecutedAccepted(p, [line] + LinesOf(input));
      } else {
        ProgramAccepted(p, LinesRead(mode, line, input));
      }
      EffectsAreRead(p, c, Counting(p, mode, line, input).value);
    }
  }

  /** A line commits if it parses, each of its commands is accepted, and none says cancel. */
  lemma CommitsIsRead(p: Platform, line: string)
    requires p.registeredCommands == RegisteredCommands()
    ensures Commits(p, line) <==>
            var r := CommandsOf(p.space, line).result;
            r.Some? && forall i | 0 <= i < |r.value| :: Accepted(p, r.value[i]) && !Says(r.value[i], "cancel")
  {
    var commands := CommandsOf(p.space, line).result.GetOr([]);
    forall i | 0 <= i < |commands| && commands[i] != []
      ensures Lookup(p, commands[i][0]) == Some(Cancel) <==> Says(commands[i], "cancel")
    {
      WordsAreRegistered(p, commands[i][0]);
    }
  }

  lemma {:induction false} CancelsIsRead(p: Platform, program: seq<Args>)
    requires p.registeredCommands == RegisteredCommands()
    ensures Cancels(p, program) <==> exists i | 0 <= i < |program| :: Says(program[i], "cancel")
  {
    if program != [] {
      if program[0] != [] { WordsAreRegistered(p, program[0][0]); }
      CancelsIsRead(p, program[1..]);
      if i :| 0 <= i < |program[1..]| && Says(program[1..][i], "cancel") {
        assert Says(program[i + 1], "cancel");
      }
      if i :| 0 < i < |program| && Says(program[i], "cancel") {
        assert Says(program[1..][i - 1], "cancel");
      }
    }
  }

  // ----- What the reporting commands print -----

  /** The state commands print the command that brings their state about again. */
  lemma StateIsReplayed(p: Platform, c: Config, state: bool)
    requires p.registeredCommands == RegisteredCommands()
    ensures CloakText(state) == (if state then "--cloak-on" else "--cloak-off") + ['\n']
    ensures InvText(state) == (if state then "--inv-on" else "--inv-off") + ['\n']
    ensures Effect(p, c, [if state then "cloak-on" else "cloak-off"]) == c.(active := state)
    ensures Effect(p, c, [if state then "inv-on" else "inv-off"]) == c.(inverse := state)
  {
    WordsAreRegistered(p, if state then "cloak-on" else "cloak-off");
    WordsAreRegistered(p, if state then "inv-on" else "inv-off");
  }

  /** One line per entry: the word that puts it there again, and the entry in quotes. */
  lemma ListingIsRead(word: string, entry: string, rest: seq<string>)
    ensures Listing(word, []) == ""
    ensures Listing(word, [entry] + rest) == "--" + word + " \"" + entry + "\"\n" + Listing(word, rest)
  {
    TailOfCons(entry, rest);
    assert ListingLine(word, entry) + ['\n'] == "--" + word + " \"" + entry + "\"\n";
  }

  /** Which command prints what: the lists in order, the states, and nothing else. */
  lemma ReportsAreRead(p: Platform, c: Config, args: Args)
    requires p.registeredCommands == RegisteredCommands() && Accepted(p, args)
    ensures Says(args, "app-list") ==> Report(p, c, args) == Listing("app-reg", FileNames(p, InOrder(c.whitelist)))
    ensures Says(args, "dev-list") ==> Report(p, c, args) == Listing("dev-hide", InOrder(c.blacklist))
    ensures Says(args, "cloak-state") ==> Report(p, c, args) == CloakText(c.active)
    ensures Says(args, "inv-state") ==> Report(p, c, args) == InvText(c.inverse)
    ensures !Says(args, "app-list") && !Says(args, "dev-list") && !Says(args, "cloak-state") && !Says(args, "inv-state")
            ==> Report(p, c, args) == ""
  {
    ReportWordsAreRegistered(p, args[0]);
  }

  // ----- What is wrong with a command that is refused -----

  lemma ErrorsAreRead(p: Platform, args: Args)
    requires p.registeredCommands == RegisteredCommands() && args != []
    ensures var error, word := Validate(p, args), args[0];
      && (error == Some(CommandNotRecognized) <==> !LoneWord(word) && !ListWord(word) && !ApplicationWord(word))
      && (error == Some(WrongNumberOfArguments) <==>
            (LoneWord(word) && |args| != 1) || ((ListWord(word) || ApplicationWord(word)) && |args| != 2))
      && (error == Some(DevInstPathTooLong) <==> ListWord(word) && |args| == 2 && |args[1]| > 200)
      && (error == Some(NotAFullyQualifiedPath) <==> ApplicationWord(word) && |args| == 2 && p.isRelative(args[1]))
      && (error == Some(NotAnExecutable) <==>
            ApplicationWord(word) && |args| == 2 && !p.isRelative(args[1]) && !p.isApplication(args[1]))
      && (error == Some(NotOnAVolume) <==>
            && ApplicationWord(word) && |args| == 2 && !p.isRelative(args[1]) && p.isApplication(args[1])
            && p.fullImageName(args[1]) == "")
  {
    WordKinds(p, args[0]);
  }
}
