/** What the command-line parser makes of a printed command line, whatever white space separates
    its tokens. */
module CliRoundTrip {
  import opened Names
  import opened Seqs
  import opened CliParsing

  /** The parser leaves nothing behind exactly when it found no syntax error. */
  lemma {:induction false} Totality(space: char -> bool, value: string)
    ensures CommandsOf(space, value).rest == [] <==> CommandsOf(space, value).result.Some?
    decreases |value|
  {
    var v := Trimmed(space, value);
    if v != [] && CommandOf(space, v).result.Some? { Totality(space, CommandOf(space, v).rest); }
  }

  predicate HaveKeywords(commands: seq<Args>)
  {
    forall k | 0 <= k < |commands| :: commands[k] != []
  }

  /** Every command it returns has a keyword, so looking a command's first word up cannot fail. */
  lemma {:induction false} AlwaysKeywords(space: char -> bool, value: string)
    ensures HaveKeywords(CommandsOf(space, value).result.GetOr([]))
    decreases |value|
  {
    var v := Trimmed(space, value);
    if v != [] && CommandOf(space, v).result.Some? { AlwaysKeywords(space, CommandOf(space, v).rest); }
  }

  // ----- Printed command lines -----

  /** The classes of characters the parser keeps apart. */
  ghost predicate Classifies(space: char -> bool)
  {
    !space('"') && !space('-')
  }

  ghost predicate Blank(space: char -> bool, gap: string)
  {
    forall i | 0 <= i < |gap| :: space(gap[i])
  }

  /** An argument or a command as written, with the white space before it.  An argument stands in
      double quotes or bare. */
  datatype Argument = Argument(gap: string, text: string, quoted: bool)
  datatype Command = Command(gap: string, keyword: string, args: seq<Argument>)

  function Quoted(text: string): string
  {
    ['"'] + text + ['"']
  }

  function Shown(a: Argument): string
  {
    if a.quoted then Quoted(a.text) else a.text
  }

  function ArgsText(args: seq<Argument>, tail: string): string
  {
    if args == [] then tail else args[0].gap + (Shown(args[0]) + ArgsText(args[1..], tail))
  }

  function CommandBody(c: Command, tail: string): string
  {
    "--" + (c.keyword + ArgsText(c.args, tail))
  }

  function CommandsText(cs: seq<Command>): string
  {
    if cs == [] then [] else cs[0].gap + CommandBody(cs[0], CommandsText(cs[1..]))
  }

  /** A word that needs no quotes. */
  ghost predicate Bare(space: char -> bool, text: string)
  {
    && text != [] && text[0] != '"' && !(|text| >= 2 && text[0] == '-' && text[1] == '-')
    && forall i | 0 <= i < |text| :: !space(text[i])
  }

  ghost predicate ProperArg(space: char -> bool, a: Argument)
  {
    a.gap != [] && Blank(space, a.gap) && if a.quoted then '"' !in a.text else Bare(space, a.text)
  }

  ghost predicate ProperArgs(space: char -> bool, args: seq<Argument>)
  {
    forall i | 0 <= i < |args| :: ProperArg(space, args[i])
  }

  ghost predicate ProperCommand(space: char -> bool, c: Command)
  {
    Blank(space, c.gap) && ProperArgs(space, c.args) && forall i | 0 <= i < |c.keyword| :: !space(c.keyword[i])
  }

  /** White space separates the tokens; before the first of them there may be none. */
  ghost predicate Proper(space: char -> bool, cs: seq<Command>)
  {
    forall i | 0 <= i < |cs| :: ProperCommand(space, cs[i]) && (i > 0 ==> cs[i].gap != [])
  }

  function Texts(args: seq<Argument>): Args
  {
    if args == [] then [] else [args[0].text] + Texts(args[1..])
  }

  function Meaning(cs: seq<Command>): seq<Args>
  {
    if cs == [] then [] else [[cs[0].keyword] + Texts(cs[0].args)] + Meaning(cs[1..])
  }

  /** An empty argument is a syntax error unless nothing at all follows it. */
  predicate ArgsReadable(args: seq<Argument>, last: bool)
  {
    args == [] || ((args[0].text != [] || (last && |args| == 1)) && ArgsReadable(args[1..], last))
  }

  predicate Readable(cs: seq<Command>)
  {
    cs == [] || (ArgsReadable(cs[0].args, |cs| == 1) && Readable(cs[1..]))
  }

  // ----- Trimming -----

  lemma {:induction false} TrimLeftGap(space: char -> bool, gap: string, t: string)
    requires Blank(space, gap)
    ensures TrimLeft(space, gap + t) == TrimLeft(space, t)
  {
    if gap == [] {
      EmptyLeft(t);
    } else {
      TailOfConcat(gap, t);
      TrimLeftGap(space, gap[1..], t);
    }
  }

  lemma {:induction false} TrimRightGap(space: char -> bool, t: string, gap: string)
    requires Blank(space, gap)
    ensures TrimRight(space, t + gap) == TrimRight(space, t)
    decreases |gap|
  {
    if gap == [] {
      EmptyRight(t);
    } else {
      assert (t + gap)[|t + gap| - 1] == gap[|gap| - 1];
      assert (t + gap)[..|t + gap| - 1] == t + gap[..|gap| - 1];
      TrimRightGap(space, t, gap[..|gap| - 1]);
    }
  }

  /** Text that starts and ends with something visible, or nothing. */
  ghost predicate Tight(space: char -> bool, t: string)
  {
    t == [] || (!space(t[0]) && !space(t[|t| - 1]))
  }

  lemma TrimTight(space: char -> bool, gap: string, t: string)
    requires Blank(space, gap) && Tight(space, t)
    ensures Trimmed(space, gap + t) == t
  {
    TrimLeftGap(space, gap, t);
  }

  lemma TrimTrailing(space: char -> bool, t: string, gap: string)
    requires Blank(space, gap)
    ensures Trimmed(space, t + gap) == Trimmed(space, t)
  {
    TrimLeftTrailing(space, t, gap);
    if TrimLeft(space, t) == [] {
      assert TrimRight(space, []) == [];
    } else {
      TrimRightGap(space, TrimLeft(space, t), gap);
    }
  }

  lemma {:induction false} TrimLeftTrailing(space: char -> bool, t: string, gap: string)
    requires Blank(space, gap)
    ensures TrimLeft(space, t + gap) == if TrimLeft(space, t) == [] then [] else TrimLeft(space, t) + gap
  {
    if t == [] {
      EmptyLeft(gap);
      EmptyRight(gap);
      TrimLeftGap(space, gap, []);
    } else {
      TailOfConcat(t, gap);
      if space(t[0]) { TrimLeftTrailing(space, t[1..], gap); }
    }
  }

  // ----- Reading tokens -----

  /** What may follow a token: nothing, or white space and more text. */
  ghost predicate Follows(space: char -> bool, w: string)
  {
    w == [] || (|w| >= 2 && space(w[0]) && !space(w[|w| - 1]))
  }

  /** The end of the input, or the next command. */
  ghost predicate EndsArgs(space: char -> bool, tail: string)
  {
    Follows(space, tail) && (tail == [] || IsCommand(Trimmed(space, tail)))
  }

  lemma {:induction false} FindIs(stop: char -> bool, value: string, i: nat, k: nat)
    requires i <= k <= |value| && (k < |value| ==> stop(value[k])) && forall j | i <= j < k :: !stop(value[j])
    ensures Find(stop, value, i) == k
    decreases k - i
  {
    if i != k { FindIs(stop, value, i + 1, k); }
  }

  /** Dropping the one separating character makes no difference to what follows. */
  lemma DropSeparator(space: char -> bool, w: string)
    requires w != [] && space(w[0])
    ensures Trimmed(space, w[1..]) == Trimmed(space, w)
  {
  }

  lemma ReadKeyword(space: char -> bool, keyword: string, w: string)
    requires Follows(space, w) && forall i | 0 <= i < |keyword| :: !space(keyword[i])
    ensures KeywordOf(space, keyword + w) == Piece(keyword, if w == [] then [] else w[1..])
  {
    var value := keyword + w;
    if w == [] {
      EmptyRight(keyword);
      FindIs(space, keyword, 0, |keyword|);
    } else {
      assert value[|keyword|] == w[0];
      FindIs(space, value, 0, |keyword|);
      assert value[..|keyword|] == keyword;
      assert value[|keyword| + 1..] == w[1..];
    }
  }

  lemma ReadQuoted(space: char -> bool, text: string, w: string)
    requires Follows(space, w) && QUOTE !in text
    ensures StringOf(space, Quoted(text) + w) == Piece(text, if w == [] then [] else w[1..])
  {
    var value, index := Quoted(text) + w, |text| + 1;
    assert value[0] == QUOTE && value[index] == QUOTE;
    assert forall j | 1 <= j < index :: value[j] == text[j - 1];
    FindIs(c => c == QUOTE, value, 1, index);
    assert value[1..index] == text;
    if w != [] {
      assert value[index + 1] == w[0];
      assert value[index + 2..] == w[1..];
    }
  }

  lemma {:induction false} ArgsFollow(space: char -> bool, args: seq<Argument>, tail: string)
    requires Classifies(space) && ProperArgs(space, args) && Follows(space, tail)
    ensures Follows(space, ArgsText(args, tail))
  {
    if args != [] {
      var w := ArgsText(args[1..], tail);
      ArgsFollow(space, args[1..], tail);
      BodyTight(space, args[0], w);
    }
  }

  lemma BodyTight(space: char -> bool, a: Argument, w: string)
    requires Classifies(space) && ProperArg(space, a) && Follows(space, w)
    ensures Tight(space, Shown(a) + w) && Shown(a) + w != [] && !IsCommand(Shown(a) + w)
  {
    var s, t := Shown(a), Shown(a) + w;
    assert t[0] == s[0] && (|s| > 1 ==> t[1] == s[1]);
    assert |s| == 1 && w != [] ==> t[1] == w[0];
    assert t[|t| - 1] == if w == [] then s[|s| - 1] else w[|w| - 1];
  }

  /** Either way the parser reads the text, and drops the one character behind it. */
  lemma ReadShown(space: char -> bool, a: Argument, w: string)
    requires ProperArg(space, a) && Follows(space, w)
    ensures StringOf(space, Shown(a) + w) == Piece(a.text, if w == [] then [] else w[1..])
  {
    if a.quoted {
      ReadQuoted(space, a.text, w);
    } else {
      ReadKeyword(space, a.text, w);
      assert (a.text + w)[0] == a.text[0];
    }
  }

  lemma {:induction false} ReadArgs(space: char -> bool, args: seq<Argument>, tail: string, value: string)
    requires Classifies(space) && ProperArgs(space, args) && EndsArgs(space, tail)
    requires Trimmed(space, value) == Trimmed(space, ArgsText(args, tail))
    ensures ArgsOf(space, value).result == if ArgsReadable(args, tail == []) then Some(Texts(args)) else None
    ensures ArgsReadable(args, tail == []) ==> ArgsOf(space, value).rest == Trimmed(space, tail)
  {
    if args != [] {
      var text, w := args[0].text, ArgsText(args[1..], tail);
      ArgsFollow(space, args[1..], tail);
      BodyTight(space, args[0], w);
      TrimTight(space, args[0].gap, Shown(args[0]) + w);
      ReadShown(space, args[0], w);
      if w == [] {
        NothingLeft(args[1..], tail);
      } else {
        DropSeparator(space, w);
        assert |w[1..]| >= 1;
      }
      if text != [] || w == [] {
        ReadArgs(space, args[1..], tail, if w == [] then [] else w[1..]);
      }
    }
  }

  lemma NothingLeft(args: seq<Argument>, tail: string)
    requires ArgsText(args, tail) == [] && (args != [] ==> args[0].gap != [])
    ensures args == [] && tail == []
  {
  }

  lemma CommandTight(space: char -> bool, c: Command, tail: string)
    requires Classifies(space) && ProperCommand(space, c) && Follows(space, tail)
    ensures Tight(space, CommandBody(c, tail)) && IsCommand(CommandBody(c, tail))
    ensures WithoutDashes(CommandBody(c, tail)) == c.keyword + ArgsText(c.args, tail)
  {
    var w, t := ArgsText(c.args, tail), CommandBody(c, tail);
    ArgsFollow(space, c.args, tail);
    assert t[0] == '-' && t[1] == '-';
    assert t[|t| - 1] == if w != [] then w[|w| - 1] else if c.keyword != [] then c.keyword[|c.keyword| - 1] else '-';
  }

  lemma ReadCommand(space: char -> bool, c: Command, tail: string)
    requires Classifies(space) && ProperCommand(space, c) && EndsArgs(space, tail)
    ensures CommandOf(space, CommandBody(c, tail)).result ==
            if ArgsReadable(c.args, tail == []) then Some([c.keyword] + Texts(c.args)) else None
    ensures ArgsReadable(c.args, tail == []) ==>
            CommandOf(space, CommandBody(c, tail)).rest == Trimmed(space, tail)
  {
    var w := ArgsText(c.args, tail);
    CommandTight(space, c, tail);
    ArgsFollow(space, c.args, tail);
    ReadKeyword(space, c.keyword, w);
    if w != [] {
      DropSeparator(space, w);
    }
    ReadArgs(space, c.args, tail, if w == [] then [] else w[1..]);
  }

  lemma {:induction false} CommandsFollow(space: char -> bool, cs: seq<Command>)
    requires Classifies(space) && Proper(space, cs) && (cs != [] ==> cs[0].gap != [])
    ensures EndsArgs(space, CommandsText(cs))
    ensures CommandsText(cs) == [] ==> cs == []
  {
    if cs != [] {
      var tail := CommandsText(cs[1..]);
      CommandsFollow(space, cs[1..]);
      CommandTight(space, cs[0], tail);
      TrimTight(space, cs[0].gap, CommandBody(cs[0], tail));
      GapFollows(space, cs[0].gap, CommandBody(cs[0], tail));
    }
  }

  lemma GapFollows(space: char -> bool, gap: string, t: string)
    requires gap != [] && Blank(space, gap) && t != [] && Tight(space, t)
    ensures Follows(space, gap + t)
  {
  }

  lemma {:induction false} ReadCommands(space: char -> bool, cs: seq<Command>, value: string)
    requires Classifies(space) && Proper(space, cs)
    requires Trimmed(space, value) == Trimmed(space, CommandsText(cs))
    ensures CommandsOf(space, value).result == if Readable(cs) then Some(Meaning(cs)) else None
    decreases cs
  {
    if cs != [] {
      var tail := CommandsText(cs[1..]);
      CommandsFollow(space, cs[1..]);
      CommandTight(space, cs[0], tail);
      TrimTight(space, cs[0].gap, CommandBody(cs[0], tail));
      ReadCommand(space, cs[0], tail);
      if ArgsReadable(cs[0].args, |cs| == 1) {
        TrimTrimmed(space, tail);
        ReadCommands(space, cs[1..], Trimmed(space, tail));
      }
    }
  }

  lemma TrimTrimmed(space: char -> bool, value: string)
    ensures Trimmed(space, Trimmed(space, value)) == Trimmed(space, value)
  {
    TrimRightEnds(space, TrimLeft(space, value));
  }

  /** The first command of a line may do without its dashes. */
  lemma DashesAreOptional(space: char -> bool, value: string)
    requires Classifies(space) && value != [] && Tight(space, value) && !IsCommand(value)
    ensures CommandsOf(space, value) == CommandsOf(space, "--" + value)
  {
    var dashed := "--" + value;
    assert dashed[0] == '-' && dashed[|dashed| - 1] == value[|value| - 1];
    TrimTight(space, [], value);
    TrimTight(space, [], dashed);
    EmptyLeft(value);
    EmptyLeft(dashed);
    assert WithoutDashes(dashed) == value && WithoutDashes(value) == value;
  }

  /** Printing and parsing: the parser returns exactly the commands printed and consumes all input,
      whatever white space separates and surrounds them, unless an empty argument is followed by
      anything; then it reports a syntax error by leaving input behind. */
  lemma PrintedIsParsed(space: char -> bool, cs: seq<Command>, trail: string)
    requires Classifies(space) && Proper(space, cs) && Blank(space, trail)
    ensures var r := CommandsOf(space, CommandsText(cs) + trail);
      && (Readable(cs) ==> r == Read(Some(Meaning(cs)), []))
      && (!Readable(cs) ==> r.result == None && r.rest != [])
  {
    TrimTrailing(space, CommandsText(cs), trail);
    ReadCommands(space, cs, CommandsText(cs) + trail);
    Totality(space, CommandsText(cs) + trail);
  }

  // ----- Broken quotes -----

  /** A quote that nothing closes, or that something visible follows. */
  ghost predicate BrokenQuote(space: char -> bool, bad: string)
  {
    && bad != [] && bad[0] == '"' && !space(bad[|bad| - 1])
    && (Unclosed(bad) || exists k | 1 <= k < |bad| - 1 :: ClosesAt(bad, k) && !space(bad[k + 1]))
  }

  predicate Unclosed(bad: string)
  {
    forall i | 1 <= i < |bad| :: bad[i] != '"'
  }

  predicate ClosesAt(bad: string, k: nat)
    requires k < |bad|
  {
    bad[k] == '"' && forall i | 1 <= i < k :: bad[i] != '"'
  }

  lemma BrokenString(space: char -> bool, bad: string)
    requires BrokenQuote(space, bad)
    ensures StringOf(space, bad) == Piece([], bad)
  {
    if Unclosed(bad) {
      FindIs(c => c == QUOTE, bad, 1, |bad|);
    } else {
      var k :| 1 <= k < |bad| - 1 && ClosesAt(bad, k) && !space(bad[k + 1]);
      FindIs(c => c == QUOTE, bad, 1, k);
    }
  }

  /** `tail` starts with white space and then a broken quote. */
  ghost predicate Breaks(space: char -> bool, tail: string)
  {
    Follows(space, tail) && BrokenQuote(space, Trimmed(space, tail))
  }

  lemma {:induction false} BrokenArgs(space: char -> bool, args: seq<Argument>, tail: string, value: string)
    requires Classifies(space) && ProperArgs(space, args) && Breaks(space, tail)
    requires Trimmed(space, value) == Trimmed(space, ArgsText(args, tail))
    ensures ArgsOf(space, value).result == None
  {
    if args == [] {
      BrokenString(space, Trimmed(space, tail));
    } else {
      var w := ArgsText(args[1..], tail);
      ArgsFollow(space, args[1..], tail);
      BodyTight(space, args[0], w);
      TrimTight(space, args[0].gap, Shown(args[0]) + w);
      ReadShown(space, args[0], w);
      if w == [] { NothingLeft(args[1..], tail); }
      DropSeparator(space, w);
      assert |w[1..]| >= 1;
      BrokenArgs(space, args[1..], tail, w[1..]);
    }
  }

  lemma BrokenCommand(space: char -> bool, c: Command, tail: string)
    requires Classifies(space) && ProperCommand(space, c) && Breaks(space, tail)
    ensures CommandOf(space, CommandBody(c, tail)).result == None
  {
    var w := ArgsText(c.args, tail);
    CommandTight(space, c, tail);
    ArgsFollow(space, c.args, tail);
    ReadKeyword(space, c.keyword, w);
    if w == [] { NothingLeft(c.args, tail); }
    DropSeparator(space, w);
    BrokenArgs(space, c.args, tail, w[1..]);
  }

  /** Printed commands, and text behind the arguments of the last of them. */
  function CommandsThen(cs: seq<Command>, tail: string): string
    requires cs != []
  {
    cs[0].gap + CommandBody(cs[0], if |cs| == 1 then tail else CommandsThen(cs[1..], tail))
  }

  lemma {:induction false} CommandsThenFollow(space: char -> bool, cs: seq<Command>, tail: string)
    requires Classifies(space) && cs != [] && Proper(space, cs) && cs[0].gap != [] && Follows(space, tail)
    ensures EndsArgs(space, CommandsThen(cs, tail)) && CommandsThen(cs, tail) != []
  {
    var rest := if |cs| == 1 then tail else CommandsThen(cs[1..], tail);
    if |cs| > 1 { CommandsThenFollow(space, cs[1..], tail); }
    CommandTight(space, cs[0], rest);
    TrimTight(space, cs[0].gap, CommandBody(cs[0], rest));
    GapFollows(space, cs[0].gap, CommandBody(cs[0], rest));
  }

  lemma {:induction false} BrokenCommands(space: char -> bool, cs: seq<Command>, tail: string, value: string)
    requires Classifies(space) && cs != [] && Proper(space, cs) && Breaks(space, tail)
    requires Trimmed(space, value) == Trimmed(space, CommandsThen(cs, tail))
    ensures CommandsOf(space, value).result == None
    decreases cs
  {
    var rest := if |cs| == 1 then tail else CommandsThen(cs[1..], tail);
    if |cs| > 1 { CommandsThenFollow(space, cs[1..], tail); }
    CommandTight(space, cs[0], rest);
    TrimTight(space, cs[0].gap, CommandBody(cs[0], rest));
    if |cs| == 1 {
      BrokenCommand(space, cs[0], tail);
    } else {
      ReadCommand(space, cs[0], rest);
      if ArgsReadable(cs[0].args, false) {
        TrimTrimmed(space, rest);
        BrokenCommands(space, cs[1..], tail, Trimmed(space, rest));
      }
    }
  }

  /** A broken quote among the arguments of any command is a syntax error, whatever precedes it. */
  lemma BrokenQuoteIsSyntaxError(space: char -> bool, cs: seq<Command>, gap: string, bad: string, trail: string)
    requires Classifies(space) && cs != [] && Proper(space, cs)
    requires gap != [] && Blank(space, gap) && BrokenQuote(space, bad) && Blank(space, trail)
    ensures var r := CommandsOf(space, CommandsThen(cs, gap + bad) + trail);
      r.result == None && r.rest != []
  {
    TrimTight(space, gap, bad);
    GapFollows(space, gap, bad);
    TrimTrailing(space, CommandsThen(cs, gap + bad), trail);
    BrokenCommands(space, cs, gap + bad, CommandsThen(cs, gap + bad) + trail);
    Totality(space, CommandsThen(cs, gap + bad) + trail);
  }
}
