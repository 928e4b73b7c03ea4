/** HidHideCLI/src/CliParsing.cpp: the command-line parser, which consumes its argument in place and
    signals a syntax error by what it leaves of it.  `space` stands for iswspace. */
module CliParsing {
  import opened Names
  import opened Seqs

  type Args = seq<string>

  const QUOTE := '"'

  predicate IsCommand(value: string)
  {
    |value| >= 2 && value[0] == '-' && value[1] == '-'
  }

  // ----- Trim -----

  function TrimLeft(space: char -> bool, value: string): (r: string)
    ensures r == [] || !space(r[0])
    ensures |r| <= |value|
  {
    if value != [] && space(value[0]) then TrimLeft(space, value[1..]) else value
  }

  function TrimRight(space: char -> bool, value: string): (r: string)
    ensures |r| <= |value| && (r != [] ==> r[0] == value[0])
  {
    if value != [] && space(value[|value| - 1]) then TrimRight(space, value[..|value| - 1]) else value
  }

  function Trimmed(space: char -> bool, value: string): (r: string)
    ensures r == [] || !space(r[0])
    ensures |r| <= |value|
  {
    TrimRight(space, TrimLeft(space, value))
  }

  lemma {:induction false} TrimRightEnds(space: char -> bool, value: string)
    ensures var r := TrimRight(space, value); r == [] || !space(r[|r| - 1])
  {
    if value != [] && space(value[|value| - 1]) { TrimRightEnds(space, value[..|value| - 1]); }
  }

  method Trim(space: char -> bool, value: string) returns (rest: string)
    ensures rest == Trimmed(space, value)
  {
    var begin := 0;
    while begin < |value| && space(value[begin])
      invariant 0 <= begin <= |value|
      invariant TrimLeft(space, value[begin..]) == TrimLeft(space, value)
    {
      assert value[begin..][1..] == value[begin + 1..];
      begin := begin + 1;
    }
    rest := value[begin..];
    var end := |rest|;
    assert rest[..end] == rest;
    while end > 0 && space(rest[end - 1])
      invariant 0 <= end <= |rest|
      invariant TrimRight(space, rest[..end]) == TrimRight(space, rest)
    {
      assert rest[..end][..end - 1] == rest[..end - 1];
      end := end - 1;
    }
    rest := rest[..end];
  }

  // ----- One keyword, one string -----

  datatype Piece = Piece(text: string, rest: string)

  /** Where the first character of `stop` at `i` or later is; the length if there is none. */
  function Find(stop: char -> bool, value: string, i: nat): (k: nat)
    requires i <= |value|
    ensures i <= k <= |value| && (k < |value| ==> stop(value[k]))
    decreases |value| - i
  {
    if i == |value| || stop(value[i]) then i else Find(stop, value, i + 1)
  }

  lemma {:induction false} FindSkips(stop: char -> bool, value: string, i: nat)
    requires i <= |value|
    ensures forall j | i <= j < Find(stop, value, i) :: !stop(value[j])
    decreases |value| - i
  {
    if i < |value| && !stop(value[i]) { FindSkips(stop, value, i + 1); }
  }

  method FindIf(stop: char -> bool, value: string, from: nat) returns (k: nat)
    requires from <= |value|
    ensures k == Find(stop, value, from)
  {
    k := from;
    while k < |value| && !stop(value[k])
      invariant from <= k <= |value| && Find(stop, value, k) == Find(stop, value, from)
    {
      k := k + 1;
    }
  }

  function KeywordOf(space: char -> bool, value: string): Piece
  {
    var k := Find(space, value, 0);
    if k < |value| then Piece(value[..k], value[k + 1..]) else Piece(value, [])
  }

  method ExtractKeyword(space: char -> bool, value: string) returns (result: string, rest: string)
    ensures Piece(result, rest) == KeywordOf(space, value)
  {
    var it := FindIf(space, value, 0);
    if it != |value| {
      return value[..it], value[it + 1..];
    }
    result, rest := value, [];
  }

  function StringOf(space: char -> bool, value: string): (p: Piece)
    ensures value != [] && !space(value[0]) && (p.text != [] || p.rest == []) ==> |p.rest| < |value|
  {
    if value == [] then Piece([], [])
    else if value[0] == QUOTE then
      var index := Find(c => c == QUOTE, value, 1);
      if index == |value| then Piece([], value)
      else if index == |value| - 1 then Piece(value[1..index], [])
      else if space(value[index + 1]) then Piece(value[1..index], value[index + 2..])
      else Piece([], value)
    else KeywordOf(space, value)
  }

  method ExtractString(space: char -> bool, value: string) returns (result: string, rest: string)
    ensures Piece(result, rest) == StringOf(space, value)
  {
    if value == [] {
      return [], value;
    }
    if value[0] == QUOTE {
      var index := FindIf(c => c == QUOTE, value, 1);
      var indexAtEnd := index == |value| - 1;
      if !(index != |value| && (indexAtEnd || space(value[index + 1]))) {
        return [], value;
      }
      return value[1..index], value[index + (if indexAtEnd then 1 else 2)..];
    }
    result, rest := ExtractKeyword(space, value);
  }

  // ----- One command, all commands -----

  /** What was read, None for a syntax error, and what is left of the input. */
  datatype Read<T> = Read(result: Option<T>, rest: string)

  function Prepend<T>(s: seq<T>, r: Read<seq<T>>): Read<seq<T>>
  {
    if r.result.None? then r else Read(Some(s + r.result.value), r.rest)
  }

  lemma PrependNothing<T>(r: Read<seq<T>>)
    ensures Prepend([], r) == r
  {
    if r.result.Some? { EmptyLeft(r.result.value); }
  }

  lemma PrependAssoc<T>(a: seq<T>, b: seq<T>, r: Read<seq<T>>)
    ensures Prepend(a + b, r) == Prepend(a, Prepend(b, r))
  {
    if r.result.Some? {
      Assoc(a, b, r.result.value);
    }
  }

  function ArgsOf(space: char -> bool, value: string): (r: Read<Args>)
    ensures |r.rest| <= |value| && (r.result.None? ==> r.rest != [])
    decreases |value|
  {
    var v := Trimmed(space, value);
    if v == [] || IsCommand(v) then Read(Some([]), v)
    else
      var p := StringOf(space, v);
      if p.text == [] && p.rest != [] then Read(None, p.rest)
      else Prepend([p.text], ArgsOf(space, p.rest))
  }

  function WithoutDashes(value: string): string
  {
    if IsCommand(value) then value[2..] else value
  }

  function CommandOf(space: char -> bool, value: string): (r: Read<Args>)
    ensures r.result.None? ==> r.rest != []
    ensures r.result.Some? ==> r.result.value != []
    ensures value != [] && !space(value[0]) ==> |r.rest| < |value|
  {
    var p := KeywordOf(space, WithoutDashes(value));
    Prepend([p.text], ArgsOf(space, p.rest))
  }

  function CommandsOf(space: char -> bool, value: string): Read<seq<Args>>
    decreases |value|
  {
    var v := Trimmed(space, value);
    if v == [] then Read(Some([]), [])
    else
      var c := CommandOf(space, v);
      if c.result.None? then Read(None, c.rest)
      else Prepend([c.result.value], CommandsOf(space, c.rest))
  }

  /** What a reading looks like to the source's callers: nothing at all on a syntax error. */
  predicate Signals<T(==)>(r: Read<seq<T>>, result: seq<T>, rest: string)
  {
    rest == r.rest && result == if r.result.None? then [] else r.result.value
  }

  /** One turn of the argument loop: stop, fail, or read one more argument. */
  lemma ArgsTurn(space: char -> bool, args: Args, value: string)
    ensures var v, p := Trimmed(space, value), StringOf(space, Trimmed(space, value));
      Prepend(args, ArgsOf(space, value)) ==
      if v == [] || IsCommand(v) then Read(Some(args), v)
      else if p.text == [] && p.rest != [] then Read(None, p.rest)
      else Prepend(args + [p.text], ArgsOf(space, p.rest))
  {
    var v, p := Trimmed(space, value), StringOf(space, Trimmed(space, value));
    if v == [] || IsCommand(v) {
      EmptyRight(args);
    } else {
      PrependAssoc(args, [p.text], ArgsOf(space, p.rest));
    }
  }

  method ExtractCommand(space: char -> bool, value: string) returns (result: Args, rest: string)
    ensures Signals(CommandOf(space, value), result, rest)
  {
    rest := value;
    if IsCommand(rest) {
      rest := rest[2..];
    }
    var keyword;
    keyword, rest := ExtractKeyword(space, rest);
    result := [keyword];
    while true
      invariant result != []
      invariant Prepend(result, ArgsOf(space, rest)) == CommandOf(space, value)
      decreases |rest|
    {
      ArgsTurn(space, result, rest);
      rest := Trim(space, rest);
      if rest == [] || IsCommand(rest) {
        break;
      }
      var arg;
      arg, rest := ExtractString(space, rest);
      if arg == [] && rest != [] {
        return [], rest;
      }
      result := result + [arg];
    }
  }

  lemma CommandsTurn(space: char -> bool, commands: seq<Args>, value: string)
    ensures var v, c := Trimmed(space, value), CommandOf(space, Trimmed(space, value));
      Prepend(commands, CommandsOf(space, value)) ==
      if v == [] then Read(Some(commands), v)
      else if c.result.None? then Read(None, c.rest)
      else Prepend(commands + [c.result.value], CommandsOf(space, c.rest))
  {
    var v, c := Trimmed(space, value), CommandOf(space, Trimmed(space, value));
    if v == [] {
      EmptyRight(commands);
    } else if c.result.Some? {
      PrependAssoc(commands, [c.result.value], CommandsOf(space, c.rest));
    }
  }

  method ExtractCommands(space: char -> bool, value: string) returns (result: seq<Args>, rest: string)
    ensures Signals(CommandsOf(space, value), result, rest)
  {
    result, rest := [], value;
    PrependNothing(CommandsOf(space, value));
    while true
      invariant Prepend(result, CommandsOf(space, rest)) == CommandsOf(space, value)
      decreases |rest|
    {
      CommandsTurn(space, result, rest);
      rest := Trim(space, rest);
      if rest == [] {
        break;
      }
      var command;
      command, rest := ExtractCommand(space, rest);
      if command == [] && rest != [] {
        return [], rest;
      }
      result := result + [command];
    }
  }
}
