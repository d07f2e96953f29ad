// The parser object of src/cli.c: registration, and the loops over arguments and letters,
// proved to compute the parse of CliModel.

module CliParsers {
  import opened Common
  import opened Bits
  import opened CliModel
  import opened CliTheorems

  datatype Status = Done | InvalidArgument

  class Cli {
    const numerals: Numerals
    var options: seq<Opt>
    var positionals: seq<Positional>
    var next: nat
    var enabled: bool
    var parsed: bool

    /** What registration guarantees, and that nothing is filled before parsing. */
    ghost predicate Valid()
      reads this
    {
      && AllNamesValid(options) && NoClash(options) && PositionalsInOrder(positionals)
      && (!parsed ==> Fresh(View()))
    }

    ghost function View(): State
      reads this
    {
      State(options, positionals, next, enabled)
    }

    constructor (numerals: Numerals)
      ensures Valid() && !parsed && options == [] && positionals == []
    {
      this.numerals := numerals;
      options, positionals, next, enabled, parsed := [], [], 0, true, false;
    }

    // ---------- Registration ----------

    method LookUpShort(name: char) returns (k: nat)
      ensures k == FindShort(options, name)
    {
      k := 0;
      while k < |options|
        invariant k <= |options| && FindShort(options, name) == k + FindShort(options[k..], name)
      {
        if options[k].short == name { return; }
        k := k + 1;
      }
    }

    method LookUpLong(name: string) returns (k: nat)
      ensures k == FindLong(options, name)
    {
      k := 0;
      while k < |options|
        invariant k <= |options| && FindLong(options, name) == k + FindLong(options[k..], name)
      {
        if options[k].long == Just(name) { return; }
        k := k + 1;
      }
    }

    /** lor_cli__add_option: counters and list options may always repeat. */
    method AddOption(short: char, long: Maybe<string>, kind: Kind, required: bool, repeatable: bool, target: Target)
        returns (status: Status)
      requires Valid()
      modifies `options
      ensures Valid()
      ensures var o := Opt(short, long, kind, required, repeatable || !(kind in {Flag, Text, Int, Double}), 0, target);
              && (status.Done? <==>
                    !parsed && NamesValid(o) && forall i :: 0 <= i < |old(options)| ==> !Clash(o, old(options)[i]))
              && options == if status.Done? then old(options) + [o] else old(options)
    {
      var o := Opt(short, long, kind, required, repeatable || !(kind in {Flag, Text, Int, Double}), 0, target);
      if parsed || !NamesValid(o) { return InvalidArgument; }
      var conflict := false;
      if short != NO_NAME {
        var k := LookUpShort(short);
        ShortMeans(options, short);
        conflict := k < |options|;
      }
      if !conflict && long.Just? {
        var k := LookUpLong(long.value);
        LongMeans(options, long.value);
        conflict := k < |options|;
      }
      if conflict {
        assert exists i :: 0 <= i < |options| && Clash(o, options[i]);
        return InvalidArgument;
      }
      options := options + [o];
      return Done;
    }

    /** lor_cli__add_positional */
    method AddPositional(name: string, kind: Kind, required: bool, target: Target) returns (status: Status)
      requires Valid()
      modifies `positionals
      ensures Valid()
      ensures status.Done? <==>
                !parsed && name != "" && (old(positionals) == [] ||
                  var last := old(positionals)[|old(positionals)| - 1];
                  !last.kind.Rest? && (required ==> last.required))
      ensures var p := Positional(name, kind, required, 0, target);
              positionals == old(positionals) + if status.Done? then [p] else []
    {
      if parsed || name == "" { return InvalidArgument; }
      if |positionals| != 0 {
        var last := positionals[|positionals| - 1];
        if last.kind.Rest? || (required && !last.required) { return InvalidArgument; }
      }
      positionals := positionals + [Positional(name, kind, required, 0, target)];
      return Done;
    }

    // ---------- Parsing ----------

    method ApplyOption(k: nat, value: Maybe<string>) returns (code: Code)
      requires k < |options|
      modifies `options
      ensures (code, View()) == ApplyAt(old(View()), k, value, numerals)
    {
      var (c, o) := Apply(options[k], value, numerals);
      code := c;
      options := options[k := o];
    }

    method ConsumePositional(token: string) returns (code: Code)
      modifies `positionals, `next
      ensures (code, View()) == Consume(old(View()), token, numerals)
    {
      if next >= |positionals| { return UnexpectedPositional; }
      var item := positionals[next];
      var (c, target) := AssignValue(item.kind, item.target, token, numerals);
      if !c.Ok? { return c; }
      positionals := positionals[next := item.(target := target, times := item.times + 1)];
      if !item.kind.Rest? { next := next + 1; }
      return Ok;
    }

    method IsPendingNumber(token: string) returns (pending: bool)
      ensures pending == NumericPending(View(), token, numerals)
    {
      if next >= |positionals| { return false; }
      var kind := positionals[next].kind;
      if kind.Int? { return numerals.IsInt(token); }
      return kind.Double? && numerals.IsDouble(token);
    }

    /** A long option at `argv[at - 1]`. */
    method ParseLong(text: string, argv: seq<string>, at: nat) returns (code: Code, i: nat)
      requires at <= |argv|
      modifies `options
      ensures at <= i <= |argv|
      ensures Progress(code, View(), argv[i..]) == LongOption(old(View()), text, argv[at..], numerals)
    {
      i := at;
      var size := NameLength(text);
      var k := LookUpLong(text[..size]);
      if k == |options| { return UnknownOption, i; }
      var value := if size < |text| then Just(text[size + 1..]) else Nothing;
      if value.Nothing? && TakesValue(options[k].kind) {
        if i >= |argv| { return MissingValue, i; }
        value, i := Just(argv[i]), i + 1;
      }
      code := ApplyOption(k, value);
    }

    /** The letters of a short token at `argv[at - 1]`. */
    method ParseShort(names: string, argv: seq<string>, at: nat) returns (code: Code, i: nat)
      requires at <= |argv|
      modifies `options
      ensures at <= i <= |argv|
      ensures Progress(code, View(), argv[i..]) == ShortOptions(old(View()), names, argv[at..], numerals)
    {
      var cursor: nat := 0;
      i := at;
      while cursor < |names|
        invariant cursor <= |names| && i == at
        invariant ShortOptions(View(), names[cursor..], argv[at..], numerals) ==
            ShortOptions(old(View()), names, argv[at..], numerals)
      {
        var name := names[cursor];
        assert names[cursor..][0] == name && names[cursor..][1..] == names[cursor + 1..];
        if name == 'h' { return HelpRequested, i; }
        var k := LookUpShort(name);
        if k == |options| { return UnknownOption, i; }
        cursor := cursor + 1;
        if TakesValue(options[k].kind) {
          code, i := ParseShortValue(k, names, cursor, argv, at);
          return;
        }
        code := ApplyOption(k, Nothing);
        if !code.Ok? { return; }
      }
      return Ok, i;
    }

    method ParseShortValue(k: nat, names: string, after: nat, argv: seq<string>, at: nat) returns (code: Code, i: nat)
      requires k < |options| && TakesValue(options[k].kind) && after <= |names| && at <= |argv|
      modifies `options
      ensures at <= i <= |argv|
      ensures var text := if after < |names| && names[after] == '=' then names[after + 1..] else names[after..];
              (code, View()) == (if text != "" then ApplyAt(old(View()), k, Just(text), numerals)
                                 else if at == |argv| then (MissingValue, old(View()))
                                 else ApplyAt(old(View()), k, Just(argv[at]), numerals))
              && i == if text != "" || at == |argv| then at else at + 1
    {
      var cursor := after;
      i := at;
      if cursor < |names| && names[cursor] == '=' { cursor := cursor + 1; }
      var value := Just(names[cursor..]);
      if cursor == |names| {
        if i >= |argv| { return MissingValue, i; }
        value, i := Just(argv[i]), i + 1;
      }
      code := ApplyOption(k, value);
    }

    method ParseToken(token: string, argv: seq<string>, at: nat) returns (code: Code, i: nat)
      requires at <= |argv|
      modifies `options, `positionals, `next, `enabled
      ensures at <= i <= |argv|
      ensures Progress(code, View(), argv[i..]) == Token(old(View()), token, argv[at..], numerals)
    {
      i := at;
      if enabled && token == "--" {
        enabled := false;
        return Ok, i;
      }
      if enabled && (token == "-h" || token == "--help") { return HelpRequested, i; }
      var pending := IsPendingNumber(token);
      if enabled && |token| > 1 && token[0] == '-' && !pending {
        if token[1] == '-' {
          code, i := ParseLong(token[2..], argv, i);
        } else {
          code, i := ParseShort(token[1..], argv, i);
        }
        return;
      }
      code := ConsumePositional(token);
    }

    method CheckFilled() returns (code: Code)
      ensures code == Unfilled(View())
    {
      for k := 0 to |options|
        invariant forall j :: 0 <= j < k ==> !(options[j].required && options[j].times == 0)
      {
        if options[k].required && options[k].times == 0 { return MissingRequiredOption; }
      }
      for k := 0 to |positionals|
        invariant forall j :: 0 <= j < k ==> !(positionals[j].required && positionals[j].times == 0)
      {
        if positionals[k].required && positionals[k].times == 0 { return MissingPositional; }
      }
      return Ok;
    }

    /** lor_cli_parse, once per parser; `argv[0]` is the program. */
    method ParseArguments(argv: seq<string>) returns (code: Maybe<Code>)
      requires Valid()
      modifies this
      ensures code.Nothing? <==> old(parsed)
      ensures old(parsed) ==> View() == old(View())
      ensures !old(parsed) ==>
                parsed && (code.value, View()) == Parse(old(View()), if argv == [] then [] else argv[1..], numerals)
    {
      if parsed { return Nothing; }
      parsed := true;
      ghost var args := if argv == [] then [] else argv[1..];
      var i: nat := if |argv| > 0 then 1 else 0;
      assert argv[i..] == args;
      while i < |argv|
        invariant i <= |argv| && parsed
        invariant Parse(View(), argv[i..], numerals) == Parse(old(View()), args, numerals)
        decreases |argv| - i
      {
        assert argv[i..][0] == argv[i] && argv[i..][1..] == argv[i + 1..];
        var c;
        c, i := ParseToken(argv[i], argv, i + 1);
        if !c.Ok? { return Just(c); }
      }
      var c := CheckFilled();
      return Just(c);
    }
  }

  lemma {:induction false} ShortMeans(os: seq<Opt>, name: char)
    ensures FindShort(os, name) < |os| <==> exists i :: 0 <= i < |os| && os[i].short == name
  {
    if os != [] && os[0].short != name {
      ShortMeans(os[1..], name);
      if i :| 0 <= i < |os| && os[i].short == name { assert os[1..][i - 1].short == name; }
    }
  }

  lemma {:induction false} LongMeans(os: seq<Opt>, name: string)
    ensures FindLong(os, name) < |os| <==> exists i :: 0 <= i < |os| && os[i].long == Just(name)
  {
    if os != [] && os[0].long != Just(name) {
      LongMeans(os[1..], name);
      if i :| 0 <= i < |os| && os[i].long == Just(name) { assert os[1..][i - 1].long == Just(name); }
    }
  }
}
