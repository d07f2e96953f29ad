// The command line parser of src/cli.c as a function of the registered options and the
// arguments: options long and short, clusters of short ones, and positionals.

module CliModel {
  import opened Common
  import opened Bits

  datatype Kind = Flag | Count | Text | Int | Double | Texts | Ints | Doubles | Rest

  datatype Code =
    | Ok | HelpRequested | UnknownOption | MissingValue | UnexpectedValue | InvalidValue | DuplicateOption
    | MissingRequiredOption | MissingPositional | UnexpectedPositional

  /** What a destination holds. A number is represented by the text it was read from. */
  datatype Target = Switch(on: bool) | Counter(count: nat) | Latest(text: Maybe<string>) | Collected(texts: seq<string>)

  /** The numbers that strtoll and strtod accept whole. */
  datatype Numerals = Numerals(ints: string -> bool, doubles: string -> bool) {
    predicate IsInt(s: string) { ints(s) }
    predicate IsDouble(s: string) { doubles(s) }
  }

  const NO_NAME := '\0'

  datatype Opt = Opt(short: char, long: Maybe<string>, kind: Kind, required: bool, repeatable: bool, times: nat,
      target: Target)

  datatype Positional = Positional(name: string, kind: Kind, required: bool, times: nat, target: Target)

  /** `next` is the positional that the next plain argument fills; after `--` there are no
      options any more. */
  datatype State = State(options: seq<Opt>, positionals: seq<Positional>, next: nat, enabled: bool)

  predicate TakesValue(k: Kind) {
    k != Flag && k != Count
  }

  // ---------- Applying one option or positional ----------

  function AssignValue(k: Kind, target: Target, text: string, n: Numerals): (Code, Target) {
    match k
    case Text => (Ok, Latest(Just(text)))
    case Int => if n.IsInt(text) then (Ok, Latest(Just(text))) else (InvalidValue, target)
    case Double => if n.IsDouble(text) then (Ok, Latest(Just(text))) else (InvalidValue, target)
    case Ints => if n.IsInt(text) then (Ok, Append(target, text)) else (InvalidValue, target)
    case Doubles => if n.IsDouble(text) then (Ok, Append(target, text)) else (InvalidValue, target)
    case _ => (Ok, Append(target, text))
  }

  function Append(target: Target, text: string): Target {
    Collected((if target.Collected? then target.texts else []) + [text])
  }

  /** lor_cli__apply_option */
  function Apply(o: Opt, value: Maybe<string>, n: Numerals): (Code, Opt) {
    if o.times != 0 && !o.repeatable then (DuplicateOption, o)
    else if o.kind.Flag? then
      if value.Just? then (UnexpectedValue, o) else (Ok, o.(target := Switch(true), times := o.times + 1))
    else if o.kind.Count? then
      if value.Just? then (UnexpectedValue, o)
      else
        var count := if o.target.Counter? then o.target.count else 0;
        if count == SIZE_MAX then (InvalidValue, o)
        else (Ok, o.(target := Counter(count + 1), times := o.times + 1))
    else if value.Nothing? then (MissingValue, o)
    else
      var (code, target) := AssignValue(o.kind, o.target, value.value, n);
      if code.Ok? then (Ok, o.(target := target, times := o.times + 1)) else (code, o)
  }

  function ApplyAt(s: State, k: nat, value: Maybe<string>, n: Numerals): (Code, State)
    requires k < |s.options|
  {
    var (code, o) := Apply(s.options[k], value, n);
    (code, s.(options := s.options[k := o]))
  }

  /** lor_cli__consume_positional; a trailing list takes all that follow. */
  function Consume(s: State, token: string, n: Numerals): (Code, State) {
    if s.next >= |s.positionals| then (UnexpectedPositional, s)
    else
      var item := s.positionals[s.next];
      var (code, target) := AssignValue(item.kind, item.target, token, n);
      if !code.Ok? then (code, s)
      else (Ok, s.(positionals := s.positionals[s.next := item.(target := target, times := item.times + 1)],
                   next := if item.kind.Rest? then s.next else s.next + 1))
  }

  /** lor_cli__positional_numeric: `-5` may be the number a positional waits for. */
  predicate NumericPending(s: State, token: string, n: Numerals) {
    s.next < |s.positionals| &&
      ((s.positionals[s.next].kind.Int? && n.IsInt(token)) || (s.positionals[s.next].kind.Double? && n.IsDouble(token)))
  }

  // ---------- Looking names up ----------

  /** The first option with this short name, or the number of options. */
  function FindShort(os: seq<Opt>, name: char): (k: nat)
    ensures k <= |os| && (k < |os| ==> os[k].short == name)
  {
    if os == [] then 0 else if os[0].short == name then 0 else 1 + FindShort(os[1..], name)
  }

  function FindLong(os: seq<Opt>, name: string): (k: nat)
    ensures k <= |os| && (k < |os| ==> os[k].long == Just(name))
  {
    if os == [] then 0 else if os[0].long == Just(name) then 0 else 1 + FindLong(os[1..], name)
  }

  /** The part of a long option before its `=`. */
  function NameLength(text: string): (k: nat)
    ensures k <= |text| && (k < |text| ==> text[k] == '=')
  {
    if text == "" || text[0] == '=' then 0 else 1 + NameLength(text[1..])
  }

  // ---------- Parsing ----------

  /** The arguments left after an option, or why parsing stopped. */
  datatype Progress = Progress(code: Code, state: State, rest: seq<string>)

  function LongOption(s: State, text: string, rest: seq<string>, n: Numerals): (p: Progress)
    ensures |p.rest| <= |rest|
  {
    var size := NameLength(text);
    var k := FindLong(s.options, text[..size]);
    if k == |s.options| then Progress(UnknownOption, s, rest)
    else if size < |text| then
      var (code, s') := ApplyAt(s, k, Just(text[size + 1..]), n);
      Progress(code, s', rest)
    else if !TakesValue(s.options[k].kind) then
      var (code, s') := ApplyAt(s, k, Nothing, n);
      Progress(code, s', rest)
    else if rest == [] then Progress(MissingValue, s, rest)
    else
      var (code, s') := ApplyAt(s, k, Just(rest[0]), n);
      Progress(code, s', rest[1..])
  }

  /** The letters of one short token; an option with a value takes the rest of the token,
      or the next argument. */
  function ShortOptions(s: State, names: string, rest: seq<string>, n: Numerals): (p: Progress)
    ensures |p.rest| <= |rest|
    decreases |names|
  {
    if names == "" then Progress(Ok, s, rest)
    else if names[0] == 'h' then Progress(HelpRequested, s, rest)
    else
      var k := FindShort(s.options, names[0]);
      if k == |s.options| then Progress(UnknownOption, s, rest)
      else if !TakesValue(s.options[k].kind) then
        var (code, s') := ApplyAt(s, k, Nothing, n);
        if code.Ok? then ShortOptions(s', names[1..], rest, n) else Progress(code, s', rest)
      else
        var text := if |names| > 1 && names[1] == '=' then names[2..] else names[1..];
        if text != "" then
          var (code, s') := ApplyAt(s, k, Just(text), n);
          Progress(code, s', rest)
        else if rest == [] then Progress(MissingValue, s, rest)
        else
          var (code, s') := ApplyAt(s, k, Just(rest[0]), n);
          Progress(code, s', rest[1..])
  }

  /** The first argument, with those that follow. */
  function Token(s: State, token: string, rest: seq<string>, n: Numerals): (p: Progress)
    ensures |p.rest| <= |rest|
  {
    if s.enabled && token == "--" then Progress(Ok, s.(enabled := false), rest)
    else if s.enabled && (token == "-h" || token == "--help") then Progress(HelpRequested, s, rest)
    else if s.enabled && |token| > 1 && token[0] == '-' && !NumericPending(s, token, n) then
      if token[1] == '-' then LongOption(s, token[2..], rest, n) else ShortOptions(s, token[1..], rest, n)
    else
      var (code, s') := Consume(s, token, n);
      Progress(code, s', rest)
  }

  function Unfilled(s: State): Code {
    if exists k :: 0 <= k < |s.options| && s.options[k].required && s.options[k].times == 0 then MissingRequiredOption
    else if exists k :: 0 <= k < |s.positionals| && s.positionals[k].required && s.positionals[k].times == 0
    then MissingPositional
    else Ok
  }

  function Parse(s: State, args: seq<string>, n: Numerals): (Code, State)
    decreases |args|
  {
    if args == [] then (Unfilled(s), s)
    else
      var p := Token(s, args[0], args[1..], n);
      if p.code.Ok? then Parse(p.state, p.rest, n) else (p.code, p.state)
  }
}
