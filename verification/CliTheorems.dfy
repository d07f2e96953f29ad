// What the parser of src/cli.c promises: different spellings that mean the same, and what
// an accepted command line has filled.

module CliTheorems {
  import opened Common
  import opened Bits
  import opened CliModel

  // ---------- Registration ----------

  predicate IsSpace(c: char) {
    c == ' ' || (9 <= c as int <= 13)
  }

  /** lor_cli__short_name_valid; `\0` means that there is no short name. */
  predicate ShortNameValid(c: char) {
    c == NO_NAME || (c != 'h' && c != '-' && c != '=' && !IsSpace(c))
  }

  /** lor_cli__long_name_valid */
  predicate LongNameValid(name: string) {
    && name != "" && name[0] != '-' && name != "help"
    && forall i :: 0 <= i < |name| ==> name[i] != '=' && !IsSpace(name[i])
  }

  predicate NamesValid(o: Opt) {
    && ShortNameValid(o.short) && (o.long.Just? ==> LongNameValid(o.long.value))
    && (o.short != NO_NAME || o.long.Just?)
  }

  predicate Clash(o: Opt, p: Opt) {
    (o.short != NO_NAME && o.short == p.short) || (o.long.Just? && o.long == p.long)
  }

  ghost predicate NoClash(os: seq<Opt>) {
    forall i, j :: 0 <= i < j < |os| ==> !Clash(os[i], os[j])
  }

  predicate AllNamesValid(os: seq<Opt>) {
    forall i :: 0 <= i < |os| ==> NamesValid(os[i])
  }

  /** Required positionals come first, and a trailing list last. */
  ghost predicate PositionalsInOrder(ps: seq<Positional>) {
    forall i, j :: 0 <= i < j < |ps| ==> !ps[i].kind.Rest? && (ps[j].required ==> ps[i].required)
  }

  // ---------- The same with other spellings ----------

  function Singles(names: string): (tokens: seq<string>)
    ensures |tokens| == |names|
  {
    if names == "" then [] else [['-', names[0]]] + Singles(names[1..])
  }

  /** `c` names a flag or a counter. */
  predicate IsSwitch(os: seq<Opt>, c: char) {
    c != NO_NAME && FindShort(os, c) < |os| && !TakesValue(os[FindShort(os, c)].kind)
  }

  predicate AllSwitches(os: seq<Opt>, names: string) {
    forall i :: 0 <= i < |names| ==> IsSwitch(os, names[i])
  }

  /** Given one by one, an option that is reached would be taken as the number that a positional
      waits for. It is reached when those before it were applied. */
  ghost predicate SingleTaken(s: State, names: string, n: Numerals)
    decreases |names|
  {
    names != "" &&
      (NumericPending(s, ['-', names[0]], n) ||
        (var k := FindShort(s.options, names[0]);
         k < |s.options| && ApplyAt(s, k, Nothing, n).0.Ok? && SingleTaken(ApplyAt(s, k, Nothing, n).1, names[1..], n)))
  }

  /** The options keep their names and kinds. */
  ghost predicate SameShape(os: seq<Opt>, os': seq<Opt>) {
    |os| == |os'| && forall i :: 0 <= i < |os| ==>
      os'[i].short == os[i].short && os'[i].long == os[i].long && os'[i].kind == os[i].kind
      && os'[i].required == os[i].required && os'[i].repeatable == os[i].repeatable
  }

  lemma {:induction false} SameShapeFinds(os: seq<Opt>, os': seq<Opt>, c: char)
    requires SameShape(os, os')
    ensures FindShort(os', c) == FindShort(os, c)
  {
    if os != [] && os[0].short != c { SameShapeFinds(os[1..], os'[1..], c); }
  }

  lemma ApplyKeepsShape(s: State, k: nat, value: Maybe<string>, n: Numerals)
    requires k < |s.options|
    ensures SameShape(s.options, ApplyAt(s, k, value, n).1.options)
  {
  }

  /** One letter alone does what it does in a cluster. */
  lemma {:induction false} SingleIs(s: State, c: char, rest: seq<string>, n: Numerals)
    requires s.enabled && AllNamesValid(s.options) && IsSwitch(s.options, c) && !NumericPending(s, ['-', c], n)
    ensures var k := FindShort(s.options, c);
            var (code, s') := ApplyAt(s, k, Nothing, n);
            Token(s, ['-', c], rest, n) == Progress(code, s', rest) && c != 'h' && c != '-'
  {
    var k := FindShort(s.options, c);
    assert NamesValid(s.options[k]);
    var token := ['-', c];
    assert token[1..] == [c] && [c][1..] == "";
    assert token != "--" by { assert "--"[1] == '-'; }
    assert token != "-h" by { assert "-h"[1] == 'h'; }
    assert |"--help"| == 6;
    var (code, s') := ApplyAt(s, k, Nothing, n);
    assert ShortOptions(s', "", rest, n) == Progress(Ok, s', rest);
    assert ShortOptions(s, [c], rest, n) == Progress(code, s', rest);
  }

  lemma {:induction false} ClusterIs(s: State, names: string, rest: seq<string>, n: Numerals)
    requires s.enabled && names != "" && AllNamesValid(s.options) && AllSwitches(s.options, names)
        && !NumericPending(s, "-" + names, n)
    ensures Token(s, "-" + names, rest, n) == ShortOptions(s, names, rest, n)
  {
    var k, token := FindShort(s.options, names[0]), "-" + names;
    assert NamesValid(s.options[k]);
    assert token[0] == '-' && token[1] == names[0] && token[1..] == names;
    assert "--"[1] == '-' && "-h"[1] == 'h' && "--help"[1] == '-';
  }

  /** A cluster of flags and counters means the same as the options one by one, whatever
      follows, also when parsing fails, unless a positional takes one of these tokens. */
  lemma {:induction false} ClusterMeansSingles(s: State, names: string, rest: seq<string>, n: Numerals)
    requires s.enabled && names != "" && AllNamesValid(s.options) && AllSwitches(s.options, names)
    requires !NumericPending(s, "-" + names, n) && !SingleTaken(s, names, n)
    ensures Parse(s, ["-" + names] + rest, n) == Parse(s, Singles(names) + rest, n)
  {
    ClusterIs(s, names, rest, n);
    TogetherIs(s, names, rest, n);
    SinglesAre(s, names, rest, n);
  }

  lemma {:induction false} TogetherIs(s: State, names: string, rest: seq<string>, n: Numerals)
    requires Token(s, "-" + names, rest, n) == ShortOptions(s, names, rest, n)
    ensures Parse(s, ["-" + names] + rest, n) == Resumed(ShortOptions(s, names, rest, n), n)
  {
  }

  /** Parsing goes on with the arguments that are left, or has stopped. */
  function Resumed(p: Progress, n: Numerals): (Code, State) {
    if p.code.Ok? then Parse(p.state, p.rest, n) else (p.code, p.state)
  }

  lemma {:induction false} SinglesAre(s: State, names: string, rest: seq<string>, n: Numerals)
    requires s.enabled && AllNamesValid(s.options) && AllSwitches(s.options, names)
    requires !SingleTaken(s, names, n)
    ensures Parse(s, Singles(names) + rest, n) == Resumed(ShortOptions(s, names, rest, n), n)
    decreases |names|
  {
    if names == "" {
      assert Singles(names) + rest == rest;
    } else {
      var k := FindShort(s.options, names[0]);
      var (code, s') := ApplyAt(s, k, Nothing, n);
      assert IsSwitch(s.options, names[0]);
      ApartIs(s, names, rest, n);
      SingleIs(s, names[0], rest, n);
      if code.Ok? {
        ApplyKeepsShape(s, k, Nothing, n);
        StaySwitches(s, s', names);
        SinglesAre(s', names[1..], rest, n);
      }
    }
  }

  lemma {:induction false} ApartIs(s: State, names: string, rest: seq<string>, n: Numerals)
    requires s.enabled && names != "" && AllNamesValid(s.options) && IsSwitch(s.options, names[0])
    requires !NumericPending(s, ['-', names[0]], n)
    ensures var (code, s') := ApplyAt(s, FindShort(s.options, names[0]), Nothing, n);
            Parse(s, Singles(names) + rest, n) ==
              if code.Ok? then Parse(s', Singles(names[1..]) + rest, n) else (code, s')
  {
    var token, more := ['-', names[0]], Singles(names[1..]) + rest;
    assert Singles(names) + rest == [token] + more;
    assert ([token] + more)[0] == token && ([token] + more)[1..] == more;
    SingleIs(s, names[0], more, n);
  }

  lemma {:induction false} StaySwitches(s: State, s': State, names: string)
    requires names != "" && AllNamesValid(s.options) && AllSwitches(s.options, names)
    requires SameShape(s.options, s'.options)
    ensures AllNamesValid(s'.options) && AllSwitches(s'.options, names[1..])
  {
    forall i | 0 <= i < |names[1..]| ensures IsSwitch(s'.options, names[1..][i]) {
      assert IsSwitch(s.options, names[i + 1]);
      SameShapeFinds(s.options, s'.options, names[1..][i]);
    }
  }

  // ---------- ... exactly when no positional takes one ----------

  /** Options leave the positionals alone. */
  lemma {:induction false} ClusterKeepsPositionals(s: State, names: string, rest: seq<string>, n: Numerals)
    ensures ShortOptions(s, names, rest, n).state.positionals == s.positionals
    ensures ShortOptions(s, names, rest, n).state.next == s.next
    decreases |names|
  {
    if names != "" && names[0] != 'h' {
      var k := FindShort(s.options, names[0]);
      if k < |s.options| && !TakesValue(s.options[k].kind) {
        ClusterKeepsPositionals(ApplyAt(s, k, Nothing, n).1, names[1..], rest, n);
      }
    }
  }

  lemma {:induction false} SwitchTokens(s: State, c: char)
    requires AllNamesValid(s.options) && IsSwitch(s.options, c)
    ensures var token := ['-', c]; token != "--" && token != "-h" && token != "--help"
  {
    assert NamesValid(s.options[FindShort(s.options, c)]);
    assert "--"[1] == '-' && "-h"[1] == 'h' && |"--help"| == 6;
  }

  /** What an option alone does when a positional takes it. */
  lemma {:induction false} TakenIs(s: State, token: string, rest: seq<string>, n: Numerals)
    requires s.enabled && NumericPending(s, token, n)
    requires |token| > 1 && token != "--" && token != "-h" && token != "--help"
    ensures var item := s.positionals[s.next];
            var filled := item.(target := Latest(Just(token)), times := item.times + 1);
            Token(s, token, rest, n) ==
              Progress(Ok, s.(positionals := s.positionals[s.next := filled], next := s.next + 1), rest)
  {
  }

  /** Nothing was put in this positional, or a text of two characters. */
  ghost predicate OnlyShortText(p: Positional, p': Positional) {
    p' == p || (p'.times == p.times + 1 && exists text :: |text| == 2 && p'.target == Latest(Just(text)))
  }

  /** From the options one by one the next positional gets no longer text, and those already
      filled stay as they are. */
  lemma {:induction false} SinglesTouch(s: State, names: string, k: nat, n: Numerals)
    requires s.enabled && AllNamesValid(s.options) && AllSwitches(s.options, names)
    requires k < |s.positionals| && k <= s.next
    ensures var s' := Parse(s, Singles(names), n).1;
            && |s'.positionals| == |s.positionals|
            && (if k < s.next then s'.positionals[k] == s.positionals[k]
                else OnlyShortText(s.positionals[k], s'.positionals[k]))
    decreases |names|
  {
    if names != "" {
      var token, more := ['-', names[0]], Singles(names[1..]);
      assert Singles(names)[0] == token && Singles(names)[1..] == more;
      assert IsSwitch(s.options, names[0]);
      SwitchTokens(s, names[0]);
      var p := Token(s, token, more, n);
      if NumericPending(s, token, n) {
        TakenIs(s, token, more, n);
        StaySwitches(s, p.state, names);
        SinglesTouch(p.state, names[1..], k, n);
        if k == s.next { assert |token| == 2 && p.state.positionals[k].target == Latest(Just(token)); }
      } else {
        SingleIs(s, names[0], more, n);
        var j := FindShort(s.options, names[0]);
        ApplyKeepsShape(s, j, Nothing, n);
        StaySwitches(s, p.state, names);
        if p.code.Ok? { SinglesTouch(p.state, names[1..], k, n); }
      }
    }
  }

  lemma {:induction false} TakenTouches(s: State, names: string, n: Numerals)
    requires s.enabled && AllNamesValid(s.options) && AllSwitches(s.options, names) && SingleTaken(s, names, n)
    ensures var k, s' := s.next, Parse(s, Singles(names), n).1;
            && k < |s.positionals| == |s'.positionals|
            && s'.positionals[k].times == s.positionals[k].times + 1
    decreases |names|
  {
    var token, more := ['-', names[0]], Singles(names[1..]);
    assert Singles(names)[0] == token && Singles(names)[1..] == more;
    assert IsSwitch(s.options, names[0]);
    SwitchTokens(s, names[0]);
    var p := Token(s, token, more, n);
    if NumericPending(s, token, n) {
      TakenIs(s, token, more, n);
      StaySwitches(s, p.state, names);
      SinglesTouch(p.state, names[1..], s.next, n);
    } else {
      SingleIs(s, names[0], more, n);
      ApplyKeepsShape(s, FindShort(s.options, names[0]), Nothing, n);
      StaySwitches(s, p.state, names);
      TakenTouches(p.state, names[1..], n);
    }
  }

  /** On its own, a cluster means the same as its options one by one exactly if it is a single
      option, or no positional takes the cluster or an option that is reached. */
  lemma {:induction false} ClusterMeansSinglesExactly(s: State, names: string, n: Numerals)
    requires s.enabled && names != "" && AllNamesValid(s.options) && AllSwitches(s.options, names)
    ensures Parse(s, ["-" + names], n) == Parse(s, Singles(names), n) <==>
              |names| == 1 || (!NumericPending(s, "-" + names, n) && !SingleTaken(s, names, n))
  {
    if |names| == 1 {
      assert "-" + names == ['-', names[0]] && Singles(names) == [['-', names[0]]] + Singles(names[1..]);
      assert Singles(names[1..]) == [];
    } else if NumericPending(s, "-" + names, n) {
      TakenClusterDiffers(s, names, n);
    } else if SingleTaken(s, names, n) {
      ClusterIs(s, names, [], n);
      TogetherIs(s, names, [], n);
      assert ["-" + names] + [] == ["-" + names];
      ClusterKeepsPositionals(s, names, [], n);
      TakenTouches(s, names, n);
    } else {
      ClusterMeansSingles(s, names, [], n);
      assert ["-" + names] + [] == ["-" + names] && Singles(names) + [] == Singles(names);
    }
  }

  lemma {:induction false} TakenClusterDiffers(s: State, names: string, n: Numerals)
    requires s.enabled && |names| > 1 && AllNamesValid(s.options) && AllSwitches(s.options, names)
    requires NumericPending(s, "-" + names, n)
    ensures Parse(s, ["-" + names], n).1 != Parse(s, Singles(names), n).1
  {
    var token, k := "-" + names, s.next;
    assert IsSwitch(s.options, names[0]);
    assert NamesValid(s.options[FindShort(s.options, names[0])]);
    assert token[1] == names[0] && "--"[1] == '-' && "-h"[1] == 'h' && "--help"[1] == '-';
    TakenIs(s, token, [], n);
    var args, p := [token], Token(s, token, [], n);
    assert args[0] == token && args[1..] == [];
    assert Parse(s, args, n) == Parse(p.state, [], n);
    var together := Parse(s, args, n).1;
    assert together == p.state;
    assert together.positionals[k].target == Latest(Just(token));
    SinglesTouch(s, names, k, n);
  }

  /** `-12` may be two flags or the number that a positional waits for. */
  lemma {:induction false} NumbersDiffer(s: State, n: Numerals)
    requires s.options == [Opt('1', Nothing, Flag, false, false, 0, Switch(false)),
                           Opt('2', Nothing, Flag, false, false, 0, Switch(false))]
    requires s.positionals == [Positional("number", Int, true, 0, Latest(Nothing))] && s.next == 0 && s.enabled
    requires n.IsInt("-12") && n.IsInt("-1") && n.IsInt("-2")
    ensures AllNamesValid(s.options) && NoClash(s.options) && AllSwitches(s.options, "12")
    ensures Parse(s, ["-12"], n).0 == Ok && Parse(s, ["-12"], n) != Parse(s, ["-1", "-2"], n)
  {
    assert "-" + "12" == "-12" && |"12"| == 2;
    assert Singles("12") == [['-', '1']] + Singles("2") && "12"[1..] == "2";
    assert Singles("2") == [['-', '2']] + Singles("") && "2"[1..] == "";
    assert Singles("12") == ["-1", "-2"];
    assert FindShort(s.options, '1') == 0 && FindShort(s.options, '2') == 1;
    ClusterMeansSinglesExactly(s, "12", n);
    TakenIs(s, "-12", [], n);
    assert ["-12"][1..] == [];
  }

  /** The value of a long option may follow `=` or be the next argument. */
  lemma {:induction false} LongValueEitherWay(s: State, name: string, value: string, rest: seq<string>, n: Numerals)
    requires s.enabled && LongNameValid(name)
    requires FindLong(s.options, name) < |s.options| && TakesValue(s.options[FindLong(s.options, name)].kind)
    requires !NumericPending(s, "--" + name, n) && !NumericPending(s, "--" + name + "=" + value, n)
    ensures Parse(s, ["--" + name + "=" + value] + rest, n) == Parse(s, ["--" + name, value] + rest, n)
  {
    LongJoined(s, name, value, rest, n);
    LongApart(s, name, value, rest, n);
    var one, two := ["--" + name + "=" + value] + rest, ["--" + name, value] + rest;
    assert one[0] == "--" + name + "=" + value && one[1..] == rest;
    assert two[0] == "--" + name && two[1..] == [value] + rest;
  }

  lemma {:induction false} LongJoined(s: State, name: string, value: string, rest: seq<string>, n: Numerals)
    requires s.enabled && LongNameValid(name) && FindLong(s.options, name) < |s.options|
    requires !NumericPending(s, "--" + name + "=" + value, n)
    ensures var (code, s') := ApplyAt(s, FindLong(s.options, name), Just(value), n);
            Token(s, "--" + name + "=" + value, rest, n) == Progress(code, s', rest)
  {
    var token := "--" + name + ("=" + value);
    assert token == "--" + name + "=" + value;
    NotHelp(name, "=" + value);
    NameEnds(name, "=" + value);
    assert token[2..] == name + ("=" + value);
    assert token[2..][..|name|] == name && token[2..][|name| + 1..] == value;
  }

  lemma {:induction false} LongApart(s: State, name: string, value: string, rest: seq<string>, n: Numerals)
    requires s.enabled && LongNameValid(name) && FindLong(s.options, name) < |s.options|
    requires TakesValue(s.options[FindLong(s.options, name)].kind) && !NumericPending(s, "--" + name, n)
    ensures var (code, s') := ApplyAt(s, FindLong(s.options, name), Just(value), n);
            Token(s, "--" + name, [value] + rest, n) == Progress(code, s', rest)
  {
    var token := "--" + name + "";
    assert token == "--" + name;
    NotHelp(name, "");
    NameEnds(name, "");
    assert token[2..] == name + "" == name && name[..|name|] == name;
    assert ([value] + rest)[0] == value && ([value] + rest)[1..] == rest;
  }

  lemma {:induction false} NameEnds(name: string, tail: string)
    requires (forall i :: 0 <= i < |name| ==> name[i] != '=') && (tail != "" ==> tail[0] == '=')
    ensures NameLength(name + tail) == |name|
  {
    if name == "" {
      assert name + tail == tail;
    } else {
      NameEnds(name[1..], tail);
      assert (name + tail)[1..] == name[1..] + tail;
    }
  }

  lemma NotHelp(name: string, tail: string)
    requires LongNameValid(name) && (tail != "" ==> tail[0] == '=')
    ensures var token := "--" + name + tail;
            token != "--" && token != "-h" && token != "--help" && |token| > 2 && token[0] == '-' && token[1] == '-'
  {
    var token := "--" + name + tail;
    assert token[2..] == name + tail && "--help"[2..] == "help";
    assert forall i :: 0 <= i < 6 ==> "--help"[i] != '=';
    assert if tail == "" then name + tail == name else token[2 + |name|] == '=';
  }

  // ---------- What an accepted command line has filled ----------

  /** A destination agrees with how often its option was applied since `o`. */
  ghost predicate Agrees(o: Opt, o': Opt) {
    if o'.times == 0 then o'.target == o.target
    else match o.kind
      case Flag => o'.target == Switch(true)
      case Count => o'.target == Counter((if o.target.Counter? then o.target.count else 0) + o'.times)
      case Text | Int | Double => o'.target.Latest? && o'.target.text.Just?
      case _ =>
        var before := if o.target.Collected? then |o.target.texts| else 0;
        o'.target.Collected? && |o'.target.texts| == before + o'.times
  }

  /** `o'` is `o` after some applications: never twice unless it may repeat. */
  ghost predicate Tallied(o: Opt, o': Opt) {
    o' == o.(times := o'.times, target := o'.target) && (o'.repeatable || o'.times <= 1) && Agrees(o, o')
  }

  /** Positionals fill in order, each scalar once. */
  ghost predicate Filling(ps: seq<Positional>, next: nat) {
    && next <= |ps|
    && (forall k :: 0 <= k < next ==> ps[k].times == 1 && !ps[k].kind.Rest?)
    && (forall k :: next <= k < |ps| && ps[k].times > 0 ==> k == next && ps[k].kind.Rest?)
  }

  ghost predicate Inv(start: State, s: State) {
    && |s.options| == |start.options| && |s.positionals| == |start.positionals|
    && (forall k :: 0 <= k < |s.options| ==> Tallied(start.options[k], s.options[k]))
    && (forall k :: 0 <= k < |s.positionals| ==>
          && s.positionals[k].kind == start.positionals[k].kind
          && s.positionals[k].required == start.positionals[k].required)
    && Filling(s.positionals, s.next)
  }

  ghost predicate Fresh(s: State) {
    && s.next == 0 && s.enabled
    && (forall k :: 0 <= k < |s.options| ==> s.options[k].times == 0)
    && (forall k :: 0 <= k < |s.positionals| ==> s.positionals[k].times == 0)
  }

  lemma {:induction false} ApplyKeepsInv(start: State, s: State, k: nat, value: Maybe<string>, n: Numerals)
    requires Inv(start, s) && k < |s.options|
    ensures Inv(start, ApplyAt(s, k, value, n).1)
  {
  }

  lemma {:induction false} ConsumeKeepsInv(start: State, s: State, token: string, n: Numerals)
    requires Inv(start, s)
    ensures Inv(start, Consume(s, token, n).1)
  {
  }

  lemma {:induction false} ShortKeepsInv(start: State, s: State, names: string, rest: seq<string>, n: Numerals)
    requires Inv(start, s)
    ensures Inv(start, ShortOptions(s, names, rest, n).state)
    decreases |names|
  {
    if names != "" && names[0] != 'h' {
      var k := FindShort(s.options, names[0]);
      if k < |s.options| {
        if !TakesValue(s.options[k].kind) {
          ApplyKeepsInv(start, s, k, Nothing, n);
          ShortKeepsInv(start, ApplyAt(s, k, Nothing, n).1, names[1..], rest, n);
        } else {
          var text := if |names| > 1 && names[1] == '=' then names[2..] else names[1..];
          ApplyKeepsInv(start, s, k, Just(if text != "" || rest == [] then text else rest[0]), n);
        }
      }
    }
  }

  lemma {:induction false} LongKeepsInv(start: State, s: State, text: string, rest: seq<string>, n: Numerals)
    requires Inv(start, s)
    ensures Inv(start, LongOption(s, text, rest, n).state)
  {
    var value := LongApplies(s, text, rest, n);
    var k := FindLong(s.options, text[..NameLength(text)]);
    if k < |s.options| { ApplyKeepsInv(start, s, k, value, n); }
  }

  /** A long option is applied once, or not at all. */
  lemma {:induction false} LongApplies(s: State, text: string, rest: seq<string>, n: Numerals)
      returns (value: Maybe<string>)
    ensures var s', k := LongOption(s, text, rest, n).state, FindLong(s.options, text[..NameLength(text)]);
            s' == s || (k < |s.options| && s' == ApplyAt(s, k, value, n).1)
  {
    var size := NameLength(text);
    value := if size < |text| then Just(text[size + 1..]) else if rest == [] then Nothing else Just(rest[0]);
    var k := FindLong(s.options, text[..size]);
    if k < |s.options| && size == |text| && !TakesValue(s.options[k].kind) { value := Nothing; }
  }

  lemma {:induction false} ParseKeepsInv(start: State, s: State, args: seq<string>, n: Numerals)
    requires Inv(start, s)
    ensures Inv(start, Parse(s, args, n).1)
    ensures var (code, s') := Parse(s, args, n); code.Ok? ==> Unfilled(s').Ok?
    decreases |args|
  {
    if args != [] {
      var token, rest := args[0], args[1..];
      if |token| > 1 {
        LongKeepsInv(start, s, token[2..], rest, n);
        ShortKeepsInv(start, s, token[1..], rest, n);
      }
      ConsumeKeepsInv(start, s, token, n);
      var p := Token(s, token, rest, n);
      if p.code.Ok? { ParseKeepsInv(start, p.state, p.rest, n); }
    }
  }

  ghost predicate FilledUpTo(ps: seq<Positional>, m: nat) {
    forall k :: 0 <= k < |ps| ==> (ps[k].times > 0 <==> k < m)
  }

  /** When the parser accepts, no option that may not repeat was applied twice, every
      destination tells how often its option was given, everything required is filled, and
      the filled positionals are a prefix of all. */
  lemma {:induction false} AcceptedIsComplete(start: State, args: seq<string>, n: Numerals)
    requires Fresh(start) && Parse(start, args, n).0.Ok?
    ensures var s := Parse(start, args, n).1;
            && |s.options| == |start.options| && |s.positionals| == |start.positionals|
            && (forall k :: 0 <= k < |s.options| ==> Tallied(start.options[k], s.options[k]))
            && (forall k :: 0 <= k < |s.options| && s.options[k].required ==> s.options[k].times > 0)
            && (forall k :: 0 <= k < |s.positionals| && s.positionals[k].required ==> s.positionals[k].times > 0)
            && exists m: nat :: FilledUpTo(s.positionals, m)
  {
    ParseKeepsInv(start, start, args, n);
    var s := Parse(start, args, n).1;
    var filled := if s.next < |s.positionals| && s.positionals[s.next].times > 0 then s.next + 1 else s.next;
    assert FilledUpTo(s.positionals, filled);
  }
}
