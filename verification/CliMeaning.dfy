// What a command line means to the parser of src/cli.c: which options it gives with which
// values, what goes to the positionals, and what the destinations hold in the end.

module CliMeanings {
  import opened Common
  import opened Bits
  import opened CliModel
  import opened CliTheorems

  /** Option number `k` with or without a value, or a plain argument. */
  datatype Item = Given(k: nat, value: Maybe<string>) | Plain(text: string)

  function Meaning(s: State, i: Item, n: Numerals): (Code, State) {
    match i
    case Given(k, value) => if k < |s.options| then ApplyAt(s, k, value, n) else (UnknownOption, s)
    case Plain(text) => Consume(s, text, n)
  }

  /** The items in turn, up to the first that is refused. */
  function Meant(s: State, items: seq<Item>, n: Numerals): (Code, State)
    decreases |items|
  {
    if items == [] then (Ok, s)
    else
      var (code, s') := Meaning(s, items[0], n);
      if code.Ok? then Meant(s', items[1..], n) else (code, s')
  }

  // ---------- Spelling ----------

  /** The option exists, and has a value if it takes one. */
  predicate Suits(os: seq<Opt>, i: Item) {
    i.Given? && i.k < |os| && (i.value.Just? <==> TakesValue(os[i.k].kind))
  }

  /** By its long name if it has one. */
  function Spelling(o: Opt, value: Maybe<string>): (tokens: seq<string>)
    ensures tokens != []
  {
    if o.long.Just? then
      [if value.Just? then "--" + o.long.value + "=" + value.value else "--" + o.long.value]
    else [['-', o.short]] + if value.Just? then [value.value] else []
  }

  function Spellings(os: seq<Opt>, items: seq<Item>): seq<string>
    requires forall i :: 0 <= i < |items| ==> Suits(os, items[i])
  {
    if items == [] then []
    else
      assert Suits(os, items[0]);
      Spelling(os[items[0].k], items[0].value) + Spellings(os, items[1..])
  }

  /** No positional is waiting for a number that the option looks like. */
  predicate Untaken(s: State, i: Item, n: Numerals)
    requires Suits(s.options, i)
  {
    !NumericPending(s, Spelling(s.options[i.k], i.value)[0], n)
  }

  ghost predicate Distinct(os: seq<Opt>) {
    AllNamesValid(os) && NoClash(os)
  }

  lemma {:induction false} LongIsFound(os: seq<Opt>, k: nat)
    requires NoClash(os) && k < |os| && os[k].long.Just?
    ensures FindLong(os, os[k].long.value) == k
  {
    if k > 0 {
      assert Clash(os[0], os[k]) <== os[0].long == os[k].long;
      RestIsDistinct(os);
      LongIsFound(os[1..], k - 1);
    }
  }

  lemma {:induction false} ShortIsFound(os: seq<Opt>, k: nat)
    requires NoClash(os) && k < |os| && os[k].short != NO_NAME
    ensures FindShort(os, os[k].short) == k
  {
    if k > 0 {
      assert Clash(os[0], os[k]) <== os[0].short == os[k].short;
      RestIsDistinct(os);
      ShortIsFound(os[1..], k - 1);
    }
  }

  lemma {:induction false} RestIsDistinct(os: seq<Opt>)
    requires NoClash(os) && os != []
    ensures NoClash(os[1..])
  {
    var rest := os[1..];
    forall i, j | 0 <= i < j < |rest| ensures !Clash(rest[i], rest[j]) {
      assert !Clash(os[i + 1], os[j + 1]);
    }
  }

  lemma {:induction false} SwitchByLongName(s: State, name: string, rest: seq<string>, n: Numerals)
    requires s.enabled && LongNameValid(name) && FindLong(s.options, name) < |s.options|
    requires !TakesValue(s.options[FindLong(s.options, name)].kind) && !NumericPending(s, "--" + name, n)
    ensures var (code, s') := ApplyAt(s, FindLong(s.options, name), Nothing, n);
            Token(s, "--" + name, rest, n) == Progress(code, s', rest)
  {
    var token := "--" + name + "";
    assert token == "--" + name;
    NotHelp(name, "");
    NameEnds(name, "");
    assert token[2..] == name + "" == name && name[..|name|] == name;
  }

  lemma {:induction false} ValueByShortName(s: State, c: char, value: string, rest: seq<string>, n: Numerals)
    requires s.enabled && AllNamesValid(s.options) && c != NO_NAME && FindShort(s.options, c) < |s.options|
    requires TakesValue(s.options[FindShort(s.options, c)].kind) && !NumericPending(s, ['-', c], n)
    ensures var (code, s') := ApplyAt(s, FindShort(s.options, c), Just(value), n);
            Token(s, ['-', c], [value] + rest, n) == Progress(code, s', rest)
  {
    assert NamesValid(s.options[FindShort(s.options, c)]);
    var token, more := ['-', c], [value] + rest;
    assert token[1..] == [c] && [c][1..] == "" && more[0] == value && more[1..] == rest;
    assert "--"[1] == '-' && "-h"[1] == 'h' && |"--help"| == 6;
  }

  /** One option, spelled out, is applied with its value. */
  lemma {:induction false} SpellingIs(s: State, i: Item, rest: seq<string>, n: Numerals)
    requires s.enabled && Distinct(s.options) && Suits(s.options, i) && Untaken(s, i, n)
    ensures var (code, s') := Meaning(s, i, n);
            Parse(s, Spelling(s.options[i.k], i.value) + rest, n) == Resumed(Progress(code, s', rest), n)
  {
    var o := s.options[i.k];
    var args := Spelling(o, i.value) + rest;
    assert NamesValid(o);
    if o.long.Just? {
      LongIsFound(s.options, i.k);
      assert args[1..] == rest;
      if i.value.Just? {
        LongJoined(s, o.long.value, i.value.value, rest, n);
      } else {
        SwitchByLongName(s, o.long.value, rest, n);
      }
    } else {
      ShortIsFound(s.options, i.k);
      if i.value.Just? {
        assert args[1..] == [i.value.value] + rest;
        ValueByShortName(s, o.short, i.value.value, rest, n);
      } else {
        assert args[1..] == rest;
        SingleIs(s, o.short, rest, n);
      }
    }
  }

  lemma {:induction false} MeaningKeepsNames(s: State, i: Item, n: Numerals)
    requires Distinct(s.options) && Suits(s.options, i)
    ensures var s' := Meaning(s, i, n).1;
            && SameShape(s.options, s'.options) && Distinct(s'.options)
            && s'.enabled == s.enabled && s'.next == s.next && s'.positionals == s.positionals
  {
    ApplyKeepsShape(s, i.k, i.value, n);
    var os' := Meaning(s, i, n).1.options;
    forall a | 0 <= a < |os'| ensures NamesValid(os'[a]) { assert NamesValid(s.options[a]); }
    forall a, b | 0 <= a < b < |os'| ensures !Clash(os'[a], os'[b]) { assert !Clash(s.options[a], s.options[b]); }
  }

  lemma {:induction false} SameSpellings(os: seq<Opt>, os': seq<Opt>, items: seq<Item>)
    requires SameShape(os, os') && forall i :: 0 <= i < |items| ==> Suits(os, items[i])
    ensures forall i :: 0 <= i < |items| ==> Suits(os', items[i])
    ensures Spellings(os', items) == Spellings(os, items)
  {
    if items != [] { SameSpellings(os, os', items[1..]); }
  }

  /** After `--` every argument goes to the positionals, whatever it looks like. */
  lemma {:induction false} PlainAfterDashes(s: State, texts: seq<string>, n: Numerals)
    requires !s.enabled
    ensures Parse(s, texts, n) == Ended(Meant(s, Plains(texts), n))
    decreases |texts|
  {
    if texts != [] {
      var (code, s') := Consume(s, texts[0], n);
      assert Token(s, texts[0], texts[1..], n) == Progress(code, s', texts[1..]);
      assert Plains(texts)[0] == Plain(texts[0]) && Plains(texts)[1..] == Plains(texts[1..]);
      if code.Ok? { PlainAfterDashes(s', texts[1..], n); }
    }
  }

  function Plains(texts: seq<string>): (items: seq<Item>)
    ensures |items| == |texts| && forall i :: 0 <= i < |items| ==> items[i] == Plain(texts[i])
  {
    seq(|texts|, i requires 0 <= i < |texts| => Plain(texts[i]))
  }

  /** What is left to check at the end of an accepted command line. */
  function Ended(r: (Code, State)): (Code, State) {
    if r.0.Ok? then (Unfilled(r.1), r.1) else r
  }

  /** Any options with their values, spelled out, then `--` and any arguments: the parser
      applies exactly these options in this order and gives the arguments to the
      positionals, or stops where that is refused. */
  lemma {:induction false} SpellingsMean(s: State, items: seq<Item>, texts: seq<string>, n: Numerals)
    requires s.enabled && Distinct(s.options) && forall i :: 0 <= i < |items| ==> Suits(s.options, items[i])
    requires forall i :: 0 <= i < |items| ==> Untaken(s, items[i], n)
    ensures var (code, s') := Meant(s, items, n);
            Parse(s, Spellings(s.options, items) + (["--"] + texts), n) ==
              if code.Ok? then Ended(Meant(s'.(enabled := false), Plains(texts), n)) else (code, s')
    decreases |items|
  {
    var last := ["--"] + texts;
    if items == [] {
      assert Spellings(s.options, items) + last == last && last[1..] == texts;
      PlainAfterDashes(s.(enabled := false), texts, n);
    } else {
      var first, others := Spelling(s.options[items[0].k], items[0].value), Spellings(s.options, items[1..]);
      assert first + others + last == first + (others + last);
      SpellingIs(s, items[0], others + last, n);
      var (code, s') := Meaning(s, items[0], n);
      if code.Ok? { RestMeans(s, s', items, texts, n); }
    }
  }

  lemma {:induction false} RestMeans(s: State, s': State, items: seq<Item>, texts: seq<string>, n: Numerals)
    requires items != [] && forall i :: 0 <= i < |items| ==> Suits(s.options, items[i])
    requires s.enabled && Distinct(s.options) && forall i :: 0 <= i < |items| ==> Untaken(s, items[i], n)
    requires s' == Meaning(s, items[0], n).1
    ensures var (code, s'') := Meant(s', items[1..], n);
            Parse(s', Spellings(s.options, items[1..]) + (["--"] + texts), n) ==
              if code.Ok? then Ended(Meant(s''.(enabled := false), Plains(texts), n)) else (code, s'')
    decreases |items|, 0
  {
    MeaningKeepsNames(s, items[0], n);
    SameSpellings(s.options, s'.options, items[1..]);
    forall i | 0 <= i < |items[1..]| ensures Untaken(s', items[1..][i], n) {
      assert Untaken(s, items[i + 1], n);
    }
    SpellingsMean(s', items[1..], texts, n);
  }

  // ---------- What the destinations hold ----------

  /** The values given to option `k`, in order. */
  function ValuesOf(items: seq<Item>, k: nat): seq<Maybe<string>> {
    if items == [] then []
    else (if items[0].Given? && items[0].k == k then [items[0].value] else []) + ValuesOf(items[1..], k)
  }

  function TextsOf(items: seq<Item>): seq<string> {
    if items == [] then [] else (if items[0].Plain? then [items[0].text] else []) + TextsOf(items[1..])
  }

  function Texts(values: seq<Maybe<string>>): (texts: seq<string>)
    ensures |texts| == |values|
  {
    seq(|values|, i requires 0 <= i < |values| => if values[i].Just? then values[i].value else "")
  }

  function Listed(t: Target): seq<string> {
    if t.Collected? then t.texts else []
  }

  /** A flag is on, a counter has counted, a single value is the last one given, and a list
      has all of them behind what it held. */
  ghost predicate Holds(kind: Kind, before: Target, values: seq<Maybe<string>>, after: Target) {
    if values == [] then after == before
    else match kind
      case Flag => after == Switch(true)
      case Count => after == Counter((if before.Counter? then before.count else 0) + |values|)
      case Text | Int | Double => values[|values| - 1].Just? && after == Latest(values[|values| - 1])
      case _ => after == Collected(Listed(before) + Texts(values))
  }

  lemma {:induction false} TextsGrow(first: Maybe<string>, values: seq<Maybe<string>>, start: seq<string>)
    ensures start + Texts([first]) + Texts(values) == start + Texts([first] + values)
  {
  }

  lemma {:induction false} HoldsMore(kind: Kind, before: Target, first: Maybe<string>, middle: Target,
      values: seq<Maybe<string>>, after: Target)
    requires Holds(kind, before, [first], middle) && Holds(kind, middle, values, after)
    ensures Holds(kind, before, [first] + values, after)
  {
    if values == [] {
      assert [first] + values == [first];
    } else {
      assert ([first] + values)[|values|] == values[|values| - 1];
      TextsGrow(first, values, Listed(before));
    }
  }

  /** `o'` is `o` after it was given these values. */
  ghost predicate Updated(o: Opt, values: seq<Maybe<string>>, o': Opt) {
    o' == o.(times := o.times + |values|, target := o'.target) && Holds(o.kind, o.target, values, o'.target)
  }

  lemma {:induction false} UpdatedMore(o: Opt, first: Maybe<string>, o1: Opt, values: seq<Maybe<string>>, o2: Opt)
    requires Updated(o, [first], o1) && Updated(o1, values, o2)
    ensures Updated(o, [first] + values, o2)
  {
    HoldsMore(o.kind, o.target, first, o1.target, values, o2.target);
  }

  lemma {:induction false} ApplyUpdates(o: Opt, value: Maybe<string>, n: Numerals)
    requires Apply(o, value, n).0.Ok?
    ensures Updated(o, [value], Apply(o, value, n).1)
  {
    assert Texts([value]) == [if value.Just? then value.value else ""];
  }

  lemma {:induction false} MeaningUpdates(s: State, i: Item, k: nat, n: Numerals)
    requires Meaning(s, i, n).0.Ok? && k < |s.options|
    ensures var s' := Meaning(s, i, n).1;
            && |s'.options| == |s.options|
            && if i.Given? && i.k == k then Updated(s.options[k], [i.value], s'.options[k])
               else s'.options[k] == s.options[k]
  {
    if i.Given? && i.k == k { ApplyUpdates(s.options[k], i.value, n); }
  }

  /** Of what was accepted, every option has the values given to it, and nothing else. */
  lemma {:induction false} OptionHolds(s: State, items: seq<Item>, k: nat, n: Numerals)
    requires Meant(s, items, n).0.Ok? && k < |s.options|
    ensures |Meant(s, items, n).1.options| == |s.options|
    ensures Updated(s.options[k], ValuesOf(items, k), Meant(s, items, n).1.options[k])
    decreases |items|
  {
    if items != [] {
      var s1, later := Meaning(s, items[0], n).1, ValuesOf(items[1..], k);
      MeaningUpdates(s, items[0], k, n);
      OptionHolds(s1, items[1..], k, n);
      if items[0].Given? && items[0].k == k {
        UpdatedMore(s.options[k], items[0].value, s1.options[k], later, Meant(s, items, n).1.options[k]);
      } else {
        assert ValuesOf(items, k) == later;
      }
    }
  }

  /** No trailing list stands between the next positional and number `j`. */
  predicate Scalars(ps: seq<Positional>, next: nat, j: nat) {
    forall i :: next <= i < j && i < |ps| ==> !ps[i].kind.Rest?
  }

  /** The texts that reach positional `j`: one, or for a trailing list all that are left. */
  function TextsFor(s: State, texts: seq<string>, j: nat): seq<string>
    requires j < |s.positionals|
  {
    if j < s.next || j - s.next >= |texts| then []
    else if s.positionals[j].kind.Rest? then texts[j - s.next..]
    else [texts[j - s.next]]
  }

  function Justs(texts: seq<string>): (values: seq<Maybe<string>>)
    ensures |values| == |texts| && forall i :: 0 <= i < |values| ==> values[i] == Just(texts[i])
  {
    seq(|texts|, i requires 0 <= i < |texts| => Just(texts[i]))
  }

  /** `p'` is `p` after it took these texts. */
  ghost predicate Took(p: Positional, texts: seq<string>, p': Positional) {
    p' == p.(times := p.times + |texts|, target := p'.target) && Holds(p.kind, p.target, Justs(texts), p'.target)
  }

  lemma {:induction false} AssignTakes(p: Positional, text: string, n: Numerals)
    requires TakesValue(p.kind) && AssignValue(p.kind, p.target, text, n).0.Ok?
    ensures Took(p, [text], p.(target := AssignValue(p.kind, p.target, text, n).1, times := p.times + 1))
  {
    assert Justs([text]) == [Just(text)] && Texts([Just(text)]) == [text];
  }

  lemma {:induction false} TookMore(p: Positional, first: string, p1: Positional, texts: seq<string>, p2: Positional)
    requires Took(p, [first], p1) && Took(p1, texts, p2)
    ensures Took(p, [first] + texts, p2)
  {
    assert Justs([first]) == [Just(first)] && Justs([first] + texts) == [Just(first)] + Justs(texts);
    HoldsMore(p.kind, p.target, Just(first), p1.target, Justs(texts), p2.target);
  }

  lemma {:induction false} MeaningKeepsPlaces(s: State, i: Item, j: nat, n: Numerals)
    requires Meaning(s, i, n).0.Ok? && j < |s.positionals| && Scalars(s.positionals, s.next, j)
    ensures var s' := Meaning(s, i, n).1;
            && |s'.positionals| == |s.positionals| && s'.positionals[j].kind == s.positionals[j].kind
            && Scalars(s'.positionals, s'.next, j)
            && (i.Given? ==> s'.positionals == s.positionals && s'.next == s.next)
  {
  }

  /** And every positional has the texts that are due to it. */
  lemma {:induction false} PositionalHolds(s: State, items: seq<Item>, j: nat, n: Numerals)
    requires Meant(s, items, n).0.Ok? && j < |s.positionals| && Scalars(s.positionals, s.next, j)
    requires TakesValue(s.positionals[j].kind)
    ensures |Meant(s, items, n).1.positionals| == |s.positionals|
    ensures Took(s.positionals[j], TextsFor(s, TextsOf(items), j), Meant(s, items, n).1.positionals[j])
    decreases |items|
  {
    if items != [] {
      var s1 := Meaning(s, items[0], n).1;
      MeaningKeepsPlaces(s, items[0], j, n);
      PositionalHolds(s1, items[1..], j, n);
      if items[0].Plain? {
        assert TextsOf(items) == [items[0].text] + TextsOf(items[1..]);
        PlainTakes(s, items[0].text, s1, TextsOf(items[1..]), j, Meant(s, items, n).1.positionals[j], n);
      } else {
        assert TextsOf(items) == TextsOf(items[1..]);
        assert TextsFor(s1, TextsOf(items), j) == TextsFor(s, TextsOf(items), j);
      }
    }
  }

  lemma {:induction false} PlainTakes(s: State, text: string, s1: State, more: seq<string>, j: nat, p2: Positional,
                                      n: Numerals)
    requires Consume(s, text, n) == (Ok, s1) && j < |s.positionals| && Scalars(s.positionals, s.next, j)
    requires TakesValue(s.positionals[j].kind)
    requires Took(s1.positionals[j], TextsFor(s1, more, j), p2)
    ensures Took(s.positionals[j], TextsFor(s, [text] + more, j), p2)
  {
    var due := TextsFor(s, [text] + more, j);
    if j == s.next {
      AssignTakes(s.positionals[j], text, n);
      TookMore(s.positionals[j], text, s1.positionals[j], TextsFor(s1, more, j), p2);
      assert due == [text] + TextsFor(s1, more, j);
    } else {
      assert due == TextsFor(s1, more, j);
    }
  }

  // ---------- What is refused, and why ----------

  predicate Readable(kind: Kind, text: string, n: Numerals) {
    && (kind.Int? || kind.Ints? ==> n.IsInt(text))
    && (kind.Double? || kind.Doubles? ==> n.IsDouble(text))
  }

  /** An option is refused when it may not repeat, when it has a value exactly if it takes
      none, when the value is no number, or when its counter is full; and only then. */
  lemma {:induction false} ApplyRefusesExactly(o: Opt, value: Maybe<string>, n: Numerals)
    ensures var code := Apply(o, value, n).0;
            && (code == DuplicateOption <==> o.times > 0 && !o.repeatable)
            && (o.times == 0 || o.repeatable ==>
                  && (code == UnexpectedValue <==> !TakesValue(o.kind) && value.Just?)
                  && (code == MissingValue <==> TakesValue(o.kind) && value.Nothing?)
                  && (code == InvalidValue <==>
                        || (TakesValue(o.kind) && value.Just? && !Readable(o.kind, value.value, n))
                        || (o.kind.Count? && value.Nothing? && o.target == Counter(SIZE_MAX))))
            && (code.Ok? <==>
                  && (o.times == 0 || o.repeatable) && (value.Just? <==> TakesValue(o.kind))
                  && (value.Just? ==> Readable(o.kind, value.value, n))
                  && (o.kind.Count? ==> o.target != Counter(SIZE_MAX)))
  {
  }

  /** A plain argument is refused when no positional is left, or the next one cannot read it. */
  lemma {:induction false} ConsumeRefusesExactly(s: State, text: string, n: Numerals)
    ensures var code := Consume(s, text, n).0;
            && (code == UnexpectedPositional <==> s.next >= |s.positionals|)
            && (code == InvalidValue <==>
                  s.next < |s.positionals| && !Readable(s.positionals[s.next].kind, text, n))
            && (code.Ok? || code == UnexpectedPositional || code == InvalidValue)
  {
  }

  /** In the end the parser accepts exactly if everything required was given. */
  lemma {:induction false} EndsExactly(s: State)
    ensures Unfilled(s).Ok? <==>
              && (forall k :: 0 <= k < |s.options| && s.options[k].required ==> s.options[k].times > 0)
              && (forall k :: 0 <= k < |s.positionals| && s.positionals[k].required ==> s.positionals[k].times > 0)
    ensures Unfilled(s) == MissingRequiredOption <==>
              exists k :: 0 <= k < |s.options| && s.options[k].required && s.options[k].times == 0
  {
  }

  /** A letter with its value in one token. */
  lemma {:induction false} JoinedIs(s: State, c: char, tail: string, rest: seq<string>, n: Numerals)
    requires s.enabled && AllNamesValid(s.options) && c != NO_NAME && FindShort(s.options, c) < |s.options|
    requires TakesValue(s.options[FindShort(s.options, c)].kind) && !NumericPending(s, ['-', c] + tail, n)
    ensures Token(s, ['-', c] + tail, rest, n) == ShortOptions(s, [c] + tail, rest, n) && c != 'h'
  {
    assert NamesValid(s.options[FindShort(s.options, c)]);
    var token := ['-', c] + tail;
    assert token[1..] == [c] + tail && token[1] == c;
    assert "--"[1] == '-' && "-h"[1] == 'h' && "--help"[1] == '-';
  }

  /** The value of a short option may follow it at once, or after `=`, or be the next
      argument; with nothing behind the `=` it is the next argument, too. */
  lemma {:induction false} ShortValueAnyWay(s: State, c: char, value: string, rest: seq<string>, n: Numerals)
    requires s.enabled && AllNamesValid(s.options) && c != NO_NAME && FindShort(s.options, c) < |s.options|
    requires TakesValue(s.options[FindShort(s.options, c)].kind)
    requires !NumericPending(s, ['-', c], n) && !NumericPending(s, ['-', c] + "=", n)
    requires !NumericPending(s, ['-', c] + value, n) && !NumericPending(s, ['-', c] + ("=" + value), n)
    ensures var apart := Parse(s, [['-', c], value] + rest, n);
            && Parse(s, [['-', c] + "=", value] + rest, n) == apart
            && (value != "" ==> Parse(s, [['-', c] + ("=" + value)] + rest, n) == apart)
            && (value != "" && value[0] != '=' ==> Parse(s, [['-', c] + value] + rest, n) == apart)
  {
    var next := [value] + rest;
    ValueByShortName(s, c, value, rest, n);
    FirstOf(['-', c], next);
    JoinedIs(s, c, "=", next, n);
    FirstOf(['-', c] + "=", next);
    assert ([c] + "=")[2..] == "" && next[0] == value && next[1..] == rest;
    JoinedIs(s, c, "=" + value, rest, n);
    FirstOf(['-', c] + ("=" + value), rest);
    assert ([c] + ("=" + value))[2..] == value;
    JoinedIs(s, c, value, rest, n);
    FirstOf(['-', c] + value, rest);
    assert ([c] + value)[1..] == value;
    assert [['-', c], value] + rest == [['-', c]] + next && [['-', c] + "=", value] + rest == [['-', c] + "="] + next;
  }

  lemma FirstOf(token: string, rest: seq<string>)
    ensures ([token] + rest)[0] == token && ([token] + rest)[1..] == rest
  {
  }

  lemma {:induction false} NotFound(os: seq<Opt>, name: string)
    requires forall k :: 0 <= k < |os| ==> os[k].long != Just(name)
    ensures FindLong(os, name) == |os|
  {
    if os != [] { NotFound(os[1..], name); }
  }

  /** An unknown long option stops the parser, and so does a question for help. */
  lemma {:induction false} UnknownStops(s: State, name: string, tail: string, rest: seq<string>, n: Numerals)
    requires s.enabled && LongNameValid(name) && (tail != "" ==> tail[0] == '=')
    requires !NumericPending(s, "--" + name + tail, n)
    requires forall k :: 0 <= k < |s.options| ==> s.options[k].long != Just(name)
    ensures Parse(s, ["--" + name + tail] + rest, n) == (UnknownOption, s)
  {
    var token, args := "--" + name + tail, ["--" + name + tail] + rest;
    NotHelp(name, tail);
    NameEnds(name, tail);
    NotFound(s.options, name);
    assert token[2..] == name + tail && token[2..][..|name|] == name;
    assert args[0] == token && args[1..] == rest;
  }

  lemma {:induction false} HelpStops(s: State, token: string, rest: seq<string>, n: Numerals)
    requires s.enabled && (token == "-h" || token == "--help")
    ensures Parse(s, [token] + rest, n) == (HelpRequested, s)
  {
    assert |"--"| == 2 && "--"[1] == '-' && "-h"[1] == 'h' && |"--help"| == 6;
    var args := [token] + rest;
    assert args[0] == token && args[1..] == rest;
  }

  // ---------- Every accepted command line means something ----------

  /** The text of an item is the end of an argument. */
  ghost predicate Ends(arg: string, i: Item) {
    match i
    case Given(k, value) => value.Just? ==> IsEnd(arg, value.value)
    case Plain(text) => IsEnd(arg, text)
  }

  predicate IsEnd(arg: string, text: string) {
    |text| <= |arg| && arg[|arg| - |text|..] == text
  }

  ghost predicate TakenFrom(items: seq<Item>, args: seq<string>) {
    forall i :: i in items ==> exists a :: a in args && Ends(a, i)
  }

  lemma {:induction false} MeantAppends(s: State, first: seq<Item>, more: seq<Item>, n: Numerals)
    requires Meant(s, first, n).0.Ok?
    ensures Meant(s, first + more, n) == Meant(Meant(s, first, n).1, more, n)
    decreases |first|
  {
    if first == [] {
      assert first + more == more;
    } else {
      assert (first + more)[0] == first[0] && (first + more)[1..] == first[1..] + more;
      MeantAppends(Meaning(s, first[0], n).1, first[1..], more, n);
    }
  }

  /** Whether options are still enabled changes no meaning. */
  lemma {:induction false} MeantAnyway(s: State, items: seq<Item>, enabled: bool, n: Numerals)
    ensures var (code, s') := Meant(s, items, n);
            Meant(s.(enabled := enabled), items, n) == (code, s'.(enabled := enabled))
    decreases |items|
  {
    if items != [] {
      var (code, s') := Meaning(s, items[0], n);
      assert Meaning(s.(enabled := enabled), items[0], n) == (code, s'.(enabled := enabled));
      MeantAnyway(s', items[1..], enabled, n);
    }
  }

  lemma {:induction false} OneMeans(s: State, i: Item, n: Numerals)
    requires Meaning(s, i, n).0.Ok?
    ensures Meant(s, [i], n) == Meaning(s, i, n)
  {
    assert [i][1..] == [];
  }

  lemma {:induction false} LongMeans(s: State, text: string, rest: seq<string>, n: Numerals) returns (i: Item)
    requires LongOption(s, text, rest, n).code.Ok?
    ensures Meaning(s, i, n) == (Ok, LongOption(s, text, rest, n).state)
    ensures Ends(text, i) || (rest != [] && Ends(rest[0], i))
    ensures LongOption(s, text, rest, n).rest == rest || (rest != [] && LongOption(s, text, rest, n).rest == rest[1..])
  {
    var size := NameLength(text);
    var k := FindLong(s.options, text[..size]);
    if size < |text| {
      i := Given(k, Just(text[size + 1..]));
    } else if !TakesValue(s.options[k].kind) {
      i := Given(k, Nothing);
    } else {
      i := Given(k, Just(rest[0]));
      assert rest[0][0..] == rest[0];
    }
  }

  lemma {:induction false} ShortsMean(s: State, arg: string, names: string, rest: seq<string>, n: Numerals)
      returns (items: seq<Item>)
    requires IsEnd(arg, names) && ShortOptions(s, names, rest, n).code.Ok?
    ensures Meant(s, items, n) == (Ok, ShortOptions(s, names, rest, n).state)
    ensures forall i :: i in items ==> Ends(arg, i) || (rest != [] && Ends(rest[0], i))
    ensures ShortOptions(s, names, rest, n).rest == rest
         || (rest != [] && ShortOptions(s, names, rest, n).rest == rest[1..])
    decreases |names|
  {
    if names == "" { return []; }
    var k := FindShort(s.options, names[0]);
    if !TakesValue(s.options[k].kind) {
      var (code, s') := ApplyAt(s, k, Nothing, n);
      assert IsEnd(arg, names[1..]);
      var more := ShortsMean(s', arg, names[1..], rest, n);
      OneMeans(s, Given(k, Nothing), n);
      items := [Given(k, Nothing)] + more;
      MeantAppends(s, [Given(k, Nothing)], more, n);
    } else {
      var text := if |names| > 1 && names[1] == '=' then names[2..] else names[1..];
      var i := Given(k, Just(if text != "" then text else rest[0]));
      assert text != "" ==> IsEnd(arg, text);
      assert text == "" ==> IsEnd(rest[0], rest[0]);
      OneMeans(s, i, n);
      items := [i];
    }
  }

  lemma {:induction false} TokenMeans(s: State, token: string, rest: seq<string>, n: Numerals)
      returns (items: seq<Item>)
    requires Token(s, token, rest, n).code.Ok?
    ensures Meant(s, items, n) == (Ok, Token(s, token, rest, n).state.(enabled := s.enabled))
    ensures forall i :: i in items ==> Ends(token, i) || (rest != [] && Ends(rest[0], i))
    ensures Token(s, token, rest, n).rest == rest || (rest != [] && Token(s, token, rest, n).rest == rest[1..])
  {
    if s.enabled && token == "--" {
      items := [];
    } else if s.enabled && |token| > 1 && token[0] == '-' && !NumericPending(s, token, n) {
      if token[1] == '-' {
        var i := LongMeans(s, token[2..], rest, n);
        OneMeans(s, i, n);
        if Ends(token[2..], i) { EndOfEnd(token, token[2..], i); }
        items := [i];
      } else {
        items := ShortsMean(s, token, token[1..], rest, n);
      }
      OptionsStayEnabled(s, token, rest, n);
    } else {
      OneMeans(s, Plain(token), n);
      items := [Plain(token)];
    }
  }

  lemma {:induction false} EndOfEnd(arg: string, text: string, i: Item)
    requires IsEnd(arg, text) && Ends(text, i)
    ensures Ends(arg, i)
  {
  }

  lemma {:induction false} ShortsStayEnabled(s: State, names: string, rest: seq<string>, n: Numerals)
    ensures ShortOptions(s, names, rest, n).state.enabled == s.enabled
    decreases |names|
  {
    if names != "" && names[0] != 'h' {
      var k := FindShort(s.options, names[0]);
      if k < |s.options| && !TakesValue(s.options[k].kind) {
        ShortsStayEnabled(ApplyAt(s, k, Nothing, n).1, names[1..], rest, n);
      }
    }
  }

  lemma {:induction false} OptionsStayEnabled(s: State, token: string, rest: seq<string>, n: Numerals)
    requires |token| > 1
    ensures LongOption(s, token[2..], rest, n).state.enabled == s.enabled
    ensures ShortOptions(s, token[1..], rest, n).state.enabled == s.enabled
  {
    ShortsStayEnabled(s, token[1..], rest, n);
  }

  /** Whatever is accepted means a list of options and plain arguments whose texts stand on
      the command line; `OptionHolds` and `PositionalHolds` say what they leave behind. */
  lemma {:induction false} AcceptedMeans(s: State, args: seq<string>, n: Numerals) returns (items: seq<Item>)
    requires Parse(s, args, n).0.Ok?
    ensures Meant(s, items, n) == (Ok, Parse(s, args, n).1.(enabled := s.enabled))
    ensures TakenFrom(items, args)
    decreases |args|
  {
    if args == [] { return []; }
    var token, rest := args[0], args[1..];
    var p := Token(s, token, rest, n);
    var first := TokenMeans(s, token, rest, n);
    var more := AcceptedMeans(p.state, p.rest, n);
    items := first + more;
    MeantAnyway(p.state, more, s.enabled, n);
    MeantAppends(s, first, more, n);
    forall i | i in items ensures exists a :: a in args && Ends(a, i) {
      if i in first {
        if Ends(token, i) { assert token in args; } else { assert rest[0] in args; }
      } else {
        var a :| a in p.rest && Ends(a, i);
        assert a in args;
      }
    }
  }
}
