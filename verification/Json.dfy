// The JSON text that the trace recorder of src/trace.c writes, and a reader for it that
// follows RFC 8259, so that what was written can be shown to be read back.

module Json {
  /** A file position after reading a value, or a text that is not JSON. */
  datatype Read<T> = Fail | Got(value: T, rest: string)

  datatype Value = Text(chars: string) | Number(digits: string) | Object(fields: seq<Field>)
  datatype Field = Field(key: string, value: Value)

  // ---------- Strings (RFC 8259, section 7) ----------

  function HexDigit(n: int): (c: char)
    requires 0 <= n < 16
    ensures HexValue(c) == n
  {
    "0123456789abcdef"[n]
  }

  function HexValue(c: char): int {
    if '0' <= c <= '9' then c as int - 48
    else if 'a' <= c <= 'f' then c as int - 87
    else if 'A' <= c <= 'F' then c as int - 55
    else -1
  }

  function EscapeChar(c: char): (s: string) {
    if c == '\"' then "\\\""
    else if c == '\\' then "\\\\"
    else if c as int == 8 then "\\b"
    else if c as int == 12 then "\\f"
    else if c == '\n' then "\\n"
    else if c == '\r' then "\\r"
    else if c == '\t' then "\\t"
    else if c < ' ' then ['\\', 'u', '0', '0', HexDigit(c as int / 16), HexDigit(c as int % 16)]
    else [c]
  }

  function Escape(s: string): string {
    if s == "" then "" else EscapeChar(s[0]) + Escape(s[1..])
  }

  function Quoted(s: string): string {
    "\"" + Escape(s) + "\""
  }

  /** Reads one escape after its backslash. Code points that need several bytes are refused:
      a character of this model is one byte. */
  function ReadEscape(s: string): (r: Read<char>)
    ensures r.Got? ==> |r.rest| < |s|
  {
    if s == "" then Fail
    else if s[0] == '\"' || s[0] == '\\' || s[0] == '/' then Got(s[0], s[1..])
    else if s[0] == 'b' then Got(8 as char, s[1..])
    else if s[0] == 'f' then Got(12 as char, s[1..])
    else if s[0] == 'n' then Got('\n', s[1..])
    else if s[0] == 'r' then Got('\r', s[1..])
    else if s[0] == 't' then Got('\t', s[1..])
    else if s[0] == 'u' && |s| >= 5 then
      var a, b, c, d := HexValue(s[1]), HexValue(s[2]), HexValue(s[3]), HexValue(s[4]);
      if a != 0 || b != 0 || !(0 <= c < 8) || d < 0 then Fail else Got((16 * c + d) as char, s[5..])
    else Fail
  }

  /** Reads the characters of a string and its closing quote. */
  function ReadChars(s: string): (r: Read<string>)
    ensures r.Got? ==> |r.rest| < |s|
    decreases |s|
  {
    if s == "" || (s[0] < ' ') then Fail
    else if s[0] == '\"' then Got("", s[1..])
    else
      var first := if s[0] == '\\' then ReadEscape(s[1..]) else Got(s[0], s[1..]);
      if first.Fail? then Fail
      else
        var more := ReadChars(first.rest);
        if more.Fail? then Fail else Got([first.value] + more.value, more.rest)
  }

  lemma {:induction false} EscapeIsRead(c: char, rest: string)
    requires EscapeChar(c) != [c]
    ensures EscapeChar(c)[0] == '\\'
    ensures ReadEscape(EscapeChar(c)[1..] + rest) == Got(c, rest)
  {
  }

  /** An escaped character is read as that character. */
  lemma {:induction false} CharIsRead(c: char, tail: string)
    requires ReadChars(tail).Got?
    ensures ReadChars(EscapeChar(c) + tail) == Got([c] + ReadChars(tail).value, ReadChars(tail).rest)
  {
    if EscapeChar(c) == [c] {
      PlainIsRead(c, tail);
    } else {
      var all := EscapeChar(c) + tail;
      EscapeIsRead(c, tail);
      assert all[1..] == EscapeChar(c)[1..] + tail;
    }
  }

  lemma {:induction false} PlainIsRead(c: char, tail: string)
    requires ReadChars(tail).Got? && EscapeChar(c) == [c]
    ensures ReadChars([c] + tail) == Got([c] + ReadChars(tail).value, ReadChars(tail).rest)
  {
    assert ([c] + tail)[0] == c && ([c] + tail)[1..] == tail;
  }

  lemma {:induction false} QuoteIsRead(rest: string)
    ensures ReadChars("\"" + rest) == Got("", rest)
  {
  }

  /** Every string is read back, whatever follows it. */
  lemma {:induction false} QuotedIsRead(s: string, rest: string)
    ensures ReadChars(Escape(s) + "\"" + rest) == Got(s, rest)
    decreases |s|
  {
    if s == "" {
      QuoteIsRead(rest);
      assert Escape(s) + "\"" + rest == "\"" + rest;
    } else {
      QuotedIsRead(s[1..], rest);
      SplitFirst(s, rest);
      CharIsRead(s[0], Escape(s[1..]) + "\"" + rest);
    }
  }

  predicate Plain(s: string) {
    forall i :: 0 <= i < |s| ==> 'a' <= s[i] <= 'z' || 'A' <= s[i] <= 'Z'
  }

  /** Text without special characters is written as it is. */
  lemma {:induction false} PlainIsUnescaped(s: string)
    requires Plain(s)
    ensures Escape(s) == s
  {
    if s != "" {
      PlainIsUnescaped(s[1..]);
      assert [s[0]] + s[1..] == s;
    }
  }

  lemma {:induction false} SplitFirst(s: string, rest: string)
    requires s != ""
    ensures Escape(s) + "\"" + rest == EscapeChar(s[0]) + (Escape(s[1..]) + "\"" + rest)
    ensures [s[0]] + s[1..] == s
  {
  }

  // ---------- Numbers (RFC 8259, section 6) ----------

  predicate IsDigit(c: char) {
    '0' <= c <= '9'
  }

  predicate AllDigits(s: string) {
    forall i :: 0 <= i < |s| ==> IsDigit(s[i])
  }

  function DigitRun(s: string): (n: nat)
    ensures n <= |s| && AllDigits(s[..n])
  {
    if s == "" || !IsDigit(s[0]) then 0
    else
      var n := 1 + DigitRun(s[1..]);
      assert s[..n] == [s[0]] + s[1..][..n - 1];
      n
  }

  /** An optional sign, an integer without superfluous zeros, a fraction and an exponent. */
  predicate IsNumber(s: string) {
    IsUnsigned(if s != "" && s[0] == '-' then s[1..] else s)
  }

  predicate IsUnsigned(s: string) {
    var n := DigitRun(s);
    0 < n && (n == 1 || s[0] != '0') && IsFraction(s[n..])
  }

  predicate IsFraction(s: string) {
    if s != "" && s[0] == '.' then
      var n := DigitRun(s[1..]);
      0 < n && IsExponent(s[1..][n..])
    else IsExponent(s)
  }

  predicate IsExponent(s: string) {
    s == "" || ((s[0] == 'e' || s[0] == 'E') && IsPower(s[1..]))
  }

  predicate IsPower(s: string) {
    var digits := if s != "" && (s[0] == '+' || s[0] == '-') then s[1..] else s;
    digits != "" && AllDigits(digits)
  }

  predicate NumberChar(c: char) {
    IsDigit(c) || c in "-+.eE"
  }

  ghost predicate AllNumberChars(s: string) {
    forall i :: 0 <= i < |s| ==> NumberChar(s[i])
  }

  lemma {:induction false} FirstAndRest(s: string)
    requires s != "" && NumberChar(s[0]) && AllNumberChars(s[1..])
    ensures AllNumberChars(s)
  {
    forall i | 0 <= i < |s| ensures NumberChar(s[i]) {
      if i > 0 { assert s[i] == s[1..][i - 1]; }
    }
  }

  lemma {:induction false} RunAndRest(s: string, n: nat)
    requires n <= |s| && AllDigits(s[..n]) && AllNumberChars(s[n..])
    ensures AllNumberChars(s)
  {
    forall i | 0 <= i < |s| ensures NumberChar(s[i]) {
      if i < n { assert s[i] == s[..n][i]; } else { assert s[i] == s[n..][i - n]; }
    }
  }

  /** The numbers are among the runs of number characters. */
  lemma {:induction false} NumberHasChars(s: string)
    requires IsNumber(s)
    ensures s != "" && AllNumberChars(s)
  {
    if s != "" && s[0] == '-' {
      UnsignedHasChars(s[1..]);
      FirstAndRest(s);
    } else {
      UnsignedHasChars(s);
    }
  }

  lemma {:induction false} UnsignedHasChars(s: string)
    requires IsUnsigned(s)
    ensures s != "" && AllNumberChars(s)
  {
    var n := DigitRun(s);
    FractionHasChars(s[n..]);
    RunAndRest(s, n);
  }

  lemma {:induction false} FractionHasChars(s: string)
    requires IsFraction(s)
    ensures AllNumberChars(s)
  {
    if s != "" && s[0] == '.' {
      var t := s[1..];
      var n := DigitRun(t);
      ExponentHasChars(t[n..]);
      RunAndRest(t, n);
      FirstAndRest(s);
    } else {
      ExponentHasChars(s);
    }
  }

  lemma {:induction false} ExponentHasChars(s: string)
    requires IsExponent(s)
    ensures AllNumberChars(s)
  {
    if s != "" {
      var p := s[1..];
      if p[0] == '+' || p[0] == '-' { FirstAndRest(p); }
      FirstAndRest(s);
    }
  }

  lemma {:induction false} DigitRunStops(s: string, rest: string)
    requires AllDigits(s) && (rest == "" || !IsDigit(rest[0]))
    ensures DigitRun(s + rest) == |s|
  {
    if s == "" {
      assert s + rest == rest;
    } else {
      DigitRunStops(s[1..], rest);
      assert (s + rest)[1..] == s[1..] + rest;
    }
  }

  /** Digits without a superfluous zero, and a fraction or not, are a number. */
  lemma {:induction false} DigitsAreNumber(s: string, fraction: string)
    requires s != "" && AllDigits(s) && (|s| == 1 || s[0] != '0')
    requires fraction == "" || (fraction[0] == '.' && |fraction| > 1 && AllDigits(fraction[1..]))
    ensures IsUnsigned(s + fraction) && IsNumber(s + fraction)
  {
    DigitRunStops(s, fraction);
    assert (s + fraction)[|s|..] == fraction;
    if fraction != "" {
      DigitRunStops(fraction[1..], "");
      assert fraction[1..] + "" == fraction[1..];
    }
  }

  function NumberLength(s: string): (n: nat)
    ensures n <= |s|
  {
    if s == "" || !NumberChar(s[0]) then 0 else 1 + NumberLength(s[1..])
  }

  /** What follows a value does not continue a number. */
  predicate Ends(rest: string) {
    rest == "" || !NumberChar(rest[0])
  }

  lemma {:induction false} NumberIsRead(digits: string, rest: string)
    requires Ends(rest) && AllNumberChars(digits)
    ensures NumberLength(digits + rest) == |digits|
  {
    if digits == "" {
      assert digits + rest == rest;
    } else {
      NumberIsRead(digits[1..], rest);
      assert (digits + rest)[1..] == digits[1..] + rest;
    }
  }

  // ---------- Values ----------

  function Render(v: Value): string {
    match v
    case Text(chars) => Quoted(chars)
    case Number(digits) => digits
    case Object(fields) => "{" + RenderFields(fields) + "}"
  }

  function RenderField(f: Field): string {
    Quoted(f.key) + ":" + Render(f.value)
  }

  function RenderFields(fs: seq<Field>): string {
    if fs == [] then "" else RenderField(fs[0]) + RenderRest(fs[1..])
  }

  /** The members after the first, each behind its comma. */
  function RenderRest(fs: seq<Field>): string {
    if fs == [] then "" else "," + RenderField(fs[0]) + RenderRest(fs[1..])
  }

  lemma {:induction false} RenderRestAppends(fs: seq<Field>, gs: seq<Field>)
    ensures RenderRest(fs + gs) == RenderRest(fs) + RenderRest(gs)
  {
    if fs == [] {
      assert fs + gs == gs && RenderRest(fs) + RenderRest(gs) == RenderRest(gs);
    } else {
      RenderRestAppends(fs[1..], gs);
      assert (fs + gs)[1..] == fs[1..] + gs;
      Regroup("," + RenderField(fs[0]), RenderRest(fs[1..]), RenderRest(gs));
    }
  }

  lemma {:induction false} Regroup(a: string, b: string, c: string)
    ensures a + b + c == a + (b + c)
  {
  }

  /** A member with a plain key, written as a fixed piece followed by its value. */
  lemma {:induction false} MemberIs(key: string, piece: string, v: Value)
    requires Plain(key) && piece == "\"" + key + "\":"
    ensures RenderField(Field(key, v)) == piece + Render(v)
  {
    PlainIsUnescaped(key);
  }

  lemma {:induction false} LaterMemberIs(key: string, piece: string, v: Value)
    requires Plain(key) && piece == ",\"" + key + "\":"
    ensures RenderRest([Field(key, v)]) == piece + Render(v)
  {
    MemberIs(key, piece[1..], v);
    assert [Field(key, v)][1..] == [] && piece == "," + piece[1..];
    Regroup(",", piece[1..], Render(v));
  }

  lemma {:induction false} ObjectIs(first: Field, others: seq<Field>)
    ensures Render(Object([first] + others)) == "{" + RenderField(first) + RenderRest(others) + "}"
  {
  }

  predicate Proper(v: Value) {
    match v
    case Text(_) => true
    case Number(digits) => IsNumber(digits)
    case Object(fields) => forall i :: 0 <= i < |fields| ==> Proper(fields[i].value)
  }

  function ReadValue(s: string): (r: Read<Value>)
    ensures r.Got? ==> |r.rest| < |s|
    decreases |s|, 0
  {
    if s == "" then Fail
    else if s[0] == '\"' then
      var r := ReadChars(s[1..]);
      if r.Fail? then Fail else Got(Text(r.value), r.rest)
    else if s[0] == '{' then
      if |s| > 1 && s[1] == '}' then Got(Object([]), s[2..])
      else
        var r := ReadFields(s[1..]);
        if r.Fail? then Fail else Got(Object(r.value), r.rest)
    else
      var n := NumberLength(s);
      if n > 0 && IsNumber(s[..n]) then Got(Number(s[..n]), s[n..]) else Fail
  }

  function ReadField(s: string): (r: Read<Field>)
    ensures r.Got? ==> |r.rest| < |s|
    decreases |s|, 1
  {
    if s == "" || s[0] != '\"' then Fail
    else
      var key := ReadChars(s[1..]);
      if key.Fail? || key.rest == "" || key.rest[0] != ':' then Fail
      else
        var v := ReadValue(key.rest[1..]);
        if v.Fail? then Fail else Got(Field(key.value, v.value), v.rest)
  }

  /** Reads the members of an object and its closing brace. */
  function ReadFields(s: string): (r: Read<seq<Field>>)
    ensures r.Got? ==> |r.rest| < |s|
    decreases |s|, 2
  {
    var f := ReadField(s);
    if f.Fail? || f.rest == "" then Fail
    else if f.rest[0] == '}' then Got([f.value], f.rest[1..])
    else if f.rest[0] == ',' then
      var more := ReadFields(f.rest[1..]);
      if more.Fail? then Fail else Got([f.value] + more.value, more.rest)
    else Fail
  }

  lemma {:induction false} TextIsRead(chars: string, rest: string)
    ensures ReadValue(Quoted(chars) + rest) == Got(Text(chars), rest)
  {
    QuotedIsRead(chars, rest);
    assert (Quoted(chars) + rest)[1..] == Escape(chars) + "\"" + rest;
  }

  lemma {:induction false} NumberValueIsRead(digits: string, rest: string)
    requires Proper(Number(digits)) && Ends(rest)
    ensures ReadValue(digits + rest) == Got(Number(digits), rest)
  {
    NumberHasChars(digits);
    NumberIsRead(digits, rest);
    var s := digits + rest;
    assert NumberChar(s[0]) && s[..|digits|] == digits && s[|digits|..] == rest;
  }

  lemma {:induction false} ObjectIsRead(fs: seq<Field>, rest: string)
    requires fs != [] ==> ReadFields(RenderFields(fs) + "}" + rest) == Got(fs, rest)
    ensures ReadValue("{" + RenderFields(fs) + "}" + rest) == Got(Object(fs), rest)
  {
    var body := RenderFields(fs) + "}" + rest;
    var s := "{" + body;
    assert "{" + RenderFields(fs) + "}" + rest == s;
    assert s[1..] == body;
    if fs == [] {
      assert body == "}" + rest;
      assert s[2..] == rest;
    } else {
      MembersStart(fs);
    }
  }

  lemma {:induction false} MembersStart(fs: seq<Field>)
    requires fs != []
    ensures RenderFields(fs) != "" && RenderFields(fs)[0] == '\"'
  {
  }

  lemma {:induction false} FieldIsRead(f: Field, rest: string)
    requires ReadValue(Render(f.value) + rest) == Got(f.value, rest)
    ensures ReadField(RenderField(f) + rest) == Got(f, rest)
  {
    var after := ":" + (Render(f.value) + rest);
    QuotedIsRead(f.key, after);
    MemberText(Escape(f.key), Render(f.value), rest);
    assert after[1..] == Render(f.value) + rest;
  }

  lemma {:induction false} MemberText(key: string, value: string, rest: string)
    ensures var s := "\"" + key + "\"" + ":" + value + rest;
            s[0] == '\"' && s[1..] == key + "\"" + (":" + (value + rest))
  {
  }

  /** A written value is read back, whatever follows it other than more of a number. */
  lemma {:induction false} ValueIsRead(v: Value, rest: string)
    requires Proper(v) && Ends(rest)
    ensures ReadValue(Render(v) + rest) == Got(v, rest)
    decreases v, if v.Object? then |v.fields| + 1 else 0
  {
    match v
    case Text(chars) => TextIsRead(chars, rest);
    case Number(digits) => NumberValueIsRead(digits, rest);
    case Object(fields) =>
      if fields != [] {
        FieldsAreRead(v, 0, rest);
        assert fields[0..] == fields;
      }
      ObjectIsRead(fields, rest);
      assert Render(v) + rest == "{" + RenderFields(fields) + "}" + rest;
  }

  lemma {:induction false} FieldsAreRead(v: Value, k: nat, rest: string)
    requires v.Object? && Proper(v) && k < |v.fields|
    ensures ReadFields(RenderFields(v.fields[k..]) + "}" + rest) == Got(v.fields[k..], rest)
    decreases v, |v.fields| - k
  {
    var f, more := v.fields[k], v.fields[k + 1..];
    SuffixIs(v.fields, k);
    var tail := if more == [] then "}" + rest else "," + (RenderFields(more) + "}" + rest);
    ValueIsRead(f.value, tail);
    FieldIsRead(f, tail);
    if more == [] {
      LastFieldIsRead(f, rest);
    } else {
      FieldsAreRead(v, k + 1, rest);
      MoreFieldsAreRead(f, more, rest);
    }
  }

  lemma SuffixIs(fs: seq<Field>, k: nat)
    requires k < |fs|
    ensures fs[k..] == [fs[k]] + fs[k + 1..]
    ensures fs[k + 1..] == [] ==> fs[k..] == [fs[k]]
  {
  }

  lemma {:induction false} LastFieldIsRead(f: Field, rest: string)
    requires ReadField(RenderField(f) + ("}" + rest)) == Got(f, "}" + rest)
    ensures ReadFields(RenderFields([f]) + "}" + rest) == Got([f], rest)
  {
    assert RenderFields([f]) + "}" + rest == RenderField(f) + ("}" + rest);
    assert ("}" + rest)[1..] == rest;
  }

  lemma {:induction false} MoreFieldsAreRead(f: Field, fs: seq<Field>, rest: string)
    requires fs != [] && ReadFields(RenderFields(fs) + "}" + rest) == Got(fs, rest)
    requires var more := RenderFields(fs) + "}" + rest; ReadField(RenderField(f) + ("," + more)) == Got(f, "," + more)
    ensures ReadFields(RenderFields([f] + fs) + "}" + rest) == Got([f] + fs, rest)
  {
    var more := RenderFields(fs) + "}" + rest;
    RenderFieldsCons(f, fs);
    MembersText(RenderField(f), RenderFields(fs), rest);
    assert ("," + more)[1..] == more;
  }

  lemma {:induction false} RenderFieldsCons(f: Field, fs: seq<Field>)
    requires fs != []
    ensures RenderFields([f] + fs) == RenderField(f) + "," + RenderFields(fs)
  {
  }

  lemma {:induction false} MembersText(first: string, others: string, rest: string)
    ensures (first + "," + others) + "}" + rest == first + ("," + (others + "}" + rest))
  {
  }

  // ---------- Documents ----------

  function Skip(s: string): (r: string)
    ensures |r| <= |s|
  {
    if s != "" && (s[0] == ' ' || s[0] == '\n' || s[0] == '\r' || s[0] == '\t') then Skip(s[1..]) else s
  }

  /** Reads the elements of an array and its closing bracket. */
  function ReadElements(s: string): (r: Read<seq<Value>>)
    decreases |s|
  {
    var v := ReadValue(Skip(s));
    if v.Fail? then Fail
    else
      var after := Skip(v.rest);
      if after == "" then Fail
      else if after[0] == ']' then Got([v.value], after[1..])
      else if after[0] == ',' then
        var more := ReadElements(after[1..]);
        if more.Fail? then Fail else Got([v.value] + more.value, more.rest)
      else Fail
  }

  /** Reads a text that is one array, with white space around it. */
  function ReadDocument(s: string): Read<seq<Value>> {
    var t := Skip(s);
    if t == "" || t[0] != '[' then Fail
    else
      var inner := Skip(t[1..]);
      var r := if inner != "" && inner[0] == ']' then Got([], inner[1..]) else ReadElements(inner);
      if r.Fail? || Skip(r.rest) != "" then Fail else Got(r.value, "")
  }

  /** The values in order, with a comma and a new line between them. */
  function Joined(vs: seq<Value>): string {
    if vs == [] then "" else if |vs| == 1 then Render(vs[0])
    else Joined(vs[..|vs| - 1]) + ",\n" + Render(vs[|vs| - 1])
  }

  function DocumentText(vs: seq<Value>): string {
    "[\n" + Joined(vs) + "\n]\n"
  }

  lemma {:induction false} JoinedFront(vs: seq<Value>)
    requires |vs| >= 2
    ensures Joined(vs) == Render(vs[0]) + ",\n" + Joined(vs[1..])
    decreases |vs|
  {
    var n := |vs| - 1;
    if n == 1 {
      assert vs[..1] == [vs[0]] && vs[1..] == [vs[1]];
    } else {
      JoinedFront(vs[..n]);
      assert vs[..n][1..] == vs[1..][..n - 1];
      MiddleText(Render(vs[0]), Joined(vs[1..][..n - 1]), Render(vs[n]));
    }
  }

  lemma {:induction false} JoinedAppends(vs: seq<Value>, v: Value)
    ensures Joined(vs + [v]) == Joined(vs) + (if vs == [] then "" else ",\n") + Render(v)
  {
  }

  lemma {:induction false} MiddleText(a: string, b: string, c: string)
    ensures (a + ",\n" + b) + ",\n" + c == a + ",\n" + (b + ",\n" + c)
  {
  }

  predicate AllProper(vs: seq<Value>) {
    forall i :: 0 <= i < |vs| ==> vs[i].Object? && Proper(vs[i])
  }

  /** Skipping stops at an object, and steps over the line ends between events. */
  lemma {:induction false} SkipsLines(v: Value, rest: string)
    requires v.Object?
    ensures Skip(Render(v) + rest) == Render(v) + rest
    ensures Skip("\n" + (Render(v) + rest)) == Render(v) + rest
    ensures Skip("\n]\n") == "]\n" && "]\n"[1..] == "\n" && Skip("\n") == ""
    ensures Skip("," + rest) == "," + rest
  {
  }

  lemma {:induction false} ElementsAreRead(vs: seq<Value>)
    requires vs != [] && AllProper(vs)
    ensures ReadElements(Joined(vs) + "\n]\n") == Got(vs, "\n")
    ensures ReadElements("\n" + (Joined(vs) + "\n]\n")) == Got(vs, "\n")
    decreases |vs|
  {
    if |vs| == 1 {
      ValueIsRead(vs[0], "\n]\n");
      SkipsLines(vs[0], "\n]\n");
      assert vs == [vs[0]];
    } else {
      ElementsAreRead(vs[1..]);
      JoinedFront(vs);
      FrontText(Render(vs[0]), Joined(vs[1..]));
      ElementIsRead(vs[0], "\n" + (Joined(vs[1..]) + "\n]\n"), vs[1..]);
      assert vs == [vs[0]] + vs[1..];
    }
  }

  lemma {:induction false} ElementIsRead(first: Value, more: string, vs: seq<Value>)
    requires Proper(first) && first.Object? && ReadElements(more) == Got(vs, "\n")
    ensures ReadElements(Render(first) + ("," + more)) == Got([first] + vs, "\n")
    ensures ReadElements("\n" + (Render(first) + ("," + more))) == Got([first] + vs, "\n")
  {
    var after := "," + more;
    ValueIsRead(first, after);
    SkipsLines(first, after);
    SkipsLines(first, more);
    assert after[1..] == more;
  }

  lemma {:induction false} FrontText(a: string, b: string)
    ensures (a + ",\n" + b) + "\n]\n" == a + ("," + ("\n" + (b + "\n]\n")))
  {
  }

  /** A written document is read back: exactly its values, in order. */
  lemma {:induction false} DocumentIsRead(vs: seq<Value>)
    requires AllProper(vs)
    ensures ReadDocument(DocumentText(vs)) == Got(vs, "")
  {
    var body := Joined(vs) + "\n]\n";
    var s := DocumentText(vs);
    assert s[0] == '[' && s[1..] == "\n" + body;
    SkipsLines(Object([]), "");
    if vs == [] {
      assert body == "\n]\n";
      assert s[1..][1..] == body && body[1..] == "]\n";
    } else {
      JoinedStarts(vs);
      assert s[1..][1..] == body;
      ElementsAreRead(vs);
    }
  }

  lemma {:induction false} JoinedStarts(vs: seq<Value>)
    requires vs != [] && vs[0].Object?
    ensures Joined(vs) != "" && Joined(vs)[0] == '{'
  {
    if |vs| > 1 { JoinedFront(vs); }
  }

  // ---------- Decimal numbers ----------

  function Digit(n: int): (c: char)
    requires 0 <= n < 10
    ensures '0' <= c <= '9' && c as int - 48 == n
  {
    (48 + n) as char
  }

  function Decimal(n: nat): (s: string)
    ensures s != "" && forall i :: 0 <= i < |s| ==> '0' <= s[i] <= '9'
  {
    if n < 10 then [Digit(n)] else Decimal(n / 10) + [Digit(n % 10)]
  }

  /** No superfluous zero is written. */
  lemma {:induction false} DecimalStarts(n: nat)
    ensures n > 0 ==> Decimal(n)[0] != '0'
    ensures n == 0 ==> |Decimal(n)| == 1
  {
    if n >= 10 {
      DecimalStarts(n / 10);
      assert Decimal(n)[0] == Decimal(n / 10)[0];
    }
  }

  lemma {:induction false} DecimalIsNumber(n: nat, fraction: string)
    requires fraction == "" || (fraction[0] == '.' && |fraction| > 1 && AllDigits(fraction[1..]))
    ensures IsNumber(Decimal(n) + fraction) && IsUnsigned(Decimal(n) + fraction)
  {
    DecimalStarts(n);
    DigitsAreNumber(Decimal(n), fraction);
  }

  function FromDecimal(s: string): int {
    if s == "" then 0 else 10 * FromDecimal(s[..|s| - 1]) + (s[|s| - 1] as int - 48)
  }

  lemma {:induction false} FromDecimalAppends(s: string, c: char)
    ensures FromDecimal(s + [c]) == 10 * FromDecimal(s) + (c as int - 48)
  {
  }

  lemma {:induction false} DecimalIsRead(n: nat)
    ensures FromDecimal(Decimal(n)) == n
  {
    if n < 10 {
      FromDecimalAppends("", Digit(n));
      assert Decimal(n) == "" + [Digit(n)];
    } else {
      DecimalIsRead(n / 10);
      FromDecimalAppends(Decimal(n / 10), Digit(n % 10));
    }
  }

  lemma {:induction false} DecimalDetermines(n: nat, n': nat)
    requires Decimal(n) == Decimal(n')
    ensures n == n'
  {
    DecimalIsRead(n);
    DecimalIsRead(n');
  }

  function Signed(v: int): string {
    if v < 0 then "-" + Decimal(-v) else Decimal(v)
  }

  function FromSigned(s: string): int {
    if s != "" && s[0] == '-' then -FromDecimal(s[1..]) else FromDecimal(s)
  }

  lemma {:induction false} SignedIsNumber(v: int)
    ensures IsNumber(Signed(v))
  {
    var n := if v < 0 then -v else v;
    DecimalIsNumber(n, "");
    assert Decimal(n) + "" == Decimal(n);
    if v < 0 { assert Signed(v)[1..] == Decimal(n); }
  }

  lemma {:induction false} SignedIsRead(v: int)
    ensures FromSigned(Signed(v)) == v
  {
    if v < 0 {
      DecimalIsRead(-v);
      assert Signed(v)[1..] == Decimal(-v);
    } else {
      DecimalIsRead(v);
    }
  }

  function Hex(n: nat): (s: string)
    ensures s != ""
  {
    if n < 16 then [HexDigit(n)] else Hex(n / 16) + [HexDigit(n % 16)]
  }

  function FromHex(s: string): int {
    if s == "" then 0 else 16 * FromHex(s[..|s| - 1]) + HexValue(s[|s| - 1])
  }

  lemma {:induction false} HexIsRead(n: nat)
    ensures FromHex(Hex(n)) == n
  {
    if n < 16 {
      FromHexAppends("", HexDigit(n));
      assert Hex(n) == "" + [HexDigit(n)];
    } else {
      HexIsRead(n / 16);
      FromHexAppends(Hex(n / 16), HexDigit(n % 16));
    }
  }

  lemma {:induction false} FromHexAppends(s: string, c: char)
    ensures FromHex(s + [c]) == 16 * FromHex(s) + HexValue(c)
  {
  }
}
