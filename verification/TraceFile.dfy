// The trace file of src/trace.c: how each record becomes one JSON event, how the writer
// sends it piece by piece, and why the finished file can be read back.

module TraceFiles {
  import opened Common
  import opened Bits
  import opened TraceModel
  import opened Json

  datatype Event =
    | Metadata(item: string, thread: nat, name: string)
    | Traced(thread: nat, record: Record)

  /** What the recorder puts in a record: only counters carry a value, automatic
      beginnings an address, and ends and automatic beginnings have no name. */
  predicate Canonical(e: Event) {
    e.Traced? ==>
      && e.record.value < Pow2(64)
      && (e.record.kind.CounterRecord? || e.record.kind.AutoBeginRecord? || e.record.value == 0)
      && (e.record.kind.EndRecord? || e.record.kind.AutoBeginRecord? ==> e.record.name == [])
  }

  // ---------- One event ----------

  function Chars(name: seq<Byte>): (s: string)
    ensures |s| == |name| && forall i :: 0 <= i < |name| ==> s[i] as int == name[i]
  {
    seq(|name|, i requires 0 <= i < |name| => name[i] as char)
  }

  /** Microseconds, with three decimals when they are not whole. */
  function Timestamp(ns: nat): (s: string) {
    Decimal(ns / 1000) + Thousandths(ns % 1000)
  }

  function Thousandths(m: nat): string
    requires m < 1000
  {
    if m == 0 then "" else ['.', Digit(m / 100), Digit(m / 10 % 10), Digit(m % 10)]
  }

  function FromTimestamp(s: string): int {
    if |s| > 4 && s[|s| - 4] == '.' then 1000 * FromDecimal(s[..|s| - 4]) + FromDecimal(s[|s| - 3..])
    else 1000 * FromDecimal(s)
  }

  lemma {:induction false} TimestampIsNumber(ns: nat)
    ensures IsNumber(Timestamp(ns))
  {
    DecimalIsNumber(ns / 1000, Thousandths(ns % 1000));
  }

  /** No nanosecond is lost in the decimal point. */
  lemma {:induction false} TimestampIsRead(ns: nat)
    ensures FromTimestamp(Timestamp(ns)) == ns
  {
    DecimalIsRead(ns / 1000);
    if ns % 1000 == 0 {
      assert Timestamp(ns) == Decimal(ns / 1000);
    } else {
      ThousandthsAreRead(ns % 1000);
      FractionSplits(Decimal(ns / 1000), Thousandths(ns % 1000));
    }
  }

  lemma {:induction false} FractionSplits(whole: string, fraction: string)
    requires whole != "" && |fraction| == 4 && fraction[0] == '.'
    ensures FromTimestamp(whole + fraction) == 1000 * FromDecimal(whole) + FromDecimal(fraction[1..])
  {
  }

  lemma {:induction false} ThousandthsAreRead(m: nat)
    requires 0 < m < 1000
    ensures FromDecimal(Thousandths(m)[1..]) == m
  {
    ThreeDigits(m / 100, m / 10 % 10, m % 10);
    assert m / 10 == 10 * (m / 100) + m / 10 % 10;
  }

  lemma {:induction false} ThreeDigits(a: int, b: int, c: int)
    requires 0 <= a < 10 && 0 <= b < 10 && 0 <= c < 10
    ensures FromDecimal(['.', Digit(a), Digit(b), Digit(c)][1..]) == 100 * a + 10 * b + c
  {
    FromDecimalAppends("", Digit(a));
    FromDecimalAppends("" + [Digit(a)], Digit(b));
    FromDecimalAppends("" + [Digit(a)] + [Digit(b)], Digit(c));
    assert ['.', Digit(a), Digit(b), Digit(c)][1..] == "" + [Digit(a)] + [Digit(b)] + [Digit(c)];
  }

  /** A counter is stored as the bits of a signed number. */
  function AsSigned(bits: nat): int {
    if bits < Pow2(63) then bits else bits - Pow2(64)
  }

  function Title(r: Record): string {
    if r.kind.AutoBeginRecord? then "0x" + Hex(r.value) else Chars(r.name)
  }

  function Category(r: Record): string {
    if r.kind.AutoBeginRecord? then "lor.auto" else "lor"
  }

  function Phase(k: Kind): string {
    match k
    case BeginRecord | AutoBeginRecord => "B"
    case EndRecord => "E"
    case InstantRecord => "i"
    case CounterRecord => "C"
  }

  function Origin(process: nat, thread: nat): seq<Field> {
    [Field("pid", Number(Decimal(process))), Field("tid", Number(Decimal(thread)))]
  }

  function Extra(r: Record): seq<Field> {
    match r.kind
    case InstantRecord => [Field("s", Text("t"))]
    case CounterRecord => [Field("args", Object([Field("value", Number(Signed(AsSigned(r.value))))]))]
    case _ => []
  }

  function Members(process: nat, e: Event): (fs: seq<Field>)
    ensures fs != []
  {
    match e
    case Metadata(item, thread, name) =>
      [Field("name", Text(item)), Field("ph", Text("M"))] + Origin(process, thread)
        + [Field("args", Object([Field("name", Text(name))]))]
    case Traced(thread, r) =>
      (if r.kind.EndRecord? then [] else [Field("name", Text(Title(r))), Field("cat", Text(Category(r)))])
        + [Field("ph", Text(Phase(r.kind)))] + Origin(process, thread) + [Field("ts", Number(Timestamp(r.timestamp)))]
        + Extra(r)
  }

  function Tree(process: nat, e: Event): Value {
    Object(Members(process, e))
  }

  function Trees(process: nat, es: seq<Event>): (vs: seq<Value>)
    ensures |vs| == |es| && forall i :: 0 <= i < |es| ==> vs[i] == Tree(process, es[i])
  {
    seq(|es|, i requires 0 <= i < |es| => Tree(process, es[i]))
  }

  function FileText(process: nat, es: seq<Event>): string {
    DocumentText(Trees(process, es))
  }

  ghost predicate ProperFields(fs: seq<Field>) {
    forall i :: 0 <= i < |fs| ==> Proper(fs[i].value)
  }

  lemma {:induction false} OriginIsProper(process: nat, thread: nat)
    ensures ProperFields(Origin(process, thread))
  {
    PlainDecimal(process);
    PlainDecimal(thread);
  }

  lemma {:induction false} ExtraIsProper(r: Record)
    ensures ProperFields(Extra(r))
  {
    if r.kind.CounterRecord? {
      SignedIsNumber(AsSigned(r.value));
      var value := Field("value", Number(Signed(AsSigned(r.value))));
      assert Proper(Object([value]));
    }
  }

  lemma {:induction false} TreeIsProper(process: nat, e: Event)
    ensures Proper(Tree(process, e))
  {
    OriginIsProper(process, e.thread);
    var origin := Origin(process, e.thread);
    match e
    case Metadata(item, thread, name) =>
      assert Proper(Object([Field("name", Text(name))]));
    case Traced(thread, r) =>
      TimestampIsNumber(r.timestamp);
      ExtraIsProper(r);
      var names := if r.kind.EndRecord? then [] else [Field("name", Text(Title(r))), Field("cat", Text(Category(r)))];
      var ph, ts := [Field("ph", Text(Phase(r.kind)))], [Field("ts", Number(Timestamp(r.timestamp)))];
      assert ProperFields(names + ph) && ProperFields(names + ph + origin) && ProperFields(names + ph + origin + ts);
      assert ProperFields(names + ph + origin + ts + Extra(r));
  }

  lemma {:induction false} PlainDecimal(n: nat)
    ensures IsNumber(Decimal(n))
  {
    DecimalIsNumber(n, "");
    assert Decimal(n) + "" == Decimal(n);
  }

  lemma {:induction false} TracedMembers(process: nat, thread: nat, r: Record)
    ensures var ph, pid, tid, ts := Field("ph", Text(Phase(r.kind))), Field("pid", Number(Decimal(process))),
                                    Field("tid", Number(Decimal(thread))), Field("ts", Number(Timestamp(r.timestamp)));
            Members(process, Traced(thread, r)) ==
              if r.kind.EndRecord? then [ph, pid, tid, ts]
              else [Field("name", Text(Title(r))), Field("cat", Text(Category(r))), ph, pid, tid, ts] + Extra(r)
  {
  }

  lemma {:induction false} SameKind(process: nat, thread: nat, r: Record, thread': nat, r': Record)
    requires Members(process, Traced(thread, r)) == Members(process, Traced(thread', r'))
    ensures r.kind == r'.kind && Decimal(thread) == Decimal(thread')
        && Timestamp(r.timestamp) == Timestamp(r'.timestamp)
    ensures !r.kind.EndRecord? ==> Title(r) == Title(r')
    ensures Extra(r) == Extra(r')
  {
    TracedMembers(process, thread, r);
    TracedMembers(process, thread', r');
    var fs, fs' := Members(process, Traced(thread, r)), Members(process, Traced(thread', r'));
    assert r.kind.EndRecord? <==> |fs| == 4;
    assert r'.kind.EndRecord? <==> |fs'| == 4;
    if |fs| != 4 {
      assert Extra(r) == fs[6..] == fs'[6..] == Extra(r');
      assert Category(r) == fs[1].value.chars == Category(r');
      assert |"lor"| != |"lor.auto"|;
      assert Phase(r.kind) == fs[2].value.chars == Phase(r'.kind);
      assert "B"[0] != "i"[0] && "B"[0] != "C"[0] && "i"[0] != "C"[0];
      assert fs[4] == fs'[4] && fs[5] == fs'[5] && fs[0] == fs'[0];
    }
  }

  lemma {:induction false} RecordDetermined(r: Record, r': Record)
    requires Canonical(Traced(0, r)) && Canonical(Traced(0, r'))
    requires r.kind == r'.kind && Timestamp(r.timestamp) == Timestamp(r'.timestamp)
    requires !r.kind.EndRecord? ==> Title(r) == Title(r')
    requires Extra(r) == Extra(r')
    ensures r == r'
  {
    TimestampIsRead(r.timestamp);
    TimestampIsRead(r'.timestamp);
    match r.kind
    case CounterRecord =>
      SignedIsRead(AsSigned(r.value));
      SignedIsRead(AsSigned(r'.value));
      assert Extra(r)[0].value.fields[0].value.digits == Signed(AsSigned(r.value));
      assert Extra(r')[0].value.fields[0].value.digits == Signed(AsSigned(r'.value));
      CharsDetermine(r.name, r'.name);
    case AutoBeginRecord =>
      HexIsRead(r.value);
      HexIsRead(r'.value);
      assert Title(r)[2..] == Hex(r.value) && Title(r')[2..] == Hex(r'.value);
    case EndRecord =>
    case _ => CharsDetermine(r.name, r'.name);
  }

  lemma {:induction false} CharsDetermine(name: seq<Byte>, name': seq<Byte>)
    requires Chars(name) == Chars(name')
    ensures name == name'
  {
  }

  /** Different events have different trees: nothing the recorder knows is lost. */
  lemma {:induction false} TreeDetermines(process: nat, e: Event, e': Event)
    requires Canonical(e) && Canonical(e') && Tree(process, e) == Tree(process, e')
    ensures e == e'
  {
    if e.Metadata? {
      MetadataDetermined(process, e, e');
    } else if e'.Metadata? {
      MetadataDetermined(process, e', e);
    } else {
      SameKind(process, e.thread, e.record, e'.thread, e'.record);
      DecimalDetermines(e.thread, e'.thread);
      RecordDetermined(e.record, e'.record);
    }
  }

  lemma {:induction false} MetadataDetermined(process: nat, e: Event, e': Event)
    requires e.Metadata? && Members(process, e) == Members(process, e')
    ensures e == e'
  {
    var fs, fs' := Members(process, e), Members(process, e');
    assert |fs| == 5;
    if e'.Metadata? {
      assert fs[0] == fs'[0] && fs[3] == fs'[3] && fs[4] == fs'[4];
      DecimalDetermines(e.thread, e'.thread);
    } else {
      TracedMembers(process, e'.thread, e'.record);
      assert false;
    }
  }

  // ---------- The promises ----------

  /** The finished file is a JSON array holding exactly the events written, in order. */
  lemma {:induction false} FileIsRead(process: nat, es: seq<Event>)
    ensures ReadDocument(FileText(process, es)) == Got(Trees(process, es), "")
  {
    forall e ensures Proper(Tree(process, e)) { TreeIsProper(process, e); }
    DocumentIsRead(Trees(process, es));
  }

  /** And the events can be recovered from it: two files are equal only if they hold the
      same records. */
  lemma {:induction false} FileDetermines(process: nat, es: seq<Event>, es': seq<Event>)
    requires FileText(process, es) == FileText(process, es')
    requires forall i :: 0 <= i < |es| ==> Canonical(es[i])
    requires forall i :: 0 <= i < |es'| ==> Canonical(es'[i])
    ensures es == es'
  {
    FileIsRead(process, es);
    FileIsRead(process, es');
    forall i | 0 <= i < |es| ensures es[i] == es'[i] {
      assert Trees(process, es)[i] == Trees(process, es')[i];
      TreeDetermines(process, es[i], es'[i]);
    }
  }

  // ---------- The text of one event, as the writer composes it ----------

  function OriginText(process: nat, thread: nat): string {
    ",\"pid\":" + Decimal(process) + (",\"tid\":" + Decimal(thread))
  }

  function TimeText(ns: nat): string {
    ",\"ts\":" + Timestamp(ns)
  }

  function ExtraText(r: Record): string {
    match r.kind
    case InstantRecord => ",\"s\":\"t\""
    case CounterRecord => ",\"args\":{\"value\":" + Signed(AsSigned(r.value)) + "}"
    case _ => ""
  }

  function NamesText(r: Record): string {
    "{\"name\":" + Quoted(Title(r)) + (",\"cat\":" + Quoted(Category(r))) + (",\"ph\":" + Quoted(Phase(r.kind)))
  }

  function TracedText(process: nat, thread: nat, r: Record): string {
    (if r.kind.EndRecord? then "{\"ph\":\"E\"" else NamesText(r))
      + OriginText(process, thread) + TimeText(r.timestamp) + ExtraText(r) + "}"
  }

  function MetadataText(process: nat, item: string, thread: nat, name: string): string {
    "{\"name\":" + Quoted(item) + ",\"ph\":\"M\"" + OriginText(process, thread)
      + (",\"args\":{\"name\":" + Quoted(name)) + "}}"
  }

  function EventText(process: nat, e: Event): string {
    match e
    case Metadata(item, thread, name) => MetadataText(process, item, thread, name)
    case Traced(thread, r) => TracedText(process, thread, r)
  }

  lemma {:induction false} OriginIs(process: nat, thread: nat)
    ensures RenderRest(Origin(process, thread)) == OriginText(process, thread)
  {
    var pid, tid := Number(Decimal(process)), Number(Decimal(thread));
    LaterMemberIs("pid", ",\"pid\":", pid);
    LaterMemberIs("tid", ",\"tid\":", tid);
    RenderRestAppends([Field("pid", pid)], [Field("tid", tid)]);
    assert Origin(process, thread) == [Field("pid", pid)] + [Field("tid", tid)];
  }

  lemma {:induction false} NameIs(name: string)
    ensures "{" + RenderField(Field("name", Text(name))) == "{\"name\":" + Quoted(name)
  {
  }

  lemma {:induction false} ArgumentIs(key: string, piece: string, v: Value)
    requires Plain(key) && piece == ",\"args\":{\"" + key + "\":"
    ensures RenderRest([Field("args", Object([Field(key, v)]))]) == piece + Render(v) + "}"
  {
    var member := "\"" + key + "\":";
    MemberIs(key, member, v);
    ObjectIs(Field(key, v), []);
    assert [Field(key, v)] + [] == [Field(key, v)];
    LaterMemberIs("args", ",\"args\":", Object([Field(key, v)]));
    assert piece == ",\"args\":" + "{" + member;
    ArgumentRegroup(",\"args\":", member, Render(v));
  }

  lemma {:induction false} ArgumentRegroup(a: string, b: string, c: string)
    ensures a + ("{" + (b + c) + "" + "}") == a + "{" + b + c + "}"
  {
  }

  lemma {:induction false} ExtraIs(r: Record)
    ensures RenderRest(Extra(r)) == ExtraText(r)
  {
    match r.kind
    case InstantRecord =>
      LaterMemberIs("s", ",\"s\":", Text("t"));
      PlainIsUnescaped("t");
    case CounterRecord => ArgumentIs("value", ",\"args\":{\"value\":", Number(Signed(AsSigned(r.value))));
    case _ =>
  }

  /** The members that follow the phase. */
  lemma {:induction false} TailIs(process: nat, thread: nat, r: Record)
    ensures RenderRest(Origin(process, thread) + [Field("ts", Number(Timestamp(r.timestamp)))] + Extra(r))
              == OriginText(process, thread) + TimeText(r.timestamp) + ExtraText(r)
  {
    var ts := Number(Timestamp(r.timestamp));
    OriginIs(process, thread);
    LaterMemberIs("ts", ",\"ts\":", ts);
    ExtraIs(r);
    RenderRestAppends(Origin(process, thread), [Field("ts", ts)]);
    RenderRestAppends(Origin(process, thread) + [Field("ts", ts)], Extra(r));
  }

  lemma {:induction false} EndPhase()
    ensures "{" + RenderField(Field("ph", Text("E"))) == "{\"ph\":\"E\""
  {
  }

  lemma {:induction false} EndTextIs(process: nat, thread: nat, r: Record)
    requires r.kind.EndRecord?
    ensures TracedText(process, thread, r) == Render(Tree(process, Traced(thread, r)))
  {
    var ph := Field("ph", Text("E"));
    var tail := Origin(process, thread) + [Field("ts", Number(Timestamp(r.timestamp)))] + Extra(r);
    TailIs(process, thread, r);
    EndPhase();
    ObjectIs(ph, tail);
    assert Members(process, Traced(thread, r)) == [ph] + tail;
    Regroup3("{\"ph\":\"E\"", OriginText(process, thread), TimeText(r.timestamp), ExtraText(r));
  }

  lemma {:induction false} Regroup3(a: string, b: string, c: string, d: string)
    ensures a + (b + c + d) == a + b + c + d
  {
  }

  lemma {:induction false} NamedMembers(process: nat, thread: nat, r: Record)
    requires !r.kind.EndRecord?
    ensures Members(process, Traced(thread, r)) ==
              [Field("name", Text(Title(r)))] + ([Field("cat", Text(Category(r)))] + [Field("ph", Text(Phase(r.kind)))]
                + (Origin(process, thread) + [Field("ts", Number(Timestamp(r.timestamp)))] + Extra(r)))
  {
  }

  lemma {:induction false} NamesAre(r: Record, tail: seq<Field>)
    ensures RenderRest([Field("cat", Text(Category(r)))] + [Field("ph", Text(Phase(r.kind)))] + tail)
              == ",\"cat\":" + Quoted(Category(r)) + (",\"ph\":" + Quoted(Phase(r.kind))) + RenderRest(tail)
  {
    var cat, ph := [Field("cat", Text(Category(r)))], [Field("ph", Text(Phase(r.kind)))];
    LaterMemberIs("cat", ",\"cat\":", Text(Category(r)));
    LaterMemberIs("ph", ",\"ph\":", Text(Phase(r.kind)));
    RenderRestAppends(cat, ph);
    RenderRestAppends(cat + ph, tail);
  }

  lemma {:induction false} NamedTextIs(process: nat, thread: nat, r: Record)
    requires !r.kind.EndRecord?
    ensures TracedText(process, thread, r) == Render(Tree(process, Traced(thread, r)))
  {
    var tail := Origin(process, thread) + [Field("ts", Number(Timestamp(r.timestamp)))] + Extra(r);
    TailIs(process, thread, r);
    NamesAre(r, tail);
    NameIs(Title(r));
    NamedMembers(process, thread, r);
    ObjectIs(Field("name", Text(Title(r))), [Field("cat", Text(Category(r)))] + [Field("ph", Text(Phase(r.kind)))]
        + tail);
    NamedRegroup("{\"name\":" + Quoted(Title(r)), ",\"cat\":" + Quoted(Category(r)), ",\"ph\":" + Quoted(Phase(r.kind)),
                 OriginText(process, thread), TimeText(r.timestamp), ExtraText(r));
  }

  lemma {:induction false} NamedRegroup(a: string, b: string, c: string, d: string, e: string, f: string)
    ensures a + (b + c + (d + e + f)) + "}" == a + b + c + d + e + f + "}"
  {
  }

  lemma {:induction false} MetadataRest(process: nat, thread: nat, name: string)
    ensures RenderRest([Field("ph", Text("M"))] + Origin(process, thread)
                       + [Field("args", Object([Field("name", Text(name))]))])
              == ",\"ph\":\"M\"" + OriginText(process, thread) + (",\"args\":{\"name\":" + Quoted(name) + "}")
  {
    var m, args := [Field("ph", Text("M"))], [Field("args", Object([Field("name", Text(name))]))];
    OriginIs(process, thread);
    MetadataPhase();
    ArgumentIs("name", ",\"args\":{\"name\":", Text(name));
    RenderRestAppends(m, Origin(process, thread));
    RenderRestAppends(m + Origin(process, thread), args);
  }

  lemma {:induction false} MetadataPhase()
    ensures RenderRest([Field("ph", Text("M"))]) == ",\"ph\":\"M\""
  {
    PlainIsUnescaped("M");
    LaterMemberIs("ph", ",\"ph\":", Text("M"));
    assert ",\"ph\":" + Quoted("M") == ",\"ph\":\"M\"";
  }

  lemma {:induction false} MetadataTextIs(process: nat, item: string, thread: nat, name: string)
    ensures MetadataText(process, item, thread, name) == Render(Tree(process, Metadata(item, thread, name)))
  {
    var rest := [Field("ph", Text("M"))] + Origin(process, thread)
        + [Field("args", Object([Field("name", Text(name))]))];
    MetadataRest(process, thread, name);
    NameIs(item);
    ObjectIs(Field("name", Text(item)), rest);
    assert Members(process, Metadata(item, thread, name)) == [Field("name", Text(item))] + rest;
    MetadataRegroup("{\"name\":" + Quoted(item), ",\"ph\":\"M\"", OriginText(process, thread),
                    ",\"args\":{\"name\":" + Quoted(name));
  }

  lemma {:induction false} MetadataRegroup(a: string, b: string, c: string, d: string)
    ensures a + (b + c + (d + "}")) + "}" == a + b + c + d + "}}"
  {
  }

  /** The pieces written are the rendering of the event. */
  lemma {:induction false} EventTextIs(process: nat, e: Event)
    ensures EventText(process, e) == Render(Tree(process, e))
  {
    match e
    case Metadata(item, thread, name) => MetadataTextIs(process, item, thread, name);
    case Traced(thread, r) =>
      if r.kind.EndRecord? { EndTextIs(process, thread, r); } else { NamedTextIs(process, thread, r); }
  }
}
