// What a program that reads trace files gets from those of src/trace.c: the members of an
// event say which record it was, in the phases of the Trace Event Format.

module TraceReaders {
  import opened Common
  import opened Bits
  import opened TraceModel
  import opened Json
  import opened TraceFiles

  // ---------- The members of an object ----------

  function Lookup(fs: seq<Field>, key: string): Maybe<Value> {
    if fs == [] then Nothing else if fs[0].key == key then Just(fs[0].value) else Lookup(fs[1..], key)
  }

  function TextOf(fs: seq<Field>, key: string): string {
    var v := Lookup(fs, key);
    if v.Just? && v.value.Text? then v.value.chars else ""
  }

  function DigitsOf(fs: seq<Field>, key: string): string {
    var v := Lookup(fs, key);
    if v.Just? && v.value.Number? then v.value.digits else ""
  }

  function ObjectOf(fs: seq<Field>, key: string): seq<Field> {
    var v := Lookup(fs, key);
    if v.Just? && v.value.Object? then v.value.fields else []
  }

  lemma {:induction false} FoundAt(fs: seq<Field>, i: nat, key: string)
    requires i < |fs| && fs[i].key == key && forall j :: 0 <= j < i ==> fs[j].key != key
    ensures Lookup(fs, key) == Just(fs[i].value)
  {
    if i > 0 { FoundAt(fs[1..], i - 1, key); }
  }

  // ---------- Reading an event ----------

  function Natural(v: int): nat {
    if v < 0 then 0 else v
  }

  function Bytes(s: string): seq<Byte> {
    seq(|s|, i requires 0 <= i < |s| => s[i] as int % 256)
  }

  /** The 64 bits of a signed number. */
  function Unsigned(v: int): nat {
    Natural(if v < 0 then v + Pow2(64) else v)
  }

  function RecordOf(fs: seq<Field>): Maybe<Record> {
    var phase, name, ts := TextOf(fs, "ph"), TextOf(fs, "name"), Natural(FromTimestamp(DigitsOf(fs, "ts")));
    if phase == "B" then
      if TextOf(fs, "cat") != "lor.auto" then Just(Record(ts, 0, BeginRecord, Bytes(name)))
      else Just(Record(ts, Natural(FromHex(if |name| > 2 then name[2..] else "")), AutoBeginRecord, []))
    else if phase == "E" then Just(Record(ts, 0, EndRecord, []))
    else if phase == "i" && TextOf(fs, "s") == "t" then Just(Record(ts, 0, InstantRecord, Bytes(name)))
    else if phase == "C" then
      Just(Record(ts, Unsigned(FromSigned(DigitsOf(ObjectOf(fs, "args"), "value"))), CounterRecord, Bytes(name)))
    else Nothing
  }

  function ThreadOf(fs: seq<Field>): nat {
    Natural(FromDecimal(DigitsOf(fs, "tid")))
  }

  function ReadEvent(v: Value): Maybe<Event> {
    if !v.Object? then Nothing
    else if TextOf(v.fields, "ph") == "M" then
      Just(Metadata(TextOf(v.fields, "name"), ThreadOf(v.fields), TextOf(ObjectOf(v.fields, "args"), "name")))
    else
      var r := RecordOf(v.fields);
      if r.Just? then Just(Traced(ThreadOf(v.fields), r.value)) else Nothing
  }

  function ProcessOf(v: Value): nat {
    if v.Object? then Natural(FromDecimal(DigitsOf(v.fields, "pid"))) else 0
  }

  // ---------- Every event reads back ----------

  lemma {:induction false} BytesOfChars(name: seq<Byte>)
    ensures Bytes(Chars(name)) == name
  {
  }

  lemma {:induction false} SignedBits(bits: nat)
    requires bits < Pow2(64)
    ensures Unsigned(AsSigned(bits)) == bits
  {
  }

  /** What the members of a record's event say. */
  lemma {:induction false} NamedSays(process: nat, thread: nat, r: Record)
    requires !r.kind.EndRecord?
    ensures var fs := Members(process, Traced(thread, r));
            && TextOf(fs, "name") == Title(r) && TextOf(fs, "cat") == Category(r) && TextOf(fs, "ph") == Phase(r.kind)
            && DigitsOf(fs, "pid") == Decimal(process) && DigitsOf(fs, "tid") == Decimal(thread)
            && DigitsOf(fs, "ts") == Timestamp(r.timestamp)
  {
    var fs := Members(process, Traced(thread, r));
    TracedMembers(process, thread, r);
    FoundAt(fs, 0, "name");
    FoundAt(fs, 1, "cat");
    FoundAt(fs, 2, "ph");
    FoundAt(fs, 3, "pid");
    FoundAt(fs, 4, "tid");
    FoundAt(fs, 5, "ts");
  }

  lemma {:induction false} EndSays(process: nat, thread: nat, r: Record)
    requires r.kind.EndRecord?
    ensures var fs := Members(process, Traced(thread, r));
            && TextOf(fs, "ph") == Phase(r.kind)
            && DigitsOf(fs, "pid") == Decimal(process) && DigitsOf(fs, "tid") == Decimal(thread)
            && DigitsOf(fs, "ts") == Timestamp(r.timestamp)
  {
    var fs := Members(process, Traced(thread, r));
    TracedMembers(process, thread, r);
    FoundAt(fs, 0, "ph");
    FoundAt(fs, 1, "pid");
    FoundAt(fs, 2, "tid");
    FoundAt(fs, 3, "ts");
  }

  lemma {:induction false} CounterSays(process: nat, thread: nat, r: Record)
    requires r.kind.CounterRecord?
    ensures DigitsOf(ObjectOf(Members(process, Traced(thread, r)), "args"), "value") == Signed(AsSigned(r.value))
  {
    var fs := Members(process, Traced(thread, r));
    TracedMembers(process, thread, r);
    assert fs[6] == Extra(r)[0];
    FoundAt(fs, 6, "args");
    FoundAt(ObjectOf(fs, "args"), 0, "value");
  }

  /** An instant belongs to its thread. */
  lemma {:induction false} InstantSays(process: nat, thread: nat, r: Record)
    requires r.kind.InstantRecord?
    ensures TextOf(Members(process, Traced(thread, r)), "s") == "t"
  {
    var fs := Members(process, Traced(thread, r));
    TracedMembers(process, thread, r);
    assert fs[6] == Extra(r)[0];
    FoundAt(fs, 6, "s");
  }

  lemma {:induction false} MetadataSays(process: nat, item: string, thread: nat, name: string)
    ensures var fs := Members(process, Metadata(item, thread, name));
            && TextOf(fs, "name") == item && TextOf(fs, "ph") == "M"
            && DigitsOf(fs, "pid") == Decimal(process) && DigitsOf(fs, "tid") == Decimal(thread)
            && TextOf(ObjectOf(fs, "args"), "name") == name
  {
    var fs := Members(process, Metadata(item, thread, name));
    FoundAt(fs, 0, "name");
    FoundAt(fs, 1, "ph");
    FoundAt(fs, 2, "pid");
    FoundAt(fs, 3, "tid");
    FoundAt(fs, 4, "args");
    FoundAt(ObjectOf(fs, "args"), 0, "name");
  }

  lemma {:induction false} RecordReadsBack(process: nat, thread: nat, r: Record)
    requires Canonical(Traced(thread, r))
    ensures RecordOf(Members(process, Traced(thread, r))) == Just(r)
  {
    TimestampIsRead(r.timestamp);
    match r.kind
    case EndRecord => EndSays(process, thread, r);
    case CounterRecord =>
      NamedSays(process, thread, r);
      CounterSays(process, thread, r);
      SignedIsRead(AsSigned(r.value));
      SignedBits(r.value);
      BytesOfChars(r.name);
    case AutoBeginRecord =>
      NamedSays(process, thread, r);
      HexIsRead(r.value);
      assert Title(r)[2..] == Hex(r.value);
    case InstantRecord =>
      NamedSays(process, thread, r);
      InstantSays(process, thread, r);
      BytesOfChars(r.name);
    case BeginRecord =>
      NamedSays(process, thread, r);
      BytesOfChars(r.name);
  }

  /** Whoever reads an event by the Trace Event Format gets the record it was written for,
      its thread and its process. */
  lemma {:induction false} EventReadsBack(process: nat, e: Event)
    requires Canonical(e)
    ensures ReadEvent(Tree(process, e)) == Just(e) && ProcessOf(Tree(process, e)) == process
  {
    DecimalIsRead(process);
    DecimalIsRead(e.thread);
    match e
    case Metadata(item, thread, name) => MetadataSays(process, item, thread, name);
    case Traced(thread, r) =>
      if r.kind.EndRecord? { EndSays(process, thread, r); } else { NamedSays(process, thread, r); }
      RecordReadsBack(process, thread, r);
  }

  /** And from the text of a finished file, its events in order. */
  lemma {:induction false} FileReadsBack(process: nat, es: seq<Event>)
    requires forall i :: 0 <= i < |es| ==> Canonical(es[i])
    ensures var r := ReadDocument(FileText(process, es));
            && r.Got? && r.rest == "" && |r.value| == |es|
            && forall i :: 0 <= i < |es| ==> ReadEvent(r.value[i]) == Just(es[i]) && ProcessOf(r.value[i]) == process
  {
    FileIsRead(process, es);
    forall i | 0 <= i < |es|
      ensures ReadEvent(Trees(process, es)[i]) == Just(es[i]) && ProcessOf(Trees(process, es)[i]) == process
    {
      EventReadsBack(process, es[i]);
    }
  }
}
