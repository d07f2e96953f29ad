// The shared output file of src/trace.c. Every piece is written by one call that may fail
// half way; a failure is remembered and nothing more is written until the end.

module TraceWriters {
  import opened Bits
  import opened TraceModel
  import opened Json
  import opened TraceFiles

  /** What has reached the file, and whether a write has failed. */
  datatype Output = Output(text: string, failed: bool)

  /** Sends `piece` to a file that takes `limit` characters: what does not fit is lost. */
  function Sent(o: Output, piece: string, limit: nat): (bool, Output) {
    var all := o.text + piece;
    if |all| <= limit then (true, o.(text := all))
    else (false, Output(if |o.text| <= limit then all[..limit] else o.text, true))
  }

  /** Sending two pieces, the second only if the first arrived, is sending both at once. */
  lemma SentThen(o: Output, a: string, b: string, limit: nat)
    ensures Sent(o, a + b, limit) ==
              if Sent(o, a, limit).0 then Sent(Sent(o, a, limit).1, b, limit) else Sent(o, a, limit)
  {
    var all := o.text + a;
    assert o.text + (a + b) == all + b;
    if |o.text| <= limit < |all| { assert (all + b)[..limit] == all[..limit]; }
  }

  /** The file once the header and these events are complete. */
  function Head(process: nat, es: seq<Event>): string {
    "[\n" + Joined(Trees(process, es))
  }

  datatype Ended = Finished | StillActive | SystemError

  class TraceFile {
    const process: nat
    const limit: nat
    var text: string
    var failed: bool
    var closed: bool
    var firstEvent: bool
    var nextThread: nat
    var activeThreads: nat
    ghost var events: seq<Event>

    /** Unless a write failed, the file holds exactly whole events. */
    ghost predicate Valid()
      reads `text, `failed, `closed, `firstEvent, `events
    {
      && |text| <= limit
      && (!failed && !closed ==> text == Head(process, events) && (firstEvent <==> events == []))
    }

    ghost function Out(): Output
      reads `text, `failed
    {
      Output(text, failed)
    }

    constructor (process: nat, limit: nat)
      ensures Valid() && this.process == process && this.limit == limit && events == [] && !closed
      ensures nextThread == 1 && activeThreads == 0
      ensures failed <==> limit < 2
    {
      this.process, this.limit := process, limit;
      text, failed, closed, firstEvent, events := "", false, false, true, [];
      nextThread, activeThreads := 1, 0;
      new;
      assert Trees(process, []) == [];
      var ok := Put("[\n");
    }

    /** One write call. */
    method Put(piece: string) returns (ok: bool)
      modifies `text, `failed
      ensures (ok, Out()) == Sent(old(Out()), piece, limit)
    {
      if |text| + |piece| <= limit {
        text := text + piece;
        return true;
      }
      if |text| <= limit { text := (text + piece)[..limit]; }
      failed := true;
      return false;
    }

    /** One character of a string, escaped as it needs to be. */
    method WriteEscaped(c: char) returns (ok: bool)
      modifies `text, `failed
      ensures (ok, Out()) == Sent(old(Out()), EscapeChar(c), limit)
    {
      var hex := "0123456789abcdef";
      var code := c as int;
      if code == 34 {
        ok := Put("\\\"");
      } else if code == 92 {
        ok := Put("\\\\");
      } else if code == 8 {
        ok := Put("\\b");
      } else if code == 12 {
        ok := Put("\\f");
      } else if code == 10 {
        ok := Put("\\n");
      } else if code == 13 {
        ok := Put("\\r");
      } else if code == 9 {
        ok := Put("\\t");
      } else if code < 32 {
        ok := Put(['\\', 'u', '0', '0', hex[code / 16], hex[code % 16]]);
      } else {
        ok := Put([c]);
      }
    }

    /** The loop over the characters. */
    method WriteEscapes(s: string) returns (ok: bool)
      requires |text| <= limit
      modifies `text, `failed
      ensures (ok, Out()) == Sent(old(Out()), Escape(s), limit)
    {
      ghost var start := Out();
      assert start.text + Escape(s[..0]) == start.text;
      for i := 0 to |s|
        invariant (true, Out()) == Sent(start, Escape(s[..i]), limit)
      {
        EscapeAppends(s, i);
        SentThen(start, Escape(s[..i]), EscapeChar(s[i]), limit);
        ok := WriteEscaped(s[i]);
        if !ok {
          EscapeSplits(s, i + 1);
          SentThen(start, Escape(s[..i + 1]), Escape(s[i + 1..]), limit);
          return;
        }
      }
      assert s[..|s|] == s;
      return true;
    }

    method WriteJsonString(s: string) returns (ok: bool)
      requires |text| <= limit
      modifies `text, `failed
      ensures (ok, Out()) == Sent(old(Out()), Quoted(s), limit)
    {
      ghost var start := Out();
      ok := Put("\"");
      SentThen(start, "\"", Escape(s), limit);
      if ok { ok := WriteEscapes(s); }
      assert (ok, Out()) == Sent(start, "\"" + Escape(s), limit);
      SentThen(start, "\"" + Escape(s), "\"", limit);
      if ok { ok := Put("\""); }
    }

    /** A fixed piece and a string. */
    method WriteNamed(piece: string, s: string) returns (ok: bool)
      requires |text| <= limit
      modifies `text, `failed
      ensures (ok, Out()) == Sent(old(Out()), piece + Quoted(s), limit)
    {
      SentThen(Out(), piece, Quoted(s), limit);
      ok := Put(piece);
      if ok { ok := WriteJsonString(s); }
    }

    /** A fixed piece and a number. */
    method WriteCounted(piece: string, n: nat) returns (ok: bool)
      requires |text| <= limit
      modifies `text, `failed
      ensures (ok, Out()) == Sent(old(Out()), piece + Decimal(n), limit)
    {
      SentThen(Out(), piece, Decimal(n), limit);
      ok := Put(piece);
      if ok { ok := Put(Decimal(n)); }
    }

    method WriteOrigin(thread: nat) returns (ok: bool)
      requires |text| <= limit
      modifies `text, `failed
      ensures (ok, Out()) == Sent(old(Out()), OriginText(process, thread), limit)
    {
      SentThen(Out(), ",\"pid\":" + Decimal(process), ",\"tid\":" + Decimal(thread), limit);
      ok := WriteCounted(",\"pid\":", process);
      if ok { ok := WriteCounted(",\"tid\":", thread); }
    }

    method WriteTime(ns: nat) returns (ok: bool)
      requires |text| <= limit
      modifies `text, `failed
      ensures (ok, Out()) == Sent(old(Out()), TimeText(ns), limit)
    {
      var us, rest := ns / 1000, ns % 1000;
      SentThen(Out(), ",\"ts\":" + Decimal(us), Thousandths(rest), limit);
      Regroup(",\"ts\":", Decimal(us), Thousandths(rest));
      ok := WriteCounted(",\"ts\":", us);
      if ok && rest == 0 {
        assert text + Thousandths(rest) == text;
        return;
      }
      if ok { ok := Put(Thousandths(rest)); }
    }

    /** What only instants and counters have. */
    method WriteExtra(r: Record) returns (ok: bool)
      requires |text| <= limit
      modifies `text, `failed
      ensures (ok, Out()) == Sent(old(Out()), ExtraText(r), limit)
    {
      ok := true;
      if r.kind.InstantRecord? {
        ok := Put(",\"s\":\"t\"");
      } else if r.kind.CounterRecord? {
        var digits := Signed(AsSigned(r.value));
        SentThen(Out(), ",\"args\":{\"value\":", digits, limit);
        SentThen(Out(), ",\"args\":{\"value\":" + digits, "}", limit);
        ok := Put(",\"args\":{\"value\":");
        if ok { ok := Put(digits); }
        if ok { ok := Put("}"); }
      } else {
        assert text + "" == text;
      }
    }

    /** The name, the category and the phase. */
    method WriteNames(r: Record) returns (ok: bool)
      requires |text| <= limit
      modifies `text, `failed
      ensures (ok, Out()) == Sent(old(Out()), NamesText(r), limit)
    {
      ghost var name, cat, ph :=
        "{\"name\":" + Quoted(Title(r)), ",\"cat\":" + Quoted(Category(r)), ",\"ph\":" + Quoted(Phase(r.kind));
      SentThen(Out(), name, cat, limit);
      SentThen(Out(), name + cat, ph, limit);
      ok := WriteNamed("{\"name\":", Title(r));
      if ok { ok := WriteNamed(",\"cat\":", Category(r)); }
      if ok { ok := WriteNamed(",\"ph\":", Phase(r.kind)); }
    }

    method WriteTraced(thread: nat, r: Record) returns (ok: bool)
      requires |text| <= limit
      modifies `text, `failed
      ensures (ok, Out()) == Sent(old(Out()), TracedText(process, thread, r), limit)
    {
      ghost var start := if r.kind.EndRecord? then "{\"ph\":\"E\"" else NamesText(r);
      ghost var origin, time, extra := OriginText(process, thread), TimeText(r.timestamp), ExtraText(r);
      SentThen(Out(), start, origin, limit);
      SentThen(Out(), start + origin, time, limit);
      SentThen(Out(), start + origin + time, extra, limit);
      SentThen(Out(), start + origin + time + extra, "}", limit);
      if r.kind.EndRecord? { ok := Put("{\"ph\":\"E\""); } else { ok := WriteNames(r); }
      if ok { ok := WriteOrigin(thread); }
      if ok { ok := WriteTime(r.timestamp); }
      if ok { ok := WriteExtra(r); }
      if ok { ok := Put("}"); }
    }

    method WriteMetadataText(item: string, thread: nat, name: string) returns (ok: bool)
      requires |text| <= limit
      modifies `text, `failed
      ensures (ok, Out()) == Sent(old(Out()), MetadataText(process, item, thread, name), limit)
    {
      ghost var head, m := "{\"name\":" + Quoted(item), ",\"ph\":\"M\"";
      ghost var origin, args := OriginText(process, thread), ",\"args\":{\"name\":" + Quoted(name);
      SentThen(Out(), head, m, limit);
      SentThen(Out(), head + m, origin, limit);
      SentThen(Out(), head + m + origin, args, limit);
      SentThen(Out(), head + m + origin + args, "}}", limit);
      ok := WriteNamed("{\"name\":", item);
      if ok { ok := Put(",\"ph\":\"M\""); }
      if ok { ok := WriteOrigin(thread); }
      if ok { ok := WriteNamed(",\"args\":{\"name\":", name); }
      if ok { ok := Put("}}"); }
    }

    method Separator() returns (ok: bool)
      requires |text| <= limit
      modifies `text, `failed, `firstEvent
      ensures !firstEvent && (ok, Out()) == Sent(old(Out()), if old(firstEvent) then "" else ",\n", limit)
    {
      if firstEvent {
        assert text + "" == text;
        firstEvent := false;
        return true;
      }
      ok := Put(",\n");
    }

    /** Appends a record as a whole event, or fails inside it. */
    method WriteRecord(thread: nat, r: Record) returns (ok: bool)
      requires Valid() && !failed && !closed
      modifies `text, `failed, `firstEvent, `events
      ensures Valid() && !closed && failed == !ok
      ensures ok <==> |Head(process, old(events) + [Traced(thread, r)])| <= limit
      ensures events == old(events) + if ok then [Traced(thread, r)] else []
      ensures text <= Head(process, old(events) + [Traced(thread, r)])
    {
      var e := Traced(thread, r);
      HeadAppends(process, events, e);
      SentThen(Out(), if firstEvent then "" else ",\n", EventText(process, e), limit);
      ok := Separator();
      if ok { ok := WriteTraced(thread, r); }
      if ok { events := events + [e]; }
    }

    method WriteMetadata(item: string, thread: nat, name: string) returns (ok: bool)
      requires Valid() && !failed && !closed
      modifies `text, `failed, `firstEvent, `events
      ensures Valid() && !closed && failed == !ok
      ensures ok <==> |Head(process, old(events) + [Metadata(item, thread, name)])| <= limit
      ensures events == old(events) + if ok then [Metadata(item, thread, name)] else []
      ensures text <= Head(process, old(events) + [Metadata(item, thread, name)])
    {
      var e := Metadata(item, thread, name);
      HeadAppends(process, events, e);
      SentThen(Out(), if firstEvent then "" else ",\n", EventText(process, e), limit);
      ok := Separator();
      if ok { ok := WriteMetadataText(item, thread, name); }
      if ok { events := events + [e]; }
    }

    /** A thread joins: it gets the next number, and its name, if it has one, is written. A
        file that has failed or is closed refuses it. */
    method Attach(named: bool, name: string) returns (ok: bool, thread: nat)
      requires Valid()
      modifies this
      ensures Valid() && closed == old(closed)
      ensures old(closed || failed) ==>
                !ok && Out() == old(Out()) && events == old(events) && nextThread == old(nextThread)
      ensures !old(closed || failed) ==>
                && thread == old(nextThread) && nextThread == old(nextThread) + 1
                && var e := Metadata("thread_name", thread, name);
                   && (ok <==> !named || |Head(process, old(events) + [e])| <= limit)
                   && events == old(events) + (if named && ok then [e] else [])
      ensures activeThreads == old(activeThreads) + if ok then 1 else 0
      ensures failed == (old(failed) || (!ok && !closed))
    {
      if closed || failed { return false, 0; }
      thread, ok := nextThread, true;
      nextThread := nextThread + 1;
      if named { ok := WriteMetadata("thread_name", thread, name); }
      if ok { activeThreads := activeThreads + 1; }
    }

    method Detach()
      modifies `activeThreads
      ensures activeThreads == if old(activeThreads) == 0 then 0 else old(activeThreads) - 1
    {
      if activeThreads != 0 { activeThreads := activeThreads - 1; }
    }

    /** Ends the array and closes the file, unless threads are still active. When all went
        well, a reader gets exactly the events that were written. */
    method Finish(streamOk: bool) returns (status: Ended)
      requires Valid() && !closed
      modifies `text, `failed, `closed
      ensures Valid() && closed == (activeThreads == 0)
      ensures status.StillActive? <==> activeThreads != 0
      ensures status.StillActive? ==> Out() == old(Out())
      ensures status.Finished? <==>
                activeThreads == 0 && !old(failed) && |FileText(process, events)| <= limit && streamOk
      ensures status.Finished? ==>
                text == FileText(process, events) && ReadDocument(text) == Got(Trees(process, events), "")
    {
      if activeThreads != 0 { return StillActive; }
      var sound := !failed;
      FileIsRead(process, events);
      var ok := Put("\n]\n");
      status := if ok && sound && streamOk then Finished else SystemError;
      closed := true;
    }
  }

  lemma {:induction false} HeadAppends(process: nat, es: seq<Event>, e: Event)
    ensures Head(process, es + [e]) == Head(process, es) + ((if es == [] then "" else ",\n") + EventText(process, e))
  {
    EventTextIs(process, e);
    JoinedAppends(Trees(process, es), Tree(process, e));
    assert Trees(process, es + [e]) == Trees(process, es) + [Tree(process, e)];
    Regroup3("[\n", Joined(Trees(process, es)), if es == [] then "" else ",\n", EventText(process, e));
    Regroup(Head(process, es), if es == [] then "" else ",\n", EventText(process, e));
  }

  lemma {:induction false} EscapeAppends(s: string, i: nat)
    requires i < |s|
    ensures Escape(s[..i + 1]) == Escape(s[..i]) + EscapeChar(s[i])
  {
    if i == 0 {
      assert s[..1] == [s[0]];
    } else {
      EscapeAppends(s[1..], i - 1);
      assert s[..i + 1][1..] == s[1..][..i] && s[..i][1..] == s[1..][..i - 1];
    }
  }

  lemma {:induction false} EscapeSplits(s: string, i: nat)
    requires i <= |s|
    ensures Escape(s) == Escape(s[..i]) + Escape(s[i..])
  {
    if i > 0 {
      EscapeSplits(s[1..], i - 1);
      assert s[..i][1..] == s[1..][..i - 1] && s[1..][i - 1..] == s[i..];
    } else {
      assert s[0..] == s;
    }
  }
}
