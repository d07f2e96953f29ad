// The byte layout of the thread buffer in src/trace.c: a fixed header, then the name.

module TraceCodec {
  import opened Common
  import opened Bits
  import opened TraceModel

  datatype Decoded = Malformed | Complete(record: Record, size: nat)

  function LittleEndian(v: nat, n: nat): (b: seq<Byte>)
    ensures |b| == n
  {
    if n == 0 then [] else [v % 256] + LittleEndian(v / 256, n - 1)
  }

  function FromLittleEndian(b: seq<Byte>): nat {
    if b == [] then 0 else b[0] + 256 * FromLittleEndian(b[1..])
  }

  function Pow256(n: nat): (p: nat)
    ensures p > 0
  {
    if n == 0 then 1 else 256 * Pow256(n - 1)
  }

  lemma {:induction false} LittleEndianInverts(v: nat, n: nat)
    requires v < Pow256(n)
    ensures FromLittleEndian(LittleEndian(v, n)) == v
  {
    if n > 0 {
      LittleEndianInverts(v / 256, n - 1);
      assert LittleEndian(v, n)[1..] == LittleEndian(v / 256, n - 1);
    }
  }

  function KindCode(k: Kind): Byte {
    match k
    case BeginRecord => 1
    case EndRecord => 2
    case InstantRecord => 3
    case CounterRecord => 4
    case AutoBeginRecord => 5
  }

  function KindOf(code: Byte): (k: Kind)
    requires 1 <= code <= 5
    ensures KindCode(k) == code
  {
    if code == 1 then BeginRecord else if code == 2 then EndRecord else if code == 3 then InstantRecord
    else if code == 4 then CounterRecord else AutoBeginRecord
  }

  /** What fits the fields of a record header. */
  predicate Encodable(r: Record) {
    r.timestamp <= UINT64_MAX && r.value <= UINT64_MAX && |r.name| <= UINT32_MAX
  }

  function EncodeHeader(r: Record): (b: seq<Byte>)
    ensures |b| == HEADER
  {
    LittleEndian(r.timestamp, 8) + LittleEndian(r.value, 8) + LittleEndian(|r.name|, 4) + [KindCode(r.kind), 0, 0, 0]
  }

  function Encode(r: Record): (b: seq<Byte>)
    ensures |b| == r.Size()
  {
    EncodeHeader(r) + r.name
  }

  /** Reads one record from the front of `b`, as the flush loop does. */
  function Decode(b: seq<Byte>): Decoded {
    if |b| < HEADER then Malformed
    else
      var nameSize := FromLittleEndian(b[16..20]);
      if nameSize > |b| - HEADER || !(1 <= b[20] <= 5) then Malformed
      else
        Complete(Record(FromLittleEndian(b[0..8]), FromLittleEndian(b[8..16]), KindOf(b[20]),
            b[HEADER..HEADER + nameSize]),
                 HEADER + nameSize)
  }

  lemma Pow256Is()
    ensures Pow256(4) == UINT32_MAX + 1 && Pow256(8) == UINT64_MAX + 1
  {
  }

  /** A record is read back whatever bytes follow it. */
  lemma DecodeEncode(r: Record, rest: seq<Byte>)
    requires Encodable(r)
    ensures Decode(Encode(r) + rest) == Complete(r, r.Size())
  {
    var b := Encode(r) + rest;
    var t, v, n := LittleEndian(r.timestamp, 8), LittleEndian(r.value, 8), LittleEndian(|r.name|, 4);
    assert b == t + v + n + [KindCode(r.kind), 0, 0, 0] + r.name + rest;
    assert b[0..8] == t && b[8..16] == v && b[16..20] == n && b[20] == KindCode(r.kind);
    assert b[HEADER..HEADER + |r.name|] == r.name;
    Pow256Is();
    LittleEndianInverts(r.timestamp, 8);
    LittleEndianInverts(r.value, 8);
    LittleEndianInverts(|r.name|, 4);
  }

  function EncodeAll(rs: seq<Record>): (b: seq<Byte>)
    ensures |b| == TotalSize(rs)
  {
    if rs == [] then [] else EncodeAll(rs[..|rs| - 1]) + Encode(rs[|rs| - 1])
  }

  /** The bytes of record `k` start where those of the first `k` records end. */
  lemma {:induction false} EncodeAllSplits(rs: seq<Record>, k: nat)
    requires k < |rs|
    ensures TotalSize(rs[..k]) + rs[k].Size() == TotalSize(rs[..k + 1]) <= TotalSize(rs)
    ensures Encode(rs[k]) <= EncodeAll(rs)[TotalSize(rs[..k])..]
  {
    assert rs[..k + 1][..k] == rs[..k];
    var n := |rs| - 1;
    if k == n {
      assert rs[..k + 1] == rs;
      assert EncodeAll(rs)[TotalSize(rs[..k])..] == Encode(rs[k]);
    } else {
      EncodeAllSplits(rs[..n], k);
      assert rs[..n][..k] == rs[..k] && rs[..n][..k + 1] == rs[..k + 1];
      var at := TotalSize(rs[..k]);
      assert EncodeAll(rs)[at..] == EncodeAll(rs[..n])[at..] + Encode(rs[n]);
    }
  }

  /** The flush loop never meets a malformed record: at the offset after `k` records it
      decodes exactly the next one. */
  lemma DecodeAt(rs: seq<Record>, k: nat)
    requires k < |rs| && forall i :: 0 <= i < |rs| ==> Encodable(rs[i])
    ensures TotalSize(rs[..k]) + rs[k].Size() == TotalSize(rs[..k + 1]) <= TotalSize(rs)
    ensures Decode(EncodeAll(rs)[TotalSize(rs[..k])..]) == Complete(rs[k], rs[k].Size())
  {
    EncodeAllSplits(rs, k);
    var b := EncodeAll(rs)[TotalSize(rs[..k])..];
    assert b == Encode(rs[k]) + b[|Encode(rs[k])|..];
    DecodeEncode(rs[k], b[|Encode(rs[k])|..]);
  }
}
