/** The binary trace format: a header and fixed-length little-endian records. */
module TraceFormat {
  import opened Events

  type Byte = n: nat | n < 256

  // ----- Little-endian numbers -----

  function Pow256(width: nat): (p: nat)
    ensures p >= 1
  {
    if width == 0 then 1 else 256 * Pow256(width - 1)
  }

  function Encode(n: nat, width: nat): (bytes: seq<Byte>)
    ensures |bytes| == width
  {
    if width == 0 then [] else [n % 256] + Encode(n / 256, width - 1)
  }

  function Decode(bytes: seq<Byte>): nat {
    if bytes == [] then 0 else bytes[0] + 256 * Decode(bytes[1..])
  }

  lemma {:induction false} DecodeEncode(n: nat, width: nat)
    requires n < Pow256(width)
    ensures Decode(Encode(n, width)) == n
  {
    if width > 0 {
      assert n / 256 < Pow256(width - 1);
      DecodeEncode(n / 256, width - 1);
      assert Encode(n, width)[1..] == Encode(n / 256, width - 1);
    }
  }

  lemma {:induction false} EncodeDecode(bytes: seq<Byte>)
    ensures Decode(bytes) < Pow256(|bytes|) && Encode(Decode(bytes), |bytes|) == bytes
  {
    if bytes != [] {
      var rest := Decode(bytes[1..]);
      EncodeDecode(bytes[1..]);
      assert (bytes[0] + 256 * rest) % 256 == bytes[0] && (bytes[0] + 256 * rest) / 256 == rest;
    }
  }

  // ----- Packed fields -----

  function Total(widths: seq<nat>): nat {
    if widths == [] then 0 else widths[0] + Total(widths[1..])
  }

  predicate Fits(values: seq<nat>, widths: seq<nat>) {
    |values| == |widths| && forall i :: 0 <= i < |values| ==> values[i] < Pow256(widths[i])
  }

  function Pack(values: seq<nat>, widths: seq<nat>): (bytes: seq<Byte>)
    requires |values| == |widths|
    ensures |bytes| == Total(widths)
  {
    if values == [] then [] else Encode(values[0], widths[0]) + Pack(values[1..], widths[1..])
  }

  function Unpack(bytes: seq<Byte>, widths: seq<nat>): (values: seq<nat>)
    requires |bytes| == Total(widths)
    ensures |values| == |widths|
  {
    if widths == [] then [] else [Decode(bytes[..widths[0]])] + Unpack(bytes[widths[0]..], widths[1..])
  }

  lemma {:induction false} UnpackPack(values: seq<nat>, widths: seq<nat>)
    requires Fits(values, widths)
    ensures Unpack(Pack(values, widths), widths) == values
  {
    if values != [] {
      var bytes := Pack(values, widths);
      DecodeEncode(values[0], widths[0]);
      assert bytes[..widths[0]] == Encode(values[0], widths[0]);
      assert bytes[widths[0]..] == Pack(values[1..], widths[1..]);
      UnpackPack(values[1..], widths[1..]);
    }
  }

  lemma {:induction false} PackUnpack(bytes: seq<Byte>, widths: seq<nat>)
    requires |bytes| == Total(widths)
    ensures Fits(Unpack(bytes, widths), widths) && Pack(Unpack(bytes, widths), widths) == bytes
  {
    if widths != [] {
      EncodeDecode(bytes[..widths[0]]);
      PackUnpack(bytes[widths[0]..], widths[1..]);
      assert bytes == bytes[..widths[0]] + bytes[widths[0]..];
    }
  }

  // ----- Events -----

  /** An event as the trace stores it; operand is the slot of a memory operand, if it is known. */
  datatype Record = Record(
    kind: nat, flags: nat, thread: nat, sequence: nat, ticket: nat, pc: nat, address: nat, value: nat, size: nat,
      aux: nat,
    operand: Option<nat>)

  const RECORD: seq<nat> := [2, 2, 4, 8, 8, 8, 8, 8, 4, 4]
  const RECORD_SIZE: nat := 56
  const HEADER: seq<nat> := [8, 2, 2, 4]
  const HEADER_SIZE: nat := 16
  const MAGIC: nat := 0x4543_4152_544F_4D42 // "BMOTRACE" read as one little-endian number
  const VERSION_MAJOR: nat := 1
  const VERSION_MINOR: nat := 2
  const OPERAND_INDEX: nat := 32

  lemma Sizes()
    ensures Total(RECORD) == RECORD_SIZE && Total(HEADER) == HEADER_SIZE
  {
    assert RECORD[1..] == [2, 4, 8, 8, 8, 8, 8, 4, 4];
    assert [2, 4, 8, 8, 8, 8, 8, 4, 4][1..] == [4, 8, 8, 8, 8, 8, 4, 4];
    assert [4, 8, 8, 8, 8, 8, 4, 4][1..] == [8, 8, 8, 8, 8, 4, 4];
    assert [8, 8, 8, 8, 8, 4, 4][1..] == [8, 8, 8, 8, 4, 4];
    assert [8, 8, 8, 8, 4, 4][1..] == [8, 8, 8, 4, 4];
    assert [8, 8, 8, 4, 4][1..] == [8, 8, 4, 4];
    assert [8, 8, 4, 4][1..] == [8, 4, 4];
    assert [8, 4, 4][1..] == [4, 4];
    assert [4, 4][1..] == [4];
    assert HEADER[1..] == [2, 2, 4];
    assert [2, 2, 4][1..] == [2, 4];
    assert [2, 4][1..] == [4];
    assert [4][1..] == [];
  }

  predicate IsKnownKind(kind: nat) {
    1 <= kind <= 6 || 10 <= kind <= 17 || 20 <= kind <= 25 || 30 <= kind <= 37
  }

  predicate IsMemoryKind(kind: nat) {
    1 <= kind <= 3 || kind == 37
  }

  predicate HasOperandFlag(flags: nat) {
    flags / OPERAND_INDEX % 2 == 1
  }

  /** What constructing an event guarantees: the flag is set exactly if the operand is known. */
  predicate IsEvent(r: Record) {
    && IsKnownKind(r.kind) && (r.operand.Some? <==> HasOperandFlag(r.flags))
    && (r.operand.Some? ==> IsMemoryKind(r.kind) && r.aux == r.operand.value)
  }

  function Fields(r: Record): (f: seq<nat>)
    ensures |f| == |RECORD|
  {
    [r.kind, r.flags, r.thread, r.sequence, r.ticket, r.pc, r.address, r.value, r.size, r.aux]
  }

  datatype FormatError = TruncatedHeader | Unsupported | TruncatedRecord | UnknownKind | InvalidOperand

  /** One record; the operand discriminator needs a memory event and format 1.2. */
  function FromFields(f: seq<nat>, minor: nat): (r: Option<Record>)
    requires |f| == |RECORD|
  {
    var operand := if HasOperandFlag(f[1]) then Some(f[9]) else None;
    if !IsKnownKind(f[0]) || (HasOperandFlag(f[1]) && (minor < 2 || !IsMemoryKind(f[0]))) then None
    else Some(Record(f[0], f[1], f[2], f[3], f[4], f[5], f[6], f[7], f[8], f[9], operand))
  }

  lemma FieldsRoundTrip(r: Record)
    requires IsEvent(r)
    ensures FromFields(Fields(r), VERSION_MINOR) == Some(r)
  {
  }

  lemma RecordRoundTrip(f: seq<nat>, minor: nat)
    requires |f| == |RECORD| && FromFields(f, minor).Some?
    ensures IsEvent(FromFields(f, minor).value) && Fields(FromFields(f, minor).value) == f
  {
  }

  // ----- The file -----

  function Header(minor: nat): (h: seq<nat>)
    ensures |h| == |HEADER|
  {
    [MAGIC, VERSION_MAJOR, minor, RECORD_SIZE]
  }

  function PackAll(events: seq<Record>): seq<Byte> {
    if events == [] then [] else Pack(Fields(events[0]), RECORD) + PackAll(events[1..])
  }

  /** What the reader delivers: events up to the end of the file or up to the first error. */
  datatype Reading = Reading(events: seq<Record>, error: Option<FormatError>)

  function ParseRecords(bytes: seq<Byte>, minor: nat): Reading {
    if bytes == [] then Reading([], None)
    else if |bytes| < RECORD_SIZE then Reading([], Some(TruncatedRecord))
    else
      Sizes();
      var f := Unpack(bytes[..RECORD_SIZE], RECORD);
      if !IsKnownKind(f[0]) then Reading([], Some(UnknownKind))
      else if FromFields(f, minor).None? then Reading([], Some(InvalidOperand))
      else
        var rest := ParseRecords(bytes[RECORD_SIZE..], minor);
        Reading([FromFields(f, minor).value] + rest.events, rest.error)
  }

  function Parse(file: seq<Byte>): Reading {
    if |file| < HEADER_SIZE then Reading([], Some(TruncatedHeader))
    else
      Sizes();
      var h := Unpack(file[..HEADER_SIZE], HEADER);
      if h[0] != MAGIC || h[1] != VERSION_MAJOR || h[2] > VERSION_MINOR || h[3] != RECORD_SIZE
        then Reading([], Some(Unsupported))
      else ParseRecords(file[HEADER_SIZE..], h[2])
  }

  lemma Associative<T>(a: seq<T>, b: seq<T>, c: seq<T>)
    ensures (a + b) + c == a + (b + c)
  {
  }

  function Appended(events: seq<Record>, rest: Reading): Reading {
    Reading(events + rest.events, rest.error)
  }

  /** One record is split off the front. */
  lemma ReadOne(events: seq<Record>, bytes: seq<Byte>, minor: nat)
    requires |bytes| >= RECORD_SIZE && |bytes[..RECORD_SIZE]| == Total(RECORD)
    requires FromFields(Unpack(bytes[..RECORD_SIZE], RECORD), minor).Some?
    ensures var e := FromFields(Unpack(bytes[..RECORD_SIZE], RECORD), minor).value;
            Appended(events, ParseRecords(bytes, minor)) == Appended(events + [e],
              ParseRecords(bytes[RECORD_SIZE..], minor))
  {
    var e := FromFields(Unpack(bytes[..RECORD_SIZE], RECORD), minor).value;
    Associative(events, [e], ParseRecords(bytes[RECORD_SIZE..], minor).events);
  }

  /** The reader: a loop over the records of the stream. */
  method ReadTrace(file: seq<Byte>) returns (r: Reading)
    ensures r == Parse(file)
  {
    if |file| < HEADER_SIZE {
      return Reading([], Some(TruncatedHeader));
    }
    Sizes();
    var h := Unpack(file[..HEADER_SIZE], HEADER);
    if h[0] != MAGIC || h[1] != VERSION_MAJOR || h[2] > VERSION_MINOR || h[3] != RECORD_SIZE {
      return Reading([], Some(Unsupported));
    }
    var events: seq<Record> := [];
    var bytes := file[HEADER_SIZE..];
    while bytes != []
      invariant Parse(file) == Appended(events, ParseRecords(bytes, h[2]))
      decreases |bytes|
    {
      if |bytes| < RECORD_SIZE {
        return Reading(events, Some(TruncatedRecord));
      }
      var f := Unpack(bytes[..RECORD_SIZE], RECORD);
      if !IsKnownKind(f[0]) {
        return Reading(events, Some(UnknownKind));
      }
      var event := FromFields(f, h[2]);
      if event.None? {
        return Reading(events, Some(InvalidOperand));
      }
      ReadOne(events, bytes, h[2]);
      events := events + [event.value];
      bytes := bytes[RECORD_SIZE..];
    }
    r := Reading(events, None);
  }

  // ----- Round trips -----

  ghost predicate AreWritable(events: seq<Record>) {
    forall e :: e in events ==> IsEvent(e) && Fits(Fields(e), RECORD)
  }

  lemma {:induction false} ParsePacked(events: seq<Record>)
    requires AreWritable(events)
    ensures ParseRecords(PackAll(events), VERSION_MINOR) == Reading(events, None)
  {
    if events != [] {
      var e, rest := events[0], events[1..];
      assert events == [e] + rest && IsEvent(e) && Fits(Fields(e), RECORD);
      assert AreWritable(rest) by { forall x | x in rest ensures x in events {} }
      ParsePacked(rest);
      ParseOne(e, PackAll(rest));
    }
  }

  lemma ParseOne(e: Record, tail: seq<Byte>)
    requires IsEvent(e) && Fits(Fields(e), RECORD)
    ensures ParseRecords(Pack(Fields(e), RECORD) + tail, VERSION_MINOR)
         == Appended([e], ParseRecords(tail, VERSION_MINOR))
  {
    Sizes();
    var bytes := Pack(Fields(e), RECORD) + tail;
    assert bytes[..RECORD_SIZE] == Pack(Fields(e), RECORD) && bytes[RECORD_SIZE..] == tail;
    UnpackPack(Fields(e), RECORD);
    FieldsRoundTrip(e);
  }

  /** Reading what was written gives the events back. */
  lemma ReadAfterWrite(events: seq<Record>)
    requires AreWritable(events)
    ensures Parse(Pack(Header(VERSION_MINOR), HEADER) + PackAll(events)) == Reading(events, None)
  {
    Sizes();
    var header := Pack(Header(VERSION_MINOR), HEADER);
    HeaderFits();
    UnpackPack(Header(VERSION_MINOR), HEADER);
    assert (header + PackAll(events))[..HEADER_SIZE] == header
      && (header + PackAll(events))[HEADER_SIZE..] == PackAll(events);
    ParsePacked(events);
  }

  lemma HeaderFits()
    ensures Fits(Header(VERSION_MINOR), HEADER)
  {
    assert Pow256(2) == 65536 && Pow256(4) == 65536 * 65536;
    assert Pow256(8) == 65536 * 65536 * 65536 * 65536 by { assert Pow256(6) == 65536 * 65536 * 65536; }
  }

  /** Records that were read without an error are written back unchanged. */
  lemma {:induction false} WriteAfterRead(bytes: seq<Byte>, minor: nat)
    requires ParseRecords(bytes, minor).error.None?
    ensures AreWritable(ParseRecords(bytes, minor).events) && PackAll(ParseRecords(bytes, minor).events) == bytes
    decreases |bytes|
  {
    if bytes != [] {
      Sizes();
      var f := Unpack(bytes[..RECORD_SIZE], RECORD);
      var rest := ParseRecords(bytes[RECORD_SIZE..], minor);
      PackUnpack(bytes[..RECORD_SIZE], RECORD);
      RecordRoundTrip(f, minor);
      WriteAfterRead(bytes[RECORD_SIZE..], minor);
      assert ([FromFields(f, minor).value] + rest.events)[1..] == rest.events;
      assert bytes == bytes[..RECORD_SIZE] + bytes[RECORD_SIZE..];
    }
  }

  /** Writing one more event appends its record. */
  lemma {:induction false} PackLast(events: seq<Record>, e: Record)
    ensures PackAll(events + [e]) == PackAll(events) + Pack(Fields(e), RECORD)
  {
    if events == [] {
      assert [] + [e] == [e] && [e][1..] == [];
    } else {
      assert (events + [e])[1..] == events[1..] + [e];
      PackLast(events[1..], e);
      Associative(Pack(Fields(events[0]), RECORD), PackAll(events[1..]), Pack(Fields(e), RECORD));
    }
  }

  // ----- The writer -----

  /** The writer appends packed records to its stream; written holds the events that they stand for. */
  class TraceWriter {
    var stream: seq<Byte>
    ghost var written: seq<Record>

    ghost predicate Valid()
      reads this
    {
      stream == Pack(Header(VERSION_MINOR), HEADER) + PackAll(written) && AreWritable(written)
    }

    constructor ()
      ensures Valid() && written == []
    {
      stream, written := Pack(Header(VERSION_MINOR), HEADER), [];
    }

    /** A field that is too wide for its slot is an error, and nothing is written. */
    method Write(r: Record) returns (ok: bool)
      requires Valid() && IsEvent(r)
      modifies this
      ensures Valid() && (ok <==> Fits(Fields(r), RECORD))
      ensures written == old(written) + if ok then [r] else []
    {
      ok := Fits(Fields(r), RECORD);
      if ok {
        PackLast(written, r);
        Associative(Pack(Header(VERSION_MINOR), HEADER), PackAll(written), Pack(Fields(r), RECORD));
        stream := stream + Pack(Fields(r), RECORD);
        written := written + [r];
      }
    }

    /** Whatever was written, the reader gives back. */
    lemma StreamReadsBack()
      requires Valid()
      ensures Parse(stream) == Reading(written, None)
    {
      ReadAfterWrite(written);
    }
  }
}
