/** Where each field of the trace lies in the bytes of the file. */
module TraceLayout {
  import opened Events
  import opened TraceFormat

  /** The little-endian number in bytes[from..to]. */
  function Number(bytes: seq<Byte>, from: nat, to: nat): nat
    requires from <= to <= |bytes|
    decreases |bytes| - from
  {
    if from == to then 0 else bytes[from] + 256 * Number(bytes, from + 1, to)
  }

  lemma {:induction false} DecodedIsNumber(bytes: seq<Byte>, from: nat, to: nat)
    requires from <= to <= |bytes|
    ensures Decode(bytes[from..to]) == Number(bytes, from, to)
    decreases |bytes| - from
  {
    if from < to {
      DecodedIsNumber(bytes, from + 1, to);
      assert bytes[from..to][1..] == bytes[from + 1..to];
    }
  }

  lemma {:induction false} NumberFurther(bytes: seq<Byte>, skipped: nat, from: nat, to: nat)
    requires from <= to && skipped + to <= |bytes|
    ensures Number(bytes[skipped..], from, to) == Number(bytes, skipped + from, skipped + to)
    decreases |bytes| - skipped - from
  {
    if from < to { NumberFurther(bytes, skipped, from + 1, to); }
  }

  /** The codes of the event kinds. */
  predicate IsCode(kind: nat) {
    kind in {1, 2, 3, 4, 5, 6, 10, 11, 12, 13, 14, 15, 16, 17, 20, 21, 22, 23, 24, 25, 30, 31, 32, 33, 34, 35, 36, 37}
  }

  /** Loads, stores, atomics and futex waits. */
  predicate IsAccessCode(kind: nat) {
    kind == 1 || kind == 2 || kind == 3 || kind == 37
  }

  /** Bit 5 of the flags: the auxiliary field holds the operand's slot. */
  predicate NamesOperand(flags: nat) {
    flags / 32 % 2 == 1
  }

  /** The 56 bytes from the offset on are those of the record. */
  predicate HasFields(bytes: seq<Byte>, at: nat, r: Record) {
    && at + 56 <= |bytes|
    && r.kind == Number(bytes, at, at + 2) && r.flags == Number(bytes, at + 2, at + 4)
    && r.thread == Number(bytes, at + 4, at + 8) && r.sequence == Number(bytes, at + 8, at + 16)
    && r.ticket == Number(bytes, at + 16, at + 24) && r.pc == Number(bytes, at + 24, at + 32)
    && r.address == Number(bytes, at + 32, at + 40) && r.value == Number(bytes, at + 40, at + 48)
    && r.size == Number(bytes, at + 48, at + 52) && r.aux == Number(bytes, at + 52, at + 56)
  }

  predicate IsReadable(r: Record, minor: nat) {
    && IsCode(r.kind) && (NamesOperand(r.flags) ==> minor >= 2 && IsAccessCode(r.kind))
    && r.operand == if NamesOperand(r.flags) then Some(r.aux) else None
  }

  /** Why reading stops at an offset. */
  predicate StopsAt(bytes: seq<Byte>, at: nat, error: Option<FormatError>, minor: nat) {
    match error
    case None => |bytes| == at
    case Some(TruncatedRecord) => at < |bytes| < at + 56
    case Some(UnknownKind) => at + 56 <= |bytes| && !IsCode(Number(bytes, at, at + 2))
    case Some(InvalidOperand) =>
      && at + 56 <= |bytes| && IsCode(Number(bytes, at, at + 2)) && NamesOperand(Number(bytes, at + 2, at + 4))
      && (minor < 2 || !IsAccessCode(Number(bytes, at, at + 2)))
    case _ => false
  }

  /** The numbers that unpacking finds, one for each width. */
  ghost predicate AreNumbers(bytes: seq<Byte>, at: nat, widths: seq<nat>, values: seq<nat>)
    decreases |widths|
  {
    if widths == [] then at == |bytes| && values == []
    else
      && values != [] && at + widths[0] <= |bytes| && values[0] == Number(bytes, at, at + widths[0])
      && AreNumbers(bytes, at + widths[0], widths[1..], values[1..])
  }

  lemma {:induction false} UnpackedAreNumbers(bytes: seq<Byte>, at: nat, widths: seq<nat>)
    requires at <= |bytes| && |bytes[at..]| == Total(widths)
    ensures AreNumbers(bytes, at, widths, Unpack(bytes[at..], widths))
    decreases |widths|
  {
    if widths != [] {
      DecodedIsNumber(bytes, at, at + widths[0]);
      assert bytes[at..][..widths[0]] == bytes[at..at + widths[0]];
      assert bytes[at..][widths[0]..] == bytes[at + widths[0]..];
      UnpackedAreNumbers(bytes, at + widths[0], widths[1..]);
    }
  }

  /** The k-th field begins where the widths before it end. */
  lemma {:induction false} NumberAt(bytes: seq<Byte>, at: nat, widths: seq<nat>, values: seq<nat>, k: nat)
    requires AreNumbers(bytes, at, widths, values) && k < |widths|
    ensures k < |values| && at + Total(widths[..k]) + widths[k] <= |bytes|
    ensures values[k] == Number(bytes, at + Total(widths[..k]), at + Total(widths[..k]) + widths[k])
    decreases k
  {
    if k > 0 {
      NumberAt(bytes, at + widths[0], widths[1..], values[1..], k - 1);
      assert widths[..k][1..] == widths[1..][..k - 1];
    }
  }

  lemma {:induction false} NextOffset(widths: seq<nat>, k: nat)
    requires k < |widths|
    ensures Total(widths[..k + 1]) == Total(widths[..k]) + widths[k]
  {
    if k > 0 {
      NextOffset(widths[1..], k - 1);
      assert widths[..k + 1][1..] == widths[1..][..k] && widths[..k][1..] == widths[1..][..k - 1];
    }
  }

  /** Where the fields of a record begin. */
  lemma RecordOffsets(widths: seq<nat>)
    requires widths == RECORD
    ensures |widths| == 10 && Total(widths[..0]) == 0 && Total(widths[..1]) == 2 && Total(widths[..2]) == 4
    ensures Total(widths[..3]) == 8 && Total(widths[..4]) == 16 && Total(widths[..5]) == 24
    ensures Total(widths[..6]) == 32 && Total(widths[..7]) == 40 && Total(widths[..8]) == 48
    ensures Total(widths[..9]) == 52
  {
    NextOffset(widths, 0);
    NextOffset(widths, 1);
    NextOffset(widths, 2);
    NextOffset(widths, 3);
    NextOffset(widths, 4);
    NextOffset(widths, 5);
    NextOffset(widths, 6);
    NextOffset(widths, 7);
    NextOffset(widths, 8);
  }

  lemma HeaderOffsets(widths: seq<nat>)
    requires widths == HEADER
    ensures |widths| == 4 && Total(widths[..0]) == 0 && Total(widths[..1]) == 8 && Total(widths[..2]) == 10
    ensures Total(widths[..3]) == 12
  {
    NextOffset(widths, 0);
    NextOffset(widths, 1);
    NextOffset(widths, 2);
  }

  lemma UnpackedRecord(bytes: seq<Byte>, widths: seq<nat>, f: seq<nat>, r: Record)
    requires widths == RECORD && |bytes| == Total(widths) && f == Unpack(bytes, widths) && |f| == 10 && |bytes| == 56
    requires [r.kind, r.flags, r.thread, r.sequence, r.ticket, r.pc, r.address, r.value, r.size, r.aux] == f
    ensures HasFields(bytes, 0, r)
  {
    assert bytes[0..] == bytes;
    UnpackedAreNumbers(bytes, 0, widths);
    RecordOffsets(widths);
    NumberAt(bytes, 0, widths, f, 0);
    NumberAt(bytes, 0, widths, f, 1);
    NumberAt(bytes, 0, widths, f, 2);
    NumberAt(bytes, 0, widths, f, 3);
    NumberAt(bytes, 0, widths, f, 4);
    NumberAt(bytes, 0, widths, f, 5);
    NumberAt(bytes, 0, widths, f, 6);
    NumberAt(bytes, 0, widths, f, 7);
    NumberAt(bytes, 0, widths, f, 8);
    NumberAt(bytes, 0, widths, f, 9);
  }

  lemma {:induction false} NumberOfPrefix(bytes: seq<Byte>, n: nat, from: nat, to: nat)
    requires from <= to <= n <= |bytes|
    ensures Number(bytes[..n], from, to) == Number(bytes, from, to)
    decreases n - from
  {
    if from < to { NumberOfPrefix(bytes, n, from + 1, to); }
  }

  lemma FieldsOfPrefix(bytes: seq<Byte>, n: nat, r: Record)
    requires n <= |bytes| && HasFields(bytes[..n], 0, r)
    ensures HasFields(bytes, 0, r)
  {
    forall from: nat, to: nat | from <= to <= n ensures Number(bytes[..n], from, to) == Number(bytes, from, to) {
      NumberOfPrefix(bytes, n, from, to);
    }
  }

  lemma FieldsFurther(bytes: seq<Byte>, skipped: nat, at: nat, r: Record)
    requires skipped <= |bytes|
    ensures HasFields(bytes[skipped..], at, r) ==> HasFields(bytes, skipped + at, r)
  {
    forall from: nat, to: nat | from <= to && skipped + to <= |bytes|
      ensures Number(bytes[skipped..], from, to) == Number(bytes, skipped + from, skipped + to) {
      NumberFurther(bytes, skipped, from, to);
    }
  }

  lemma StopsFurther(bytes: seq<Byte>, skipped: nat, at: nat, error: Option<FormatError>, minor: nat)
    requires skipped <= |bytes| && StopsAt(bytes[skipped..], at, error, minor)
    ensures StopsAt(bytes, skipped + at, error, minor)
  {
    if skipped + at + 56 <= |bytes| {
      NumberFurther(bytes, skipped, at, at + 2);
      NumberFurther(bytes, skipped, at + 2, at + 4);
    }
  }

  /** What a record is read from, or what is wrong with it. */
  lemma ReadFields(f: seq<nat>, minor: nat)
    requires |f| == |RECORD| == 10
    ensures FromFields(f, minor).Some?
       <==> IsCode(f[0]) && (NamesOperand(f[1]) ==> minor >= 2 && IsAccessCode(f[0]))
    ensures IsKnownKind(f[0]) <==> IsCode(f[0])
    ensures FromFields(f, minor).Some? ==>
      var r := FromFields(f, minor).value;
      && [r.kind, r.flags, r.thread, r.sequence, r.ticket, r.pc, r.address, r.value, r.size, r.aux] == f
      && IsReadable(r, minor)
  {
  }

  lemma FirstRecord(bytes: seq<Byte>, widths: seq<nat>, minor: nat, f: seq<nat>)
    requires widths == RECORD && |bytes| >= 56 == Total(widths) && f == Unpack(bytes[..56], widths)
    ensures FromFields(f, minor).Some? ==>
      HasFields(bytes, 0, FromFields(f, minor).value) && IsReadable(FromFields(f, minor).value, minor)
    ensures FromFields(f, minor).None? ==>
      StopsAt(bytes, 0, Some(if IsKnownKind(f[0]) then InvalidOperand else UnknownKind), minor)
  {
    ReadFields(f, minor);
    var r := Record(f[0], f[1], f[2], f[3], f[4], f[5], f[6], f[7], f[8], f[9], None);
    UnpackedRecord(bytes[..56], widths, f, r);
    FieldsOfPrefix(bytes, 56, r);
  }

  /** The first n records that were read lie one behind the other from the offset on. */
  ghost predicate LieInARow(bytes: seq<Byte>, at: nat, events: seq<Record>, minor: nat) {
    forall i :: 0 <= i < |events| ==> HasFields(bytes, at + 56 * i, events[i]) && IsReadable(events[i], minor)
  }

  lemma RowFurther(bytes: seq<Byte>, skipped: nat, at: nat, events: seq<Record>, minor: nat)
    requires skipped <= |bytes| && LieInARow(bytes[skipped..], at, events, minor)
    ensures LieInARow(bytes, skipped + at, events, minor)
  {
    forall i | 0 <= i < |events| ensures HasFields(bytes, skipped + at + 56 * i, events[i]) {
      FieldsFurther(bytes, skipped, at + 56 * i, events[i]);
    }
  }

  lemma RowPrepended(bytes: seq<Byte>, first: Record, rest: seq<Record>, minor: nat)
    requires HasFields(bytes, 0, first) && IsReadable(first, minor) && LieInARow(bytes, 56, rest, minor)
    ensures LieInARow(bytes, 0, [first] + rest, minor)
  {
    forall i | 0 <= i < |[first] + rest| ensures HasFields(bytes, 0 + 56 * i, ([first] + rest)[i])
      && IsReadable(([first] + rest)[i], minor) {
      if i > 0 { assert HasFields(bytes, 56 + 56 * (i - 1), rest[i - 1]); }
    }
  }

  /** One record in front of others. */
  lemma RowContinues(bytes: seq<Byte>, first: Record, rest: Reading, minor: nat)
    requires |bytes| >= 56 && HasFields(bytes, 0, first) && IsReadable(first, minor)
    requires LieInARow(bytes[56..], 0, rest.events, minor)
    requires StopsAt(bytes[56..], 56 * |rest.events|, rest.error, minor)
    ensures LieInARow(bytes, 0, [first] + rest.events, minor)
    ensures StopsAt(bytes, 56 * |[first] + rest.events|, rest.error, minor)
  {
    RowFurther(bytes, 56, 0, rest.events, minor);
    RowPrepended(bytes, first, rest.events, minor);
    StopsFurther(bytes, 56, 56 * |rest.events|, rest.error, minor);
  }

  lemma ParsedStep(bytes: seq<Byte>, widths: seq<nat>, minor: nat) returns (f: seq<nat>)
    requires widths == RECORD && |bytes| >= 56
    ensures |f| == 10 && ParseRecords(bytes, minor)
                      == if FromFields(f, minor).Some?
                         then Appended([FromFields(f, minor).value], ParseRecords(bytes[56..], minor))
                         else Reading([], Some(if IsKnownKind(f[0]) then InvalidOperand else UnknownKind))
    ensures FromFields(f, minor).Some? ==>
      HasFields(bytes, 0, FromFields(f, minor).value) && IsReadable(FromFields(f, minor).value, minor)
    ensures FromFields(f, minor).None? ==>
      StopsAt(bytes, 0, Some(if IsKnownKind(f[0]) then InvalidOperand else UnknownKind), minor)
  {
    Sizes();
    f := Unpack(bytes[..56], widths);
    FirstRecord(bytes, widths, minor, f);
  }

  /** The records are read one after the other, 56 bytes each, up to the end or the first error. */
  lemma {:induction false} ParsedInARow(bytes: seq<Byte>, minor: nat)
    ensures LieInARow(bytes, 0, ParseRecords(bytes, minor).events, minor)
    ensures StopsAt(bytes, 56 * |ParseRecords(bytes, minor).events|, ParseRecords(bytes, minor).error, minor)
    decreases |bytes|
  {
    if |bytes| >= 56 {
      var f := ParsedStep(bytes, RECORD, minor);
      if FromFields(f, minor).Some? {
        ParsedInARow(bytes[56..], minor);
        RowContinues(bytes, FromFields(f, minor).value, ParseRecords(bytes[56..], minor), minor);
      }
    }
  }

  // ----- The file -----

  /** The first 16 bytes: the letters BMOTRACE, the version, and the length of a record. */
  predicate HasHeader(file: seq<Byte>, minor: nat) {
    && |file| >= 16 && file[..8] == [66, 77, 79, 84, 82, 65, 67, 69]
    && Number(file, 8, 10) == 1 && Number(file, 10, 12) == minor && minor <= 2 && Number(file, 12, 16) == 56
  }

  lemma SameNumberSameBytes(a: seq<Byte>, b: seq<Byte>)
    requires |a| == |b|
    ensures Decode(a) == Decode(b) <==> a == b
  {
    EncodeDecode(a);
    EncodeDecode(b);
  }

  lemma MagicWord(word: seq<Byte>)
    requires word == [66, 77, 79, 84, 82, 65, 67, 69]
    ensures Decode(word) == MAGIC
  {
    assert word[1..] == [77, 79, 84, 82, 65, 67, 69] && word[1..][1..] == [79, 84, 82, 65, 67, 69];
    LastLetters(word[1..][1..]);
    assert Decode(word) == 66 + 256 * (77 + 256 * Decode(word[1..][1..]));
  }

  lemma MagicLetters(letters: seq<Byte>)
    requires |letters| == 8
    ensures Decode(letters) == MAGIC <==> letters == [66, 77, 79, 84, 82, 65, 67, 69]
  {
    var word: seq<Byte> := [66, 77, 79, 84, 82, 65, 67, 69];
    MagicWord(word);
    SameNumberSameBytes(letters, word);
  }

  lemma LastLetters(letters: seq<Byte>)
    requires letters == [79, 84, 82, 65, 67, 69]
    ensures Decode(letters) == 0x4543_4152_544F
  {
    assert letters[1..] == [84, 82, 65, 67, 69] && letters[1..][1..] == [82, 65, 67, 69];
    assert [82, 65, 67, 69][1..] == [65, 67, 69] && [65, 67, 69][1..] == [67, 69] && [67, 69][1..] == [69];
    assert Decode([69]) == 69 by { assert [69][1..] == []; }
    assert Decode([67, 69]) == 67 + 256 * 69;
    assert Decode([65, 67, 69]) == 65 + 256 * (67 + 256 * 69);
    assert Decode([82, 65, 67, 69]) == 0x4543_4152;
    assert Decode(letters[1..]) == 84 + 256 * 0x4543_4152;
  }

  lemma HeaderNumbers(file: seq<Byte>, widths: seq<nat>, h: seq<nat>)
    requires widths == HEADER && |file| >= 16 == Total(widths) && h == Unpack(file[..16], widths) && |h| == 4
    ensures h == [Decode(file[..8]), Number(file, 8, 10), Number(file, 10, 12), Number(file, 12, 16)]
  {
    var b := file[..16];
    assert b[0..] == b && b[0..8] == file[..8];
    UnpackedAreNumbers(b, 0, widths);
    HeaderOffsets(widths);
    NumberAt(b, 0, widths, h, 0);
    NumberAt(b, 0, widths, h, 1);
    NumberAt(b, 0, widths, h, 2);
    NumberAt(b, 0, widths, h, 3);
    DecodedIsNumber(b, 0, 8);
    NumberOfPrefix(file, 16, 8, 10);
    NumberOfPrefix(file, 16, 10, 12);
    NumberOfPrefix(file, 16, 12, 16);
  }

  lemma HeaderIsChecked(file: seq<Byte>, widths: seq<nat>, h: seq<nat>)
    requires widths == HEADER && |file| >= 16 == Total(widths) && h == Unpack(file[..16], widths) && |h| == 4
    ensures HasHeader(file, h[2])
       <==> h[0] == MAGIC && h[1] == VERSION_MAJOR && h[2] <= VERSION_MINOR && h[3] == RECORD_SIZE
    ensures forall minor: nat :: HasHeader(file, minor) ==> minor == h[2]
  {
    HeaderNumbers(file, widths, h);
    MagicLetters(file[..8]);
  }

  lemma RecordsByOffset(file: seq<Byte>, minor: nat)
    requires |file| >= 16
    ensures LieInARow(file, 16, ParseRecords(file[16..], minor).events, minor)
    ensures StopsAt(file, 16 + 56 * |ParseRecords(file[16..], minor).events|, ParseRecords(file[16..], minor).error,
      minor)
  {
    var read := ParseRecords(file[16..], minor);
    ParsedInARow(file[16..], minor);
    RowFurther(file, 16, 0, read.events, minor);
    StopsFurther(file, 16, 56 * |read.events|, read.error, minor);
  }

  lemma ParsedFile(file: seq<Byte>, widths: seq<nat>) returns (h: seq<nat>)
    requires widths == HEADER && |file| >= 16
    ensures |h| == 4 && forall minor: nat :: HasHeader(file, minor) ==> minor == h[2]
    ensures Parse(file)
         == if HasHeader(file, h[2]) then ParseRecords(file[16..], h[2]) else Reading([], Some(Unsupported))
  {
    Sizes();
    h := Unpack(file[..16], widths);
    HeaderIsChecked(file, widths, h);
  }

  /** What reading a file amounts to. */
  lemma FileByOffset(file: seq<Byte>)
    ensures Parse(file).error == Some(TruncatedHeader) <==> |file| < 16
    ensures Parse(file).error == Some(Unsupported) <==> |file| >= 16 && forall minor: nat :: !HasHeader(file, minor)
    ensures forall minor: nat :: HasHeader(file, minor) ==>
      && LieInARow(file, 16, Parse(file).events, minor)
      && StopsAt(file, 16 + 56 * |Parse(file).events|, Parse(file).error, minor)
    ensures (forall minor: nat :: !HasHeader(file, minor)) ==> Parse(file).events == []
  {
    if |file| >= 16 {
      var h := ParsedFile(file, HEADER);
      RecordsByOffset(file, h[2]);
    }
  }

  /** Each field is written if it fits its slot. */
  lemma WritableByRange(r: Record)
    ensures Fits(Fields(r), RECORD)
       <==> && r.kind < 0x1_0000 && r.flags < 0x1_0000 && r.thread < 0x1_0000_0000
            && r.sequence < 0x1_0000_0000_0000_0000 && r.ticket < 0x1_0000_0000_0000_0000
            && r.pc < 0x1_0000_0000_0000_0000 && r.address < 0x1_0000_0000_0000_0000
            && r.value < 0x1_0000_0000_0000_0000 && r.size < 0x1_0000_0000 && r.aux < 0x1_0000_0000
  {
    var f, w := Fields(r), RECORD;
    assert Pow256(2) == 0x1_0000 && Pow256(4) == 0x1_0000_0000;
    assert Pow256(8) == 0x1_0000_0000_0000_0000 by { assert Pow256(6) == 0x1_0000_0000_0000; }
    if Fits(f, w) {
      assert f[0] < Pow256(w[0]) && f[1] < Pow256(w[1]) && f[2] < Pow256(w[2]) && f[3] < Pow256(w[3]);
      assert f[4] < Pow256(w[4]) && f[5] < Pow256(w[5]) && f[6] < Pow256(w[6]) && f[7] < Pow256(w[7]);
      assert f[8] < Pow256(w[8]) && f[9] < Pow256(w[9]);
    }
  }

  /** In a writer's stream the events lie one behind the other after the header. */
  lemma StreamByOffset(stream: seq<Byte>, written: seq<Record>)
    requires AreWritable(written) && stream == Pack(Header(VERSION_MINOR), HEADER) + PackAll(written)
    ensures HasHeader(stream, 2) && |stream| == 16 + 56 * |written| && LieInARow(stream, 16, written, 2)
  {
    ReadAfterWrite(written);
    FileByOffset(stream);
    Sizes();
    HeaderFits();
    UnpackPack(Header(VERSION_MINOR), HEADER);
    assert stream[..16] == Pack(Header(VERSION_MINOR), HEADER);
    HeaderIsChecked(stream, HEADER, Header(VERSION_MINOR));
  }
}
