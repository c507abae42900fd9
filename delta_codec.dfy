/**
 * Decoding rules of the legacy address-library stream for one record
 * (`VersionDb::Load`, src/skyrimdb.h). A record is a mode byte followed by
 * an id field and an offset field. The low nibble of the mode byte selects
 * the id encoding; the high nibble holds a pointer-scale flag (bit 3) and
 * the offset encoding (bits 0-2). Both fields use the same eight encodings,
 * each relative to the value decoded for the previous record.
 *
 * The encoder below is not part of the C++ code; it is the partner that
 * shows the decoder loses nothing: every encodable record reads back.
 */
module DeltaCodec {
  import opened Wrappers
  import opened Words

  /** The eight field encodings, in mode-number order 0..7. */
  datatype FieldMode =
    | Literal64     // 0: the value as a u64
    | Next          // 1: previous + 1, no bytes
    | PlusU8        // 2: previous + u8
    | MinusU8       // 3: previous - u8
    | PlusU16       // 4: previous + u16
    | MinusU16      // 5: previous - u16
    | AbsoluteU16   // 6: the value as a u16
    | AbsoluteU32   // 7: the value as a u32

  function ModeOf(m: nat): (mode: FieldMode)
    requires m < 8
    ensures ModeNumber(mode) == m
  {
    if m == 0 then Literal64 else if m == 1 then Next
    else if m == 2 then PlusU8 else if m == 3 then MinusU8
    else if m == 4 then PlusU16 else if m == 5 then MinusU16
    else if m == 6 then AbsoluteU16 else AbsoluteU32
  }

  function ModeNumber(mode: FieldMode): nat
  {
    match mode
    case Literal64 => 0 case Next => 1 case PlusU8 => 2 case MinusU8 => 3
    case PlusU16 => 4 case MinusU16 => 5 case AbsoluteU16 => 6 case AbsoluteU32 => 7
  }

  /** Number of payload bytes a field of this mode occupies. */
  function FieldWidth(mode: FieldMode): nat
  {
    match mode
    case Literal64 => 8
    case Next => 0
    case PlusU8 | MinusU8 => 1
    case PlusU16 | MinusU16 | AbsoluteU16 => 2
    case AbsoluteU32 => 4
  }

  /** The value a field denotes, given the previous value and its payload. */
  function Apply(mode: FieldMode, prev: U64, payload: U64): U64
  {
    match mode
    case Literal64 | AbsoluteU16 | AbsoluteU32 => payload
    case Next => Add64(prev, 1)
    case PlusU8 | PlusU16 => Add64(prev, payload)
    case MinusU8 | MinusU16 => Sub64(prev, payload)
  }

  /** What a field's payload means: a literal value, or the distance from the previous value. */
  lemma ApplyMeaning(mode: FieldMode, prev: U64, payload: U64)
    ensures var r := Apply(mode, prev, payload);
            && (mode.Literal64? || mode.AbsoluteU16? || mode.AbsoluteU32? ==> r == payload)
            && (mode.Next? ==> Sub64(r, prev) == 1)
            && (mode.PlusU8? || mode.PlusU16? ==> Sub64(r, prev) == payload)
            && (mode.MinusU8? || mode.MinusU16? ==> Sub64(prev, r) == payload)
  {
    match mode
    case Next => AddSubCancel(1, prev);
    case PlusU8 | PlusU16 => AddSubCancel(payload, prev);
    case MinusU8 | MinusU16 => MinusCancel(prev, payload);
    case _ =>
  }

  /** Stepping down from `prev` by `d` and measuring the gap gives `d` back. */
  lemma MinusCancel(prev: U64, d: U64)
    ensures Sub64(prev, Sub64(prev, d)) == d
  {
    if d <= prev {
      assert Sub64(prev, d) == prev - d;
    } else {
      assert Sub64(prev, d) == prev - d + TWO_64;
      assert (d - TWO_64) % TWO_64 == d;
    }
  }

  /**
   * One field at `pos`: its value and the position after it, or `None`
   * when the payload would run past the end of the image.
   */
  function DecodeField(mode: FieldMode, prev: U64, bytes: seq<Byte>, pos: nat): (r: Option<(U64, nat)>)
    ensures r.Some? <==> pos + FieldWidth(mode) <= |bytes|
    ensures r.Some? ==> r.value.1 == pos + FieldWidth(mode)
  {
    match ReadLE(bytes, pos, FieldWidth(mode))
    case None => None
    case Some(payload) => WidthFits(mode); Some((Apply(mode, prev, payload), pos + FieldWidth(mode)))
  }

  /** Every field payload fits a u64. */
  lemma WidthFits(mode: FieldMode)
    ensures Pow256(FieldWidth(mode)) <= TWO_64
  {
    Pow256Table();
  }

  datatype Record = Record(id: U64, offset: U64)

  /**
   * Why one record cannot be decoded. This is narrower than the loader's
   * `LoadError`: a record cannot fail on the version or the name length,
   * so the record decoder's contracts need not rule those out.
   */
  datatype RecordError =
    | InvalidIdMode     // low nibble 8..15: the C++ code clears the tables and throws
    | Truncated         // a read past the end of the image (never detected by the C++ code)
    | ZeroPointerSize   // scale flag set with pointer size 0 (a division by zero in C++)

  /** A decoded record and the position of the next one. */
  datatype Step = Step(rec: Record, next: nat)

  function IdMode(modeByte: Byte): nat { modeByte % 16 }
  function Scaled(modeByte: Byte): bool { modeByte / 16 >= 8 }
  function OffsetMode(modeByte: Byte): FieldMode { ModeOf(modeByte / 16 % 8) }

  /** The value the offset field is relative to: `poffset / ptrSize` when scaled. */
  function OffsetBase(scaled: bool, poffset: U64, ptrSize: U64): U64
    requires scaled ==> ptrSize != 0
  {
    if scaled then poffset / ptrSize else poffset
  }

  /**
   * One record at `pos`, decoded against the previous record's id `pvid`
   * and byte offset `poffset`; `ptrSize` is the header's pointer size
   * converted to u64.
   */
  function DecodeRecord(bytes: seq<Byte>, pos: nat, pvid: U64, poffset: U64, ptrSize: U64): (r: Result<Step, RecordError>)
    ensures r.Ok? ==> pos < r.value.next <= |bytes|
    ensures r.Err? && r.error == InvalidIdMode <==> pos < |bytes| && IdMode(bytes[pos]) >= 8
  {
    if |bytes| <= pos then Err(Truncated)
    else
      var modeByte := bytes[pos];
      if IdMode(modeByte) >= 8 then Err(InvalidIdMode)
      else match DecodeField(ModeOf(IdMode(modeByte)), pvid, bytes, pos + 1)
        case None => Err(Truncated)
        case Some((id, afterId)) =>
          var scaled := Scaled(modeByte);
          if scaled && ptrSize == 0 then Err(ZeroPointerSize)
          else match DecodeField(OffsetMode(modeByte), OffsetBase(scaled, poffset, ptrSize), bytes, afterId)
            case None => Err(Truncated)
            case Some((value, afterOffset)) =>
              var offset := if scaled then Mul64(value, ptrSize) else value;
              Ok(Step(Record(id, offset), afterOffset))
  }

  // ---------------------------------------------------------------------
  // The encoding side, used only to state what the decoder recovers.

  /** Whether `v` can be written in `mode` after `prev`. */
  predicate Encodable(mode: FieldMode, prev: U64, v: U64)
  {
    match mode
    case Literal64 => true
    case Next => v == Add64(prev, 1)
    case PlusU8 => Sub64(v, prev) < TWO_8
    case MinusU8 => Sub64(prev, v) < TWO_8
    case PlusU16 => Sub64(v, prev) < TWO_16
    case MinusU16 => Sub64(prev, v) < TWO_16
    case AbsoluteU16 => v < TWO_16
    case AbsoluteU32 => v < TWO_32
  }

  function Payload(mode: FieldMode, prev: U64, v: U64): U64
  {
    match mode
    case Literal64 | AbsoluteU16 | AbsoluteU32 => v
    case Next => 0
    case PlusU8 | PlusU16 => Sub64(v, prev)
    case MinusU8 | MinusU16 => Sub64(prev, v)
  }

  function EncodeField(mode: FieldMode, prev: U64, v: U64): (s: seq<Byte>)
    ensures |s| == FieldWidth(mode)
  {
    ToLittleEndian(Payload(mode, prev, v), FieldWidth(mode))
  }

  /** The payload chosen for an encodable value fits its field and applies back to the value. */
  lemma PayloadApplies(mode: FieldMode, prev: U64, v: U64)
    requires Encodable(mode, prev, v)
    ensures Payload(mode, prev, v) < Pow256(FieldWidth(mode))
    ensures Apply(mode, prev, Payload(mode, prev, v)) == v
  {
    Pow256Table();
    match mode {
      case PlusU8 | PlusU16 =>
        AddSubCancel(v, prev);
      case MinusU8 | MinusU16 =>
        assert Sub64(prev, Sub64(prev, v)) == v;
      case _ =>
    }
  }

  /** A little-endian payload written at `pos` reads back there. */
  lemma PayloadReads(bytes: seq<Byte>, pos: nat, w: nat, p: nat)
    requires p < Pow256(w)
    requires pos + w <= |bytes| && bytes[pos..pos + w] == ToLittleEndian(p, w)
    ensures ReadLE(bytes, pos, w) == Some(p)
  {
    ReadLEBytes(bytes, pos, w);
    LittleEndianRoundTrip(p, w);
  }

  lemma FieldRoundTrip(mode: FieldMode, prev: U64, v: U64, bytes: seq<Byte>, pos: nat)
    requires Encodable(mode, prev, v)
    requires pos + FieldWidth(mode) <= |bytes|
    requires bytes[pos..pos + FieldWidth(mode)] == EncodeField(mode, prev, v)
    ensures DecodeField(mode, prev, bytes, pos) == Some((v, pos + FieldWidth(mode)))
  {
    PayloadApplies(mode, prev, v);
    PayloadReads(bytes, pos, FieldWidth(mode), Payload(mode, prev, v));
  }

  /** Whether `rec` can be written after `(pvid, poffset)` with this mode byte. */
  predicate RecordEncodable(modeByte: Byte, pvid: U64, poffset: U64, ptrSize: U64, rec: Record)
  {
    && IdMode(modeByte) < 8
    && Encodable(ModeOf(IdMode(modeByte)), pvid, rec.id)
    && (Scaled(modeByte) ==> ptrSize != 0 && rec.offset % ptrSize == 0)
    && Encodable(OffsetMode(modeByte), OffsetBase(Scaled(modeByte), poffset, ptrSize),
                 StoredOffset(Scaled(modeByte), rec.offset, ptrSize))
  }

  /** The offset as written in the stream: in pointer-size units when scaled. */
  function StoredOffset(scaled: bool, offset: U64, ptrSize: U64): U64
    requires scaled ==> ptrSize != 0
  {
    if scaled then offset / ptrSize else offset
  }

  function EncodeRecord(modeByte: Byte, pvid: U64, poffset: U64, ptrSize: U64, rec: Record): (s: seq<Byte>)
    requires RecordEncodable(modeByte, pvid, poffset, ptrSize, rec)
  {
    var scaled := Scaled(modeByte);
    [modeByte]
      + EncodeField(ModeOf(IdMode(modeByte)), pvid, rec.id)
      + EncodeField(OffsetMode(modeByte), OffsetBase(scaled, poffset, ptrSize),
                    StoredOffset(scaled, rec.offset, ptrSize))
  }

  lemma ScaleBack(offset: U64, ptrSize: U64)
    requires ptrSize != 0 && offset % ptrSize == 0
    ensures Mul64(offset / ptrSize, ptrSize) == offset
  {
    assert (offset / ptrSize) * ptrSize == offset;
  }

  /** Where the mode byte and the two fields of an encoded record lie. */
  lemma RecordLayout(modeByte: Byte, pvid: U64, poffset: U64, ptrSize: U64, rec: Record,
                     bytes: seq<Byte>, pos: nat)
    requires RecordEncodable(modeByte, pvid, poffset, ptrSize, rec)
    requires pos + |EncodeRecord(modeByte, pvid, poffset, ptrSize, rec)| <= |bytes|
    requires bytes[pos..pos + |EncodeRecord(modeByte, pvid, poffset, ptrSize, rec)|]
          == EncodeRecord(modeByte, pvid, poffset, ptrSize, rec)
    ensures var scaled := Scaled(modeByte);
            var idEnc := EncodeField(ModeOf(IdMode(modeByte)), pvid, rec.id);
            var offEnc := EncodeField(OffsetMode(modeByte), OffsetBase(scaled, poffset, ptrSize),
                                      StoredOffset(scaled, rec.offset, ptrSize));
            var p2 := pos + 1 + |idEnc|;
            && bytes[pos] == modeByte
            && bytes[pos + 1..p2] == idEnc
            && bytes[p2..p2 + |offEnc|] == offEnc
            && |EncodeRecord(modeByte, pvid, poffset, ptrSize, rec)| == 1 + |idEnc| + |offEnc|
  {
    var scaled := Scaled(modeByte);
    var enc := EncodeRecord(modeByte, pvid, poffset, ptrSize, rec);
    var idEnc := EncodeField(ModeOf(IdMode(modeByte)), pvid, rec.id);
    var offEnc := EncodeField(OffsetMode(modeByte), OffsetBase(scaled, poffset, ptrSize),
                              StoredOffset(scaled, rec.offset, ptrSize));
    assert enc == [modeByte] + idEnc + offEnc;
    var window := bytes[pos..pos + |enc|];
    assert bytes[pos] == window[0] == modeByte;
    SubSlice(bytes, pos, pos + |enc|, 1, 1 + |idEnc|);
    assert enc[1..1 + |idEnc|] == idEnc;
    SubSlice(bytes, pos, pos + |enc|, 1 + |idEnc|, |enc|);
    assert enc[1 + |idEnc|..] == offEnc;
  }

  /** The encoding of `rec` after `(pvid, poffset)` lies in `bytes` from `pos`. */
  predicate RecordWritten(modeByte: Byte, pvid: U64, poffset: U64, ptrSize: U64, rec: Record,
                          bytes: seq<Byte>, pos: nat)
  {
    && RecordEncodable(modeByte, pvid, poffset, ptrSize, rec)
    && pos + |EncodeRecord(modeByte, pvid, poffset, ptrSize, rec)| <= |bytes|
    && bytes[pos..pos + |EncodeRecord(modeByte, pvid, poffset, ptrSize, rec)|]
       == EncodeRecord(modeByte, pvid, poffset, ptrSize, rec)
  }

  /** Every encodable record, written at `pos`, decodes to itself and ends where its encoding ends. */
  lemma RecordRoundTrip(modeByte: Byte, pvid: U64, poffset: U64, ptrSize: U64, rec: Record,
                        bytes: seq<Byte>, pos: nat)
    requires RecordWritten(modeByte, pvid, poffset, ptrSize, rec, bytes, pos)
    ensures DecodeRecord(bytes, pos, pvid, poffset, ptrSize)
         == Ok(Step(rec, pos + |EncodeRecord(modeByte, pvid, poffset, ptrSize, rec)|))
  {
    var scaled := Scaled(modeByte);
    var base := OffsetBase(scaled, poffset, ptrSize);
    var stored := StoredOffset(scaled, rec.offset, ptrSize);
    RecordLayout(modeByte, pvid, poffset, ptrSize, rec, bytes, pos);
    FieldRoundTrip(ModeOf(IdMode(modeByte)), pvid, rec.id, bytes, pos + 1);
    FieldRoundTrip(OffsetMode(modeByte), base, stored, bytes, pos + 1 + FieldWidth(ModeOf(IdMode(modeByte))));
    if scaled {
      ScaleBack(rec.offset, ptrSize);
    }
  }
}
