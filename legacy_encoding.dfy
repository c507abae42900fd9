/**
 * A writer for the legacy stream. The C++ code only reads this format; the
 * writer exists to state, once for all inputs, what `Decode` recovers: the
 * header fields and the maps built from every record in order.
 */
module LegacyEncoding {
  import opened Wrappers
  import opened Words
  import opened DeltaCodec
  import opened SkyrimDb

  /** A record together with the mode byte chosen to write it. */
  datatype Coded = Coded(modeByte: Byte, rec: Record)

  /** Every record can be written in its mode after its predecessor (the first after (0, 0)). */
  predicate ChainEncodable(cs: seq<Coded>, pvid: U64, poffset: U64, ptrSize: U64)
    decreases |cs|
  {
    cs == [] ||
    (RecordEncodable(cs[0].modeByte, pvid, poffset, ptrSize, cs[0].rec)
     && ChainEncodable(cs[1..], cs[0].rec.id, cs[0].rec.offset, ptrSize))
  }

  function EncodeChain(cs: seq<Coded>, pvid: U64, poffset: U64, ptrSize: U64): seq<Byte>
    requires ChainEncodable(cs, pvid, poffset, ptrSize)
    decreases |cs|
  {
    if cs == [] then []
    else EncodeRecord(cs[0].modeByte, pvid, poffset, ptrSize, cs[0].rec)
         + EncodeChain(cs[1..], cs[0].rec.id, cs[0].rec.offset, ptrSize)
  }

  function Records(cs: seq<Coded>): (recs: seq<Record>)
    ensures |recs| == |cs| && forall i :: 0 <= i < |cs| ==> recs[i] == cs[i].rec
  {
    if cs == [] then [] else [cs[0].rec] + Records(cs[1..])
  }

  /** The chain `cs`, encoded after `(pvid, poffset)`, lies in `bytes` from `pos`. */
  predicate ChainWritten(cs: seq<Coded>, pvid: U64, poffset: U64, ptrSize: U64, bytes: seq<Byte>, pos: nat)
  {
    && ChainEncodable(cs, pvid, poffset, ptrSize)
    && pos + |EncodeChain(cs, pvid, poffset, ptrSize)| <= |bytes|
    && bytes[pos..pos + |EncodeChain(cs, pvid, poffset, ptrSize)|] == EncodeChain(cs, pvid, poffset, ptrSize)
  }

  lemma {:induction false} ChainRoundTrip(cs: seq<Coded>, pvid: U64, poffset: U64, ptrSize: U64,
                                          bytes: seq<Byte>, pos: nat)
    requires ChainWritten(cs, pvid, poffset, ptrSize, bytes, pos)
    ensures DecodeRecords(bytes, pos, |cs|, pvid, poffset, ptrSize) == Ok(Records(cs))
    decreases |cs|
  {
    if cs != [] {
      var next := ChainLink(cs, pvid, poffset, ptrSize, bytes, pos);
      ChainRoundTrip(cs[1..], cs[0].rec.id, cs[0].rec.offset, ptrSize, bytes, next);
    }
  }

  /** The rest of a written chain follows its first record, and decoding it completes the whole chain. */
  lemma ChainLink(cs: seq<Coded>, pvid: U64, poffset: U64, ptrSize: U64, bytes: seq<Byte>, pos: nat)
    returns (next: nat)
    requires cs != [] && ChainWritten(cs, pvid, poffset, ptrSize, bytes, pos)
    ensures ChainWritten(cs[1..], cs[0].rec.id, cs[0].rec.offset, ptrSize, bytes, next)
    ensures DecodeRecords(bytes, next, |cs[1..]|, cs[0].rec.id, cs[0].rec.offset, ptrSize) == Ok(Records(cs[1..]))
            ==> DecodeRecords(bytes, pos, |cs|, pvid, poffset, ptrSize) == Ok(Records(cs))
  {
    next := ChainStep(cs, pvid, poffset, ptrSize, bytes, pos);
    DecodeRecordsCons(bytes, pos, |cs|, pvid, poffset, ptrSize, Step(cs[0].rec, next));
    assert Records(cs) == [cs[0].rec] + Records(cs[1..]);
  }

  /** The first record of a chain decodes, and the rest of the chain follows it. */
  lemma ChainStep(cs: seq<Coded>, pvid: U64, poffset: U64, ptrSize: U64, bytes: seq<Byte>, pos: nat)
    returns (next: nat)
    requires cs != [] && ChainWritten(cs, pvid, poffset, ptrSize, bytes, pos)
    ensures DecodeRecord(bytes, pos, pvid, poffset, ptrSize) == Ok(Step(cs[0].rec, next))
    ensures ChainWritten(cs[1..], cs[0].rec.id, cs[0].rec.offset, ptrSize, bytes, next)
  {
    var c := cs[0];
    next := ChainSplit(cs, pvid, poffset, ptrSize, bytes, pos);
    RecordRoundTrip(c.modeByte, pvid, poffset, ptrSize, c.rec, bytes, pos);
  }

  /** A written chain is its first record written at `pos`, then the rest written after it. */
  lemma ChainSplit(cs: seq<Coded>, pvid: U64, poffset: U64, ptrSize: U64, bytes: seq<Byte>, pos: nat)
    returns (next: nat)
    requires cs != [] && ChainWritten(cs, pvid, poffset, ptrSize, bytes, pos)
    ensures RecordWritten(cs[0].modeByte, pvid, poffset, ptrSize, cs[0].rec, bytes, pos)
    ensures next == pos + |EncodeRecord(cs[0].modeByte, pvid, poffset, ptrSize, cs[0].rec)|
    ensures ChainWritten(cs[1..], cs[0].rec.id, cs[0].rec.offset, ptrSize, bytes, next)
  {
    var c := cs[0];
    var first := EncodeRecord(c.modeByte, pvid, poffset, ptrSize, c.rec);
    var rest := EncodeChain(cs[1..], c.rec.id, c.rec.offset, ptrSize);
    assert EncodeChain(cs, pvid, poffset, ptrSize) == first + rest;
    SplitWindow(bytes, pos, first, rest);
    next := pos + |first|;
    WrittenParts(c.modeByte, pvid, poffset, ptrSize, c.rec, cs[1..], bytes, pos, first, rest);
  }

  /** The two halves of a split window, restated as a written record and a written chain. */
  lemma WrittenParts(modeByte: Byte, pvid: U64, poffset: U64, ptrSize: U64, rec: Record, tail: seq<Coded>,
                     bytes: seq<Byte>, pos: nat, first: seq<Byte>, rest: seq<Byte>)
    requires RecordEncodable(modeByte, pvid, poffset, ptrSize, rec)
    requires ChainEncodable(tail, rec.id, rec.offset, ptrSize)
    requires first == EncodeRecord(modeByte, pvid, poffset, ptrSize, rec)
    requires rest == EncodeChain(tail, rec.id, rec.offset, ptrSize)
    requires pos + |first| + |rest| <= |bytes|
    requires bytes[pos..pos + |first|] == first
    requires bytes[pos + |first|..pos + |first| + |rest|] == rest
    ensures RecordWritten(modeByte, pvid, poffset, ptrSize, rec, bytes, pos)
    ensures ChainWritten(tail, rec.id, rec.offset, ptrSize, bytes, pos + |first|)
  {
  }

  lemma SplitWindow(bytes: seq<Byte>, pos: nat, first: seq<Byte>, rest: seq<Byte>)
    requires pos + |first| + |rest| <= |bytes|
    requires bytes[pos..pos + |first| + |rest|] == first + rest
    ensures bytes[pos..pos + |first|] == first
    ensures bytes[pos + |first|..pos + |first| + |rest|] == rest
  {
    var all := first + rest;
    SubSlice(bytes, pos, pos + |all|, 0, |first|);
    assert all[0..|first|] == first;
    SubSlice(bytes, pos, pos + |all|, |first|, |all|);
    assert all[|first|..|all|] == rest;
  }

  /** The name as bytes: one per character. */
  function NameBytes(name: string): (b: seq<Byte>)
    requires forall i :: 0 <= i < |name| ==> name[i] as int < 0x100
    ensures |b| == |name| && forall i :: 0 <= i < |name| ==> b[i] == name[i] as int
  {
    if name == [] then [] else [name[0] as int] + NameBytes(name[1..])
  }

  predicate IsI32(v: int) { -TWO_31 <= v < TWO_31 }

  /** An i32 written at `pos` reads back there; what follows it starts 4 bytes later. */
  lemma ReadI32Front(bytes: seq<Byte>, pos: nat, v: int, rest: seq<Byte>)
    requires IsI32(v)
    requires pos <= |bytes| && bytes[pos..] == I32Bytes(v) + rest
    ensures ReadI32(bytes, pos) == Some(v)
    ensures bytes[pos + 4..] == rest
  {
    assert bytes[pos..pos + 4] == bytes[pos..][..4];
    ReadLEBytes(bytes, pos, 4);
    I32RoundTrip(v);
    assert bytes[pos + 4..] == bytes[pos..][4..];
  }

  lemma {:induction false} CutAtNulWhole(raw: seq<Byte>, name: string)
    requires |raw| == |name| && forall i :: 0 <= i < |name| ==> raw[i] == name[i] as int && name[i] != '\0'
    ensures CutAtNul(raw) == name
  {
    if raw != [] {
      CutAtNulWhole(raw[1..], name[1..]);
    }
  }

  /** The header fields written in front of `rest`. */
  function HeaderBytes(format: int, ver: seq<int>, name: string, ptrSize: int, count: int, rest: seq<Byte>): seq<Byte>
    requires |ver| == 4
    requires forall i :: 0 <= i < |name| ==> name[i] as int < 0x100
  {
    I32Bytes(format) + (I32Bytes(ver[0]) + (I32Bytes(ver[1]) + (I32Bytes(ver[2]) + (I32Bytes(ver[3])
      + (I32Bytes(|name|) + (NameBytes(name) + (I32Bytes(ptrSize) + (I32Bytes(count) + rest))))))))
  }

  lemma HeaderRoundTrip(format: int, ver: seq<int>, name: string, ptrSize: int, count: int, rest: seq<Byte>)
    requires format == 1 || format == 2
    requires |ver| == 4 && forall i :: 0 <= i < 4 ==> IsI32(ver[i])
    requires |name| < 0x1_0000 && forall i :: 0 <= i < |name| ==> 0 < name[i] as int < 0x100
    requires IsI32(ptrSize) && IsI32(count)
    ensures var bytes := HeaderBytes(format, ver, name, ptrSize, count, rest);
            && DecodeHeader(bytes) == Ok(Header(ver, name, ptrSize, count, 32 + |name|))
            && 32 + |name| <= |bytes| && bytes[32 + |name|..] == rest
  {
    var bytes := HeaderBytes(format, ver, name, ptrSize, count, rest);
    var tail := NameBytes(name) + (I32Bytes(ptrSize) + (I32Bytes(count) + rest));
    HeaderFront(bytes, format, ver, |name|, tail);
    HeaderBack(bytes, name, ptrSize, count, rest);
    HeaderFields(bytes, format, ver, name, ptrSize, count);
  }

  /** The fixed-size front of the header: format, version and name length. */
  lemma HeaderFront(bytes: seq<Byte>, format: int, ver: seq<int>, n: int, tail: seq<Byte>)
    requires IsI32(format) && IsI32(n)
    requires |ver| == 4 && forall i :: 0 <= i < 4 ==> IsI32(ver[i])
    requires bytes == I32Bytes(format) + (I32Bytes(ver[0]) + (I32Bytes(ver[1]) + (I32Bytes(ver[2])
                        + (I32Bytes(ver[3]) + (I32Bytes(n) + tail)))))
    ensures ReadI32(bytes, 0) == Some(format) && ReadVersion(bytes, 4) == Some(ver)
    ensures ReadI32(bytes, 20) == Some(n) && 24 <= |bytes| && bytes[24..] == tail
  {
    var t5 := I32Bytes(n) + tail;
    var t4 := I32Bytes(ver[3]) + t5;
    var t3 := I32Bytes(ver[2]) + t4;
    var t2 := I32Bytes(ver[1]) + t3;
    var t1 := I32Bytes(ver[0]) + t2;
    assert bytes[0..] == bytes;
    ReadI32Front(bytes, 0, format, t1);
    ReadI32Front(bytes, 4, ver[0], t2);
    ReadI32Front(bytes, 8, ver[1], t3);
    ReadI32Front(bytes, 12, ver[2], t4);
    ReadI32Front(bytes, 16, ver[3], t5);
    assert [ver[0], ver[1], ver[2], ver[3]] == ver;
    ReadI32Front(bytes, 20, n, tail);
  }

  /** The back of the header: the name, pointer size and count. */
  lemma HeaderBack(bytes: seq<Byte>, name: string, ptrSize: int, count: int, rest: seq<Byte>)
    requires forall i :: 0 <= i < |name| ==> 0 < name[i] as int < 0x100
    requires IsI32(ptrSize) && IsI32(count)
    requires 24 <= |bytes| && bytes[24..] == NameBytes(name) + (I32Bytes(ptrSize) + (I32Bytes(count) + rest))
    ensures var at := 24 + |name|;
            && at + 8 <= |bytes|
            && (|name| > 0 ==> CutAtNul(bytes[24..at]) == name)
            && ReadI32(bytes, at) == Some(ptrSize) && ReadI32(bytes, at + 4) == Some(count)
            && bytes[at + 8..] == rest
  {
    var n := |name|;
    var at := 24 + n;
    var t8 := I32Bytes(count) + rest;
    var t7 := I32Bytes(ptrSize) + t8;
    SuffixSplit(bytes, 24, NameBytes(name), t7);
    if n > 0 {
      CutAtNulWhole(bytes[24..at], name);
    }
    ReadI32Front(bytes, at, ptrSize, t8);
    ReadI32Front(bytes, at + 4, count, rest);
  }

  /** The header decodes once each of its fields reads back. */
  lemma HeaderFields(bytes: seq<Byte>, format: int, ver: seq<int>, name: string, ptrSize: int, count: int)
    requires format == 1 || format == 2
    requires |name| < NAME_LIMIT
    requires ReadI32(bytes, 0) == Some(format) && ReadVersion(bytes, 4) == Some(ver)
    requires ReadI32(bytes, 20) == Some(|name|) && 24 + |name| <= |bytes|
    requires |name| > 0 ==> CutAtNul(bytes[24..24 + |name|]) == name
    requires ReadI32(bytes, 24 + |name|) == Some(ptrSize) && ReadI32(bytes, 28 + |name|) == Some(count)
    ensures DecodeHeader(bytes) == Ok(Header(ver, name, ptrSize, count, 32 + |name|))
  {
    var at := 24 + |name|;
    assert (if |name| > 0 then CutAtNul(bytes[24..at]) else "") == name;
  }

  /** A header and a record chain as a legacy image. */
  function EncodeDb(format: int, ver: seq<int>, name: string, ptrSize: int, cs: seq<Coded>): seq<Byte>
    requires Writable(format, ver, name, ptrSize, cs)
  {
    HeaderBytes(format, ver, name, ptrSize, |cs|, EncodeChain(cs, 0, 0, ToU64(ptrSize)))
  }

  /** What the writer needs: a supported format, i32 fields, a short NUL-free byte name, an encodable chain. */
  predicate Writable(format: int, ver: seq<int>, name: string, ptrSize: int, cs: seq<Coded>)
  {
    && (format == 1 || format == 2)
    && |ver| == 4 && (forall i :: 0 <= i < 4 ==> IsI32(ver[i]))
    && |name| < 0x1_0000 && (forall i :: 0 <= i < |name| ==> 0 < name[i] as int < 0x100)
    && IsI32(ptrSize) && |cs| < TWO_31
    && ChainEncodable(cs, 0, 0, ToU64(ptrSize))
  }

  /**
   * Writing a header and a chain of encodable records, then loading it,
   * succeeds with the written version and name, and with the maps that
   * inserting the records in order gives.
   */
  lemma DecodeEncode(format: int, ver: seq<int>, name: string, ptrSize: int, cs: seq<Coded>)
    requires Writable(format, ver, name, ptrSize, cs)
    ensures Decode(EncodeDb(format, ver, name, ptrSize, cs))
         == Loaded(None, State(ver, name, DataMap(Records(cs)), RDataMap(Records(cs))))
  {
    EncodeDbLayout(format, ver, name, ptrSize, cs);
    DecodeImage(EncodeDb(format, ver, name, ptrSize, cs), ver, name, ptrSize, cs, 32 + |name|);
  }

  lemma EncodeDbLayout(format: int, ver: seq<int>, name: string, ptrSize: int, cs: seq<Coded>)
    requires Writable(format, ver, name, ptrSize, cs)
    ensures DecodeHeader(EncodeDb(format, ver, name, ptrSize, cs)) == Ok(Header(ver, name, ptrSize, |cs|, 32 + |name|))
    ensures 32 + |name| <= |EncodeDb(format, ver, name, ptrSize, cs)|
    ensures EncodeDb(format, ver, name, ptrSize, cs)[32 + |name|..] == EncodeChain(cs, 0, 0, ToU64(ptrSize))
  {
    HeaderRoundTrip(format, ver, name, ptrSize, |cs|, EncodeChain(cs, 0, 0, ToU64(ptrSize)));
  }

  /** A decodable header followed, where it says, by an encoded chain loads that chain. */
  lemma DecodeImage(bytes: seq<Byte>, ver: seq<int>, name: string, ptrSize: int, cs: seq<Coded>, at: nat)
    requires DecodeHeader(bytes) == Ok(Header(ver, name, ptrSize, |cs|, at))
    requires |cs| < TWO_31 && ChainEncodable(cs, 0, 0, ToU64(ptrSize))
    requires at <= |bytes| && bytes[at..] == EncodeChain(cs, 0, 0, ToU64(ptrSize))
    ensures Decode(bytes) == Loaded(None, State(ver, name, DataMap(Records(cs)), RDataMap(Records(cs))))
  {
    ChainAt(cs, ToU64(ptrSize), bytes, at);
    assert LoopCount(|cs|) == |cs|;
    DecodeOk(bytes, Header(ver, name, ptrSize, |cs|, at), Records(cs));
  }

  lemma ChainAt(cs: seq<Coded>, ptrSize: U64, bytes: seq<Byte>, at: nat)
    requires ChainEncodable(cs, 0, 0, ptrSize)
    requires at <= |bytes| && bytes[at..] == EncodeChain(cs, 0, 0, ptrSize)
    ensures DecodeRecords(bytes, at, |cs|, 0, 0, ptrSize) == Ok(Records(cs))
  {
    var chain := EncodeChain(cs, 0, 0, ptrSize);
    assert bytes[at..at + |chain|] == bytes[at..];
    ChainRoundTrip(cs, 0, 0, ptrSize, bytes, at);
  }

  /** A header and a record run that both decode make a successful load. */
  lemma DecodeOk(bytes: seq<Byte>, h: Header, recs: seq<Record>)
    requires DecodeHeader(bytes) == Ok(h)
    requires DecodeRecords(bytes, h.recordsAt, LoopCount(h.count), 0, 0, ToU64(h.ptrSize)) == Ok(recs)
    ensures Decode(bytes) == Loaded(None, State(h.ver, h.name, DataMap(recs), RDataMap(recs)))
  {
  }
}
