/**
 * What a legacy load guarantees, stated over `SkyrimDb.Decode` (which
 * `VersionDb.Load` is proved to follow) and over the two maps it builds.
 */
module SkyrimDbProperties {
  import opened Wrappers
  import opened Words
  import opened DeltaCodec
  import opened TextFormat
  import opened SkyrimDb

  // ---------------------------------------------------------------------
  // Header checks

  /** Only format versions 1 and 2 get past the first field; any other value clears the object. */
  lemma VersionGate(bytes: seq<Byte>, format: int)
    requires ReadI32(bytes, 0) == Some(format)
    ensures Decode(bytes).error == Some(UnsupportedVersion(format)) <==> format < 1 || format > 2
    ensures format < 1 || format > 2 ==> Decode(bytes).state == CLEARED
  {
  }

  predicate OccursAt(s: string, t: string, i: nat)
  {
    i + |t| <= |s| && s[i..i + |t|] == t
  }

  ghost predicate Contains(s: string, t: string)
  {
    exists i: nat :: OccursAt(s, t, i)
  }

  /** The "--fallout4" hint appears exactly for format versions above 4. */
  lemma FalloutHint(v: int)
    ensures Contains(Message(UnsupportedVersion(v)), "--fallout4") <==> v > 4
  {
    var msg := Message(UnsupportedVersion(v));
    var plain := PLAIN_VERSION_MESSAGE + SignedDecimal(v);
    if v > 4 {
      var i := |plain| + |" (Did you mean to specify "|;
      assert msg == plain + FALLOUT4_HINT;
      assert msg[i..i + 10] == "--fallout4";
      assert OccursAt(msg, "--fallout4", i);
    } else {
      assert msg == plain;
      forall i: nat | OccursAt(msg, "--fallout4", i)
        ensures false
      {
        assert msg[i] == msg[i..i + 10][0] == '-';
        assert msg[i + 1] == msg[i..i + 10][1] == '-';
        NoDoubleDash(v, i);
      }
    }
  }

  lemma NoDoubleDash(v: int, i: nat)
    requires i + 1 < |PLAIN_VERSION_MESSAGE + SignedDecimal(v)|
    ensures var plain := PLAIN_VERSION_MESSAGE + SignedDecimal(v);
            !(plain[i] == '-' && plain[i + 1] == '-')
  {
    var plain := PLAIN_VERSION_MESSAGE + SignedDecimal(v);
    var n := |PLAIN_VERSION_MESSAGE|;
    assert forall k :: 0 <= k < n ==> plain[k] == PLAIN_VERSION_MESSAGE[k] != '-';
    if i + 1 > n {
      assert plain[i + 1] == SignedDecimal(v)[i + 1 - n];
    }
  }

  /** The header fields up to the name length, when present. */
  predicate HeaderPrefix(bytes: seq<Byte>, ver: seq<int>, nameLength: int)
  {
    && ReadI32(bytes, 0).Some? && 1 <= ReadI32(bytes, 0).value <= 2
    && ReadVersion(bytes, 4) == Some(ver)
    && ReadI32(bytes, 20) == Some(nameLength)
  }

  /** A name length outside 0 <= n < 0x10000 fails, leaving only the version fields set. */
  lemma NameLengthRejected(bytes: seq<Byte>, ver: seq<int>, nameLength: int)
    requires HeaderPrefix(bytes, ver, nameLength)
    requires nameLength < 0 || nameLength >= 0x1_0000
    ensures Decode(bytes) == Loaded(Some(CorruptHeader), State(ver, "", map[], map[]))
  {
  }

  /**
   * A name length in range is accepted; the records start right after the
   * name bytes, the pointer size and the count. Length 0 reads no name
   * bytes and leaves the name empty; otherwise the name is the bytes up to
   * the first NUL.
   */
  lemma NameLengthAccepted(bytes: seq<Byte>, ver: seq<int>, nameLength: int)
    requires HeaderPrefix(bytes, ver, nameLength)
    requires 0 <= nameLength < 0x1_0000
    requires 32 + nameLength <= |bytes|
    ensures DecodeHeader(bytes).Ok?
    ensures var h := DecodeHeader(bytes).value;
            && h.ver == ver
            && h.recordsAt == 32 + nameLength
            && Some(h.ptrSize) == ReadI32(bytes, 24 + nameLength)
            && Some(h.count) == ReadI32(bytes, 28 + nameLength)
            && (nameLength == 0 ==> h.name == "")
            && |h.name| <= nameLength
            && (forall i :: 0 <= i < |h.name| ==> h.name[i] != '\0' && h.name[i] as int == bytes[24 + i])
            && (|h.name| < nameLength ==> bytes[24 + |h.name|] == 0)
  {
  }

  /** The largest accepted name length, 0xFFFF, decodes. */
  lemma LongestName(bytes: seq<Byte>, ver: seq<int>)
    requires HeaderPrefix(bytes, ver, 0xFFFF)
    requires 32 + 0xFFFF <= |bytes|
    ensures DecodeHeader(bytes).Ok? && DecodeHeader(bytes).value.recordsAt == 32 + 0xFFFF
  {
    NameLengthAccepted(bytes, ver, 0xFFFF);
  }

  // ---------------------------------------------------------------------
  // Whole loads

  /** A failed load leaves no table behind: both maps and the name are empty. */
  lemma FailureLeavesNoTable(bytes: seq<Byte>)
    requires Decode(bytes).error.Some?
    ensures var st := Decode(bytes).state;
            st.data == map[] && st.rdata == map[] && st.name == ""
    ensures Decode(bytes).error != Some(CorruptHeader) ==> Decode(bytes).state.ver == ZERO_VERSION
  {
  }

  /** With a record count of zero or less, a header that decodes yields two empty maps. */
  lemma NoRecords(bytes: seq<Byte>)
    requires DecodeHeader(bytes).Ok? && DecodeHeader(bytes).value.count <= 0
    ensures var h := DecodeHeader(bytes).value;
            Decode(bytes) == Loaded(None, State(h.ver, h.name, map[], map[]))
  {
  }

  /**
   * Decoding from `pos` after `(pvid, poffset)` meets the records `recs`
   * one after another and stops at `end`: the path the loop takes through
   * its first `|recs|` iterations.
   */
  ghost predicate Walks(bytes: seq<Byte>, pos: nat, pvid: U64, poffset: U64, ptrSize: U64,
                        recs: seq<Record>, end: nat)
    decreases |recs|
  {
    if recs == [] then end == pos
    else
      var r := DecodeRecord(bytes, pos, pvid, poffset, ptrSize);
      && r.Ok? && r.value.rec == recs[0]
      && Walks(bytes, r.value.next, recs[0].id, recs[0].offset, ptrSize, recs[1..], end)
  }

  /**
   * Records that decode, followed by a mode byte whose id nibble is 8..15:
   * if the loop runs past the good records, it stops on the bad one.
   */
  lemma {:induction false} WalkThenInvalid(bytes: seq<Byte>, pos: nat, pvid: U64, poffset: U64, ptrSize: U64,
                                           recs: seq<Record>, end: nat, count: nat)
    requires Walks(bytes, pos, pvid, poffset, ptrSize, recs, end)
    requires |recs| < count && end < |bytes| && IdMode(bytes[end]) >= 8
    ensures DecodeRecords(bytes, pos, count, pvid, poffset, ptrSize) == Err(RecordError.InvalidIdMode)
    decreases |recs|
  {
    if recs != [] {
      var step := DecodeRecord(bytes, pos, pvid, poffset, ptrSize).value;
      WalkThenInvalid(bytes, step.next, recs[0].id, recs[0].offset, ptrSize, recs[1..], end, count - 1);
      DecodeRecordsCons(bytes, pos, count, pvid, poffset, ptrSize, step);
    }
  }

  /**
   * A record whose id nibble is 8..15 aborts the load and clears the object,
   * whichever iteration of the loop reaches it: the records decoded before
   * it are dropped.
   */
  lemma InvalidIdModeClears(bytes: seq<Byte>, h: Header, recs: seq<Record>, end: nat)
    requires DecodeHeader(bytes) == Ok(h)
    requires Walks(bytes, h.recordsAt, 0, 0, ToU64(h.ptrSize), recs, end)
    requires |recs| < h.count
    requires end < |bytes| && IdMode(bytes[end]) >= 8
    ensures Decode(bytes) == Loaded(Some(LoadError.InvalidIdMode), CLEARED)
  {
    WalkThenInvalid(bytes, h.recordsAt, 0, 0, ToU64(h.ptrSize), recs, end, LoopCount(h.count));
    RecordFailed(bytes, h, RecordError.InvalidIdMode);
  }

  // ---------------------------------------------------------------------
  // Single records

  /**
   * The offset nibble never fails: once the id nibble is valid, the scale
   * flag has a nonzero pointer size and the widest fields fit, the record
   * decodes whatever the high nibble holds.
   */
  lemma OffsetModeNeverInvalid(bytes: seq<Byte>, pos: nat, pvid: U64, poffset: U64, ptrSize: U64)
    requires pos + 17 <= |bytes| && IdMode(bytes[pos]) < 8
    requires Scaled(bytes[pos]) ==> ptrSize != 0
    ensures DecodeRecord(bytes, pos, pvid, poffset, ptrSize).Ok?
  {
    var idMode := ModeOf(IdMode(bytes[pos]));
    assert FieldWidth(idMode) <= 8 && FieldWidth(OffsetMode(bytes[pos])) <= 8;
  }

  /**
   * Mode byte 0x11 (id mode 1, offset mode 1, no scale): the record is the
   * previous id plus one and the previous offset plus one, wrapping, and
   * takes the mode byte alone.
   */
  lemma SuccessorRecord(bytes: seq<Byte>, pos: nat, pvid: U64, poffset: U64, ptrSize: U64)
    requires pos < |bytes| && bytes[pos] == 0x11
    ensures DecodeRecord(bytes, pos, pvid, poffset, ptrSize)
         == Ok(Step(Record(Add64(pvid, 1), Add64(poffset, 1)), pos + 1))
  {
    assert ModeOf(IdMode(0x11)) == Next && OffsetMode(0x11) == Next;
    Pow256Table();
  }

  /**
   * A scaled record is decoded in pointer-size units: with mode byte 0x91
   * (id mode 1, scale flag, offset mode 1) the new offset is one pointer
   * past the previous offset rounded down to a pointer boundary.
   */
  lemma ScaledSuccessor(bytes: seq<Byte>, pos: nat, pvid: U64, poffset: U64, ptrSize: U64)
    requires pos < |bytes| && bytes[pos] == 0x91 && ptrSize != 0
    ensures DecodeRecord(bytes, pos, pvid, poffset, ptrSize)
         == Ok(Step(Record(Add64(pvid, 1), Mul64(Add64(poffset / ptrSize, 1), ptrSize)), pos + 1))
  {
    assert ModeOf(IdMode(0x91)) == Next && OffsetMode(0x91) == Next && Scaled(0x91);
    Pow256Table();
  }

  // ---------------------------------------------------------------------
  // The two maps

  /** `data` holds exactly the decoded ids, each with the offset of its last record. */
  lemma DataMapLastWins(recs: seq<Record>)
    ensures forall k :: k in DataMap(recs) <==> exists i :: 0 <= i < |recs| && recs[i].id == k
    ensures forall i :: 0 <= i < |recs| && (forall j :: i < j < |recs| ==> recs[j].id != recs[i].id)
              ==> recs[i].id in DataMap(recs) && DataMap(recs)[recs[i].id] == recs[i].offset
  {
    DataMapKeys(recs);
    DataMapLast(recs);
  }

  lemma {:induction false} DataMapKeys(recs: seq<Record>)
    ensures forall k :: k in DataMap(recs) <==> exists i :: 0 <= i < |recs| && recs[i].id == k
  {
    if recs != [] {
      var init := recs[..|recs| - 1];
      DataMapKeys(init);
      forall k ensures k in DataMap(recs) <==> exists i :: 0 <= i < |recs| && recs[i].id == k {
        if k in DataMap(init) {
          var i :| 0 <= i < |init| && init[i].id == k;
          assert recs[i].id == k;
        }
        if i :| 0 <= i < |recs| && recs[i].id == k {
          if i < |init| {
            assert init[i].id == k;
          }
        }
      }
    }
  }

  lemma {:induction false} DataMapLast(recs: seq<Record>)
    ensures forall i :: 0 <= i < |recs| && (forall j :: i < j < |recs| ==> recs[j].id != recs[i].id)
              ==> recs[i].id in DataMap(recs) && DataMap(recs)[recs[i].id] == recs[i].offset
  {
    if recs != [] {
      var init := recs[..|recs| - 1];
      DataMapLast(init);
      forall i | 0 <= i < |recs| && (forall j :: i < j < |recs| ==> recs[j].id != recs[i].id)
        ensures recs[i].id in DataMap(recs) && DataMap(recs)[recs[i].id] == recs[i].offset
      {
        if i < |init| {
          assert init[i] == recs[i];
          forall j | i < j < |init| ensures init[j].id != init[i].id {
            assert init[j] == recs[j];
          }
          assert recs[|recs| - 1].id != recs[i].id;
        }
      }
    }
  }

  /** `rdata` holds exactly the decoded offsets, each with the id of its last record. */
  lemma RDataMapLastWins(recs: seq<Record>)
    ensures forall o :: o in RDataMap(recs) <==> exists i :: 0 <= i < |recs| && recs[i].offset == o
    ensures forall i :: 0 <= i < |recs| && (forall j :: i < j < |recs| ==> recs[j].offset != recs[i].offset)
              ==> recs[i].offset in RDataMap(recs) && RDataMap(recs)[recs[i].offset] == recs[i].id
  {
    RDataMapKeys(recs);
    RDataMapLast(recs);
  }

  lemma {:induction false} RDataMapKeys(recs: seq<Record>)
    ensures forall o :: o in RDataMap(recs) <==> exists i :: 0 <= i < |recs| && recs[i].offset == o
  {
    if recs != [] {
      var init := recs[..|recs| - 1];
      RDataMapKeys(init);
      forall o ensures o in RDataMap(recs) <==> exists i :: 0 <= i < |recs| && recs[i].offset == o {
        if o in RDataMap(init) {
          var i :| 0 <= i < |init| && init[i].offset == o;
          assert recs[i].offset == o;
        }
        if i :| 0 <= i < |recs| && recs[i].offset == o {
          if i < |init| {
            assert init[i].offset == o;
          }
        }
      }
    }
  }

  lemma {:induction false} RDataMapLast(recs: seq<Record>)
    ensures forall i :: 0 <= i < |recs| && (forall j :: i < j < |recs| ==> recs[j].offset != recs[i].offset)
              ==> recs[i].offset in RDataMap(recs) && RDataMap(recs)[recs[i].offset] == recs[i].id
  {
    if recs != [] {
      var init := recs[..|recs| - 1];
      RDataMapLast(init);
      forall i | 0 <= i < |recs| && (forall j :: i < j < |recs| ==> recs[j].offset != recs[i].offset)
        ensures recs[i].offset in RDataMap(recs) && RDataMap(recs)[recs[i].offset] == recs[i].id
      {
        if i < |init| {
          assert init[i] == recs[i];
          forall j | i < j < |init| ensures init[j].offset != init[i].offset {
            assert init[j] == recs[j];
          }
          assert recs[|recs| - 1].offset != recs[i].offset;
        }
      }
    }
  }

  /** Every offset in `data` is a key of `rdata`, and every id in `rdata` is a key of `data`. */
  predicate Linked(data: map<U64, U64>, rdata: map<U64, U64>)
  {
    && (forall id :: id in data ==> data[id] in rdata)
    && (forall offset :: offset in rdata ==> rdata[offset] in data)
  }

  lemma {:induction false} MapsLinked(recs: seq<Record>)
    ensures Linked(DataMap(recs), RDataMap(recs))
  {
    if recs != [] {
      MapsLinked(recs[..|recs| - 1]);
    }
  }

  /** After any load, successful or not, the two maps are linked. */
  lemma DecodeLinked(bytes: seq<Byte>)
    ensures Linked(Decode(bytes).state.data, Decode(bytes).state.rdata)
  {
    match DecodeHeader(bytes)
    case Err(_) =>
    case Ok(h) =>
      match DecodeRecords(bytes, h.recordsAt, LoopCount(h.count), 0, 0, ToU64(h.ptrSize))
      case Err(_) =>
      case Ok(recs) => MapsLinked(recs);
  }

  /**
   * On linked maps and a nonzero base, the address of a stored id resolves
   * back through `rdata` to the same offset.
   */
  lemma AddressRoundTrip(db: VersionDb, id: U64, result: U64)
    requires Linked(db.data, db.rdata) && db.base != 0 && id in db.data
    ensures db.FindIdByAddress(db.FindAddressById(id), result) == (true, db.rdata[db.data[id]])
  {
  }

  // ---------------------------------------------------------------------
  // One concrete table

  /**
   * The dump of that table: the id padded to ten columns, the offset in
   * nine zero-filled hex digits, and with the base 0x140000000 added.
   */
  lemma OneRecordDump(data: map<U64, U64>)
    requires data == map[100 := 0x2000]
    ensures DumpLines(DumpEntries(data, false, DEFAULT_BASE), HEX_WIDTH, '0')
         == "100       " + "\t0x" + "000002000" + "\n"
    ensures DumpLines(DumpEntries(data, true, DEFAULT_BASE), HEX_WIDTH, '0')
         == "100       " + "\t0x" + "140002000" + "\n"
  {
    OneDumpLine(data, false);
    OneDumpLine(data, true);
  }

  lemma SingleKey(data: map<U64, U64>, useBase: bool)
    requires data == map[100 := 0x2000]
    ensures DumpEntries(data, useBase, DEFAULT_BASE) == [(100, Biased(0x2000, useBase, DEFAULT_BASE) as nat)]
  {
    SortedKeysSpec(data.Keys);
    var keys := SortedKeys(data.Keys);
    assert |keys| == 1 && keys[0] in data.Keys;
    assert keys == [100];
  }

  lemma OneDumpLine(data: map<U64, U64>, useBase: bool)
    requires data == map[100 := 0x2000]
    ensures DumpLines(DumpEntries(data, useBase, DEFAULT_BASE), HEX_WIDTH, '0')
         == "100       " + "\t0x" + (if useBase then "140002000" else "000002000") + "\n"
  {
    var shown := Biased(0x2000, useBase, DEFAULT_BASE);
    SingleKey(data, useBase);
    IdColumn();
    HexColumn(useBase);
    LineOf(100, shown, "100       ", if useBase then "140002000" else "000002000");
  }

  /** A one-entry dump is its line: the id column, a tab, `0x`, the hex column. */
  lemma LineOf(id: nat, offset: nat, idText: string, hexText: string)
    requires PadRight(Render(id, 10), 10, ' ') == idText
    requires PadLeft(Render(offset, 16), HEX_WIDTH, '0') == hexText
    ensures DumpLines([(id, offset)], HEX_WIDTH, '0') == idText + "\t0x" + hexText + "\n"
  {
    SingleLine(id, offset);
  }

  lemma HexColumn(useBase: bool)
    ensures PadLeft(Render(Biased(0x2000, useBase, DEFAULT_BASE), 16), HEX_WIDTH, '0')
         == if useBase then "140002000" else "000002000"
  {
    if useBase {
      assert Biased(0x2000, useBase, DEFAULT_BASE) == 0x1_4000_2000;
      BiasedHex();
    } else {
      PlainHex();
    }
  }

  lemma SingleLine(id: nat, offset: nat)
    ensures DumpLines([(id, offset)], HEX_WIDTH, '0') == DumpLine(id, offset, HEX_WIDTH, '0')
  {
    assert DumpLines([(id, offset)], HEX_WIDTH, '0')
        == DumpLine(id, offset, HEX_WIDTH, '0') + DumpLines([], HEX_WIDTH, '0');
  }

  lemma IdColumn()
    ensures PadRight(Render(100, 10), 10, ' ') == "100       "
  {
    RenderHundred();
    assert Repeat(' ', 7) == "       ";
  }

  /** One more digit of a rendered number. */
  lemma RenderNext(n: nat, base: nat, high: string)
    requires 2 <= base <= 16 && n >= base
    requires Render(n / base, base) == high
    ensures Render(n, base) == high + [DigitChar(n % base)]
  {
  }

  lemma RenderHundred()
    ensures Render(100, 10) == "100"
  {
    RenderNext(10, 10, "1");
    RenderNext(100, 10, "10");
  }

  lemma PlainHex()
    ensures PadLeft(Render(0x2000, 16), HEX_WIDTH, '0') == "000002000"
  {
    RenderNext(0x20, 16, "2");
    RenderNext(0x200, 16, "20");
    RenderNext(0x2000, 16, "200");
    assert Repeat('0', 5) == "00000";
  }

  lemma BiasedHex()
    ensures PadLeft(Render(0x1_4000_2000, 16), HEX_WIDTH, '0') == "140002000"
  {
    RenderNext(0x14, 16, "1");
    RenderNext(0x140, 16, "14");
    RenderNext(0x1400, 16, "140");
    RenderNext(0x1_4000, 16, "1400");
    RenderNext(0x14_0000, 16, "14000");
    RenderNext(0x140_0000, 16, "140000");
    RenderNext(0x1400_0002, 16, "1400000");
    RenderNext(0x1_4000_0020, 16, "14000002");
  }

  // ---------------------------------------------------------------------
  // The dump

  /**
   * `Dump` reads back as every entry of `data` once, in strictly ascending
   * id order, with its offset (plus the base when `useBase`).
   */
  lemma DumpReadsBack(data: map<U64, U64>, useBase: bool, base: U64)
    ensures var es := DumpEntries(data, useBase, base);
            && ParseDump(DumpLines(es, HEX_WIDTH, '0')) == Some(es)
            && |es| == |data|
            && (forall i, j :: 0 <= i < j < |es| ==> es[i].0 < es[j].0)
            && (forall i :: 0 <= i < |es| ==> es[i].0 in data && es[i].1 == Biased(data[es[i].0], useBase, base))
            && (forall id :: id in data ==> exists i :: 0 <= i < |es| && es[i].0 == id)
  {
    SortedKeysSpec(data.Keys);
    assert |data.Keys| == |data|;
    EntriesShape(SortedKeys(data.Keys), data, useBase, base);
    DumpLinesRoundTrip(DumpEntries(data, useBase, base), HEX_WIDTH, '0');
  }

  /** The entries for ascending keys that are exactly the map's keys. */
  lemma EntriesShape(keys: seq<U64>, data: map<U64, U64>, useBase: bool, base: U64)
    requires |keys| == |data| && Increasing(keys)
    requires forall i :: 0 <= i < |keys| ==> keys[i] in data
    requires forall k :: k in data ==> k in keys
    ensures var es := EntriesFor(keys, data, useBase, base);
            && |es| == |data|
            && (forall i, j :: 0 <= i < j < |es| ==> es[i].0 < es[j].0)
            && (forall i :: 0 <= i < |es| ==> es[i].0 in data && es[i].1 == Biased(data[es[i].0], useBase, base))
            && (forall id :: id in data ==> exists i :: 0 <= i < |es| && es[i].0 == id)
  {
    var es := EntriesFor(keys, data, useBase, base);
    forall i, j | 0 <= i < j < |es| ensures es[i].0 < es[j].0 {
      assert es[i].0 == keys[i] as nat && es[j].0 == keys[j] as nat;
    }
    forall i | 0 <= i < |es| ensures es[i].0 in data && es[i].1 == Biased(data[es[i].0], useBase, base) {
      assert es[i].0 == keys[i] as nat;
    }
    forall id | id in data ensures exists i :: 0 <= i < |es| && es[i].0 == id {
      var i :| 0 <= i < |keys| && keys[i] == id;
      assert es[i].0 == id;
    }
  }
}
