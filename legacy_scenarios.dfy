/**
 * A concrete legacy image: format 1, version 0.0.0.0, no module name,
 * pointer size 8 and one record written with mode byte 0x00 (literal id,
 * literal offset, no scale).
 */
module LegacyScenarios {
  import opened Wrappers
  import opened Words
  import opened DeltaCodec
  import opened SkyrimDb
  import opened LegacyEncoding

  const ONE_RECORD: seq<Coded> := [Coded(0x00, Record(100, 0x2000))]

  /** The image loads as exactly the record (100, 0x2000) in both maps. */
  lemma OneRecordLoad()
    ensures Writable(1, ZERO_VERSION, "", 8, ONE_RECORD)
    ensures Decode(EncodeDb(1, ZERO_VERSION, "", 8, ONE_RECORD))
         == Loaded(None, State(ZERO_VERSION, "", map[100 := 0x2000], map[0x2000 := 100]))
  {
    assert ChainEncodable(ONE_RECORD, 0, 0, ToU64(8)) by {
      assert ChainEncodable(ONE_RECORD[1..], 100, 0x2000, 8);
    }
    DecodeEncode(1, ZERO_VERSION, "", 8, ONE_RECORD);
    var recs := Records(ONE_RECORD);
    assert recs == [Record(100, 0x2000)];
    assert DataMap(recs) == map[100 := 0x2000];
    assert RDataMap(recs) == map[0x2000 := 100];
  }

  /**
   * The same image with a second record written as mode byte 0x11 (id mode
   * 1, offset mode 1): it decodes as (101, 0x2001), one more in each field.
   */
  lemma SuccessorImage()
    ensures Writable(1, ZERO_VERSION, "", 8, TWO_RECORDS)
    ensures Decode(EncodeDb(1, ZERO_VERSION, "", 8, TWO_RECORDS))
         == Loaded(None, State(ZERO_VERSION, "", map[100 := 0x2000, 101 := 0x2001],
                               map[0x2000 := 100, 0x2001 := 101]))
  {
    TwoRecordsEncodable();
    DecodeEncode(1, ZERO_VERSION, "", 8, TWO_RECORDS);
    TwoRecordsMaps();
  }

  const TWO_RECORDS: seq<Coded> := ONE_RECORD + [Coded(0x11, Record(101, 0x2001))]

  lemma TwoRecordsEncodable()
    ensures ChainEncodable(TWO_RECORDS, 0, 0, 8)
  {
    var cs := TWO_RECORDS;
    assert cs[1..][1..] == [];
    assert IdMode(0x11) == 1 && OffsetMode(0x11) == Next && !Scaled(0x11);
    assert RecordEncodable(0x11, 100, 0x2000, 8, Record(101, 0x2001));
    assert ChainEncodable(cs[1..], 100, 0x2000, 8);
  }

  lemma TwoRecordsMaps()
    ensures DataMap(Records(TWO_RECORDS)) == map[100 := 0x2000, 101 := 0x2001]
    ensures RDataMap(Records(TWO_RECORDS)) == map[0x2000 := 100, 0x2001 := 101]
  {
    var recs := Records(TWO_RECORDS);
    assert recs == [Record(100, 0x2000), Record(101, 0x2001)];
    var first := recs[..1];
    assert first == [Record(100, 0x2000)];
    assert first[..0] == [];
    assert DataMap(first) == map[100 := 0x2000];
    assert RDataMap(first) == map[0x2000 := 100];
    assert DataMap(recs) == DataMap(first)[101 := 0x2001];
    assert RDataMap(recs) == RDataMap(first)[0x2001 := 101];
  }
}
