/**
 * The Fallout 4 address library image: a little-endian u64 record count
 * followed by that many 16-byte records, each a u64 id then a u64 offset.
 * The C++ code maps the file and views it in place; here the view is an
 * explicit decoding of the byte string.
 */
module F4Image {
  import opened Words

  /** One `mapping_t` record. */
  datatype Mapping = Mapping(id: U64, offset: U64)

  const HEADER_SIZE: nat := 8
  const RECORD_SIZE: nat := 16

  /** The u64 at `pos`: the eight bytes there are exactly its little-endian encoding. */
  function Word(bytes: seq<Byte>, pos: nat): (w: U64)
    requires pos + 8 <= |bytes|
    ensures ToLittleEndian(w, 8) == bytes[pos..pos + 8]
  {
    Pow256Table();
    BytesRoundTrip(bytes[pos..pos + 8]);
    LittleEndian(bytes[pos..pos + 8])
  }

  /** The record count stored in the first eight bytes. */
  function Count(bytes: seq<Byte>): U64
    requires HEADER_SIZE <= |bytes|
  {
    Word(bytes, 0)
  }

  /**
   * The image holds as many records as its count says. The C++ code never
   * checks this: a shorter file makes the span reach past the mapping.
   */
  predicate WellFormed(bytes: seq<Byte>)
  {
    HEADER_SIZE <= |bytes| && HEADER_SIZE + RECORD_SIZE * Count(bytes) <= |bytes|
  }

  /** The span `_id2offset` that `load` builds over the image. */
  function ParseImage(bytes: seq<Byte>): (table: seq<Mapping>)
    requires WellFormed(bytes)
    ensures |table| == Count(bytes)
    ensures forall i :: 0 <= i < |table| ==>
              table[i] == Mapping(Word(bytes, HEADER_SIZE + RECORD_SIZE * i),
                                  Word(bytes, HEADER_SIZE + RECORD_SIZE * i + 8))
  {
    seq(Count(bytes), i requires 0 <= i < Count(bytes) => MappingAt(bytes, i))
  }

  /** Record `i` of the image: the two u64 values at its place. */
  function MappingAt(bytes: seq<Byte>, i: nat): Mapping
    requires WellFormed(bytes) && i < Count(bytes)
  {
    Mapping(Word(bytes, HEADER_SIZE + RECORD_SIZE * i), Word(bytes, HEADER_SIZE + RECORD_SIZE * i + 8))
  }

  /** A record as it is laid out in the image. */
  function MappingBytes(m: Mapping): (b: seq<Byte>)
    ensures |b| == RECORD_SIZE
  {
    ToLittleEndian(m.id, 8) + ToLittleEndian(m.offset, 8)
  }

  /** The image of a table: its count, then its records back to back. */
  function EncodeImage(table: seq<Mapping>): (bytes: seq<Byte>)
    requires |table| < TWO_64
    ensures |bytes| == HEADER_SIZE + RECORD_SIZE * |table|
  {
    ToLittleEndian(|table|, 8)
      + seq(RECORD_SIZE * |table|, k requires 0 <= k < RECORD_SIZE * |table| =>
              MappingBytes(table[k / RECORD_SIZE])[k % RECORD_SIZE])
  }

  lemma RecordIndex(i: nat, j: nat)
    requires j < RECORD_SIZE
    ensures (RECORD_SIZE * i + j) / RECORD_SIZE == i && (RECORD_SIZE * i + j) % RECORD_SIZE == j
  {
  }

  /** The bytes of record `i` in an encoded image. */
  lemma RecordAt(table: seq<Mapping>, i: nat)
    requires |table| < TWO_64 && i < |table|
    ensures var bytes := EncodeImage(table);
            var at := HEADER_SIZE + RECORD_SIZE * i;
            bytes[at..at + RECORD_SIZE] == MappingBytes(table[i])
  {
    var bytes := EncodeImage(table);
    var at := HEADER_SIZE + RECORD_SIZE * i;
    forall j | 0 <= j < RECORD_SIZE
      ensures bytes[at + j] == MappingBytes(table[i])[j]
    {
      RecordIndex(i, j);
    }
  }

  /** Every table with fewer than 2^64 records comes back from its image. */
  lemma ImageRoundTrip(table: seq<Mapping>)
    requires |table| < TWO_64
    ensures WellFormed(EncodeImage(table))
    ensures ParseImage(EncodeImage(table)) == table
  {
    var bytes := EncodeImage(table);
    Pow256Table();
    assert bytes[..8] == ToLittleEndian(|table|, 8);
    LittleEndianRoundTrip(|table|, 8);
    assert Count(bytes) == |table|;
    var parsed := ParseImage(bytes);
    forall i | 0 <= i < |table|
      ensures parsed[i] == table[i]
    {
      var at := HEADER_SIZE + RECORD_SIZE * i;
      var mb := MappingBytes(table[i]);
      RecordAt(table, i);
      assert bytes[at..at + 8] == mb[..8] == ToLittleEndian(table[i].id, 8);
      assert bytes[at + 8..at + 16] == mb[8..] == ToLittleEndian(table[i].offset, 8);
      LittleEndianRoundTrip(table[i].id, 8);
      LittleEndianRoundTrip(table[i].offset, 8);
    }
  }
}
