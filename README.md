# Address-library codecs

A Dafny model of the two address-library codecs of `xse-address-lib-dumper`.
Each codec turns a byte image into a table from id to offset and writes that
table out as text.

- **Legacy database (`VersionDb`, src/skyrimdb.h).** A little-endian header
  holds the format version, a four-int module version, a length-prefixed
  module name, the pointer size and the record count. Delta-coded records
  follow. Each record starts with a mode byte:
  - the low nibble picks one of eight id encodings;
  - the high nibble holds a pointer-scale flag and one of eight offset
    encodings.

  Each record is decoded against the previous record's id and offset. It is
  stored in two ordered maps, `_data` (id to offset) and `_rdata` (offset to
  id), and a later record overwrites an earlier one. Lookups are map finds
  plus or minus the image base. `Dump` writes `_data` in id order.
- **Flat database (`IDDatabase`, src/f4db.h).** A little-endian u64 count is
  followed by that many 16-byte `(id, offset)` records.
  - `Offset2ID` copies the records and sorts the copy by id.
  - `id2offset` and `Offset2ID::operator()` are `std::lower_bound` searches.
  - `Dump` writes the sorted copy.

Modules, one per component:

| file | module | models |
|---|---|---|
| wrappers.dfy | `Wrappers` | the `Option` and `Result` types for error paths |
| words.dfy | `Words` | u64 wrap-around, little-endian reads, C++ `int` |
| delta_codec.dfy | `DeltaCodec` | the per-record mode-byte decoder and a record writer |
| skyrim_db.dfy | `SkyrimDb` | header decoding, `Decode` (a whole load), the `VersionDb` class |
| skyrim_db_properties.dfy | `SkyrimDbProperties` | what a legacy load, the lookups and the dump guarantee |
| legacy_encoding.dfy | `LegacyEncoding` | a writer for legacy images and the load round trip |
| legacy_scenarios.dfy | `LegacyScenarios` | concrete one- and two-record images |
| f4_image.dfy | `F4Image` | the flat image layout and its writer |
| f4db.dfy | `F4Db` | `Offset2ID`, `lower_bound`, the `IDDatabase` class |
| f4db_properties.dfy | `F4DbProperties` | sortedness, the lookup round trip and where it fails |
| text_format.dfy | `TextFormat` | the `std::format` fields used by both dumps and a reader for them |

Modelling choices:

- Bytes are `Byte` (`0..255`). u64 values are `U64`, with every wrap-around
  written out: `Add64`, `Sub64` and `Mul64`. A C++ `int` read from the stream
  is the two's-complement reading of four little-endian bytes.
- Files are byte sequences. Dumps return their text as a `string`.
- The C++ `read<T>` never checks the stream, so a short file reads
  indeterminate values. The model returns a distinguished failure instead,
  `Truncated`, and the object is left cleared.
- A set scale flag with pointer size 0 divides by zero in C++. The model
  returns `ZeroPointerSize`.
- `VersionDb.Load` returns `None` where the C++ returns `true`, and
  `Some(error)` where it throws. The state it leaves on each path matches
  the C++:
  - after a bad version, everything is cleared;
  - after a bad name length, the version fields are already stored;
  - after a bad id nibble, `Clear()` has run again.

  `SkyrimDb.Message` gives each error's text.
- `std::sort` is modelled as a sequential insertion sort on a sequence
  (`SortById`). What it guarantees is stated: the result is sorted by id and
  has the same multiset of records as the input.

Behaviour of the code that is easy to misread:

- Only format versions 1 and 2 load. Version 2 passes the same check as
  version 1 (src/skyrimdb.h:198).
- The high nibble is masked with `& 7` before the offset switch, so every
  offset mode has a case. The `default` arm cannot run (src/skyrimdb.h:273).
- The `Offset2ID` copy is ordered by the **id** field (src/f4db.h:76).
  `operator()` searches that copy on the **offset** field (src/f4db.h:97).
  It finds the right record only when offsets grow with ids.
  `F4DbProperties.LookupNeedsOrderedOffsets` gives a two-record table where
  it answers with the wrong id.
- `id2offset` answers with the first record whose id is not below the
  query. It never compares for equality.
- The hex column of the flat dump is filled with spaces (`{:12X}`), while
  the legacy dump fills with zeros (src/f4db.h:180, src/skyrimdb.h:310).
- The flat loader believes the count in the first eight bytes. The model
  asks for an image that holds that many records (`WellFormed`).

## Model

| member | source | states |
|---|---|---|
| Words.ReadLE | src/skyrimdb.h:29-35 | a read of n bytes at pos succeeds exactly when they are present, and yields their little-endian value below 256^n |
| Words.ReadLEBytes | src/skyrimdb.h:29-35 | an in-place read of n bytes gives the little-endian value of the slice it covers |
| Words.BytesRoundTrip | src/f4db.h:163 | any byte string is the little-endian encoding, at its own length, of the value it reads as |
| Words.LittleEndianRoundTrip | src/skyrimdb.h:29-35 | reading back n little-endian bytes written for v < 256^n gives v |
| Words.AddSubCancel | src/skyrimdb.h:72 | adding the base to an offset and subtracting it again, both wrapping mod 2^64, gives the offset back |
| DeltaCodec.DecodeField | src/skyrimdb.h:254-263 | one id or offset field decodes exactly when its payload fits in the image, and ends right after its 0, 1, 2, 4 or 8 payload bytes |
| DeltaCodec.ApplyMeaning | src/skyrimdb.h:256-263 | literal and absolute fields are their payload; mode 1 lies one above the previous value, plus modes lie the payload above it and minus modes the payload below it, all mod 2^64 |
| DeltaCodec.FieldRoundTrip | src/skyrimdb.h:254-263 | for each of the eight encodings, a value encodable after prev reads back as itself: literal u64, prev+1, prev±u8, prev±u16 (wrapping), absolute u16, absolute u32 |
| DeltaCodec.DecodeRecord | src/skyrimdb.h:250-269 | a record fails with InvalidIdMode exactly when its low nibble is 8..15; on success it consumes at least the mode byte and stays inside the image |
| DeltaCodec.RecordRoundTrip | src/skyrimdb.h:250-293 | a record written with any valid mode byte, scaled or not, decodes to the same id and byte offset and ends where its encoding ends |
| SkyrimDb.VersionStringAccepted | src/skyrimdb.h:47-50 | a version string is accepted exactly when four ints were parsed and they are neither 0.0.0.0 nor 1.0.0.0 |
| SkyrimDb.Message | src/skyrimdb.h:198-217 | a version error's text starts with "ERROR: Unsupported db format version "; every other error reads "ERROR: Error parsing database" |
| SkyrimDb.ReadI32 | src/skyrimdb.h:29-34 | an int read succeeds exactly when four bytes remain, and yields a value in the signed 32-bit range |
| SkyrimDb.ReadI32Bytes | src/skyrimdb.h:29-34 | the int read is congruent mod 2^32 to the little-endian value of its four bytes |
| SkyrimDb.ReadVersion | src/skyrimdb.h:205-206 | the version read succeeds exactly when 16 bytes remain, and its four entries are the four ints read one after another |
| SkyrimDb.DecodeHeader | src/skyrimdb.h:196-238 | a header decodes only with format 1 or 2 and a name length in 0..0xFFFF; the records then start 32 + length bytes in, after the pointer size and the count; it fails with UnsupportedVersion exactly when the format is outside 1..2, and only a name-length failure keeps the version |
| SkyrimDb.DecodeRecords | src/skyrimdb.h:248-269 | a successful run of count records yields exactly count records; with a positive count, a first mode byte whose id nibble is 8..15 fails the run with InvalidIdMode |
| SkyrimDb.MapSizes | src/skyrimdb.h:289-290 | inserting the records gives each map at most one entry per record, and a map is empty exactly when there are no records |
| SkyrimDb.Decode | src/skyrimdb.h:188-297 | a load fails with empty maps and name; it succeeds exactly when the header and all count records decode, and then each map has at most count entries |
| SkyrimDb.DecodeLoop | src/skyrimdb.h:248-290 | the record loop fails with the first record error exactly when the records do not all decode; otherwise its two tables are the maps that inserting the decoded records in order gives |
| SkyrimDb.CutAtNul | src/skyrimdb.h:220-227 | the module name is the longest NUL-free prefix of the name bytes, one char per byte |
| SkyrimDb.SortedKeysSpec | src/skyrimdb.h:304 | the iteration order of the map: every key exactly once, strictly ascending |
| SkyrimDb.VersionDb.constructor | src/skyrimdb.h:18-27 | a new object has empty maps, a zero version, an empty name and base 0x140000000 |
| SkyrimDb.VersionDb.Clear | src/skyrimdb.h:164-171 | both maps are emptied, the version is zeroed and the name emptied; the base is kept |
| SkyrimDb.VersionDb.Load | src/skyrimdb.h:188-297 | the reported error and the object's new state are those of Decode on the image; the base is unchanged |
| SkyrimDb.VersionDb.FindOffsetById | src/skyrimdb.h:75-84 | true with the stored offset exactly when the id is a key of the id map; otherwise false with result unchanged |
| SkyrimDb.VersionDb.FindIdByOffset | src/skyrimdb.h:96-104 | true with the stored id exactly when the offset is a key of the offset map; otherwise false with result unchanged |
| SkyrimDb.VersionDb.FindAddressById | src/skyrimdb.h:62-73 | with a nonzero base and a stored id, the address minus the base is the stored offset; otherwise NULL (0) |
| SkyrimDb.VersionDb.FindIdByAddress | src/skyrimdb.h:86-94 | finds an id exactly when the base is nonzero and address minus base (wrapping) is a stored offset, and yields the id stored there |
| SkyrimDb.VersionDb.Dump | src/skyrimdb.h:299-313 | the text is one `{:<10}\t0x{:09X}\n` line per entry of the id map in ascending id order, with the base added when asked; the maps are unchanged |
| SkyrimDb.DumpMap | src/skyrimdb.h:304-311 | the loop of `Dump`: one `{:<10}\t0x{:09X}\n` line per map entry in ascending id order, with the base added (wrapping) when asked |
| SkyrimDbProperties.VersionGate | src/skyrimdb.h:196-203 | a load fails with UnsupportedVersion exactly when the format is outside 1..2, and then leaves the object cleared |
| SkyrimDbProperties.FalloutHint | src/skyrimdb.h:198-202 | the error text contains "--fallout4" exactly when the rejected version is above 4 |
| SkyrimDbProperties.NameLengthRejected | src/skyrimdb.h:214-217 | a name length below 0 or at least 0x10000 fails the load with only the version fields stored |
| SkyrimDbProperties.NameLengthAccepted | src/skyrimdb.h:214-238 | a name length in 0..0xFFFF is accepted: records start right after the name, pointer size and count; length 0 reads no bytes and gives an empty name; otherwise the name is the bytes up to the first NUL |
| SkyrimDbProperties.LongestName | src/skyrimdb.h:216 | the name length 0xFFFF is accepted |
| SkyrimDbProperties.FailureLeavesNoTable | src/skyrimdb.h:190-217 | after a failed load both maps and the name are empty; except after a bad name length, the version is zero too |
| SkyrimDbProperties.NoRecords | src/skyrimdb.h:238-248 | a record count of zero or less leaves both maps empty |
| SkyrimDbProperties.WalkThenInvalid | src/skyrimdb.h:248-268 | after any run of records that decode, a mode byte with id nibble 8..15 that the loop still reaches fails the loop with InvalidIdMode |
| SkyrimDbProperties.InvalidIdModeClears | src/skyrimdb.h:248-268 | when the loop reaches a mode byte with id nibble 8..15, after any number of good records fewer than the count, the load fails and clears the object, dropping the records decoded before it |
| SkyrimDbProperties.OffsetModeNeverInvalid | src/skyrimdb.h:271-284 | with a valid id nibble, enough bytes and a nonzero pointer size when scaled, any high nibble decodes |
| SkyrimDbProperties.SuccessorRecord | src/skyrimdb.h:257-276 | mode byte 0x11 yields (previous id + 1, previous offset + 1), wrapping, and reads no payload |
| SkyrimDbProperties.ScaledSuccessor | src/skyrimdb.h:271-287 | mode byte 0x91 yields offset ((previous offset / ptrSize) + 1) * ptrSize, wrapping |
| SkyrimDbProperties.DataMapLastWins | src/skyrimdb.h:289 | the id map holds exactly the decoded ids, each with the offset of its last record |
| SkyrimDbProperties.RDataMapLastWins | src/skyrimdb.h:290 | the offset map holds exactly the decoded offsets, each with the id of its last record |
| SkyrimDbProperties.DecodeLinked | src/skyrimdb.h:289-290 | after any load, every offset in the id map is a key of the offset map, and every id in the offset map is a key of the id map |
| SkyrimDbProperties.AddressRoundTrip | src/skyrimdb.h:62-104 | with linked maps and a nonzero base, the address of a stored id looks up the id stored for its offset |
| SkyrimDbProperties.DumpReadsBack | src/skyrimdb.h:304-311 | the dump reads back as every id-map entry once, in strictly ascending id order, with its (biased) offset |
| SkyrimDbProperties.OneRecordDump | src/skyrimdb.h:304-311 | the table {100: 0x2000} dumps as `100       \t0x000002000\n`, and as `...0x140002000` with the base |
| LegacyEncoding.HeaderRoundTrip | src/skyrimdb.h:196-238 | a written header with format 1 or 2, a version, a NUL-free name, a pointer size and a count decodes to those fields and starts the records right after |
| LegacyEncoding.ChainRoundTrip | src/skyrimdb.h:248-294 | a chain of records written after (0, 0), each against its predecessor, decodes to the same records in order |
| LegacyEncoding.DecodeEncode | src/skyrimdb.h:188-297 | loading a written image succeeds with its version and name, and with the maps that inserting its records in order gives |
| LegacyScenarios.OneRecordLoad | src/skyrimdb.h:256-290 | an image with one 0x00-mode record (id 100, offset 0x2000) loads as exactly that record in both maps |
| LegacyScenarios.SuccessorImage | src/skyrimdb.h:257-293 | a second record with mode byte 0x11 after (100, 0x2000) loads as (101, 0x2001) |
| F4Image.ParseImage | src/f4db.h:161-164 | the table has the image's u64 count of records; record i is the two u64 values at bytes 8 + 16i and 16 + 16i |
| F4Image.Word | src/f4db.h:163 | the eight bytes at pos are exactly the little-endian encoding of the u64 read there |
| F4Image.ImageRoundTrip | src/f4db.h:161-164 | a written table reads back from its image unchanged |
| F4Db.FirstAtLeast | src/f4db.h:92-98 | the index of the first record whose key is at least q: all before it are below q, and it is the length exactly when none qualifies |
| F4Db.LowerBound | src/f4db.h:131-137 | on a range partitioned by key < q, the binary search returns the first index whose key is at least q |
| F4Db.SortById | src/f4db.h:69-77 | the copy is sorted ascending by id and is a permutation of the input |
| F4Db.Offset2Id.constructor | src/f4db.h:65-82 | the vector holds the same multiset of records as the span, sorted by id |
| F4Db.Offset2Id.Empty | src/f4db.h:83 | the default vector is empty |
| F4Db.Offset2Id.Lookup | src/f4db.h:85-104 | returns the id of the first vector record whose offset is at least the query |
| F4Db.IdDatabase.constructor | src/f4db.h:153 | construction loads the image |
| F4Db.IdDatabase.Load | src/f4db.h:156-166 | the id table is the image's records, and the new offset2id vector is those records sorted by id |
| F4Db.IdDatabase.Id2Offset | src/f4db.h:124-143 | returns the offset of the first id-table record whose id is at least the query |
| F4Db.IdDatabase.Dump | src/f4db.h:168-184 | the text is one `{:<10}\t0x{:12X}\n` line per record of the offset2id vector, in vector order, with 0x7FF6F21A0000 added (wrapping) when asked |
| F4Db.DumpRecords | src/f4db.h:174-181 | the loop of `Dump`: one `{:<10}\t0x{:12X}\n` line per record, in order, with 0x7FF6F21A0000 added (wrapping) when asked |
| F4DbProperties.SortedPermutationUnique | src/f4db.h:69-77 | a table strictly ascending by id equals every id-sorted permutation of itself |
| F4DbProperties.StoredKeyFound | src/f4db.h:130-142 | in a table strictly ascending by a key, searching for a stored key is allowed and lands on that key's own record |
| F4DbProperties.LoadOrderedImage | src/f4db.h:161-165 | loading the image of an id-ascending table gives an offset2id vector equal to the table |
| F4DbProperties.LookupRoundTrip | src/f4db.h:92-142 | with unique ids and offsets strictly increasing in id order, id2offset of a stored id and operator() of its offset both land on that record, so each undoes the other |
| F4DbProperties.LookupNeedsOrderedOffsets | src/f4db.h:76-97 | in the id-sorted vector [(1, 0x20), (2, 0x10)], operator()(0x10) lands on id 1, not on id 2 |
| F4DbProperties.FlatDumpReadsBack | src/f4db.h:174-181 | the flat dump reads back as the (id, offset) pairs of the vector, in order |
| F4DbProperties.FlatDumpBase | src/f4db.h:173-179 | each biased offset in the dump, minus 0x7FF6F21A0000 (wrapping), is the stored offset |
| TextFormat.RenderValue | src/skyrimdb.h:310 | the decimal or hex digits of n read back as n |
| TextFormat.DumpLineRoundTrip | src/f4db.h:180 | a dump line, with zero or space fill, reads back as its id and offset |
| TextFormat.DumpLinesRoundTrip | src/skyrimdb.h:304-311 | a sequence of dump lines reads back as its entries, in order |

## Left out

- File opening, the `ifstream`/`ofstream` handling and the open-failure exceptions. Inputs are byte sequences and dumps return strings.
- The memory mapping and `reinterpret_cast` of the flat image. The image is decoded explicitly from a byte sequence.
- `GetExecutableVersion`, the version-derived `Load()` overloads and `ParseVersionFromString`'s `sscanf_s` call. These are Win32 queries and path construction. Only the accept rule is modelled (`VersionStringAccepted`).
- `ToPointer`/`FromPointer`. Addresses are u64.
- The `_verStr` formatting, `GetLoadedVersionString` and the `std::cerr` messages. They do not affect the table.
- The execution-policy parameter of the `Offset2ID` constructor. The sort is specified as a sequential sorted permutation.
- src/dumper.cpp: argument parsing and format dispatch around the codecs.
- Tables filled in place during a load: the record loop (`DecodeLoop`) builds the two tables in local maps, and `Load` stores them once the loop ends. The C++ code inserts into `_data` and `_rdata` as it goes. Nothing observes the tables during a load, and a failure clears them, so the final state is the same.
- SkyrimDb.VersionDb.Load: a short image is a `Truncated` failure, and a scaled record with pointer size 0 is a `ZeroPointerSize` failure. The C++ reads indeterminate values or divides by zero in those cases.
- F4Db.Offset2Id.Lookup: requires a record whose offset is at least the query, and a vector partitioned by offset. The C++ dereferences `end()` or searches an unpartitioned range in those cases.
- F4Db.IdDatabase.Id2Offset: requires a record whose id is at least the query, and a table partitioned by id, for the same reason.
- F4Db.IdDatabase.Load: requires an image holding as many records as its count says. The C++ never checks the length.
