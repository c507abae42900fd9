/**
 * The legacy address library (`VersionDb`, src/skyrimdb.h): a little-endian
 * header followed by delta-coded records, loaded into two ordered maps
 * (id -> offset and offset -> id) and dumped as text in id order.
 *
 * `Decode` is the specification of a whole load: the object state that
 * `VersionDb.Load` leaves behind and the error it reports.
 */
module SkyrimDb {
  import opened Wrappers
  import opened Words
  import opened DeltaCodec
  import opened TextFormat

  /** `_base`: the default image base of the executable. */
  const DEFAULT_BASE: U64 := 0x1_4000_0000
  /** Name lengths must stay below this. */
  const NAME_LIMIT: int := 0x1_0000
  /** Hex digits of the offset column (`{:09X}`). */
  const HEX_WIDTH: nat := 9

  datatype LoadError =
    | UnsupportedVersion(format: int)  // format version outside 1..2
    | CorruptHeader                    // name length outside 0 <= n < 0x10000
    | InvalidIdMode                    // a record whose low nibble is 8..15
    | Truncated                        // a read past the end of the image
    | ZeroPointerSize                  // scale flag with pointer size 0

  const PLAIN_VERSION_MESSAGE: string := "ERROR: Unsupported db format version "
  const FALLOUT4_HINT: string := " (Did you mean to specify --fallout4?)"
  const PARSE_MESSAGE: string := "ERROR: Error parsing database"

  /** The text of the `std::runtime_error` thrown for each failure. */
  function Message(e: LoadError): (msg: string)
    ensures e.UnsupportedVersion? ==> PLAIN_VERSION_MESSAGE <= msg
    ensures !e.UnsupportedVersion? ==> msg == PARSE_MESSAGE
  {
    match e
    case UnsupportedVersion(v) =>
      PLAIN_VERSION_MESSAGE + SignedDecimal(v) + (if v > 4 then FALLOUT4_HINT else "")
    case _ => PARSE_MESSAGE
  }

  /** `{}` of a C++ `int`. */
  function SignedDecimal(v: int): (s: string)
    ensures forall i :: 0 < i < |s| ==> s[i] != '-'
  {
    if v < 0 then "-" + Render(-v, 10) else Render(v, 10)
  }

  /** The accept rule of `ParseVersionFromString` once `sscanf_s` has matched `parsed` fields. */
  function VersionStringAccepted(parsed: int, major: int, minor: int, revision: int, build: int): (ok: bool)
    ensures ok <==> parsed == 4 && [major, minor, revision, build] !in {[0, 0, 0, 0], [1, 0, 0, 0]}
  {
    parsed == 4 && ((major != 1 && major != 0) || minor != 0 || revision != 0 || build != 0)
  }

  /** The header fields that survive a load, and where the records begin. */
  datatype Header = Header(ver: seq<int>, name: string, ptrSize: int, count: int, recordsAt: nat)

  /** A failure while reading the header, with the version fields it leaves stored. */
  datatype HeaderError = HeaderError(error: LoadError, ver: seq<int>)

  const ZERO_VERSION: seq<int> := [0, 0, 0, 0]

  function ReadI32(bytes: seq<Byte>, pos: nat): (r: Option<int>)
    ensures r.Some? <==> pos + 4 <= |bytes|
    ensures r.Some? ==> -TWO_31 <= r.value < TWO_31
  {
    match ReadLE(bytes, pos, 4)
    case None => None
    case Some(u) => Pow256Table(); Some(ToI32(u))
  }

  /** An int read is the two's-complement reading of its four little-endian bytes. */
  lemma ReadI32Bytes(bytes: seq<Byte>, pos: nat)
    requires pos + 4 <= |bytes|
    ensures ReadI32(bytes, pos).value % TWO_32 == LittleEndian(bytes[pos..pos + 4])
  {
    ReadLEBytes(bytes, pos, 4);
    Pow256Table();
  }

  /** `_moduleName = tnbuf`: the name bytes up to the first NUL, as characters. */
  function CutAtNul(raw: seq<Byte>): (name: string)
    ensures |name| <= |raw|
    ensures forall i :: 0 <= i < |name| ==> name[i] != '\0' && name[i] as int == raw[i]
    ensures |name| < |raw| ==> raw[|name|] == 0
  {
    if raw == [] || raw[0] == 0 then [] else [raw[0] as char] + CutAtNul(raw[1..])
  }

  /** Reads the four version ints at `pos`. */
  function ReadVersion(bytes: seq<Byte>, pos: nat): (r: Option<seq<int>>)
    ensures r.Some? <==> pos + 16 <= |bytes|
    ensures r.Some? ==> |r.value| == 4
    ensures r.Some? ==> forall i :: 0 <= i < 4 ==> ReadI32(bytes, pos + 4 * i) == Some(r.value[i])
  {
    match (ReadI32(bytes, pos), ReadI32(bytes, pos + 4), ReadI32(bytes, pos + 8), ReadI32(bytes, pos + 12))
    case (Some(major), Some(minor), Some(revision), Some(build)) => Some([major, minor, revision, build])
    case _ => None
  }

  /**
   * The header: format version (i32), four version ints, name length (i32),
   * the name bytes, pointer size (i32) and record count (i32).
   */
  function DecodeHeader(bytes: seq<Byte>): (r: Result<Header, HeaderError>)
    ensures r.Ok? ==> ReadI32(bytes, 0).Some? && 1 <= ReadI32(bytes, 0).value <= 2
    ensures r.Ok? ==> && |r.value.ver| == 4
                      && 32 <= r.value.recordsAt <= |bytes| && r.value.recordsAt - 32 < NAME_LIMIT
                      && ReadI32(bytes, 20) == Some(r.value.recordsAt - 32)
                      && |r.value.name| <= r.value.recordsAt - 32
                      && ReadI32(bytes, r.value.recordsAt - 8) == Some(r.value.ptrSize)
                      && ReadI32(bytes, r.value.recordsAt - 4) == Some(r.value.count)
    ensures r.Err? && r.error.error.UnsupportedVersion?
            <==> ReadI32(bytes, 0).Some? && (ReadI32(bytes, 0).value < 1 || ReadI32(bytes, 0).value > 2)
    ensures r.Err? && r.error.error.UnsupportedVersion? ==> r.error.error.format == ReadI32(bytes, 0).value
    ensures r.Err? ==> r.error.error.UnsupportedVersion? || r.error.error.CorruptHeader? || r.error.error.Truncated?
    ensures r.Err? && r.error.error.CorruptHeader? ==> |r.error.ver| == 4 && ReadI32(bytes, 20).Some?
    ensures r.Err? && !r.error.error.CorruptHeader? ==> r.error.ver == ZERO_VERSION
  {
    match ReadI32(bytes, 0)
    case None => Err(HeaderError(LoadError.Truncated, ZERO_VERSION))
    case Some(format) =>
      if format < 1 || format > 2 then Err(HeaderError(UnsupportedVersion(format), ZERO_VERSION))
      else match (ReadVersion(bytes, 4), ReadI32(bytes, 20))
        case (Some(ver), Some(nameLength)) =>
          if nameLength < 0 || nameLength >= NAME_LIMIT then Err(HeaderError(CorruptHeader, ver))
          else
            var at := 24 + nameLength;
            if |bytes| < at then Err(HeaderError(LoadError.Truncated, ZERO_VERSION))
            else
              var name := if nameLength > 0 then CutAtNul(bytes[24..at]) else "";
              (match (ReadI32(bytes, at), ReadI32(bytes, at + 4))
               case (Some(ptrSize), Some(count)) => Ok(Header(ver, name, ptrSize, count, at + 8))
               case _ => Err(HeaderError(LoadError.Truncated, ZERO_VERSION)))
        case _ => Err(HeaderError(LoadError.Truncated, ZERO_VERSION))
  }

  /** `count` records from `pos`, threading the previous id and offset. */
  function DecodeRecords(bytes: seq<Byte>, pos: nat, count: nat, pvid: U64, poffset: U64, ptrSize: U64)
    : (r: Result<seq<Record>, RecordError>)
    ensures r.Ok? ==> |r.value| == count
    ensures count > 0 && pos < |bytes| && IdMode(bytes[pos]) >= 8 ==> r == Err(RecordError.InvalidIdMode)
    decreases count, 1
  {
    if count == 0 then Ok([]) else RecordsAfter(bytes, pos, count, pvid, poffset, ptrSize)
  }

  /** A run of `count > 0` records: the first one, then the rest from where it ends. */
  function RecordsAfter(bytes: seq<Byte>, pos: nat, count: nat, pvid: U64, poffset: U64, ptrSize: U64)
    : (r: Result<seq<Record>, RecordError>)
    requires count > 0
    ensures r.Ok? ==> |r.value| == count
    ensures pos < |bytes| && IdMode(bytes[pos]) >= 8 ==> r == Err(RecordError.InvalidIdMode)
    decreases count, 0
  {
    match DecodeRecord(bytes, pos, pvid, poffset, ptrSize)
    case Err(e) => Err(e)
    case Ok(step) => Prepend([step.rec], DecodeRecords(bytes, step.next, count - 1, step.rec.id, step.rec.offset, ptrSize))
  }

  lemma DecodeRecordsCons(bytes: seq<Byte>, pos: nat, count: nat, pvid: U64, poffset: U64, ptrSize: U64, step: Step)
    requires count > 0 && DecodeRecord(bytes, pos, pvid, poffset, ptrSize) == Ok(step)
    ensures DecodeRecords(bytes, pos, count, pvid, poffset, ptrSize)
         == Prepend([step.rec], DecodeRecords(bytes, step.next, count - 1, step.rec.id, step.rec.offset, ptrSize))
  {
  }

  function Prepend(done: seq<Record>, r: Result<seq<Record>, RecordError>): (p: Result<seq<Record>, RecordError>)
    ensures p.Ok? <==> r.Ok?
    ensures p.Ok? ==> p.value == done + r.value
    ensures p.Err? ==> p.error == r.error
  {
    match r
    case Ok(rest) => Ok(done + rest)
    case Err(e) => Err(e)
  }

  /** `_data` after inserting `recs` in order: a later record overwrites an earlier one with the same id. */
  function DataMap(recs: seq<Record>): map<U64, U64>
  {
    if recs == [] then map[]
    else var last := recs[|recs| - 1]; DataMap(recs[..|recs| - 1])[last.id := last.offset]
  }

  /** `_rdata` after inserting `recs` in order: a later record overwrites an earlier one with the same offset. */
  function RDataMap(recs: seq<Record>): map<U64, U64>
  {
    if recs == [] then map[]
    else var last := recs[|recs| - 1]; RDataMap(recs[..|recs| - 1])[last.offset := last.id]
  }

  /** Each record adds at most one entry to either map; no records, no entries. */
  lemma {:induction false} MapSizes(recs: seq<Record>)
    ensures |DataMap(recs)| <= |recs| && |RDataMap(recs)| <= |recs|
    ensures DataMap(recs) == map[] <==> recs == []
    ensures RDataMap(recs) == map[] <==> recs == []
  {
    if recs != [] {
      var last := recs[|recs| - 1];
      MapSizes(recs[..|recs| - 1]);
      assert last.id in DataMap(recs);
      assert last.offset in RDataMap(recs);
    }
  }

  function LoopCount(addrCount: int): nat
  {
    if addrCount > 0 then addrCount else 0
  }

  function FromRecordError(e: RecordError): LoadError
  {
    match e
    case InvalidIdMode => LoadError.InvalidIdMode
    case Truncated => LoadError.Truncated
    case ZeroPointerSize => LoadError.ZeroPointerSize
  }

  /** The observable state of a `VersionDb`. */
  datatype State = State(ver: seq<int>, name: string, data: map<U64, U64>, rdata: map<U64, U64>)

  /** The error a load reports, if any, and the state it leaves. */
  datatype Loaded = Loaded(error: Option<LoadError>, state: State)

  const CLEARED: State := State(ZERO_VERSION, "", map[], map[])

  /** The whole of `VersionDb::Load` on a byte image. */
  function Decode(bytes: seq<Byte>): (r: Loaded)
    ensures r.error.Some? ==> r.state.data == map[] && r.state.rdata == map[] && r.state.name == ""
    ensures r.error.None? <==> (DecodeHeader(bytes).Ok? &&
                                var h := DecodeHeader(bytes).value;
                                DecodeRecords(bytes, h.recordsAt, LoopCount(h.count), 0, 0, ToU64(h.ptrSize)).Ok?)
    ensures r.error.None? ==> |r.state.ver| == 4 && |r.state.data| <= LoopCount(DecodeHeader(bytes).value.count)
                              && |r.state.rdata| <= LoopCount(DecodeHeader(bytes).value.count)
  {
    match DecodeHeader(bytes)
    case Err(HeaderError(e, ver)) => Loaded(Some(e), State(ver, "", map[], map[]))
    case Ok(h) =>
      match DecodeRecords(bytes, h.recordsAt, LoopCount(h.count), 0, 0, ToU64(h.ptrSize))
      case Err(e) => Loaded(Some(FromRecordError(e)), CLEARED)
      case Ok(recs) => MapSizes(recs); Loaded(None, State(h.ver, h.name, DataMap(recs), RDataMap(recs)))
  }

  /** The three outcomes of `Decode`, one step each, for `VersionDb.Load`. */
  lemma HeaderFailed(bytes: seq<Byte>, e: HeaderError)
    requires DecodeHeader(bytes) == Err(e)
    ensures Decode(bytes) == Loaded(Some(e.error), State(e.ver, "", map[], map[]))
  {
  }

  lemma RecordFailed(bytes: seq<Byte>, h: Header, e: RecordError)
    requires DecodeHeader(bytes) == Ok(h)
    requires DecodeRecords(bytes, h.recordsAt, LoopCount(h.count), 0, 0, ToU64(h.ptrSize)) == Err(e)
    ensures Decode(bytes) == Loaded(Some(FromRecordError(e)), CLEARED)
  {
  }

  lemma RecordsDecoded(bytes: seq<Byte>, h: Header, recs: seq<Record>)
    requires DecodeHeader(bytes) == Ok(h)
    requires DecodeRecords(bytes, h.recordsAt, LoopCount(h.count), 0, 0, ToU64(h.ptrSize)) == Ok(recs)
    ensures Decode(bytes) == Loaded(None, State(h.ver, h.name, DataMap(recs), RDataMap(recs)))
  {
  }

  predicate Increasing(s: seq<U64>)
  {
    forall i, j :: 0 <= i < j < |s| ==> s[i] < s[j]
  }

  /** The smallest key. */
  ghost function Least(keys: set<U64>): (k: U64)
    requires keys != {}
    ensures k in keys && forall j :: j in keys ==> k <= j
    decreases |keys|
  {
    var x :| x in keys;
    if keys == {x} then x
    else
      var m := Least(keys - {x});
      assert forall j :: j in keys ==> j == x || j in keys - {x};
      if x < m then x else m
  }

  /** The keys in ascending order: the iteration order of a `std::map`. */
  ghost function SortedKeys(keys: set<U64>): seq<U64>
    decreases |keys|
  {
    if keys == {} then [] else var k := Least(keys); [k] + SortedKeys(keys - {k})
  }

  lemma {:induction false} SortedKeysSpec(keys: set<U64>)
    ensures var s := SortedKeys(keys);
            && |s| == |keys| && Increasing(s)
            && (forall i :: 0 <= i < |s| ==> s[i] in keys)
            && (forall k :: k in keys ==> k in s)
    decreases |keys|
  {
    if keys != {} {
      var k := Least(keys);
      var rest := keys - {k};
      SortedKeysSpec(rest);
      var r := SortedKeys(rest);
      assert SortedKeys(keys) == [k] + r;
      forall i | 0 <= i < |r| ensures k < r[i] {
        assert r[i] in rest;
      }
      ConsIncreasing(k, r);
      ConsMembers(k, r, keys, rest);
    }
  }

  lemma ConsIncreasing(k: U64, r: seq<U64>)
    requires Increasing(r) && forall i :: 0 <= i < |r| ==> k < r[i]
    ensures Increasing([k] + r)
  {
    var s := [k] + r;
    forall i, j | 0 <= i < j < |s| ensures s[i] < s[j] {
      assert s[j] == r[j - 1];
      if i > 0 {
        assert s[i] == r[i - 1];
      }
    }
  }

  lemma ConsMembers(k: U64, r: seq<U64>, keys: set<U64>, rest: set<U64>)
    requires k in keys && rest == keys - {k}
    requires |r| == |rest| && (forall i :: 0 <= i < |r| ==> r[i] in rest) && (forall x :: x in rest ==> x in r)
    ensures var s := [k] + r;
            && |s| == |keys| && (forall i :: 0 <= i < |s| ==> s[i] in keys) && (forall x :: x in keys ==> x in s)
  {
    var s := [k] + r;
    assert |rest| == |keys| - 1;
    forall i | 0 <= i < |s| ensures s[i] in keys {
      if i > 0 {
        assert s[i] == r[i - 1];
      }
    }
    forall x | x in keys ensures x in s {
      if x != k {
        assert x in rest;
      }
    }
  }

  /** The smallest remaining key comes next in ascending order. */
  lemma KeysStep(prefix: seq<U64>, remaining: set<U64>, id: U64)
    requires id in remaining && forall j :: j in remaining ==> id <= j
    ensures prefix + SortedKeys(remaining) == (prefix + [id]) + SortedKeys(remaining - {id})
  {
    var m := Least(remaining);
    assert m <= id && id <= m;
    assert SortedKeys(remaining) == [id] + SortedKeys(remaining - {id});
  }

  /** The (id, offset) pairs written for the ids `keys`. */
  function EntriesFor(keys: seq<U64>, data: map<U64, U64>, useBase: bool, base: U64): (es: seq<(nat, nat)>)
    requires forall i :: 0 <= i < |keys| ==> keys[i] in data
    ensures |es| == |keys|
    ensures forall i :: 0 <= i < |keys| ==> es[i] == (keys[i] as nat, Biased(data[keys[i]], useBase, base) as nat)
  {
    if keys == [] then []
    else [(keys[0] as nat, Biased(data[keys[0]], useBase, base) as nat)] + EntriesFor(keys[1..], data, useBase, base)
  }

  /** The (id, offset) pairs `Dump` writes: every entry of `data`, in ascending id order. */
  ghost function DumpEntries(data: map<U64, U64>, useBase: bool, base: U64): seq<(nat, nat)>
  {
    SortedKeysSpec(data.Keys);
    EntriesFor(SortedKeys(data.Keys), data, useBase, base)
  }

  lemma EntriesForAppend(keys: seq<U64>, k: U64, data: map<U64, U64>, useBase: bool, base: U64)
    requires forall i :: 0 <= i < |keys| ==> keys[i] in data
    requires k in data
    ensures EntriesFor(keys + [k], data, useBase, base)
         == EntriesFor(keys, data, useBase, base) + [(k as nat, Biased(data[k], useBase, base) as nat)]
  {
  }

  /** Dumping one more id appends its line. */
  lemma DumpStep(keys: seq<U64>, k: U64, data: map<U64, U64>, useBase: bool, base: U64, offset: U64)
    requires forall i :: 0 <= i < |keys| ==> keys[i] in data
    requires k in data && offset == Biased(data[k], useBase, base)
    ensures DumpLines(EntriesFor(keys + [k], data, useBase, base), HEX_WIDTH, '0')
         == DumpLines(EntriesFor(keys, data, useBase, base), HEX_WIDTH, '0') + DumpLine(k, offset, HEX_WIDTH, '0')
  {
    EntriesForAppend(keys, k, data, useBase, base);
    DumpLinesAppend(EntriesFor(keys, data, useBase, base), (k as nat, Biased(data[k], useBase, base) as nat), HEX_WIDTH, '0');
  }

  /** One iteration of `DumpMap`: the least id left moves to `keys`, and its line is written. */
  lemma DumpMapStep(keys: seq<U64>, remaining: set<U64>, id: U64, data: map<U64, U64>,
                    useBase: bool, base: U64, offset: U64)
    requires remaining <= data.Keys && forall i :: 0 <= i < |keys| ==> keys[i] in data
    requires SortedKeys(data.Keys) == keys + SortedKeys(remaining)
    requires id in remaining && forall j :: j in remaining ==> id <= j
    requires offset == Biased(data[id], useBase, base)
    ensures remaining - {id} <= data.Keys && forall i :: 0 <= i < |keys + [id]| ==> (keys + [id])[i] in data
    ensures SortedKeys(data.Keys) == (keys + [id]) + SortedKeys(remaining - {id})
    ensures DumpLines(EntriesFor(keys + [id], data, useBase, base), HEX_WIDTH, '0')
         == DumpLines(EntriesFor(keys, data, useBase, base), HEX_WIDTH, '0') + DumpLine(id, offset, HEX_WIDTH, '0')
  {
    KeysStep(keys, remaining, id);
    DumpStep(keys, id, data, useBase, base, offset);
  }

  /** The loop of `Dump`: take the least id left, write its line, until none is left. */
  method DumpMap(data: map<U64, U64>, useBase: bool, base: U64) returns (text: string)
    ensures text == DumpLines(DumpEntries(data, useBase, base), HEX_WIDTH, '0')
  {
    ghost var keys: seq<U64> := [];
    var remaining := data.Keys;
    text := "";
    assert SortedKeys(data.Keys) == keys + SortedKeys(remaining);
    while remaining != {}
      invariant remaining <= data.Keys
      invariant forall i :: 0 <= i < |keys| ==> keys[i] in data
      invariant SortedKeys(data.Keys) == keys + SortedKeys(remaining)
      invariant text == DumpLines(EntriesFor(keys, data, useBase, base), HEX_WIDTH, '0')
      decreases |remaining|
    {
      assert Least(remaining) in remaining;
      var id :| id in remaining && forall j :: j in remaining ==> id <= j;
      var offset := data[id];
      if useBase {
        offset := Add64(offset, base);
      }
      DumpMapStep(keys, remaining, id, data, useBase, base, offset);
      text := text + DumpLine(id, offset, HEX_WIDTH, '0');
      keys := keys + [id];
      remaining := remaining - {id};
    }
    assert SortedKeys(remaining) == [];
    assert keys == SortedKeys(data.Keys);
  }

  /** Records already decoded, put in front of more, put in front of the rest. */
  lemma PrependTwice(done: seq<Record>, more: seq<Record>, r: Result<seq<Record>, RecordError>)
    ensures Prepend(done, Prepend(more, r)) == Prepend(done + more, r)
  {
    if r.Ok? {
      assert done + (more + r.value) == done + more + r.value;
    }
  }

  /**
   * The record loop of `load`: decode `count` records from `pos`, inserting
   * each into the two tables; the first record that fails stops the loop.
   */
  method DecodeLoop(bytes: seq<Byte>, pos: nat, count: nat, ptrSize: U64)
    returns (failed: Option<RecordError>, data: map<U64, U64>, rdata: map<U64, U64>)
    ensures match DecodeRecords(bytes, pos, count, 0, 0, ptrSize)
            case Ok(recs) => failed == None && data == DataMap(recs) && rdata == RDataMap(recs)
            case Err(e) => failed == Some(e)
  {
    ghost var all := DecodeRecords(bytes, pos, count, 0, 0, ptrSize);
    ghost var done: seq<Record> := [];
    data, rdata := map[], map[];
    var at, pvid, poffset := pos, 0, 0;
    var i := 0;
    assert all == Prepend(done, all) by {
      if all.Ok? {
        assert done + all.value == all.value;
      }
    }
    while i < count
      invariant 0 <= i <= count
      invariant all == Prepend(done, DecodeRecords(bytes, at, count - i, pvid, poffset, ptrSize))
      invariant data == DataMap(done) && rdata == RDataMap(done)
    {
      var step := DecodeRecord(bytes, at, pvid, poffset, ptrSize);
      if step.Err? {
        assert all == Err(step.error);
        return Some(step.error), map[], map[];
      }
      var rec := step.value.rec;
      PrependTwice(done, [rec], DecodeRecords(bytes, step.value.next, count - i - 1, rec.id, rec.offset, ptrSize));
      assert (done + [rec])[..|done|] == done;
      data := data[rec.id := rec.offset];
      rdata := rdata[rec.offset := rec.id];
      done := done + [rec];
      at, pvid, poffset := step.value.next, rec.id, rec.offset;
      i := i + 1;
    }
    assert all == Ok(done) by {
      assert done + [] == done;
    }
    return None, data, rdata;
  }

  class VersionDb {
    var data: map<U64, U64>
    var rdata: map<U64, U64>
    var ver: seq<int>
    var moduleName: string
    var base: U64

    constructor ()
      ensures data == map[] && rdata == map[] && ver == ZERO_VERSION && moduleName == ""
      ensures base == DEFAULT_BASE
    {
      data, rdata, ver, moduleName := map[], map[], ZERO_VERSION, "";
      base := DEFAULT_BASE;
    }

    ghost function Current(): State
      reads this
    {
      State(ver, moduleName, data, rdata)
    }

    /** Empties both maps, zeroes the version and the module name; the base is kept. */
    method Clear()
      modifies this
      ensures Current() == CLEARED && base == old(base)
    {
      data, rdata, ver, moduleName := map[], map[], ZERO_VERSION, "";
    }

    /** `Load(fileName)` on the file's bytes; `None` where the C++ code returns true. */
    method Load(bytes: seq<Byte>) returns (error: Option<LoadError>)
      modifies this
      ensures Decode(bytes) == Loaded(error, Current())
      ensures base == old(base)
    {
      Clear();
      var header := DecodeHeader(bytes);
      if header.Err? {
        ver := header.error.ver;
        HeaderFailed(bytes, header.error);
        return Some(header.error.error);
      }
      var h := header.value;
      ver, moduleName := h.ver, h.name;
      var ptrSize := ToU64(h.ptrSize);
      var count := LoopCount(h.count);
      var failed, d, rd := DecodeLoop(bytes, h.recordsAt, count, ptrSize);
      if failed.Some? {
        Clear();
        RecordFailed(bytes, h, failed.value);
        return Some(FromRecordError(failed.value));
      }
      data, rdata := d, rd;
      ghost var recs := DecodeRecords(bytes, h.recordsAt, count, 0, 0, ptrSize).value;
      RecordsDecoded(bytes, h, recs);
      return None;
    }

    /** `FindOffsetById`: the stored offset, or `result` unchanged when the id is absent. */
    function FindOffsetById(id: U64, result: U64): (r: (bool, U64))
      reads this
      ensures r.0 <==> id in data
      ensures r.1 == if id in data then data[id] else result
    {
      if id in data then (true, data[id]) else (false, result)
    }

    /** `FindIdByOffset`: the stored id, or `result` unchanged when the offset is absent. */
    function FindIdByOffset(offset: U64, result: U64): (r: (bool, U64))
      reads this
      ensures r.0 <==> offset in rdata
      ensures r.1 == if offset in rdata then rdata[offset] else result
    {
      if offset in rdata then (true, rdata[offset]) else (false, result)
    }

    /** `FindAddressById`: `_base + offset` (wrapping), or 0 (NULL) with no base or no such id. */
    function FindAddressById(id: U64): (address: U64)
      reads this
      ensures base != 0 && id in data ==> Sub64(address, base) == data[id]
      ensures base == 0 || id !in data ==> address == 0
    {
      if base == 0 then 0
      else
        var (found, offset) := FindOffsetById(id, 0);
        if !found then 0 else AddSubCancel(offset, base); Add64(base, offset)
    }

    /** `FindIdByAddress`: the id stored for `address - _base` (wrapping). */
    function FindIdByAddress(address: U64, result: U64): (r: (bool, U64))
      reads this
      ensures r.0 <==> base != 0 && Sub64(address, base) in rdata
      ensures r.1 == if r.0 then rdata[Sub64(address, base)] else result
    {
      if base == 0 then (false, result) else FindIdByOffset(Sub64(address, base), result)
    }

    /**
     * `Dump(path, use_base)`: one line per entry of `_data` in ascending id
     * order, `{:<10}\t0x{:09X}\n`, each offset plus `_base` when `useBase`.
     */
    method Dump(useBase: bool) returns (text: string)
      ensures text == DumpLines(DumpEntries(data, useBase, base), HEX_WIDTH, '0')
    {
      text := DumpMap(data, useBase, base);
    }
  }
}
