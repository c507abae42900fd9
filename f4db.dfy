/**
 * The Fallout 4 `IDDatabase`: the id-to-offset table read from the image,
 * the `Offset2ID` copy sorted by id, the two `std::lower_bound` lookups and
 * the text dump.
 */
module F4Db {
  import opened Words
  import opened TextFormat
  import opened F4Image

  /** The base the dump adds when asked to (`0x7FF6F21A0000`). */
  const DUMP_BASE: U64 := 0x7FF6_F21A_0000
  /** `{:12X}`: at least twelve hex digits, right-aligned. */
  const HEX_WIDTH: nat := 12

  /** The field a search compares on. */
  datatype Key = ById | ByOffset

  function KeyOf(m: Mapping, key: Key): U64
  {
    match key
    case ById => m.id
    case ByOffset => m.offset
  }

  predicate SortedBy(s: seq<Mapping>, key: Key)
  {
    forall i, j :: 0 <= i < j < |s| ==> KeyOf(s[i], key) <= KeyOf(s[j], key)
  }

  predicate StrictlyBy(s: seq<Mapping>, key: Key)
  {
    forall i, j :: 0 <= i < j < |s| ==> KeyOf(s[i], key) < KeyOf(s[j], key)
  }

  /**
   * What `std::lower_bound` demands of its range: every element with
   * `key < q` comes before every element without.
   */
  predicate Partitioned(s: seq<Mapping>, key: Key, q: U64)
  {
    forall i, j :: 0 <= i < j < |s| && KeyOf(s[j], key) < q ==> KeyOf(s[i], key) < q
  }

  /** Some element has `key >= q`: the search does not run off the end. */
  predicate HasAtLeast(s: seq<Mapping>, key: Key, q: U64)
  {
    exists i :: 0 <= i < |s| && KeyOf(s[i], key) >= q
  }

  /** The index of the first element with `key >= q` (`|s|` if none). */
  function FirstAtLeast(s: seq<Mapping>, key: Key, q: U64): (k: nat)
    ensures k <= |s|
    ensures forall i :: 0 <= i < k ==> KeyOf(s[i], key) < q
    ensures k < |s| ==> KeyOf(s[k], key) >= q
    ensures HasAtLeast(s, key, q) <==> k < |s|
  {
    if s == [] then 0
    else if KeyOf(s[0], key) >= q then 0
    else 1 + FirstAtLeast(s[1..], key, q)
  }

  /** `std::lower_bound`: a binary search that halves the candidate range each step. */
  method LowerBound(s: seq<Mapping>, key: Key, q: U64) returns (k: nat)
    requires Partitioned(s, key, q)
    ensures k == FirstAtLeast(s, key, q)
  {
    var first := 0;
    var count := |s|;
    while count > 0
      invariant 0 <= first && 0 <= count && first + count <= |s|
      invariant forall i :: 0 <= i < first ==> KeyOf(s[i], key) < q
      invariant forall i :: first + count <= i < |s| ==> KeyOf(s[i], key) >= q
      decreases count
    {
      var step := count / 2;
      var it := first + step;
      if KeyOf(s[it], key) < q {
        first := it + 1;
        count := count - step - 1;
      } else {
        count := step;
      }
    }
    FirstAtLeastIs(s, key, q, first);
    k := first;
  }

  /** Any index below which every key is `< q` and at which the key is `>= q` is FirstAtLeast. */
  lemma {:induction false} FirstAtLeastIs(s: seq<Mapping>, key: Key, q: U64, k: nat)
    requires k <= |s|
    requires forall i :: 0 <= i < k ==> KeyOf(s[i], key) < q
    requires k < |s| ==> KeyOf(s[k], key) >= q
    ensures FirstAtLeast(s, key, q) == k
  {
    if s != [] && KeyOf(s[0], key) < q {
      FirstAtLeastIs(s[1..], key, q, k - 1);
    }
  }

  /** Insertion of one record into a table sorted by id. */
  function Insert(m: Mapping, s: seq<Mapping>): (r: seq<Mapping>)
    ensures multiset(r) == multiset(s) + multiset{m}
    ensures SortedBy(s, ById) ==> SortedBy(r, ById)
  {
    if s == [] then [m]
    else if m.id <= s[0].id then [m] + s
    else
      var tail := Insert(m, s[1..]);
      assert s == [s[0]] + s[1..];
      InsertSortedStep(m, s, tail);
      [s[0]] + tail
  }

  lemma InsertSortedStep(m: Mapping, s: seq<Mapping>, tail: seq<Mapping>)
    requires s != [] && s[0].id < m.id
    requires multiset(tail) == multiset(s[1..]) + multiset{m}
    requires SortedBy(s, ById) ==> SortedBy(tail, ById)
    ensures SortedBy(s, ById) ==> SortedBy([s[0]] + tail, ById)
  {
    if SortedBy(s, ById) {
      var r := [s[0]] + tail;
      forall j | 0 <= j < |tail|
        ensures s[0].id <= tail[j].id
      {
        assert tail[j] in multiset(tail);
        if tail[j] != m {
          assert tail[j] in multiset(s[1..]);
          var k :| 0 <= k < |s[1..]| && s[1..][k] == tail[j];
          assert s[k + 1] == tail[j];
        }
      }
      forall a, b | 0 <= a < b < |r|
        ensures r[a].id <= r[b].id
      {
        if a > 0 {
          assert r[a] == tail[a - 1] && r[b] == tail[b - 1];
        } else {
          assert r[b] == tail[b - 1];
        }
      }
    }
  }

  /** `std::sort` by id: an ascending permutation of the input. */
  function SortById(s: seq<Mapping>): (r: seq<Mapping>)
    ensures SortedBy(r, ById)
    ensures multiset(r) == multiset(s)
  {
    if s == [] then []
    else
      assert s == [s[0]] + s[1..];
      Insert(s[0], SortById(s[1..]))
  }

  /** `IDDatabase::Offset2ID`: the records copied and sorted by id. */
  class Offset2Id {
    var entries: seq<Mapping>

    /** The default constructor: no records. */
    constructor Empty()
      ensures entries == []
    {
      entries := [];
    }

    constructor (id2offset: seq<Mapping>)
      ensures SortedBy(entries, ById)
      ensures multiset(entries) == multiset(id2offset)
    {
      entries := SortById(id2offset);
    }

    /**
     * `operator()`: the id of the first record whose offset is at least
     * `offset`. The C++ code only prints a message when the vector is empty
     * or no record qualifies and then reads past the end; both are excluded
     * here, as is a vector `std::lower_bound` may not search.
     */
    method Lookup(offset: U64) returns (id: U64)
      requires HasAtLeast(entries, ByOffset, offset)
      requires Partitioned(entries, ByOffset, offset)
      ensures var k := FirstAtLeast(entries, ByOffset, offset);
              k < |entries| && entries[k].offset >= offset && id == entries[k].id
    {
      var k := LowerBound(entries, ByOffset, offset);
      id := entries[k].id;
    }
  }

  /** The dump's (id, offset) pairs, in vector order. */
  function FlatEntries(es: seq<Mapping>, useBase: bool): (r: seq<(nat, nat)>)
    ensures |r| == |es|
    ensures forall i :: 0 <= i < |es| ==> r[i] == (es[i].id as nat, Biased(es[i].offset, useBase, DUMP_BASE) as nat)
  {
    seq(|es|, i requires 0 <= i < |es| => (es[i].id as nat, Biased(es[i].offset, useBase, DUMP_BASE) as nat))
  }

  /** Dumping record `i` appends its line, with the offset biased as the dump asks. */
  lemma FlatDumpStep(es: seq<Mapping>, i: nat, useBase: bool, offset: U64)
    requires i < |es| && offset == Biased(es[i].offset, useBase, DUMP_BASE)
    ensures var all := FlatEntries(es, useBase);
            DumpLines(all[..i + 1], HEX_WIDTH, ' ') == DumpLines(all[..i], HEX_WIDTH, ' ') + DumpLine(es[i].id, offset, HEX_WIDTH, ' ')
  {
    var all := FlatEntries(es, useBase);
    assert all[i] == (es[i].id as nat, offset as nat);
    DumpLinesPrefix(all, i, HEX_WIDTH, ' ');
  }

  /** The loop of `Dump`: one line per record of `es`, in order. */
  method DumpRecords(es: seq<Mapping>, useBase: bool) returns (text: string)
    ensures text == DumpLines(FlatEntries(es, useBase), HEX_WIDTH, ' ')
  {
    ghost var all := FlatEntries(es, useBase);
    text := "";
    var i := 0;
    while i < |es|
      invariant i <= |es|
      invariant text == DumpLines(all[..i], HEX_WIDTH, ' ')
    {
      var offset := es[i].offset;
      if useBase {
        offset := Add64(offset, DUMP_BASE);
      }
      FlatDumpStep(es, i, useBase, offset);
      text := text + DumpLine(es[i].id, offset, HEX_WIDTH, ' ');
      i := i + 1;
    }
    assert all[..i] == all;
  }

  class IdDatabase {
    var id2offset: seq<Mapping>
    var offset2id: Offset2Id

    /** `IDDatabase(path)`: construct, then `load`. */
    constructor (bytes: seq<Byte>)
      requires WellFormed(bytes)
      ensures id2offset == ParseImage(bytes)
      ensures SortedBy(offset2id.entries, ById)
      ensures multiset(offset2id.entries) == multiset(id2offset)
    {
      id2offset := [];
      offset2id := new Offset2Id.Empty();
      new;
      Load(bytes);
    }

    /** `load`: view the image's records and build the id-sorted copy. */
    method Load(bytes: seq<Byte>)
      requires WellFormed(bytes)
      modifies this
      ensures id2offset == ParseImage(bytes)
      ensures fresh(offset2id)
      ensures SortedBy(offset2id.entries, ById)
      ensures multiset(offset2id.entries) == multiset(id2offset)
    {
      id2offset := ParseImage(bytes);
      offset2id := new Offset2Id(id2offset);
    }

    /**
     * `id2offset`: the offset of the first record whose id is at least `id`,
     * under the same conditions as `Offset2Id.Lookup`.
     */
    method Id2Offset(id: U64) returns (offset: U64)
      requires HasAtLeast(id2offset, ById, id)
      requires Partitioned(id2offset, ById, id)
      ensures var k := FirstAtLeast(id2offset, ById, id);
              k < |id2offset| && id2offset[k].id >= id && offset == id2offset[k].offset
    {
      var k := LowerBound(id2offset, ById, id);
      offset := id2offset[k].offset;
    }

    /** `Dump`: one line per record of `offset2id`, in its order. */
    method Dump(useBase: bool) returns (text: string)
      ensures text == DumpLines(FlatEntries(offset2id.entries, useBase), HEX_WIDTH, ' ')
    {
      text := DumpRecords(offset2id.entries, useBase);
    }
  }
}
