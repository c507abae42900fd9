/**
 * What the Fallout 4 lookups and dump guarantee, and where they stop
 * guaranteeing it.
 */
module F4DbProperties {
  import opened Wrappers
  import opened Words
  import opened TextFormat
  import opened F4Image
  import opened F4Db

  /**
   * A table strictly ascending by id is the only id-sorted arrangement of
   * its records: sorting it changes nothing.
   */
  lemma {:induction false} SortedPermutationUnique(s: seq<Mapping>, t: seq<Mapping>)
    requires StrictlyBy(s, ById) && SortedBy(t, ById)
    requires multiset(s) == multiset(t)
    ensures s == t
    decreases |s|
  {
    if s == [] {
      assert |t| == |multiset(t)| == 0;
    } else {
      HeadsEqual(s, t);
      assert s == [s[0]] + s[1..] && t == [t[0]] + t[1..];
      assert multiset(s[1..]) == multiset(s) - multiset{s[0]};
      assert multiset(t[1..]) == multiset(t) - multiset{t[0]};
      TailsOrdered(s, t);
      SortedPermutationUnique(s[1..], t[1..]);
    }
  }

  lemma HeadsEqual(s: seq<Mapping>, t: seq<Mapping>)
    requires s != [] && StrictlyBy(s, ById) && SortedBy(t, ById)
    requires multiset(s) == multiset(t)
    ensures t != [] && s[0] == t[0]
  {
    assert s[0] in multiset(t);
    var j :| 0 <= j < |t| && t[j] == s[0];
    assert t[0] in multiset(s);
    var i :| 0 <= i < |s| && s[i] == t[0];
    assert KeyOf(t[0], ById) <= KeyOf(t[j], ById);
    assert KeyOf(s[i], ById) <= KeyOf(s[0], ById);
    StrictInjective(s, ById, i, 0);
  }

  /** In a strictly ascending table, two positions with the same key are the same position. */
  lemma StrictInjective(s: seq<Mapping>, key: Key, a: nat, b: nat)
    requires StrictlyBy(s, key) && a < |s| && b < |s|
    requires KeyOf(s[a], key) <= KeyOf(s[b], key)
    ensures a <= b
  {
  }

  lemma TailsOrdered(s: seq<Mapping>, t: seq<Mapping>)
    requires s != [] && t != [] && StrictlyBy(s, ById) && SortedBy(t, ById)
    ensures StrictlyBy(s[1..], ById) && SortedBy(t[1..], ById)
  {
    forall i, j | 0 <= i < j < |s| - 1
      ensures KeyOf(s[1..][i], ById) < KeyOf(s[1..][j], ById)
    {
      assert s[1..][i] == s[i + 1] && s[1..][j] == s[j + 1];
    }
    forall i, j | 0 <= i < j < |t| - 1
      ensures KeyOf(t[1..][i], ById) <= KeyOf(t[1..][j], ById)
    {
      assert t[1..][i] == t[i + 1] && t[1..][j] == t[j + 1];
    }
  }

  /**
   * In a table strictly ascending by a key, the search for a stored key is
   * allowed and lands on that key's own record.
   */
  lemma StoredKeyFound(s: seq<Mapping>, key: Key, i: nat)
    requires StrictlyBy(s, key) && i < |s|
    ensures HasAtLeast(s, key, KeyOf(s[i], key))
    ensures Partitioned(s, key, KeyOf(s[i], key))
    ensures FirstAtLeast(s, key, KeyOf(s[i], key)) == i
  {
    FirstAtLeastIs(s, key, KeyOf(s[i], key), i);
  }

  /**
   * Loading the image of a table strictly ascending by id gives an
   * `Offset2ID` vector equal to the table itself.
   */
  lemma LoadOrderedImage(table: seq<Mapping>, entries: seq<Mapping>)
    requires |table| < TWO_64 && StrictlyBy(table, ById)
    requires SortedBy(entries, ById)
    ensures WellFormed(EncodeImage(table))
    ensures multiset(entries) == multiset(ParseImage(EncodeImage(table))) ==> entries == table
  {
    ImageRoundTrip(table);
    if multiset(entries) == multiset(ParseImage(EncodeImage(table))) {
      SortedPermutationUnique(table, entries);
    }
  }

  /**
   * The round trip: with unique ids and offsets strictly increasing in id
   * order, `id2offset` of a stored id finds its record, and `operator()` of
   * that record's offset finds the same record in the id-sorted copy, so
   * `operator()(id2offset(id)) == id`, and `id2offset(operator()(offset)) == offset`.
   */
  lemma LookupRoundTrip(table: seq<Mapping>, entries: seq<Mapping>, i: nat)
    requires StrictlyBy(table, ById) && StrictlyBy(table, ByOffset)
    requires SortedBy(entries, ById) && multiset(entries) == multiset(table)
    requires i < |table|
    ensures HasAtLeast(table, ById, table[i].id) && Partitioned(table, ById, table[i].id)
    ensures FirstAtLeast(table, ById, table[i].id) == i
    ensures HasAtLeast(entries, ByOffset, table[i].offset) && Partitioned(entries, ByOffset, table[i].offset)
    ensures FirstAtLeast(entries, ByOffset, table[i].offset) == i
    ensures entries[i] == table[i]
  {
    SortedPermutationUnique(table, entries);
    StoredKeyFound(table, ById, i);
    StoredKeyFound(table, ByOffset, i);
  }

  /**
   * Without offsets ascending in id order the search by offset is still
   * allowed but can answer the wrong id: in the id-sorted vector
   * [(1, 0x20), (2, 0x10)] the query 0x10 stops at the first record, so
   * `operator()(0x10)` is 1 although 0x10 is the offset of id 2.
   */
  lemma LookupNeedsOrderedOffsets()
    ensures var entries := [Mapping(1, 0x20), Mapping(2, 0x10)];
            && SortedBy(entries, ById)
            && HasAtLeast(entries, ByOffset, 0x10) && Partitioned(entries, ByOffset, 0x10)
            && FirstAtLeast(entries, ByOffset, 0x10) == 0
            && entries[0].offset != 0x10 && entries[1].offset == 0x10
  {
    var entries := [Mapping(1, 0x20), Mapping(2, 0x10)];
    assert KeyOf(entries[0], ByOffset) >= 0x10;
  }

  /** The flat dump reads back as the (id, offset) pairs of the vector, in order. */
  lemma FlatDumpReadsBack(entries: seq<Mapping>, useBase: bool)
    ensures ParseDump(DumpLines(FlatEntries(entries, useBase), HEX_WIDTH, ' '))
         == Some(FlatEntries(entries, useBase))
  {
    DumpLinesRoundTrip(FlatEntries(entries, useBase), HEX_WIDTH, ' ');
  }

  /** With the base, each dumped offset minus the base is the stored offset. */
  lemma FlatDumpBase(entries: seq<Mapping>, i: nat)
    requires i < |entries|
    ensures FlatEntries(entries, true)[i].1 < TWO_64
    ensures Sub64(FlatEntries(entries, true)[i].1, DUMP_BASE) == entries[i].offset
  {
    AddSubCancel(entries[i].offset, DUMP_BASE);
  }
}
