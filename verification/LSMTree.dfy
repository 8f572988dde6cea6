/**
 The LSM tree of 22-LSM-Tree/main.go: a memtable flushed into tables that are searched newest first
 and merged by sequence number. Readers see a plain map; flushes and compactions are invisible.
 */
module LSMTrees {
  import opened Options
  import opened StorageRuns

  datatype LSMValue = LSMValue(value: string, deleted: bool, sequence: nat)

  type Table = map<string, LSMValue>

  // ---------- Lookups ----------

  /** The entry of the newest table that has the key. */
  function Newest(tables: seq<Table>, key: string): Option<LSMValue> {
    if tables == [] then None
    else if key in tables[|tables| - 1] then Some(tables[|tables| - 1][key])
    else Newest(tables[..|tables| - 1], key)
  }

  /** The memtable counts as the newest table of all. */
  function Found(memtable: Table, tables: seq<Table>, key: string): Option<LSMValue> {
    if key in memtable then Some(memtable[key]) else Newest(tables, key)
  }

  /** What a reader is told: deleted and missing keys look alike. */
  function Answer(found: Option<LSMValue>): Option<string> {
    if found.Some? && !found.value.deleted then Some(found.value.value) else None
  }

  /** Every answer is the plain map's. */
  ghost predicate Agrees(memtable: Table, tables: seq<Table>, m: map<string, string>) {
    forall k :: Answer(Found(memtable, tables, k)) == if k in m then Some(m[k]) else None
  }

  /** A key's sequence numbers rise strictly from older tables to newer ones, up to `last`. */
  ghost predicate Rising(tables: seq<Table>, last: nat) {
    && (forall i, j, k | 0 <= i < j < |tables| && k in tables[i] && k in tables[j] ::
          tables[i][k].sequence < tables[j][k].sequence)
    && (forall i, k | 0 <= i < |tables| && k in tables[i] :: tables[i][k].sequence <= last)
  }

  /** The entry of highest sequence number among the tables that have the key. */
  ghost predicate IsHighest(tables: seq<Table>, key: string, e: LSMValue) {
    && (exists i :: 0 <= i < |tables| && key in tables[i] && tables[i][key] == e)
    && (forall i | 0 <= i < |tables| && key in tables[i] :: tables[i][key].sequence <= e.sequence)
  }

  /** Searching newest first finds the entry of highest sequence number, or nothing if there is none. */
  lemma {:induction false} NewestIsHighest(tables: seq<Table>, last: nat, key: string)
    requires Rising(tables, last)
    ensures Newest(tables, key) == None <==> forall i | 0 <= i < |tables| :: key !in tables[i]
    ensures Newest(tables, key).Some? ==> IsHighest(tables, key, Newest(tables, key).value)
  {
    if tables != [] {
      hide IsHighest, Rising;
      var front := tables[..|tables| - 1];
      RisingPrefix(tables, last);
      NewestIsHighest(front, last, key);
      if key in tables[|tables| - 1] {
        HighestIsLast(tables, last, key);
      } else if Newest(front, key).Some? {
        HighestInFront(tables, key, Newest(front, key).value);
      }
      assert forall i | 0 <= i < |front| :: front[i] == tables[i];
    }
  }

  lemma RisingPrefix(tables: seq<Table>, last: nat)
    requires tables != [] && Rising(tables, last)
    ensures Rising(tables[..|tables| - 1], last)
  {
  }

  /** A newer table's entry is the highest. */
  lemma HighestIsLast(tables: seq<Table>, last: nat, key: string)
    requires tables != [] && Rising(tables, last) && key in tables[|tables| - 1]
    ensures IsHighest(tables, key, tables[|tables| - 1][key])
  {
    var n := |tables| - 1;
    assert key in tables[n];
    forall i | 0 <= i < |tables| && key in tables[i] ensures tables[i][key].sequence <= tables[n][key].sequence {
    }
  }

  /** A newer table without the key leaves the highest entry as it was. */
  lemma HighestInFront(tables: seq<Table>, key: string, e: LSMValue)
    requires tables != [] && key !in tables[|tables| - 1]
    requires IsHighest(tables[..|tables| - 1], key, e)
    ensures IsHighest(tables, key, e)
  {
    var front := tables[..|tables| - 1];
    var i :| 0 <= i < |front| && key in front[i] && front[i][key] == e;
    assert key in tables[i] && tables[i][key] == e;
    forall j | 0 <= j < |tables| && key in tables[j] ensures tables[j][key].sequence <= e.sequence {
      assert front[j] == tables[j];
    }
  }

  // ---------- Merging ----------

  /** One table merged in: an entry replaces one of lower sequence number. */
  function MergedIn(m: Table, table: Table): Table {
    map k | k in m.Keys + table.Keys ::
      if k in table && (k !in m || table[k].sequence > m[k].sequence) then table[k] else m[k]
  }

  function MergedAll(tables: seq<Table>): Table {
    if tables == [] then map[] else MergedIn(MergedAll(tables[..|tables| - 1]), tables[|tables| - 1])
  }

  function WithoutTombstones(m: Table): Table {
    map k | k in m && !m[k].deleted :: m[k]
  }

  /** Merging keeps, for every key, what a newest-first search would find. */
  lemma {:induction false} MergeKeepsNewest(tables: seq<Table>, last: nat, key: string)
    requires Rising(tables, last)
    ensures Newest(tables, key) == if key in MergedAll(tables) then Some(MergedAll(tables)[key]) else None
  {
    if tables != [] {
      var front := tables[..|tables| - 1];
      assert forall i | 0 <= i < |front| :: front[i] == tables[i];
      MergeKeepsNewest(front, last, key);
      if key in tables[|tables| - 1] && key in MergedAll(front) {
        NewestIsHighest(front, last, key);
      }
    }
  }

  /** Compaction with dropped tombstones changes no answer. */
  lemma CompactionInvisible(memtable: Table, tables: seq<Table>, last: nat, key: string)
    requires Rising(tables, last)
    ensures Answer(Found(memtable, [WithoutTombstones(MergedAll(tables))], key)) == Answer(Found(memtable, tables, key))
  {
    var merged := WithoutTombstones(MergedAll(tables));
    MergeKeepsNewest(tables, last, key);
    var single: seq<Table> := [merged];
    assert single[..0] == [];
    assert Newest(single, key) == if key in merged then Some(merged[key]) else None;
  }

  /** A table with the newest entry of every key, unless that is a tombstone, and nothing else. */
  ghost predicate Compacted(tables: seq<Table>, table: Table) {
    && (forall k | k in table :: Newest(tables, k) == Some(table[k]) && !table[k].deleted)
    && (forall k | k !in table :: Answer(Newest(tables, k)) == None)
  }

  /** Compaction keeps what can still be read of the tables, and keeps no tombstone. */
  lemma CompactionExact(tables: seq<Table>, last: nat)
    requires Rising(tables, last)
    ensures Compacted(tables, WithoutTombstones(MergedAll(tables)))
  {
    hide Newest, MergedAll, Rising;
    var merged, kept := MergedAll(tables), WithoutTombstones(MergedAll(tables));
    forall k ensures if k in kept then Newest(tables, k) == Some(kept[k]) && !kept[k].deleted
                     else Answer(Newest(tables, k)) == None {
      MergeKeepsNewest(tables, last, k);
    }
  }

  /** A flush changes no lookup at all. */
  lemma FlushInvisible(memtable: Table, tables: seq<Table>, key: string)
    ensures Found(map[], tables + [memtable], key) == Found(memtable, tables, key)
  {
    assert (tables + [memtable])[..|tables|] == tables;
  }

  lemma CompactionRising(memtable: Table, tables: seq<Table>, last: nat)
    requires Rising(tables + [memtable], last)
    ensures Rising([WithoutTombstones(MergedAll(tables))] + [memtable], last)
  {
    hide MergedAll;
    var merged := WithoutTombstones(MergedAll(tables));
    var all' := [merged] + [memtable];
    assert all'[0] == merged && all'[1] == memtable;
    assert (tables + [memtable])[|tables|] == memtable;
    forall k | k in merged
      ensures merged[k].sequence <= last && (k in memtable ==> merged[k].sequence < memtable[k].sequence)
    {
      MergedBelow(memtable, tables, last, k);
    }
  }

  /** A merged entry is one of the tables', so it is older than the memtable's. */
  lemma MergedBelow(memtable: Table, tables: seq<Table>, last: nat, key: string)
    requires Rising(tables + [memtable], last) && key in MergedAll(tables)
    ensures var e := MergedAll(tables)[key];
      e.sequence <= last && (key in memtable ==> e.sequence < memtable[key].sequence)
  {
    hide MergedAll;
    var all := tables + [memtable];
    RisingFront(memtable, tables, last);
    MergeKeepsNewest(tables, last, key);
    NewestIsHighest(tables, last, key);
    var i :| 0 <= i < |tables| && key in tables[i] && tables[i][key] == MergedAll(tables)[key];
    assert key in all[i] && all[|tables|] == memtable;
  }

  // ---------- The tree ----------

  class LSMTree {
    var memtable: Table
    var sstables: seq<Table>
    var sequence: nat
    const flushThreshold: int

    ghost var calls: seq<Call>

    /** Between calls the memtable has room for another key. */
    ghost predicate Valid()
      reads this
    {
      Kept() && |memtable| < flushThreshold
    }

    ghost predicate Kept()
      reads this
    {
      && flushThreshold > 0
      && Rising(sstables + [memtable], sequence)
      && Tidy(sstables + [memtable])
      && Agrees(memtable, sstables, Live(calls))
    }

    constructor (flushThreshold: int)
      ensures Valid() && calls == []
      ensures this.flushThreshold == if flushThreshold <= 0 then 4 else flushThreshold
    {
      memtable, sstables, sequence := map[], [], 0;
      this.flushThreshold := if flushThreshold <= 0 then 4 else flushThreshold;
      calls := [];
    }

    /** The value last put under `key`, unless it was deleted since or never put. */
    method Get(key: string) returns (value: string, ok: bool)
      requires Valid()
      ensures ok <==> key in Live(calls)
      ensures value == if ok then Live(calls)[key] else ""
    {
      hide Live;
      assert sstables[..|sstables|] == sstables;
      assert Answer(Found(memtable, sstables, key)) == if key in Live(calls) then Some(Live(calls)[key]) else None;
      assert (sstables + [memtable])[|sstables|] == memtable;
      if key in memtable {
        var entry := memtable[key];
        return entry.value, !entry.deleted;
      }
      for i := |sstables| downto 0
        invariant forall j | i <= j < |sstables| :: key !in sstables[j]
        invariant Newest(sstables, key) == Newest(sstables[..i], key)
      {
        assert sstables[..i + 1][..i] == sstables[..i] && sstables[..i + 1][i] == sstables[i];
        if key in sstables[i] {
          assert (sstables + [memtable])[i] == sstables[i];
          var entry := sstables[i][key];
          return entry.value, !entry.deleted;
        }
      }
      return "", false;
    }

    method Put(key: string, value: string)
      requires Valid()
      modifies this
      ensures Valid()
      ensures sequence == old(sequence) + 1
      ensures var written := old(memtable)[key := LSMValue(value, false, old(sequence) + 1)];
        if |written| < flushThreshold then
          memtable == written && sstables == old(sstables) && calls == old(calls) + [StorageRuns.Put(key, value)]
        else
          && memtable == map[] && sstables == old(sstables) + [written]
          && calls == old(calls) + [StorageRuns.Put(key, value)] + [StorageRuns.Flush]
    {
      Write(key, LSMValue(value, false, sequence + 1), StorageRuns.Put(key, value));
    }

    method Delete(key: string)
      requires Valid()
      modifies this
      ensures Valid()
      ensures sequence == old(sequence) + 1
      ensures var written := old(memtable)[key := LSMValue("", true, old(sequence) + 1)];
        if |written| < flushThreshold then
          memtable == written && sstables == old(sstables) && calls == old(calls) + [StorageRuns.Delete(key)]
        else
          && memtable == map[] && sstables == old(sstables) + [written]
          && calls == old(calls) + [StorageRuns.Delete(key)] + [StorageRuns.Flush]
    {
      Write(key, LSMValue("", true, sequence + 1), StorageRuns.Delete(key));
    }

    /** The common part of `Put` and `Delete`: a newer entry, and a flush when the memtable is full. */
    method Write(key: string, entry: LSMValue, ghost call: Call)
      requires Valid() && entry.sequence == sequence + 1
      requires call == if entry.deleted then StorageRuns.Delete(key) else StorageRuns.Put(key, entry.value)
      requires entry.deleted ==> entry.value == ""
      modifies this
      ensures Valid()
      ensures sequence == old(sequence) + 1
      ensures var written := old(memtable)[key := entry];
        if |written| < flushThreshold then
          memtable == written && sstables == old(sstables) && calls == old(calls) + [call]
        else
          && memtable == map[] && sstables == old(sstables) + [written]
          && calls == old(calls) + [call] + [StorageRuns.Flush]
    {
      hide Kept;
      Enter(key, entry, call);
      WrittenNotEmpty(old(memtable), key, entry);
      if |memtable| >= flushThreshold {
        Flush();
      }
    }

    method Enter(key: string, entry: LSMValue, ghost call: Call)
      requires Kept() && entry.sequence == sequence + 1
      requires call == if entry.deleted then StorageRuns.Delete(key) else StorageRuns.Put(key, entry.value)
      requires entry.deleted ==> entry.value == ""
      modifies `sequence, `memtable, `calls
      ensures Kept() && memtable == old(memtable)[key := entry] && sequence == old(sequence) + 1
      ensures calls == old(calls) + [call]
    {
      hide Live, Agrees, Rising, Tidy;
      LiveStep(calls, call);
      WriteKeeps(memtable, sstables, sequence, key, entry);
      WriteAgrees(memtable, sstables, Live(calls), key, entry);
      sequence := sequence + 1;
      memtable := memtable[key := entry];
      calls := calls + [call];
    }

    /** Turns a non-empty memtable into the newest table. */
    method Flush()
      requires Kept()
      modifies this
      ensures Valid() && calls == old(calls) + [StorageRuns.Flush]
      ensures memtable == map[] && sequence == old(sequence)
      ensures sstables == old(sstables) + if old(memtable) == map[] then [] else [old(memtable)]
    {
      hide Live, Agrees, Rising, Tidy;
      LiveStep(calls, StorageRuns.Flush);
      calls := calls + [StorageRuns.Flush];
      if |memtable| == 0 {
        return;
      }
      var table := Copy(memtable);
      FlushAgrees(memtable, sstables, Live(calls));
      FlushKeeps(memtable, sstables, sequence);
      sstables := sstables + [table];
      memtable := map[];
    }

    static method Copy(m: Table) returns (table: Table)
      ensures table == m
    {
      table := map[];
      var rest := m.Keys;
      while rest != {}
        invariant rest <= m.Keys && table == m - rest
        decreases rest
      {
        var key :| key in rest;
        table := table[key := m[key]];
        rest := rest - {key};
      }
      assert m - {} == m;
    }

    /** Merges all tables into one without tombstones. */
    method Compact()
      requires Valid()
      modifies this
      ensures Valid() && calls == old(calls) + [StorageRuns.Compact]
      ensures sstables == [WithoutTombstones(MergedAll(old(sstables)))]
      ensures Compacted(old(sstables), sstables[0])
      ensures memtable == old(memtable) && sequence == old(sequence)
    {
      hide Live, Agrees, Rising, Tidy, Compacted, WithoutTombstones, MergedAll;
      LiveStep(calls, StorageRuns.Compact);
      RisingFront(memtable, sstables, sequence);
      CompactionExact(sstables, sequence);
      CompactionRising(memtable, sstables, sequence);
      CompactionTidy(memtable, sstables);
      CompactionAgrees(memtable, sstables, sequence, Live(calls));
      var merged := Merge(sstables);
      merged := DropTombstones(merged);
      sstables := [merged];
      calls := calls + [StorageRuns.Compact];
    }

    static method Merge(tables: seq<Table>) returns (merged: Table)
      ensures merged == MergedAll(tables)
    {
      merged := map[];
      for i := 0 to |tables|
        invariant merged == MergedAll(tables[..i])
      {
        assert tables[..i + 1][..i] == tables[..i] && tables[..i + 1][i] == tables[i];
        merged := MergeTable(merged, tables[i]);
      }
      assert tables[..|tables|] == tables;
    }

    static method MergeTable(m: Table, table: Table) returns (merged: Table)
      ensures merged == MergedIn(m, table)
    {
      merged := m;
      var rest := table.Keys;
      assert table - rest == map[];
      while rest != {}
        invariant rest <= table.Keys && merged == MergedIn(m, table - rest)
        decreases rest
      {
        var key :| key in rest;
        var entry := table[key];
        MergeStep(m, table, rest, key);
        if key !in merged || entry.sequence > merged[key].sequence {
          merged := merged[key := entry];
        }
        rest := rest - {key};
      }
      assert table - {} == table;
    }

    static method DropTombstones(m: Table) returns (merged: Table)
      ensures merged == WithoutTombstones(m)
    {
      merged := m;
      var rest := m.Keys;
      while rest != {}
        invariant rest <= m.Keys
        invariant merged == map k | k in m && (k in rest || !m[k].deleted) :: m[k]
        decreases rest
      {
        var key :| key in rest;
        if m[key].deleted {
          merged := merged - {key};
        }
        rest := rest - {key};
      }
    }
  }

  /** Tombstones carry the empty value. */
  ghost predicate Tidy(tables: seq<Table>) {
    forall i, k | 0 <= i < |tables| && k in tables[i] && tables[i][k].deleted :: tables[i][k].value == ""
  }

  lemma MergeStep(m: Table, table: Table, rest: set<string>, key: string)
    requires key in rest && rest <= table.Keys
    ensures var before := MergedIn(m, table - rest);
            MergedIn(m, table - (rest - {key}))
            == if key !in before || table[key].sequence > before[key].sequence then before[key := table[key]]
               else before
  {
    var before, after := MergedIn(m, table - rest), MergedIn(m, table - (rest - {key}));
    assert after.Keys == before.Keys + {key};
  }

  /** A write of a fresh sequence number keeps the numbers rising. */
  lemma WriteKeeps(memtable: Table, tables: seq<Table>, last: nat, key: string, entry: LSMValue)
    requires Rising(tables + [memtable], last) && Tidy(tables + [memtable]) && entry.sequence == last + 1
    requires entry.deleted ==> entry.value == ""
    ensures Rising(tables + [memtable[key := entry]], last + 1)
    ensures Tidy(tables + [memtable[key := entry]])
  {
    var all, all' := tables + [memtable], tables + [memtable[key := entry]];
    assert forall i | 0 <= i < |tables| :: all[i] == tables[i] == all'[i];
    assert all[|tables|] == memtable && all'[|tables|] == memtable[key := entry];
  }

  lemma WrittenNotEmpty(memtable: Table, key: string, entry: LSMValue)
    ensures memtable[key := entry] != map[]
  {
    assert key in memtable[key := entry];
  }

  lemma WriteAgrees(memtable: Table, tables: seq<Table>, m: map<string, string>, key: string, entry: LSMValue)
    requires Agrees(memtable, tables, m)
    ensures Agrees(memtable[key := entry], tables, if entry.deleted then m - {key} else m[key := entry.value])
  {
  }

  lemma FlushAgrees(memtable: Table, tables: seq<Table>, m: map<string, string>)
    requires Agrees(memtable, tables, m)
    ensures Agrees(map[], tables + [memtable], m)
  {
    forall k ensures Found(map[], tables + [memtable], k) == Found(memtable, tables, k) {
      FlushInvisible(memtable, tables, k);
    }
  }

  lemma CompactionAgrees(memtable: Table, tables: seq<Table>, last: nat, m: map<string, string>)
    requires Agrees(memtable, tables, m) && Rising(tables, last)
    ensures Agrees(memtable, [WithoutTombstones(MergedAll(tables))], m)
  {
    hide WithoutTombstones, MergedAll, Rising, Found, Answer;
    forall k
      ensures Answer(Found(memtable, [WithoutTombstones(MergedAll(tables))], k)) == Answer(Found(memtable, tables, k))
    {
      CompactionInvisible(memtable, tables, last, k);
    }
  }

  lemma FlushKeeps(memtable: Table, tables: seq<Table>, last: nat)
    requires Rising(tables + [memtable], last) && Tidy(tables + [memtable])
    ensures Rising(tables + [memtable] + [map[]], last) && Tidy(tables + [memtable] + [map[]])
  {
    var all, all' := tables + [memtable], tables + [memtable] + [map[]];
    assert forall i | 0 <= i < |all| :: all'[i] == all[i];
  }

  lemma RisingFront(memtable: Table, tables: seq<Table>, last: nat)
    requires Rising(tables + [memtable], last)
    ensures Rising(tables, last)
  {
    assert forall i | 0 <= i < |tables| :: (tables + [memtable])[i] == tables[i];
  }

  lemma CompactionTidy(memtable: Table, tables: seq<Table>)
    requires Tidy(tables + [memtable])
    ensures Tidy([WithoutTombstones(MergedAll(tables))] + [memtable])
  {
    assert (tables + [memtable])[|tables|] == memtable;
  }
}
