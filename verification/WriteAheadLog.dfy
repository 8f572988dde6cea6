/**
 The write-ahead log of 23-Write-Ahead-Log/main.go: numbered, checksummed records and their replay,
 which gives the map an LSM tree fed the same writes shows its readers.
 */
module WriteAheadLogs {
  import opened StorageRuns

  datatype WALEntry = WALEntry(lsn: nat, record: Record, checksum: nat)

  /** The checksum of a record under its number; any function will do. */
  type Checksum = (nat, Record) -> nat

  datatype Recovery = Recovered(state: map<string, string>) | Corrupt(lsn: nat)

  ghost function Records(entries: seq<WALEntry>): seq<Record> {
    seq(|entries|, i requires 0 <= i < |entries| => entries[i].record)
  }

  ghost predicate Intact(sum: Checksum, e: WALEntry) {
    sum(e.lsn, e.record) == e.checksum
  }

  ghost predicate FirstBad(sum: Checksum, entries: seq<WALEntry>, i: int) {
    && 0 <= i < |entries| && !Intact(sum, entries[i])
    && forall j | 0 <= j < i :: Intact(sum, entries[j])
  }

  class WriteAheadLog {
    var entries: seq<WALEntry>
    var nextLSN: nat
    const checksumOf: Checksum

    /** The log was written by `Append` alone. */
    ghost predicate Valid()
      reads this
    {
      && nextLSN == |entries| + 1
      && forall i | 0 <= i < |entries| :: entries[i].lsn == i + 1 && Intact(checksumOf, entries[i])
    }

    constructor (checksumOf: Checksum)
      ensures Valid() && entries == [] && this.checksumOf == checksumOf
    {
      entries, nextLSN, this.checksumOf := [], 1, checksumOf;
    }

    method Append(op: string, key: string, value: string) returns (entry: WALEntry)
      modifies this
      ensures old(Valid()) ==> Valid()
      ensures entry == WALEntry(old(nextLSN), Record(op, key, value), checksumOf(old(nextLSN), Record(op, key, value)))
      ensures entries == old(entries) + [entry] && nextLSN == old(nextLSN) + 1
      ensures Records(entries) == Records(old(entries)) + [Record(op, key, value)]
    {
      entry := WALEntry(nextLSN, Record(op, key, value), checksumOf(nextLSN, Record(op, key, value)));
      nextLSN := nextLSN + 1;
      entries := entries + [entry];
    }

    /** Replays the log; the first entry whose checksum is wrong stops it. */
    method Recover() returns (r: Recovery)
      ensures r.Recovered? <==> forall e | e in entries :: Intact(checksumOf, e)
      ensures r.Recovered? ==> r.state == Replayed(Records(entries))
      ensures r.Corrupt? ==> exists i :: FirstBad(checksumOf, entries, i) && entries[i].lsn == r.lsn
      ensures Valid() ==> r == Recovered(Replayed(Records(entries)))
    {
      hide Replayed;
      var state: map<string, string> := map[];
      EmptyReplay();
      for i := 0 to |entries|
        invariant forall j | 0 <= j < i :: Intact(checksumOf, entries[j])
        invariant state == Replayed(Records(entries[..i]))
      {
        var entry := entries[i];
        if checksumOf(entry.lsn, entry.record) != entry.checksum {
          assert entry in entries && FirstBad(checksumOf, entries, i);
          return Corrupt(entry.lsn);
        }
        ReplayStep(Records(entries[..i]), entry.record);
        assert Records(entries[..i + 1]) == Records(entries[..i]) + [entry.record];
        if entry.record.op == "put" {
          state := state[entry.record.key := entry.record.value];
        } else {
          state := state - {entry.record.key};
        }
      }
      assert entries[..|entries|] == entries;
      return Recovered(state);
    }
  }

  lemma EmptyReplay()
    ensures Replayed(Records([])) == map[]
  {
  }
}

/** The log and the tree side by side. */
module CrashRecovery {
  import opened StorageRuns
  import opened LSMTrees
  import opened Options
  import opened WriteAheadLogs

  /**
   Recovery from a log that holds the tree's puts and deletes gives exactly the map its readers see,
   whatever flushes and compactions the tree has been through.
   */
  lemma RecoveredIsVisible(tree: LSMTree, log: WriteAheadLog, key: string)
    requires tree.Valid() && log.Valid() && Records(log.entries) == Logged(tree.calls)
    ensures var state := Replayed(Records(log.entries));
            Answer(Found(tree.memtable, tree.sstables, key)) == if key in state then Some(state[key]) else None
  {
    hide Replayed, Logged, Live, Records;
    ReplayIsLive(tree.calls);
  }
}
