/**
 What the callers of the LSM tree (22-LSM-Tree/main.go) and of the write-ahead log
 (23-Write-Ahead-Log/main.go) ask for, and the plain map both have to agree with.
 */
module StorageRuns {
  /** A call on the tree; flushes and compactions may come anywhere. */
  datatype Call = Put(key: string, value: string) | Delete(key: string) | Flush | Compact

  /** What a call does to the plain map: flushes and compactions leave it alone. */
  function Effect(m: map<string, string>, call: Call): map<string, string> {
    match call
    case Put(key, value) => m[key := value]
    case Delete(key) => m - {key}
    case Flush => m
    case Compact => m
  }

  /** The plain map after a run of calls. */
  function Live(calls: seq<Call>): map<string, string> {
    if calls == [] then map[] else Effect(Live(calls[..|calls| - 1]), calls[|calls| - 1])
  }

  lemma LiveStep(calls: seq<Call>, call: Call)
    ensures Live(calls + [call]) == Effect(Live(calls), call)
  {
    assert (calls + [call])[..|calls|] == calls;
  }

  /** An entry of the log, without its number and checksum. */
  datatype Record = Record(op: string, key: string, value: string)

  /** What replaying a log leaves: any operation but "put" deletes. */
  function Replayed(log: seq<Record>): map<string, string> {
    if log == [] then map[]
    else
      var m, r := Replayed(log[..|log| - 1]), log[|log| - 1];
      if r.op == "put" then m[r.key := r.value] else m - {r.key}
  }

  lemma ReplayStep(log: seq<Record>, r: Record)
    ensures Replayed(log + [r]) == if r.op == "put" then Replayed(log)[r.key := r.value] else Replayed(log) - {r.key}
  {
    assert (log + [r])[..|log|] == log;
  }

  /** The number of the last record for a key; -1 if there is none. */
  function LastRecord(log: seq<Record>, key: string): (i: int)
    ensures -1 <= i < |log| && (i >= 0 ==> log[i].key == key)
  {
    if log == [] then -1
    else if log[|log| - 1].key == key then |log| - 1
    else LastRecord(log[..|log| - 1], key)
  }

  /** A key's last record decides: it must be a put, whatever came before, and gives the value. */
  lemma {:induction false} ReplayIsLastRecord(log: seq<Record>, key: string)
    ensures var i := LastRecord(log, key);
      && (key in Replayed(log) <==> i >= 0 && log[i].op == "put")
      && (key in Replayed(log) ==> Replayed(log)[key] == log[i].value)
  {
    if log != [] {
      ReplayIsLastRecord(log[..|log| - 1], key);
    }
  }

  /** What a caller logs who appends a record before each put and each delete on the tree. */
  function RecordsOf(call: Call): seq<Record> {
    match call
    case Put(key, value) => [Record("put", key, value)]
    case Delete(key) => [Record("delete", key, "")]
    case Flush => []
    case Compact => []
  }

  function Logged(calls: seq<Call>): seq<Record> {
    if calls == [] then [] else Logged(calls[..|calls| - 1]) + RecordsOf(calls[|calls| - 1])
  }

  /** Replaying the log gives the tree's map, wherever flushes and compactions happened. */
  lemma {:induction false} ReplayIsLive(calls: seq<Call>)
    ensures Replayed(Logged(calls)) == Live(calls)
  {
    if calls != [] {
      var front := calls[..|calls| - 1];
      ReplayIsLive(front);
      match calls[|calls| - 1]
      case Put(key, value) => ReplayStep(Logged(front), Record("put", key, value));
      case Delete(key) => ReplayStep(Logged(front), Record("delete", key, ""));
      case Flush => assert Logged(front) + [] == Logged(front);
      case Compact => assert Logged(front) + [] == Logged(front);
    }
  }
}
