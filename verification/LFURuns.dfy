/**
 Whole runs of the LFU cache of 02-LFU-Cache/main.go. Use counts and last uses are counted over the
 calls here, and compared with what the rule of `LFUSpec` keeps in its entries.
 */
module LFURuns {
  import opened LFUSpec

  datatype Call = Get(key: int) | Put(key: int, value: int)

  /** What is cached, and the number of uses so far. */
  datatype Cache = Cache(entries: Entries, now: nat)

  // ---------- The rule, call by call ----------

  /** The order of eviction is total, so some cached key comes first. */
  lemma {:induction false} VictimExists(m: Entries)
    requires m != map[]
    ensures exists k :: IsVictim(m, k)
    decreases |m|
  {
    var item :| item in m.Items;
    var k := item.0;
    var rest := m - {k};
    assert m.Keys == rest.Keys + {k};
    assert forall k' | k' in m && k' != k :: k' in rest && rest[k'] == m[k'];
    if rest == map[] {
      assert IsVictim(m, k);
    } else {
      assert |m.Keys| == |rest.Keys| + 1;
      VictimExists(rest);
      var v :| IsVictim(rest, v);
      assert IsVictim(m, if NotAfter(m[k], m[v]) then k else v);
    }
  }

  /** The key the rule evicts. */
  ghost function Victim(m: Entries): (victim: int)
    requires m != map[]
    ensures IsVictim(m, victim)
  {
    VictimExists(m);
    var victim :| IsVictim(m, victim);
    victim
  }

  /** A full cache makes room by losing its victim; a negative capacity is never reached. */
  ghost function Relieved(capacity: int, m: Entries): Entries {
    if m != map[] && |m| == capacity then Evicted(m, Victim(m)) else m
  }

  /** A call uses its key by finding it cached or by storing it, and a cache of capacity 0 stores nothing. */
  ghost predicate UsesKey(capacity: int, m: Entries, call: Call) {
    if call.Get? then call.key in m else capacity != 0
  }

  ghost function Step(capacity: int, c: Cache, call: Call): Cache {
    var m, now := c.entries, c.now;
    if !UsesKey(capacity, m, call) then c
    else if call.key in m then
      Cache(Reused(m, call.key, if call.Put? then call.value else m[call.key].value, now), now + 1)
    else Cache(Entered(Relieved(capacity, m), call.key, call.value, now), now + 1)
  }

  ghost function Run(capacity: int, calls: seq<Call>): Cache {
    if calls == [] then Cache(map[], 0) else Step(capacity, Run(capacity, calls[..|calls| - 1]), calls[|calls| - 1])
  }

  lemma RunStep(capacity: int, calls: seq<Call>, call: Call)
    ensures Run(capacity, calls + [call]) == Step(capacity, Run(capacity, calls), call)
  {
    assert (calls + [call])[..|calls|] == calls;
  }

  /** A put in the four cases the code tells apart. */
  lemma PutStep(capacity: int, m: Entries, now: nat, key: int, value: int)
    ensures var c := Step(capacity, Cache(m, now), Put(key, value));
      if capacity == 0 then c == Cache(m, now)
      else if key in m then
        c == Cache(Reused(m, key, value, now), now + 1)
        && c.entries == m[key := Entry(value, m[key].freq + 1, now)]
      else if |m| != capacity then
        c == Cache(Entered(m, key, value, now), now + 1) && c.entries == m[key := Entry(value, 1, now)]
      else
        && m != map[] && c == Cache(Entered(Evicted(m, Victim(m)), key, value, now), now + 1)
        && c.entries == (m - {Victim(m)})[key := Entry(value, 1, now)]
  {
  }

  // ---------- What a trace says of a key ----------

  /** Call `i` uses its key. */
  ghost predicate IsUse(capacity: int, calls: seq<Call>, i: nat)
    requires i < |calls|
  {
    UsesKey(capacity, Run(capacity, calls[..i]).entries, calls[i])
  }

  /** The number of the last call that used the key; -1 if none did. */
  ghost function LastUse(capacity: int, calls: seq<Call>, key: int): int {
    if calls == [] then -1
    else
      var n := |calls| - 1;
      if calls[n].key == key && IsUse(capacity, calls, n) then n else LastUse(capacity, calls[..n], key)
  }

  /** The number of the last call that used the key without finding it cached; -1 if none did. */
  ghost function EnteredAt(capacity: int, calls: seq<Call>, key: int): int {
    if calls == [] then -1
    else
      var n := |calls| - 1;
      if calls[n].key == key && IsUse(capacity, calls, n) && key !in Run(capacity, calls[..n]).entries then n
      else EnteredAt(capacity, calls[..n], key)
  }

  /** How many calls used the key, call `from` and later ones. */
  ghost function UseCount(capacity: int, calls: seq<Call>, from: int, key: int): nat {
    if calls == [] || |calls| <= from then 0
    else
      var n := |calls| - 1;
      UseCount(capacity, calls[..n], from, key) + if calls[n].key == key && IsUse(capacity, calls, n) then 1 else 0
  }

  /** How often a key was used since it was entered last. */
  ghost function Uses(capacity: int, calls: seq<Call>, key: int): nat {
    UseCount(capacity, calls, EnteredAt(capacity, calls, key), key)
  }

  /** The value last stored for the key; -1 if none was. */
  ghost function LastStored(calls: seq<Call>, key: int): int {
    if calls == [] then -1
    else
      var n := |calls| - 1;
      if calls[n].Put? && calls[n].key == key then calls[n].value else LastStored(calls[..n], key)
  }

  // ---------- One call ----------

  /** Only a use changes anything, and it leaves every other key alone or evicts it. */
  lemma StepOthers(capacity: int, c: Cache, call: Call, key: int)
    requires key in Step(capacity, c, call).entries && (key != call.key || !UsesKey(capacity, c.entries, call))
    ensures key in c.entries && Step(capacity, c, call).entries[key] == c.entries[key]
  {
  }

  /** A use leaves its own key cached, used now, once more than before or for the first time. */
  lemma StepUse(capacity: int, c: Cache, call: Call)
    requires UsesKey(capacity, c.entries, call)
    ensures var c' := Step(capacity, c, call);
      && c'.now == c.now + 1 && call.key in c'.entries && c'.entries[call.key].touched == c.now
      && c'.entries[call.key].freq == (if call.key in c.entries then c.entries[call.key].freq + 1 else 1)
      && (call.Get? ==> call.key in c.entries && c'.entries[call.key].value == c.entries[call.key].value)
      && (call.Put? ==> c'.entries[call.key].value == call.value)
  {
  }

  // ---------- Every run ----------

  /** The time is the number of uses, so it tells calls apart that used their keys. */
  lemma {:induction false} ClockGrows(capacity: int, calls: seq<Call>, i: nat)
    requires i < |calls|
    ensures Run(capacity, calls[..i]).now <= Run(capacity, calls).now
    ensures IsUse(capacity, calls, i) ==> Run(capacity, calls[..i]).now < Run(capacity, calls).now
    decreases |calls|
  {
    var n := |calls| - 1;
    if i < n {
      assert calls[..n][..i] == calls[..i];
      ClockGrows(capacity, calls[..n], i);
    }
  }

  /** A last use is a use, of that key. */
  lemma {:induction false} LastUseIsUse(capacity: int, calls: seq<Call>, key: int)
    requires LastUse(capacity, calls, key) >= 0
    ensures var i := LastUse(capacity, calls, key);
      i < |calls| && calls[i].key == key && IsUse(capacity, calls, i)
  {
    var n := |calls| - 1;
    var i := LastUse(capacity, calls, key);
    if i != n || !(calls[n].key == key && IsUse(capacity, calls, n)) {
      LastUseIsUse(capacity, calls[..n], key);
      assert calls[..n][..i] == calls[..i];
    }
  }

  /** Whatever is cached was entered by an earlier call, and used then or later. */
  lemma {:induction false} EnteredOfRun(capacity: int, calls: seq<Call>, key: int)
    requires key in Run(capacity, calls).entries
    ensures capacity != 0
    ensures 0 <= EnteredAt(capacity, calls, key) <= LastUse(capacity, calls, key) < |calls|
  {
    var n := |calls| - 1;
    var c := Run(capacity, calls[..n]);
    if !(calls[n].key == key && UsesKey(capacity, c.entries, calls[n])) {
      StepOthers(capacity, c, calls[n], key);
      EnteredOfRun(capacity, calls[..n], key);
    } else if key in c.entries {
      EnteredOfRun(capacity, calls[..n], key);
    }
  }

  lemma {:induction false} FrequencyOfRun(capacity: int, calls: seq<Call>, key: int)
    requires key in Run(capacity, calls).entries
    ensures Run(capacity, calls).entries[key].freq == Uses(capacity, calls, key)
  {
    var n := |calls| - 1;
    var front, call := calls[..n], calls[n];
    var c := Run(capacity, front);
    EnteredOfRun(capacity, calls, key);
    if call.key == key && UsesKey(capacity, c.entries, call) {
      StepUse(capacity, c, call);
      if key in c.entries {
        EnteredOfRun(capacity, front, key);
        FrequencyOfRun(capacity, front, key);
      } else {
        assert UseCount(capacity, front, n, key) == 0;
      }
    } else {
      StepOthers(capacity, c, call, key);
      EnteredOfRun(capacity, front, key);
      FrequencyOfRun(capacity, front, key);
    }
  }

  lemma {:induction false} LastUseOfRun(capacity: int, calls: seq<Call>, key: int)
    requires key in Run(capacity, calls).entries
    ensures 0 <= LastUse(capacity, calls, key) < |calls|
    ensures Run(capacity, calls).entries[key].touched == Run(capacity, calls[..LastUse(capacity, calls, key)]).now
    ensures Run(capacity, calls).entries[key].value == LastStored(calls, key)
  {
    var n := |calls| - 1;
    var front, call := calls[..n], calls[n];
    var c := Run(capacity, front);
    EnteredOfRun(capacity, calls, key);
    if call.key == key && UsesKey(capacity, c.entries, call) {
      StepUse(capacity, c, call);
      if call.Get? {
        LastUseOfRun(capacity, front, key);
      }
    } else {
      StepOthers(capacity, c, call, key);
      LastUseOfRun(capacity, front, key);
      assert front[..LastUse(capacity, front, key)] == calls[..LastUse(capacity, front, key)];
    }
  }

  /**
   What a run keeps for a cached key is what its calls say: how often it was used since it was entered,
   when it was used last, and the value last stored for it.
   */
  lemma EntryOfRun(capacity: int, calls: seq<Call>, key: int)
    requires key in Run(capacity, calls).entries
    ensures 0 <= EnteredAt(capacity, calls, key) <= LastUse(capacity, calls, key) < |calls|
    ensures Run(capacity, calls).entries[key] == Entry(
              LastStored(calls, key), Uses(capacity, calls, key),
              Run(capacity, calls[..LastUse(capacity, calls, key)]).now)
  {
    EnteredOfRun(capacity, calls, key);
    FrequencyOfRun(capacity, calls, key);
    LastUseOfRun(capacity, calls, key);
  }

  /** The rule's order on entries is the order by number of uses since entered, then by last use. */
  lemma OrderOfRun(capacity: int, calls: seq<Call>, k: int, l: int)
    requires k in Run(capacity, calls).entries && l in Run(capacity, calls).entries
    ensures var m := Run(capacity, calls).entries;
      NotAfter(m[k], m[l]) <==>
      || Uses(capacity, calls, k) < Uses(capacity, calls, l)
      || (Uses(capacity, calls, k) == Uses(capacity, calls, l)
          && LastUse(capacity, calls, k) <= LastUse(capacity, calls, l))
  {
    EntryOfRun(capacity, calls, k);
    EntryOfRun(capacity, calls, l);
    if LastUse(capacity, calls, k) < LastUse(capacity, calls, l) {
      TimesOfUses(capacity, calls, k, l);
    } else if LastUse(capacity, calls, l) < LastUse(capacity, calls, k) {
      TimesOfUses(capacity, calls, l, k);
    }
  }

  lemma TimesOfUses(capacity: int, calls: seq<Call>, k: int, l: int)
    requires 0 <= LastUse(capacity, calls, k) < LastUse(capacity, calls, l) <= |calls|
    ensures Run(capacity, calls[..LastUse(capacity, calls, k)]).now
            < Run(capacity, calls[..LastUse(capacity, calls, l)]).now
  {
    var i, j := LastUse(capacity, calls, k), LastUse(capacity, calls, l);
    LastUseIsUse(capacity, calls, k);
    assert calls[..j][..i] == calls[..i];
    ClockGrows(capacity, calls[..j], i);
  }

  /** The key that comes first by number of uses since entered, and among equals by last use. */
  ghost predicate LeastUsed(capacity: int, calls: seq<Call>, victim: int) {
    forall k | k in Run(capacity, calls).entries && k != victim ::
      || Uses(capacity, calls, victim) < Uses(capacity, calls, k)
      || (Uses(capacity, calls, victim) == Uses(capacity, calls, k)
          && LastUse(capacity, calls, victim) < LastUse(capacity, calls, k))
  }

  /** In every run, a key is the rule's victim exactly if it is cached and the calls used it least. */
  lemma VictimOfRun(capacity: int, calls: seq<Call>, victim: int)
    ensures var m := Run(capacity, calls).entries;
      IsVictim(m, victim) <==> victim in m && LeastUsed(capacity, calls, victim)
  {
    var m := Run(capacity, calls).entries;
    if victim in m {
      forall k | k in m
        ensures NotAfter(m[victim], m[k]) <==>
          || k == victim
          || Uses(capacity, calls, victim) < Uses(capacity, calls, k)
          || (Uses(capacity, calls, victim) == Uses(capacity, calls, k)
              && LastUse(capacity, calls, victim) < LastUse(capacity, calls, k))
      {
        OrderOfRun(capacity, calls, victim, k);
        EnteredOfRun(capacity, calls, victim);
        EnteredOfRun(capacity, calls, k);
        LastUseIsUse(capacity, calls, victim);
        LastUseIsUse(capacity, calls, k);
      }
    }
  }

  /** One full cache and a new key: exactly the least used of the cached keys goes. */
  lemma EvictionOfRun(capacity: int, calls: seq<Call>, call: Call)
    requires call.Put? && capacity != 0 && call.key !in Run(capacity, calls).entries
    ensures var m, m' := Run(capacity, calls).entries, Run(capacity, calls + [call]).entries;
      if |m| == capacity
      then exists victim ::
             victim in m && LeastUsed(capacity, calls, victim) && m'.Keys == m.Keys - {victim} + {call.key}
      else m'.Keys == m.Keys + {call.key}
  {
    var m := Run(capacity, calls).entries;
    RunStep(capacity, calls, call);
    if |m| == capacity {
      VictimOfRun(capacity, calls, Victim(m));
      assert Evicted(m, Victim(m)).Keys == m.Keys - {Victim(m)};
    }
  }

  /** No run caches more keys than its capacity allows. */
  lemma {:induction false} RunFits(capacity: int, calls: seq<Call>)
    requires capacity >= 0
    ensures |Run(capacity, calls).entries| <= capacity
  {
    if calls != [] {
      var n := |calls| - 1;
      RunFits(capacity, calls[..n]);
      StepFits(capacity, Run(capacity, calls[..n]), calls[n]);
    }
  }

  lemma StepFits(capacity: int, c: Cache, call: Call)
    requires |c.entries| <= capacity
    ensures |Step(capacity, c, call).entries| <= capacity
  {
    hide IsVictim, Relieved, Entered, Reused;
    var m := c.entries;
    if call.key in m {
      ReusedSize(m, call.key, if call.Put? then call.value else m[call.key].value, c.now);
    } else if call.Put? && capacity > 0 {
      RelievedSize(capacity, m);
      EnteredSize(Relieved(capacity, m), call.key, call.value, c.now);
    }
  }

  lemma RelievedSize(capacity: int, m: Entries)
    requires |m| <= capacity && capacity > 0
    ensures |Relieved(capacity, m)| < capacity
  {
    var rest := Relieved(capacity, m);
    if |m| == capacity {
      assert m.Keys == rest.Keys + {Victim(m)};
      assert |m.Keys| == |rest.Keys| + 1;
    }
  }

  lemma ReusedSize(m: Entries, key: int, value: int, now: nat)
    requires key in m
    ensures |Reused(m, key, value, now)| == |m|
  {
    SameKeys(m, Reused(m, key, value, now));
  }

  lemma EnteredSize(m: Entries, key: int, value: int, now: nat)
    ensures |Entered(m, key, value, now)| <= |m| + 1
  {
    var m' := Entered(m, key, value, now);
    assert m'.Keys == m.Keys + {key};
    assert |m'| == |m'.Keys| && |m| == |m.Keys|;
  }
}
