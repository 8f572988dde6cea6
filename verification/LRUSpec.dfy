/**
 The replacement rule of the LRU cache of 01-LRU-Cache/main.go: the cached pairs from least to most
 recently used. A negative capacity is never reached, so such a cache never evicts.
 */
module LRUSpec {
  datatype Pair = Pair(key: int, value: int)

  datatype Call = Get(key: int) | Put(key: int, value: int)

  predicate Has(items: seq<Pair>, key: int) {
    exists i :: 0 <= i < |items| && items[i].key == key
  }

  ghost predicate Distinct(items: seq<Pair>) {
    forall i, j | 0 <= i < j < |items| :: items[i].key != items[j].key
  }

  function Dropped(items: seq<Pair>, key: int): seq<Pair> {
    if items == [] then []
    else (if items[0].key == key then [] else [items[0]]) + Dropped(items[1..], key)
  }

  /** The value cached for a key, or the -1 that answers a miss. */
  function ValueOf(items: seq<Pair>, key: int): int {
    if items == [] then -1 else if items[0].key == key then items[0].value else ValueOf(items[1..], key)
  }

  /** The key becomes the most recent. */
  function Used(items: seq<Pair>, key: int, value: int): seq<Pair> {
    Dropped(items, key) + [Pair(key, value)]
  }

  function Step(capacity: int, items: seq<Pair>, call: Call): seq<Pair> {
    match call
    case Get(key) => if Has(items, key) then Used(items, key, ValueOf(items, key)) else items
    case Put(key, value) =>
      if Has(items, key) then Used(items, key, value)
      else (if |items| == capacity && items != [] then items[1..] else items) + [Pair(key, value)]
  }

  function Run(capacity: int, calls: seq<Call>): seq<Pair> {
    if calls == [] then [] else Step(capacity, Run(capacity, calls[..|calls| - 1]), calls[|calls| - 1])
  }

  // ---------- Dropping a key ----------

  lemma {:induction false} DroppedMembers(items: seq<Pair>, key: int)
    ensures forall p :: p in Dropped(items, key) <==> p in items && p.key != key
    ensures !Has(items, key) ==> Dropped(items, key) == items
    ensures |Dropped(items, key)| <= |items|
  {
    if items != [] {
      DroppedMembers(items[1..], key);
      assert items == [items[0]] + items[1..];
      if !Has(items, key) {
        assert items[0].key != key;
        assert forall i | 0 <= i < |items[1..]| :: items[1..][i].key == items[i + 1].key;
      }
    }
  }

  lemma {:induction false} DroppedDistinct(items: seq<Pair>, key: int)
    requires Distinct(items)
    ensures Distinct(Dropped(items, key))
  {
    if items != [] {
      DroppedDistinct(items[1..], key);
      DroppedMembers(items[1..], key);
      var rest := Dropped(items[1..], key);
      forall j | 0 <= j < |rest| ensures rest[j].key != items[0].key {
        assert rest[j] in items[1..];
      }
    }
  }

  /** Dropping a cached key takes out exactly its own pair. */
  lemma {:induction false} DroppedAt(items: seq<Pair>, i: nat)
    requires Distinct(items) && i < |items|
    ensures Dropped(items, items[i].key) == items[..i] + items[i + 1..]
    ensures ValueOf(items, items[i].key) == items[i].value
  {
    var key := items[i].key;
    if i == 0 {
      assert forall j | 0 <= j < |items[1..]| :: items[1..][j] == items[j + 1];
      DroppedMembers(items[1..], key);
    } else {
      DroppedAt(items[1..], i - 1);
      assert items[0].key != key;
      assert items[..i] + items[i + 1..] == [items[0]] + (items[1..][..i - 1] + items[1..][i..]);
    }
  }

  lemma {:induction false} MissAnswer(items: seq<Pair>, key: int)
    requires !Has(items, key)
    ensures ValueOf(items, key) == -1
  {
    if items != [] {
      assert items[0].key != key;
      assert forall i | 0 <= i < |items[1..]| :: items[1..][i] == items[i + 1];
      MissAnswer(items[1..], key);
    }
  }

  // ---------- One cache ----------

  /** What holds of every reachable cache. */
  ghost predicate Sound(capacity: int, items: seq<Pair>) {
    Distinct(items) && (capacity >= 0 ==> |items| <= capacity)
  }

  lemma UseSound(capacity: int, items: seq<Pair>, key: int, value: int)
    requires Sound(capacity, items) && Has(items, key)
    ensures Sound(capacity, Used(items, key, value))
  {
    var i :| 0 <= i < |items| && items[i].key == key;
    DroppedAt(items, i);
  }

  lemma NewSound(capacity: int, items: seq<Pair>, p: Pair)
    requires capacity != 0 && Sound(capacity, items) && !Has(items, p.key)
    ensures Sound(capacity, (if |items| == capacity && items != [] then items[1..] else items) + [p])
  {
    var rest := if |items| == capacity && items != [] then items[1..] else items;
    forall i | 0 <= i < |rest| ensures rest[i].key != p.key {
      assert rest[i] in items;
    }
  }

  lemma StepSound(capacity: int, items: seq<Pair>, call: Call)
    requires capacity != 0 || call.Get?
    requires Sound(capacity, items)
    ensures Sound(capacity, Step(capacity, items, call))
  {
    hide Sound, Used;
    if Has(items, call.key) {
      UseSound(capacity, items, call.key, if call.Get? then ValueOf(items, call.key) else call.value);
    } else if call.Put? {
      NewSound(capacity, items, Pair(call.key, call.value));
    }
  }

  lemma {:induction false} RunSound(capacity: int, calls: seq<Call>)
    requires capacity != 0
    ensures Sound(capacity, Run(capacity, calls))
  {
    if calls != [] {
      RunSound(capacity, calls[..|calls| - 1]);
      StepSound(capacity, Run(capacity, calls[..|calls| - 1]), calls[|calls| - 1]);
    }
  }

  lemma RunStep(capacity: int, calls: seq<Call>, call: Call)
    ensures Run(capacity, calls + [call]) == Step(capacity, Run(capacity, calls), call)
  {
    assert (calls + [call])[..|calls|] == calls;
  }

  // ---------- Inclusion ----------

  /** The one list is the other with some pairs left out. */
  ghost predicate Within(small: seq<Pair>, large: seq<Pair>) {
    || small == []
    || (large != [] && small[0] == large[0] && Within(small[1..], large[1..]))
    || (large != [] && Within(small, large[1..]))
  }

  lemma {:induction false} WithinRefl(items: seq<Pair>)
    ensures Within(items, items)
  {
    if items != [] {
      WithinRefl(items[1..]);
    }
  }

  lemma {:induction false} WithinMembers(small: seq<Pair>, large: seq<Pair>)
    requires Within(small, large)
    ensures |small| <= |large|
    ensures forall p | p in small :: p in large
  {
    if small != [] {
      if small[0] == large[0] && Within(small[1..], large[1..]) {
        WithinMembers(small[1..], large[1..]);
        assert forall p | p in small :: p == small[0] || p in small[1..];
      } else {
        WithinMembers(small, large[1..]);
      }
    }
  }

  /** Leaving out the front of the one list. */
  lemma {:induction false} WithinDropFirst(small: seq<Pair>, large: seq<Pair>)
    requires Within(small, large) && small != []
    ensures Within(small[1..], large[1..])
    ensures Within(small[1..], large)
    decreases |large|
  {
    if !(small[0] == large[0] && Within(small[1..], large[1..])) {
      WithinDropFirst(small, large[1..]);
    }
  }

  /** Both grow by the same pair. */
  lemma {:induction false} WithinSnoc(small: seq<Pair>, large: seq<Pair>, p: Pair)
    requires Within(small, large)
    ensures Within(small + [p], large + [p])
  {
    if large == [] {
      WithinRefl([p]);
    } else if small == [] {
      WithinSnoc(small, large[1..], p);
      assert (large + [p])[1..] == large[1..] + [p];
    } else {
      assert (large + [p])[1..] == large[1..] + [p] && (small + [p])[1..] == small[1..] + [p];
      if small[0] == large[0] && Within(small[1..], large[1..]) {
        WithinSnoc(small[1..], large[1..], p);
      } else {
        WithinSnoc(small, large[1..], p);
      }
    }
  }

  /** Both lose the same key. */
  lemma {:induction false} WithinDropped(small: seq<Pair>, large: seq<Pair>, key: int)
    requires Within(small, large)
    ensures Within(Dropped(small, key), Dropped(large, key))
  {
    if small != [] {
      var s, l := Dropped(small[1..], key), Dropped(large[1..], key);
      if small[0] == large[0] && Within(small[1..], large[1..]) {
        WithinDropped(small[1..], large[1..], key);
        if small[0].key != key {
          assert ([small[0]] + s)[1..] == s && ([large[0]] + l)[1..] == l;
        } else {
          assert [] + s == s && [] + l == l;
        }
      } else {
        WithinDropped(small, large[1..], key);
        if large[0].key != key {
          assert ([large[0]] + l)[1..] == l;
        } else {
          assert [] + l == l;
        }
      }
    }
  }

  /** The second capacity is at least the first, or unbounded. */
  predicate AtLeast(small: int, large: int) {
    small > 0 && (large < 0 || small <= large)
  }

  /** What every common trace keeps: the smaller cache is within the larger, and equal until it is full. */
  ghost predicate Included(capacity: int, small: seq<Pair>, large: seq<Pair>) {
    Within(small, large) && (|small| < capacity ==> small == large)
  }

  /** A key cached in the smaller cache is cached in the larger with the same value. */
  lemma SameHit(small: seq<Pair>, large: seq<Pair>, key: int)
    requires Within(small, large) && Distinct(small) && Distinct(large) && Has(small, key)
    ensures Has(large, key) && ValueOf(large, key) == ValueOf(small, key)
  {
    WithinMembers(small, large);
    var i :| 0 <= i < |small| && small[i].key == key;
    assert small[i] in large;
    var j :| 0 <= j < |large| && large[j] == small[i];
    DroppedAt(small, i);
    DroppedAt(large, j);
  }

  lemma StepIncluded(k: int, l: int, small: seq<Pair>, large: seq<Pair>, call: Call)
    requires AtLeast(k, l) && Sound(k, small) && Sound(l, large) && Included(k, small, large)
    ensures Included(k, Step(k, small, call), Step(l, large, call))
  {
    hide Within;
    var key := call.key;
    WithinDropped(small, large, key);
    DroppedMembers(small, key);
    DroppedMembers(large, key);
    if Has(small, key) {
      SameHit(small, large, key);
      IncludedUse(k, small, large, key, if call.Get? then ValueOf(small, key) else call.value);
    } else if Has(large, key) {
      IncludedMiss(k, small, large, call);
    } else {
      IncludedNew(k, l, small, large, call);
    }
  }

  lemma IncludedUse(k: int, small: seq<Pair>, large: seq<Pair>, key: int, value: int)
    requires Included(k, small, large) && Has(small, key) && Distinct(small)
    ensures Included(k, Used(small, key, value), Used(large, key, value))
  {
    hide Within;
    WithinDropped(small, large, key);
    WithinSnoc(Dropped(small, key), Dropped(large, key), Pair(key, value));
    var i :| 0 <= i < |small| && small[i].key == key;
    DroppedAt(small, i);
  }

  lemma {:induction false} WithinLonger(small: seq<Pair>, large: seq<Pair>, p: Pair)
    requires Within(small, large)
    ensures Within(small, large + [p])
  {
    if small != [] {
      assert (large + [p])[1..] == large[1..] + [p];
      if small[0] == large[0] && Within(small[1..], large[1..]) {
        WithinLonger(small[1..], large[1..], p);
      } else {
        WithinLonger(small, large[1..], p);
      }
    }
  }

  /** A key only the larger cache has: the smaller one is full. */
  lemma IncludedMiss(k: int, small: seq<Pair>, large: seq<Pair>, call: Call)
    requires k > 0 && Sound(k, small) && Included(k, small, large)
    requires !Has(small, call.key) && Has(large, call.key)
    ensures Included(k, Step(k, small, call),
                     Used(large, call.key, if call.Get? then ValueOf(large, call.key) else call.value))
  {
    hide Within;
    var p := Pair(call.key, if call.Get? then ValueOf(large, call.key) else call.value);
    var rest := Dropped(large, call.key);
    assert |small| == k;
    WithinDropped(small, large, call.key);
    DroppedMembers(small, call.key);
    if call.Get? {
      WithinLonger(small, rest, p);
    } else {
      WithinDropFirst(small, rest);
      WithinSnoc(small[1..], rest, p);
    }
  }

  /** A key neither cache has. */
  lemma IncludedNew(k: int, l: int, small: seq<Pair>, large: seq<Pair>, call: Call)
    requires AtLeast(k, l) && Sound(k, small) && Sound(l, large) && Included(k, small, large)
    requires !Has(small, call.key) && !Has(large, call.key)
    ensures Included(k, Step(k, small, call), Step(l, large, call))
  {
    hide Within;
    if call.Put? {
      var p := Pair(call.key, call.value);
      WithinMembers(small, large);
      if |small| == k {
        WithinDropFirst(small, large);
        WithinSnoc(small[1..], if |large| == l then large[1..] else large, p);
      } else {
        WithinSnoc(small, large, p);
      }
    }
  }

  /**
   Inclusion: on any common trace the smaller cache's recency list is the larger one's with pairs left
   out, so whatever it answers, the larger cache answers too.
   */
  lemma {:induction false} Inclusion(k: int, l: int, calls: seq<Call>)
    requires AtLeast(k, l)
    ensures Included(k, Run(k, calls), Run(l, calls))
  {
    if calls == [] {
      WithinRefl([]);
    } else {
      var front := calls[..|calls| - 1];
      Inclusion(k, l, front);
      RunSound(k, front);
      RunSound(l, front);
      StepIncluded(k, l, Run(k, front), Run(l, front), calls[|calls| - 1]);
    }
  }

  lemma HitsIncluded(k: int, l: int, calls: seq<Call>, key: int)
    requires AtLeast(k, l) && Has(Run(k, calls), key)
    ensures Has(Run(l, calls), key) && ValueOf(Run(l, calls), key) == ValueOf(Run(k, calls), key)
  {
    Inclusion(k, l, calls);
    RunSound(k, calls);
    RunSound(l, calls);
    SameHit(Run(k, calls), Run(l, calls), key);
  }

  /** How many calls of the trace found their key cached. */
  function Hits(capacity: int, calls: seq<Call>): nat {
    if calls == [] then 0
    else
      var front := calls[..|calls| - 1];
      Hits(capacity, front) + if Has(Run(capacity, front), calls[|calls| - 1].key) then 1 else 0
  }

  /** A larger cache never has fewer hits. */
  lemma {:induction false} HitsGrow(k: int, l: int, calls: seq<Call>)
    requires AtLeast(k, l)
    ensures Hits(k, calls) <= Hits(l, calls)
  {
    if calls != [] {
      var front := calls[..|calls| - 1];
      HitsGrow(k, l, front);
      if Has(Run(k, front), calls[|calls| - 1].key) {
        HitsIncluded(k, l, front, calls[|calls| - 1].key);
      }
    }
  }

  // ---------- Answers and victims ----------

  /** The number of the last call that used the key, by storing it or finding it cached; -1 if none did. */
  function LastUse(capacity: int, calls: seq<Call>, key: int): int {
    if calls == [] then -1
    else
      var front, last := calls[..|calls| - 1], calls[|calls| - 1];
      if last.key == key && (last.Put? || Has(Run(capacity, front), key)) then |front|
      else LastUse(capacity, front, key)
  }

  /** The value last stored for the key; -1 if none was. */
  function LastStored(calls: seq<Call>, key: int): int {
    if calls == [] then -1
    else
      var front, last := calls[..|calls| - 1], calls[|calls| - 1];
      if last.Put? && last.key == key then last.value else LastStored(front, key)
  }

  /** Older uses come first, so the pair in front, which eviction takes, is the least recently used. */
  ghost predicate Ranked(items: seq<Pair>, lastUse: int -> int) {
    forall i, j | 0 <= i < j < |items| :: lastUse(items[i].key) < lastUse(items[j].key)
  }

  lemma {:induction false} LastUseBelow(capacity: int, calls: seq<Call>, key: int)
    ensures LastUse(capacity, calls, key) < |calls|
  {
    if calls != [] {
      LastUseBelow(capacity, calls[..|calls| - 1], key);
    }
  }

  lemma RankedWithout(items: seq<Pair>, i: nat, lastUse: int -> int)
    requires Ranked(items, lastUse) && i < |items|
    ensures Ranked(items[..i] + items[i + 1..], lastUse)
  {
    var rest := items[..i] + items[i + 1..];
    forall a, b | 0 <= a < b < |rest| ensures lastUse(rest[a].key) < lastUse(rest[b].key) {
      var x, y := if a < i then a else a + 1, if b < i then b else b + 1;
      assert rest[a] == items[x] && rest[b] == items[y];
    }
  }

  lemma RankedLast(rest: seq<Pair>, p: Pair, before: int -> int, after: int -> int)
    requires Ranked(rest, before) && forall i | 0 <= i < |rest| :: rest[i].key != p.key
    requires forall k | k != p.key :: after(k) == before(k) < after(p.key)
    ensures Ranked(rest + [p], after)
  {
  }

  /** A use moves its key behind all others. */
  lemma RankedStep(capacity: int, items: seq<Pair>, call: Call, before: int -> int, after: int -> int)
    requires Distinct(items) && Ranked(items, before) && (call.Put? || Has(items, call.key))
    requires forall k | k != call.key :: after(k) == before(k) < after(call.key)
    ensures Ranked(Step(capacity, items, call), after)
  {
    var key := call.key;
    if Has(items, key) {
      var i :| 0 <= i < |items| && items[i].key == key;
      DroppedAt(items, i);
      RankedWithout(items, i, before);
      var value := if call.Get? then items[i].value else call.value;
      RankedLast(items[..i] + items[i + 1..], Pair(key, value), before, after);
    } else {
      var rest := if |items| == capacity && items != [] then items[1..] else items;
      RankedLast(rest, Pair(key, call.value), before, after);
    }
  }

  lemma {:induction false} RecencyOrdered(capacity: int, calls: seq<Call>)
    requires capacity != 0
    ensures Ranked(Run(capacity, calls), k => LastUse(capacity, calls, k))
  {
    if calls != [] {
      var front, call := calls[..|calls| - 1], calls[|calls| - 1];
      var before, after := k => LastUse(capacity, front, k), k => LastUse(capacity, calls, k);
      RecencyOrdered(capacity, front);
      RunSound(capacity, front);
      if call.Put? || Has(Run(capacity, front), call.key) {
        forall k | k != call.key ensures after(k) == before(k) < after(call.key) {
          LastUseBelow(capacity, front, k);
        }
        RankedStep(capacity, Run(capacity, front), call, before, after);
      } else {
        assert forall k :: after(k) == before(k);
      }
    }
  }

  /** A hit answers the value last stored, as a plain map would. */
  lemma {:induction false} HitIsLastStored(capacity: int, calls: seq<Call>, p: Pair)
    requires capacity != 0 && p in Run(capacity, calls)
    ensures p.value == LastStored(calls, p.key)
  {
    var front, call := calls[..|calls| - 1], calls[|calls| - 1];
    var items := Run(capacity, front);
    RunSound(capacity, front);
    DroppedMembers(items, call.key);
    if p in items && p.key != call.key {
      HitIsLastStored(capacity, front, p);
    } else if call.Get? && Has(items, call.key) {
      var i :| 0 <= i < |items| && items[i].key == call.key;
      DroppedAt(items, i);
      HitIsLastStored(capacity, front, items[i]);
    }
  }

  // ---------- What each call does to the cached keys ----------

  ghost function Keys(items: seq<Pair>): set<int> {
    set p | p in items :: p.key
  }

  /** The cached key whose last use is the oldest. */
  ghost predicate LeastRecent(capacity: int, calls: seq<Call>, victim: int) {
    && victim in Keys(Run(capacity, calls))
    && forall k | k in Keys(Run(capacity, calls)) && k != victim ::
         LastUse(capacity, calls, victim) < LastUse(capacity, calls, k)
  }

  lemma HasIsKey(items: seq<Pair>, key: int)
    ensures Has(items, key) <==> key in Keys(items)
  {
    if Has(items, key) {
      var i :| 0 <= i < |items| && items[i].key == key;
      assert items[i] in items;
    }
  }

  lemma UsedKeys(items: seq<Pair>, key: int, value: int)
    requires Has(items, key)
    ensures Keys(Used(items, key, value)) == Keys(items)
    ensures Pair(key, value) in Used(items, key, value)
    ensures forall p: Pair | p.key != key :: p in Used(items, key, value) <==> p in items
  {
    DroppedMembers(items, key);
    HasIsKey(items, key);
    var used := Used(items, key, value);
    assert used[|used| - 1] == Pair(key, value);
    forall k ensures k in Keys(used) <==> k in Keys(items) {
      if k in Keys(items) && k != key {
        var p :| p in items && p.key == k;
        assert p in used;
      }
    }
  }

  lemma AddedKeys(items: seq<Pair>, p: Pair)
    ensures Keys(items + [p]) == Keys(items) + {p.key}
    ensures forall q :: q in items + [p] <==> q in items || q == p
  {
    var longer := items + [p];
    assert longer[|items|] == p;
    assert forall q :: q in longer <==> q in items || q == p;
  }

  lemma TailKeys(items: seq<Pair>)
    requires Distinct(items) && items != []
    ensures Keys(items[1..]) == Keys(items) - {items[0].key}
  {
    forall k ensures k in Keys(items[1..]) <==> k in Keys(items) && k != items[0].key {
      if k in Keys(items) && k != items[0].key {
        var p :| p in items && p.key == k;
        assert p in items[1..];
      }
    }
  }

  /** The front of the list is what a full cache gives up. */
  lemma FrontLeastRecent(capacity: int, calls: seq<Call>)
    requires capacity != 0 && Run(capacity, calls) != []
    ensures LeastRecent(capacity, calls, Run(capacity, calls)[0].key)
  {
    var items := Run(capacity, calls);
    RecencyOrdered(capacity, calls);
    var lastUse := k => LastUse(capacity, calls, k);
    assert items[0] in items;
    forall k | k in Keys(items) && k != items[0].key ensures lastUse(items[0].key) < lastUse(k) {
      var i :| 0 <= i < |items| && items[i].key == k;
    }
  }

  /**
   In every run a put leaves its pair cached and every other value as it was. A new key takes the place
   of exactly the least recently used one if the cache is full, and of none otherwise.
   */
  lemma PutOfRun(capacity: int, calls: seq<Call>, key: int, value: int)
    requires capacity != 0
    ensures var before, after := Run(capacity, calls), Run(capacity, calls + [Put(key, value)]);
      && Pair(key, value) in after
      && (forall p | p in after && p.key != key :: p in before)
      && if key in Keys(before) then Keys(after) == Keys(before)
         else if |before| != capacity then Keys(after) == Keys(before) + {key}
         else exists victim ::
                LeastRecent(capacity, calls, victim) && Keys(after) == Keys(before) - {victim} + {key}
  {
    hide LeastRecent, Keys, Has, Used, LastUse;
    var items := Run(capacity, calls);
    RunSound(capacity, calls);
    RunStep(capacity, calls, Put(key, value));
    HasIsKey(items, key);
    if Has(items, key) {
      UsedKeys(items, key, value);
    } else if |items| == capacity {
      FrontLeastRecent(capacity, calls);
      TailKeys(items);
      AddedKeys(items[1..], Pair(key, value));
    } else {
      AddedKeys(items, Pair(key, value));
    }
  }

  /** A get changes nothing but the order of the pairs. */
  lemma GetOfRun(capacity: int, calls: seq<Call>, key: int)
    requires capacity != 0
    ensures forall p :: p in Run(capacity, calls + [Get(key)]) <==> p in Run(capacity, calls)
  {
    hide Used;
    var items := Run(capacity, calls);
    RunSound(capacity, calls);
    RunStep(capacity, calls, Get(key));
    if Has(items, key) {
      UsedKeys(items, key, ValueOf(items, key));
      var i :| 0 <= i < |items| && items[i].key == key;
      DroppedAt(items, i);
      OnePair(items, i, Used(items, key, items[i].value));
    }
  }

  /** A key's pair is told by the key. */
  lemma OnePair(items: seq<Pair>, i: nat, used: seq<Pair>)
    requires Distinct(items) && i < |items| && used == Used(items, items[i].key, items[i].value)
    ensures forall p: Pair | p.key == items[i].key :: p in used <==> p in items
  {
    DroppedMembers(items, items[i].key);
    assert items[i] in items;
  }
}
