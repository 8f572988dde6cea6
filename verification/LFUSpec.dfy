/**
 The LFU cache of 02-LFU-Cache/main.go on values: frequency buckets ordered by recency, next to the
 rule they implement, which evicts a key of least frequency and, among those, of oldest last touch.
 */
module LFUSpec {

  // ---------- The rule ----------

  datatype Entry = Entry(value: int, freq: nat, touched: nat)

  /** What is cached, with each key's use count and the time of its last use. */
  type Entries = map<int, Entry>

  /** `a` would be evicted no later than `b`. */
  ghost predicate NotAfter(a: Entry, b: Entry) {
    a.freq < b.freq || (a.freq == b.freq && a.touched <= b.touched)
  }

  /** The key that minimises frequency, then time of last use, over all cached keys. */
  ghost predicate IsVictim(m: Entries, k: int) {
    k in m && forall k' | k' in m :: NotAfter(m[k], m[k'])
  }

  /** Every cached key has been used at least once, by the call that cached it. */
  ghost predicate Counted(m: Entries) {
    forall k | k in m :: m[k].freq >= 1
  }

  /** A use of a cached key at time `now`, which may leave another value behind. */
  ghost function Reused(m: Entries, key: int, value: int, now: nat): Entries
    requires key in m
  {
    m[key := Entry(value, m[key].freq + 1, now)]
  }

  ghost function Entered(m: Entries, key: int, value: int, now: nat): Entries {
    m[key := Entry(value, 1, now)]
  }

  ghost function Evicted(m: Entries, key: int): Entries {
    m - {key}
  }

  ghost function Stored(m: Entries, key: int, value: int): Entries
    requires key in m
  {
    m[key := m[key].(value := value)]
  }

  // ---------- The buckets ----------

  datatype Item = Item(key: int, value: int, touched: nat)

  type Buckets = map<nat, seq<Item>>

  /** The buckets hold exactly the entries of `m`, each under its frequency. */
  ghost predicate Represents(b: Buckets, m: Entries) {
    && (forall f, i | f in b && 0 <= i < |b[f]| ::
          b[f][i].key in m && m[b[f][i].key] == Entry(b[f][i].value, f, b[f][i].touched))
    && (forall k | k in m :: m[k].freq in b && Has(b[m[k].freq], k))
  }

  ghost predicate Has(items: seq<Item>, key: int) {
    exists i :: 0 <= i < |items| && items[i].key == key
  }

  /** Most recently used first, all used before `now`. */
  ghost predicate ByRecency(items: seq<Item>, now: nat) {
    && (forall i, j | 0 <= i < j < |items| :: items[i].touched > items[j].touched)
    && (forall i | 0 <= i < |items| :: items[i].touched < now)
  }

  ghost predicate Ordered(b: Buckets, now: nat) {
    forall f | f in b :: ByRecency(b[f], now)
  }

  /** `low` is the least occupied frequency, unless nothing is cached. */
  ghost predicate Least(b: Buckets, m: Entries, low: nat) {
    m != map[] ==> low in b && b[low] != [] && forall k | k in m :: low <= m[k].freq
  }

  ghost predicate Inv(b: Buckets, m: Entries, low: nat, now: nat) {
    Represents(b, m) && Ordered(b, now) && Least(b, m, low) && Counted(m)
  }

  // ---------- Edits ----------

  ghost function Without(items: seq<Item>, i: nat): seq<Item>
    requires i < |items|
  {
    items[..i] + items[i + 1..]
  }

  ghost function Bucket(b: Buckets, f: nat): seq<Item> {
    if f in b then b[f] else []
  }

  lemma WithoutHas(items: seq<Item>, i: nat, k: int)
    requires i < |items| && Has(items, k) && items[i].key != k
    ensures Has(Without(items, i), k)
  {
    var j :| 0 <= j < |items| && items[j].key == k;
    assert Without(items, i)[if j < i then j else j - 1].key == k;
  }

  /** Within one bucket a key occurs once. */
  lemma KeyOnce(b: Buckets, m: Entries, now: nat, f: nat, i: nat, j: nat)
    requires Represents(b, m) && Ordered(b, now) && f in b && i < |b[f]| && j < |b[f]|
    ensures b[f][i].key == b[f][j].key ==> i == j
  {
    assert ByRecency(b[f], now);
    assert b[f][i].touched != b[f][j].touched || i == j;
  }

  /** The order of last uses does not mind a gap. */
  lemma RemoveOrdered(b: Buckets, now: nat, f: nat, i: nat)
    requires Ordered(b, now) && f in b && i < |b[f]|
    ensures Ordered(b[f := Without(b[f], i)], now)
  {
    assert ByRecency(b[f], now);
    var rest := Without(b[f], i);
    assert forall j | 0 <= j < |rest| :: rest[j] == b[f][if j < i then j else j + 1];
  }

  /** Taking an item out of its bucket takes its key out of the entries. */
  lemma RemoveKeeps(b: Buckets, m: Entries, now: nat, f: nat, i: nat)
    requires Represents(b, m) && Ordered(b, now) && f in b && i < |b[f]|
    ensures Represents(b[f := Without(b[f], i)], m - {b[f][i].key})
    ensures Ordered(b[f := Without(b[f], i)], now)
  {
    RemoveOrdered(b, now, f, i);
    hide ByRecency, Ordered;
    var key := b[f][i].key;
    var b': Buckets, m': Entries := b[f := Without(b[f], i)], m - {key};
    forall g, j | g in b' && 0 <= j < |b'[g]|
      ensures b'[g][j].key in m' && m'[b'[g][j].key] == Entry(b'[g][j].value, g, b'[g][j].touched)
    {
      if g == f {
        KeyOnce(b, m, now, f, i, if j < i then j else j + 1);
      }
    }
    forall k | k in m' ensures m'[k].freq in b' && Has(b'[m'[k].freq], k) {
      if m[k].freq == f { WithoutHas(b[f], i, k); }
    }
  }

  /** A new item in front, used now, keeps the order of last uses. */
  lemma AddOrdered(b: Buckets, now: nat, f: nat, key: int, value: int)
    requires Ordered(b, now)
    ensures Ordered(b[f := [Item(key, value, now)] + Bucket(b, f)], now + 1)
  {
    var b' := b[f := [Item(key, value, now)] + Bucket(b, f)];
    forall g | g in b' ensures ByRecency(b'[g], now + 1) {
      assert g in b ==> ByRecency(b[g], now);
      if g == f {
        AddRecent(Bucket(b, f), Item(key, value, now), now);
      }
    }
  }

  lemma AddRecent(items: seq<Item>, x: Item, now: nat)
    requires ByRecency(items, now) && x.touched == now
    ensures ByRecency([x] + items, now + 1)
  {
  }

  lemma FirstHas(x: Item, items: seq<Item>, key: int)
    ensures Has([x] + items, key) <==> x.key == key || Has(items, key)
  {
    if x.key == key {
      assert ([x] + items)[0].key == key;
    } else if j :| 0 <= j < |items| && items[j].key == key {
      assert ([x] + items)[j + 1].key == key;
    }
  }

  lemma AddRepresents(b: Buckets, m: Entries, now: nat, f: nat, key: int, value: int)
    requires Represents(b, m) && key !in m
    ensures Represents(b[f := [Item(key, value, now)] + Bucket(b, f)], m[key := Entry(value, f, now)])
  {
    hide Has;
    var b': Buckets, m': Entries :=
      b[f := [Item(key, value, now)] + Bucket(b, f)], m[key := Entry(value, f, now)];
    forall k | k in m' ensures m'[k].freq in b' && Has(b'[m'[k].freq], k) {
      FirstHas(Item(key, value, now), Bucket(b, f), k);
    }
  }

  /** Putting a key not cached yet at the head of a bucket. */
  lemma AddKeeps(b: Buckets, m: Entries, now: nat, f: nat, key: int, value: int)
    requires Represents(b, m) && Ordered(b, now) && key !in m
    ensures Represents(b[f := [Item(key, value, now)] + Bucket(b, f)], m[key := Entry(value, f, now)])
    ensures Ordered(b[f := [Item(key, value, now)] + Bucket(b, f)], now + 1)
  {
    hide Ordered, Has, ByRecency;
    AddOrdered(b, now, f, key, value);
    AddRepresents(b, m, now, f, key, value);
  }

  /** The last item of the least bucket is the one the rule evicts. */
  lemma LastIsVictim(b: Buckets, m: Entries, low: nat, now: nat)
    requires Inv(b, m, low, now) && m != map[]
    ensures low in b && b[low] != [] && IsVictim(m, b[low][|b[low]| - 1].key)
  {
    var items := b[low];
    var last := items[|items| - 1];
    assert ByRecency(items, now);
    forall k | k in m ensures NotAfter(m[last.key], m[k]) {
      if m[k].freq == low {
        var j :| 0 <= j < |items| && items[j].key == k;
      }
    }
  }

  /** A cached key is in its bucket, which tells when it was last used. */
  lemma InBucketOrder(b: Buckets, m: Entries, now: nat, k: int)
    requires Represents(b, m) && Ordered(b, now) && k in m
    ensures m[k].freq in b && Has(b[m[k].freq], k) && ByRecency(b[m[k].freq], now)
    ensures var items := b[m[k].freq];
      forall i | 0 <= i < |items| :: items[i].key in m && m[items[i].key].touched == items[i].touched
  {
  }

  /** No two keys of a bucket were last used at the same time. */
  lemma OneUse(items: seq<Item>, m: Entries, now: nat, k: int, l: int)
    requires ByRecency(items, now) && Has(items, k) && Has(items, l) && k in m && l in m
    requires forall i | 0 <= i < |items| :: items[i].key in m && m[items[i].key].touched == items[i].touched
    requires m[k].touched == m[l].touched
    ensures k == l
  {
    var i :| 0 <= i < |items| && items[i].key == k;
    var j :| 0 <= j < |items| && items[j].key == l;
  }

  /** The rule leaves no choice: at most one key can be the victim. */
  lemma VictimUnique(b: Buckets, m: Entries, low: nat, now: nat, k: int, l: int)
    requires Inv(b, m, low, now) && IsVictim(m, k) && IsVictim(m, l)
    ensures k == l
  {
    hide Ordered, Least, Counted, Represents, Has;
    assert NotAfter(m[k], m[l]) && NotAfter(m[l], m[k]);
    InBucketOrder(b, m, now, k);
    InBucketOrder(b, m, now, l);
    OneUse(b[m[k].freq], m, now, k, l);
  }

  /** The buckets after a use of the item at `f`, `i`. */
  ghost function UsedBuckets(b: Buckets, f: nat, i: nat, value: int, now: nat): Buckets
    requires f in b && i < |b[f]|
  {
    var b1 := b[f := Without(b[f], i)];
    b1[f + 1 := [Item(b[f][i].key, value, now)] + Bucket(b1, f + 1)]
  }

  ghost function EnteredBuckets(b: Buckets, key: int, value: int, now: nat): Buckets {
    b[1 := [Item(key, value, now)] + Bucket(b, 1)]
  }

  /** The buckets without the last item of the least one. */
  ghost function EvictedBuckets(b: Buckets, low: nat): Buckets
    requires low in b && b[low] != []
  {
    b[low := b[low][..|b[low]| - 1]]
  }

  ghost function StoredBuckets(b: Buckets, f: nat, i: nat, value: int): Buckets
    requires f in b && i < |b[f]|
  {
    b[f := b[f][i := b[f][i].(value := value)]]
  }

  lemma UnfoldInv(b: Buckets, m: Entries, low: nat, now: nat)
    requires Inv(b, m, low, now)
    ensures Represents(b, m) && Ordered(b, now) && Least(b, m, low) && Counted(m)
  {
  }

  lemma FoldInv(b: Buckets, m: Entries, low: nat, now: nat)
    requires Represents(b, m) && Ordered(b, now) && Least(b, m, low) && Counted(m)
    ensures Inv(b, m, low, now)
  {
  }

  /** What a use of the item at `f`, `i` does to the buckets, the entries and the least frequency. */
  lemma UseKeeps(b: Buckets, m: Entries, low: nat, now: nat, f: nat, i: nat, key: int, value: int)
    requires Inv(b, m, low, now) && f in b && i < |b[f]| && key == b[f][i].key
    ensures key in m && m[key].freq == f
    ensures Inv(UsedBuckets(b, f, i, value, now), Reused(m, key, value, now),
                if f == low && |b[f]| == 1 then low + 1 else low, now + 1)
    ensures Reused(m, key, value, now).Keys == m.Keys && |Reused(m, key, value, now)| == |m|
  {
    hide Represents, Ordered, Least, ByRecency, Has, Counted, Without;
    var b1: Buckets, m1: Entries := b[f := Without(b[f], i)], m - {key};
    InItsBucket(b, m, f, i);
    RemoveKeeps(b, m, now, f, i);
    LeastAfterUse(b, m, low, now, f, i, key, value);
    SameKeys(m, Reused(m, key, value, now));
    AddKeeps(b1, m1, now, f + 1, key, value);
    assert Reused(m, key, value, now) == m1[key := Entry(value, f + 1, now)];
    ReusedCounted(m, key, value, now);
  }

  lemma ReusedCounted(m: Entries, key: int, value: int, now: nat)
    requires Counted(m) && key in m
    ensures Counted(Reused(m, key, value, now))
  {
  }

  lemma SameKeys(m: Entries, m': Entries)
    requires m.Keys == m'.Keys
    ensures |m| == |m'|
  {
    assert |m| == |m.Keys| && |m'| == |m'.Keys|;
  }

  lemma LeastAfterUse(b: Buckets, m: Entries, low: nat, now: nat, f: nat, i: nat, key: int, value: int)
    requires Inv(b, m, low, now) && f in b && i < |b[f]| && key == b[f][i].key
    ensures key in m
    ensures Least(UsedBuckets(b, f, i, value, now), Reused(m, key, value, now),
                  if f == low && |b[f]| == 1 then low + 1 else low)
  {
    InItsBucket(b, m, f, i);
    if f == low && |b[f]| == 1 {
      OthersAbove(b, m, low, key);
    }
    hide Represents, Ordered;
    assert f >= low;
  }

  lemma InItsBucket(b: Buckets, m: Entries, f: nat, i: nat)
    requires Represents(b, m) && f in b && i < |b[f]|
    ensures b[f][i].key in m && m[b[f][i].key].freq == f
  {
  }

  /** The only item of the least bucket is the only key of that frequency. */
  lemma OthersAbove(b: Buckets, m: Entries, low: nat, key: int)
    requires Represents(b, m) && Least(b, m, low) && low in b && |b[low]| == 1 && b[low][0].key == key
    ensures forall k | k in m && k != key :: low + 1 <= m[k].freq
  {
    forall k | k in m && m[k].freq == low ensures k == key {
      assert Has(b[low], k);
    }
  }

  /** What evicting the rule's victim does. */
  lemma EvictKeeps(b: Buckets, m: Entries, low: nat, now: nat, victim: int)
    requires Inv(b, m, low, now) && m != map[]
    requires low in b && b[low] != [] && victim == b[low][|b[low]| - 1].key
    ensures Represents(EvictedBuckets(b, low), Evicted(m, victim)) && Ordered(EvictedBuckets(b, low), now)
    ensures victim in m && Counted(Evicted(m, victim))
    ensures Evicted(m, victim).Keys == m.Keys - {victim} && |Evicted(m, victim)| == |m| - 1
  {
    var items := b[low];
    assert Without(items, |items| - 1) == items[..|items| - 1];
    RemoveKeeps(b, m, now, low, |items| - 1);
    assert Evicted(m, victim).Keys == m.Keys - {victim};
  }

  /** Evicting the last item of the least bucket evicts what the rule says. */
  lemma EvictionSpec(b: Buckets, m: Entries, low: nat, now: nat)
    requires Inv(b, m, low, now) && |m| > 0
    ensures low in b && b[low] != []
    ensures var victim := b[low][|b[low]| - 1].key;
      && IsVictim(m, victim)
      && Represents(EvictedBuckets(b, low), Evicted(m, victim)) && Ordered(EvictedBuckets(b, low), now)
      && Counted(Evicted(m, victim))
      && Evicted(m, victim).Keys == m.Keys - {victim} && |Evicted(m, victim)| == |m| - 1
  {
    LastIsVictim(b, m, low, now);
    EvictKeeps(b, m, low, now, b[low][|b[low]| - 1].key);
  }

  lemma EnteredLeast(b: Buckets, m: Entries, now: nat, key: int, value: int)
    requires Counted(m)
    ensures Least(EnteredBuckets(b, key, value, now), Entered(m, key, value, now), 1)
    ensures Counted(Entered(m, key, value, now))
  {
  }

  /** A new key enters the bucket of frequency 1, which is then the least. */
  lemma EnterKeeps(b: Buckets, m: Entries, now: nat, key: int, value: int)
    requires Represents(b, m) && Ordered(b, now) && Counted(m) && key !in m
    ensures Inv(EnteredBuckets(b, key, value, now), Entered(m, key, value, now), 1, now + 1)
    ensures Entered(m, key, value, now).Keys == m.Keys + {key} && |Entered(m, key, value, now)| == |m| + 1
  {
    hide Represents, Ordered, ByRecency, Has, Least, Counted;
    AddKeeps(b, m, now, 1, key, value);
    EnteredLeast(b, m, now, key, value);
    assert Entered(m, key, value, now).Keys == m.Keys + {key};
  }

  lemma StoreLeast(b: Buckets, m: Entries, low: nat, f: nat, i: nat, key: int, value: int)
    requires Least(b, m, low) && Counted(m) && f in b && i < |b[f]| && key in m
    ensures Least(StoredBuckets(b, f, i, value), Stored(m, key, value), low)
    ensures Counted(Stored(m, key, value))
  {
  }

  lemma StoreOrdered(b: Buckets, now: nat, f: nat, i: nat, value: int)
    requires Ordered(b, now) && f in b && i < |b[f]|
    ensures Ordered(StoredBuckets(b, f, i, value), now)
  {
    assert ByRecency(b[f], now);
  }

  /** Storing a value under a cached key changes that key's entry and nothing else. */
  lemma StoreKeeps(b: Buckets, m: Entries, low: nat, now: nat, f: nat, i: nat, key: int, value: int)
    requires Inv(b, m, low, now) && f in b && i < |b[f]| && key == b[f][i].key
    ensures key in m && m[key].freq == f
    ensures Inv(StoredBuckets(b, f, i, value), Stored(m, key, value), low, now)
    ensures Stored(m, key, value).Keys == m.Keys && |Stored(m, key, value)| == |m|
  {
    hide Represents, Ordered, ByRecency, Has, Least, Counted;
    InItsBucket(b, m, f, i);
    SameKeys(m, Stored(m, key, value));
    StoreRepresents(b, m, now, f, i, key, value);
    StoreOrdered(b, now, f, i, value);
    StoreLeast(b, m, low, f, i, key, value);
  }

  lemma StoreRepresents(b: Buckets, m: Entries, now: nat, f: nat, i: nat, key: int, value: int)
    requires Represents(b, m) && Ordered(b, now) && f in b && i < |b[f]| && key == b[f][i].key
    ensures key in m && Represents(StoredBuckets(b, f, i, value), Stored(m, key, value))
  {
    hide ByRecency;
    var items := b[f][i := b[f][i].(value := value)];
    var b': Buckets, m': Entries := b[f := items], Stored(m, key, value);
    forall g, j | g in b' && 0 <= j < |b'[g]|
      ensures b'[g][j].key in m' && m'[b'[g][j].key] == Entry(b'[g][j].value, g, b'[g][j].touched)
    {
      if g == f { KeyOnce(b, m, now, f, i, j); }
    }
    forall k | k in m' ensures m'[k].freq in b' && Has(b'[m'[k].freq], k) {
      if m[k].freq == f {
        var j :| 0 <= j < |b[f]| && b[f][j].key == k;
        assert items[j].key == k;
      }
    }
  }

  /** Storing a value and then using the key is one use that leaves the value behind. */
  lemma StoreThenUse(m: Entries, key: int, value: int, now: nat)
    requires key in m
    ensures key in Stored(m, key, value)
    ensures Reused(Stored(m, key, value), key, value, now) == Reused(m, key, value, now)
  {
  }
}
