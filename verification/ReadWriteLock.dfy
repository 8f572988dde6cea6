/**
 The plain meaning of the asynchronous read-write lock of 16-Read-Write-Lock/main.ts: who holds it,
 who waits in line, and how long. A request is known by the order in which it was made.
 */
module ReadWriteLockSpec {
  datatype Request = Request(id: nat, write: bool)

  datatype Lock = Lock(held: set<Request>, queue: seq<Request>, made: nat)

  datatype Event = Acquire(write: bool) | Release(request: Request)

  function Unlocked(): Lock {
    Lock({}, [], 0)
  }

  predicate WriterIn(held: set<Request>) {
    exists r :: r in held && r.write
  }

  predicate WriterQueued(queue: seq<Request>) {
    exists i :: 0 <= i < |queue| && queue[i].write
  }

  /** A reader enters unless a writer holds or waits; a writer enters only a free lock. */
  predicate Admits(l: Lock, write: bool) {
    if write then l.held == {} else !WriterIn(l.held) && !WriterQueued(l.queue)
  }

  /** A free lock goes to the first request in line, and to that one only. */
  function Drained(l: Lock): Lock {
    if l.held == {} && l.queue != [] then Lock({l.queue[0]}, l.queue[1..], l.made) else l
  }

  function Step(l: Lock, e: Event): Lock {
    match e
    case Acquire(write) =>
      var r := Request(l.made, write);
      if Admits(l, write) then Lock(l.held + {r}, l.queue, l.made + 1)
      else Lock(l.held, l.queue + [r], l.made + 1)
    case Release(r) => Drained(Lock(l.held - {r}, l.queue, l.made))
  }

  /** Only a holder releases, so each grant is released once at most. */
  predicate Lawful(l: Lock, e: Event) {
    e.Release? ==> e.request in l.held
  }

  function Run(l: Lock, events: seq<Event>): Lock
    decreases |events|
  {
    if events == [] then l else Run(Step(l, events[0]), events[1..])
  }

  predicate LawfulRun(l: Lock, events: seq<Event>)
    decreases |events|
  {
    events != [] ==> Lawful(l, events[0]) && LawfulRun(Step(l, events[0]), events[1..])
  }

  function Releases(events: seq<Event>): nat {
    if events == [] then 0 else (if events[0].Release? then 1 else 0) + Releases(events[1..])
  }

  // ---------- Safety ----------

  /** A writer holds alone, and nobody waits for a free lock. */
  ghost predicate Safe(l: Lock) {
    && (forall r | r in l.held && r.write :: l.held == {r})
    && (l.queue != [] ==> l.held != {})
    && (forall r | r in l.held :: r.id < l.made)
    && (forall i | 0 <= i < |l.queue| :: l.queue[i].id < l.made && l.queue[i] !in l.held)
    && (forall i, j | 0 <= i < j < |l.queue| :: l.queue[i] != l.queue[j])
  }

  lemma StepSafe(l: Lock, e: Event)
    requires Safe(l) && Lawful(l, e)
    ensures Safe(Step(l, e))
  {
    match e
    case Acquire(write) =>
      assert Request(l.made, write) !in l.held;
    case Release(r) =>
      var freed := Lock(l.held - {r}, l.queue, l.made);
      assert freed.held <= l.held;
  }

  /** Every lawful run stays safe. */
  lemma {:induction false} RunSafe(l: Lock, events: seq<Event>)
    requires Safe(l) && LawfulRun(l, events)
    ensures Safe(Run(l, events))
    decreases |events|
  {
    if events != [] {
      StepSafe(l, events[0]);
      RunSafe(Step(l, events[0]), events[1..]);
    }
  }

  // ---------- Waiting ----------

  /** No reader can slip in before request p: a writer stands right before it, at it or behind it. */
  ghost predicate Shielded(l: Lock, p: nat) {
    || (exists j :: p - 1 <= j < |l.queue| && 0 <= j && l.queue[j].write)
    || (p == 0 && WriterIn(l.held))
  }

  /** A new request changes neither the holders nor the line in front. */
  lemma ShieldedAcquire(l: Lock, p: nat, write: bool)
    requires Safe(l) && p < |l.queue| && Shielded(l, p)
    ensures var after := Step(l, Acquire(write));
      && p < |after.queue| && after.queue[p] == l.queue[p] && after.held == l.held && Shielded(after, p)
  {
    assert !Admits(l, write);
    var after := Step(l, Acquire(write));
    if j :| p - 1 <= j < |l.queue| && 0 <= j && l.queue[j].write {
      assert after.queue[j].write;
    }
  }

  /** A release brings a shielded request closer by exactly one holder or one place. */
  lemma ShieldedRelease(l: Lock, p: nat, r: Request)
    requires Safe(l) && p < |l.queue| && Shielded(l, p) && r in l.held
    ensures var after := Step(l, Release(r));
      if |l.held| + p == 1 then
        l.queue[p] in after.held
      else
        var q := if |l.held| == 1 then p - 1 else p;
        && 0 <= q < |after.queue| && after.queue[q] == l.queue[p]
        && |after.held| + q == |l.held| + p - 1
        && Shielded(after, q)
  {
    var after := Step(l, Release(r));
    var left := l.held - {r};
    assert |left| == |l.held| - 1;
    if left == {} {
      assert |l.held| == 1;
      if p > 0 {
        if j :| p - 1 <= j < |l.queue| && 0 <= j && l.queue[j].write {
          if j == 0 {
            assert l.queue[0] in after.held;
          } else {
            assert after.queue[j - 1].write;
          }
        }
      }
    } else {
      assert !WriterIn(l.held);
    }
  }

  /** Everyone who holds the lock at some point of the run. */
  function Granted(l: Lock, events: seq<Event>): set<Request>
    decreases |events|
  {
    l.held + if events == [] then {} else Granted(Step(l, events[0]), events[1..])
  }

  /**
   A shielded request, so in particular every queued writer, is granted by release number
   holders + position, no sooner and no later, whatever else happens in between.
   */
  lemma {:induction false} GrantedExactly(l: Lock, p: nat, events: seq<Event>)
    requires Safe(l) && p < |l.queue| && Shielded(l, p)
    requires LawfulRun(l, events) && Releases(events) <= |l.held| + p
    ensures Releases(events) < |l.held| + p ==> l.queue[p] in Run(l, events).queue
    ensures Releases(events) == |l.held| + p ==> l.queue[p] in Granted(l, events)
    decreases |events|
  {
    hide Safe, Shielded, Step;
    if events == [] {
      HeldWhileQueued(l);
    } else {
      var after, rest := Step(l, events[0]), events[1..];
      StepSafe(l, events[0]);
      match events[0]
      case Acquire(write) =>
        ShieldedAcquire(l, p, write);
        GrantedExactly(after, p, rest);
      case Release(r) =>
        ShieldedRelease(l, p, r);
        if |l.held| + p == 1 {
          assert Granted(after, rest) >= after.held;
        } else {
          GrantedExactly(after, if |l.held| == 1 then p - 1 else p, rest);
        }
    }
  }

  lemma HeldWhileQueued(l: Lock)
    requires Safe(l)
    ensures l.queue != [] ==> |l.held| > 0
  {
  }

  /** A queued writer is shielded from the moment it queues. */
  lemma WriterShielded(l: Lock, p: nat)
    requires p < |l.queue| && l.queue[p].write
    ensures Shielded(l, p)
  {
  }

  /** A new reader slips in before an exposed head of the line, and then an old one may leave. */
  lemma SlipIn(l: Lock, r: Request)
    requires Safe(l) && l.queue != [] && !Shielded(l, 0) && r in l.held
    ensures var entered := Step(l, Acquire(false));
      var after := Step(entered, Release(r));
      r in entered.held && after.queue == l.queue && !Shielded(after, 0) && Safe(after)
  {
    var reader := Request(l.made, false);
    assert Admits(l, false);
    var entered := Step(l, Acquire(false));
    assert reader in entered.held - {r};
    StepSafe(l, Acquire(false));
    StepSafe(entered, Release(r));
  }

  /** An exposed request further back stays exposed as the line moves. */
  lemma PassOn(l: Lock, p: nat, r: Request)
    requires Safe(l) && 0 < p < |l.queue| && !Shielded(l, p) && r in l.held
    ensures var after, q := Step(l, Release(r)), if l.held == {r} then p - 1 else p;
      q < |after.queue| && after.queue[q] == l.queue[p] && !Shielded(after, q) && Safe(after)
  {
    StepSafe(l, Release(r));
    assert !l.queue[p - 1].write;
    var after := Step(l, Release(r));
    if l.held == {r} {
      assert l.held - {r} == {};
      assert forall j | 0 <= j < |after.queue| :: after.queue[j] == l.queue[j + 1];
    } else {
      assert exists x :: x in l.held && x != r;
    }
  }

  /**
   Without that shield there is no bound at all: some lawful run of any number of releases leaves the
   request, necessarily a reader, in the queue.
   */
  lemma {:induction false} OvertakenForever(l: Lock, p: nat, n: nat)
    requires Safe(l) && p < |l.queue| && !Shielded(l, p)
    ensures exists events ::
      && LawfulRun(l, events) && Releases(events) == n
      && l.queue[p] in Run(l, events).queue
    decreases n
  {
    hide Safe, Shielded, Step;
    if n == 0 {
      assert LawfulRun(l, []) && Releases([]) == 0 && Run(l, []) == l;
    } else {
      HeldWhileQueued(l);
      var r :| r in l.held;
      if p == 0 {
        SlipIn(l, r);
        var entered := Step(l, Acquire(false));
        var after := Step(entered, Release(r));
        OvertakenForever(after, 0, n - 1);
        var rest :| LawfulRun(after, rest) && Releases(rest) == n - 1 && l.queue[0] in Run(after, rest).queue;
        Prefixed(entered, Release(r), rest);
        Prefixed(l, Acquire(false), [Release(r)] + rest);
      } else {
        PassOn(l, p, r);
        var after, q := Step(l, Release(r)), if l.held == {r} then p - 1 else p;
        OvertakenForever(after, q, n - 1);
        var rest :| LawfulRun(after, rest) && Releases(rest) == n - 1 && l.queue[p] in Run(after, rest).queue;
        Prefixed(l, Release(r), rest);
      }
    }
  }

  lemma Prefixed(l: Lock, e: Event, rest: seq<Event>)
    requires Lawful(l, e) && LawfulRun(Step(l, e), rest)
    ensures var events := [e] + rest;
      && LawfulRun(l, events) && Run(l, events) == Run(Step(l, e), rest)
      && Releases(events) == (if e.Release? then 1 else 0) + Releases(rest)
  {
    assert ([e] + rest)[1..] == rest;
  }
}

/**
 The lock itself: two counters, a flag and a queue of closures. A queued closure is the request it
 would grant; running it is `Grant`. Who holds the lock is known only to the specification.
 */
module ReadWriteLocks {
  import opened ReadWriteLockSpec

  /** How many of the queued requests are writers'. */
  function Writers(queue: seq<Request>): nat {
    if queue == [] then 0 else (if queue[0].write then 1 else 0) + Writers(queue[1..])
  }

  lemma {:induction false} WritersPushed(queue: seq<Request>, r: Request)
    ensures Writers(queue + [r]) == Writers(queue) + if r.write then 1 else 0
  {
    if queue == [] {
      assert [r][1..] == [];
    } else {
      assert (queue + [r])[1..] == queue[1..] + [r];
      WritersPushed(queue[1..], r);
    }
  }

  lemma {:induction false} WritersCount(queue: seq<Request>)
    ensures Writers(queue) > 0 <==> WriterQueued(queue)
  {
    if queue != [] {
      WritersCount(queue[1..]);
      if i :| 0 <= i < |queue| && queue[i].write {
        assert i == 0 || queue[1..][i - 1].write;
      }
      if i :| 0 <= i < |queue[1..]| && queue[1..][i].write {
        assert queue[i + 1].write;
      }
    }
  }

  /** Any holders at all: the sole writer, or some readers. */
  lemma HoldersCount(l: Lock)
    requires Safe(l)
    ensures WriterIn(l.held) ==> |l.held| == 1
    ensures l.held == {} <==> |l.held| == 0
  {
    if r :| r in l.held && r.write {
      assert l.held == {r};
    }
  }

  /** Who enters beside whom. */
  lemma Entered(l: Lock, r: Request)
    requires Safe(l) && r.id == l.made
    ensures |l.held + {r}| == |l.held| + 1
    ensures WriterIn(l.held + {r}) == (WriterIn(l.held) || r.write)
  {
    assert r !in l.held;
    if x :| x in l.held && x.write {
      assert x in l.held + {r};
    }
    if r.write {
      assert r in l.held + {r};
    }
  }

  /** Who stays when one leaves. */
  lemma Left(l: Lock, r: Request)
    requires Safe(l) && r in l.held
    ensures |l.held - {r}| == |l.held| - 1
    ensures WriterIn(l.held) == r.write && !WriterIn(l.held - {r})
    ensures r.write ==> |l.held| == 1
  {
    HoldersCount(l);
  }

  // ---------- The code's own steps ----------

  /** The fields of the lock, and what they stand for. */
  datatype Counters = Counters(readers: int, writer: bool, waitingWriters: int, lock: Lock)

  /** A closure runs: its request enters, and its promise is resolved. */
  function LetIn(c: Counters, r: Request): Counters {
    Counters(c.readers + if r.write then 0 else 1, c.writer || r.write, c.waitingWriters - if r.write then 1 else 0,
             c.lock.(held := c.lock.held + {r}))
  }

  /** One queued closure runs if the counters say that the lock is free. */
  function HandedOn(c: Counters): Counters {
    if c.writer || c.readers > 0 || c.lock.queue == [] then c
    else LetIn(c.(lock := c.lock.(queue := c.lock.queue[1..])), c.lock.queue[0])
  }

  function Asked(c: Counters, write: bool): Counters {
    c.(waitingWriters := c.waitingWriters + if write then 1 else 0, lock := c.lock.(made := c.lock.made + 1))
  }

  predicate Enters(c: Counters, write: bool) {
    !c.writer && if write then c.readers == 0 else c.waitingWriters == 0
  }

  /** A release function runs, whether or not its request still holds the lock. */
  function Gone(c: Counters, r: Request): Counters {
    Counters(c.readers - if r.write then 0 else 1, c.writer && !r.write, c.waitingWriters,
             c.lock.(held := c.lock.held - {r}))
  }

  /** One call, lawful or not. */
  function Called(c: Counters, e: Event): Counters {
    match e
    case Acquire(write) =>
      var r, asked := Request(c.lock.made, write), Asked(c, write);
      if Enters(c, write) then LetIn(asked, r)
      else asked.(lock := asked.lock.(queue := asked.lock.queue + [r]))
    case Release(r) => HandedOn(Gone(c, r))
  }

  /** The counters say who holds and who waits. */
  ghost predicate Agrees(c: Counters) {
    && Safe(c.lock) && c.writer == WriterIn(c.lock.held)
    && c.readers == (if c.writer then 0 else |c.lock.held|)
    && c.waitingWriters == Writers(c.lock.queue)
  }

  lemma AcquireAgrees(c: Counters, write: bool)
    requires Agrees(c)
    ensures Enters(c, write) == Admits(c.lock, write)
    ensures Called(c, Acquire(write)).lock == Step(c.lock, Acquire(write)) && Agrees(Called(c, Acquire(write)))
  {
    hide Safe, Writers, WriterIn, WriterQueued;
    var r := Request(c.lock.made, write);
    StepSafe(c.lock, Acquire(write));
    WritersCount(c.lock.queue);
    WritersPushed(c.lock.queue, r);
    HoldersCount(c.lock);
    Entered(c.lock, r);
  }

  lemma ReleaseAgrees(c: Counters, r: Request)
    requires Agrees(c) && r in c.lock.held
    ensures Called(c, Release(r)).lock == Step(c.lock, Release(r)) && Agrees(Called(c, Release(r)))
  {
    hide Safe, WriterIn;
    StepSafe(c.lock, Release(r));
    Left(c.lock, r);
    if c.lock.held == {r} && c.lock.queue != [] {
      OneHolder(c.lock.queue[0]);
    }
  }

  lemma OneHolder(r: Request)
    ensures |{r}| == 1 && WriterIn({r}) == r.write
  {
    assert r in {r};
  }

  /** Lawful calls keep the counters right, so the code's step is the plain one. */
  lemma CalledAgrees(c: Counters, e: Event)
    requires Agrees(c) && Lawful(c.lock, e)
    ensures Called(c, e).lock == Step(c.lock, e) && Agrees(Called(c, e))
  {
    match e
    case Acquire(write) => AcquireAgrees(c, write);
    case Release(r) => ReleaseAgrees(c, r);
  }

  // ---------- Releases called again ----------

  function CallRun(c: Counters, events: seq<Event>): Counters
    decreases |events|
  {
    if events == [] then c else CallRun(Called(c, events[0]), events[1..])
  }

  predicate LawfulCalls(c: Counters, events: seq<Event>)
    decreases |events|
  {
    events != [] ==> Lawful(c.lock, events[0]) && LawfulCalls(Called(c, events[0]), events[1..])
  }

  /** A writer holds the lock alone. */
  ghost predicate Exclusive(l: Lock) {
    forall r | r in l.held && r.write :: l.held == {r}
  }

  /** Some lawful calls from here on lead to a writer beside another holder. */
  ghost predicate CanBreak(c: Counters) {
    exists events :: LawfulCalls(c, events) && !Exclusive(CallRun(c, events).lock)
  }

  /** As long as the counters are right, lawful calls keep writers alone. */
  lemma {:induction false} NeverBreaks(c: Counters, events: seq<Event>)
    requires Agrees(c) && LawfulCalls(c, events)
    ensures Exclusive(CallRun(c, events).lock)
    decreases |events|
  {
    if events != [] {
      CalledAgrees(c, events[0]);
      NeverBreaks(Called(c, events[0]), events[1..]);
    }
  }

  lemma BreaksNow(c: Counters)
    requires !Exclusive(c.lock)
    ensures CanBreak(c)
  {
    assert LawfulCalls(c, []) && CallRun(c, []) == c;
  }

  lemma BreaksAfter(c: Counters, e: Event)
    requires Lawful(c.lock, e) && CanBreak(Called(c, e))
    ensures CanBreak(c)
  {
    var rest :| LawfulCalls(Called(c, e), rest) && !Exclusive(CallRun(Called(c, e), rest).lock);
    var events := [e] + rest;
    assert events[1..] == rest;
    assert LawfulCalls(c, events) && CallRun(c, events) == CallRun(Called(c, e), rest);
  }

  /** All is right but that `readers` is one below the number of readers. */
  ghost predicate Deficit(c: Counters) {
    Agrees(c.(readers := c.readers + 1))
  }

  /** Where the count says nobody reads, a writer enters beside the one reader there is. */
  lemma WriterSlipsIn(c: Counters)
    requires Deficit(c) && !c.writer && |c.lock.held| == 1
    ensures CanBreak(c)
  {
    var w, after := Request(c.lock.made, true), Called(c, Acquire(true));
    var r :| r in c.lock.held;
    assert w in after.lock.held && r in after.lock.held && r != w;
    BreaksNow(after);
    BreaksAfter(c, Acquire(true));
  }

  /** A free lock with the count at -1 lets a reader in, and then a writer. */
  lemma FreeBreaks(c: Counters)
    requires Deficit(c) && c.lock.held == {}
    ensures CanBreak(c)
  {
    var r, after := Request(c.lock.made, false), Called(c, Acquire(false));
    assert after.lock.held == {r};
    OneHolder(r);
    WriterSlipsIn(after);
    BreaksAfter(c, Acquire(false));
  }

  /** Handing on too early lets a writer in beside a reader, or keeps the deficit with a shorter queue. */
  lemma HandOnKeepsDeficit(c: Counters)
    requires Deficit(c) && c.lock.held != {}
    ensures !Exclusive(HandedOn(c).lock) || Deficit(HandedOn(c))
    ensures HandedOn(c) == c || (|HandedOn(c).lock.queue| == |c.lock.queue| - 1
                                 && |HandedOn(c).lock.held| == |c.lock.held| + 1 == 2)
  {
    HoldersCount(c.lock);
    if !c.writer && c.readers <= 0 && c.lock.queue != [] {
      var head, after := c.lock.queue[0], HandedOn(c);
      var r :| r in c.lock.held;
      assert head in after.lock.held && r in after.lock.held && r != head;
      if !head.write {
        JoinsReaders(c.lock.held, head);
      }
    }
  }

  lemma JoinsReaders(held: set<Request>, r: Request)
    requires !WriterIn(held) && !r.write && r !in held
    ensures !WriterIn(held + {r}) && |held + {r}| == |held| + 1
  {
  }

  /** Lawful releases use up the holders and the queue until a writer stands beside a reader. */
  lemma {:induction false} DeficitBreaks(c: Counters)
    requires Deficit(c)
    ensures CanBreak(c)
    decreases 2 * |c.lock.queue| + |c.lock.held|
  {
    HoldersCount(c.lock);
    if c.lock.held == {} {
      FreeBreaks(c);
    } else if c.writer {
      WriterLeavesDeficit(c);
      var w :| w in c.lock.held;
      DeficitBreaks(Called(c, Release(w)));
      BreaksAfter(c, Release(w));
    } else if |c.lock.held| == 1 {
      WriterSlipsIn(c);
    } else {
      var r :| r in c.lock.held;
      ReaderLeavesDeficit(c, r);
      var after := Called(c, Release(r));
      if Exclusive(after.lock) {
        DeficitBreaks(after);
      } else {
        BreaksNow(after);
      }
      BreaksAfter(c, Release(r));
    }
  }

  /** The writer's lawful release keeps the deficit. */
  lemma WriterLeavesDeficit(c: Counters)
    requires Deficit(c) && c.writer
    ensures forall w | w in c.lock.held ::
      var after := Called(c, Release(w));
      Deficit(after) && 2 * |after.lock.queue| + |after.lock.held| < 2 * |c.lock.queue| + |c.lock.held|
  {
    HoldersCount(c.lock);
    forall w | w in c.lock.held
      ensures var after := Called(c, Release(w));
        Deficit(after) && 2 * |after.lock.queue| + |after.lock.held| < 2 * |c.lock.queue| + |c.lock.held|
    {
      assert c.lock.held == {w};
      assert c.lock.held - {w} == {};
      if c.lock.queue != [] {
        OneHolder(c.lock.queue[0]);
      }
    }
  }

  /** A reader's lawful release keeps the deficit, or lets a writer in beside another reader. */
  lemma ReaderLeavesDeficit(c: Counters, r: Request)
    requires Deficit(c) && !c.writer && r in c.lock.held && |c.lock.held| > 1
    ensures var after := Called(c, Release(r));
      && (!Exclusive(after.lock) || Deficit(after))
      && 2 * |after.lock.queue| + |after.lock.held| < 2 * |c.lock.queue| + |c.lock.held|
  {
    hide Safe;
    Left(c.lock, r);
    StaysSafe(c.lock, r);
    var left := Gone(c, r);
    assert Deficit(left);
    HandOnKeepsDeficit(left);
  }

  lemma StaysSafe(l: Lock, r: Request)
    requires Safe(l) && r in l.held && |l.held| > 1
    ensures Safe(l.(held := l.held - {r})) && !r.write && l.held - {r} != {}
  {
    assert |l.held - {r}| == |l.held| - 1;
  }

  /**
   A release called again does no harm if it is a writer's and no writer holds the lock; any other one
   can be followed by lawful calls alone that lead to a writer beside another holder.
   */
  lemma RepeatedReleaseExactly(c: Counters, r: Request)
    requires Agrees(c) && r !in c.lock.held && r !in c.lock.queue
    ensures CanBreak(Called(c, Release(r))) <==> !r.write || c.writer
    ensures r.write && !c.writer ==> Called(c, Release(r)) == c
  {
    var after := Called(c, Release(r));
    assert c.lock.held - {r} == c.lock.held;
    if !r.write {
      ReaderAgainBreaks(c, r);
    } else if c.writer {
      WriterAgainBreaks(c, r);
    } else {
      HoldersCount(c.lock);
      assert after == c;
      forall events | LawfulCalls(c, events) ensures Exclusive(CallRun(c, events).lock) {
        NeverBreaks(c, events);
      }
    }
  }

  lemma ReaderAgainBreaks(c: Counters, r: Request)
    requires Agrees(c) && r !in c.lock.held && !r.write
    ensures CanBreak(Called(c, Release(r)))
  {
    var left := Gone(c, r);
    assert left.lock.held == c.lock.held && Deficit(left);
    if c.lock.held == {} {
      DeficitBreaks(left);
    } else {
      HandOnKeepsDeficit(left);
      if Exclusive(HandedOn(left).lock) {
        DeficitBreaks(HandedOn(left));
      } else {
        BreaksNow(HandedOn(left));
      }
    }
  }

  lemma WriterAgainBreaks(c: Counters, r: Request)
    requires Agrees(c) && r !in c.lock.held && r.write && c.writer
    ensures CanBreak(Called(c, Release(r)))
  {
    var after := Called(c, Release(r));
    var w :| w in c.lock.held && w.write;
    if c.lock.queue != [] {
      assert c.lock.queue[0] in after.lock.held && w in after.lock.held;
      BreaksNow(after);
    } else {
      var next, reader := Called(after, Acquire(false)), Request(c.lock.made, false);
      assert reader in next.lock.held && w in next.lock.held && reader != w;
      BreaksNow(next);
      BreaksAfter(after, Acquire(false));
    }
  }

  // ---------- The lock ----------

  class AsyncReadWriteLock {
    var readers: int
    var writer: bool
    var waitingWriters: int
    var queue: seq<Request>
    /** How many requests have been made: it tells their closures apart. */
    var made: nat
    ghost var held: set<Request>

    ghost function State(): Lock
      reads this
    {
      Lock(held, queue, made)
    }

    ghost function Shown(): Counters
      reads this
    {
      Counters(readers, writer, waitingWriters, State())
    }

    ghost predicate Valid()
      reads this
    {
      Agrees(Shown())
    }

    constructor ()
      ensures Valid() && State() == Unlocked()
      ensures Shown() == Counters(0, false, 0, Unlocked())
    {
      readers, writer, waitingWriters, queue, made := 0, false, 0, [], 0;
      held := {};
    }

    /** Enters the lock and resolves the request's promise. */
    method Grant(request: Request)
      modifies `readers, `writer, `waitingWriters, `held
      ensures Shown() == LetIn(old(Shown()), request)
    {
      if request.write {
        waitingWriters := waitingWriters - 1;
        writer := true;
      } else {
        readers := readers + 1;
      }
      held := held + {request};
    }

    method AcquireRead() returns (request: Request, granted: bool)
      modifies this
      ensures request == Request(old(made), false)
      ensures granted == (!old(writer) && old(waitingWriters) == 0)
      ensures granted ==> held == old(held) + {request} && queue == old(queue) && readers == old(readers) + 1
      ensures !granted ==> held == old(held) && queue == old(queue) + [request] && readers == old(readers)
      ensures made == old(made) + 1 && writer == old(writer) && waitingWriters == old(waitingWriters)
      ensures Shown() == Called(old(Shown()), Acquire(false))
      ensures old(Valid()) ==> Valid() && State() == Step(old(State()), Acquire(false))
    {
      hide Agrees, Step;
      CalledAsStep(Shown(), Acquire(false));
      request, granted := Request(made, false), !writer && waitingWriters == 0;
      made := made + 1;
      if granted {
        Grant(request);
      } else {
        queue := queue + [request];
      }
    }

    method AcquireWrite() returns (request: Request, granted: bool)
      modifies this
      ensures request == Request(old(made), true)
      ensures granted == (!old(writer) && old(readers) == 0)
      ensures granted ==>
        held == old(held) + {request} && queue == old(queue) && writer && waitingWriters == old(waitingWriters)
      ensures !granted ==>
        && held == old(held) && queue == old(queue) + [request] && writer == old(writer)
        && waitingWriters == old(waitingWriters) + 1
      ensures made == old(made) + 1 && readers == old(readers)
      ensures Shown() == Called(old(Shown()), Acquire(true))
      ensures old(Valid()) ==> Valid() && State() == Step(old(State()), Acquire(true))
    {
      hide Agrees, Step;
      CalledAsStep(Shown(), Acquire(true));
      request := Request(made, true);
      made := made + 1;
      waitingWriters := waitingWriters + 1;
      granted := !writer && readers == 0;
      if granted {
        Grant(request);
      } else {
        queue := queue + [request];
      }
    }

    /** What a reader's release function does, however often it is called. */
    method ReleaseRead(ghost request: Request)
      requires !request.write
      modifies this
      ensures Shown() == Called(old(Shown()), Release(request))
      ensures old(Valid() && request in held) ==> Valid() && State() == Step(old(State()), Release(request))
      ensures made == old(made)
      ensures old(writer) || old(readers) > 1 || old(queue) == [] ==>
        && held == old(held) - {request} && queue == old(queue) && readers == old(readers) - 1
        && writer == old(writer) && waitingWriters == old(waitingWriters)
      ensures !old(writer) && old(readers) <= 1 && old(queue) != [] ==>
        var next := old(queue)[0];
        && held == old(held) - {request} + {next} && queue == old(queue)[1..] && writer == next.write
        && readers == old(readers) - (if next.write then 1 else 0)
        && waitingWriters == old(waitingWriters) - (if next.write then 1 else 0)
    {
      hide Agrees, Step;
      CalledAsStep(Shown(), Release(request));
      readers := readers - 1;
      held := held - {request};
      Drain();
    }

    /** What a writer's release function does, however often it is called. */
    method ReleaseWrite(ghost request: Request)
      requires request.write
      modifies this
      ensures Shown() == Called(old(Shown()), Release(request))
      ensures old(Valid() && request in held) ==> Valid() && State() == Step(old(State()), Release(request))
      ensures made == old(made)
      ensures old(readers) > 0 || old(queue) == [] ==>
        && held == old(held) - {request} && queue == old(queue) && readers == old(readers)
        && !writer && waitingWriters == old(waitingWriters)
      ensures old(readers) <= 0 && old(queue) != [] ==>
        var next := old(queue)[0];
        && held == old(held) - {request} + {next} && queue == old(queue)[1..] && writer == next.write
        && readers == old(readers) + (if next.write then 0 else 1)
        && waitingWriters == old(waitingWriters) - (if next.write then 1 else 0)
    {
      hide Agrees, Step;
      CalledAsStep(Shown(), Release(request));
      writer := false;
      held := held - {request};
      Drain();
    }

    /** Hands a free lock to the request in front. */
    method Drain()
      modifies this
      ensures Shown() == HandedOn(old(Shown()))
    {
      if writer || readers > 0 || |queue| == 0 {
        return;
      }
      var next := queue[0];
      queue := queue[1..];
      Grant(next);
    }
  }

  lemma CalledAsStep(c: Counters, e: Event)
    ensures Agrees(c) && Lawful(c.lock, e) ==> Called(c, e).lock == Step(c.lock, e) && Agrees(Called(c, e))
  {
    if Agrees(c) && Lawful(c.lock, e) {
      CalledAgrees(c, e);
    }
  }

  /** The mutual exclusion that every lawful history of calls keeps, in the lock's own counters. */
  lemma ExclusionInCounters(lock: AsyncReadWriteLock)
    requires lock.Valid()
    ensures lock.readers >= 0 && lock.waitingWriters >= 0
    ensures lock.writer ==> lock.readers == 0
    ensures lock.queue != [] ==> lock.writer || lock.readers > 0
    ensures lock.waitingWriters > 0 <==> WriterQueued(lock.queue)
  {
    WritersCount(lock.queue);
  }

  /** One such case: a reader that calls its release twice lets a writer in beside another reader. */
  lemma ReleasedTwice()
    ensures var first, second, writer := Request(0, false), Request(1, false), Request(2, true);
      var calls := [Acquire(false), Acquire(false), Release(first), Release(first), Acquire(true)];
      CallRun(Counters(0, false, 0, Unlocked()), calls).lock.held == {second, writer}
  {
    var first, second, writer := Request(0, false), Request(1, false), Request(2, true);
    var calls := [Acquire(false), Acquire(false), Release(first), Release(first), Acquire(true)];
    var c0 := Counters(0, false, 0, Unlocked());
    var c1 := Called(c0, calls[0]);
    var c2 := Called(c1, calls[1]);
    var c3 := Called(c2, calls[2]);
    var c4 := Called(c3, calls[3]);
    var c5 := Called(c4, calls[4]);
    assert CallRun(c4, calls[4..]) == c5;
    assert CallRun(c3, calls[3..]) == c5 by { assert calls[3..][1..] == calls[4..]; }
    assert CallRun(c2, calls[2..]) == c5 by { assert calls[2..][1..] == calls[3..]; }
    assert CallRun(c1, calls[1..]) == c5 by { assert calls[1..][1..] == calls[2..]; }
  }
}
