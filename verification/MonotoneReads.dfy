/** In what order the versions of a configuration are read. */
module MonotoneReads {
  import opened Common
  import opened TenantCache

  /** Versions never decrease from a tier to the one behind it, and the memo holds what was last served. */
  predicate Ordered(s: System) {
    && Usable(s)
    && (s.redis.Some? ==> s.redis.value.version <= Current(s))
    && (forall w :: w in s.fetching ==> s.fetching[w].version <= Current(s))
    && (forall w :: w in s.fetching && w in s.memory ==> s.memory[w].version <= s.fetching[w].version)
    && (forall w :: w in s.memory ==> s.memory[w].version <= Current(s))
    && (forall w :: w in s.memory && s.redis.Some? ==> s.memory[w].version <= s.redis.value.version)
    && (forall wk :: wk in s.memo ==> wk in s.served && s.memo[wk].version == s.served[wk])
    && (forall wk :: wk in s.served ==> wk.0 in s.memory && s.served[wk] <= s.memory[wk.0].version)
  }

  /** The answer being stored is not older than what Redis and the workers hold by then. */
  predicate NotOvertaken(s: System, a: Action) {
    a.Store? && a.w in s.fetching ==>
      && (s.redis.Some? ==> s.redis.value.version <= s.fetching[a.w].version)
      && (forall x :: x in s.memory ==> s.memory[x].version <= s.fetching[a.w].version)
  }

  predicate NeverOvertaken(s: System, run: seq<Action>, latency: real)
    requires CanRun(s, run, latency)
    decreases |run|
  {
    run == [] || (NotOvertaken(s, run[0]) && NeverOvertaken(Next(s, run[0], latency), run[1..], latency))
  }

  /** No read that `next` remembers is older than the one `s` remembers for the same worker and key. */
  predicate ReadsMonotone(s: System, next: System) {
    forall wk :: wk in s.served ==> wk in next.served && s.served[wk] <= next.served[wk]
  }

  lemma ServeIsMonotone(s: System, wk: WK, version: nat)
    requires Ordered(s) && wk.0 in s.memory && s.memory[wk.0].version == version
    requires wk in s.served ==> s.served[wk] <= version
    ensures Ordered(Serve(s, wk, version)) && ReadsMonotone(s, Serve(s, wk, version))
  {
  }

  lemma CopyIsOrdered(s: System, w: Worker, e: Entry)
    requires Ordered(s) && s.redis.Some? && e.version == s.redis.value.version && w !in s.fetching
    ensures Ordered(s.(memory := s.memory[w := e]))
  {
  }

  lemma GetIsMonotone(s: System, w: Worker, k: Key, latency: real)
    requires Ordered(s) && w !in s.fetching
    ensures Ordered(Next(s, Get(w, k), latency)) && ReadsMonotone(s, Next(s, Get(w, k), latency))
  {
    if !MemoValid(s.now, s.memo, (w, k)) {
      match Lookup(s.now, MemoryOf(s, w), s.redis)
      case Memory(m) => ServeIsMonotone(s, (w, k), m.version);
      case Redis(r) =>
        CopyIsOrdered(s, w, r);
        ServeIsMonotone(s.(memory := s.memory[w := r]), (w, k), r.version);
      case Dynamo =>
    }
  }

  lemma StoreIsMonotone(s: System, w: Worker, latency: real)
    requires Ordered(s) && w in s.fetching && NotOvertaken(s, Store(w))
    ensures Ordered(Next(s, Store(w), latency)) && ReadsMonotone(s, Next(s, Store(w), latency))
  {
    var f := s.fetching[w];
    var e := Entry(f.version, s.now.Floor);
    var arrived := s.(redis := Some(e), fetching := s.fetching - {w});
    assert Ordered(arrived);
    if f.key.Some? {
      CopyIsOrdered(arrived, w, e);
      ServeIsMonotone(arrived.(memory := s.memory[w := e]), (w, f.key.value), f.version);
    } else {
      CopyIsOrdered(arrived, w, e.(stamp := 0));
    }
  }

  lemma StepIsMonotone(s: System, a: Action, latency: real)
    requires Ordered(s) && Enabled(s, a, latency) && NotOvertaken(s, a)
    requires Usable(Next(s, a, latency))
    ensures Ordered(Next(s, a, latency)) && ReadsMonotone(s, Next(s, a, latency))
  {
    match a
    case Get(w, k) => GetIsMonotone(s, w, k, latency);
    case Store(w) => StoreIsMonotone(s, w, latency);
    case _ =>
  }

  lemma StepStaysUsable(s: System, a: Action, latency: real)
    requires Usable(s) && Enabled(s, a, latency)
    ensures Usable(Next(s, a, latency))
  {
    if a.Tick? { FloorMonotone(s.now, s.now + a.elapsed); }
  }

  /** MONOTONE READS. In any run in which no fetched answer is stored over a newer one, successive reads by a
      worker of a key never return an older version, however workers interleave, and memory is never ahead of
      Redis nor Redis of DynamoDB. */
  lemma {:induction false} ReadsAreMonotone(s: System, run: seq<Action>, latency: real)
    requires Ordered(s) && CanRun(s, run, latency) && NeverOvertaken(s, run, latency)
    ensures Ordered(After(s, run, latency)) && ReadsMonotone(s, After(s, run, latency))
    decreases |run|
  {
    if run != [] {
      StepStaysUsable(s, run[0], latency);
      StepIsMonotone(s, run[0], latency);
      ReadsAreMonotone(Next(s, run[0], latency), run[1..], latency);
    }
  }

  lemma InitOrdered(s: System)
    requires Init(s)
    ensures Ordered(s)
  {
  }

  // ---- fetches in one step ----

  /** A run in which every fetch is stored before anything else happens. */
  predicate Atomic(s: System, run: seq<Action>, latency: real)
    requires CanRun(s, run, latency)
    decreases |run|
  {
    if run == [] then true
    else
      var next, rest := Next(s, run[0], latency), run[1..];
      if next.fetching == map[] then Atomic(next, rest, latency)
      else
        && (run[0].Get? || run[0].Refresh?) && rest != [] && rest[0] == Store(run[0].w)
        && Atomic(Next(next, rest[0], latency), rest[1..], latency)
  }

  /** An answer stored as soon as it is read is not older than what any tier holds. */
  lemma ImmediateStoreIsNotOvertaken(s: System, a: Action, latency: real)
    requires Ordered(s) && s.fetching == map[] && Enabled(s, a, latency) && (a.Get? || a.Refresh?)
    requires Next(s, a, latency).fetching != map[]
    ensures NotOvertaken(Next(s, a, latency), Store(a.w))
    ensures a.w in Next(s, a, latency).fetching
    ensures Next(Next(s, a, latency), Store(a.w), latency).fetching == map[]
  {
  }

  lemma {:induction false} AtomicIsNeverOvertaken(s: System, run: seq<Action>, latency: real)
    requires Ordered(s) && s.fetching == map[] && CanRun(s, run, latency) && Atomic(s, run, latency)
    ensures NeverOvertaken(s, run, latency)
    ensures Ordered(After(s, run, latency)) && After(s, run, latency).fetching == map[]
    decreases |run|
  {
    if run != [] {
      var a, next := run[0], Next(s, run[0], latency);
      StepStaysUsable(s, a, latency);
      StepIsMonotone(s, a, latency);
      if next.fetching == map[] {
        AtomicIsNeverOvertaken(next, run[1..], latency);
      } else {
        ImmediateStoreIsNotOvertaken(s, a, latency);
        var rest := run[1..];
        StepStaysUsable(next, rest[0], latency);
        StepIsMonotone(next, rest[0], latency);
        AtomicIsNeverOvertaken(Next(next, rest[0], latency), rest[1..], latency);
      }
    }
  }

  /** MONOTONE READS, unconditionally where reading DynamoDB, stamping and storing are one step: from the first
      state on, between any two moments of a run, no read goes back. */
  lemma AtomicReadsAreMonotone(s: System, run: seq<Action>, more: seq<Action>, latency: real)
    requires Init(s) && CanRun(s, run, latency) && Atomic(s, run, latency)
    requires CanRun(After(s, run, latency), more, latency) && Atomic(After(s, run, latency), more, latency)
    ensures var now := After(s, run, latency);
            Ordered(now) && ReadsMonotone(now, After(now, more, latency))
  {
    InitOrdered(s);
    AtomicIsNeverOvertaken(s, run, latency);
    var now := After(s, run, latency);
    AtomicIsNeverOvertaken(now, more, latency);
    ReadsAreMonotone(now, more, latency);
  }

  // ---- a late store ----

  /** Some read of the run returns an older version than the one before it for the same worker and key. */
  predicate GoesBack(s: System, run: seq<Action>, latency: real)
    requires CanRun(s, run, latency)
    decreases |run|
  {
    run != [] && (!ReadsMonotone(s, Next(s, run[0], latency)) || GoesBack(Next(s, run[0], latency), run[1..], latency))
  }

  /** Worker `x` holds a version newer than `e` under an older stamp, and has served it or can still do so. */
  predicate ExposedTo(s: System, e: Entry, x: Worker) {
    && x in s.memory && x !in s.fetching
    && s.memory[x].version > e.version && s.memory[x].stamp < e.stamp
    && (!TooOld(s.now, s.memory[x].stamp) || exists wk :: wk in s.served && wk.0 == x && s.served[wk] > e.version)
  }

  /** What a store puts into Redis. */
  function Stored(s: System, w: Worker): Entry
    requires w in s.fetching
  {
    Entry(s.fetching[w].version, s.now.Floor)
  }

  /** The step stores an answer that exposes some worker. */
  ghost predicate Exposes(s: System, a: Action) {
    a.Store? && a.w in s.fetching && exists x :: ExposedTo(s, Stored(s, a.w), x)
  }

  /** Answers may be stored late, any number of times, but none exposes a worker. */
  ghost predicate NeverExposes(s: System, run: seq<Action>, latency: real)
    requires CanRun(s, run, latency)
    decreases |run|
  {
    run == [] || (!Exposes(s, run[0]) && NeverExposes(Next(s, run[0], latency), run[1..], latency))
  }

  /** The stale entry cannot make `x` go back. */
  predicate Safe(s: System, e: Entry, x: Worker)
    requires x in s.memory
  {
    || s.memory[x].version <= e.version || s.memory[x].stamp >= e.stamp
    || (TooOld(s.now, s.memory[x].stamp) && forall wk :: wk in s.served && wk.0 == x ==> s.served[wk] <= e.version)
  }

  /** What of `Ordered` does not involve Redis. */
  predicate Tidy(s: System) {
    && Usable(s)
    && (forall x :: x in s.memory ==> s.memory[x].version <= Current(s))
    && (forall x :: x in s.fetching ==> s.fetching[x].version <= Current(s))
    && (forall x :: x in s.fetching && x in s.memory ==> s.memory[x].version <= s.fetching[x].version)
    && (forall wk :: wk in s.memo ==> wk in s.served && s.memo[wk].version == s.served[wk])
    && (forall wk :: wk in s.served ==> wk.0 in s.memory && s.served[wk] <= s.memory[wk.0].version)
  }

  /** Redis is not behind the memory of any worker, or it holds `e` and no worker that is behind it can load it. */
  predicate Harmless(s: System, e: Entry)
    requires Usable(s)
  {
    s.redis.Some? ==>
      && s.redis.value.version <= Current(s)
      && (|| (forall x :: x in s.memory ==> s.memory[x].version <= s.redis.value.version)
          || (s.redis.value == e && forall x :: x in s.memory ==> x in s.fetching || Safe(s, e, x)))
  }

  /** A store, however late, serves nothing older than its own worker has read. */
  lemma TidyStore(s: System, w: Worker, latency: real)
    requires Tidy(s) && w in s.fetching
    ensures Tidy(Next(s, Store(w), latency)) && ReadsMonotone(s, Next(s, Store(w), latency))
  {
    var f, next := s.fetching[w], Next(s, Store(w), latency);
    assert w in next.memory && next.memory[w].version == f.version;
    forall x | x in next.memory && x != w ensures x in s.memory && next.memory[x] == s.memory[x] {}
    forall wk | wk in next.served && wk.0 != w ensures wk in s.served && next.served[wk] == s.served[wk] {}
  }

  lemma StoreIsHarmless(s: System, w: Worker, latency: real)
    requires Tidy(s) && w in s.fetching && !Exposes(s, Store(w))
    ensures var next := Next(s, Store(w), latency);
            Tidy(next) && Harmless(next, Stored(s, w))
  {
    var e, next := Stored(s, w), Next(s, Store(w), latency);
    TidyStore(s, w, latency);
    forall x | x in next.memory ensures x in next.fetching || Safe(next, e, x) {
      if x != w && x !in s.fetching {
        assert !ExposedTo(s, e, x);
        SameForOthers(s, next, e, x);
      }
    }
  }

  /** What is safe stays so as long as the worker's own memory and reads are untouched. */
  lemma SameForOthers(s: System, next: System, e: Entry, x: Worker)
    requires x in s.memory && x in next.memory && next.memory[x] == s.memory[x] && s.now <= next.now
    requires forall wk :: wk in next.served && wk.0 == x ==> wk in s.served && s.served[wk] == next.served[wk]
    ensures Safe(s, e, x) ==> Safe(next, e, x)
  {
    FloorMonotone(s.now, next.now);
  }

  /** A read from the worker's own memory. */
  lemma HarmlessServe(s: System, e: Entry, wk: WK)
    requires Tidy(s) && Harmless(s, e) && wk.0 in s.memory && wk.0 !in s.fetching
        && !TooOld(s.now, s.memory[wk.0].stamp)
    ensures var next := Serve(s, wk, s.memory[wk.0].version);
            Tidy(next) && Harmless(next, e) && ReadsMonotone(s, next)
  {
    var next := Serve(s, wk, s.memory[wk.0].version);
    forall x | x in s.memory && Safe(s, e, x) ensures Safe(next, e, x) {
      if x != wk.0 { SameForOthers(s, next, e, x); }
    }
  }

  /** A copy from Redis into the memory of a worker whose own copy is too old. */
  lemma HarmlessCopy(s: System, e: Entry, w: Worker)
    requires Tidy(s) && Harmless(s, e) && w !in s.fetching && s.redis.Some?
    requires TooOld(s.now, StampOf(MemoryOf(s, w))) && !TooOld(s.now, s.redis.value.stamp)
    ensures var next := s.(memory := s.memory[w := s.redis.value]);
            Tidy(next) && Harmless(next, e)
  {
    var next := s.(memory := s.memory[w := s.redis.value]);
    assert w in s.memory && s.redis.value == e && Safe(s, e, w) ==>
        forall wk :: wk in s.served && wk.0 == w ==> s.served[wk] <= e.version;
    forall x | x in s.memory && x != w && Safe(s, e, x) ensures Safe(next, e, x) {
      SameForOthers(s, next, e, x);
    }
  }

  lemma HarmlessGet(s: System, e: Entry, w: Worker, k: Key, latency: real)
    requires Tidy(s) && Harmless(s, e) && w !in s.fetching
    ensures var next := Next(s, Get(w, k), latency);
            Tidy(next) && Harmless(next, e) && ReadsMonotone(s, next)
  {
    var next := Next(s, Get(w, k), latency);
    if MemoValid(s.now, s.memo, (w, k)) {
      assert next.served == s.served;
      assert next == s;
    } else {
      match Lookup(s.now, MemoryOf(s, w), s.redis)
      case Memory(m) => HarmlessServe(s, e, (w, k));
      case Redis(r) =>
        HarmlessCopy(s, e, w);
        HarmlessServe(s.(memory := s.memory[w := r]), e, (w, k));
      case Dynamo => HarmlessFetch(s, e, w, Fetch(Current(s), s.now, Some(k)));
    }
  }

  lemma HarmlessFetch(s: System, e: Entry, w: Worker, f: Fetch)
    requires Tidy(s) && Harmless(s, e) && f.version == Current(s)
    ensures var next := s.(fetching := s.fetching[w := f]);
            Tidy(next) && Harmless(next, e)
  {
    var next := s.(fetching := s.fetching[w := f]);
    forall x | x in s.memory && Safe(s, e, x) ensures Safe(next, e, x) { SameForOthers(s, next, e, x); }
  }

  /** A step that stores nothing. */
  lemma HarmlessStep(s: System, e: Entry, a: Action, latency: real)
    requires Tidy(s) && Harmless(s, e) && Enabled(s, a, latency) && !a.Store?
    ensures var next := Next(s, a, latency);
            Tidy(next) && Harmless(next, e) && ReadsMonotone(s, next)
  {
    StepStaysUsable(s, a, latency);
    if a.Get? {
      HarmlessGet(s, e, a.w, a.k, latency);
    } else if a.Refresh? {
      HarmlessFetch(s, e, a.w, Fetch(Current(s), s.now, None));
    } else {
      forall x | x in s.memory && Safe(s, e, x) ensures Safe(Next(s, a, latency), e, x) {
        SameForOthers(s, Next(s, a, latency), e, x);
      }
    }
  }

  /** Some entry that Redis may hold is harmless. */
  ghost predicate AllSafe(s: System) {
    Tidy(s) && exists e :: Harmless(s, e)
  }

  lemma StepStaysSafe(s: System, a: Action, latency: real)
    requires AllSafe(s) && Enabled(s, a, latency) && !Exposes(s, a)
    ensures AllSafe(Next(s, a, latency)) && ReadsMonotone(s, Next(s, a, latency))
  {
    if a.Store? {
      TidyStore(s, a.w, latency);
      StoreIsHarmless(s, a.w, latency);
    } else {
      var e :| Harmless(s, e);
      HarmlessStep(s, e, a, latency);
    }
  }

  lemma {:induction false} SafeRun(s: System, run: seq<Action>, latency: real)
    requires AllSafe(s) && CanRun(s, run, latency) && NeverExposes(s, run, latency)
    ensures AllSafe(After(s, run, latency)) && !GoesBack(s, run, latency)
    decreases |run|
  {
    if run != [] {
      StepStaysSafe(s, run[0], latency);
      SafeRun(Next(s, run[0], latency), run[1..], latency);
    }
  }

  /** How long until the clock shows the last second in which the entry may be used. */
  function WaitFor(s: System, e: Entry): real {
    (e.stamp + MAX_AGE) as real - s.now
  }

  /** A read in that second, with nothing in the memo. */
  function LateRead(s: System, e: Entry, wk: WK): seq<Action> {
    [Evict(wk), Tick(WaitFor(s, e)), Get(wk.0, wk.1)]
  }

  /** One more step, not a store, in front of a run that goes back. */
  lemma GoesBackLater(s: System, a: Action, run: seq<Action>, latency: real)
    requires Usable(s) && Enabled(s, a, latency) && !a.Store?
    requires var next := Next(s, a, latency);
             CanRun(next, run, latency) && NeverExposes(next, run, latency)
             && (!ReadsMonotone(s, next) || GoesBack(next, run, latency))
    ensures var all := [a] + run;
            CanRun(s, all, latency) && NeverExposes(s, all, latency) && GoesBack(s, all, latency)
  {
    assert ([a] + run)[1..] == run;
  }

  lemma LateReadGoesBack(s: System, e: Entry, wk: WK, latency: real)
    requires Usable(s) && Timely(s, latency) && s.redis == Some(e) && e.stamp == s.now.Floor
    requires wk.0 !in s.fetching && wk.0 in s.memory && s.memory[wk.0].stamp < e.stamp
    requires wk in s.served && s.served[wk] > e.version
    ensures var more, slow := LateRead(s, e, wk), latency + WaitFor(s, e);
            CanRun(s, more, slow) && NeverExposes(s, more, slow) && GoesBack(s, more, slow)
  {
    var wait, read := Tick(WaitFor(s, e)), Get(wk.0, wk.1);
    var slow := latency + WaitFor(s, e);
    var s1 := Next(s, Evict(wk), slow);
    var s2 := Next(s1, wait, slow);
    assert s2.now == (e.stamp + MAX_AGE) as real && s2.now.Floor == e.stamp + MAX_AGE;
    assert Lookup(s2.now, MemoryOf(s2, wk.0), s2.redis) == Redis(e);
    assert Next(s2, read, slow).served[wk] == e.version;
    GoesBackLater(s2, read, [], slow);
    assert [read] + [] == [read];
    GoesBackLater(s1, wait, [read], slow);
    assert [wait] + [read] == [wait, read];
    GoesBackLater(s, Evict(wk), [wait, read], slow);
    assert [Evict(wk)] + [wait, read] == LateRead(s, e, wk);
  }

  /** The exposed worker serves what it holds, waits until the stale entry is just young enough, and reads
      again. */
  lemma ExposedReadsBack(s: System, e: Entry, x: Worker, latency: real) returns (more: seq<Action>, slow: real)
    requires Usable(s) && Timely(s, latency) && s.redis == Some(e) && e.stamp == s.now.Floor
    requires ExposedTo(s, e, x)
    ensures CanRun(s, more, slow) && NeverExposes(s, more, slow) && GoesBack(s, more, slow)
  {
    slow := latency + WaitFor(s, e);
    if !TooOld(s.now, s.memory[x].stamp) {
      var wk := (x, "");
      var s1 := Next(s, Evict(wk), slow);
      var s2 := Next(s1, Get(x, ""), slow);
      LateReadGoesBack(s2, e, wk, latency);
      more := LateRead(s2, e, wk);
      GoesBackLater(s1, Get(x, ""), more, slow);
      more := [Get(x, "")] + more;
      GoesBackLater(s, Evict(wk), more, slow);
      more := [Evict(wk)] + more;
    } else {
      var wk :| wk in s.served && wk.0 == x && s.served[wk] > e.version;
      LateReadGoesBack(s, e, wk, latency);
      more := LateRead(s, e, wk);
    }
  }

  /** Some continuation, in which no further store exposes a worker, reads back a version. */
  ghost predicate CanGoBack(s: System) {
    exists more, latency :: CanRun(s, more, latency) && NeverExposes(s, more, latency) && GoesBack(s, more, latency)
  }

  lemma SafeCannotGoBack(s: System)
    requires AllSafe(s)
    ensures !CanGoBack(s)
  {
    forall more, latency | CanRun(s, more, latency) && NeverExposes(s, more, latency)
      ensures !GoesBack(s, more, latency)
    {
      SafeRun(s, more, latency);
    }
  }

  lemma ExposingStoreCanGoBack(s: System, w: Worker, latency: real)
    requires Tidy(s) && Timely(s, latency) && Exposes(s, Store(w))
    ensures CanGoBack(Next(s, Store(w), latency))
  {
    var e, next := Stored(s, w), Next(s, Store(w), latency);
    TidyStore(s, w, latency);
    var x :| ExposedTo(s, e, x);
    assert x != w;
    if TooOld(s.now, s.memory[x].stamp) {
      var wk :| wk in s.served && wk.0 == x && s.served[wk] > e.version;
      assert wk in next.served && next.served[wk] > e.version;
    }
    assert ExposedTo(next, e, x);
    var more, slow := ExposedReadsBack(next, e, x, latency);
  }

  /** EXACT CONDITION, one store. After a store, however late and whatever was stored late before it, some continuation
      reads back a version if and only if a worker that is not fetching holds a newer version under a stamp
      older than the second of the store, and has served that version or is still allowed to. */
  lemma LateStoreIff(s: System, w: Worker, latency: real)
    requires Tidy(s) && Timely(s, latency) && w in s.fetching
    ensures ReadsMonotone(s, Next(s, Store(w), latency))
    ensures CanGoBack(Next(s, Store(w), latency)) <==> exists x :: ExposedTo(s, Stored(s, w), x)
  {
    TidyStore(s, w, latency);
    if Exposes(s, Store(w)) {
      ExposingStoreCanGoBack(s, w, latency);
    } else {
      StoreIsHarmless(s, w, latency);
      SafeCannotGoBack(Next(s, Store(w), latency));
    }
  }

  /** In no state of the run does some continuation read back a version. */
  ghost predicate NeverAtRisk(s: System, run: seq<Action>, latency: real)
    requires CanRun(s, run, latency)
    decreases |run|
  {
    !CanGoBack(s) && (run == [] || NeverAtRisk(Next(s, run[0], latency), run[1..], latency))
  }

  lemma StepStaysTimely(s: System, a: Action, latency: real)
    requires Usable(s) && Timely(s, latency) && latency >= 0.0 && Enabled(s, a, latency)
    ensures Timely(Next(s, a, latency), latency)
  {
  }

  lemma {:induction false} NeverAtRiskIff(s: System, run: seq<Action>, latency: real)
    requires AllSafe(s) && Timely(s, latency) && latency >= 0.0 && CanRun(s, run, latency)
    ensures NeverAtRisk(s, run, latency) <==> NeverExposes(s, run, latency)
    decreases |run|
  {
    SafeCannotGoBack(s);
    if run != [] {
      var next := Next(s, run[0], latency);
      StepStaysTimely(s, run[0], latency);
      if Exposes(s, run[0]) {
        ExposingStoreCanGoBack(s, run[0].w, latency);
        assert !NeverAtRisk(next, run[1..], latency);
      } else {
        StepStaysSafe(s, run[0], latency);
        NeverAtRiskIff(next, run[1..], latency);
      }
    }
  }

  lemma InitSafe(s: System, latency: real)
    requires Init(s) && latency >= 0.0
    ensures AllSafe(s) && Timely(s, latency)
  {
    assert Harmless(s, Entry(0, 0));
  }

  /** EXACT CONDITION, whole runs. From the first state on, with any number of answers stored late, a run never comes
      to a state from which some read can go back if and only if no store exposes a worker; and in such a run
      no read goes back, and the condition for one more store is the same again. */
  lemma ReadsStayMonotoneIff(s: System, run: seq<Action>, latency: real)
    requires Init(s) && latency >= 0.0 && CanRun(s, run, latency)
    ensures NeverAtRisk(s, run, latency) <==> NeverExposes(s, run, latency)
    ensures NeverExposes(s, run, latency) ==> !GoesBack(s, run, latency) && Tidy(After(s, run, latency))
    ensures NeverExposes(s, run, latency) ==> forall w :: w in After(s, run, latency).fetching ==>
              var now := After(s, run, latency);
              CanGoBack(Next(now, Store(w), latency)) <==> exists x :: ExposedTo(now, Stored(now, w), x)
  {
    InitSafe(s, latency);
    NeverAtRiskIff(s, run, latency);
    if NeverExposes(s, run, latency) {
      SafeRun(s, run, latency);
      InitSnapshots(s, latency);
      RunKeepsSnapshots(s, run, latency);
      forall w | w in After(s, run, latency).fetching
        ensures var now := After(s, run, latency);
                CanGoBack(Next(now, Store(w), latency)) <==> exists x :: ExposedTo(now, Stored(now, w), x)
      {
        LateStoreIff(After(s, run, latency), w, latency);
      }
    }
  }

  /** Worker 1 has asked DynamoDB, version 1 is published, and worker 2 has fetched and served it. */
  lemma OvertakingRun() returns (s: System, run: seq<Action>)
    ensures Init(s) && CanRun(s, run, 5.0)
    ensures After(s, run, 5.0) == System(100.0, [0.0, 100.0], Some(Entry(1, 100)), map[2 := Entry(1, 100)],
              map[(2, "k") := MemoEntry(1, 100.0)], map[1 := Fetch(0, 100.0, Some("k"))], map[(2, "k") := 1])
  {
    s := System(100.0, [0.0], None, map[], map[], map[], map[]);
    var r1 := RunThen(s, [], Get(1, "k"), 5.0);
    var r2 := RunThen(s, r1, Publish, 5.0);
    var r3 := RunThen(s, r2, Get(2, "k"), 5.0);
    run := RunThen(s, r3, Store(2), 5.0);
    var now := After(s, run, 5.0);
    assert now.fetching == map[1 := Fetch(0, 100.0, Some("k"))];
    assert now.memory == map[2 := Entry(1, 100)];
  }

  /** The condition is needed: when worker 1 then stores its old answer under a newer stamp, worker 2's next
      read goes back a version. */
  lemma OvertakenReadGoesBack()
    ensures exists s, run, more :: Init(s) && CanRun(s, run, 5.0) && CanRun(After(s, run, 5.0), more, 5.0) &&
              !ReadsMonotone(After(s, run, 5.0), After(After(s, run, 5.0), more, 5.0))
  {
    var s, run := OvertakingRun();
    var mid := After(s, run, 5.0);
    var m1 := RunThen(mid, [], Tick(5.0), 5.0);
    var m2 := RunThen(mid, m1, Store(1), 5.0);
    var m3 := RunThen(mid, m2, Tick(6.0), 5.0);
    var m4 := RunThen(mid, m3, Get(2, "k"), 5.0);
    assert After(mid, m4, 5.0).served[(2, "k")] == 0;
  }
}
