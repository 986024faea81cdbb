/** The tenant configuration cache: per-process memory and a 5-second memo, one Redis, one DynamoDB table.
    Reading DynamoDB takes time, so a fetch is two steps, and workers interleave between them. */
module TenantCache {
  import opened Common

  type Worker = nat
  type Key = string
  type WK = (Worker, Key)

  /** A cached configuration. Its content is named by its version in DynamoDB's history; `stamp` is
      `last_updated`, whole seconds since the epoch. */
  datatype Entry = Entry(version: nat, stamp: int)
  datatype MemoEntry = MemoEntry(version: nat, at: real)

  /** DynamoDB has answered `version` at time `since`; the answer is not stored yet. A fetch serves a read of
      a key, or the refresh that runs before a task. */
  datatype Fetch = Fetch(version: nat, since: real, key: Option<Key>)

  /** `writes[v]` is when version `v` became current. `served` is the last version each read returned. */
  datatype System = System(
    now: real, writes: seq<real>, redis: Option<Entry>, memory: map<Worker, Entry>,
    memo: map<WK, MemoEntry>, fetching: map<Worker, Fetch>, served: map<WK, nat>)

  const MAX_AGE := 10
  const MEMO_TTL := 5.0

  function Current(s: System): nat
    requires s.writes != []
  {
    |s.writes| - 1
  }

  function StampOf(e: Option<Entry>): int {
    if e.Some? then e.value.stamp else 0
  }

  predicate TooOld(now: real, stamp: int) {
    now.Floor - stamp > MAX_AGE
  }

  /** Where an unmemoised read finds the configuration. */
  datatype Source = Memory(m: Entry) | Redis(r: Entry) | Dynamo

  function Lookup(now: real, memory: Option<Entry>, redis: Option<Entry>): Source
    requires now.Floor > MAX_AGE
  {
    if !TooOld(now, StampOf(memory)) then Memory(memory.value)
    else if !TooOld(now, StampOf(redis)) then Redis(redis.value)
    else Dynamo
  }

  predicate MemoValid(now: real, memo: map<WK, MemoEntry>, wk: WK) {
    wk in memo && now < memo[wk].at + MEMO_TTL
  }

  function MemoryOf(s: System, w: Worker): Option<Entry> {
    if w in s.memory then Some(s.memory[w]) else None
  }

  // ---- steps ----

  datatype Action =
    | Tick(elapsed: real)
    | Publish                       // someone stores a new version in DynamoDB
    | Get(w: Worker, k: Key)        // a read; if it must fetch, DynamoDB answers now
    | Refresh(w: Worker)            // the refresh before a task; DynamoDB answers now
    | Store(w: Worker)              // the fetched answer is stamped, stored and served
    | Evict(wk: WK)                 // the memo drops an entry to make room
    | LoseRedis                     // Redis drops the configuration

  /** No fetch is in flight for longer than `latency`. */
  predicate Timely(s: System, latency: real) {
    forall w :: w in s.fetching ==> s.now <= s.fetching[w].since + latency
  }

  predicate Enabled(s: System, a: Action, latency: real) {
    match a
    case Tick(elapsed) => elapsed >= 0.0 && Timely(s.(now := s.now + elapsed), latency)
    case Publish => true
    case Get(w, _) => w !in s.fetching
    case Refresh(w) => w !in s.fetching
    case Store(w) => w in s.fetching
    case Evict(_) => true
    case LoseRedis => true
  }

  /** A read returns `version` and the memo keeps it. */
  function Serve(s: System, wk: WK, version: nat): System {
    s.(memo := s.memo[wk := MemoEntry(version, s.now)], served := s.served[wk := version])
  }

  /** Clock and history are usable: the epoch is long past and DynamoDB holds a configuration. */
  predicate Usable(s: System) {
    s.now.Floor > MAX_AGE && s.writes != []
  }

  function Next(s: System, a: Action, latency: real): System
    requires Usable(s) && Enabled(s, a, latency)
  {
    match a
    case Tick(elapsed) => s.(now := s.now + elapsed)
    case Publish => s.(writes := s.writes + [s.now])
    case Get(w, k) =>
      if MemoValid(s.now, s.memo, (w, k)) then s.(served := s.served[(w, k) := s.memo[(w, k)].version])
      else
        (match Lookup(s.now, MemoryOf(s, w), s.redis)
         case Memory(m) => Serve(s, (w, k), m.version)
         case Redis(r) => Serve(s.(memory := s.memory[w := r]), (w, k), r.version)
         case Dynamo => s.(fetching := s.fetching[w := Fetch(Current(s), s.now, Some(k))]))
    case Refresh(w) => s.(fetching := s.fetching[w := Fetch(Current(s), s.now, None)])
    case Store(w) =>
      var f := s.fetching[w];
      var e := Entry(f.version, s.now.Floor);
      var stored := s.(redis := Some(e), fetching := s.fetching - {w});
      if f.key.Some? then Serve(stored.(memory := s.memory[w := e]), (w, f.key.value), f.version)
      else stored.(memory := s.memory[w := e.(stamp := 0)])
    case Evict(wk) => s.(memo := s.memo - {wk})
    case LoseRedis => s.(redis := None)
  }

  predicate CanRun(s: System, run: seq<Action>, latency: real)
    decreases |run|
  {
    run == [] || (Usable(s) && Enabled(s, run[0], latency) && CanRun(Next(s, run[0], latency), run[1..], latency))
  }

  function After(s: System, run: seq<Action>, latency: real): System
    requires CanRun(s, run, latency)
    decreases |run|
  {
    if run == [] then s else After(Next(s, run[0], latency), run[1..], latency)
  }

  /** Nothing cached yet. */
  predicate Init(s: System) {
    && Usable(s) && (forall v :: 0 <= v < |s.writes| ==> s.writes[v] <= s.now)
    && s.redis == None && s.memory == map[] && s.memo == map[] && s.fetching == map[] && s.served == map[]
  }

  // ---- where reads are served from ----

  /** A read is served by the memo for 5 seconds; then by the worker's memory, or failing that by Redis, while the stamp
      there is at most 10 seconds back; and otherwise DynamoDB is asked, which answers with its latest version. */
  lemma ReadIs(s: System, w: Worker, k: Key, latency: real)
    requires Usable(s) && w !in s.fetching
    ensures var next := Next(s, Get(w, k), latency);
            var memoised := (w, k) in s.memo && s.now < s.memo[(w, k)].at + 5.0;
            var inMemory := w in s.memory && s.memory[w].stamp >= s.now.Floor - 10;
            var inRedis := s.redis.Some? && s.redis.value.stamp >= s.now.Floor - 10;
            && (memoised ==> next == s.(served := s.served[(w, k) := s.memo[(w, k)].version]))
            && (!memoised && inMemory ==>
                  next == s.(served := s.served[(w, k) := s.memory[w].version],
                             memo := s.memo[(w, k) := MemoEntry(s.memory[w].version, s.now)]))
            && (!memoised && !inMemory && inRedis ==>
                  next == s.(served := s.served[(w, k) := s.redis.value.version],
                             memo := s.memo[(w, k) := MemoEntry(s.redis.value.version, s.now)],
                             memory := s.memory[w := s.redis.value]))
            && (!memoised && !inMemory && !inRedis ==>
                  next == s.(fetching := s.fetching[w := Fetch(|s.writes| - 1, s.now, Some(k))]))
  {
  }

  /** An answer is stored under the current second, in Redis and in the memory of the worker that asked; for a read it
      is served and memoised, and for a refresh the stamp in memory is zeroed. */
  lemma StoreIs(s: System, w: Worker, latency: real)
    requires Usable(s) && w in s.fetching
    ensures var next, f := Next(s, Store(w), latency), s.fetching[w];
            && next.redis == Some(Entry(f.version, s.now.Floor)) && w !in next.fetching
            && w in next.memory && next.memory[w] == Entry(f.version, if f.key.None? then 0 else s.now.Floor)
            && (forall x :: x != w ==> (x in next.memory <==> x in s.memory))
            && (forall x :: x != w ==> (x in next.fetching <==> x in s.fetching))
            && (forall x :: x != w && x in s.memory ==> next.memory[x] == s.memory[x])
            && (forall x :: x != w && x in s.fetching ==> next.fetching[x] == s.fetching[x])
            && next.served == (if f.key.None? then s.served else s.served[(w, f.key.value) := f.version])
            && next.memo == (if f.key.None? then s.memo
                             else s.memo[(w, f.key.value) := MemoEntry(f.version, s.now)])
            && next.now == s.now && next.writes == s.writes
  {
  }

  /** A refresh asks DynamoDB for its latest version whatever the tiers hold. */
  lemma RefreshIs(s: System, w: Worker, latency: real)
    requires Usable(s) && w !in s.fetching
    ensures Next(s, Refresh(w), latency) == s.(fetching := s.fetching[w := Fetch(|s.writes| - 1, s.now, None)])
  {
  }

  /** REFRESHED. Right after the refresh of a worker, what is not memoised is read from Redis, not from its memory. */
  lemma RefreshedReadsRedis(s: System, w: Worker, k: Key, latency: real)
    requires Usable(s) && w in s.fetching && s.fetching[w].key == None
    requires !((w, k) in s.memo && s.now < s.memo[(w, k)].at + 5.0)
    ensures var stored := Next(s, Store(w), latency);
            var read := Next(stored, Get(w, k), latency);
            && stored.redis.Some? && w in read.memory && read.memory[w] == stored.redis.value
            && (w, k) in read.served && read.served[(w, k)] == stored.redis.value.version
  {
  }

  // ---- staleness ----

  /** How long ago `version` stopped being the current one. */
  function Staleness(s: System, version: nat): real
    requires version < |s.writes|
  {
    if version + 1 < |s.writes| then s.now - s.writes[version + 1] else 0.0
  }

  /** `version` was still current at time `t`. */
  predicate CurrentAt(s: System, version: nat, t: real) {
    t <= s.now && version < |s.writes| && (version + 1 < |s.writes| ==> t <= s.writes[version + 1])
  }

  predicate MemoHolds(s: System, m: MemoEntry, latency: real) {
    && m.at <= s.now && m.version < |s.writes|
    && (m.version + 1 < |s.writes| ==> m.at - s.writes[m.version + 1] < 11.0 + latency)
  }

  /** Every tier holds a snapshot of DynamoDB at its own stamp, up to the latency of a fetch: loading from
      one tier into the next does not add ages up. */
  predicate Snapshots(s: System, latency: real) {
    && Usable(s) && latency >= 0.0 && Timely(s, latency)
    && (forall v :: 0 <= v < |s.writes| ==> s.writes[v] <= s.now)
    && (s.redis.Some? ==> CurrentAt(s, s.redis.value.version, s.redis.value.stamp as real - latency))
    && (forall w :: w in s.memory ==> CurrentAt(s, s.memory[w].version, s.memory[w].stamp as real - latency))
    && (forall w :: w in s.fetching ==> CurrentAt(s, s.fetching[w].version, s.fetching[w].since))
    && (forall wk :: wk in s.memo ==> MemoHolds(s, s.memo[wk], latency))
  }

  /** A copy young enough to be used stopped being current less than 11 seconds ago, plus the latency. */
  lemma YoungIsFresh(s: System, e: Entry, latency: real)
    requires latency >= 0.0 && CurrentAt(s, e.version, e.stamp as real - latency) && !TooOld(s.now, e.stamp)
    ensures Staleness(s, e.version) < 11.0 + latency
  {
  }

  lemma PublishKeeps(s: System, version: nat, t: real, latency: real)
    requires Usable(s) && CurrentAt(s, version, t)
    ensures CurrentAt(Next(s, Publish, latency), version, t)
  {
  }

  lemma PublishKeepsMemo(s: System, m: MemoEntry, latency: real)
    requires Usable(s) && latency >= 0.0 && MemoHolds(s, m, latency)
    ensures MemoHolds(Next(s, Publish, latency), m, latency)
  {
  }

  lemma PublishKeepsSnapshots(s: System, latency: real)
    requires Snapshots(s, latency)
    ensures Snapshots(Next(s, Publish, latency), latency)
  {
    if s.redis.Some? {
      PublishKeeps(s, s.redis.value.version, s.redis.value.stamp as real - latency, latency);
    }
    forall w | w in s.memory {
      PublishKeeps(s, s.memory[w].version, s.memory[w].stamp as real - latency, latency);
    }
    forall w | w in s.fetching {
      PublishKeeps(s, s.fetching[w].version, s.fetching[w].since, latency);
    }
    forall wk | wk in s.memo {
      PublishKeepsMemo(s, s.memo[wk], latency);
    }
  }

  lemma ServeKeepsSnapshots(s: System, wk: WK, version: nat, latency: real)
    requires Snapshots(s, latency) && version < |s.writes| && Staleness(s, version) < 11.0 + latency
    ensures Snapshots(Serve(s, wk, version), latency)
  {
    var next := Serve(s, wk, version);
    forall x | x in next.memo ensures MemoHolds(next, next.memo[x], latency) {
      if x != wk { assert MemoHolds(s, s.memo[x], latency); }
    }
  }

  lemma CopyKeepsSnapshots(s: System, w: Worker, e: Entry, latency: real)
    requires Snapshots(s, latency) && CurrentAt(s, e.version, e.stamp as real - latency)
    ensures Snapshots(s.(memory := s.memory[w := e]), latency)
  {
    var next := s.(memory := s.memory[w := e]);
    forall x | x in next.memo ensures MemoHolds(next, next.memo[x], latency) {
      assert MemoHolds(s, s.memo[x], latency);
    }
  }

  /** A read served at once keeps the invariant, and what it returns is fresh. */
  lemma GetKeepsSnapshots(s: System, w: Worker, k: Key, latency: real)
    requires Snapshots(s, latency) && w !in s.fetching
    ensures Snapshots(Next(s, Get(w, k), latency), latency)
    ensures var next := Next(s, Get(w, k), latency);
            next.fetching == s.fetching ==>
              (w, k) in next.served && next.served[(w, k)] < |s.writes|
              && Staleness(s, next.served[(w, k)]) < (if MemoValid(s.now, s.memo, (w, k)) then 16.0 else 11.0) + latency
  {
    if MemoValid(s.now, s.memo, (w, k)) {
      MemoReadIsFresh(s, w, k, latency);
    } else {
      match Lookup(s.now, MemoryOf(s, w), s.redis) {
        case Memory(m) =>
          YoungIsFresh(s, m, latency);
          ServeKeepsSnapshots(s, (w, k), m.version, latency);
        case Redis(r) =>
          YoungIsFresh(s, r, latency);
          CopyKeepsSnapshots(s, w, r, latency);
          ServeKeepsSnapshots(s.(memory := s.memory[w := r]), (w, k), r.version, latency);
        case Dynamo =>
          FetchKeepsSnapshots(s, w, Fetch(Current(s), s.now, Some(k)), latency);
          assert w in Next(s, Get(w, k), latency).fetching;
      }
    }
  }

  lemma MemoReadIsFresh(s: System, w: Worker, k: Key, latency: real)
    requires Snapshots(s, latency) && w !in s.fetching && MemoValid(s.now, s.memo, (w, k))
    ensures Snapshots(Next(s, Get(w, k), latency), latency)
    ensures s.memo[(w, k)].version < |s.writes| && Staleness(s, s.memo[(w, k)].version) < 16.0 + latency
  {
    assert MemoHolds(s, s.memo[(w, k)], latency);
    var next := Next(s, Get(w, k), latency);
    forall x | x in next.memo ensures MemoHolds(next, next.memo[x], latency) {
      assert MemoHolds(s, s.memo[x], latency);
    }
  }

  lemma FetchKeepsSnapshots(s: System, w: Worker, f: Fetch, latency: real)
    requires Snapshots(s, latency) && f.version == Current(s) && f.since == s.now
    ensures Snapshots(s.(fetching := s.fetching[w := f]), latency)
  {
    var next := s.(fetching := s.fetching[w := f]);
    forall x | x in next.memo ensures MemoHolds(next, next.memo[x], latency) {
      assert MemoHolds(s, s.memo[x], latency);
    }
  }

  lemma ArriveKeepsSnapshots(s: System, w: Worker, e: Entry, latency: real)
    requires Snapshots(s, latency) && CurrentAt(s, e.version, e.stamp as real - latency)
    ensures Snapshots(s.(redis := Some(e), fetching := s.fetching - {w}), latency)
  {
    var next := s.(redis := Some(e), fetching := s.fetching - {w});
    forall x | x in next.memo ensures MemoHolds(next, next.memo[x], latency) {
      assert MemoHolds(s, s.memo[x], latency);
    }
  }

  lemma StoreKeepsSnapshots(s: System, w: Worker, latency: real)
    requires Snapshots(s, latency) && w in s.fetching
    ensures Snapshots(Next(s, Store(w), latency), latency)
    ensures s.fetching[w].version < |s.writes| && Staleness(s, s.fetching[w].version) <= latency
  {
    var f := s.fetching[w];
    var e := Entry(f.version, s.now.Floor);
    assert CurrentAt(s, f.version, f.since);
    assert CurrentAt(s, e.version, e.stamp as real - latency);
    ArriveKeepsSnapshots(s, w, e, latency);
    var arrived := s.(redis := Some(e), fetching := s.fetching - {w});
    if f.key.Some? {
      CopyKeepsSnapshots(arrived, w, e, latency);
      ServeKeepsSnapshots(arrived.(memory := s.memory[w := e]), (w, f.key.value), f.version, latency);
    } else {
      CopyKeepsSnapshots(arrived, w, e.(stamp := 0), latency);
    }
  }

  lemma StepKeepsSnapshots(s: System, a: Action, latency: real)
    requires Snapshots(s, latency) && Enabled(s, a, latency)
    ensures Snapshots(Next(s, a, latency), latency)
  {
    match a
    case Tick(_) => TickKeepsSnapshots(s, a, latency);
    case Publish => PublishKeepsSnapshots(s, latency);
    case Get(w, k) => GetKeepsSnapshots(s, w, k, latency);
    case Refresh(w) => FetchKeepsSnapshots(s, w, Fetch(Current(s), s.now, None), latency);
    case Evict(wk) =>
      forall x | x in s.memo - {wk} ensures MemoHolds(Next(s, a, latency), s.memo[x], latency) {
        assert MemoHolds(s, s.memo[x], latency);
      }
    case LoseRedis =>
      forall x | x in s.memo ensures MemoHolds(Next(s, a, latency), s.memo[x], latency) {
        assert MemoHolds(s, s.memo[x], latency);
      }
    case Store(w) => StoreKeepsSnapshots(s, w, latency);
  }

  lemma TickKeepsSnapshots(s: System, a: Action, latency: real)
    requires Snapshots(s, latency) && Enabled(s, a, latency) && a.Tick?
    ensures Snapshots(Next(s, a, latency), latency)
  {
    var next := Next(s, a, latency);
    forall wk | wk in s.memo ensures MemoHolds(next, s.memo[wk], latency) {
      assert MemoHolds(s, s.memo[wk], latency);
    }
    FloorMonotone(s.now, next.now);
  }

  lemma FloorMonotone(x: real, y: real)
    requires x <= y
    ensures x.Floor <= y.Floor
  {
  }

  lemma {:induction false} RunKeepsSnapshots(s: System, run: seq<Action>, latency: real)
    requires Snapshots(s, latency) && CanRun(s, run, latency)
    ensures Snapshots(After(s, run, latency), latency)
    decreases |run|
  {
    if run != [] {
      StepKeepsSnapshots(s, run[0], latency);
      RunKeepsSnapshots(Next(s, run[0], latency), run[1..], latency);
    }
  }

  lemma InitSnapshots(s: System, latency: real)
    requires Init(s) && latency >= 0.0
    ensures Snapshots(s, latency)
  {
  }

  /** STALENESS. In every interleaving of any number of workers, with DynamoDB answering within `latency`, a
      read served from memory or Redis returns a version that was superseded less than 11 seconds plus the
      latency ago, and a memoised one less than 16 seconds plus the latency ago. */
  lemma ReadsAreFresh(s: System, run: seq<Action>, w: Worker, k: Key, latency: real)
    requires Init(s) && latency >= 0.0 && CanRun(s, run, latency) && w !in After(s, run, latency).fetching
    ensures var now := After(s, run, latency);
            Usable(now) &&
            var next := Next(now, Get(w, k), latency);
            next.fetching == now.fetching ==>
              (w, k) in next.served && next.served[(w, k)] < |now.writes|
              && Staleness(now, next.served[(w, k)])
                 < (if MemoValid(now.now, now.memo, (w, k)) then 16.0 else 11.0) + latency
  {
    InitSnapshots(s, latency);
    RunKeepsSnapshots(s, run, latency);
    GetKeepsSnapshots(After(s, run, latency), w, k, latency);
  }

  /** A read that had to fetch returns a version superseded at most the latency ago. */
  lemma FetchedReadsAreFresh(s: System, run: seq<Action>, w: Worker, latency: real)
    requires Init(s) && latency >= 0.0 && CanRun(s, run, latency) && w in After(s, run, latency).fetching
    ensures var now := After(s, run, latency);
            now.fetching[w].version < |now.writes| && Staleness(now, now.fetching[w].version) <= latency
  {
    InitSnapshots(s, latency);
    RunKeepsSnapshots(s, run, latency);
    StoreKeepsSnapshots(After(s, run, latency), w, latency);
  }

  /** One more step at the end of a run. */
  lemma {:induction false} RunThen(s: System, run: seq<Action>, a: Action, latency: real) returns (longer: seq<Action>)
    requires CanRun(s, run, latency) && Usable(After(s, run, latency)) && Enabled(After(s, run, latency), a, latency)
    ensures longer == run + [a]
    ensures CanRun(s, longer, latency) && After(s, longer, latency) == Next(After(s, run, latency), a, latency)
    decreases |run|
  {
    longer := run + [a];
    if run == [] {
      assert longer[1..] == [];
    } else {
      var rest := RunThen(Next(s, run[0], latency), run[1..], a, latency);
      assert longer[1..] == rest;
    }
  }

  // ---- the bounds are tight ----

  const START := System(100.0, [0.0], None, map[], map[], map[], map[])

  /** Worker 1 has just fetched, stored and served version 0 when version 1 is published. */
  const SUPERSEDED := System(100.0, [0.0, 100.0], Some(Entry(0, 100)), map[1 := Entry(0, 100)],
                             map[(1, "k") := MemoEntry(0, 100.0)], map[], map[(1, "k") := 0])

  lemma SupersededRun() returns (run: seq<Action>)
    ensures Init(START) && CanRun(START, run, 0.0) && After(START, run, 0.0) == SUPERSEDED
  {
    run := RunThen(START, [], Get(1, "k"), 0.0);
    run := RunThen(START, run, Store(1), 0.0);
    run := RunThen(START, run, Publish, 0.0);
    var now := After(START, run, 0.0);
    assert now.fetching == map[] && now.memory == map[1 := Entry(0, 100)];
  }

  /** Almost 11 seconds pass: the copy in memory may still be used, and the memo has run out. */
  lemma AgedRun(d: real) returns (run: seq<Action>)
    requires 0.0 < d < 0.5
    ensures CanRun(START, run, 0.0) && After(START, run, 0.0) == SUPERSEDED.(now := 111.0 - d)
    ensures Lookup(111.0 - d, MemoryOf(SUPERSEDED, 1), SUPERSEDED.redis) == Memory(Entry(0, 100))
  {
    run := SupersededRun();
    assert (111.0 - d).Floor == 110;
    run := RunThen(START, run, Tick(11.0 - d), 0.0);
  }

  /** Worker 1 reads from memory, and the memo keeps the answer. */
  lemma MemoisedRun(d: real) returns (run: seq<Action>)
    requires 0.0 < d < 0.5
    ensures CanRun(START, run, 0.0)
    ensures After(START, run, 0.0) == SUPERSEDED.(now := 111.0 - d, memo := map[(1, "k") := MemoEntry(0, 111.0 - d)])
  {
    run := AgedRun(d);
    assert (111.0 - d).Floor == 110;
    run := RunThen(START, run, Get(1, "k"), 0.0);
    var now := After(START, run, 0.0);
    assert now.memo == map[(1, "k") := MemoEntry(0, 111.0 - d)] && now.served == SUPERSEDED.served;
  }

  /** TIGHT. Whole-second stamps cost up to a second on top of the 10: however little less than 11 seconds, some
      unmemoised read is staler, although DynamoDB answers at once. */
  lemma ElevenSecondsAreNeeded(eps: real)
    requires 0.0 < eps < 0.5
    ensures exists s, run :: Init(s) && CanRun(s, run, 0.0) && Usable(After(s, run, 0.0)) &&
              var now := After(s, run, 0.0);
              var w := 1;
              w !in now.fetching && !MemoValid(now.now, now.memo, (w, "k")) &&
              var next := Next(now, Get(w, "k"), 0.0);
              next.fetching == now.fetching && (w, "k") in next.served && next.served[(w, "k")] < |now.writes|
              && Staleness(now, next.served[(w, "k")]) > 11.0 - eps
  {
    var run := AgedRun(eps / 2.0);
    var aged := After(START, run, 0.0);
    assert Init(START);
    assert Staleness(aged, 0) == 11.0 - eps / 2.0;
  }

  /** TIGHT. The same for memoised reads and 16 seconds. */
  lemma SixteenSecondsAreNeeded(eps: real)
    requires 0.0 < eps < 0.5
    ensures exists s, run :: Init(s) && CanRun(s, run, 0.0) && Usable(After(s, run, 0.0)) &&
              var now := After(s, run, 0.0);
              1 !in now.fetching && MemoValid(now.now, now.memo, (1, "k")) &&
              now.memo[(1, "k")].version < |now.writes| && Staleness(now, now.memo[(1, "k")].version) > 16.0 - eps
  {
    var run := MemoisedRun(eps / 4.0);
    run := RunThen(START, run, Tick(5.0 - eps / 4.0), 0.0);
    var now := After(START, run, 0.0);
    assert Init(START);
    assert Staleness(now, 0) == 16.0 - eps / 2.0;
  }
}
