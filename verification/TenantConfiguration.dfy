/** One worker's configuration object, proved to take the steps of `TenantCache`. */
module TenantConfiguration {
  import opened Common
  import opened TenantCache

  /** Only time passes, until `later`. */
  ghost function Waited(s: System, later: real, latency: real): (r: System)
    requires Usable(s) && s.now <= later && Timely(s.(now := later), latency)
    ensures r == s.(now := later) && Usable(r)
  {
    FloorMonotone(s.now, later);
    assert s.now + (later - s.now) == later;
    Next(s, Tick(later - s.now), latency)
  }

  class RedisServer {
    var entry: Option<Entry>

    constructor ()
      ensures entry == None
    {
      entry := None;
    }
  }

  /** The cache of one tenant's configuration in one process. */
  class Configuration {
    const worker: Worker
    var memory: Option<Entry>      // tenant_configs[tenant]
    var memo: map<Key, MemoEntry>  // get_tenant_specific_key_cache

    constructor (worker: Worker)
      ensures this.worker == worker && memory == None && memo == map[]
    {
      this.worker, memory, memo := worker, None, map[];
    }

    /** The part of `s` that this worker can see is the state of this object and of Redis. */
    ghost predicate Agrees(s: System, red: RedisServer)
      reads this, red
    {
      && MemoryOf(s, worker) == memory && s.redis == red.entry
      && (forall k :: k in memo <==> (worker, k) in s.memo)
      && (forall k :: k in memo ==> memo[k] == s.memo[(worker, k)])
    }

    /** `copy_tenant_config_dynamo_to_redis` from where DynamoDB has answered: without a configuration in the
        answer nothing is stored, and the copy in memory is returned as it is. */
    method CopyDynamoToRedis(red: RedisServer, answer: Option<nat>, now: real) returns (config: Option<Entry>)
      modifies this`memory, red
      ensures config == memory
      ensures answer.Some? ==> memory == red.entry == Some(Entry(answer.value, now.Floor))
      ensures answer.None? ==> memory == old(memory) && red.entry == old(red.entry)
    {
      if answer.Some? {
        memory := Some(Entry(answer.value, now.Floor));
        red.entry := memory;
      }
      config := memory;
    }

    /** What a worker does before a task, from where DynamoDB has answered: copy, then age its own copy so that
        the task reads Redis. */
    method RefreshBeforeTask(red: RedisServer, answer: nat, now: real, ghost s: System)
      requires Usable(s) && s.now == now && Agrees(s, red)
      requires worker in s.fetching && s.fetching[worker].key == None && s.fetching[worker].version == answer
      modifies this`memory, red
      ensures Agrees(Next(s, Store(worker), 0.0), red)
    {
      var _ := CopyDynamoToRedis(red, Some(answer), now);
      memory := Some(memory.value.(stamp := 0));
    }

    /** `get_tenant_specific_key` up to where it asks DynamoDB, down to the configuration the key is looked up
        in. Without a result DynamoDB has been asked. */
    method ReadCached(red: RedisServer, k: Key, now: real, ghost s: System) returns (version: Option<nat>)
      requires Usable(s) && s.now == now && Agrees(s, red) && worker !in s.fetching
      modifies this
      ensures var next := Next(s, Get(worker, k), 0.0);
              && Agrees(next, red) && (version.None? <==> worker in next.fetching)
              && (version.Some? ==> (worker, k) in next.served && next.served[(worker, k)] == version.value)
    {
      if k in memo && now < memo[k].at + MEMO_TTL {
        return Some(memo[k].version);
      }
      var lastUpdated := if memory.Some? then memory.value.stamp else 0;
      if now.Floor - lastUpdated > MAX_AGE {
        var tenantConfig := red.entry;
        lastUpdated := if tenantConfig.Some? then tenantConfig.value.stamp else 0;
        if now.Floor - lastUpdated > MAX_AGE { return None; }
        memory := tenantConfig;
      }
      version := Some(memory.value.version);
      memo := memo[k := MemoEntry(memory.value.version, now)];
    }

    /** The rest of it, once DynamoDB has answered. Any steps of other workers may lie in between. */
    method ReadFetched(red: RedisServer, k: Key, answer: nat, now: real, ghost s: System) returns (version: nat)
      requires Usable(s) && s.now == now && Agrees(s, red)
      requires worker in s.fetching && s.fetching[worker].key == Some(k) && s.fetching[worker].version == answer
      modifies this, red
      ensures var next := Next(s, Store(worker), 0.0);
              Agrees(next, red) && (worker, k) in next.served && next.served[(worker, k)] == version
    {
      var tenantConfig := CopyDynamoToRedis(red, Some(answer), now);
      memory := tenantConfig;
      version := memory.value.version;
      memo := memo[k := MemoEntry(version, now)];
    }

    /** The whole of it, when no other worker stores anything while DynamoDB takes until `later` to answer with
        what was current when it was asked. */
    method GetTenantSpecificKey(red: RedisServer, k: Key, answer: nat, now: real, later: real, latency: real,
                                ghost s: System)
      returns (version: nat)
      requires Usable(s) && s.now == now <= later && Current(s) == answer && Agrees(s, red) && worker !in s.fetching
      requires Timely(s.(now := later), latency) && later <= now + latency
      modifies this, red
      ensures var got := Next(s, Get(worker, k), latency);
              var done := if worker in got.fetching then Next(Waited(got, later, latency), Store(worker), latency)
                          else got;
              Agrees(done, red) && (worker, k) in done.served && done.served[(worker, k)] == version
    {
      var cached := ReadCached(red, k, now, s);
      if cached.Some? { return cached.value; }
      ghost var asked := Waited(Next(s, Get(worker, k), latency), later, latency);
      version := ReadFetched(red, k, answer, later, asked);
    }
  }
}
