/** Draining the queue of GitHub webhook events. */
module WebhookQueue {
  import opened Common

  const BATCH := 10
  const DEFAULT_MAX := 100

  /** A queued message, and whether its handler raises. */
  datatype Message = Message(id: string, receipt: string, raises: bool)

  /** The messages of the first `n` answers of the queue. */
  function Received(receive: nat -> seq<Message>, n: nat): seq<Message> {
    if n == 0 then [] else Received(receive, n - 1) + receive(n - 1)
  }

  function Limit(maxNum: Option<nat>): nat {
    if maxNum.Some? && maxNum.value > 0 then maxNum.value else DEFAULT_MAX
  }

  /** The drain stops before handling answer `n`: it is empty, or the limit is reached. */
  predicate Stops(receive: nat -> seq<Message>, limit: nat, n: nat) {
    receive(n) == [] || |Received(receive, n)| >= limit
  }

  function Failures(messages: seq<Message>): nat {
    if messages == [] then 0
    else Failures(messages[..|messages| - 1]) + if messages[|messages| - 1].raises then 1 else 0
  }

  lemma {:induction false} FailuresAppend(a: seq<Message>, b: seq<Message>)
    ensures Failures(a + b) == Failures(a) + Failures(b)
  {
    if b == [] {
      assert a + b == a;
    } else {
      assert (a + b)[..|a + b| - 1] == a + b[..|b| - 1];
      FailuresAppend(a, b[..|b| - 1]);
    }
  }

  lemma {:induction false} ReceivedGrows(receive: nat -> seq<Message>, n: nat, limit: nat)
    requires forall k :: 0 <= k < n ==> !Stops(receive, limit, k)
    ensures n <= |Received(receive, n)|
    ensures n > 0 ==> |Received(receive, n - 1)| < limit
  {
    if n > 0 {
      assert !Stops(receive, limit, n - 1);
      if n > 1 { ReceivedGrows(receive, n - 1, limit); }
    }
  }

  /** Answer `k` follows the answers before it, in its own order. */
  lemma {:induction false} ReceivedInOrder(receive: nat -> seq<Message>, n: nat, k: nat, i: nat)
    requires k < n && i < |receive(k)|
    ensures |Received(receive, k)| + i < |Received(receive, n)|
    ensures Received(receive, n)[|Received(receive, k)| + i] == receive(k)[i]
  {
    if k < n - 1 { ReceivedInOrder(receive, n - 1, k, i); }
  }

  /** The failures are the handled messages whose handler raised. */
  lemma {:induction false} FailuresAre(messages: seq<Message>)
    ensures Failures(messages) == |set i | 0 <= i < |messages| && messages[i].raises|
  {
    var here := set i | 0 <= i < |messages| && messages[i].raises;
    if messages != [] {
      var front, n := messages[..|messages| - 1], |messages| - 1;
      var before := set i | 0 <= i < |front| && front[i].raises;
      FailuresAre(front);
      assert here == before + if messages[n].raises then {n} else {};
    } else {
      assert here == {};
    }
  }

  /** The inner loop: a handler that raises is logged, and its message is processed all the same. */
  method HandleBatch(messages: seq<Message>) returns (processed: seq<Message>, failures: nat)
    ensures processed == messages && failures == Failures(messages)
  {
    processed, failures := [], 0;
    var i := 0;
    while i < |messages|
      invariant i <= |messages| && processed == messages[..i] && failures == Failures(messages[..i])
    {
      assert messages[..i + 1][..i] == messages[..i];
      if messages[i].raises { failures := failures + 1; }
      processed := processed + [messages[i]];
      i := i + 1;
    }
  }

  /** The drain goes through answer `n`. */
  lemma DrainTurn(receive: nat -> seq<Message>, limit: nat, n: nat)
    requires !Stops(receive, limit, n) && |receive(n)| <= BATCH
    ensures Received(receive, n + 1) == Received(receive, n) + receive(n)
    ensures |Received(receive, n)| < |Received(receive, n + 1)| <= limit + BATCH - 1
    ensures Failures(Received(receive, n + 1)) == Failures(Received(receive, n)) + Failures(receive(n))
  {
    FailuresAppend(Received(receive, n), receive(n));
  }

  /** CONSERVATION. For every way the queue can answer with batches of at most ten, the drain ends. With `n` the
      number of batches it handled: it stopped at the first answer it had to, the messages handled are
      exactly the first `n` answers, each was deleted once and in order whether or not its handler raised, one
      further answer was fetched and left alone, and at most nine messages over the limit were handled. */
  method Drain(receive: nat -> seq<Message>, maxNum: Option<nat>)
    returns (numEvents: nat, handled: seq<Message>, deleted: seq<Message>, failures: nat, fetched: nat)
    requires forall k :: |receive(k)| <= BATCH
    ensures fetched >= 1 && Stops(receive, Limit(maxNum), fetched - 1)
    ensures forall k :: 0 <= k < fetched - 1 ==> !Stops(receive, Limit(maxNum), k)
    ensures handled == deleted == Received(receive, fetched - 1)
    ensures numEvents == |handled| <= Limit(maxNum) + BATCH - 1
    ensures Limit(maxNum) == match maxNum case Some(n) => (if n == 0 then 100 else n) case None => 100
    ensures receive(fetched - 1) == [] || numEvents >= Limit(maxNum)
    ensures failures == Failures(handled)
  {
    var limit := Limit(maxNum);
    var messages := receive(0);
    fetched, numEvents, handled, deleted, failures := 1, 0, [], [], 0;
    while messages != []
      invariant fetched >= 1 && messages == receive(fetched - 1)
      invariant forall k :: 0 <= k < fetched - 1 ==> !Stops(receive, limit, k)
      invariant handled == deleted == Received(receive, fetched - 1)
      invariant numEvents == |handled| <= limit + BATCH - 1
      invariant failures == Failures(handled)
      decreases limit + BATCH - numEvents
    {
      if numEvents >= limit { break; }
      var processed, failed := HandleBatch(messages);
      DrainTurn(receive, limit, fetched - 1);
      numEvents := numEvents + |processed|;
      handled, failures := handled + processed, failures + failed;
      if processed != [] {
        deleted := deleted + processed;
      }
      messages := receive(fetched);
      fetched := fetched + 1;
    }
  }

  /** How much any number of batches that the drain goes through can hold: at least one message each, and at most
      nine over the limit in all. */
  lemma DrainBounds(receive: nat -> seq<Message>, limit: nat, n: nat)
    requires limit > 0 && (forall k :: |receive(k)| <= BATCH)
    requires forall k :: 0 <= k < n ==> !Stops(receive, limit, k)
    ensures n <= |Received(receive, n)| <= limit + BATCH - 1
  {
    ReceivedGrows(receive, n, limit);
  }
}
