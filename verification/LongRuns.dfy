/** With the defaults and the tenant's types held fixed, any number of passes. */
module LongRuns {
  import opened Common
  import opened ChangeFields
  import opened FieldRuns
  import opened RequestTypes
  import opened RowProofs
  import opened TenantProofs
  import opened Convergence

  function TenantStepper(env: Env): Step<seq<RequestType>> -> Step<seq<RequestType>> {
    (o: Step<seq<RequestType>>) => TenantPass(o.value, env)
  }

  /** The store after `n` passes, and whether the last of them completed. */
  function TenantAfter(store: seq<RequestType>, env: Env, n: nat): Step<seq<RequestType>> {
    Iterate(TenantStepper(env), Step(store, true), n)
  }

  predicate RowsFit(rows: seq<ChangeType>, d: RequestType, types: seq<int>) {
    forall j :: 0 <= j < |rows| ==> RowFits(rows[j], DefaultOf(Some(d), rows[j].description), types)
  }

  predicate RequestFits(r: RequestType, d: Option<RequestType>, types: seq<int>) {
    if d.None? then NoqManaged(r.updatedBy) else RowsFit(r.changeTypes, d.value, types)
  }

  /** Every tenant-managed request type has a default, and the fields of every row that passes refresh can be
      brought to its own, in one refresh or two. */
  predicate StoreFits(store: seq<RequestType>, env: Env) {
    forall i :: 0 <= i < |store| ==> RequestFits(store[i], FindRequest(env.defaults, store[i].name), env.types)
  }

  // ---- validity ----

  lemma ValidStaysValid(store: seq<RequestType>, env: Env)
    requires DefaultsReady(env) && StoreValid(store)
    ensures StoreValid(TenantPass(store, env).value)
  {
    var now := TenantPass(store, env).value;
    forall row, d, types | ValidRow(row) ensures ValidRow(RowPass(row, d, types).value) {
      PassKeepsValid(row, d, types);
    }
    forall d, c | d in env.defaults && c in d.changeTypes ensures ValidRow(Prepared(c, env.types)) {
      var k :| 0 <= k < |env.defaults| && env.defaults[k] == d;
      var m :| 0 <= m < |d.changeTypes| && d.changeTypes[m] == c;
      assert WellNumbered(env.defaults[k].changeTypes[m].fields);
      PreparedIsValid(c, env.types);
    }
    forall r | r in store ensures AllRows(ValidRow, r.changeTypes) {}
    TenantPassRows(ValidRow, store, env);
    forall i, j | 0 <= i < |now| && 0 <= j < |now[i].changeTypes| ensures ValidRow(now[i].changeTypes[j]) {
      assert now[i] in now && now[i].changeTypes[j] in now[i].changeTypes;
    }
  }

  // ---- a pass that raises ----

  /** Where a loop that did not end well stopped: the items before it were stepped, those behind it not touched. */
  lemma {:induction false} StepAllStops<T>(xs: seq<T>, f: T -> Step<T>) returns (i: nat)
    requires !StepAll(xs, f).ok
    ensures i < |xs| && f(xs[i]) == Step(StepAll(xs, f).value[i], false)
    ensures forall k :: 0 <= k < i ==> f(xs[k]) == Step(StepAll(xs, f).value[k], true)
    ensures forall k :: i < k < |xs| ==> StepAll(xs, f).value[k] == xs[k]
  {
    if !f(xs[0]).ok {
      i := 0;
    } else {
      i := StepAllStops(xs[1..], f);
      i := i + 1;
    }
  }

  /** If an item that raises raises again, so does the loop. */
  lemma StepAllRaisesAgain<T>(xs: seq<T>, f: T -> Step<T>)
    requires !StepAll(xs, f).ok
    requires forall i :: 0 <= i < |xs| && !f(xs[i]).ok ==> !f(f(xs[i]).value).ok
    ensures !StepAll(StepAll(xs, f).value, f).ok
  {
    var i := StepAllStops(xs, f);
    var now := StepAll(xs, f).value;
    assert !f(xs[i]).ok && now[i] == f(xs[i]).value;
    if StepAll(now, f).ok {
      StepAllAt(now, f, i);
      assert false;
    }
  }

  lemma RowsRaiseAgain(rows: seq<ChangeType>, d: Option<RequestType>, types: seq<int>)
    requires RowsValid(rows) && (d.Some? ==> GoodRequestDefault(d.value)) && !StepAll(rows, RowStep(d, types)).ok
    ensures !StepAll(StepAll(rows, RowStep(d, types)).value, RowStep(d, types)).ok
  {
    var f := RowStep(d, types);
    forall j | 0 <= j < |rows| && !f(rows[j]).ok ensures !f(f(rows[j]).value).ok {
      var e := DefaultOf(d, rows[j].description);
      if d.Some? { DefaultFieldsValid(rows[j], d.value); }
      RowRaisesAgain(rows[j], e, types);
    }
    StepAllRaisesAgain(rows, f);
  }

  lemma RequestRaisesAgain(r: RequestType, d: Option<RequestType>, types: seq<int>)
    requires RowsValid(r.changeTypes) && (d.Some? ==> GoodRequestDefault(d.value)) && !RequestPass(r, d, types).ok
    ensures !RequestPass(RequestPass(r, d, types).value, d, types).ok
  {
    var rows := StepAll(r.changeTypes, RowStep(d, types));
    var next := RequestPass(r, d, types).value;
    assert next.changeTypes == rows.value && (NoqManaged(next.updatedBy) <==> NoqManaged(r.updatedBy));
    if !rows.ok { RowsRaiseAgain(r.changeTypes, d, types); }
  }

  lemma TenantRaisesAgain(store: seq<RequestType>, env: Env)
    requires DefaultsReady(env) && StoreValid(store) && !TenantPass(store, env).ok
    ensures !TenantPass(TenantPass(store, env).value, env).ok
  {
    var f := RequestStep(env);
    forall i | 0 <= i < |store| && !f(store[i]).ok ensures !f(f(store[i]).value).ok {
      var d := FindRequest(env.defaults, store[i].name);
      DefaultIsGood(env, store[i].name);
      RequestRaisesAgain(store[i], d, env.types);
      RequestPassKeeps(store[i], d, env.types);
    }
    StepAllRaisesAgain(store, f);
  }

  lemma OneMore(store: seq<RequestType>, env: Env, n: nat)
    ensures TenantAfter(store, env, n + 1) == TenantPass(TenantAfter(store, env, n).value, env)
  {
    assert TenantAfter(store, env, n + 1) == TenantStepper(env)(TenantAfter(store, env, n));
  }

  /** PERMANENCE. Once a pass over a tenant raises, every later one raises: the loop stops in each of them, and the
      request types behind that point are not reconciled any more. */
  lemma PassRaisesForGood(store: seq<RequestType>, env: Env, m: nat, n: nat)
    requires DefaultsReady(env) && StoreValid(store) && m <= n && !TenantAfter(store, env, m).ok
    ensures !TenantAfter(store, env, n).ok
  {
    var f := TenantStepper(env);
    var valid, raised := (o: Step<seq<RequestType>>) => StoreValid(o.value), (o: Step<seq<RequestType>>) => !o.ok;
    forall o | valid(o) ensures valid(f(o)) { ValidStaysValid(o.value, env); }
    forall o | valid(o) && raised(f(o)) ensures raised(f(f(o))) { TenantRaisesAgain(o.value, env); }
    OnceForGood(f, valid, raised, Step(store, true), m, n);
  }

  // ---- a store that fits ----

  lemma FixedIsReady(row: ChangeType, d: Option<ChangeType>, types: seq<int>)
    requires ValidRow(row) && FieldsValid(row, d) && Fixed(row, d, types)
    ensures RowReady(row, d, types)
  {
    FixedSettles(row, d, types);
    RowConvergesIff(row, d, types);
  }

  lemma MissingIsReady(rows: seq<ChangeType>, d: RequestType, types: seq<int>, x: ChangeType)
    requires GoodRequestDefault(d) && x in Missing(rows, d.changeTypes, types)
    ensures RowReady(x, DefaultOf(Some(d), x.description), types)
  {
    MissingIsFixed(rows, d, types, x);
    var e :| e in d.changeTypes && x == Prepared(e, types) && FindChange(rows, e.description).None?;
    var k :| 0 <= k < |d.changeTypes| && d.changeTypes[k] == e;
    PreparedIsValid(e, types);
    DefaultFieldsValid(x, d);
    FixedIsReady(x, DefaultOf(Some(d), x.description), types);
  }

  lemma RowsReadyAfterOne(rows: seq<ChangeType>, d: RequestType, types: seq<int>)
    requires RowsValid(rows) && GoodRequestDefault(d) && RowsFit(rows, d, types)
    ensures StepAll(rows, RowStep(Some(d), types)).ok && RowsReady(AfterOne(rows, d, types), d, types)
  {
    var f := RowStep(Some(d), types);
    forall j | 0 <= j < |rows|
      ensures f(rows[j]).ok && RowReady(f(rows[j]).value, DefaultOf(Some(d), rows[j].description), types)
    {
      DefaultFieldsValid(rows[j], d);
      ReadyAfterOne(rows[j], DefaultOf(Some(d), rows[j].description), types);
    }
    StepAllOk(rows, f);
    var now, more := StepAll(rows, f).value, Missing(rows, d.changeTypes, types);
    forall j | 0 <= j < |now| ensures RowReady(now[j], DefaultOf(Some(d), now[j].description), types) {
      assert now[j] == f(rows[j]).value;
    }
    forall j | 0 <= j < |more| ensures RowReady(more[j], DefaultOf(Some(d), more[j].description), types) {
      MissingIsReady(rows, d, types, more[j]);
    }
  }

  lemma RequestReadyAfterOne(r: RequestType, d: Option<RequestType>, types: seq<int>)
    requires RowsValid(r.changeTypes) && (d.Some? ==> GoodRequestDefault(d.value)) && RequestFits(r, d, types)
    ensures RequestPass(r, d, types).ok && RequestReady(RequestPass(r, d, types).value, d, types)
  {
    if d.Some? {
      RowsReadyAfterOne(r.changeTypes, d.value, types);
      RequestPassWithDefault(r, d.value, types);
    }
  }

  lemma FixedRequestIsReady(r: RequestType, d: Option<RequestType>, types: seq<int>)
    requires RowsValid(r.changeTypes) && (d.Some? ==> GoodRequestDefault(d.value)) && RequestFixed(r, d, types)
    ensures RequestReady(r, d, types)
  {
    RequestConvergesIff(r, d, types);
  }

  predicate ReadyIn(r: RequestType, env: Env) {
    RequestReady(r, FindRequest(env.defaults, r.name), env.types)
  }

  lemma SteppedAreReady(store: seq<RequestType>, env: Env)
    requires DefaultsReady(env) && StoreValid(store) && StoreFits(store, env)
    ensures var o := StepAll(store, RequestStep(env));
            o.ok && forall i :: 0 <= i < |o.value| ==> ReadyIn(o.value[i], env)
  {
    var f := RequestStep(env);
    forall i | 0 <= i < |store| ensures f(store[i]).ok && ReadyIn(f(store[i]).value, env) {
      DefaultIsGood(env, store[i].name);
      RequestReadyAfterOne(store[i], FindRequest(env.defaults, store[i].name), env.types);
      RequestPassKeeps(store[i], FindRequest(env.defaults, store[i].name), env.types);
    }
    StepAllOk(store, f);
  }

  lemma AddedIsValid(store: seq<RequestType>, env: Env, x: RequestType)
    requires DefaultsReady(env) && x in MissingRequests(store, env.defaults, env.types)
    ensures RowsValid(x.changeTypes)
  {
    var d :| d in env.defaults && x == d.(changeTypes := PreparedAll(d.changeTypes, env.types))
             && FindRequest(store, d.name).None?;
    var k :| 0 <= k < |env.defaults| && env.defaults[k] == d;
    assert GoodRequestDefault(d);
    forall j | 0 <= j < |x.changeTypes| ensures ValidRow(x.changeTypes[j]) {
      PreparedIsValid(d.changeTypes[j], env.types);
    }
  }

  lemma AddedIsReady(store: seq<RequestType>, env: Env, x: RequestType)
    requires DefaultsReady(env) && x in MissingRequests(store, env.defaults, env.types)
    ensures ReadyIn(x, env)
  {
    AddedIsValid(store, env, x);
    AddedIsFixed(store, env, x);
    DefaultIsGood(env, x.name);
    FixedRequestIsReady(x, FindRequest(env.defaults, x.name), env.types);
  }

  lemma AllReady(now: seq<RequestType>, more: seq<RequestType>, env: Env)
    requires forall i :: 0 <= i < |now| ==> ReadyIn(now[i], env)
    requires forall i :: 0 <= i < |more| ==> ReadyIn(more[i], env)
    ensures StoreReady(now + more, env)
  {
    forall i | 0 <= i < |now + more| ensures ReadyIn((now + more)[i], env) {}
  }

  lemma StoreReadyAfterOne(store: seq<RequestType>, env: Env)
    requires DefaultsReady(env) && StoreValid(store) && StoreFits(store, env)
    ensures TenantPass(store, env).ok && StoreReady(TenantPass(store, env).value, env)
  {
    SteppedAreReady(store, env);
    var now, more := StepAll(store, RequestStep(env)).value, MissingRequests(store, env.defaults, env.types);
    forall i | 0 <= i < |more| ensures ReadyIn(more[i], env) { AddedIsReady(store, env, more[i]); }
    AllReady(now, more, env);
  }

  // ---- a store that does not fit ----

  lemma UnfitRequestRaises(r: RequestType, d: Option<RequestType>, types: seq<int>)
    requires RowsValid(r.changeTypes) && (d.Some? ==> GoodRequestDefault(d.value)) && !RequestFits(r, d, types)
    ensures var one := RequestPass(r, d, types);
            var two := RequestPass(one.value, d, types);
            !(one.ok && two.ok && RequestPass(two.value, d, types).ok)
  {
    var one := RequestPass(r, d, types);
    var two := RequestPass(one.value, d, types);
    if one.ok && two.ok && RequestPass(two.value, d, types).ok {
      assert d.Some?;
      var j :| 0 <= j < |r.changeTypes|
               && !RowFits(r.changeTypes[j], DefaultOf(d, r.changeTypes[j].description), types);
      CompletedRow(r, d.value, types, j);
      CompletedRow(one.value, d.value, types, j);
      CompletedRow(two.value, d.value, types, j);
      DefaultFieldsValid(r.changeTypes[j], d.value);
      UnfitRaisesByThree(r.changeTypes[j], DefaultOf(d, r.changeTypes[j].description), types);
      assert false;
    }
  }

  lemma UnfitStoreRaises(store: seq<RequestType>, env: Env)
    requires DefaultsReady(env) && StoreValid(store) && !StoreFits(store, env)
    ensures !TenantAfter(store, env, 1).ok || !TenantAfter(store, env, 2).ok || !TenantAfter(store, env, 3).ok
  {
    assert TenantAfter(store, env, 0).value == store;
    OneMore(store, env, 0);
    OneMore(store, env, 1);
    OneMore(store, env, 2);
    var one := TenantPass(store, env);
    var two := TenantPass(one.value, env);
    var three := TenantPass(two.value, env);
    if one.ok && two.ok && three.ok {
      var i :| 0 <= i < |store| && !RequestFits(store[i], FindRequest(env.defaults, store[i].name), env.types);
      var d := FindRequest(env.defaults, store[i].name);
      DefaultIsGood(env, store[i].name);
      TenantPassAt(store, env, i);
      RequestPassKeeps(store[i], d, env.types);
      TenantPassAt(one.value, env, i);
      RequestPassKeeps(one.value[i], d, env.types);
      TenantPassAt(two.value, env, i);
      UnfitRequestRaises(store[i], d, env.types);
      assert false;
    }
  }

  /** FOR GOOD. Two things can become of a tenant whose defaults and template types do not change. If its store
      fits, every pass completes, and from the third on nothing changes and what Noq manages equals its
      defaults. Otherwise every pass from the third on, at the latest, raises. */
  lemma StoreSettlesOrRaises(store: seq<RequestType>, env: Env, n: nat)
    requires DefaultsReady(env) && StoreValid(store) && 3 <= n
    ensures var o := TenantAfter(store, env, n);
            if StoreFits(store, env) then o.ok && o == TenantAfter(store, env, 3) && StoreFixed(o.value, env)
            else !o.ok
  {
    if StoreFits(store, env) {
      var o := TenantAfter(store, env, 3);
      FittingStoreSettles(store, env);
      IterateKeeps(TenantStepper(env), (x: Step<seq<RequestType>>) => x == o, Step(store, true), 3, n);
    } else {
      UnfitStoreRaises(store, env);
      var m := if !TenantAfter(store, env, 1).ok then 1 else if !TenantAfter(store, env, 2).ok then 2 else 3;
      PassRaisesForGood(store, env, m, n);
    }
  }

  lemma FittingStoreSettles(store: seq<RequestType>, env: Env)
    requires DefaultsReady(env) && StoreValid(store) && StoreFits(store, env)
    ensures TenantAfter(store, env, 3).ok && StoreFixed(TenantAfter(store, env, 3).value, env)
  {
    assert TenantAfter(store, env, 0).value == store;
    OneMore(store, env, 0);
    OneMore(store, env, 1);
    OneMore(store, env, 2);
    StoreReadyAfterOne(store, env);
    ValidStaysValid(store, env);
    TwoPassesConvergeIff(TenantPass(store, env).value, env);
  }
}
