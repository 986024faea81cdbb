/** With the defaults and the tenant's types held fixed, two passes reach a fixpoint. */
module Convergence {
  import opened Common
  import opened ChangeFields
  import opened RequestTypes
  import opened RowProofs
  import opened TenantProofs

  /** Noq manages the row and it is live: it equals its default. */
  predicate Converged(row: ChangeType, d: Option<ChangeType>, types: seq<int>) {
    !row.deleted && !TenantEdited(row) && d.Some? ==> MatchesDefault(row, d.value, types)
  }

  predicate Fixed(row: ChangeType, d: Option<ChangeType>, types: seq<int>) {
    RowPass(row, d, types) == Step(row, true) && LiveIsAvailable(row) && Converged(row, d, types)
  }

  lemma FindsItself(ds: seq<ChangeType>, k: nat)
    requires UniqueDescriptions(ds) && k < |ds|
    ensures FindChange(ds, ds[k].description) == Some(ds[k])
  {
    if k < |ds| - 1 {
      assert ds[k].description != ds[|ds| - 1].description;
      FindsItself(ds[..|ds| - 1], k);
    }
  }

  lemma FindsRequest(ds: seq<RequestType>, k: nat)
    requires UniqueNames(ds) && k < |ds|
    ensures FindRequest(ds, ds[k].name) == Some(ds[k])
  {
    if k < |ds| - 1 {
      assert ds[k].name != ds[|ds| - 1].name;
      FindsRequest(ds[..|ds| - 1], k);
    }
  }

  lemma PreparedFieldsFixed(fields: seq<ChangeField>)
    requires Indexed(fields)
    ensures SameFields(ByElement(fields), fields)
    ensures TablePass(ByElement(fields), fields) == Outcome(ByElement(fields), true)
  {
    var table := ByElement(fields);
    ByElementSame(fields);
    ByElementSorts(fields);
    ByElementIndexed(fields);
    FieldPassFixpoint(table, fields);
    ByElementIdle(table);
  }

  lemma PreparedInStep(d: ChangeType, types: seq<int>)
    ensures var row := Prepared(d, types);
            InStep(row, Some(d), types) && (row.available == [] <==> NewAvailable(row, Some(d), types) == [])
  {
    SortFilter(d.supported, types);
    SortEmpty(Prepared(d, types).available);
  }

  /** A freshly inserted default needs nothing further. */
  lemma PreparedIsFixed(d: ChangeType, types: seq<int>)
    requires Indexed(d.fields)
    ensures Fixed(Prepared(d, types), Some(d), types)
  {
    var row := Prepared(d, types);
    PreparedInStep(d, types);
    PreparedFieldsFixed(d.fields);
    if Classify(row, Some(d), types) == Refresh {
      RefreshableIs(row, d, types);
      RefreshRepeats(row, d, types);
      assert row.(fields := row.fields) == row;
    }
  }

  predicate GoodRequestDefault(d: RequestType) {
    && UniqueDescriptions(d.changeTypes)
    && forall k :: 0 <= k < |d.changeTypes| ==> WellNumbered(d.changeTypes[k].fields)
  }

  /** What the table guarantees of the rows of a request type. */
  predicate RowsValid(rows: seq<ChangeType>) {
    forall j :: 0 <= j < |rows| ==> ValidRow(rows[j])
  }

  /** Every row that passes refresh can be brought to its default. */
  predicate RowsReady(rows: seq<ChangeType>, d: RequestType, types: seq<int>) {
    forall j :: 0 <= j < |rows| ==> RowReady(rows[j], DefaultOf(Some(d), rows[j].description), types)
  }

  /** A tenant-managed request type has a default, and the rows are ready. */
  predicate RequestReady(r: RequestType, d: Option<RequestType>, types: seq<int>) {
    if d.None? then NoqManaged(r.updatedBy) else RowsReady(r.changeTypes, d.value, types)
  }

  lemma DefaultFieldsValid(row: ChangeType, d: RequestType)
    requires ValidRow(row) && GoodRequestDefault(d)
    ensures FieldsValid(row, DefaultOf(Some(d), row.description))
  {
    var e := DefaultOf(Some(d), row.description);
    if e.Some? {
      var k :| 0 <= k < |d.changeTypes| && d.changeTypes[k] == e.value;
    }
  }

  lemma MissingIsFixed(rows: seq<ChangeType>, d: RequestType, types: seq<int>, x: ChangeType)
    requires GoodRequestDefault(d) && x in Missing(rows, d.changeTypes, types)
    ensures Fixed(x, DefaultOf(Some(d), x.description), types)
  {
    var e :| e in d.changeTypes && x == Prepared(e, types) && FindChange(rows, e.description).None?;
    var k :| 0 <= k < |d.changeTypes| && d.changeTypes[k] == e;
    FindsItself(d.changeTypes, k);
    PreparedIsFixed(e, types);
  }

  predicate Has(rows: seq<ChangeType>, description: string) {
    exists k :: 0 <= k < |rows| && rows[k].description == description
  }

  lemma {:induction false} NothingMissing(rows: seq<ChangeType>, ds: seq<ChangeType>, types: seq<int>)
    requires forall k :: 0 <= k < |ds| ==> Has(rows, ds[k].description)
    ensures Missing(rows, ds, types) == []
  {
    if ds != [] {
      assert Has(rows, ds[0].description);
      forall k | 0 <= k < |ds[1..]| ensures Has(rows, ds[1..][k].description) {
        assert ds[1..][k] == ds[k + 1];
      }
      NothingMissing(rows, ds[1..], types);
    }
  }

  lemma {:induction false} MissingAdds(rows: seq<ChangeType>, ds: seq<ChangeType>, types: seq<int>, k: nat)
    requires k < |ds|
    ensures Has(rows, ds[k].description) || Has(Missing(rows, ds, types), ds[k].description)
  {
    var all := Missing(rows, ds, types);
    if k == 0 {
      if FindChange(rows, ds[0].description).None? {
        assert all[0].description == ds[0].description;
      }
    } else {
      MissingAdds(rows, ds[1..], types, k - 1);
      var tail := Missing(rows, ds[1..], types);
      if Has(tail, ds[k].description) {
        var m :| 0 <= m < |tail| && tail[m].description == ds[k].description;
        assert all[|all| - |tail| + m] == tail[m];
      }
    }
  }

  lemma HasAppended(rows: seq<ChangeType>, now: seq<ChangeType>, more: seq<ChangeType>, description: string)
    requires |now| == |rows| && RowsKept(rows, now)
    requires Has(rows, description) || Has(more, description)
    ensures Has(now + more, description)
  {
    if Has(rows, description) {
      var k :| 0 <= k < |rows| && rows[k].description == description;
      assert (now + more)[k].description == description;
    } else {
      var k :| 0 <= k < |more| && more[k].description == description;
      assert (now + more)[|now| + k].description == description;
    }
  }

  /** The rows of a request type whose default is `d` after one pass, when nothing raises. */
  function AfterOne(rows: seq<ChangeType>, d: RequestType, types: seq<int>): seq<ChangeType> {
    StepAll(rows, RowStep(Some(d), types)).value + Missing(rows, d.changeTypes, types)
  }

  lemma RowsComplete(rows: seq<ChangeType>, d: RequestType, types: seq<int>)
    requires RowsValid(rows) && GoodRequestDefault(d) && RowsReady(rows, d, types)
    ensures StepAll(rows, RowStep(Some(d), types)).ok
  {
    var f := RowStep(Some(d), types);
    forall j | 0 <= j < |rows| ensures f(rows[j]).ok {
      DefaultFieldsValid(rows[j], d);
      RowConvergesIff(rows[j], DefaultOf(Some(d), rows[j].description), types);
    }
    StepAllOk(rows, f);
  }

  lemma FixedSettles(row: ChangeType, d: Option<ChangeType>, types: seq<int>)
    requires Fixed(row, d, types)
    ensures Settles(row, d, types)
  {
    var o := RowPass(row, d, types);
    assert o.value == row;
  }

  lemma InsertedSettles(rows: seq<ChangeType>, d: RequestType, types: seq<int>, x: ChangeType)
    requires GoodRequestDefault(d) && x in Missing(rows, d.changeTypes, types)
    ensures Settles(x, DefaultOf(Some(d), x.description), types)
  {
    MissingIsFixed(rows, d, types, x);
    FixedSettles(x, DefaultOf(Some(d), x.description), types);
  }

  lemma SteppedSettles(rows: seq<ChangeType>, d: RequestType, types: seq<int>, j: nat)
    requires RowsValid(rows) && GoodRequestDefault(d) && RowsReady(rows, d, types) && j < |rows|
    ensures var row := StepAll(rows, RowStep(Some(d), types)).value[j];
            Settles(row, DefaultOf(Some(d), row.description), types)
  {
    RowsComplete(rows, d, types);
    StepAllAt(rows, RowStep(Some(d), types), j);
    DefaultFieldsValid(rows[j], d);
    RowConvergesIff(rows[j], DefaultOf(Some(d), rows[j].description), types);
  }

  /** One pass over ready rows completes, every row then settles in one more, and no default is missing. */
  lemma RowsSettle(rows: seq<ChangeType>, d: RequestType, types: seq<int>)
    requires RowsValid(rows) && GoodRequestDefault(d) && RowsReady(rows, d, types)
    ensures StepAll(rows, RowStep(Some(d), types)).ok
    ensures var one := AfterOne(rows, d, types);
            && (forall j :: 0 <= j < |one| ==> Settles(one[j], DefaultOf(Some(d), one[j].description), types))
            && (forall k :: 0 <= k < |d.changeTypes| ==> Has(one, d.changeTypes[k].description))
            && Missing(one, d.changeTypes, types) == []
  {
    RowsComplete(rows, d, types);
    var one := AfterOne(rows, d, types);
    var now, more := StepAll(rows, RowStep(Some(d), types)).value, Missing(rows, d.changeTypes, types);
    forall j | 0 <= j < |now| ensures Settles(now[j], DefaultOf(Some(d), now[j].description), types) {
      SteppedSettles(rows, d, types, j);
    }
    forall j | 0 <= j < |more| ensures Settles(more[j], DefaultOf(Some(d), more[j].description), types) {
      InsertedSettles(rows, d, types, more[j]);
    }
    forall k | 0 <= k < |d.changeTypes| ensures Has(one, d.changeTypes[k].description) {
      MissingAdds(rows, d.changeTypes, types, k);
      StepKeepsRows(rows, d, types);
      HasAppended(rows, now, more, d.changeTypes[k].description);
    }
    NothingMissing(one, d.changeTypes, types);
  }

  lemma StepKeepsRows(rows: seq<ChangeType>, d: RequestType, types: seq<int>)
    ensures RowsKept(rows, StepAll(rows, RowStep(Some(d), types)).value)
  {
    forall j | 0 <= j < |rows|
      ensures StepAll(rows, RowStep(Some(d), types)).value[j].description == rows[j].description
    {
      StepAllAt(rows, RowStep(Some(d), types), j);
    }
  }

  /** The second pass: every settled row becomes fixed. */
  lemma RowsFixed(one: seq<ChangeType>, d: RequestType, types: seq<int>)
    requires forall j :: 0 <= j < |one| ==> Settles(one[j], DefaultOf(Some(d), one[j].description), types)
    ensures var two := StepAll(one, RowStep(Some(d), types));
            && two.ok && RowsKept(one, two.value)
            && StepAll(two.value, RowStep(Some(d), types)) == two
            && (forall j :: 0 <= j < |one| ==> Fixed(two.value[j], DefaultOf(Some(d), two.value[j].description), types))
  {
    var f := RowStep(Some(d), types);
    StepAllOk(one, f);
    var two := StepAll(one, f).value;
    forall j | 0 <= j < |two|
      ensures two[j].description == one[j].description
      ensures Fixed(two[j], DefaultOf(Some(d), two[j].description), types) && f(two[j]) == Step(two[j], true)
    {
      assert two[j] == f(one[j]).value == RowPass(one[j], DefaultOf(Some(d), one[j].description), types).value;
    }
    StepAllFixed(two, f);
  }

  /** The request type does not change in a further pass, and Noq's part of it equals the defaults. */
  predicate RequestFixed(r: RequestType, d: Option<RequestType>, types: seq<int>) {
    && RequestPass(r, d, types) == Step(r, true)
    && (d.Some? && NoqManaged(r.updatedBy) ==>
          r.description == d.value.description && r.expressSupport == d.value.expressSupport)
    && forall j :: 0 <= j < |r.changeTypes| ==>
         Converged(r.changeTypes[j], DefaultOf(d, r.changeTypes[j].description), types)
  }

  lemma DeletedIsFixed(r: RequestType, types: seq<int>)
    requires NoqManaged(r.updatedBy)
    ensures RequestPass(r, None, types) == Step(Deleted(r), true) && RequestFixed(Deleted(r), None, types)
  {
    assert AllDeleted(AllDeleted(r.changeTypes)) == AllDeleted(r.changeTypes);
  }

  /** The head of a request type after a pass. */
  function HeadAfter(r: RequestType, d: RequestType): RequestType {
    if NoqManaged(r.updatedBy) then HeadPass(r, d) else r
  }

  lemma RequestPassWithDefault(r: RequestType, d: RequestType, types: seq<int>)
    requires StepAll(r.changeTypes, RowStep(Some(d), types)).ok
    ensures RequestPass(r, Some(d), types)
            == Step(HeadAfter(r, d).(changeTypes := AfterOne(r.changeTypes, d, types)), true)
    ensures HeadAfter(RequestPass(r, Some(d), types).value, d) == RequestPass(r, Some(d), types).value
  {
  }

  lemma RequestConverges(r: RequestType, d: Option<RequestType>, types: seq<int>)
    requires RowsValid(r.changeTypes) && (d.Some? ==> GoodRequestDefault(d.value)) && RequestReady(r, d, types)
    ensures ConvergesInTwo(r, d, types)
  {
    if d.None? {
      DeletedIsFixed(r, types);
      DeletedIsFixed(Deleted(r), types);
    } else {
      var e := d.value;
      RowsSettle(r.changeTypes, e, types);
      RequestPassWithDefault(r, e, types);
      var one := RequestPass(r, d, types).value;
      RowsFixed(one.changeTypes, e, types);
      RequestPassWithDefault(one, e, types);
      var two := RequestPass(one, d, types).value;
      var rows := StepAll(one.changeTypes, RowStep(d, types)).value;
      assert two.changeTypes == rows + [] == rows;
      forall k | 0 <= k < |e.changeTypes| ensures Has(rows, e.changeTypes[k].description) {
        HasAppended(one.changeTypes, rows, [], e.changeTypes[k].description);
        assert rows + [] == rows;
      }
      NothingMissing(rows, e.changeTypes, types);
      RequestPassWithDefault(two, e, types);
      assert rows + [] == rows;
      assert two.(changeTypes := rows) == two;
    }
  }

  /** Two passes over the request type complete, and a third changes nothing. */
  predicate ConvergesInTwo(r: RequestType, d: Option<RequestType>, types: seq<int>) {
    var one := RequestPass(r, d, types);
    var two := RequestPass(one.value, d, types);
    one.ok && two.ok && RequestFixed(two.value, d, types)
  }

  /** A completed pass over a request type with a default has completed each of its rows. */
  lemma CompletedRow(r: RequestType, d: RequestType, types: seq<int>, j: nat)
    requires RequestPass(r, Some(d), types).ok && j < |r.changeTypes|
    ensures var now, row := RequestPass(r, Some(d), types).value.changeTypes, r.changeTypes[j];
            && j < |now| && now[j].description == row.description
            && RowPass(row, DefaultOf(Some(d), row.description), types) == Step(now[j], true)
  {
    StepAllAt(r.changeTypes, RowStep(Some(d), types), j);
  }

  lemma ConvergedRowWasReady(r: RequestType, d: RequestType, types: seq<int>, j: nat)
    requires RowsValid(r.changeTypes) && GoodRequestDefault(d) && ConvergesInTwo(r, Some(d), types)
    requires j < |r.changeTypes|
    ensures RowReady(r.changeTypes[j], DefaultOf(Some(d), r.changeTypes[j].description), types)
  {
    var row, e := r.changeTypes[j], DefaultOf(Some(d), r.changeTypes[j].description);
    var one := RequestPass(r, Some(d), types).value;
    var two := RequestPass(one, Some(d), types).value;
    CompletedRow(r, d, types, j);
    CompletedRow(one, d, types, j);
    CompletedRow(two, d, types, j);
    PassKeepsAvailable(row, e, types);
    PassKeepsAvailable(one.changeTypes[j], e, types);
    assert Converged(two.changeTypes[j], e, types);
    assert Settles(one.changeTypes[j], e, types);
    DefaultFieldsValid(row, d);
    RowConvergesIff(row, e, types);
  }

  /** CONVERGENCE, one request type: two passes complete and reach a fixpoint if and only if it is ready. */
  lemma RequestConvergesIff(r: RequestType, d: Option<RequestType>, types: seq<int>)
    requires RowsValid(r.changeTypes) && (d.Some? ==> GoodRequestDefault(d.value))
    ensures ConvergesInTwo(r, d, types) <==> RequestReady(r, d, types)
  {
    if RequestReady(r, d, types) {
      RequestConverges(r, d, types);
    } else if ConvergesInTwo(r, d, types) && d.Some? {
      forall j | 0 <= j < |r.changeTypes|
        ensures RowReady(r.changeTypes[j], DefaultOf(d, r.changeTypes[j].description), types)
      {
        ConvergedRowWasReady(r, d.value, types, j);
      }
    }
  }

  // ---- the tenant ----

  predicate DefaultsReady(env: Env) {
    && env.types != [] && UniqueNames(env.defaults)
    && forall k :: 0 <= k < |env.defaults| ==> GoodRequestDefault(env.defaults[k])
  }

  predicate StoreValid(store: seq<RequestType>) {
    forall i :: 0 <= i < |store| ==> RowsValid(store[i].changeTypes)
  }

  predicate StoreReady(store: seq<RequestType>, env: Env) {
    forall i :: 0 <= i < |store| ==> RequestReady(store[i], FindRequest(env.defaults, store[i].name), env.types)
  }

  predicate StoreFixed(store: seq<RequestType>, env: Env) {
    && TenantPass(store, env) == Step(store, true)
    && forall i :: 0 <= i < |store| ==> RequestFixed(store[i], FindRequest(env.defaults, store[i].name), env.types)
  }

  lemma InsertedRowIsFixed(d: RequestType, types: seq<int>, j: nat)
    requires GoodRequestDefault(d) && j < |d.changeTypes|
    ensures var row := PreparedAll(d.changeTypes, types)[j];
            Fixed(row, DefaultOf(Some(d), row.description), types)
  {
    FindsItself(d.changeTypes, j);
    PreparedIsFixed(d.changeTypes[j], types);
  }

  lemma InsertedRowsAreFixed(d: RequestType, types: seq<int>)
    requires GoodRequestDefault(d)
    ensures var rows := PreparedAll(d.changeTypes, types);
            && StepAll(rows, RowStep(Some(d), types)) == Step(rows, true)
            && Missing(rows, d.changeTypes, types) == []
            && forall j :: 0 <= j < |rows| ==> Converged(rows[j], DefaultOf(Some(d), rows[j].description), types)
  {
    var rows, f := PreparedAll(d.changeTypes, types), RowStep(Some(d), types);
    forall j | 0 <= j < |rows|
      ensures f(rows[j]) == Step(rows[j], true)
      ensures Converged(rows[j], DefaultOf(Some(d), rows[j].description), types)
    {
      InsertedRowIsFixed(d, types, j);
    }
    StepAllFixed(rows, f);
    forall k | 0 <= k < |d.changeTypes| ensures Has(rows, d.changeTypes[k].description) {
      assert rows[k].description == d.changeTypes[k].description;
    }
    NothingMissing(rows, d.changeTypes, types);
  }

  /** A freshly inserted request type is fixed. */
  lemma InsertedIsFixed(d: RequestType, types: seq<int>)
    requires GoodRequestDefault(d)
    ensures RequestFixed(d.(changeTypes := PreparedAll(d.changeTypes, types)), Some(d), types)
  {
    var rows := PreparedAll(d.changeTypes, types);
    InsertedRowsAreFixed(d, types);
    RequestPassWithDefault(d.(changeTypes := rows), d, types);
    assert rows + [] == rows;
  }

  lemma AddedIsFixed(store: seq<RequestType>, env: Env, x: RequestType)
    requires DefaultsReady(env) && x in MissingRequests(store, env.defaults, env.types)
    ensures RequestFixed(x, FindRequest(env.defaults, x.name), env.types)
  {
    var d :| d in env.defaults && x == d.(changeTypes := PreparedAll(d.changeTypes, env.types))
             && FindRequest(store, d.name).None?;
    var k :| 0 <= k < |env.defaults| && env.defaults[k] == d;
    FindsRequest(env.defaults, k);
    InsertedIsFixed(d, env.types);
  }

  predicate HasRequest(store: seq<RequestType>, name: string) {
    exists k :: 0 <= k < |store| && store[k].name == name
  }

  lemma {:induction false} NoRequestMissing(store: seq<RequestType>, ds: seq<RequestType>, types: seq<int>)
    requires forall k :: 0 <= k < |ds| ==> HasRequest(store, ds[k].name)
    ensures MissingRequests(store, ds, types) == []
  {
    if ds != [] {
      assert HasRequest(store, ds[0].name);
      forall k | 0 <= k < |ds[1..]| ensures HasRequest(store, ds[1..][k].name) {
        assert ds[1..][k] == ds[k + 1];
      }
      NoRequestMissing(store, ds[1..], types);
    }
  }

  lemma {:induction false} MissingRequestsAdds(store: seq<RequestType>, ds: seq<RequestType>, types: seq<int>, k: nat)
    requires k < |ds|
    ensures HasRequest(store, ds[k].name) || HasRequest(MissingRequests(store, ds, types), ds[k].name)
  {
    var all := MissingRequests(store, ds, types);
    if k == 0 {
      if FindRequest(store, ds[0].name).None? {
        assert all[0].name == ds[0].name;
      }
    } else {
      MissingRequestsAdds(store, ds[1..], types, k - 1);
      var tail := MissingRequests(store, ds[1..], types);
      if HasRequest(tail, ds[k].name) {
        var m :| 0 <= m < |tail| && tail[m].name == ds[k].name;
        assert all[|all| - |tail| + m] == tail[m];
      }
    }
  }

  lemma HasRequestKept(store: seq<RequestType>, now: seq<RequestType>, name: string)
    requires Kept(store, now) && HasRequest(store, name)
    ensures HasRequest(now, name)
  {
    var k :| 0 <= k < |store| && store[k].name == name;
    assert now[k].name == name;
  }

  lemma HasRequestAppended(now: seq<RequestType>, more: seq<RequestType>, name: string)
    requires HasRequest(now, name) || HasRequest(more, name)
    ensures HasRequest(now + more, name)
  {
    if HasRequest(now, name) {
      var k :| 0 <= k < |now| && now[k].name == name;
      assert (now + more)[k].name == name;
    } else {
      var k :| 0 <= k < |more| && more[k].name == name;
      assert (now + more)[|now| + k].name == name;
    }
  }

  lemma SteppedKeepsNames(store: seq<RequestType>, env: Env, name: string)
    requires HasRequest(store, name)
    ensures HasRequest(StepAll(store, RequestStep(env)).value, name)
  {
    var k :| 0 <= k < |store| && store[k].name == name;
    StepAllAt(store, RequestStep(env), k);
    RequestPassKeeps(store[k], FindRequest(env.defaults, store[k].name), env.types);
  }

  /** After one completed pass no default is missing any more. */
  lemma PassAddsAll(store: seq<RequestType>, env: Env)
    requires env.types != [] && TenantPass(store, env).ok
    ensures forall k :: 0 <= k < |env.defaults| ==> HasRequest(TenantPass(store, env).value, env.defaults[k].name)
  {
    var now, more := StepAll(store, RequestStep(env)).value, MissingRequests(store, env.defaults, env.types);
    assert TenantPass(store, env).value == now + more;
    forall k | 0 <= k < |env.defaults| ensures HasRequest(now + more, env.defaults[k].name) {
      MissingRequestsAdds(store, env.defaults, env.types, k);
      if HasRequest(store, env.defaults[k].name) { SteppedKeepsNames(store, env, env.defaults[k].name); }
      HasRequestAppended(now, more, env.defaults[k].name);
    }
  }

  predicate SettlesRequest(r: RequestType, env: Env) {
    var o := RequestStep(env)(r);
    o.ok && RequestFixed(o.value, FindRequest(env.defaults, o.value.name), env.types)
  }

  lemma DefaultIsGood(env: Env, name: string)
    requires DefaultsReady(env)
    ensures var d := FindRequest(env.defaults, name); d.Some? ==> GoodRequestDefault(d.value)
  {
    var d := FindRequest(env.defaults, name);
    if d.Some? {
      var k :| 0 <= k < |env.defaults| && env.defaults[k] == d.value;
    }
  }

  lemma RequestSettles(r: RequestType, env: Env)
    requires DefaultsReady(env) && RowsValid(r.changeTypes)
    requires RequestReady(r, FindRequest(env.defaults, r.name), env.types)
    ensures RequestStep(env)(r).ok && SettlesRequest(RequestStep(env)(r).value, env)
  {
    var d := FindRequest(env.defaults, r.name);
    DefaultIsGood(env, r.name);
    RequestConverges(r, d, env.types);
    RequestPassKeeps(r, d, env.types);
    RequestPassKeeps(RequestPass(r, d, env.types).value, d, env.types);
  }

  lemma FirstPass(store: seq<RequestType>, env: Env)
    requires DefaultsReady(env) && StoreValid(store) && StoreReady(store, env)
    ensures TenantPass(store, env).ok
    ensures forall i :: 0 <= i < |TenantPass(store, env).value| ==> SettlesRequest(TenantPass(store, env).value[i], env)
  {
    var f := RequestStep(env);
    forall i | 0 <= i < |store| ensures f(store[i]).ok && SettlesRequest(f(store[i]).value, env) {
      RequestSettles(store[i], env);
    }
    StepAllOk(store, f);
    var now, more := StepAll(store, f).value, MissingRequests(store, env.defaults, env.types);
    forall i | 0 <= i < |more| ensures SettlesRequest(more[i], env) {
      AddedIsFixed(store, env, more[i]);
    }
  }

  lemma SecondPass(one: seq<RequestType>, env: Env)
    requires env.types != [] && forall i :: 0 <= i < |one| ==> SettlesRequest(one[i], env)
    requires forall k :: 0 <= k < |env.defaults| ==> HasRequest(one, env.defaults[k].name)
    ensures TenantPass(one, env).ok && StoreFixed(TenantPass(one, env).value, env)
  {
    var f := RequestStep(env);
    StepAllOk(one, f);
    NoRequestMissing(one, env.defaults, env.types);
    var two := StepAll(one, f).value;
    assert TenantPass(one, env).value == two + [] == two;
    forall i | 0 <= i < |two|
      ensures f(two[i]) == Step(two[i], true)
      ensures RequestFixed(two[i], FindRequest(env.defaults, two[i].name), env.types)
    {
      assert SettlesRequest(one[i], env);
    }
    StepAllFixed(two, f);
    TenantPassKeeps(one, env);
    forall k | 0 <= k < |env.defaults| ensures HasRequest(two, env.defaults[k].name) {
      HasRequestKept(one, two, env.defaults[k].name);
    }
    NoRequestMissing(two, env.defaults, env.types);
    assert two + [] == two;
  }

  /** Whatever passes a new tenant has gone through, its store is valid. */
  lemma PassesAreValid(envs: seq<Env>)
    requires forall e, d, c :: e in envs && d in e.defaults && c in d.changeTypes ==> Indexed(c.fields)
    ensures StoreValid(Passes([], envs))
  {
    var store := Passes([], envs);
    RowsStayValid([], envs);
    forall i, j | 0 <= i < |store| && 0 <= j < |store[i].changeTypes| ensures ValidRow(store[i].changeTypes[j]) {
      assert store[i] in store && store[i].changeTypes[j] in store[i].changeTypes;
    }
  }

  /** Two passes over the store complete and leave one that a third does not change, in which what Noq manages
      equals its defaults. */
  predicate StoreConvergesInTwo(store: seq<RequestType>, env: Env) {
    var one := TenantPass(store, env);
    var two := TenantPass(one.value, env);
    one.ok && two.ok && StoreFixed(two.value, env)
  }

  lemma ReadyStoreConverges(store: seq<RequestType>, env: Env)
    requires DefaultsReady(env) && StoreValid(store) && StoreReady(store, env)
    ensures StoreConvergesInTwo(store, env)
  {
    FirstPass(store, env);
    PassAddsAll(store, env);
    SecondPass(TenantPass(store, env).value, env);
  }

  lemma ConvergedRequestWasReady(store: seq<RequestType>, env: Env, i: nat)
    requires DefaultsReady(env) && StoreValid(store) && StoreConvergesInTwo(store, env) && i < |store|
    ensures RequestReady(store[i], FindRequest(env.defaults, store[i].name), env.types)
  {
    var one := TenantPass(store, env).value;
    var d := FindRequest(env.defaults, store[i].name);
    TenantPassAt(store, env, i);
    TenantPassAt(one, env, i);
    RequestPassKeeps(store[i], d, env.types);
    RequestPassKeeps(one[i], d, env.types);
    assert ConvergesInTwo(store[i], d, env.types);
    DefaultIsGood(env, store[i].name);
    RequestConvergesIff(store[i], d, env.types);
  }

  /** CONVERGENCE. With defaults and types held fixed, two passes complete and leave a store that a third pass
      does not change, in which every live change type that Noq manages and ships equals its default in
      attributes, template, type lists and the full set of fields, if and only if every tenant-managed
      request type has a default and every row that the two passes refresh can be brought to its own. */
  lemma TwoPassesConvergeIff(store: seq<RequestType>, env: Env)
    requires DefaultsReady(env) && StoreValid(store)
    ensures StoreConvergesInTwo(store, env) <==> StoreReady(store, env)
  {
    if StoreReady(store, env) {
      ReadyStoreConverges(store, env);
    } else if StoreConvergesInTwo(store, env) {
      forall i | 0 <= i < |store|
        ensures RequestReady(store[i], FindRequest(env.defaults, store[i].name), env.types)
      {
        ConvergedRequestWasReady(store, env, i);
      }
    }
  }
}
