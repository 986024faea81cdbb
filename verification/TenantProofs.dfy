/** What sequences of passes do to all the rows of a tenant. */
module TenantProofs {
  import opened Common
  import opened ChangeFields
  import opened FieldRuns
  import opened RequestTypes
  import opened RowProofs

  // ---- rows never move and never disappear ----

  predicate RowsKept(old': seq<ChangeType>, now: seq<ChangeType>) {
    && |old'| <= |now|
    && forall j :: 0 <= j < |old'| ==> now[j].description == old'[j].description
  }

  /** Every stored row is still there, at the same place and under the same name. */
  predicate Kept(old': seq<RequestType>, now: seq<RequestType>) {
    && |old'| <= |now|
    && forall i :: 0 <= i < |old'| ==>
         now[i].name == old'[i].name && RowsKept(old'[i].changeTypes, now[i].changeTypes)
  }

  /** What one pass can make of one row. */
  predicate Successor(old': ChangeType, now: ChangeType, d: Option<ChangeType>, types: seq<int>) {
    now == old' || now == RowPass(old', d, types).value || now == old'.(deleted := true)
  }

  lemma RequestPassAt(r: RequestType, d: Option<RequestType>, types: seq<int>, j: nat)
    requires j < |r.changeTypes|
    ensures var o := RequestPass(r, d, types).value;
            && j < |o.changeTypes|
            && o.changeTypes[j].description == r.changeTypes[j].description
            && Successor(r.changeTypes[j], o.changeTypes[j], DefaultOf(d, r.changeTypes[j].description), types)
  {
    StepAllAt(r.changeTypes, RowStep(d, types), j);
  }

  lemma RequestPassKeeps(r: RequestType, d: Option<RequestType>, types: seq<int>)
    ensures var o := RequestPass(r, d, types).value;
            o.name == r.name && RowsKept(r.changeTypes, o.changeTypes) && (r.deleted ==> o.deleted)
  {
    forall j | 0 <= j < |r.changeTypes|
      ensures j < |RequestPass(r, d, types).value.changeTypes|
      ensures RequestPass(r, d, types).value.changeTypes[j].description == r.changeTypes[j].description
    {
      RequestPassAt(r, d, types, j);
    }
    RequestPassLength(r, d, types);
  }

  lemma RequestPassLength(r: RequestType, d: Option<RequestType>, types: seq<int>)
    ensures |r.changeTypes| <= |RequestPass(r, d, types).value.changeTypes|
  {
  }

  lemma TenantPassAt(store: seq<RequestType>, env: Env, i: nat)
    requires i < |store|
    ensures var o, one := TenantPass(store, env),
                  RequestPass(store[i], FindRequest(env.defaults, store[i].name), env.types);
            && i < |o.value| && (o.value[i] == store[i] || o.value[i] == one.value)
            && (o.ok && env.types != [] ==> one.ok && o.value[i] == one.value)
  {
    if env.types != [] { StepAllAt(store, RequestStep(env), i); }
  }

  lemma TenantPassKeeps(store: seq<RequestType>, env: Env)
    ensures Kept(store, TenantPass(store, env).value)
  {
    forall i | 0 <= i < |store|
      ensures i < |TenantPass(store, env).value|
      ensures TenantPass(store, env).value[i].name == store[i].name
      ensures RowsKept(store[i].changeTypes, TenantPass(store, env).value[i].changeTypes)
    {
      TenantPassAt(store, env, i);
      RequestPassKeeps(store[i], FindRequest(env.defaults, store[i].name), env.types);
    }
  }

  /** GROWTH. Over any sequence of passes, completed or not, no row is lost or renamed. */
  lemma {:induction false} PassesKeep(store: seq<RequestType>, envs: seq<Env>)
    ensures Kept(store, Passes(store, envs))
    decreases |envs|
  {
    if envs != [] {
      TenantPassKeeps(store, envs[0]);
      PassesKeep(TenantPass(store, envs[0]).value, envs[1..]);
    }
  }

  lemma RowAfterPass(store: seq<RequestType>, env: Env, i: nat, j: nat)
    requires i < |store| && j < |store[i].changeTypes|
    ensures Kept(store, TenantPass(store, env).value)
    ensures var row := store[i].changeTypes[j];
            Successor(row, TenantPass(store, env).value[i].changeTypes[j],
                      DefaultOf(FindRequest(env.defaults, store[i].name), row.description), env.types)
  {
    TenantPassKeeps(store, env);
    TenantPassAt(store, env, i);
    RequestPassAt(store[i], FindRequest(env.defaults, store[i].name), env.types, j);
  }

  // ---- names and descriptions stay unique ----

  predicate GoodDefaults(env: Env) {
    Unique(env.defaults)
  }

  lemma {:induction false} MissingIsUnique(rows: seq<ChangeType>, ds: seq<ChangeType>, types: seq<int>)
    requires UniqueDescriptions(rows) && UniqueDescriptions(ds)
    ensures UniqueDescriptions(rows + Missing(rows, ds, types))
    ensures forall x :: x in Missing(rows, ds, types) ==>
                  exists k :: 0 <= k < |ds| && ds[k].description == x.description
  {
    var all := Missing(rows, ds, types);
    forall x | x in all ensures exists k :: 0 <= k < |ds| && ds[k].description == x.description {
      var d :| d in ds && x == Prepared(d, types) && FindChange(rows, d.description).None?;
      var k :| 0 <= k < |ds| && ds[k] == d;
    }
    forall i, j | 0 <= i < |rows| && 0 <= j < |all| ensures rows[i].description != all[j].description {
      assert all[j] in all;
      var d :| d in ds && all[j] == Prepared(d, types) && FindChange(rows, d.description).None?;
    }
    if ds != [] {
      MissingIsUnique(rows, ds[1..], types);
      var tail := Missing(rows, ds[1..], types);
      MissingTailUnique(rows, tail);
      forall j | 0 <= j < |tail| ensures tail[j].description != ds[0].description {
        assert tail[j] in tail;
        var k :| 0 <= k < |ds[1..]| && ds[1..][k].description == tail[j].description;
        assert ds[0].description != ds[k + 1].description;
      }
    }
  }

  lemma MissingTailUnique(rows: seq<ChangeType>, tail: seq<ChangeType>)
    requires UniqueDescriptions(rows + tail)
    ensures UniqueDescriptions(tail)
  {
    forall i, j | 0 <= i < j < |tail| ensures tail[i].description != tail[j].description {
      assert (rows + tail)[|rows| + i] == tail[i] && (rows + tail)[|rows| + j] == tail[j];
    }
  }

  lemma {:induction false} MissingRequestsUnique(store: seq<RequestType>, ds: seq<RequestType>, types: seq<int>)
    requires UniqueNames(store) && Unique(ds)
    ensures var more := MissingRequests(store, ds, types);
            && UniqueNames(more) && (forall k :: 0 <= k < |more| ==> UniqueDescriptions(more[k].changeTypes))
            && (forall i, k :: 0 <= i < |store| && 0 <= k < |more| ==> store[i].name != more[k].name)
  {
    var more := MissingRequests(store, ds, types);
    forall x | x in more
      ensures UniqueDescriptions(x.changeTypes)
      ensures forall i :: 0 <= i < |store| ==> store[i].name != x.name
    {
      var d :| d in ds && x == d.(changeTypes := PreparedAll(d.changeTypes, types)) && FindRequest(store, d.name).None?;
    }
    if ds != [] {
      MissingRequestsUnique(store, ds[1..], types);
      var tail := MissingRequests(store, ds[1..], types);
      forall j | 0 <= j < |tail| ensures tail[j].name != ds[0].name {
        assert tail[j] in tail;
        var d :| d in ds[1..] && tail[j] == d.(changeTypes := PreparedAll(d.changeTypes, types))
                 && FindRequest(store, d.name).None?;
        var k :| 0 <= k < |ds[1..]| && ds[1..][k] == d;
        assert ds[0].name != ds[k + 1].name;
      }
    }
  }

  lemma SameDescriptions(rows: seq<ChangeType>, now: seq<ChangeType>)
    requires UniqueDescriptions(rows) && RowsKept(rows, now) && |now| == |rows|
    ensures UniqueDescriptions(now)
  {
    forall i, j | 0 <= i < j < |now| ensures now[i].description != now[j].description {
      assert now[i].description == rows[i].description && now[j].description == rows[j].description;
    }
  }

  lemma ExtendedUnique(rows: seq<ChangeType>, now: seq<ChangeType>, more: seq<ChangeType>)
    requires UniqueDescriptions(rows + more) && RowsKept(rows, now) && |now| == |rows|
    ensures UniqueDescriptions(now + more)
  {
    SameDescriptions(rows + more, now + more);
  }

  lemma RowsStayUnique(r: RequestType, d: Option<RequestType>, types: seq<int>)
    requires UniqueDescriptions(r.changeTypes) && (d.Some? ==> UniqueDescriptions(d.value.changeTypes))
    ensures UniqueDescriptions(RequestPass(r, d, types).value.changeTypes)
  {
    var rows := StepAll(r.changeTypes, RowStep(d, types)).value;
    forall j | 0 <= j < |rows| ensures rows[j].description == r.changeTypes[j].description {
      StepAllAt(r.changeTypes, RowStep(d, types), j);
    }
    SameDescriptions(r.changeTypes, rows);
    if d.Some? {
      MissingIsUnique(r.changeTypes, d.value.changeTypes, types);
      ExtendedUnique(r.changeTypes, rows, Missing(r.changeTypes, d.value.changeTypes, types));
    }
  }

  lemma SteppedStaysUnique(store: seq<RequestType>, env: Env)
    requires Unique(store) && GoodDefaults(env)
    ensures Unique(StepAll(store, RequestStep(env)).value)
    ensures forall i :: 0 <= i < |store| ==> StepAll(store, RequestStep(env)).value[i].name == store[i].name
  {
    var now := StepAll(store, RequestStep(env)).value;
    forall i | 0 <= i < |store| ensures now[i].name == store[i].name && UniqueDescriptions(now[i].changeTypes) {
      var d := FindRequest(env.defaults, store[i].name);
      StepAllAt(store, RequestStep(env), i);
      RequestPassKeeps(store[i], d, env.types);
      RowsStayUnique(store[i], d, env.types);
    }
    forall i, j | 0 <= i < j < |now| ensures now[i].name != now[j].name {
      assert store[i].name != store[j].name;
    }
  }

  lemma PassStaysUnique(store: seq<RequestType>, env: Env)
    requires Unique(store) && GoodDefaults(env)
    ensures Unique(TenantPass(store, env).value)
  {
    SteppedStaysUnique(store, env);
    MissingRequestsUnique(store, env.defaults, env.types);
    var now, more := StepAll(store, RequestStep(env)).value, MissingRequests(store, env.defaults, env.types);
    var all := now + more;
    forall i, j | 0 <= i < j < |all| ensures all[i].name != all[j].name {
      if i < |now| <= j {
        assert store[i].name != more[j - |now|].name;
      } else if j < |now| {
        assert now[i].name != now[j].name;
      } else {
        assert more[i - |now|].name != more[j - |now|].name;
      }
    }
  }

  /** UNIQUENESS. Over any sequence of passes with varying defaults and types, request-type names stay
      unique for the tenant and change-type descriptions stay unique within their request type. */
  lemma {:induction false} PassesStayUnique(store: seq<RequestType>, envs: seq<Env>)
    requires Unique(store) && forall e :: e in envs ==> GoodDefaults(e)
    ensures Unique(Passes(store, envs))
    decreases |envs|
  {
    if envs != [] {
      PassStaysUnique(store, envs[0]);
      PassesStayUnique(TenantPass(store, envs[0]).value, envs[1..]);
    }
  }

  // ---- what holds of one row over any sequence of passes ----

  ghost predicate Invariant(P: ChangeType -> bool) {
    && (forall row, d, types :: P(row) ==> P(RowPass(row, d, types).value))
    && (forall row :: P(row) ==> P(row.(deleted := true)))
  }

  /** A property of a row that every branch keeps holds of it for good. */
  lemma {:induction false} InvariantOverPasses(P: ChangeType -> bool, store: seq<RequestType>, envs: seq<Env>,
                          i: nat, j: nat)
    requires Invariant(P) && i < |store| && j < |store[i].changeTypes| && P(store[i].changeTypes[j])
    ensures Kept(store, Passes(store, envs)) && P(Passes(store, envs)[i].changeTypes[j])
    decreases |envs|
  {
    PassesKeep(store, envs);
    if envs != [] {
      RowAfterPass(store, envs[0], i, j);
      InvariantOverPasses(P, TenantPass(store, envs[0]).value, envs[1..], i, j);
    }
  }

  /** TENANT ROWS. A change type created by the tenant keeps its attributes, template and fields over any
      sequence of passes, whatever the defaults and the template types do. */
  lemma TenantCreatedSurvives(store: seq<RequestType>, envs: seq<Env>, i: nat, j: nat)
    requires i < |store| && j < |store[i].changeTypes| && store[i].changeTypes[j].createdBy != NOQ
    ensures Kept(store, Passes(store, envs))
    ensures SameContent(Passes(store, envs)[i].changeTypes[j], store[i].changeTypes[j])
  {
    var first := store[i].changeTypes[j];
    var P := (row: ChangeType) => row.createdBy != NOQ && SameContent(row, first);
    forall row, d, types | P(row) ensures P(RowPass(row, d, types).value) && P(row.(deleted := true)) {
      TenantCreatedKeepsContent(row, d, types);
    }
    InvariantOverPasses(P, store, envs, i, j);
  }

  /** BURIED ROWS. A change type that was inserted while the tenant had none of its types, or that was
      deleted while some type was available, stays deleted and unchanged for good. */
  lemma BuriedForGood(store: seq<RequestType>, envs: seq<Env>, i: nat, j: nat)
    requires i < |store| && j < |store[i].changeTypes| && Buried(store[i].changeTypes[j])
    ensures Kept(store, Passes(store, envs))
    ensures Passes(store, envs)[i].changeTypes[j] == store[i].changeTypes[j]
  {
    var first := store[i].changeTypes[j];
    var P := (row: ChangeType) => row == first;
    forall row, d, types | P(row) ensures P(RowPass(row, d, types).value) && P(row.(deleted := true)) {
      BuriedStays(row, d, types);
      assert row.(deleted := true) == row;
    }
    InvariantOverPasses(P, store, envs, i, j);
  }

  /** The lists of the row are in step with every setting it will meet. */
  predicate AlwaysInStep(row: ChangeType, name: string, envs: seq<Env>) {
    forall e :: e in envs ==> InStep(row, DefaultOf(FindRequest(e.defaults, name), row.description), e.types)
  }

  lemma EditedRowHolds(row: ChangeType, d: Option<ChangeType>, types: seq<int>)
    requires row.available != [] && TenantEdited(row) && InStep(row, d, types)
    ensures RowPass(row, d, types) == Step(row, true)
  {
    SortEmpty(row.available);
  }

  /** TENANT EDITS. A change type the tenant created or edited keeps everything but its deleted flag over
      any sequence of passes in each of which its type lists are in step. */
  lemma {:induction false} TenantEditsSurvive(store: seq<RequestType>, envs: seq<Env>, i: nat, j: nat)
    requires i < |store| && j < |store[i].changeTypes|
    requires var row := store[i].changeTypes[j];
             row.available != [] && TenantEdited(row) && AlwaysInStep(row, store[i].name, envs)
    ensures Kept(store, Passes(store, envs))
    ensures var row, now := store[i].changeTypes[j], Passes(store, envs)[i].changeTypes[j];
            now == row || now == row.(deleted := true)
    decreases |envs|
  {
    PassesKeep(store, envs);
    if envs != [] {
      var row := store[i].changeTypes[j];
      RowAfterPass(store, envs[0], i, j);
      EditedRowHolds(row, DefaultOf(FindRequest(envs[0].defaults, store[i].name), row.description), envs[0].types);
      var next := TenantPass(store, envs[0]).value;
      forall e | e in envs[1..]
        ensures InStep(next[i].changeTypes[j],
                       DefaultOf(FindRequest(e.defaults, store[i].name), row.description), e.types)
      {
        assert e in envs;
        SameLists(row, next[i].changeTypes[j],
                  DefaultOf(FindRequest(e.defaults, store[i].name), row.description), e.types);
      }
      TenantEditsSurvive(next, envs[1..], i, j);
    }
  }

  lemma SameLists(a: ChangeType, b: ChangeType, d: Option<ChangeType>, types: seq<int>)
    requires a.supported == b.supported && a.available == b.available && InStep(a, d, types)
    ensures InStep(b, d, types)
  {
  }

  // ---- one row over completed passes ----

  /** Every pass completes and none deletes request type `i`. */
  predicate Undisturbed(store: seq<RequestType>, envs: seq<Env>, i: nat)
    requires i < |store|
    decreases |envs|
  {
    envs == [] ||
    (var o := TenantPass(store, envs[0]);
     && o.ok && envs[0].types != [] && i < |o.value|
     && (NoqManaged(store[i].updatedBy) ==> FindRequest(envs[0].defaults, store[i].name).Some?)
     && Undisturbed(o.value, envs[1..], i))
  }

  /** The passes as a change type of the named request type sees them. */
  function SettingsOf(name: string, description: string, envs: seq<Env>): seq<Setting>
    decreases |envs|
  {
    if envs == [] then []
    else [Setting(DefaultOf(FindRequest(envs[0].defaults, name), description), envs[0].types)]
         + SettingsOf(name, description, envs[1..])
  }

  lemma RowAfterCompletedPass(store: seq<RequestType>, env: Env, i: nat, j: nat)
    requires i < |store| && j < |store[i].changeTypes|
    requires TenantPass(store, env).ok && env.types != []
    requires NoqManaged(store[i].updatedBy) ==> FindRequest(env.defaults, store[i].name).Some?
    ensures Kept(store, TenantPass(store, env).value)
    ensures var row := store[i].changeTypes[j];
            TenantPass(store, env).value[i].changeTypes[j]
            == RowPass(row, DefaultOf(FindRequest(env.defaults, store[i].name), row.description), env.types).value
  {
    TenantPassKeeps(store, env);
    TenantPassAt(store, env, i);
    StepAllAt(store[i].changeTypes, RowStep(FindRequest(env.defaults, store[i].name), env.types), j);
  }

  /** A change type goes its own way: over completed passes that keep its request type it becomes what the
      passes make of it alone. */
  lemma {:induction false} RowRunsInTenant(store: seq<RequestType>, envs: seq<Env>, i: nat, j: nat)
    requires i < |store| && j < |store[i].changeTypes| && Undisturbed(store, envs, i)
    ensures Kept(store, Passes(store, envs))
    ensures var row := store[i].changeTypes[j];
            Passes(store, envs)[i].changeTypes[j] == RowRun(row, SettingsOf(store[i].name, row.description, envs))
    decreases |envs|
  {
    PassesKeep(store, envs);
    if envs != [] {
      RowAfterCompletedPass(store, envs[0], i, j);
      var row := store[i].changeTypes[j];
      var settings := SettingsOf(store[i].name, row.description, envs);
      assert settings[1..] == SettingsOf(store[i].name, row.description, envs[1..]);
      RowRunsInTenant(TenantPass(store, envs[0]).value, envs[1..], i, j);
    }
  }

  lemma {:induction false} PassesSplit(store: seq<RequestType>, envs: seq<Env>, last: Env)
    ensures Passes(store, envs + [last]) == TenantPass(Passes(store, envs), last).value
    decreases |envs|
  {
    if envs == [] {
      assert (envs + [last])[0] == last && (envs + [last])[1..] == [];
    } else {
      assert (envs + [last])[0] == envs[0] && (envs + [last])[1..] == envs[1..] + [last];
      PassesSplit(TenantPass(store, envs[0]).value, envs[1..], last);
    }
  }

  /** The settings of `envs` give the row the default `d` and cover none of its types. */
  predicate Uncovered(row: ChangeType, name: string, d: Option<ChangeType>, envs: seq<Env>) {
    forall s :: s in SettingsOf(name, row.description, envs) ==> s.d == d && !Covers(row, s)
  }

  /** ROUND TRIP. Passes in which the tenant has none of a live change type's template types delete it softly;
      the next pass in the original setting brings it back with the same available types and content,
      whoever managed it. */
  lemma TenantSupportRoundTrip(store: seq<RequestType>, lost: seq<Env>, back: Env, i: nat, j: nat)
    requires i < |store| && j < |store[i].changeTypes| && lost != []
    requires Undisturbed(store, lost, i) && Kept(store, Passes(store, lost))
        && Undisturbed(Passes(store, lost), [back], i)
    requires var row, d := store[i].changeTypes[j],
                           DefaultOf(FindRequest(back.defaults, store[i].name), store[i].changeTypes[j].description);
             && !row.deleted && row.available != [] && InStep(row, d, back.types)
             && Uncovered(row, store[i].name, d, lost)
    ensures Passes(store, lost)[i].changeTypes[j].deleted
    ensures Kept(store, Passes(store, lost + [back]))
    ensures var row, now := store[i].changeTypes[j], Passes(store, lost + [back])[i].changeTypes[j];
            !now.deleted && now.available == Sort(row.available) && SameContent(now, row)
  {
    var row := store[i].changeTypes[j];
    var d := DefaultOf(FindRequest(back.defaults, store[i].name), row.description);
    var settings := SettingsOf(store[i].name, row.description, lost);
    RowRunsInTenant(store, lost, i, j);
    SupportRoundTrip(row, d, settings, back.types);
    PassesSplit(store, lost, back);
    PassesKeep(store, lost + [back]);
    RowAfterCompletedPass(Passes(store, lost), back, i, j);
  }

  // ---- what holds of every row ----

  ghost predicate AllRows(P: ChangeType -> bool, rows: seq<ChangeType>) {
    forall x :: x in rows ==> P(x)
  }

  ghost predicate Everywhere(P: ChangeType -> bool, store: seq<RequestType>) {
    forall r :: r in store ==> AllRows(P, r.changeTypes)
  }

  /** The property holds of whatever a pass in this setting inserts. */
  ghost predicate Inserts(P: ChangeType -> bool, env: Env) {
    forall d, c :: d in env.defaults && c in d.changeTypes ==> P(Prepared(c, env.types))
  }

  lemma RequestPassRows(P: ChangeType -> bool, r: RequestType, env: Env)
    requires Invariant(P) && Inserts(P, env) && AllRows(P, r.changeTypes)
    ensures AllRows(P, RequestStep(env)(r).value.changeTypes)
  {
    var d := FindRequest(env.defaults, r.name);
    var rows := StepAll(r.changeTypes, RowStep(d, env.types)).value;
    forall j | 0 <= j < |rows| ensures P(rows[j]) {
      StepAllAt(r.changeTypes, RowStep(d, env.types), j);
      assert r.changeTypes[j] in r.changeTypes;
    }
    forall x | x in AllDeleted(r.changeTypes) ensures P(x) {
      var j :| 0 <= j < |r.changeTypes| && AllDeleted(r.changeTypes)[j] == x;
      assert r.changeTypes[j] in r.changeTypes;
    }
    if d.Some? {
      forall x | x in Missing(r.changeTypes, d.value.changeTypes, env.types) ensures P(x) {
        var c :| c in d.value.changeTypes && x == Prepared(c, env.types)
                 && FindChange(r.changeTypes, c.description).None?;
      }
    }
  }

  lemma InsertedRequestRows(P: ChangeType -> bool, store: seq<RequestType>, env: Env, r: RequestType)
    requires Inserts(P, env) && r in MissingRequests(store, env.defaults, env.types)
    ensures AllRows(P, r.changeTypes)
  {
    var d :| d in env.defaults && r == d.(changeTypes := PreparedAll(d.changeTypes, env.types))
             && FindRequest(store, d.name).None?;
    forall x | x in r.changeTypes ensures P(x) {
      var j :| 0 <= j < |r.changeTypes| && r.changeTypes[j] == x;
      assert d.changeTypes[j] in d.changeTypes;
    }
  }

  lemma TenantPassRows(P: ChangeType -> bool, store: seq<RequestType>, env: Env)
    requires Invariant(P) && Inserts(P, env) && Everywhere(P, store)
    ensures Everywhere(P, TenantPass(store, env).value)
  {
    var now := StepAll(store, RequestStep(env)).value;
    forall i | 0 <= i < |now| ensures AllRows(P, now[i].changeTypes) {
      StepAllAt(store, RequestStep(env), i);
      assert store[i] in store;
      RequestPassRows(P, store[i], env);
    }
    forall r | r in MissingRequests(store, env.defaults, env.types) ensures AllRows(P, r.changeTypes) {
      InsertedRequestRows(P, store, env, r);
    }
  }

  /** A property that every branch keeps and every inserted default has holds of all rows for good. */
  lemma {:induction false} EverywhereAlways(P: ChangeType -> bool, store: seq<RequestType>, envs: seq<Env>)
    requires Invariant(P) && Everywhere(P, store) && forall e :: e in envs ==> Inserts(P, e)
    ensures Everywhere(P, Passes(store, envs))
    decreases |envs|
  {
    if envs != [] {
      TenantPassRows(P, store, envs[0]);
      EverywhereAlways(P, TenantPass(store, envs[0]).value, envs[1..]);
    }
  }

  /** AVAILABILITY. In every state that passes reach from a store in which it holds, the empty one for a start,
      a live change type has an available template type. */
  lemma LiveIsAvailableAlways(store: seq<RequestType>, envs: seq<Env>)
    requires Everywhere(LiveIsAvailable, store)
    ensures Everywhere(LiveIsAvailable, Passes(store, envs))
  {
    forall row, d, types | LiveIsAvailable(row)
      ensures LiveIsAvailable(RowPass(row, d, types).value) && LiveIsAvailable(row.(deleted := true))
    {
      PassKeepsAvailable(row, d, types);
    }
    EverywhereAlways(LiveIsAvailable, store, envs);
  }

  /** VALIDITY. In every state that passes reach, completed or not, from a valid one, every row is valid: no pass
      asks the database for fields that share a key or an element. */
  lemma RowsStayValid(store: seq<RequestType>, envs: seq<Env>)
    requires Everywhere(ValidRow, store)
    requires forall e, d, c :: e in envs && d in e.defaults && c in d.changeTypes ==> Indexed(c.fields)
    ensures Everywhere(ValidRow, Passes(store, envs))
  {
    forall row, d, types | ValidRow(row) ensures ValidRow(RowPass(row, d, types).value) {
      PassKeepsValid(row, d, types);
    }
    forall e, d, c | e in envs && d in e.defaults && c in d.changeTypes ensures ValidRow(Prepared(c, e.types)) {
      PreparedIsValid(c, e.types);
    }
    EverywhereAlways(ValidRow, store, envs);
  }

  // ---- a provider whose defaults fail to load ----

  lemma {:induction false} GatherHas(results: seq<Option<seq<RequestType>>>, x: RequestType)
    ensures x in Gather(results) <==> exists i :: 0 <= i < |results| && results[i].Some? && x in results[i].value
  {
    if results != [] {
      GatherHas(results[1..], x);
      if exists i :: 0 <= i < |results| && results[i].Some? && x in results[i].value {
        var i :| 0 <= i < |results| && results[i].Some? && x in results[i].value;
        if i > 0 { assert results[1..][i - 1] == results[i]; }
      }
      if x in Gather(results[1..]) {
        var i :| 0 <= i < |results[1..]| && results[1..][i].Some? && x in results[1..][i].value;
        assert results[i + 1] == results[1..][i];
      }
    }
  }

  /** The defaults of the providers follow each other in their order, and one that raised adds none. */
  lemma {:induction false} GatherAppends(results: seq<Option<seq<RequestType>>>, last: Option<seq<RequestType>>)
    ensures Gather(results + [last]) == Gather(results) + (match last case None => [] case Some(ds) => ds)
  {
    if results == [] {
      assert results + [last] == [last] && [last][1..] == [];
    } else {
      assert (results + [last])[0] == results[0] && (results + [last])[1..] == results[1..] + [last];
      GatherAppends(results[1..], last);
    }
  }

  /** When no provider that loaded ships a request type, it counts as having no default. */
  lemma FailedProviderHasNoDefaults(results: seq<Option<seq<RequestType>>>, name: string)
    requires forall i, x :: 0 <= i < |results| && results[i].Some? && x in results[i].value ==> x.name != name
    ensures FindRequest(Gather(results), name).None?
  {
    var d := FindRequest(Gather(results), name);
    if d.Some? {
      GatherHas(results, d.value);
    }
  }

  lemma {:induction false} DeletedRequestStays(store: seq<RequestType>, envs: seq<Env>, i: nat)
    requires i < |store| && store[i].deleted
    ensures Kept(store, Passes(store, envs)) && Passes(store, envs)[i].deleted
    decreases |envs|
  {
    PassesKeep(store, envs);
    if envs != [] {
      TenantPassKeeps(store, envs[0]);
      TenantPassAt(store, envs[0], i);
      RequestPassKeeps(store[i], FindRequest(envs[0].defaults, store[i].name), envs[0].types);
      DeletedRequestStays(TenantPass(store, envs[0]).value, envs[1..], i);
    }
  }

  /** OUTAGE. One completed pass in which the defaults of a Noq-managed request type are missing deletes it,
      and nothing brings it back: over any later passes it stays deleted. */
  lemma OutageIsPermanent(store: seq<RequestType>, outage: Env, later: seq<Env>, i: nat)
    requires i < |store|
    requires TenantPass(store, outage).ok && outage.types != []
    requires NoqManaged(store[i].updatedBy) && FindRequest(outage.defaults, store[i].name).None?
    ensures TenantPass(store, outage).value[i] == Deleted(store[i])
    ensures var now := Passes(store, [outage] + later);
            Kept(store, now) && now[i].deleted
  {
    assert ([outage] + later)[1..] == later;
    PassesKeep(store, [outage] + later);
    TenantPassKeeps(store, outage);
    TenantPassAt(store, outage, i);
    DeletedRequestStays(TenantPass(store, outage).value, later, i);
  }

  /** Every change type of such a request type that had an available template type stays deleted, too. */
  lemma OutageBuriesChangeTypes(store: seq<RequestType>, outage: Env, later: seq<Env>, i: nat, j: nat)
    requires i < |store| && j < |store[i].changeTypes| && store[i].changeTypes[j].available != []
    requires TenantPass(store, outage).ok && outage.types != []
    requires NoqManaged(store[i].updatedBy) && FindRequest(outage.defaults, store[i].name).None?
    ensures var now := Passes(store, [outage] + later);
            Kept(store, now) && now[i].changeTypes[j] == store[i].changeTypes[j].(deleted := true)
  {
    assert ([outage] + later)[1..] == later;
    PassesKeep(store, [outage] + later);
    OutageIsPermanent(store, outage, later, i);
    BuriedForGood(TenantPass(store, outage).value, later, i, j);
  }
}
