/** What a pass makes of rows and request types, in terms of their fields alone. The lemmas about change types
    cover every row: by its available types, whether some supported type is there, whether its type lists
    match, and who created and wrote it. */
module PassOutcomes {
  import opened Common
  import opened ChangeFields
  import opened FieldRuns
  import opened RequestTypes
  import opened RowProofs

  /** The template types a change type could be used for: those of its default, if it has one. */
  function Shipped(row: ChangeType, d: Option<ChangeType>): seq<int> {
    match d
    case None => row.supported
    case Some(e) => e.supported
  }

  /** The tenant has one of them. */
  predicate Supported(row: ChangeType, d: Option<ChangeType>, types: seq<int>) {
    exists t :: t in Shipped(row, d) && t in types
  }

  /** The list holds exactly the shipped types that the tenant has, in order. */
  ghost predicate HoldsAvailable(available: seq<int>, row: ChangeType, d: Option<ChangeType>, types: seq<int>) {
    && (forall i, j :: 0 <= i < j < |available| ==> available[i] <= available[j])
    && (forall t :: multiset(available)[t] == if t in types then multiset(Shipped(row, d))[t] else 0)
  }

  /** The stored lists name the types they should, in any order; without a default the stored list of supported types
      is compared with its unsorted self, and has to be in order. */
  ghost predicate ListsMatch(row: ChangeType, d: Option<ChangeType>, types: seq<int>) {
    && multiset(row.supported) == multiset(Shipped(row, d))
    && (d.None? ==> forall i, j :: 0 <= i < j < |row.supported| ==> row.supported[i] <= row.supported[j])
    && (forall t :: multiset(row.available)[t] == if t in types then multiset(Shipped(row, d))[t] else 0)
  }

  /** Nothing but the type lists, the signature and the deleted flag may differ. */
  predicate SameBut(now: ChangeType, row: ChangeType) {
    now.(supported := row.supported, available := row.available, updatedBy := row.updatedBy, deleted := row.deleted)
    == row
  }

  lemma AvailableIs(row: ChangeType, d: Option<ChangeType>, types: seq<int>)
    ensures HoldsAvailable(NewAvailable(row, d, types), row, d, types)
    ensures NewAvailable(row, d, types) != [] <==> Supported(row, d, types)
    ensures multiset(NewSupported(row, d)) == multiset(Shipped(row, d))
  {
    var sup, a := NewSupported(row, d), NewAvailable(row, d, types);
    if d.Some? { SortSorts(d.value.supported); }
    assert multiset(sup) == multiset(Shipped(row, d));
    SortSorts(Filter(sup, types));
    forall t ensures multiset(a)[t] == if t in types then multiset(Shipped(row, d))[t] else 0 {
      FilterMultiset(sup, types, t);
    }
    if a != [] {
      assert multiset(a)[a[0]] > 0;
      assert a[0] in multiset(Shipped(row, d));
    }
    if t :| t in Shipped(row, d) && t in types {
      assert multiset(Shipped(row, d))[t] > 0;
      assert t in multiset(a);
    }
  }

  lemma SortedMatch(a: seq<int>, b: seq<int>)
    requires Sorted(b)
    ensures Sort(a) == b <==> multiset(a) == multiset(b)
  {
    SortSorts(a);
    if multiset(a) == multiset(b) { SortedUnique(Sort(a), b); }
  }

  lemma SupportedMatch(row: ChangeType, d: Option<ChangeType>)
    ensures Sort(row.supported) == NewSupported(row, d) <==>
              && multiset(row.supported) == multiset(Shipped(row, d))
              && (d.None? ==> forall i, j :: 0 <= i < j < |row.supported| ==> row.supported[i] <= row.supported[j])
  {
    if d.None? {
      SortedIff(row.supported);
    } else {
      SortSorts(d.value.supported);
      SortedMatch(row.supported, Sort(d.value.supported));
    }
  }

  lemma AvailableMatch(row: ChangeType, d: Option<ChangeType>, types: seq<int>)
    ensures Sort(row.available) == NewAvailable(row, d, types) <==>
              forall t :: multiset(row.available)[t] == if t in types then multiset(Shipped(row, d))[t] else 0
  {
    var a := NewAvailable(row, d, types);
    AvailableIs(row, d, types);
    SortedMatch(row.available, a);
    if forall t :: multiset(row.available)[t] == if t in types then multiset(Shipped(row, d))[t] else 0 {
      assert forall t :: multiset(row.available)[t] == multiset(a)[t];
      assert multiset(row.available) == multiset(a);
    }
  }

  lemma MatchIs(row: ChangeType, d: Option<ChangeType>, types: seq<int>)
    ensures InStep(row, d, types) <==> ListsMatch(row, d, types)
  {
    SupportedMatch(row, d);
    AvailableMatch(row, d, types);
  }

  /** Where the lists match, writing the new ones keeps their elements. */
  lemma MatchKeeps(row: ChangeType, d: Option<ChangeType>, types: seq<int>)
    requires ListsMatch(row, d, types)
    ensures multiset(NewAvailable(row, d, types)) == multiset(row.available)
    ensures multiset(NewSupported(row, d)) == multiset(row.supported)
  {
    AvailableIs(row, d, types);
    AvailableMatch(row, d, types);
    SortSorts(row.available);
  }

  // ---- one change type ----

  /** No supported type is left: a live row is deleted and signed by Noq, with no available type. */
  lemma UnsupportedIsDeleted(row: ChangeType, d: Option<ChangeType>, types: seq<int>)
    requires !row.deleted && !Supported(row, d, types)
    ensures var o := RowPass(row, d, types);
            && o.ok && SameBut(o.value, row)
            && o.value.deleted && o.value.updatedBy == Some("Noq") && o.value.available == []
            && multiset(o.value.supported) == multiset(Shipped(row, d))
  {
    AvailableIs(row, d, types);
  }

  /** No type was available and now one is: the row is made live if Noq wrote it last, and left alone otherwise. */
  lemma SupportedAgain(row: ChangeType, d: Option<ChangeType>, types: seq<int>)
    requires row.available == [] && Supported(row, d, types)
    ensures var o := RowPass(row, d, types);
            if row.updatedBy == Some("Noq") then
              && o.ok && SameBut(o.value, row)
              && !o.value.deleted && o.value.updatedBy == Some("Noq")
              && HoldsAvailable(o.value.available, row, d, types)
              && multiset(o.value.supported) == multiset(Shipped(row, d))
            else o == Step(row, true)
  {
    AvailableIs(row, d, types);
  }

  /** Any other deleted row is left alone. */
  lemma DeletedIsLeftAlone(row: ChangeType, d: Option<ChangeType>, types: seq<int>)
    requires row.deleted && (row.available != [] || !Supported(row, d, types))
    ensures RowPass(row, d, types) == Step(row, true)
  {
    AvailableIs(row, d, types);
  }

  /** A usable row whose lists do not match gets the right ones and Noq's signature, and nothing else. */
  lemma ListsAreCorrected(row: ChangeType, d: Option<ChangeType>, types: seq<int>)
    requires !row.deleted && row.available != [] && Supported(row, d, types) && !ListsMatch(row, d, types)
    ensures var o := RowPass(row, d, types);
            && o.ok && SameBut(o.value, row)
            && !o.value.deleted && o.value.updatedBy == Some("Noq")
            && HoldsAvailable(o.value.available, row, d, types)
            && multiset(o.value.supported) == multiset(Shipped(row, d))
  {
    AvailableIs(row, d, types);
    MatchIs(row, d, types);
  }

  /** With matching lists a row that the tenant created or wrote last is left alone. */
  lemma TenantsRowIsLeftAlone(row: ChangeType, d: Option<ChangeType>, types: seq<int>)
    requires !row.deleted && row.available != [] && Supported(row, d, types) && ListsMatch(row, d, types)
    requires row.createdBy != Some("Noq") || (row.updatedBy != None && row.updatedBy != Some("Noq"))
    ensures RowPass(row, d, types) == Step(row, true)
  {
    AvailableIs(row, d, types);
    MatchIs(row, d, types);
  }

  /** A row that Noq created and nobody or Noq wrote last is deleted if it is no longer shipped. */
  lemma UnshippedIsDeleted(row: ChangeType, types: seq<int>)
    requires !row.deleted && row.available != [] && Supported(row, None, types) && ListsMatch(row, None, types)
    requires row.createdBy == Some("Noq") && (row.updatedBy == None || row.updatedBy == Some("Noq"))
    ensures var o := RowPass(row, None, types);
            && o.ok && SameBut(o.value, row)
            && o.value.deleted && o.value.updatedBy == row.updatedBy
            && multiset(o.value.available) == multiset(row.available) && o.value.supported == row.supported
  {
    AvailableIs(row, None, types);
    MatchIs(row, None, types);
    MatchKeeps(row, None, types);
  }

  /** REFRESH. Such a row that is shipped ends the pass with the attributes and the template of its default, whoever of
      the two it was, and with the fields that the field step leaves; Noq signs it if it had to be written. */
  lemma ShippedIsRefreshed(row: ChangeType, d: ChangeType, types: seq<int>)
    requires !row.deleted && row.available != [] && Supported(row, Some(d), types) && ListsMatch(row, Some(d), types)
    requires row.createdBy == Some("Noq") && (row.updatedBy == None || row.updatedBy == Some("Noq"))
    ensures var o, written := RowPass(row, Some(d), types), row.attrs != d.attrs || row.template != d.template;
            && o.value.attrs == d.attrs && o.value.template == d.template && !o.value.deleted
            && o.value.name == row.name && o.value.description == row.description && o.value.createdBy == row.createdBy
            && o.value.updatedBy == (if written then Some("Noq") else row.updatedBy)
            && multiset(o.value.available) == multiset(row.available)
            && multiset(o.value.supported) == multiset(row.supported)
            && Outcome(o.value.fields, o.ok) == TablePass(row.fields, d.fields)
  {
    AvailableIs(row, Some(d), types);
    MatchIs(row, Some(d), types);
    MatchKeeps(row, Some(d), types);
  }

  /** If such a pass completes, and the table was the size of the defaults or had their first keys, the fields are the
      defaults, too. */
  lemma RefreshedFields(row: ChangeType, d: ChangeType, types: seq<int>)
    requires !row.deleted && row.available != [] && Supported(row, Some(d), types) && ListsMatch(row, Some(d), types)
    requires row.createdBy == Some("Noq") && (row.updatedBy == None || row.updatedBy == Some("Noq"))
    requires FieldsReady(row, d)
    ensures var o := RowPass(row, Some(d), types);
            && o.ok
            && (forall f :: f in o.value.fields <==> f in d.fields) && |o.value.fields| == |d.fields|
  {
    ShippedIsRefreshed(row, d, types);
    TablePassConverges(row.fields, d.fields);
    SameFieldsLength(TablePass(row.fields, d.fields).rows, d.fields);
  }

  // ---- what is inserted ----

  lemma FilterEmptyIff(s: seq<int>, keep: seq<int>)
    ensures Filter(s, keep) == [] <==> !exists t :: t in s && t in keep
  {
    var a := Filter(s, keep);
    if a != [] {
      FilterMultiset(s, keep, a[0]);
      assert multiset(a)[a[0]] > 0;
      assert a[0] in s && a[0] in keep;
    }
    if t :| t in s && t in keep {
      FilterMultiset(s, keep, t);
      assert multiset(s)[t] > 0;
      assert t in a;
    }
  }

  /** A default is inserted with the shipped types that the tenant has, deleted if there is none. */
  lemma PreparedIs(d: ChangeType, types: seq<int>)
    ensures var row := Prepared(d, types);
            && (forall t :: multiset(row.available)[t] == if t in types then multiset(d.supported)[t] else 0)
            && (row.deleted <==> d.deleted || !exists t :: t in d.supported && t in types)
            && (forall f :: f in row.fields <==> f in d.fields) && |row.fields| == |d.fields|
            && row == d.(available := row.available, deleted := row.deleted, fields := row.fields)
  {
    ByElementSame(d.fields);
    FilterEmptyIff(d.supported, types);
    forall t ensures multiset(Filter(d.supported, types))[t] == if t in types then multiset(d.supported)[t] else 0 {
      FilterMultiset(d.supported, types, t);
    }
  }

  predicate IsListed(rows: seq<ChangeType>, description: string) {
    exists k :: 0 <= k < |rows| && rows[k].description == description
  }

  lemma {:induction false} FindChangeIff(ds: seq<ChangeType>, description: string)
    ensures FindChange(ds, description).Some? <==> IsListed(ds, description)
  {
    if ds != [] {
      var front := ds[..|ds| - 1];
      FindChangeIff(front, description);
      if IsListed(front, description) {
        var k :| 0 <= k < |front| && front[k].description == description;
        assert ds[k].description == description;
      }
    }
  }

  /** Of the defaults one by one, those whose description is not stored are inserted, in their order. */
  lemma {:induction false} MissingIs(rows: seq<ChangeType>, d: ChangeType, ds: seq<ChangeType>, types: seq<int>)
    ensures Missing(rows, [], types) == []
    ensures Missing(rows, [d] + ds, types)
            == (if IsListed(rows, d.description) then [] else [Prepared(d, types)]) + Missing(rows, ds, types)
  {
    assert ([d] + ds)[1..] == ds;
    FindChangeIff(rows, d.description);
  }

  // ---- one request type ----

  /** A request type that nobody or Noq wrote last and that is no longer shipped is deleted with all its change
      types. */
  lemma UnshippedRequestIsDeleted(r: RequestType, types: seq<int>)
    requires r.updatedBy == None || r.updatedBy == Some("Noq")
    ensures var o := RequestPass(r, None, types);
            && o.ok && o.value.deleted
            && o.value.name == r.name && o.value.description == r.description
            && o.value.expressSupport == r.expressSupport && o.value.updatedBy == r.updatedBy
            && |o.value.changeTypes| == |r.changeTypes|
            && forall j :: 0 <= j < |r.changeTypes| ==> o.value.changeTypes[j] == r.changeTypes[j].(deleted := true)
  {
  }

  /** One that is shipped takes the description and the express support of its default, signed by Noq if either
      differed. */
  lemma ShippedRequestIsRefreshed(r: RequestType, d: RequestType, types: seq<int>)
    requires r.updatedBy == None || r.updatedBy == Some("Noq")
    ensures var o := RequestPass(r, Some(d), types).value;
            && o.description == d.description && o.expressSupport == d.expressSupport
            && o.name == r.name && o.deleted == r.deleted
            && o.updatedBy == (if r.description == d.description && r.expressSupport == d.expressSupport
                               then r.updatedBy else Some("Noq"))
  {
  }

  /** One that the tenant wrote last keeps all but its change types; without a default the pass raises. */
  lemma TenantsRequestIsKept(r: RequestType, d: Option<RequestType>, types: seq<int>)
    requires r.updatedBy != None && r.updatedBy != Some("Noq")
    ensures var o := RequestPass(r, d, types);
            && o.value.(changeTypes := r.changeTypes) == r && (d.None? ==> !o.ok)
  {
  }

  /** The change types of a request type that is not deleted: when the pass completes each is passed over with the
      default of its description, and the missing ones follow. */
  lemma RequestRows(r: RequestType, d: RequestType, types: seq<int>)
    requires RequestPass(r, Some(d), types).ok
    ensures var now := RequestPass(r, Some(d), types).value.changeTypes;
            && |now| == |r.changeTypes| + |Missing(r.changeTypes, d.changeTypes, types)|
            && now[|r.changeTypes|..] == Missing(r.changeTypes, d.changeTypes, types)
            && forall j :: 0 <= j < |r.changeTypes| ==>
                 RowPass(r.changeTypes[j], FindChange(d.changeTypes, r.changeTypes[j].description), types)
                 == Step(now[j], true)
  {
    var f := RowStep(Some(d), types);
    forall j | 0 <= j < |r.changeTypes| ensures f(r.changeTypes[j]) == Step(StepAll(r.changeTypes, f).value[j], true) {
      StepAllAt(r.changeTypes, f, j);
    }
  }

  /** Of several defaults with one description the last counts. */
  lemma LastDefaultCounts(ds: seq<ChangeType>, d: ChangeType)
    ensures FindChange(ds + [d], d.description) == Some(d)
  {
    assert (ds + [d])[|ds + [d]| - 1] == d;
  }

  lemma LastRequestDefaultCounts(ds: seq<RequestType>, d: RequestType)
    ensures FindRequest(ds + [d], d.name) == Some(d)
  {
    assert (ds + [d])[|ds + [d]| - 1] == d;
  }

  // ---- the tenant ----

  predicate IsRequestListed(store: seq<RequestType>, name: string) {
    exists k :: 0 <= k < |store| && store[k].name == name
  }

  lemma {:induction false} FindRequestIff(ds: seq<RequestType>, name: string)
    ensures FindRequest(ds, name).Some? <==> IsRequestListed(ds, name)
  {
    if ds != [] {
      var front := ds[..|ds| - 1];
      FindRequestIff(front, name);
      if IsRequestListed(front, name) {
        var k :| 0 <= k < |front| && front[k].name == name;
        assert ds[k].name == name;
      }
    }
  }

  /** Of the default request types one by one, those whose name is not stored are inserted with all their change
      types. */
  lemma {:induction false} MissingRequestsAre(store: seq<RequestType>, d: RequestType, ds: seq<RequestType>,
                                              types: seq<int>)
    ensures MissingRequests(store, [], types) == []
    ensures var all, rest := MissingRequests(store, [d] + ds, types), MissingRequests(store, ds, types);
            if IsRequestListed(store, d.name) then all == rest
            else
              && |all| == 1 + |rest| && all[1..] == rest
              && all[0].(changeTypes := d.changeTypes) == d && |all[0].changeTypes| == |d.changeTypes|
              && forall j :: 0 <= j < |d.changeTypes| ==> all[0].changeTypes[j] == Prepared(d.changeTypes[j], types)
  {
    assert ([d] + ds)[1..] == ds;
    FindRequestIff(store, d.name);
  }

  /** A pass over a tenant without templates does nothing. Any other that completes passes over each request type with
      the default of its name, and the missing ones follow. */
  lemma TenantRows(store: seq<RequestType>, env: Env)
    ensures env.types == [] ==> TenantPass(store, env) == Step(store, true)
    ensures env.types != [] && TenantPass(store, env).ok ==>
              var now := TenantPass(store, env).value;
              && |store| <= |now| && now[|store|..] == MissingRequests(store, env.defaults, env.types)
              && forall i :: 0 <= i < |store| ==>
                   RequestPass(store[i], FindRequest(env.defaults, store[i].name), env.types) == Step(now[i], true)
  {
    if env.types != [] && TenantPass(store, env).ok {
      var f := RequestStep(env);
      forall i | 0 <= i < |store| ensures f(store[i]) == Step(StepAll(store, f).value[i], true) {
        StepAllAt(store, f, i);
      }
    }
  }
}
