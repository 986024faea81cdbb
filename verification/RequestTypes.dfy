/** Stored request types and change types of one tenant, and what one reconciliation pass makes of them. */
module RequestTypes {
  import opened Common
  import opened ChangeFields

  const NOQ := Some("Noq")

  datatype Attributes = Attributes(
    templateAttribute: Option<string>, applyAttrBehavior: Option<string>, providerDefinitionField: Option<string>)

  /** A stored change type. `supported` is every template type it could be used for, `available` the
      part of those that the tenant has. */
  datatype ChangeType = ChangeType(
    description: string, name: string, attrs: Attributes, template: string,
    supported: seq<int>, available: seq<int>, fields: seq<ChangeField>,
    createdBy: Option<string>, updatedBy: Option<string>, deleted: bool)

  datatype RequestType = RequestType(
    name: string, description: string, expressSupport: bool,
    updatedBy: Option<string>, deleted: bool, changeTypes: seq<ChangeType>)

  /** What the shipped defaults and the tenant's templates are when a pass runs. */
  datatype Env = Env(defaults: seq<RequestType>, types: seq<int>)

  predicate NoqManaged(updatedBy: Option<string>) {
    updatedBy == NOQ || updatedBy == None
  }

  // ---- one change type ----

  /** The branch a pass takes for one change type, in the order the source tests them. */
  datatype Verdict =
    | Retire       // no supported template type is left
    | Revive       // had no available type, has one now, last written by Noq
    | Unwritten    // nothing is committed
    | Retype       // the type lists moved; everything else waits for the next pass
    | TenantOwned  // edited or created by the tenant
    | Withdraw     // no longer among the defaults
    | Refresh      // brought to its default

  function NewSupported(row: ChangeType, d: Option<ChangeType>): seq<int> {
    if d.Some? then Sort(d.value.supported) else row.supported
  }

  function NewAvailable(row: ChangeType, d: Option<ChangeType>, types: seq<int>): seq<int> {
    Sort(Filter(NewSupported(row, d), types))
  }

  /** The stored type lists already are what the pass would compute. */
  predicate InStep(row: ChangeType, d: Option<ChangeType>, types: seq<int>) {
    && Sort(row.available) == NewAvailable(row, d, types)
    && Sort(row.supported) == NewSupported(row, d)
  }

  /** The branch, given the available types the pass computed, whether the lists are in step, and
      whether the row is among the defaults. */
  function Decide(row: ChangeType, a: seq<int>, inStep: bool, shipped: bool): Verdict {
    if a == [] && !row.deleted then Retire
    else if row.available == [] && a != [] then (if row.updatedBy == NOQ then Revive else Unwritten)
    else if row.deleted then Unwritten
    else if !inStep then Retype
    else if row.createdBy != NOQ || !NoqManaged(row.updatedBy) then TenantOwned
    else if !shipped then Withdraw
    else Refresh
  }

  function Classify(row: ChangeType, d: Option<ChangeType>, types: seq<int>): Verdict {
    Decide(row, NewAvailable(row, d, types), InStep(row, d, types), d.Some?)
  }

  function Retyped(row: ChangeType, d: Option<ChangeType>, types: seq<int>): ChangeType {
    row.(supported := NewSupported(row, d), available := NewAvailable(row, d, types))
  }

  /** The attribute and template part of a refresh: one write of the whole row if anything differs. */
  function Refreshed(row: ChangeType, d: ChangeType, types: seq<int>): ChangeType {
    if row.attrs == d.attrs && row.template == d.template then row
    else Retyped(row, Some(d), types).(attrs := d.attrs, template := d.template, updatedBy := NOQ)
  }

  /** The row a branch other than a refresh commits, if it commits one. */
  function Committed(v: Verdict, row: ChangeType, retyped: ChangeType): ChangeType {
    match v
    case Retire => retyped.(updatedBy := NOQ, deleted := true)
    case Revive => retyped.(updatedBy := NOQ, deleted := false)
    case Retype => retyped.(updatedBy := NOQ)
    case Withdraw => retyped.(deleted := true)
    case _ => row
  }

  function RowPass(row: ChangeType, d: Option<ChangeType>, types: seq<int>): (o: Step<ChangeType>)
    ensures o.value.description == row.description && o.value.createdBy == row.createdBy
  {
    var v := Classify(row, d, types);
    if v == Refresh then
      var f := TablePass(row.fields, d.value.fields);
      Step(Refreshed(row, d.value, types).(fields := f.rows), f.ok)
    else Step(Committed(v, row, Retyped(row, d, types)), true)
  }

  // ---- one request type ----

  function FindChange(ds: seq<ChangeType>, description: string): (d: Option<ChangeType>)
    ensures d.Some? ==> d.value in ds && d.value.description == description
    ensures d.None? ==> forall k :: 0 <= k < |ds| ==> ds[k].description != description
  {
    if ds == [] then None
    else if ds[|ds| - 1].description == description then Some(ds[|ds| - 1])
    else FindChange(ds[..|ds| - 1], description)
  }

  function FindRequest(ds: seq<RequestType>, name: string): (d: Option<RequestType>)
    ensures d.Some? ==> d.value in ds && d.value.name == name
    ensures d.None? ==> forall k :: 0 <= k < |ds| ==> ds[k].name != name
  {
    if ds == [] then None
    else if ds[|ds| - 1].name == name then Some(ds[|ds| - 1])
    else FindRequest(ds[..|ds| - 1], name)
  }

  function DefaultOf(d: Option<RequestType>, description: string): Option<ChangeType> {
    if d.Some? then FindChange(d.value.changeTypes, description) else None
  }

  /** What a pass does to the change types of a request type whose default is `d`. */
  function RowStep(d: Option<RequestType>, types: seq<int>): ChangeType -> Step<ChangeType> {
    (row: ChangeType) => RowPass(row, DefaultOf(d, row.description), types)
  }

  /** A default change type as it is inserted for a tenant that has `types`. */
  function Prepared(d: ChangeType, types: seq<int>): ChangeType {
    var a := Filter(d.supported, types);
    d.(available := a, deleted := d.deleted || a == [], fields := ByElement(d.fields))
  }

  /** "Add new change types". */
  function Missing(rows: seq<ChangeType>, ds: seq<ChangeType>, types: seq<int>): (r: seq<ChangeType>)
    ensures forall x :: x in r ==>
                  exists d :: d in ds && x == Prepared(d, types) && FindChange(rows, d.description).None?
  {
    if ds == [] then []
    else
      var tail := Missing(rows, ds[1..], types);
      if FindChange(rows, ds[0].description).None? then [Prepared(ds[0], types)] + tail else tail
  }

  /** `RequestType.delete`: the request type and all its change types are flagged. */
  function Deleted(r: RequestType): RequestType {
    r.(deleted := true, changeTypes := AllDeleted(r.changeTypes))
  }

  function AllDeleted(rows: seq<ChangeType>): (r: seq<ChangeType>)
    ensures |r| == |rows| && forall i :: 0 <= i < |rows| ==> r[i] == rows[i].(deleted := true)
  {
    seq(|rows|, i requires 0 <= i < |rows| => rows[i].(deleted := true))
  }

  function HeadPass(r: RequestType, d: RequestType): RequestType {
    if r.description == d.description && r.expressSupport == d.expressSupport then r
    else r.(description := d.description, expressSupport := d.expressSupport, updatedBy := NOQ)
  }

  /** The whole pass over one request type. Its default is looked up again, without a guard, to add
      new change types, so a tenant-managed request type without a default raises there. */
  function RequestPass(r: RequestType, d: Option<RequestType>, types: seq<int>): Step<RequestType> {
    if NoqManaged(r.updatedBy) && d.None? then Step(Deleted(r), true)
    else
      var head := if NoqManaged(r.updatedBy) then HeadPass(r, d.value) else r;
      var rows := StepAll(r.changeTypes, RowStep(d, types));
      if !rows.ok || d.None? then Step(head.(changeTypes := rows.value), false)
      else Step(head.(changeTypes := rows.value + Missing(r.changeTypes, d.value.changeTypes, types)), true)
  }

  // ---- the tenant ----

  /** The defaults of the providers that loaded; a provider that raised contributes nothing. */
  function Gather(results: seq<Option<seq<RequestType>>>): seq<RequestType> {
    if results == [] then []
    else (if results[0].Some? then results[0].value else []) + Gather(results[1..])
  }

  function RequestStep(env: Env): RequestType -> Step<RequestType> {
    (r: RequestType) => RequestPass(r, FindRequest(env.defaults, r.name), env.types)
  }

  function PreparedAll(ds: seq<ChangeType>, types: seq<int>): (r: seq<ChangeType>)
    ensures |r| == |ds| && forall i :: 0 <= i < |ds| ==> r[i] == Prepared(ds[i], types)
  {
    seq(|ds|, i requires 0 <= i < |ds| => Prepared(ds[i], types))
  }

  /** "Add new request types". */
  function MissingRequests(store: seq<RequestType>, ds: seq<RequestType>, types: seq<int>): (r: seq<RequestType>)
    ensures forall x :: x in r ==> exists d :: d in ds && x == d.(changeTypes := PreparedAll(d.changeTypes, types))
                                               && FindRequest(store, d.name).None?
  {
    if ds == [] then []
    else
      var tail := MissingRequests(store, ds[1..], types);
      if FindRequest(store, ds[0].name).None? then
        [ds[0].(changeTypes := PreparedAll(ds[0].changeTypes, types))] + tail
      else tail
  }

  /** One run of `upsert_tenant_request_types`. A tenant without templates is skipped. */
  function TenantPass(store: seq<RequestType>, env: Env): Step<seq<RequestType>> {
    if env.types == [] then Step(store, true)
    else
      var o := StepAll(store, RequestStep(env));
      if !o.ok then o
      else Step(o.value + MissingRequests(store, env.defaults, env.types), true)
  }

  /** The rows after a sequence of passes. A pass that raised keeps what it had committed. */
  function Passes(store: seq<RequestType>, envs: seq<Env>): seq<RequestType>
    decreases |envs|
  {
    if envs == [] then store
    else Passes(TenantPass(store, envs[0]).value, envs[1..])
  }

  predicate UniqueNames(store: seq<RequestType>) {
    forall i, j :: 0 <= i < j < |store| ==> store[i].name != store[j].name
  }

  predicate UniqueDescriptions(rows: seq<ChangeType>) {
    forall i, j :: 0 <= i < j < |rows| ==> rows[i].description != rows[j].description
  }

  predicate Unique(store: seq<RequestType>) {
    && UniqueNames(store)
    && forall i :: 0 <= i < |store| ==> UniqueDescriptions(store[i].changeTypes)
  }
}
