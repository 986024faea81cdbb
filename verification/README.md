# Cloudumi: verified models of its state machines

This Dafny project models six parts of Cloudumi that keep state, and proves what they guarantee over whole
runs, exactly when a promise holds, and where it does not.

| part | specification and theorems | the code as it runs |
|---|---|---|
| Reconciling a tenant's request types, change types and change fields with the shipped defaults | `RequestTypes`, `ChangeFields`, `FieldRuns`, `RowProofs`, `TenantProofs`, `Convergence`, `LongRuns`, `PassOutcomes` | `Reconciler` |
| Self-service requests: a database record, a GitHub pull request, user calls and webhook deliveries | `RequestProtocol`, `RequestRuns`, `CallOutcomes` | `RequestCalls` |
| The tenant configuration cache: memory and memo per worker, Redis, DynamoDB | `TenantCache`, `MonotoneReads` | `TenantConfiguration` |
| Loading a configuration and what it extends | `ConfigTree`, `ConfigLoader` | `ConfigLoader.DictMerge`, `ConfigLoader.Configuration` |
| Editing a configuration tree: objects at dotted keys, keyed lists | `TreeEditor`, `KeyedList` | `ModelAdapter` |
| Draining the webhook queue | `WebhookQueue` | `WebhookQueue` |

`Common` holds options, sorting and the loop that stops when an item raises.

Each imperative part is a class whose methods have the branches of the source. Their postconditions equate the new
state with a specification function of the old one, and the theorems are about those functions. In memory and
committed state are kept apart: a change type has `row` and `stored`, a request has `row` and `stored`, and only
writes move one into the other.

`PassOutcomes` and `CallOutcomes` say in stored fields alone what a pass and a call make of each input, and cover
every case; the theorems over runs rest on the same functions.

## Results

Where the code does what its documentation says, the property is proved for every input, run or
interleaving. Where it does not, the exact condition is proved instead:

* **Convergence** (`TwoPassesConvergeIff`): with defaults and template types fixed, two passes complete and reach a
  state that a third does not change, in which everything live that Noq manages equals its default, if and only
  if the fields of every row that the two passes refresh can be brought to the default. `FieldPassConverges` gives
  that condition exactly for a row refreshed once, `FieldRunConvergesIff` for one refreshed twice or more often.
* **In the long run** (`StoreSettlesOrRaises`, `RowSettlesOrRaises`): a row that misses the first condition and meets
  the second settles in a third pass (`SecondRefreshNeeded`). If every row meets the second and every tenant-managed
  request type has a default, all passes complete and nothing changes from the third on. Otherwise every pass from the
  third on, at the latest, raises, and a pass that raises once raises for good (`RaiseIsPermanent`,
  `PassRaisesForGood`): it stops the loop, so that the request types behind that point are not reconciled any more.
* **Changed defaults** (`RemovingDefault`, `AddingDefault`): it follows that a shipped change type can gain or lose a
  field only if that field has the highest number; otherwise the passes run into the unique index on
  `change_element` or on `field_key`. The policy name of the AWS permissions has number 0 and could not have been
  added to a stored change type (`PolicyNameNeverArrives`).
* **Tenant edits** (`TenantEditSurvivesIff`): an edit of a shipped change type survives if and only if its
  template-type lists were already in step, or every type is gone, or there is nothing to overwrite. Otherwise the
  pass that corrects the lists also signs the row as Noq's, and the next pass overwrites the edit
  (`EditLostToNewType`: one shipped type more is enough). An edited row whose types go and return keeps the edit for
  one pass and loses it in the next (`EditLostOnReturn`).
* **Coming back** (`ComesBackInRunIff`): a soft-deleted change type comes back in some pass only if no available type
  was stored for it and Noq wrote it last. Defaults carry no `updated_by`, so one inserted while the tenant had
  none of its types never becomes live (`InsertedUnavailableIsBuried`, `BuriedForGood`), contrary to the
  docstring of `upsert_tenant_request_types`.
* **Dropped defaults** (`WithdrawnIff`): a change type that Noq drops is deleted if and only if its stored list of
  supported types is sorted. The list is inserted in the order of the defaults, which is not always sorted
  (`UnsortedDefaultStays`).
* **Provider outage** (`OutageIsPermanent`, `OutageBuriesChangeTypes`): one pass in which a provider's defaults failed
  to load deletes its Noq-managed request types for good.
* **Requests** (`AppliedMeansMerged`, `ApprovalProvenance`, `CallAfterMergeSettles`, `SettledUntilDelivery`): these
  hold over every run, with stale loads and with deliveries duplicated, reordered, lost or late. Three runs end
  otherwise than their last call reads, because its final poll still sees an approving review: an apply leaves the
  request Approved after posting its comment (`ApplyEndsApproved`), an edit does not withdraw the approval
  (`EditStaysApproved`), and a reject closes the pull request and leaves the request Approved
  (`RejectEndsApproved`).
* **Who may do what** (`ApprovalGoesThroughIff`, `ApplyGoesThroughIff`, `UpdateGoesThroughIff`,
  `RejectGoesThroughIff`, `RevertGoesThroughIff`): each call goes through if and only if its guard holds of the
  stored record, the user and the user's groups.
* **Webhooks** (`MergeReachesRecord`, `CloseReachesRecord`, `ReviewReachesRecord`): a merge, a close and an approving
  review each emit one update. Delivered at the end of any run that follows, it leaves the request Applied, Rejected,
  and Applying or Approved.
* **Cache** (`ReadsAreFresh`): because stamps are whole seconds, the documented 10 seconds are 11, and 16 through the
  memo, plus DynamoDB's latency; nothing less would do (`ElevenSecondsAreNeeded`, `SixteenSecondsAreNeeded`).
* **Monotone reads** (`AtomicReadsAreMonotone`, `ReadsStayMonotoneIff`): reads never go back a version if reading
  DynamoDB and storing its answer are one step. They are two, and an answer may be stored late. Over whole runs, with any
  number of late stores, reads stay safe if and only if no store exposes a worker: one that is not fetching,
  holds a newer version under a stamp older than the second of the store, and has served it or still may.
  `OvertakenReadGoesBack` is a run in which one is exposed.
* **Loading** (`MergeExtendedPaths`, `RankExistsIff`): the loader terminates and folds the merge over the files in
  depth-first preorder whenever no file extends itself, directly or through others. What a file named under
  `extends` says can be read in the result unless something merged earlier occupies its path (`ExtendedFileIsRead`).
* **Trees** (`StoreItemThenDeleteKey`, `StoreAllRefines`, `StoreAllRaisesIff`, `SweepIsCleanIff`, `DeleteListIff`): each
  with its exact condition. Storing at an absent key and deleting it again is invisible to lookups if and only if
  it had to make no parent, or only one; `EmptyParentsRemain` shows two.

## Model

| member | source | states |
|---|---|---|
| ChangeFields.FieldPassConverges | common/request_types/tasks.py:229-290 | one field step ends with exactly the default fields, listed in any order, if and only if the keys the count-based insert skips are present and no field is moved onto an element still in use |
| ChangeFields.UpdatesExactly | common/request_types/tasks.py:234-274 | the update loop completes exactly when every move is free, and then every field with a default equals it |
| ChangeFields.InsertsExactly | common/request_types/tasks.py:277-282 | the insert loop adds the defaults numbered from the field count on, in list order, and raises exactly when one of them breaks a unique index |
| FieldRuns.FieldFixpointIff | common/request_types/tasks.py:229-290 | the field step leaves a table alone if and only if it holds exactly the defaults, in any order |
| FieldRuns.ElementsFitIff | common/request_types/tasks.py:234-274 | loaded by element, a table can be updated if and only if no field is moved up onto an element in use, or onto that of a field without a default |
| FieldRuns.RaiseIsPermanent | common/request_types/tasks.py:229-290 | once the field step of a change type raises, it raises in every later pass, which loads the fields anew in the order of their elements |
| FieldRuns.FieldRunConvergesIff | common/request_types/tasks.py:229-290 | from two passes on the fields are exactly the defaults if and only if no field is moved onto an element in use and either the skipped keys are present or the table is at least as long as the defaults and holds the first so many of them; otherwise the step raises for good |
| FieldRuns.SecondRefreshNeeded | common/request_types/tasks.py:276-290 | a table longer than the defaults that takes two refreshes to reach them |
| FieldRuns.PassLeavesTable | common/request_types/models.py:386-392 | after any field step, completed or not, both unique indexes hold and the fields load in the order of their elements |
| FieldRuns.RemovingDefault | common/request_types/models.py:522-528 | after a field is dropped from the defaults the passes complete if and only if it was the one numbered last, wherever it was listed |
| FieldRuns.AddingDefault | common/request_types/models.py:522-528 | after a field is added to the defaults the passes complete if and only if it is numbered last, wherever it is listed |
| FieldRuns.PolicyNameNeverArrives | common/request_types/defaults/aws.py:401-413 | the shipped lists, ordered 1, 2, 0, are covered, and a change type stored without the policy name never gets it |
| Common.SortIdempotent | common/request_types/tasks.py:155-167 | sorting a sorted type list changes nothing, so rewritten lists stay in step |
| Common.SortFilter | common/request_types/tasks.py:113-117 | filtering by the tenant's types before or after sorting gives the same sorted list |
| RowProofs.RowConvergesIff | common/request_types/tasks.py:150-290 | one change type: two passes complete and reach a fixpoint, which is the default if Noq manages the row, if and only if its fields fit the refreshes the two passes make |
| RowProofs.RowSettlesOrRaises | common/request_types/tasks.py:150-290 | one change type: from the third pass on it is such a fixpoint if its fields fit in two refreshes, and otherwise its pass raises every time |
| RowProofs.RefreshLeavesDefault | common/request_types/tasks.py:203-290 | a refresh makes attributes, template, type lists and fields equal to the default and stays a refresh |
| RowProofs.ComesBackInRunIff | common/request_types/tasks.py:174-181 | a soft-deleted row becomes live in some pass of a run if and only if it stored no available type, Noq wrote it last and some pass finds a type available |
| RowProofs.InsertedUnavailableIsBuried | common/request_types/tasks.py:113-119 | a default inserted while none of its types is available can never become live |
| RowProofs.SupportRoundTrip | common/request_types/tasks.py:169-178 | losing all types soft-deletes a live row, and regaining them after any number of passes restores it with the same available types and content |
| RowProofs.TenantEditSurvivesIff | common/request_types/tasks.py:182-197 | a tenant's edit of a shipped change type survives two passes if and only if its type lists were in step, or every type is gone, or a refresh would write nothing |
| RowProofs.NothingToOverwriteIff | common/request_types/tasks.py:203-290 | where the field step completes, a refresh would write nothing if and only if the row equals its default |
| RowProofs.EditLostOnReturn | common/request_types/models.py:453-462 | when its types return an edited row is live with the edit, signed as Noq's, and the next pass overwrites the edit |
| RowProofs.EditLostToNewType | common/request_types/tasks.py:182-190 | an edited row is overwritten once its default names one template type more |
| RowProofs.TenantCreatedKeepsContent | common/request_types/tasks.py:192-197 | a change type not created by Noq keeps attributes, template and fields in every pass |
| RowProofs.WithdrawnIff | common/request_types/tasks.py:182-201 | a change type dropped from the defaults is deleted by repeated passes if and only if its stored supported list is sorted |
| RowProofs.UnsortedDefaultStays | common/request_types/defaults/aws.py:545-549 | a row inserted with the shipped list role, user, group is never deleted after Noq drops it |
| TenantProofs.PassesKeep | common/request_types/tasks.py:130-317 | over any sequence of passes, completed or not, no request type or change type is lost, moved or renamed |
| TenantProofs.PassesStayUnique | common/request_types/tasks.py:292-317 | names stay unique per tenant and descriptions per request type over any sequence of passes |
| TenantProofs.TenantCreatedSurvives | common/request_types/tasks.py:192-197 | over any sequence of passes a change type created by the tenant keeps its content |
| TenantProofs.TenantEditsSurvive | common/request_types/tasks.py:150-197 | over any sequence of passes in step with it, a tenant-edited change type keeps everything but its deleted flag |
| TenantProofs.BuriedForGood | common/request_types/tasks.py:169-181 | over any sequence of passes a buried row stays exactly as it is |
| TenantProofs.RowRunsInTenant | common/request_types/tasks.py:130-290 | over completed passes a change type becomes what the passes make of it alone, whatever else the tenant stores |
| TenantProofs.TenantSupportRoundTrip | common/request_types/tasks.py:169-178 | the support round trip for a stored row of a tenant over whole passes |
| TenantProofs.LiveIsAvailableAlways | common/request_types/tasks.py:169-190 | in every state passes reach, a live change type has an available template type |
| TenantProofs.RowsStayValid | common/request_types/models.py:522-528 | in every state passes reach, live rows are available and no two fields of a change type share a key or an element |
| TenantProofs.OutageIsPermanent | common/request_types/tasks.py:93-138 | one completed pass without the defaults of a Noq-managed request type deletes it for good |
| TenantProofs.OutageBuriesChangeTypes | common/request_types/models.py:203-215 | so it does each of its change types that had an available type |
| TenantProofs.FailedProviderHasNoDefaults | common/request_types/tasks.py:101-108 | a request type that no loaded provider ships has no default in that pass |
| Convergence.TwoPassesConvergeIff | common/request_types/tasks.py:23-317 | two passes complete and reach a state a third does not change, in which what Noq manages equals the defaults, if and only if every tenant-managed request type has a default and every row the two passes refresh can be brought to its own |
| Convergence.RequestConvergesIff | common/request_types/tasks.py:130-301 | the same for one request type and the change types added to it |
| LongRuns.StoreSettlesOrRaises | common/request_types/tasks.py:23-317 | from the third pass on either every pass completes and nothing changes any more, or every pass raises; which of the two can be read off the store at the start |
| LongRuns.PassRaisesForGood | common/request_types/tasks.py:130-301 | once a pass over a tenant raises, every later one raises |
| Convergence.PassesAreValid | common/request_types/tasks.py:126-317 | whatever passes a new tenant has gone through, its store meets what the convergence theorems assume of it |
| Convergence.PreparedIsFixed | common/request_types/tasks.py:113-123 | a freshly inserted default needs no further change |
| Convergence.PassAddsAll | common/request_types/tasks.py:303-317 | after one completed pass every default request type is stored |
| PassOutcomes.AvailableIs | common/request_types/tasks.py:155-167 | the stored available types become the shipped types that the tenant has, in order, with their multiplicities |
| PassOutcomes.MatchIs | common/request_types/tasks.py:155-185 | the lists are in step exactly when both hold the right types in any order, and, without a default, the supported list is sorted |
| PassOutcomes.UnsupportedIsDeleted | common/request_types/tasks.py:169-173 | a live row none of whose types the tenant has is deleted, signed by Noq, and stores no available type |
| PassOutcomes.SupportedAgain | common/request_types/tasks.py:174-178 | a row without an available type that gains one is made live with it if Noq wrote it last, and is otherwise not written |
| PassOutcomes.DeletedIsLeftAlone | common/request_types/tasks.py:179-181 | any other deleted row is left alone |
| PassOutcomes.ListsAreCorrected | common/request_types/tasks.py:182-190 | a usable row whose lists do not match gets the right lists and the signature of Noq, and nothing else |
| PassOutcomes.TenantsRowIsLeftAlone | common/request_types/tasks.py:192-197 | with matching lists a row that the tenant created or wrote last is left alone |
| PassOutcomes.UnshippedIsDeleted | common/request_types/tasks.py:198-201 | a row that Noq created and nobody or Noq wrote last is deleted when no longer shipped |
| PassOutcomes.ShippedIsRefreshed | common/request_types/tasks.py:192-227 | such a row that is shipped ends the pass with the attributes and template of its default, signed by Noq if they differed |
| PassOutcomes.RefreshedFields | common/request_types/tasks.py:203-290 | and with exactly the fields of its default, where they can be brought to it in one pass |
| PassOutcomes.PreparedIs | common/request_types/tasks.py:112-123 | a default is inserted with the shipped types the tenant has, and deleted if there is none |
| PassOutcomes.UnshippedRequestIsDeleted | common/request_types/tasks.py:133-138 | a request type that nobody or Noq wrote last is deleted with its change types when no longer shipped |
| PassOutcomes.ShippedRequestIsRefreshed | common/request_types/tasks.py:133-148 | and otherwise takes the description and express support of its default, signed by Noq if either differed |
| PassOutcomes.TenantsRequestIsKept | common/request_types/tasks.py:130-148 | a request type that the tenant wrote last keeps all but its change types; without a default the pass raises |
| PassOutcomes.RequestRows | common/request_types/tasks.py:150-301 | after a completed pass each change type is what the pass makes of it with the default of its description, and the missing defaults follow |
| PassOutcomes.MissingIs | common/request_types/tasks.py:292-301 | a default change type is added if and only if its description is not stored, in the order of the defaults |
| PassOutcomes.MissingRequestsAre | common/request_types/tasks.py:303-317 | the same for default request types, by name |
| PassOutcomes.TenantRows | common/request_types/tasks.py:49-317 | a whole pass over a tenant, request type by request type |
| Reconciler.ChangeTypeObject.ReconcileFields | common/request_types/tasks.py:229-290 | the three field loops leave what the specification says, including what was committed before a raise |
| Reconciler.ChangeTypeObject.DeleteRemovedFields | common/request_types/tasks.py:284-290 | exactly the fields without a default are hard-deleted, the others keep their order |
| Reconciler.ChangeTypeObject.Reinitialize | common/request_types/models.py:453-462 | the row is made live, signed by Noq and written |
| Reconciler.ChangeTypeObject.Reconcile | common/request_types/tasks.py:150-290 | the loop body commits exactly the specified row, although it changes more in memory |
| Reconciler.RequestTypeObject.Delete | common/request_types/models.py:203-215 | the request type and all its change types are flagged deleted |
| Reconciler.RequestTypeObject.Reconcile | common/request_types/tasks.py:130-301 | one request type: deletion, attributes, change types, missing defaults, and the raise when a tenant-managed one has no default |
| Reconciler.TenantRecord.Upsert | common/request_types/tasks.py:49-317 | a whole pass commits the specified store, also when it stops early or raises |
| RequestProtocol.ScanIsOrderIndependent | common/iambic_request/models.py:423-436 | the review state does not depend on the order of the reviews |
| RequestProtocol.ScanFindsEveryApprover | common/iambic_request/models.py:428-436 | without a request for changes the approvers loaded are exactly the human reviewers who approved |
| RequestProtocol.PollRecordsApprovers | common/iambic_request/models.py:683-694 | a poll that moves a request to Approved adds every human approver, once each, and drops none |
| RequestRuns.RefusedCallsLeaveTheWorld | common/iambic_request/request_crud.py:323-456 | a call that is refused or raises leaves the record, GitHub and the comments alone |
| RequestProtocol.DoneCallsAreSigned | common/iambic_request/request_crud.py:304-433 | who is recorded as writer, approver or rejecter after a call that goes through |
| RequestRuns.StepKeepsInv | common/iambic_request/request_crud.py:201-484 | every call, delivery and GitHub event keeps the invariant that ties statuses and comments to their causes |
| RequestRuns.AppliedMeansMerged | common/iambic_request/tasks.py:45-63 | in every reachable state Applied or Reverted implies the pull request has been merged |
| RequestRuns.ApprovalProvenance | common/iambic_request/request_crud.py:387-430 | Approved, Applying and apply comments need an approving review on GitHub, Approving and approve comments an approve call while the record was Pending, not deleted, by a user with a group in its allowed approvers |
| RequestRuns.NothingWithoutApproval | common/iambic_request/request_crud.py:387-430 | without any approval the status is Pending, Rejected, Applied or Reverted and nothing is posted |
| RequestRuns.CallAfterMergeSettles | common/iambic_request/models.py:683-704 | after any run, a call or poll that saw the merge leaves the request Applied or Reverted |
| RequestRuns.SettledUntilDelivery | common/iambic_request/request_crud.py:323-484 | without deliveries Applied and Reverted are never left, and Reverted keeps its record |
| RequestRuns.ApplyIsPostedOnlyFrom | common/iambic_request/request_crud.py:405-430 | an apply comment is posted once, from Approved by an authorised user or from Approving by a delivered approval |
| RequestRuns.ApplyEndsApproved | common/iambic_request/models.py:683-694 | a run whose apply posts its comment and ends Approved |
| RequestRuns.EditStaysApproved | common/iambic_request/request_crud.py:304-315 | a run whose edit leaves the earlier approval in force |
| RequestRuns.RejectEndsApproved | common/iambic_request/request_crud.py:444-482 | a run whose reject closes the pull request and ends Approved |
| CallOutcomes.ApprovalGoesThroughIff | common/iambic_request/request_crud.py:387-404 | an approval of a pending request goes through if and only if the request is not deleted and some group of the user may approve it, and otherwise leaves all as it was |
| CallOutcomes.ApplyGoesThroughIff | common/iambic_request/request_crud.py:392-410 | otherwise the call goes through if and only if the request is Approved and the user created it or has such a group |
| CallOutcomes.UpdateGoesThroughIff | common/iambic_request/request_crud.py:279-291 | an update goes through if and only if the request is Pending or Approved, not deleted, and the user created it or has such a group |
| CallOutcomes.RejectGoesThroughIff | common/iambic_request/request_crud.py:444-456 | a reject goes through if and only if the request is Pending, not deleted, and the user created it or has such a group |
| CallOutcomes.RevertGoesThroughIff | common/iambic_request/request_crud.py:329-341 | a revert is allowed if and only if the request is Applied, not deleted, and the user created it or has such a group; it raises where nothing was merged |
| CallOutcomes.ApprovalWrites | common/iambic_request/request_crud.py:403-432 | an approval writes Approving, or what the pull request was found to be, with approver and writer, posts the comment if it can be merged, and polls |
| CallOutcomes.ApplyWrites | common/iambic_request/request_crud.py:410-432 | an apply writes Applying, or what the pull request was found to be, and the writer, posts the comment if it can be merged, and polls |
| CallOutcomes.UpdateWrites | common/iambic_request/request_crud.py:296-315 | an update writes Pending and the writer, drops the approvers of an approved request, and polls |
| CallOutcomes.RejectWrites | common/iambic_request/request_crud.py:458-484 | a reject closes the pull request, writes Rejected if it was not merged and the rejecter if it was open, and polls |
| CallOutcomes.RevertWrites | common/iambic_request/request_crud.py:343-359 | a revert writes Reverted and the writer and drops the approvers, whatever the final poll sees |
| CallOutcomes.CreatedIs | common/iambic_request/request_crud.py:239-262 | a created request is Pending with no approver before its poll |
| CallOutcomes.PollIs | common/iambic_request/models.py:683-704 | status and approvers after a poll, for every record and load |
| CallOutcomes.StateIs | common/iambic_request/models.py:427-433 | one request for changes outweighs every approval |
| CallOutcomes.UpdatesAre | common/github/webhook_event_buffer.py:154-181 | which events become updates, and what the updates carry |
| CallOutcomes.DeliveryIs | common/iambic_request/tasks.py:45-77 | status, approvers and comments after a delivery, for every record and update |
| CallOutcomes.MergeReachesRecord | common/github/webhook_event_buffer.py:154-181 | a merge emits one update, and its delivery at the end of any run leaves the request Applied |
| CallOutcomes.CloseReachesRecord | common/github/webhook_event_buffer.py:154-181 | a close without a merge emits one update, and its delivery leaves the request Rejected |
| CallOutcomes.ReviewReachesRecord | common/github/webhook_event_buffer.py:154-181 | an approving review emits one update with its login, whose delivery makes the request Applying or Approved; other reviews emit none |
| RequestCalls.PullRequestObject.ScanReviews | common/iambic_request/models.py:423-436 | the review loop computes the order-independent state and the approvers before the first request for changes |
| RequestCalls.PullRequestObject.LoadPr | common/iambic_request/models.py:408-436 | a load copies what GitHub answers |
| RequestCalls.RequestObject.Respond | common/iambic_request/request_crud.py:93-103 | the final poll goes by the last load, and loads again only if no files are loaded |
| RequestCalls.RequestObject.ViewRequest | common/iambic_request/request_crud.py:129-137 | a view loads the pull request and polls |
| RequestCalls.RequestObject.MaybeUpdate | common/iambic_request/models.py:683-704 | the poll, with its two writes |
| RequestCalls.RequestObject.UpdateRequest | common/iambic_request/request_crud.py:270-320 | the update call has its specified effect on the committed record |
| RequestCalls.RequestObject.RevertRequest | common/iambic_request/request_crud.py:323-359 | the revert call, including the raise for an unmerged pull request |
| RequestCalls.RequestObject.ApproveOrApply | common/iambic_request/request_crud.py:362-435 | the approve and apply call, whose in-memory changes are dropped when it is refused |
| RequestCalls.RequestObject.RejectRequest | common/iambic_request/request_crud.py:438-484 | the reject call, judged by the load before it closed the pull request |
| RequestCalls.RequestObject.HandleGithubEvent | common/iambic_request/tasks.py:40-77 | the webhook handler on the record it found |
| TenantCache.ReadsAreFresh | common/config/config.py:443-494 | in every interleaving an immediate read is of a version superseded less than 11 s ago, a memoised one less than 16 s, plus the latency of a fetch |
| TenantCache.FetchedReadsAreFresh | common/config/config.py:420-432 | a read that fetched is of a version superseded at most the latency ago |
| TenantCache.StepKeepsSnapshots | common/config/config.py:420-479 | each tier always holds a snapshot no older than its own stamp, so ages do not add up |
| TenantCache.ElevenSecondsAreNeeded | common/config/config.py:462-466 | for every bound below 11 s some unmemoised read is staler, although DynamoDB answers at once |
| TenantCache.SixteenSecondsAreNeeded | common/config/config.py:439-442 | the same for 16 s and memoised reads |
| TenantCache.ReadIs | common/config/config.py:440-479 | which tier answers a read, by the age of memo, memory and Redis, and what the read stores |
| TenantCache.StoreIs | common/config/config.py:420-432 | what the store of an answer leaves in Redis, in the memory of its worker and in that of the others |
| TenantCache.RefreshedReadsRedis | common/celery_tasks/celery_tasks.py:357-358 | right after a refresh a read that is not memoised answers from Redis |
| MonotoneReads.AtomicReadsAreMonotone | common/config/config.py:420-479 | when each fetch is stored in the same step, no read of any run goes back a version, and memory, Redis and DynamoDB stay ordered |
| MonotoneReads.ReadsAreMonotone | common/config/config.py:462-479 | the same for any run in which no answer is stored over a newer one |
| MonotoneReads.LateStoreIff | common/config/config.py:420-432 | after a store, however late and whatever was stored late before it, some continuation in which no store exposes a worker reads back a version if and only if this store exposes one |
| MonotoneReads.ReadsStayMonotoneIff | common/config/config.py:420-479 | over whole runs with any number of late stores, no state is reached from which a read can go back if and only if no store exposes a worker; then no read goes back, and the condition for one more store is the same |
| MonotoneReads.OvertakenReadGoesBack | common/config/config.py:420-432 | a run in which a late store makes another worker read an older version |
| TenantConfiguration.Configuration.CopyDynamoToRedis | common/config/config.py:420-432 | memory and Redis receive the same configuration under the same stamp; without an answer both stay, and the copy in memory is returned |
| TenantConfiguration.Configuration.RefreshBeforeTask | common/celery_tasks/celery_tasks.py:357-358 | the refresh ends as the store of its fetch, with the memory stamp zeroed |
| TenantConfiguration.Configuration.ReadCached | common/config/config.py:440-465 | up to the call to DynamoDB the method takes the read step of the model and returns what it serves |
| TenantConfiguration.Configuration.ReadFetched | common/config/config.py:464-494 | from DynamoDB's answer on it takes the store step, whatever other workers did in between |
| TenantConfiguration.Configuration.GetTenantSpecificKey | common/config/config.py:440-494 | the whole of it, with the clock moving on while DynamoDB answers |
| ConfigLoader.MergeLeaves | common/config/config.py:69-79 | what can be read at every path after a merge: the base where it is occupied, the merged file elsewhere |
| ConfigLoader.AbsorbedIff | common/config/config.py:69-79 | merging changes nothing exactly when every key is there, dictionary by dictionary |
| ConfigLoader.AbsorbedStays | common/config/config.py:69-79 | what has been merged once stays merged under later merges |
| ConfigLoader.RepeatsChangeNothing | common/config/config.py:183-212 | merging files again that were merged before changes nothing |
| ConfigLoader.BaseValuesStay | common/config/config.py:76-78 | every value that can be read in the base keeps its value |
| ConfigLoader.FirstFileWins | common/config/config.py:183-212 | a file's value is read if no earlier file occupies its path, whatever follows |
| ConfigLoader.DictMerge | common/config/config.py:69-79 | the key-by-key loop computes the merge |
| ConfigLoader.Configuration.MergeExtendedPaths | common/config/config.py:183-212 | with acyclic extensions it terminates, having folded the merge over the files in depth-first preorder |
| ConfigLoader.ExtendsAre | common/config/config.py:210-211 | the files followed are those listed under the key extends, in the order of the list |
| ConfigLoader.ListedFileIsRead | common/config/config.py:183-212 | a value readable in a listed file is read from the result if nothing reached earlier in the list occupies its path |
| ConfigLoader.ExtendedFileIsRead | common/config/config.py:209-211 | so is a value in a file that a listed file extends, by the trees of the files alone |
| ConfigLoader.RankExistsIff | common/config/config.py:209-211 | the extensions are acyclic in the sense of the loader's proof if and only if no file reaches itself |
| TreeEditor.EditOffPath | common/config/models.py:66-85 | an edit changes no lookup off its path |
| TreeEditor.EditOnPath | common/config/models.py:66-85 | after an edit its path reads what the edit made of the old value |
| TreeEditor.StoredFieldsRead | common/config/models.py:71-78 | a stored object is merged into a dictionary that was there and replaces anything else |
| TreeEditor.StoreTwice | common/config/models.py:66-85 | storing is idempotent |
| TreeEditor.StoreThenDelete | common/config/models.py:444-467 | storing at an absent key and deleting it gives back the same tree if and only if the parent was there |
| TreeEditor.StoreItemThenDeleteKey | common/config/models.py:400-467 | every lookup that returned returns what it did before if and only if the parent was there or is the only one made, and so does every lookup that raised if nothing was stored under that parent's name |
| TreeEditor.EmptyParentsRemain | common/config/models.py:66-85 | a store and delete at a.b.c leaves an empty dictionary to be read under a |
| TreeEditor.AccessIs | common/config/models.py:27-33 | a lookup raises if and only if something other than a dictionary is asked for a key, and otherwise finds what is stored at the path |
| TreeEditor.EditRaisesIff | common/config/models.py:66-85 | an edit raises if and only if a value other than a dictionary and other than nothing stands on its way, or the edit of the value does |
| TreeEditor.StoreItemRaisesIff | common/config/models.py:66-85 | storing an object raises only for what stands on its way |
| TreeEditor.DeleteKeyRemoves | common/config/models.py:454-463 | deleting a key removes it and nothing off its path |
| TreeEditor.DeleteKeyNotDone | common/config/models.py:461-462 | a delete reported as not done changed nothing |
| KeyedList.SimilarIff | common/config/models.py:294-328 | two items are similar if and only if their identities are equal once keys stored as None are dropped |
| KeyedList.SimilarMeansSameIdentity | common/config/models.py:294-328 | with all compared keys present, similar is the same as equal identity |
| KeyedList.ClashIff | common/config/models.py:294-333 | two similar items have different identities if and only if some compared key is stored as None in one and absent from the other |
| KeyedList.StoreOneRaisesIff | common/config/models.py:98-113 | storing a value raises if and only if its identity is new and clashes with that of an item |
| KeyedList.StoreAllRaisesIff | common/config/models.py:98-113 | storing values raises if and only if some value brings a new identity that clashes with one of the list or of another value, in any order |
| KeyedList.StoreAllRefines | common/config/models.py:87-114 | storing into a list is overwriting a keyed map, with positions kept, new identities appended once and identities unique |
| KeyedList.DeleteListIff | common/config/models.py:510-519 | the pops leave exactly the other items, in order, if and only if there are no more matches than models |
| KeyedList.DeleteListAfterLoad | common/config/models.py:495-523 | one model per item is always enough |
| KeyedList.SweepIsCleanIff | common/config/models.py:134-138 | removing from the list being iterated leaves exactly the other items if and only if no two matches are adjacent |
| KeyedList.SweepWithUniqueIds | common/config/models.py:134-138 | with unique identities it gives the same list as popping |
| ModelAdapter.StoredListIsOverwritten | common/config/models.py:414-427 | reading a stored list back gives the overwritten keyed map |
| ModelAdapter.DeletedListIsClean | common/config/models.py:495-523 | reading the list back after a delete, with its exact condition |
| ModelAdapter.SweptListIsClean | common/config/models.py:469-493 | reading the list back after deleting one object |
| ModelAdapter.NewListIsStored | common/config/models.py:87-121 | objects stored at an absent path are read back as a keyed map, each identity once, in order of arrival; the store raises if and only if something stands on the way |
| ModelAdapter.FirstObjectIsStored | common/config/models.py:96-113 | the first object stored at an absent path is read back as a list of that object |
| ModelAdapter.ListStoreRaisesIff | common/config/models.py:87-121 | storing at a path that is there raises if and only if something stands on the way, the value is no list of objects, or identities clash |
| ModelAdapter.SweepMeets | common/config/models.py:134-138 | the sweep raises at an item that is no object, but skips the item after a match, whatever it is |
| ModelAdapter.SweptOtherwise | common/config/models.py:131-138 | what deleting an object makes of a path that is absent or holds no list |
| ModelAdapter.DeleteKeyMisses | common/config/models.py:454-463 | deleting an absent key reports False if the parent is missing or empty, and raises otherwise |
| ModelAdapter.Adapter.StoreArray | common/config/models.py:98-114 | the two nested loops compute the list store, or raise |
| ModelAdapter.Adapter.SweepArray | common/config/models.py:134-138 | the loop over the list it shrinks |
| ModelAdapter.Adapter.PopArray | common/config/models.py:511-519 | one pop per model, each of the same identity |
| ModelAdapter.Adapter.NestedStoreArray | common/config/models.py:87-121 | the walk to the list and the store |
| ModelAdapter.Adapter.NestedDeleteFromList | common/config/models.py:123-145 | the walk to the list and the delete, and what becomes of a value that is no list |
| ModelAdapter.Adapter.NestedStore | common/config/models.py:66-85 | the walk to the key and the store |
| ModelAdapter.Adapter.AccessSubkeyParent | common/config/models.py:35-47 | the walk to the value that holds the last key |
| ModelAdapter.DeleteThroughParent | common/config/models.py:444-467 | deleting a key in the parent found by that walk is deleting it in the tree |
| ModelAdapter.Adapter.Store | common/config/models.py:400-412 | the stored configuration is the edited one, or untouched when the call raises |
| ModelAdapter.Adapter.StoreList | common/config/models.py:414-427 | the same for a list of objects |
| ModelAdapter.Adapter.DeleteItemFromList | common/config/models.py:469-493 | the same for deleting one object |
| ModelAdapter.Adapter.DeleteList | common/config/models.py:495-523 | the same for deleting a list, with the cases that raise |
| ModelAdapter.Adapter.DeleteKey | common/config/models.py:444-467 | the same for deleting a key; asked for the root it never deletes |
| WebhookQueue.Drain | common/github/webhook_event_buffer.py:241-289 | the drain stops at the first answer it must, handles exactly the answers before it, deletes each message once, and goes at most nine over the limit |
| WebhookQueue.DrainBounds | common/github/webhook_event_buffer.py:249-251 | any number of batches gone through holds at least one message each and at most nine over the limit |
| WebhookQueue.ReceivedInOrder | common/github/webhook_event_buffer.py:249-275 | messages are handled batch by batch in the order received |
| WebhookQueue.FailuresAre | common/github/webhook_event_buffer.py:254-266 | the failures logged are exactly the messages whose handler raised |

## Left out

- SQLAlchemy's cascades, collection moves and in-place array tracking: a write commits the written row, and a default appended to a stored request type stays in the default's own list.
- Timestamps of rows, logging, and the provider that request-type names are unique under.
- The order in which request types and change types are loaded, by name: they are visited in the order of the list. Fields are loaded by element.
- Change fields as objects: they are values in the list of rows that the change type commits one by one.
- Template-type names: numbers in the order that sorts them.
- The text of defaults, Slack fields, comments' texts and signatures, the files of a pull request, and the request that a revert creates.
- Two calls interleaving on one record: each call is one step, while the pull request it loads may be arbitrarily stale.
- The order of approvers after `list(set(...))`: the first occurrence stands in for it.
- The development-mode and `_global_` shortcuts of `get_tenant_specific_key`, and the walk along the key.
- Reads while DynamoDB fails or returns nothing: in the runs a fetch always has an answer, after any latency (`CopyDynamoToRedis` alone covers the empty one).
- How file contents are fetched, `validate_config`, and an `extends` value that is not a list of texts. Cyclic `extends` does not terminate and is excluded.
- Splitting keys at dots: a path is the list of its parts. Python's `True == 1` between values of different types.
- A default other than None in `delete_key` and `delete_list`.
- A step between stamping DynamoDB's answer and setting it in Redis: the two are one step, apart from the read.
- `webhook_request_handler`'s routing of events to tenants.
