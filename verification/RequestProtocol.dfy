/** Self-service requests: a stored record, a GitHub pull request, and the calls and webhook deliveries
    that move the record's status. */
module RequestProtocol {
  import opened Common

  datatype Status =
    | Pending | PendingInGit | Applied | Applying | Approving
    | Approved | Rejected | Reverted | Expired | Failed

  datatype Record = Record(
    status: Status, approvedBy: seq<string>, rejectedBy: Option<string>, updatedBy: Option<string>,
    createdBy: string, allowedApprovers: seq<string>, deleted: bool)

  datatype ReviewVerdict = ApproveChanges | RequestChanges | Comments
  datatype Review = Review(verdict: ReviewVerdict, login: string)

  /** The pull request as GitHub holds it; `files` tells whether it changes any. */
  datatype PullRequest = PullRequest(reviews: seq<Review>, closed: bool, merged: bool, mergeable: bool, files: bool)

  datatype ReviewState = PendingReview | ChangesRequested | ReviewApproved

  /** What a load copies from GitHub into the pull-request object. */
  datatype Loaded = Loaded(
    reviewState: ReviewState, approvedBy: seq<string>, closed: bool, merged: bool, mergeable: bool, files: bool)

  datatype Comment = ApproveComment(signees: seq<string>) | ApplyComment(signees: seq<string>)

  // ---- the review scan ----

  predicate IsBot(login: string) {
    exists i :: 0 <= i <= |login| && "[bot]" <= login[i..]
  }

  predicate Holds(reviews: seq<Review>, v: ReviewVerdict) {
    exists i :: 0 <= i < |reviews| && reviews[i].verdict == v
  }

  /** The review state of a pull request does not depend on the order of its reviews. */
  function StateOf(reviews: seq<Review>): ReviewState {
    if Holds(reviews, RequestChanges) then ChangesRequested
    else if Holds(reviews, ApproveChanges) then ReviewApproved
    else PendingReview
  }

  /** The human approvers that precede the first request for changes. */
  function Approvers(reviews: seq<Review>): seq<string> {
    if reviews == [] || reviews[0].verdict == RequestChanges then []
    else if reviews[0].verdict == ApproveChanges && !IsBot(reviews[0].login) then
      [reviews[0].login] + Approvers(reviews[1..])
    else Approvers(reviews[1..])
  }

  function Load(pr: PullRequest): Loaded {
    Loaded(StateOf(pr.reviews), Approvers(pr.reviews), pr.closed, pr.merged, pr.mergeable, pr.files)
  }

  /** `list(set(...))`, with the order of first occurrence standing in for Python's arbitrary one. */
  function Dedup(s: seq<string>): seq<string> {
    if s == [] then []
    else
      var rest := Dedup(s[..|s| - 1]);
      if s[|s| - 1] in rest then rest else rest + [s[|s| - 1]]
  }

  // ---- one call ----

  /** `maybe_update_request`: what a poll makes of the record. */
  function Poll(r: Record, seen: Loaded): Record {
    var approved :=
      if seen.reviewState == ReviewApproved && r.status in {Pending, PendingInGit, Applying, Approving, Rejected} then
        r.(status := Approved,
           approvedBy := if seen.approvedBy != [] then Dedup(seen.approvedBy + r.approvedBy) else r.approvedBy)
      else r;
    if approved.status != Applied && seen.merged && approved.status !in {Expired, Reverted} then
      approved.(status := Applied)
    else approved
  }

  datatype Call =
    | View
    | Update(user: string, groups: seq<string>)
    | Approve(user: string, groups: seq<string>, apply: bool)
    | Reject(user: string, groups: seq<string>)
    | Revert(user: string, groups: seq<string>, revertible: bool)

  datatype Outcome = Done | Unauthorized | Raised

  /** The record after a call, the comments it posted, and whether it asked GitHub to close the pull request. */
  datatype Effect = Effect(record: Record, posted: seq<Comment>, closes: bool, outcome: Outcome)

  predicate Allowed(r: Record, groups: seq<string>) {
    exists i :: 0 <= i < |groups| && groups[i] in r.allowedApprovers
  }

  predicate MayAct(r: Record, user: string, groups: seq<string>) {
    r.createdBy == user || Allowed(r, groups)
  }

  /** The status an approve-or-apply call aims for, if it is authorised. */
  function Aim(r: Record, user: string, groups: seq<string>, apply: bool): Option<Status> {
    if r.status == Pending && !apply then
      (if !Allowed(r, groups) || r.deleted then None else Some(Approving))
    else if r.status != Approved then None
    else if !MayAct(r, user, groups) then None
    else Some(Applying)
  }

  function ApproveEffect(r: Record, user: string, aim: Status, seen: Loaded): (Record, seq<Comment>) {
    var base := r.(updatedBy := Some(user),
                   approvedBy := if aim == Approving then r.approvedBy + [user] else r.approvedBy);
    if seen.closed && !seen.merged then (base.(status := Rejected), [])
    else if seen.merged then (base.(status := Applied), [])
    else (base.(status := aim),
          if !seen.mergeable then []
          else if aim == Approving then [ApproveComment([user])] else [ApplyComment([user])])
  }

  /** What the final poll goes by. After an approve or a reject nothing is loaded again if files are there already;
      the other calls load again in any case, a view for the first time. */
  function LastLoad(c: Call, seen: Loaded, polled: Loaded): Loaded {
    if (c.Approve? || c.Reject?) && seen.files then seen else polled
  }

  /** A user call. `seen` is the pull request as first loaded, `polled` as loaded for the final poll, if it is. */
  function CallEffect(r: Record, c: Call, seen: Loaded, polled: Loaded): Effect {
    match c
    case View => Effect(Poll(r, polled), [], false, Done)
    case Update(user, groups) =>
      if !MayAct(r, user, groups) || r.status !in {Pending, Approved} || r.deleted then
        Effect(r, [], false, Unauthorized)
      else
        var reset := if r.status == Approved then r.(status := Pending, approvedBy := []) else r;
        Effect(Poll(reset.(updatedBy := Some(user)), polled), [], false, Done)
    case Approve(user, groups, apply) =>
      var aim := Aim(r, user, groups, apply);
      if aim.None? then Effect(r, [], false, Unauthorized)
      else
        var (r', posted) := ApproveEffect(r, user, aim.value, seen);
        Effect(Poll(r', LastLoad(c, seen, polled)), posted, false, Done)
    case Reject(user, groups) =>
      if !MayAct(r, user, groups) || r.status != Pending || r.deleted then Effect(r, [], false, Unauthorized)
      else
        var r' := if seen.merged then r
                  else if seen.closed then r.(status := Rejected)
                  else r.(status := Rejected, rejectedBy := Some(user));
        Effect(Poll(r', LastLoad(c, seen, polled)), [], true, Done)
    case Revert(user, groups, revertible) =>
      if !MayAct(r, user, groups) || r.status != Applied || r.deleted then Effect(r, [], false, Unauthorized)
      else if !seen.merged || !revertible then Effect(r, [], false, Raised)
      else Effect(Poll(r.(status := Reverted, approvedBy := [], updatedBy := Some(user)), polled), [], false, Done)
  }

  // ---- webhooks ----

  /** What GitHub sends, and the part of it that becomes a status update. */
  datatype GithubEvent =
    | PullRequestEvent(action: string, closed: bool, merged: bool)
    | ReviewEvent(action: string, state: string, login: string, closed: bool, merged: bool)
    | OtherEvent

  datatype StatusUpdate = StatusUpdate(approvedBy: seq<string>, isClosed: bool, isMerged: bool)

  /** `github_event_handler`: which events are passed on. */
  function ToStatusUpdate(e: GithubEvent): Option<StatusUpdate> {
    match e
    case PullRequestEvent(action, closed, merged) =>
      if action == "closed" then Some(StatusUpdate([], closed, merged)) else None
    case ReviewEvent(action, state, login, closed, merged) =>
      if action == "submitted" && state == "approved" then Some(StatusUpdate([login], closed, merged)) else None
    case OtherEvent => None
  }

  function Humans(logins: seq<string>): seq<string> {
    if logins == [] then []
    else if IsBot(logins[0]) then Humans(logins[1..])
    else [logins[0]] + Humans(logins[1..])
  }

  /** `handle_tenant_iambic_github_event` on an existing record. */
  function Deliver(r: Record, u: StatusUpdate, seen: Loaded, mergeOnApproval: bool): (Record, seq<Comment>) {
    if u.approvedBy != [] && !u.isClosed && !u.isMerged then
      if r.status == Approving && mergeOnApproval then
        (r.(status := Applying), if seen.mergeable then [ApplyComment(r.approvedBy)] else [])
      else (r.(status := Approved), [])
    else if u.isMerged then
      (r.(status := Applied,
          approvedBy := if u.approvedBy != [] then Dedup(r.approvedBy + Humans(u.approvedBy)) else r.approvedBy), [])
    else if u.isClosed then (r.(status := Rejected), [])
    else (r, [])
  }

  // ---- what single calls guarantee ----

  /** The review state is the same for any order of the same reviews. */
  lemma ScanIsOrderIndependent(a: seq<Review>, b: seq<Review>)
    requires multiset(a) == multiset(b)
    ensures StateOf(a) == StateOf(b)
  {
    forall v ensures Holds(a, v) <==> Holds(b, v) {
      if Holds(a, v) { SameVerdicts(a, b, v); }
      if Holds(b, v) { SameVerdicts(b, a, v); }
    }
  }

  lemma SameVerdicts(a: seq<Review>, b: seq<Review>, v: ReviewVerdict)
    requires multiset(a) == multiset(b) && Holds(a, v)
    ensures Holds(b, v)
  {
    var i :| 0 <= i < |a| && a[i].verdict == v;
    assert a[i] in multiset(b);
    var j :| 0 <= j < |b| && b[j] == a[i];
  }

  lemma {:induction false} DedupKeeps(s: seq<string>)
    ensures forall x :: x in Dedup(s) <==> x in s
    ensures forall i, j :: 0 <= i < j < |Dedup(s)| ==> Dedup(s)[i] != Dedup(s)[j]
  {
    if s != [] {
      DedupKeeps(s[..|s| - 1]);
      assert s == s[..|s| - 1] + [s[|s| - 1]];
    }
  }

  predicate HumanApproved(reviews: seq<Review>, x: string) {
    exists i :: 0 <= i < |reviews| && reviews[i] == Review(ApproveChanges, x) && !IsBot(x)
  }

  lemma {:induction false} ScanFindsEveryApprover(reviews: seq<Review>, x: string)
    requires !Holds(reviews, RequestChanges)
    ensures x in Approvers(reviews) <==> HumanApproved(reviews, x)
  {
    if reviews != [] {
      var rest := reviews[1..];
      assert reviews[0].verdict != RequestChanges;
      forall i | 0 <= i < |rest| ensures rest[i].verdict != RequestChanges { assert rest[i] == reviews[i + 1]; }
      ScanFindsEveryApprover(rest, x);
      if HumanApproved(rest, x) {
        var i :| 0 <= i < |rest| && rest[i] == Review(ApproveChanges, x) && !IsBot(x);
        assert reviews[i + 1] == rest[i];
      }
      if HumanApproved(reviews, x) && reviews[0] != Review(ApproveChanges, x) {
        var i :| 0 <= i < |reviews| && reviews[i] == Review(ApproveChanges, x) && !IsBot(x);
        assert rest[i - 1] == reviews[i];
      }
    }
  }

  /** A poll that moves a request to Approved with some human approver records every human approver,
      once each, on top of the earlier ones. */
  lemma PollRecordsApprovers(r: Record, pr: PullRequest, x: string)
    requires r.status in {Pending, PendingInGit, Applying, Approving, Rejected}
    requires StateOf(pr.reviews) == ReviewApproved && Approvers(pr.reviews) != []
    ensures var now := Poll(r, Load(pr)).approvedBy;
            && (x in now <==> x in r.approvedBy || HumanApproved(pr.reviews, x))
            && forall i, j :: 0 <= i < j < |now| ==> now[i] != now[j]
  {
    DedupKeeps(Approvers(pr.reviews) + r.approvedBy);
    ScanFindsEveryApprover(pr.reviews, x);
  }

  /** A call that is refused, or that raises, leaves the record as it was and does nothing on GitHub. */
  lemma RefusedCallsChangeNothing(r: Record, c: Call, seen: Loaded, polled: Loaded)
    requires CallEffect(r, c, seen, polled).outcome != Done
    ensures CallEffect(r, c, seen, polled) == Effect(r, [], false, CallEffect(r, c, seen, polled).outcome)
  {
  }

  /** Merged as far as the final poll saw: the call ends settled, whatever it was. */
  lemma MergedSettles(r: Record, c: Call, seen: Loaded, polled: Loaded)
    requires LastLoad(c, seen, polled).merged && CallEffect(r, c, seen, polled).outcome == Done
    ensures CallEffect(r, c, seen, polled).record.status in {Applied, Reverted, Expired}
  {
  }

  /** EXACT CONDITION. An authorised apply on an open pull request ends as Applying only if the review
      state it goes by last is not APPROVED and the pull request was not seen merged; with an approving review the
      same call puts the request back to Approved, and it can be applied again. */
  lemma ApplyEndsApplyingIff(r: Record, user: string, groups: seq<string>, apply: bool, seen: Loaded, polled: Loaded)
    requires r.status == Approved && MayAct(r, user, groups) && !seen.closed && !seen.merged
    ensures var c := Approve(user, groups, apply);
            var now, last := CallEffect(r, c, seen, polled).record.status, LastLoad(c, seen, polled);
            && (now == Applying <==> last.reviewState != ReviewApproved && !last.merged)
            && (now == Approved <==> last.reviewState == ReviewApproved && !last.merged)
  {
  }

  /** EXACT CONDITION. Editing an approved request withdraws its approval only if the reviews loaded
      afterwards no longer approve it. */
  lemma EditWithdrawsApprovalIff(r: Record, user: string, groups: seq<string>, seen: Loaded, polled: Loaded)
    requires r.status == Approved && MayAct(r, user, groups) && !r.deleted && !polled.merged
    ensures var now := CallEffect(r, Update(user, groups), seen, polled).record;
            && now.status == (if polled.reviewState == ReviewApproved then Approved else Pending)
            && (now.status == Pending ==> now.approvedBy == [])
  {
  }

  /** A call that goes through is signed: an update, approval or revert by its user as the last writer, an
      approval of a pending request also among the approvers, unless a poll or a merge rewrote them. */
  lemma DoneCallsAreSigned(r: Record, c: Call, seen: Loaded, polled: Loaded)
    requires CallEffect(r, c, seen, polled).outcome == Done
    ensures var now := CallEffect(r, c, seen, polled).record;
            && (c.Update? || c.Approve? || c.Revert? ==> now.updatedBy == Some(c.user))
            && (c.Approve? && r.status == Pending ==> c.user in now.approvedBy)
            && (c.Revert? && now.status == Reverted ==> now.approvedBy == [])
            && (c.Reject? ==> now.updatedBy == r.updatedBy
                              && now.rejectedBy == if seen.merged || seen.closed then r.rejectedBy else Some(c.user))
  {
    var last := LastLoad(c, seen, polled);
    DedupKeeps(last.approvedBy + r.approvedBy);
    if c.Approve? { DedupKeeps(last.approvedBy + (r.approvedBy + [c.user])); }
  }

  lemma {:induction false} HumansAre(logins: seq<string>, x: string)
    ensures x in Humans(logins) <==> x in logins && !IsBot(x)
  {
    if logins != [] { HumansAre(logins[1..], x); }
  }

  /** What a delivery decides, and that a merge adds its human approvers, once each, and removes none. */
  lemma DeliveryDecides(r: Record, u: StatusUpdate, seen: Loaded, mergeOnApproval: bool, x: string)
    ensures var now := Deliver(r, u, seen, mergeOnApproval).0;
            && (u.isMerged ==> now.status == Applied)
            && (u.isClosed && !u.isMerged ==> now.status == Rejected)
            && (!u.isClosed && !u.isMerged && u.approvedBy != [] ==>
                  now.status == if r.status == Approving && mergeOnApproval then Applying else Approved)
            && (x in now.approvedBy <==> x in r.approvedBy || (u.isMerged && x in u.approvedBy && !IsBot(x)))
  {
    DedupKeeps(r.approvedBy + Humans(u.approvedBy));
    HumansAre(u.approvedBy, x);
  }

  /** EXACT CONDITION. An authorised reject leaves the request rejected only if no load showed it merged or
      approved. */
  lemma RejectRejectsIff(r: Record, user: string, groups: seq<string>, seen: Loaded, polled: Loaded)
    requires MayAct(r, user, groups) && r.status == Pending && !r.deleted
    ensures var c := Reject(user, groups);
            var last := LastLoad(c, seen, polled);
            CallEffect(r, c, seen, polled).record.status == Rejected <==>
              !seen.merged && !last.merged && last.reviewState != ReviewApproved
  {
  }
}
