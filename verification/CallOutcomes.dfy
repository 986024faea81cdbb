/** What calls, polls and webhook events do, in terms of the record's and the pull request's own fields. */
module CallOutcomes {
  import opened Common
  import opened RequestProtocol
  import opened RequestRuns

  /** One of the user's groups may approve the request. */
  predicate ByApprover(r: Record, groups: seq<string>) {
    exists g :: g in groups && g in r.allowedApprovers
  }

  lemma AllowedIs(r: Record, groups: seq<string>)
    ensures Allowed(r, groups) <==> ByApprover(r, groups)
  {
    if g :| g in groups && g in r.allowedApprovers {
      var i :| 0 <= i < |groups| && groups[i] == g;
      assert groups[i] in r.allowedApprovers;
    }
  }

  // ---- who may do what ----

  /** A user approves a pending request if and only if it is not deleted and one of the user's groups is among its
      allowed approvers; having created it is not enough. */
  lemma ApprovalGoesThroughIff(r: Record, user: string, groups: seq<string>, seen: Loaded, polled: Loaded)
    requires r.status == Pending
    ensures var e := CallEffect(r, Approve(user, groups, false), seen, polled);
            if !r.deleted && exists g :: g in groups && g in r.allowedApprovers then e.outcome == Done
            else e == Effect(r, [], false, Unauthorized)
  {
    AllowedIs(r, groups);
  }

  /** A user applies a request if and only if it is Approved and the user created it or is in a group that may
      approve it. */
  lemma ApplyGoesThroughIff(r: Record, user: string, groups: seq<string>, apply: bool, seen: Loaded, polled: Loaded)
    requires r.status != Pending || apply
    ensures var e := CallEffect(r, Approve(user, groups, apply), seen, polled);
            if r.status == Approved && (r.createdBy == user || exists g :: g in groups && g in r.allowedApprovers)
            then e.outcome == Done
            else e == Effect(r, [], false, Unauthorized)
  {
    AllowedIs(r, groups);
  }

  /** A user edits a request if and only if it is Pending or Approved, not deleted, and the user created it or is in a
      group that may approve it. */
  lemma UpdateGoesThroughIff(r: Record, user: string, groups: seq<string>, seen: Loaded, polled: Loaded)
    ensures var e := CallEffect(r, Update(user, groups), seen, polled);
            if && (r.status == Pending || r.status == Approved) && !r.deleted
               && (r.createdBy == user || exists g :: g in groups && g in r.allowedApprovers)
            then e.outcome == Done
            else e == Effect(r, [], false, Unauthorized)
  {
    AllowedIs(r, groups);
  }

  /** A user rejects a request if and only if it is Pending, not deleted, and the user created it or is in a group
      that may approve it. */
  lemma RejectGoesThroughIff(r: Record, user: string, groups: seq<string>, seen: Loaded, polled: Loaded)
    ensures var e := CallEffect(r, Reject(user, groups), seen, polled);
            if && r.status == Pending && !r.deleted
               && (r.createdBy == user || exists g :: g in groups && g in r.allowedApprovers)
            then e.outcome == Done
            else e == Effect(r, [], false, Unauthorized)
  {
    AllowedIs(r, groups);
  }

  /** A user may revert a request if and only if it is Applied, not deleted, and the user created it or is in a
      group that may approve it; then the call goes through if the pull request was merged and there is something
      to revert, and raises otherwise. */
  lemma RevertGoesThroughIff(r: Record, user: string, groups: seq<string>, revertible: bool,
                             seen: Loaded, polled: Loaded)
    ensures var e := CallEffect(r, Revert(user, groups, revertible), seen, polled);
            if && r.status == Applied && !r.deleted
               && (r.createdBy == user || exists g :: g in groups && g in r.allowedApprovers)
            then if seen.merged && revertible then e.outcome == Done else e == Effect(r, [], false, Raised)
            else e == Effect(r, [], false, Unauthorized)
  {
    AllowedIs(r, groups);
  }

  // ---- the poll ----

  /** A poll: a merge makes any request Applied that is neither Expired nor Reverted; short of that an approving
      review makes an open or rejected one Approved. Its approvers are added in that case and lost in none. */
  lemma PollIs(r: Record, seen: Loaded, x: string)
    ensures var now := Poll(r, seen);
            var open := r.status in {Pending, PendingInGit, Applying, Approving, Rejected};
            && (seen.merged && r.status != Expired && r.status != Reverted ==> now.status == Applied)
            && (!seen.merged && seen.reviewState == ReviewApproved && open ==> now.status == Approved)
            && (!seen.merged && !(seen.reviewState == ReviewApproved && open) ==> now.status == r.status)
            && (r.status == Expired || r.status == Reverted ==> now == r)
            && (x in now.approvedBy <==>
                  x in r.approvedBy || (seen.reviewState == ReviewApproved && open && x in seen.approvedBy))
            && now == r.(status := now.status, approvedBy := now.approvedBy)
  {
    DedupKeeps(seen.approvedBy + r.approvedBy);
  }

  /** A poll that sees neither an approval nor a merge changes nothing. */
  lemma QuietPoll(r: Record, seen: Loaded)
    requires seen.reviewState != ReviewApproved && !seen.merged
    ensures Poll(r, seen) == r
  {
  }

  // ---- what the calls write ----

  /** The load that the final poll of an approve or a reject goes by: the first one, if it found files. */
  function Final(seen: Loaded, polled: Loaded): Loaded {
    if seen.files then seen else polled
  }

  /** What an approval writes before the poll: Approving and the approver, or what the pull request was found to be. It
      posts the comment that asks for the approval if the pull request is open and can be merged. */
  lemma ApprovalWrites(r: Record, user: string, groups: seq<string>, seen: Loaded, polled: Loaded)
    requires r.status == Pending && CallEffect(r, Approve(user, groups, false), seen, polled).outcome == Done
    ensures var e := CallEffect(r, Approve(user, groups, false), seen, polled);
            var found := if seen.merged then Applied else if seen.closed then Rejected else Approving;
            && e.record == Poll(r.(status := found, approvedBy := r.approvedBy + [user], updatedBy := Some(user)),
                                Final(seen, polled))
            && e.posted == (if seen.mergeable && !seen.closed && !seen.merged then [ApproveComment([user])] else [])
            && !e.closes
  {
  }

  /** An apply of an approved request likewise writes Applying and posts the comment that asks for it. */
  lemma ApplyWrites(r: Record, user: string, groups: seq<string>, apply: bool, seen: Loaded, polled: Loaded)
    requires r.status == Approved && CallEffect(r, Approve(user, groups, apply), seen, polled).outcome == Done
    ensures var e := CallEffect(r, Approve(user, groups, apply), seen, polled);
            var found := if seen.merged then Applied else if seen.closed then Rejected else Applying;
            && e.record == Poll(r.(status := found, updatedBy := Some(user)), Final(seen, polled))
            && e.posted == (if seen.mergeable && !seen.closed && !seen.merged then [ApplyComment([user])] else [])
            && !e.closes
  {
  }

  /** An edit makes the request Pending again and drops the approvers of an approved one, and polls. */
  lemma UpdateWrites(r: Record, user: string, groups: seq<string>, seen: Loaded, polled: Loaded)
    requires CallEffect(r, Update(user, groups), seen, polled).outcome == Done
    ensures CallEffect(r, Update(user, groups), seen, polled)
            == Effect(Poll(r.(status := Pending, approvedBy := if r.status == Approved then [] else r.approvedBy,
                              updatedBy := Some(user)), polled), [], false, Done)
  {
  }

  /** A reject closes the pull request and writes Rejected, unless it was merged, and the rejecter if it was open until
      then, and polls. */
  lemma RejectWrites(r: Record, user: string, groups: seq<string>, seen: Loaded, polled: Loaded)
    requires CallEffect(r, Reject(user, groups), seen, polled).outcome == Done
    ensures var rejecter := if seen.merged || seen.closed then r.rejectedBy else Some(user);
            CallEffect(r, Reject(user, groups), seen, polled)
            == Effect(Poll(r.(status := if seen.merged then r.status else Rejected, rejectedBy := rejecter),
                           Final(seen, polled)), [], true, Done)
  {
  }

  /** A revert writes Reverted, which no poll changes, and drops the approvers. */
  lemma RevertWrites(r: Record, user: string, groups: seq<string>, revertible: bool, seen: Loaded, polled: Loaded)
    requires CallEffect(r, Revert(user, groups, revertible), seen, polled).outcome == Done
    ensures CallEffect(r, Revert(user, groups, revertible), seen, polled)
            == Effect(r.(status := Reverted, approvedBy := [], updatedBy := Some(user)), [], false, Done)
  {
  }

  /** Found merged, a request that is approved, applied or rejected ends Applied and nothing is posted. */
  lemma FoundMerged(r: Record, c: Call, seen: Loaded, polled: Loaded)
    requires c.Approve? || c.Reject?
    requires CallEffect(r, c, seen, polled).outcome == Done && seen.merged && (seen.files || polled.merged)
    ensures CallEffect(r, c, seen, polled).record.status == Applied && CallEffect(r, c, seen, polled).posted == []
  {
  }

  /** A view is a poll. */
  lemma ViewPolls(r: Record, seen: Loaded, polled: Loaded)
    ensures CallEffect(r, View, seen, polled) == Effect(Poll(r, polled), [], false, Done)
  {
  }

  /** Which load the final poll goes by: after an approve or a reject the first one, if it found files. */
  lemma PollsAgainIff(r: Record, user: string, groups: seq<string>, apply: bool,
                      seen: Loaded, polled: Loaded, other: Loaded)
    requires seen.files
    ensures CallEffect(r, Approve(user, groups, apply), seen, polled)
            == CallEffect(r, Approve(user, groups, apply), seen, other)
    ensures CallEffect(r, Reject(user, groups), seen, polled) == CallEffect(r, Reject(user, groups), seen, other)
  {
  }

  // ---- what a load sees ----

  /** A bot's login is one that contains "[bot]". */
  lemma BotIff(login: string)
    ensures IsBot(login) <==> exists a: string, b: string :: login == a + "[bot]" + b
  {
    if IsBot(login) {
      var i :| 0 <= i <= |login| && "[bot]" <= login[i..];
      assert login == login[..i] + "[bot]" + login[i..][5..];
    }
    if a: string, b: string :| login == a + "[bot]" + b {
      assert login[|a|..] == "[bot]" + b;
      assert "[bot]" <= login[|a|..];
    }
  }

  /** The state loaded: one request for changes outweighs every approval. */
  lemma StateIs(reviews: seq<Review>)
    ensures StateOf(reviews) == ChangesRequested <==> exists v :: v in reviews && v.verdict == RequestChanges
    ensures StateOf(reviews) == ReviewApproved <==>
              && (forall v :: v in reviews ==> v.verdict != RequestChanges)
              && (exists v :: v in reviews && v.verdict == ApproveChanges)
  {
    forall k ensures Holds(reviews, k) <==> exists v :: v in reviews && v.verdict == k {
      if Holds(reviews, k) {
        var i :| 0 <= i < |reviews| && reviews[i].verdict == k;
        assert reviews[i] in reviews;
      }
      if v :| v in reviews && v.verdict == k {
        var i :| 0 <= i < |reviews| && reviews[i] == v;
        assert reviews[i].verdict == k;
      }
    }
  }

  /** Everything else is copied. */
  lemma LoadIs(pr: PullRequest)
    ensures var l := Load(pr);
            && l.closed == pr.closed && l.merged == pr.merged && l.mergeable == pr.mergeable && l.files == pr.files
            && l.reviewState == StateOf(pr.reviews)
  {
  }

  // ---- webhooks ----

  /** The events that become updates: a close, which says whether it was a merge, and a submitted approving review,
      which names its author. */
  lemma UpdatesAre(action: string, state: string, login: string, closed: bool, merged: bool)
    ensures ToStatusUpdate(PullRequestEvent("closed", closed, merged)) == Some(StatusUpdate([], closed, merged))
    ensures action != "closed" ==> ToStatusUpdate(PullRequestEvent(action, closed, merged)) == None
    ensures ToStatusUpdate(ReviewEvent("submitted", "approved", login, closed, merged))
            == Some(StatusUpdate([login], closed, merged))
    ensures action != "submitted" || state != "approved" ==>
              ToStatusUpdate(ReviewEvent(action, state, login, closed, merged)) == None
    ensures ToStatusUpdate(OtherEvent) == None
  {
  }

  /** What the delivery of an update makes of a record, and what it posts. */
  lemma DeliveryIs(r: Record, u: StatusUpdate, seen: Loaded, mergeOnApproval: bool, x: string)
    ensures var (now, posted) := Deliver(r, u, seen, mergeOnApproval);
            var asks := u.approvedBy != [] && !u.isClosed && !u.isMerged && r.status == Approving && mergeOnApproval;
            && now.status == (if u.isMerged then Applied
                              else if u.isClosed then Rejected
                              else if u.approvedBy == [] then r.status
                              else if r.status == Approving && mergeOnApproval then Applying
                              else Approved)
            && (x in now.approvedBy <==>
                  x in r.approvedBy || (u.isMerged && x in u.approvedBy && !exists a, b :: x == a + "[bot]" + b))
            && now == r.(status := now.status, approvedBy := now.approvedBy)
            && posted == if asks && seen.mergeable then [ApplyComment(r.approvedBy)] else []
  {
    DeliveryDecides(r, u, seen, mergeOnApproval, x);
    BotIff(x);
  }

  /** What has been emitted can be delivered for good. */
  lemma {:induction false} EmittedStays(w: World, run: seq<Action>, u: StatusUpdate)
    requires CanRun(w, run) && u in w.emitted
    ensures u in After(w, run).emitted
    decreases |run|
  {
    if run != [] { EmittedStays(Next(w, run[0]), run[1..], u); }
  }

  /** The update can be delivered, and is, at the end of the run. */
  predicate Delivers(w: World, u: StatusUpdate, seen: PullRequest, status: Status) {
    Enabled(w, Delivery(u, seen)) &&
    var now := Next(w, Delivery(u, seen)).record;
    now.Some? && now.value.status == status
  }

  /** MERGE DELIVERED. GitHub's merge emits one update, and whatever happens until it is delivered, that leaves the
      record Applied. */
  lemma MergeReachesRecord(w: World, run: seq<Action>, seen: PullRequest)
    requires !w.pr.closed && !w.pr.merged && CanRun(Next(w, Merge), run)
    requires After(Next(w, Merge), run).record.Some? && seen in After(Next(w, Merge), run).past
    ensures Next(w, Merge).pr.merged && Next(w, Merge).emitted == w.emitted + {StatusUpdate([], true, true)}
    ensures Delivers(After(Next(w, Merge), run), StatusUpdate([], true, true), seen, Applied)
  {
    EmittedStays(Next(w, Merge), run, StatusUpdate([], true, true));
  }

  /** CLOSE DELIVERED. A close without a merge emits one update, whose delivery leaves the record Rejected. */
  lemma CloseReachesRecord(w: World, run: seq<Action>, seen: PullRequest)
    requires !w.pr.closed && CanRun(Next(w, ClosePullRequest), run)
    requires After(Next(w, ClosePullRequest), run).record.Some? && seen in After(Next(w, ClosePullRequest), run).past
    ensures Next(w, ClosePullRequest).pr == w.pr.(closed := true)
    ensures Next(w, ClosePullRequest).emitted == w.emitted + {StatusUpdate([], true, false)}
    ensures Delivers(After(Next(w, ClosePullRequest), run), StatusUpdate([], true, false), seen, Rejected)
  {
    EmittedStays(Next(w, ClosePullRequest), run, StatusUpdate([], true, false));
  }

  /** REVIEW DELIVERED. An approving review of an open pull request emits one update with its author's login, whose
      delivery makes the record Applying if it was Approving and merges on approval, and Approved otherwise. Other
      reviews emit nothing. */
  lemma ReviewReachesRecord(w: World, review: Review, run: seq<Action>, seen: PullRequest)
    requires !w.pr.closed && !w.pr.merged && CanRun(Next(w, SubmitReview(review)), run)
    requires After(Next(w, SubmitReview(review)), run).record.Some?
    requires seen in After(Next(w, SubmitReview(review)), run).past
    ensures Next(w, SubmitReview(review)).pr == w.pr.(reviews := w.pr.reviews + [review])
    ensures review.verdict != ApproveChanges ==> Next(w, SubmitReview(review)).emitted == w.emitted
    ensures review.verdict == ApproveChanges ==>
              var u, now := StatusUpdate([review.login], false, false), After(Next(w, SubmitReview(review)), run);
              && Next(w, SubmitReview(review)).emitted == w.emitted + {u}
              && Delivers(now, u, seen,
                          if now.record.value.status == Approving && now.mergeOnApproval then Applying else Approved)
  {
    if review.verdict == ApproveChanges {
      EmittedStays(Next(w, SubmitReview(review)), run, StatusUpdate([review.login], false, false));
    }
  }

  /** A reject that goes through closes an open pull request and emits what a close emits. */
  lemma RejectCloses(w: World, user: string, groups: seq<string>, seen: PullRequest, polled: PullRequest)
    requires Enabled(w, UserCall(Reject(user, groups), seen, polled)) && !w.pr.closed
    requires CallEffect(w.record.value, Reject(user, groups), Load(seen), Load(polled)).outcome == Done
    ensures var next := Next(w, UserCall(Reject(user, groups), seen, polled));
            next.pr == w.pr.(closed := true) && next.emitted == w.emitted + {StatusUpdate([], true, false)}
  {
  }

  /** A created request is Pending, has no approver, is its creator's, and is polled once. */
  lemma CreatedIs(w: World, createdBy: string, allowed: seq<string>, polled: PullRequest)
    requires Enabled(w, Create(createdBy, allowed, polled))
    ensures Next(w, Create(createdBy, allowed, polled)).record
            == Some(Poll(Record(Pending, [], None, None, createdBy, allowed, false), Load(polled)))
  {
  }
}
