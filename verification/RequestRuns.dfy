/** Whole runs: user calls and polls, reviews and merges on GitHub, and webhook deliveries that may be
    duplicated, reordered, lost or arbitrarily late. */
module RequestRuns {
  import opened Common
  import opened RequestProtocol

  /** The record and the pull request, with the history a run needs: every state the pull request has
      been in (a load may be stale), every status update ever emitted (any of them may be delivered, any
      number of times), the comments posted, and who has approved. */
  datatype World = World(
    record: Option<Record>, pr: PullRequest, past: set<PullRequest>, emitted: set<StatusUpdate>,
    comments: seq<Comment>, mergeOnApproval: bool, memberApproved: bool, githubApproved: bool)

  datatype Action =
    | Create(createdBy: string, allowedApprovers: seq<string>, polled: PullRequest)
    | UserCall(call: Call, seen: PullRequest, polled: PullRequest)
    | Delivery(update: StatusUpdate, seen: PullRequest)
    | SubmitReview(review: Review)
    | DismissReview(index: nat)
    | ClosePullRequest
    | Reopen
    | Merge
    | SetMergeable(mergeable: bool)
    | SetFiles(files: bool)

  /** The pull request just opened, before its record is written. */
  predicate Init(w: World) {
    && w.record == None && w.pr.reviews == [] && !w.pr.closed && !w.pr.merged
    && w.past == {w.pr} && w.emitted == {} && w.comments == [] && !w.memberApproved && !w.githubApproved
  }

  predicate Enabled(w: World, a: Action) {
    match a
    case Create(_, _, polled) => w.record == None && polled in w.past
    case UserCall(_, seen, polled) => w.record.Some? && seen in w.past && polled in w.past
    case Delivery(u, seen) => u in w.emitted && seen in w.past
    case SubmitReview(_) => true
    case DismissReview(i) => i < |w.pr.reviews|
    case ClosePullRequest => !w.pr.closed
    case Reopen => w.pr.closed && !w.pr.merged
    case Merge => !w.pr.closed && !w.pr.merged
    case SetMergeable(_) => true
    case SetFiles(_) => true
  }

  /** GitHub moves to `pr` and sends `e`. */
  function Moves(w: World, pr: PullRequest, e: GithubEvent): World {
    var u := ToStatusUpdate(e);
    w.(pr := pr, past := w.past + {pr},
       emitted := if u.Some? then w.emitted + {u.value} else w.emitted,
       githubApproved := w.githubApproved || Holds(pr.reviews, ApproveChanges))
  }

  function ReviewState(v: ReviewVerdict): string {
    match v
    case ApproveChanges => "approved"
    case RequestChanges => "changes_requested"
    case Comments => "commented"
  }

  function Closing(pr: PullRequest): PullRequest {
    pr.(closed := true)
  }

  /** The call is committed and its comments are posted. */
  function Called(w: World, c: Call, e: Effect): World
    requires w.record.Some?
  {
    w.(record := Some(e.record), comments := w.comments + e.posted,
       memberApproved := w.memberApproved || Approves(w.record.value, c))
  }

  function Next(w: World, a: Action): World
    requires Enabled(w, a)
  {
    match a
    case Create(createdBy, allowed, polled) =>
      w.(record := Some(Poll(Record(Pending, [], None, None, createdBy, allowed, false), Load(polled))))
    case UserCall(c, seen, polled) =>
      var e := CallEffect(w.record.value, c, Load(seen), Load(polled));
      var called := Called(w, c, e);
      if e.closes && !w.pr.closed then Moves(called, Closing(w.pr), PullRequestEvent("closed", true, false))
      else called
    case Delivery(u, seen) =>
      if w.record == None then w
      else
        var (r, posted) := Deliver(w.record.value, u, Load(seen), w.mergeOnApproval);
        w.(record := Some(r), comments := w.comments + posted)
    case SubmitReview(review) =>
      Moves(w, w.pr.(reviews := w.pr.reviews + [review]),
            ReviewEvent("submitted", ReviewState(review.verdict), review.login, w.pr.closed, w.pr.merged))
    case DismissReview(i) =>
      Moves(w, w.pr.(reviews := w.pr.reviews[i := w.pr.reviews[i].(verdict := Comments)]), OtherEvent)
    case ClosePullRequest => Moves(w, Closing(w.pr), PullRequestEvent("closed", true, false))
    case Reopen => Moves(w, w.pr.(closed := false), PullRequestEvent("reopened", false, false))
    case Merge => Moves(w, w.pr.(closed := true, merged := true), PullRequestEvent("closed", true, true))
    case SetMergeable(b) => Moves(w, w.pr.(mergeable := b), OtherEvent)
    case SetFiles(b) => Moves(w, w.pr.(files := b), OtherEvent)
  }

  predicate CanRun(w: World, run: seq<Action>)
    decreases |run|
  {
    run == [] || (Enabled(w, run[0]) && CanRun(Next(w, run[0]), run[1..]))
  }

  function After(w: World, run: seq<Action>): World
    requires CanRun(w, run)
    decreases |run|
  {
    if run == [] then w else After(Next(w, run[0]), run[1..])
  }

  // ---- the invariant ----

  /** A merge is permanent, so every past state and every emitted update is truthful about it; the same for
      approving reviews. */
  predicate HistoryHolds(w: World) {
    && w.pr in w.past
    && (forall s :: s in w.past ==>
              (s.merged ==> w.pr.merged) && (Holds(s.reviews, ApproveChanges) ==> w.githubApproved))
    && (forall u :: u in w.emitted ==> (u.isMerged ==> w.pr.merged) && (u.approvedBy != [] ==> w.githubApproved))
  }

  predicate CommentsHold(w: World) {
    forall i :: 0 <= i < |w.comments| ==>
      if w.comments[i].ApplyComment? then w.githubApproved else w.memberApproved
  }

  predicate StatusHolds(w: World) {
    w.record.Some? ==>
      match w.record.value.status
      case Pending => true
      case Rejected => true
      case Applied => w.pr.merged
      case Reverted => w.pr.merged
      case Approved => w.githubApproved
      case Applying => w.githubApproved
      case Approving => w.memberApproved
      case PendingInGit => false
      case Expired => false
      case Failed => false
  }

  predicate Inv(w: World) {
    HistoryHolds(w) && CommentsHold(w) && StatusHolds(w)
  }

  lemma ApprovedMeansHolds(pr: PullRequest)
    ensures Load(pr).reviewState == ReviewApproved ==> Holds(pr.reviews, ApproveChanges)
  {
  }

  lemma GithubMoveKeepsInv(w: World, pr: PullRequest, e: GithubEvent)
    requires Inv(w) && (w.pr.merged ==> pr.merged)
    requires ToStatusUpdate(e).Some? ==>
               (ToStatusUpdate(e).value.isMerged ==> pr.merged)
               && (ToStatusUpdate(e).value.approvedBy != [] ==> Holds(pr.reviews, ApproveChanges))
    ensures Inv(Moves(w, pr, e))
  {
  }

  lemma ReviewIsTruthful(w: World, review: Review)
    ensures var pr := w.pr.(reviews := w.pr.reviews + [review]);
            review.verdict == ApproveChanges ==> Holds(pr.reviews, ApproveChanges)
  {
    var pr := w.pr.(reviews := w.pr.reviews + [review]);
    assert pr.reviews[|w.pr.reviews|] == review;
  }

  /** Where the status after a call can come from. */
  lemma CallStatusComesFrom(r: Record, c: Call, seen: Loaded, polled: Loaded)
    ensures var now := CallEffect(r, c, seen, polled).record.status;
            now == r.status || match now
              case Pending => true
              case Rejected => true
              case Applied => seen.merged || polled.merged
              case Reverted => seen.merged
              case Approved => LastLoad(c, seen, polled).reviewState == ReviewApproved
              case Applying => r.status == Approved
              case Approving => Approves(r, c)
              case _ => false
  {
  }

  /** The call is an allowed approver's approval of a pending request: one of the caller's groups may approve it. */
  predicate Approves(r: Record, c: Call) {
    && c.Approve? && !c.apply && r.status == Pending && !r.deleted
    && exists g :: g in c.groups && g in r.allowedApprovers
  }

  lemma CallPosts(r: Record, c: Call, seen: Loaded, polled: Loaded)
    ensures var posted := CallEffect(r, c, seen, polled).posted;
            && |posted| <= 1
            && (posted != [] ==> c.Approve? && if posted[0].ApplyComment?
                  then r.status == Approved && MayAct(r, c.user, c.groups) && posted == [ApplyComment([c.user])]
                  else Approves(r, c))
  {
  }

  lemma CalledStatusHolds(w: World, c: Call, seen: PullRequest, polled: PullRequest)
    requires Inv(w) && w.record.Some? && seen in w.past && polled in w.past
    ensures StatusHolds(Called(w, c, CallEffect(w.record.value, c, Load(seen), Load(polled))))
  {
    ApprovedMeansHolds(polled);
    ApprovedMeansHolds(seen);
    CallStatusComesFrom(w.record.value, c, Load(seen), Load(polled));
  }

  lemma CalledCommentsHold(w: World, c: Call, seen: PullRequest, polled: PullRequest)
    requires Inv(w) && w.record.Some?
    ensures CommentsHold(Called(w, c, CallEffect(w.record.value, c, Load(seen), Load(polled))))
  {
    CallPosts(w.record.value, c, Load(seen), Load(polled));
  }

  lemma CallKeepsInv(w: World, c: Call, seen: PullRequest, polled: PullRequest)
    requires Inv(w) && w.record.Some? && seen in w.past && polled in w.past
    ensures Inv(Next(w, UserCall(c, seen, polled)))
  {
    var e := CallEffect(w.record.value, c, Load(seen), Load(polled));
    var called := Called(w, c, e);
    CalledStatusHolds(w, c, seen, polled);
    CalledCommentsHold(w, c, seen, polled);
    if e.closes && !w.pr.closed {
      GithubMoveKeepsInv(called, Closing(w.pr), PullRequestEvent("closed", true, false));
    }
  }

  lemma DeliveryKeepsInv(w: World, u: StatusUpdate, seen: PullRequest)
    requires Inv(w) && u in w.emitted && seen in w.past
    ensures Inv(Next(w, Delivery(u, seen)))
  {
  }

  lemma StepKeepsInv(w: World, a: Action)
    requires Inv(w) && Enabled(w, a)
    ensures Inv(Next(w, a))
  {
    match a
    case Create(_, _, polled) => ApprovedMeansHolds(polled);
    case UserCall(c, seen, polled) => CallKeepsInv(w, c, seen, polled);
    case Delivery(u, seen) => DeliveryKeepsInv(w, u, seen);
    case SubmitReview(review) =>
      ReviewIsTruthful(w, review);
      GithubMoveKeepsInv(w, w.pr.(reviews := w.pr.reviews + [review]),
        ReviewEvent("submitted", ReviewState(review.verdict), review.login, w.pr.closed, w.pr.merged));
    case DismissReview(i) =>
      GithubMoveKeepsInv(w, w.pr.(reviews := w.pr.reviews[i := w.pr.reviews[i].(verdict := Comments)]), OtherEvent);
    case ClosePullRequest => GithubMoveKeepsInv(w, Closing(w.pr), PullRequestEvent("closed", true, false));
    case Reopen => GithubMoveKeepsInv(w, w.pr.(closed := false), PullRequestEvent("reopened", false, false));
    case Merge => GithubMoveKeepsInv(w, w.pr.(closed := true, merged := true), PullRequestEvent("closed", true, true));
    case SetMergeable(b) => GithubMoveKeepsInv(w, w.pr.(mergeable := b), OtherEvent);
    case SetFiles(b) => GithubMoveKeepsInv(w, w.pr.(files := b), OtherEvent);
  }

  lemma {:induction false} RunKeepsInv(w: World, run: seq<Action>)
    requires Inv(w) && CanRun(w, run)
    ensures Inv(After(w, run))
    decreases |run|
  {
    if run != [] {
      StepKeepsInv(w, run[0]);
      RunKeepsInv(Next(w, run[0]), run[1..]);
    }
  }

  lemma InitHolds(w: World)
    requires Init(w)
    ensures Inv(w)
  {
  }

  // ---- what whole runs guarantee ----

  /** MERGED. In every reachable state, Applied or Reverted means the pull request has been merged. */
  lemma AppliedMeansMerged(w: World, run: seq<Action>)
    requires Init(w) && CanRun(w, run)
    ensures var now := After(w, run);
            now.record.Some? && now.record.value.status in {Applied, Reverted} ==> now.pr.merged
  {
    InitHolds(w);
    RunKeepsInv(w, run);
  }

  /** PROVENANCE. In every reachable state, Approved or Applying or an "iambic apply" comment means GitHub
      has held an approving review, and Approving or an "iambic approve" comment means an allowed
      approver approved the request while it was pending. */
  lemma ApprovalProvenance(w: World, run: seq<Action>)
    requires Init(w) && CanRun(w, run)
    ensures var now := After(w, run);
            && (now.record.Some? ==>
                  && (now.record.value.status in {Approved, Applying} ==> now.githubApproved)
                  && (now.record.value.status == Approving ==> now.memberApproved))
            && (forall c :: c in now.comments ==> if c.ApplyComment? then now.githubApproved else now.memberApproved)
  {
    InitHolds(w);
    RunKeepsInv(w, run);
    var now := After(w, run);
    forall c | c in now.comments ensures if c.ApplyComment? then now.githubApproved else now.memberApproved {
      var i :| 0 <= i < |now.comments| && now.comments[i] == c;
    }
  }

  lemma AnyCommentMeansApproval(w: World)
    requires CommentsHold(w) && w.comments != []
    ensures w.githubApproved || w.memberApproved
  {
    assert w.comments[0].ApplyComment? || w.comments[0].ApproveComment?;
  }

  /** Without any approval only four statuses are reachable and nothing is ever posted. */
  lemma NothingWithoutApproval(w: World, run: seq<Action>)
    requires Init(w) && CanRun(w, run)
    requires !After(w, run).memberApproved && !After(w, run).githubApproved
    ensures After(w, run).comments == []
    ensures After(w, run).record.Some? ==>
              After(w, run).record.value.status in {Pending, Rejected, Applied, Reverted}
  {
    InitHolds(w);
    RunKeepsInv(w, run);
    var now := After(w, run);
    if now.comments != [] { AnyCommentMeansApproval(now); assert false; }
  }

  lemma RecordAfterCall(w: World, c: Call, seen: PullRequest, polled: PullRequest)
    requires Enabled(w, UserCall(c, seen, polled))
    ensures Next(w, UserCall(c, seen, polled)).record
            == Some(CallEffect(w.record.value, c, Load(seen), Load(polled)).record)
  {
  }

  lemma CallSettles(w: World, c: Call, seen: PullRequest, polled: PullRequest)
    requires Inv(w) && Enabled(w, UserCall(c, seen, polled)) && LastLoad(c, Load(seen), Load(polled)).merged
    requires CallEffect(w.record.value, c, Load(seen), Load(polled)).outcome == Done
    ensures SettledRecord(Next(w, UserCall(c, seen, polled)).record)
  {
    CallKeepsInv(w, c, seen, polled);
    RecordAfterCall(w, c, seen, polled);
    MergedSettles(w.record.value, c, Load(seen), Load(polled));
  }

  /** CONVERGENCE. After any run, whatever was delivered, every poll and every call that goes through and
      whose poll saw the pull request merged leaves the request Applied or Reverted. */
  lemma CallAfterMergeSettles(w: World, run: seq<Action>, c: Call, seen: PullRequest, polled: PullRequest)
    requires Init(w) && CanRun(w, run)
    requires Enabled(After(w, run), UserCall(c, seen, polled)) && LastLoad(c, Load(seen), Load(polled)).merged
    requires CallEffect(After(w, run).record.value, c, Load(seen), Load(polled)).outcome == Done
    ensures SettledRecord(Next(After(w, run), UserCall(c, seen, polled)).record)
  {
    InitHolds(w);
    RunKeepsInv(w, run);
    CallSettles(After(w, run), c, seen, polled);
  }

  predicate NoDelivery(run: seq<Action>) {
    forall i :: 0 <= i < |run| ==> !run[i].Delivery?
  }

  predicate SettledRecord(r: Option<Record>) {
    r.Some? && r.value.status in {Applied, Reverted}
  }

  /** ABSORBING. Applied and Reverted together are left only by a webhook delivery, and so is Reverted alone:
      no call and no poll, however stale its loads, and no event on GitHub moves the record away. */
  lemma {:induction false} SettledUntilDelivery(w: World, run: seq<Action>)
    requires CanRun(w, run) && NoDelivery(run) && SettledRecord(w.record)
    ensures SettledRecord(After(w, run).record)
    ensures w.record.value.status == Reverted ==> After(w, run).record == w.record
    decreases |run|
  {
    if run != [] {
      assert !run[0].Delivery?;
      var next := Next(w, run[0]);
      StepKeepsSettled(w, run[0]);
      forall i | 0 <= i < |run[1..]| ensures !run[1..][i].Delivery? { assert run[1..][i] == run[i + 1]; }
      SettledUntilDelivery(next, run[1..]);
    }
  }

  lemma CallKeepsSettled(r: Record, c: Call, seen: Loaded, polled: Loaded)
    requires r.status in {Applied, Reverted}
    ensures var now := CallEffect(r, c, seen, polled).record;
            now.status in {Applied, Reverted} && (r.status == Reverted ==> now == r)
  {
  }

  lemma StepKeepsSettled(w: World, a: Action)
    requires Enabled(w, a) && !a.Delivery? && SettledRecord(w.record)
    ensures SettledRecord(Next(w, a).record)
    ensures w.record.value.status == Reverted ==> Next(w, a).record == w.record
  {
    if a.UserCall? {
      CallKeepsSettled(w.record.value, a.call, Load(a.seen), Load(a.polled));
    }
  }

  /** EXACT CONDITION. A delivery takes a request out of Reverted if and only if it carries an approval, a
      merge or a close. */
  lemma DeliveryLeavesRevertedIff(w: World, u: StatusUpdate, seen: PullRequest)
    requires w.record.Some? && w.record.value.status == Reverted && u in w.emitted && seen in w.past
    ensures Next(w, Delivery(u, seen)).record.value.status != Reverted <==>
              u.approvedBy != [] || u.isMerged || u.isClosed
  {
  }

  /** A step that posts "iambic apply" is an authorised call on an Approved request, or an approval
      delivered to an Approving one, which it then makes Applying; it posts one such comment. */
  lemma ApplyIsPostedOnlyFrom(w: World, a: Action)
    requires Enabled(w, a) && |Next(w, a).comments| > |w.comments|
    ensures |Next(w, a).comments| == |w.comments| + 1 && w.comments <= Next(w, a).comments && w.record.Some?
    ensures var c, r := Next(w, a).comments[|w.comments|], w.record.value;
            c.ApplyComment? ==>
              || (a.UserCall? && a.call.Approve? && r.status == Approved && MayAct(r, a.call.user, a.call.groups)
                  && c.signees == [a.call.user])
              || (a.Delivery? && r.status == Approving && a.update.approvedBy != [] && w.mergeOnApproval
                  && c.signees == r.approvedBy && Next(w, a).record == Some(r.(status := Applying)))
  {
    if a.UserCall? {
      CallPosts(w.record.value, a.call, Load(a.seen), Load(a.polled));
    }
  }

  /** REFUSED. A call that is refused or raises leaves everything as it was: the record, GitHub, what has been sent,
      and what has been posted. */
  lemma RefusedCallsLeaveTheWorld(w: World, c: Call, seen: PullRequest, polled: PullRequest)
    requires Enabled(w, UserCall(c, seen, polled))
    requires CallEffect(w.record.value, c, Load(seen), Load(polled)).outcome != Done
    ensures Next(w, UserCall(c, seen, polled)) == w
  {
    RefusedCallsChangeNothing(w.record.value, c, Load(seen), Load(polled));
    assert w.comments + [] == w.comments;
    assert !Approves(w.record.value, c);
  }

  // ---- runs that end otherwise than their last call reads ----

  /** One more step at the end of a run. */
  lemma {:induction false} RunThen(w: World, run: seq<Action>, a: Action) returns (longer: seq<Action>)
    requires CanRun(w, run) && Enabled(After(w, run), a)
    ensures longer == run + [a]
    ensures CanRun(w, longer) && After(w, longer) == Next(After(w, run), a)
    decreases |run|
  {
    longer := run + [a];
    if run == [] {
      assert longer[1..] == [];
    } else {
      var rest := RunThen(Next(w, run[0]), run[1..], a);
      assert longer[1..] == rest;
    }
  }

  const BOB := Review(ApproveChanges, "bob")
  const OPENED := PullRequest([], false, false, true, true)
  const REVIEWED := PullRequest([BOB], false, false, true, true)

  /** What is loaded once bob has approved on GitHub. */
  lemma LoadsApproval()
    ensures Load(OPENED) == Loaded(PendingReview, [], false, false, true, true)
    ensures Load(REVIEWED) == Loaded(ReviewApproved, ["bob"], false, false, true, true)
    ensures Dedup(["bob"] + []) == ["bob"]
  {
    assert !IsBot("bob");
    assert [BOB][1..] == [];
    assert Holds(REVIEWED.reviews, ApproveChanges) by { assert REVIEWED.reviews[0].verdict == ApproveChanges; }
    assert Dedup([]) == [] && (["bob"] + [])[..0] == [];
  }

  /** Alice has created a request, and bob has approved its pull request. */
  lemma ReviewedRun() returns (w: World, run: seq<Action>)
    ensures Init(w) && CanRun(w, run)
    ensures var now := After(w, run);
            && now.record == Some(Record(Pending, [], None, None, "alice", ["admins"], false))
            && now.pr == REVIEWED && REVIEWED in now.past && now.comments == []
  {
    LoadsApproval();
    w := World(None, OPENED, {OPENED}, {}, [], false, false, false);
    var created := RunThen(w, [], Create("alice", ["admins"], OPENED));
    assert OPENED.reviews + [BOB] == REVIEWED.reviews;
    run := RunThen(w, created, SubmitReview(BOB));
  }

  /** Then someone has looked at the request, which is Approved by that. */
  lemma ApprovedRun() returns (w: World, run: seq<Action>)
    ensures Init(w) && CanRun(w, run)
    ensures var now := After(w, run);
            && now.record == Some(Record(Approved, ["bob"], None, None, "alice", ["admins"], false))
            && now.pr == REVIEWED && REVIEWED in now.past && now.comments == []
  {
    LoadsApproval();
    w, run := ReviewedRun();
    run := RunThen(w, run, UserCall(View, REVIEWED, REVIEWED));
  }

  const APPROVED := Record(Approved, ["bob"], None, None, "alice", ["admins"], false)

  lemma ApplyingApproved()
    ensures CallEffect(APPROVED, Approve("alice", [], true), Load(REVIEWED), Load(REVIEWED))
            == Effect(APPROVED.(updatedBy := Some("alice")), [ApplyComment(["alice"])], false, Done)
  {
    LoadsApproval();
  }

  lemma PostedNext(w: World, c: Call, seen: PullRequest, polled: PullRequest)
    requires Enabled(w, UserCall(c, seen, polled))
    ensures Next(w, UserCall(c, seen, polled)).comments
            == w.comments + CallEffect(w.record.value, c, Load(seen), Load(polled)).posted
  {
  }

  /** Alice applies the approved request: "iambic apply" is posted, and the request is Approved again, not
      Applying, so she can apply it once more. */
  lemma ApplyEndsApproved() returns (w: World, run: seq<Action>)
    ensures Init(w) && CanRun(w, run) && run != []
        && run[|run| - 1] == UserCall(Approve("alice", [], true), REVIEWED, REVIEWED)
    ensures After(w, run).record == Some(APPROVED.(updatedBy := Some("alice")))
    ensures After(w, run).comments == [ApplyComment(["alice"])]
  {
    w, run := ApprovedRun();
    ApplyingApproved();
    var c := Approve("alice", [], true);
    RecordAfterCall(After(w, run), c, REVIEWED, REVIEWED);
    PostedNext(After(w, run), c, REVIEWED, REVIEWED);
    run := RunThen(w, run, UserCall(c, REVIEWED, REVIEWED));
  }

  /** Alice edits the approved request: it stays Approved by bob, who has not seen the edit. */
  lemma EditStaysApproved() returns (w: World, run: seq<Action>)
    ensures Init(w) && CanRun(w, run) && run != []
        && run[|run| - 1] == UserCall(Update("alice", []), REVIEWED, REVIEWED)
    ensures After(w, run).record == Some(Record(Approved, ["bob"], None, Some("alice"), "alice", ["admins"], false))
  {
    LoadsApproval();
    w, run := ApprovedRun();
    run := RunThen(w, run, UserCall(Update("alice", []), REVIEWED, REVIEWED));
  }

  /** Alice rejects the pending request: its pull request is closed, and the request is Approved. */
  lemma RejectEndsApproved() returns (w: World, run: seq<Action>)
    ensures Init(w) && CanRun(w, run) && run != []
        && run[|run| - 1] == UserCall(Reject("alice", []), REVIEWED, REVIEWED)
    ensures var now := After(w, run);
            && now.record == Some(Record(Approved, ["bob"], Some("alice"), None, "alice", ["admins"], false))
            && now.pr == Closing(REVIEWED)
  {
    LoadsApproval();
    w, run := ReviewedRun();
    run := RunThen(w, run, UserCall(Reject("alice", []), REVIEWED, REVIEWED));
  }
}
