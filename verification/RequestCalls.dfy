/** The calls as they run: a record is loaded, changed in memory and written back, and a pull-request object
    copies GitHub's answer each time it is loaded. Each call is proved to have the effect that
    `RequestProtocol` gives it. */
module RequestCalls {
  import opened Common
  import opened RequestProtocol

  lemma HoldsNext(reviews: seq<Review>, i: nat, v: ReviewVerdict)
    requires i < |reviews|
    ensures Holds(reviews[..i + 1], v) <==> Holds(reviews[..i], v) || reviews[i].verdict == v
  {
    if Holds(reviews[..i], v) {
      var k :| 0 <= k < i && reviews[..i][k].verdict == v;
      assert reviews[..i + 1][k].verdict == v;
    }
    if reviews[i].verdict == v {
      assert reviews[..i + 1][i].verdict == v;
    }
    if Holds(reviews[..i + 1], v) {
      var k :| 0 <= k < i + 1 && reviews[..i + 1][k].verdict == v;
      if k < i { assert reviews[..i][k].verdict == v; }
    }
  }

  lemma HoldsPrefix(reviews: seq<Review>, i: nat, v: ReviewVerdict)
    requires i <= |reviews| && Holds(reviews[..i], v)
    ensures Holds(reviews, v)
  {
    var k :| 0 <= k < i && reviews[..i][k].verdict == v;
    assert reviews[k].verdict == v;
  }

  /** The review loop has gone through the first `i` reviews without a request for changes. */
  predicate Scanned(reviews: seq<Review>, i: nat, state: ReviewState, approvedBy: seq<string>)
    requires i <= |reviews|
  {
    && !Holds(reviews[..i], RequestChanges)
    && state == (if Holds(reviews[..i], ApproveChanges) then ReviewApproved else PendingReview)
    && Approvers(reviews) == approvedBy + Approvers(reviews[i..])
  }

  lemma ApproversTurn(reviews: seq<Review>, i: nat)
    requires i < |reviews|
    ensures Approvers(reviews[i..]) ==
              if reviews[i].verdict == RequestChanges then []
              else if reviews[i].verdict == ApproveChanges && !IsBot(reviews[i].login) then
                [reviews[i].login] + Approvers(reviews[i + 1..])
              else Approvers(reviews[i + 1..])
  {
    var rest := reviews[i..];
    assert rest[0] == reviews[i] && rest[1..] == reviews[i + 1..];
  }

  /** One turn of the review loop that does not end it. */
  lemma ScanTurn(reviews: seq<Review>, i: nat, state: ReviewState, approvedBy: seq<string>)
    requires i < |reviews| && Scanned(reviews, i, state, approvedBy) && reviews[i].verdict != RequestChanges
    ensures var approves := reviews[i].verdict == ApproveChanges;
            Scanned(reviews, i + 1, if approves then ReviewApproved else state,
                    if approves && !IsBot(reviews[i].login) then approvedBy + [reviews[i].login] else approvedBy)
  {
    HoldsNext(reviews, i, RequestChanges);
    HoldsNext(reviews, i, ApproveChanges);
    ApproversTurn(reviews, i);
    var one := [reviews[i].login];
    var rest := Approvers(reviews[i + 1..]);
    assert approvedBy + (one + rest) == (approvedBy + one) + rest;
  }

  /** The turn that ends it. */
  lemma ScanStops(reviews: seq<Review>, i: nat, state: ReviewState, approvedBy: seq<string>)
    requires i < |reviews| && Scanned(reviews, i, state, approvedBy) && reviews[i].verdict == RequestChanges
    ensures Holds(reviews, RequestChanges) && Approvers(reviews) == approvedBy
  {
    ApproversTurn(reviews, i);
    assert approvedBy + [] == approvedBy;
    HoldsNext(reviews, i, RequestChanges);
    HoldsPrefix(reviews, i + 1, RequestChanges);
  }

  /** The pull-request object. `remote` stands for what GitHub answers when it is asked. */
  class PullRequestObject {
    var reviewState: ReviewState
    var approvedBy: seq<string>
    var closed: bool
    var merged: bool
    var mergeable: bool
    var files: bool      // some are loaded
    var posted: seq<Comment>
    var closeRequested: bool

    constructor ()
      ensures posted == [] && !closeRequested && !files
    {
      reviewState, approvedBy, closed, merged, mergeable, files := PendingReview, [], false, false, false, false;
      posted, closeRequested := [], false;
    }

    /** The attributes as last loaded. */
    ghost function State(): Loaded
      reads this
    {
      Loaded(reviewState, approvedBy, closed, merged, mergeable, files)
    }

    /** The review loop. */
    method ScanReviews(reviews: seq<Review>)
      modifies this`reviewState, this`approvedBy
      ensures reviewState == StateOf(reviews) && approvedBy == Approvers(reviews)
    {
      approvedBy, reviewState := [], PendingReview;
      var i := 0;
      assert reviews[0..] == reviews;
      while i < |reviews|
        invariant i <= |reviews| && Scanned(reviews, i, reviewState, approvedBy)
      {
        if reviews[i].verdict == RequestChanges {
          ScanStops(reviews, i, reviewState, approvedBy);
          reviewState := ChangesRequested;
          return;
        }
        ScanTurn(reviews, i, reviewState, approvedBy);
        if reviews[i].verdict == ApproveChanges {
          reviewState := ReviewApproved;
          if !IsBot(reviews[i].login) {
            approvedBy := approvedBy + [reviews[i].login];
          }
        }
        i := i + 1;
      }
      assert reviews[..i] == reviews && reviews[i..] == [] && approvedBy + [] == approvedBy;
    }

    method LoadPr(remote: PullRequest)
      modifies this`reviewState, this`approvedBy, this`closed, this`merged, this`mergeable, this`files
      ensures State() == Load(remote)
    {
      mergeable, merged, closed := remote.mergeable, remote.merged, remote.closed;
      ScanReviews(remote.reviews);
      files := remote.files;
    }

    method ApproveRequest(user: string)
      modifies this`posted
      ensures posted == old(posted) + if mergeable then [ApproveComment([user])] else []
    {
      if mergeable { posted := posted + [ApproveComment([user])]; }
    }

    method MergeRequest(users: seq<string>)
      modifies this`posted
      ensures posted == old(posted) + if mergeable then [ApplyComment(users)] else []
    {
      if mergeable { posted := posted + [ApplyComment(users)]; }
    }

    /** Load, then ask GitHub to close; the attributes keep what the load saw. */
    method RejectRequest(remote: PullRequest)
      modifies this
      ensures State() == Load(remote) && posted == old(posted) && closeRequested
    {
      LoadPr(remote);
      closeRequested := true;
    }
  }

  class RequestObject {
    var row: Record      // in memory
    var stored: Record   // committed

    constructor (r: Record)
      ensures row == stored == r
    {
      row, stored := r, r;
    }

    method Write()
      modifies this`stored
      ensures stored == row
    {
      stored := row;
    }

    /** `maybe_update_request`. */
    method MaybeUpdate(pr: PullRequestObject)
      requires row == stored
      modifies this
      ensures row == stored == Poll(old(row), pr.State())
    {
      if pr.reviewState == ReviewApproved && row.status in {Pending, PendingInGit, Applying, Approving, Rejected} {
        row := row.(status := Approved);
        if pr.approvedBy != [] {
          row := row.(approvedBy := Dedup(pr.approvedBy + row.approvedBy));
        }
        Write();
      }
      if row.status != Applied && pr.merged && row.status !in {Expired, Reverted} {
        row := row.(status := Applied);
        Write();
      }
    }

    /** `get_request_response`: load if no files are loaded, then poll. */
    method Respond(pr: PullRequestObject, polled: PullRequest)
      requires row == stored
      modifies this, pr`reviewState, pr`approvedBy, pr`closed, pr`merged, pr`mergeable, pr`files
      ensures row == stored == Poll(old(row), if old(pr.files) then old(pr.State()) else Load(polled))
    {
      if !pr.files { pr.LoadPr(polled); }
      MaybeUpdate(pr);
    }

    /** A view: the object is new, so the pull request is loaded. */
    method ViewRequest(pr: PullRequestObject, seen: PullRequest, polled: PullRequest)
      requires row == stored && pr.posted == [] && !pr.closeRequested && !pr.files
      modifies this, pr
      ensures Effect(stored, pr.posted, pr.closeRequested, Done)
              == CallEffect(old(stored), View, Load(seen), Load(polled))
    {
      Respond(pr, polled);
    }

    method UpdateRequest(pr: PullRequestObject, user: string, groups: seq<string>,
                         seen: PullRequest, polled: PullRequest)
      returns (outcome: Outcome)
      requires row == stored && pr.posted == [] && !pr.closeRequested
      modifies this, pr
      ensures Effect(stored, pr.posted, pr.closeRequested, outcome)
              == CallEffect(old(stored), Update(user, groups), Load(seen), Load(polled))
    {
      if !MayAct(row, user, groups) || row.status !in {Pending, Approved} || row.deleted {
        return Unauthorized;
      }
      pr.LoadPr(seen);
      if row.status == Approved {
        row := row.(status := Pending, approvedBy := []);
      }
      row := row.(updatedBy := Some(user));
      Write();
      pr.LoadPr(polled);
      Respond(pr, polled);
      outcome := Done;
    }

    method RevertRequest(pr: PullRequestObject, user: string, groups: seq<string>, revertible: bool,
                         seen: PullRequest, polled: PullRequest)
      returns (outcome: Outcome)
      requires row == stored && pr.posted == [] && !pr.closeRequested
      modifies this, pr
      ensures Effect(stored, pr.posted, pr.closeRequested, outcome)
              == CallEffect(old(stored), Revert(user, groups, revertible), Load(seen), Load(polled))
    {
      if !MayAct(row, user, groups) || row.status != Applied || row.deleted {
        return Unauthorized;
      }
      pr.LoadPr(seen);
      if !pr.merged || !revertible {
        return Raised;
      }
      row := row.(status := Reverted, approvedBy := [], updatedBy := Some(user));
      Write();
      pr.LoadPr(polled);
      Respond(pr, polled);
      outcome := Done;
    }

    /** The record is changed in memory before the call is authorised. */
    method TakeAim(user: string, groups: seq<string>, apply: bool) returns (authorised: bool)
      requires row == stored
      modifies this`row
      ensures authorised <==> Aim(stored, user, groups, apply).Some?
      ensures authorised ==>
                var aim := Aim(stored, user, groups, apply).value;
                row == stored.(updatedBy := Some(user), status := aim,
                               approvedBy := if aim == Approving then stored.approvedBy + [user] else stored.approvedBy)
    {
      row := row.(updatedBy := Some(user));
      var notAValidApprover := !Allowed(row, groups);
      assert Allowed(row, groups) == Allowed(stored, groups);
      if row.status == Pending && !apply {
        if notAValidApprover || row.deleted {
          return false;
        }
        row := row.(approvedBy := row.approvedBy + [user], status := Approving);
      } else if row.status != Approved {
        return false;
      } else if row.createdBy != user && notAValidApprover {
        return false;
      } else {
        row := row.(status := Applying);
      }
      authorised := true;
    }

    /** A refusal leaves the changed record unwritten. */
    method ApproveOrApply(pr: PullRequestObject, user: string, groups: seq<string>, apply: bool,
                          seen: PullRequest, polled: PullRequest)
      returns (outcome: Outcome)
      requires row == stored && pr.posted == [] && !pr.closeRequested
      modifies this, pr
      ensures Effect(stored, pr.posted, pr.closeRequested, outcome)
              == CallEffect(old(stored), Approve(user, groups, apply), Load(seen), Load(polled))
    {
      var authorised := TakeAim(user, groups, apply);
      if !authorised { return Unauthorized; }
      pr.LoadPr(seen);
      if pr.closed && !pr.merged {
        row := row.(status := Rejected);
      } else if pr.merged {
        row := row.(status := Applied);
      } else if row.status == Approving {
        pr.ApproveRequest(user);
      } else if row.status == Applying {
        pr.MergeRequest([user]);
      }
      Write();
      Respond(pr, polled);
      outcome := Done;
    }

    method RejectRequest(pr: PullRequestObject, user: string, groups: seq<string>,
                         seen: PullRequest, polled: PullRequest)
      returns (outcome: Outcome)
      requires row == stored && pr.posted == [] && !pr.closeRequested
      modifies this, pr
      ensures Effect(stored, pr.posted, pr.closeRequested, outcome)
              == CallEffect(old(stored), Reject(user, groups), Load(seen), Load(polled))
    {
      if !MayAct(row, user, groups) || row.status != Pending || row.deleted {
        return Unauthorized;
      }
      pr.RejectRequest(seen);
      if pr.merged {
      } else if pr.closed && !pr.merged {
        row := row.(status := Rejected);
      } else {
        row := row.(status := Rejected, rejectedBy := Some(user));
      }
      Write();
      Respond(pr, polled);
      outcome := Done;
    }

    /** `handle_tenant_iambic_github_event`, on the record it found. */
    method HandleGithubEvent(pr: PullRequestObject, u: StatusUpdate, seen: PullRequest, mergeOnApproval: bool)
      requires row == stored && pr.posted == []
      modifies this, pr
      ensures (stored, pr.posted) == Deliver(old(stored), u, Load(seen), mergeOnApproval)
    {
      pr.LoadPr(seen);
      if u.approvedBy != [] && !u.isClosed && !u.isMerged {
        if row.status == Approving && mergeOnApproval {
          pr.MergeRequest(row.approvedBy);
          assert pr.posted == if pr.mergeable then [ApplyComment(row.approvedBy)] else [];
          row := row.(status := Applying);
        } else {
          row := row.(status := Approved);
        }
      } else if u.isMerged {
        row := row.(status := Applied);
        if u.approvedBy != [] {
          row := row.(approvedBy := Dedup(row.approvedBy + Humans(u.approvedBy)));
        }
      } else if u.isClosed {
        row := row.(status := Rejected);
      }
      Write();
    }
  }
}
