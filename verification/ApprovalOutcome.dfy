/**
 The outcome of an approval round depends only on what each approver decided first: not on the
 order of the decisions, nor on repetitions or changes of mind.
 */
module ApprovalOutcome {
  import opened Wrappers
  import opened Rows
  import opened Lifecycle

  datatype Vote = Vote(k: nat, decision: Decision)

  function Steps(votes: seq<Vote>): (r: seq<Step>)
    ensures |r| == |votes|
    ensures forall j | 0 <= j < |votes| :: r[j] == Step.Decide(votes[j].k, votes[j].decision)
  {
    seq(|votes|, j requires 0 <= j < |votes| => Step.Decide(votes[j].k, votes[j].decision))
  }

  /** What approver k said first, if anything. */
  function FirstVote(votes: seq<Vote>, k: nat): Option<Decision> {
    if votes == [] then None
    else if votes[0].k == k then Some(votes[0].decision)
    else FirstVote(votes[1..], k)
  }

  predicate Round(s: State) {
    && s.doc.Some? && s.doc.value.status == PendingInternalApproval && s.doc.value.orgActive
    && s.approvals != []
    && forall k | 0 <= k < |s.approvals| :: s.approvals[k].status == ApprovalPending
  }

  function Decided(a: Approval, first: Option<Decision>): Approval {
    if first.Some? then a.(status := StatusOf(first.value)) else a
  }

  /** The first vote of each of n approvers. */
  function FirstVotes(votes: seq<Vote>, n: nat): (r: seq<Option<Decision>>)
    ensures |r| == n
    ensures forall k | 0 <= k < n :: r[k] == FirstVote(votes, k)
  {
    seq(n, k requires 0 <= k < n => FirstVote(votes, k))
  }

  predicate AllSaidYes(first: seq<Option<Decision>>) {
    forall k | 0 <= k < |first| :: first[k] == Some(Approve)
  }

  predicate SomeoneSaidNo(first: seq<Option<Decision>>) {
    exists k | 0 <= k < |first| :: first[k] == Some(Reject)
  }

  /** The whole state after a round, read off from the first votes alone. */
  function Outcome(s: State, first: seq<Option<Decision>>): (t: State)
    requires Round(s) && |first| == |s.approvals|
  {
    var approvals := seq(|first|, k requires 0 <= k < |first| => Decided(s.approvals[k], first[k]));
    if AllSaidYes(first) then
      State(Some(s.doc.value.(status := DocSent)), Released(s.requests, s.doc.value.sequential), approvals, s.fields)
    else if SomeoneSaidNo(first) then
      State(Some(s.doc.value.(status := Draft)), s.requests, approvals, s.fields)
    else
      State(s.doc, s.requests, approvals, s.fields)
  }

  lemma {:induction false} FirstVoteAppend(votes: seq<Vote>, last: Vote, k: nat)
    ensures FirstVote(votes + [last], k)
         == if FirstVote(votes, k).Some? then FirstVote(votes, k) else if last.k == k then Some(last.decision) else None
  {
    if votes != [] {
      assert (votes + [last])[1..] == votes[1..] + [last];
      FirstVoteAppend(votes[1..], last, k);
    } else {
      assert (votes + [last])[1..] == [];
    }
  }

  function Adding(first: seq<Option<Decision>>, v: Vote): seq<Option<Decision>> {
    if v.k < |first| && first[v.k].None? then first[v.k := Some(v.decision)] else first
  }

  lemma AllApprovedIffAllSaidYes(s: State, first: seq<Option<Decision>>)
    requires Round(s) && |first| == |s.approvals|
    ensures AllApproved(Outcome(s, first).approvals) <==> AllSaidYes(first)
  {
    var a := Outcome(s, first).approvals;
    assert forall k | 0 <= k < |first| :: a[k].status == Approved <==> first[k] == Some(Approve);
  }

  lemma ApprovingKeepsRejections(first: seq<Option<Decision>>, v: Vote)
    requires v.decision == Approve
    ensures SomeoneSaidNo(Adding(first, v)) == SomeoneSaidNo(first)
  {
    if k :| 0 <= k < |first| && first[k] == Some(Reject) {
      assert Adding(first, v)[k] == Some(Reject);
    }
  }

  /** One more vote moves the outcome exactly as it moves the first votes. */
  lemma OneMoreVote(s: State, first: seq<Option<Decision>>, v: Vote)
    requires Round(s) && |first| == |s.approvals|
    ensures DecideStep(Outcome(s, first), v.k, v.decision).0 == Outcome(s, Adding(first, v))
  {
    var t := Outcome(s, first);
    if v.k < |first| && first[v.k].None? {
      var more := Adding(first, v);
      var decided := t.approvals[v.k := t.approvals[v.k].(status := StatusOf(v.decision))];
      assert decided == Outcome(s, more).approvals;
      assert more[v.k] == Some(v.decision);
      assert !AllSaidYes(first);
      if v.decision == Approve {
        AllApprovedIffAllSaidYes(s, more);
        ApprovingKeepsRejections(first, v);
      }
    }
  }

  /** Any sequence of decisions leaves exactly the state its first votes call for. */
  lemma {:induction false} RunIsOutcome(s: State, votes: seq<Vote>)
    requires Round(s)
    ensures Run(s, Steps(votes)) == Outcome(s, FirstVotes(votes, |s.approvals|))
    decreases |votes|
  {
    var m := |s.approvals|;
    if votes == [] {
      assert Outcome(s, FirstVotes(votes, m)).approvals == s.approvals;
      assert FirstVotes(votes, m)[0] == None;
    } else {
      var n := |votes| - 1;
      var front, last := votes[..n], votes[n];
      assert votes == front + [last];
      assert Steps(votes) == Steps(front) + [Step.Decide(last.k, last.decision)];
      RunAppend(s, Steps(front), Step.Decide(last.k, last.decision));
      RunIsOutcome(s, front);
      OneMoreVote(s, FirstVotes(front, m), last);
      forall k: nat | k < m
        ensures Adding(FirstVotes(front, m), last)[k] == FirstVotes(votes, m)[k]
      {
        FirstVoteAppend(front, last, k);
      }
      assert Adding(FirstVotes(front, m), last) == FirstVotes(votes, m);
    }
  }

  /** Two rounds in which everyone said the same thing first end in the same state. */
  lemma OrderDoesNotMatter(s: State, votes1: seq<Vote>, votes2: seq<Vote>)
    requires Round(s)
    requires forall k: nat | k < |s.approvals| :: FirstVote(votes1, k) == FirstVote(votes2, k)
    ensures Run(s, Steps(votes1)) == Run(s, Steps(votes2))
  {
    RunIsOutcome(s, votes1);
    RunIsOutcome(s, votes2);
    assert FirstVotes(votes1, |s.approvals|) == FirstVotes(votes2, |s.approvals|);
  }

  /**
   The document goes out exactly when all approved, falls back to a draft exactly when somebody
   rejected, and no request is touched before the last approval.
   */
  lemma SentIffAllApproved(s: State, votes: seq<Vote>)
    requires Round(s)
    ensures var t, first := Run(s, Steps(votes)), FirstVotes(votes, |s.approvals|);
            && t.doc.Some?
            && (t.doc.value.status == DocSent <==> AllSaidYes(first))
            && (t.doc.value.status == Draft <==> SomeoneSaidNo(first))
            && t.requests == if AllSaidYes(first) then Released(s.requests, s.doc.value.sequential) else s.requests
  {
    RunIsOutcome(s, votes);
    var first := FirstVotes(votes, |s.approvals|);
    assert first[0] != Some(Reject) || first[0] != Some(Approve);
  }
}
