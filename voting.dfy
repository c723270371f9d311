/** The voting page: the per-user selection of projects (a JavaScript `Set`, so
    insertion-ordered and without duplicates), the guarded vote submission and
    the live tally fed by `VoteCast` events. */
module Voting {
  import opened Wrappers
  import opened EthersUtils
  import opened Display

  predicate Distinct(s: seq<int>) {
    forall i, j :: 0 <= i < j < |s| ==> s[i] != s[j]
  }

  /** `Set.prototype.delete` on an insertion-ordered set. */
  function Remove(s: seq<int>, x: int): (r: seq<int>)
    ensures forall y :: y in r <==> y in s && y != x
    ensures |r| <= |s|
    ensures x !in s ==> r == s
    ensures Distinct(s) ==> Distinct(r)
    ensures Distinct(s) && x in s ==> |r| == |s| - 1
  {
    if s == [] then []
    else if s[0] == x then Remove(s[1..], x)
    else
      var t := Remove(s[1..], x);
      assert Distinct(s) ==> s[0] !in s[1..] by {
        assert forall k :: 0 <= k < |s| - 1 ==> s[1..][k] == s[k + 1];
      }
      DistinctCons(s[0], t);
      [s[0]] + t
  }

  lemma DistinctCons(a: int, t: seq<int>)
    ensures Distinct([a] + t) <==> a !in t && Distinct(t)
  {
    var s := [a] + t;
    if Distinct(s) {
      forall i, j | 0 <= i < j < |t| ensures t[i] != t[j] {
        assert t[i] == s[i + 1] && t[j] == s[j + 1];
      }
      forall k | 0 <= k < |t| ensures t[k] != a {
        assert t[k] == s[k + 1] && s[0] == a;
        assert s[0] != s[k + 1];
      }
    }
  }

  /** Deleting the id at position `k` of a duplicate-free set leaves the other
      ids in their insertion order. */
  lemma {:induction false} RemoveKeepsOrder(s: seq<int>, k: int)
    requires Distinct(s) && 0 <= k < |s|
    ensures Remove(s, s[k]) == s[..k] + s[k + 1..]
    decreases k, 1
  {
    var x, t := s[k], s[1..];
    assert s == [s[0]] + t;
    DistinctCons(s[0], t);
    if k == 0 {
      assert Remove(s, x) == Remove(t, x) == t;
    } else {
      RemoveKeepsOrderStep(s, k);
    }
  }

  /** The step past the first id, which differs from the one removed. */
  lemma {:induction false} RemoveKeepsOrderStep(s: seq<int>, k: int)
    requires Distinct(s) && 0 < k < |s| && Distinct(s[1..]) && s[1..][k - 1] == s[k]
    ensures Remove(s, s[k]) == s[..k] + s[k + 1..]
    decreases k, 0
  {
    var x, t := s[k], s[1..];
    assert s[0] != x;
    var u := Remove(t, x);
    assert Remove(s, x) == [s[0]] + u;
    RemoveKeepsOrder(t, k - 1);
    assert u == t[..k - 1] + t[k..];
    assert t[..k - 1] == s[1..k] && t[k..] == s[k + 1..];
    assert [s[0]] + (s[1..k] + s[k + 1..]) == s[..k] + s[k + 1..];
  }

  /** Removing an element just appended gives back the set as it was. */
  lemma {:induction false} RemoveAppended(s: seq<int>, x: int)
    requires x !in s
    ensures Remove(s + [x], x) == s
  {
    if s != [] {
      assert (s + [x])[1..] == s[1..] + [x];
      RemoveAppended(s[1..], x);
    } else {
      assert [x][1..] == [];
    }
  }

  /** Lines 149-161 of `handleSelectProject`: a selected id is removed, even at
      the limit; a new id is added unless `maxVotes` ids are already selected
      (`None`: the selection is refused). */
  function Toggle(selected: seq<int>, projectId: int, maxVotes: int): (r: Option<seq<int>>)
    ensures projectId in selected ==> r.Some?
    ensures r.None? <==> projectId !in selected && |selected| >= maxVotes
    ensures r.Some? ==> forall y :: y != projectId ==> (y in r.value <==> y in selected)
    ensures r.Some? ==> (projectId in r.value <==> projectId !in selected)
    // a new id goes to the end of the insertion order
    ensures projectId !in selected && |selected| < maxVotes ==> r == Some(selected + [projectId])
  {
    if projectId in selected then Some(Remove(selected, projectId))
    else if |selected| >= maxVotes then None
    else Some(selected + [projectId])
  }

  /** Deselecting the id at position `k` leaves the other ids selected in their order. */
  lemma ToggleRemovesInPlace(selected: seq<int>, k: int, maxVotes: int)
    requires Distinct(selected) && 0 <= k < |selected|
    ensures Toggle(selected, selected[k], maxVotes) == Some(selected[..k] + selected[k + 1..])
  {
    RemoveKeepsOrder(selected, k);
  }

  /** The selection keeps its two invariants: no id twice, and no more than
      `maxVotes` ids; an accepted toggle changes the size by exactly one. */
  lemma ToggleKeepsBound(selected: seq<int>, projectId: int, maxVotes: int)
    requires Distinct(selected)
    ensures var r := Toggle(selected, projectId, maxVotes);
      && (r.Some? ==> Distinct(r.value))
      && (r.Some? && |r.value| > |selected| ==> |r.value| <= maxVotes)
      && (r.Some? ==> |r.value| == if projectId in selected then |selected| - 1 else |selected| + 1)
      && (|selected| <= maxVotes && r.Some? ==> |r.value| <= maxVotes)
  {
  }

  /** Selecting a new id and then selecting it again restores the selection. */
  lemma ToggleTwice(selected: seq<int>, projectId: int, maxVotes: int)
    requires projectId !in selected && |selected| < maxVotes
    ensures Toggle(selected, projectId, maxVotes).Some?
    ensures Toggle(Toggle(selected, projectId, maxVotes).value, projectId, maxVotes) == Some(selected)
  {
    RemoveAppended(selected, projectId);
  }

  /** `handleVoteCast`: the projects whose id equals the event's index gain one
      vote; the list keeps its length, its order and every other field. */
  function ApplyVoteCast(projects: seq<ActiveProject>, proposalIndex: int): (r: seq<ActiveProject>)
    ensures |r| == |projects|
    ensures forall i :: 0 <= i < |r| ==>
      r[i] == if projects[i].id == proposalIndex
              then projects[i].(voteCount := projects[i].voteCount + 1) else projects[i]
  {
    if projects == [] then []
    else
      var p := projects[0];
      [if p.id == proposalIndex then p.(voteCount := p.voteCount + 1) else p]
        + ApplyVoteCast(projects[1..], proposalIndex)
  }

  function TotalVotes(projects: seq<ActiveProject>): int {
    if projects == [] then 0 else projects[0].voteCount + TotalVotes(projects[1..])
  }

  function CountId(projects: seq<ActiveProject>, id: int): nat {
    if projects == [] then 0 else (if projects[0].id == id then 1 else 0) + CountId(projects[1..], id)
  }

  /** The tally grows by the number of projects carrying the event's id. */
  lemma {:induction false} VoteCastTotal(projects: seq<ActiveProject>, proposalIndex: int)
    ensures TotalVotes(ApplyVoteCast(projects, proposalIndex))
         == TotalVotes(projects) + CountId(projects, proposalIndex)
  {
    if projects != [] {
      var r := ApplyVoteCast(projects, proposalIndex);
      assert r[1..] == ApplyVoteCast(projects[1..], proposalIndex);
      VoteCastTotal(projects[1..], proposalIndex);
    }
  }

  lemma {:induction false} CountIdDistinct(projects: seq<ActiveProject>, id: int)
    requires DistinctIds(projects)
    ensures CountId(projects, id) == if exists i :: 0 <= i < |projects| && projects[i].id == id then 1 else 0
  {
    if projects != [] {
      var tail := projects[1..];
      assert DistinctIds(tail) by {
        forall i, j | 0 <= i < j < |tail| ensures tail[i].id != tail[j].id {
          assert tail[i] == projects[i + 1] && tail[j] == projects[j + 1];
        }
      }
      CountIdDistinct(tail, id);
      if projects[0].id == id {
        forall i | 0 <= i < |tail| ensures tail[i].id != id {
          assert tail[i] == projects[i + 1];
        }
      } else {
        if exists i :: 0 <= i < |projects| && projects[i].id == id {
          var i :| 0 <= i < |projects| && projects[i].id == id;
          assert tail[i - 1] == projects[i];
        }
      }
    }
  }

  /** With distinct ids (the records `getActiveProposals` builds from distinct
      contract indices), one VoteCast event adds exactly one vote when the
      project is listed and none otherwise. */
  lemma VoteCastAddsOne(projects: seq<ActiveProject>, proposalIndex: int)
    requires DistinctIds(projects)
    ensures TotalVotes(ApplyVoteCast(projects, proposalIndex))
         == TotalVotes(projects) + (if FindId(projects, proposalIndex).Some? then 1 else 0)
  {
    VoteCastTotal(projects, proposalIndex);
    CountIdDistinct(projects, proposalIndex);
    if FindId(projects, proposalIndex).Some? {
      assert projects[FindId(projects, proposalIndex).value].id == proposalIndex;
    }
  }

  /** What `handleSubmitVote` does, in the order of its guards. */
  datatype SubmitOutcome =
    | NothingSelected    // "Please select at least one project"
    | NoWallet           // "Please connect your wallet first"
    | AlreadyVoted       // "You have already voted"
    | CastFailed         // `castVote` threw: "Failed to submit vote"
    | Cast(ids: seq<int>) // `castVote` succeeded with these ids, in selection order

  /** The decision `handleSubmitVote` takes; `castSucceeds` is the wallet's and
      the contract's answer to `castVote`. */
  function SubmitDecision(selected: seq<int>, wallet: Option<string>, userHasVoted: bool, castSucceeds: bool)
    : (r: SubmitOutcome)
    ensures r == NothingSelected <==> selected == []
    ensures r == NoWallet <==> selected != [] && wallet.None?
    ensures r == AlreadyVoted <==> selected != [] && wallet.Some? && userHasVoted
    ensures r.Cast? <==> selected != [] && wallet.Some? && !userHasVoted && castSucceeds
    ensures r.Cast? ==> r.ids == selected
  {
    if |selected| == 0 then NothingSelected
    else if wallet.None? then NoWallet
    else if userHasVoted then AlreadyVoted
    else if castSucceeds then Cast(selected)
    else CastFailed
  }

  /** One press of the submit button: the selection and wallet at that moment,
      and the answer `castVote` would give. */
  datatype Submission = Submission(selected: seq<int>, wallet: Option<string>, castSucceeds: bool)

  /** The outcomes of successive submissions from one page; between two of them
      the user may change the selection or the wallet. */
  function SubmitRun(userHasVoted: bool, subs: seq<Submission>): seq<SubmitOutcome>
    decreases |subs|
  {
    if subs == [] then []
    else
      var o := SubmitDecision(subs[0].selected, subs[0].wallet, userHasVoted, subs[0].castSucceeds);
      [o] + SubmitRun(userHasVoted || o.Cast?, subs[1..])
  }

  function CountCast(outcomes: seq<SubmitOutcome>): nat {
    if outcomes == [] then 0 else (if outcomes[0].Cast? then 1 else 0) + CountCast(outcomes[1..])
  }

  /** However often the user submits, and whatever is selected each time, at
      most one `castVote` succeeds, and none once the page knows the user has voted. */
  lemma {:induction false} AtMostOneCast(userHasVoted: bool, subs: seq<Submission>)
    ensures CountCast(SubmitRun(userHasVoted, subs)) <= if userHasVoted then 0 else 1
    decreases |subs|
  {
    if subs != [] {
      var o := SubmitDecision(subs[0].selected, subs[0].wallet, userHasVoted, subs[0].castSucceeds);
      var run := SubmitRun(userHasVoted, subs);
      assert run[1..] == SubmitRun(userHasVoted || o.Cast?, subs[1..]);
      AtMostOneCast(userHasVoted || o.Cast?, subs[1..]);
    }
  }

  /** What `handleSelectProject` reports. */
  datatype SelectOutcome = NoToken | LimitReached | Deselected | Selected

  /** The page's state (the `useState` hooks that the modelled handlers touch). */
  class VotingPage {
    var wallet: Option<string>
    var hasVotingToken: bool
    var maxVotes: int
    var votedProjects: seq<int>
    var projects: seq<ActiveProject>
    var userHasVoted: bool
    var votingInProgress: bool
    var votingDeadline: int

    ghost predicate Valid()
      reads this
    {
      Distinct(votedProjects)
    }

    /** The page once `fetchProjects` has succeeded: nothing selected, no vote in progress. */
    constructor (wallet: Option<string>, hasVotingToken: bool, params: ContractParams,
                 projects: seq<ActiveProject>, userHasVoted: bool)
      ensures Valid()
      ensures this.wallet == wallet && this.hasVotingToken == hasVotingToken
      ensures maxVotes == params.maxVotes && votingDeadline == params.endVoting * 1000
      ensures this.projects == projects && this.userHasVoted == userHasVoted
      ensures votedProjects == [] && !votingInProgress
    {
      this.wallet := wallet;
      this.hasVotingToken := hasVotingToken;
      maxVotes := params.maxVotes;
      votingDeadline := params.endVoting * 1000;
      this.projects := projects;
      this.userHasVoted := userHasVoted;
      votedProjects := [];
      votingInProgress := false;
    }

    /** `handleSelectProject`: without a voting token nothing happens; otherwise
        the id is toggled on a copy of the set, which then replaces it, unless
        the limit refuses the addition. */
    method SelectProject(projectId: int) returns (outcome: SelectOutcome)
      requires Valid()
      modifies this`votedProjects
      ensures Valid()
      ensures outcome == NoToken <==> !hasVotingToken
      ensures outcome == LimitReached <==>
        hasVotingToken && projectId !in old(votedProjects) && |old(votedProjects)| >= maxVotes
      ensures votedProjects == if hasVotingToken && Toggle(old(votedProjects), projectId, maxVotes).Some?
                               then Toggle(old(votedProjects), projectId, maxVotes).value
                               else old(votedProjects)
      ensures |votedProjects| > |old(votedProjects)| ==> |votedProjects| <= maxVotes
    {
      if !hasVotingToken {
        return NoToken;
      }
      var newVotedProjects := votedProjects;
      if projectId in newVotedProjects {
        newVotedProjects := Remove(newVotedProjects, projectId);
        outcome := Deselected;
      } else {
        if |newVotedProjects| >= maxVotes {
          return LimitReached;
        }
        newVotedProjects := newVotedProjects + [projectId];
        outcome := Selected;
      }
      ToggleKeepsBound(votedProjects, projectId, maxVotes);
      votedProjects := newVotedProjects;
    }

    /** `handleSubmitVote`: the three guards leave everything as it was; past
        them the vote is in progress until `castVote` answers, and only a
        successful cast latches `userHasVoted`. */
    method SubmitVote(castSucceeds: bool) returns (outcome: SubmitOutcome)
      modifies this`userHasVoted, this`votingInProgress
      ensures outcome == SubmitDecision(votedProjects, wallet, old(userHasVoted), castSucceeds)
      ensures userHasVoted == (old(userHasVoted) || outcome.Cast?)
      ensures votingInProgress == if outcome.Cast? || outcome == CastFailed then false else old(votingInProgress)
    {
      if |votedProjects| == 0 {
        return NothingSelected;
      }
      if wallet.None? {
        return NoWallet;
      }
      if userHasVoted {
        return AlreadyVoted;
      }
      votingInProgress := true;
      var selectedProjectIds := votedProjects;
      if castSucceeds {
        userHasVoted := true;
        outcome := Cast(selectedProjectIds);
      } else {
        outcome := CastFailed;
      }
      votingInProgress := false;
    }

    /** The submit button is enabled unless nothing is selected, the user has
        voted or a vote is in progress. */
    function SubmitEnabled(): (enabled: bool)
      reads this
      ensures enabled ==> SubmitDecision(votedProjects, wallet, userHasVoted, true) != NothingSelected
      ensures enabled ==> SubmitDecision(votedProjects, wallet, userHasVoted, true) != AlreadyVoted
    {
      !(|votedProjects| == 0 || userHasVoted || votingInProgress)
    }

    /** `handleVoteCast`: the live tally update for one VoteCast event. */
    method OnVoteCast(data: VoteData)
      modifies this`projects
      ensures projects == ApplyVoteCast(old(projects), data.proposalIndex)
    {
      projects := ApplyVoteCast(projects, data.proposalIndex);
    }

    /** The countdown to the end of voting at time `now` (milliseconds). */
    function TimeLeftAt(now: int): (t: TimeLeft)
      reads this
      ensures now >= votingDeadline ==> t == NoTimeLeft
      ensures now < votingDeadline ==> 0 <= t.hours < 24 && 0 <= t.minutes < 60 && 0 <= t.seconds < 60
    {
      TimeLeftOf(votingDeadline - now)
    }
  }
}
