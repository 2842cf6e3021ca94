/**
 * `vote_report`: the three-way toggle over the votes table, and what it
 * keeps (at most one vote per user and report, every other pair's votes).
 */
module Votes {
  import opened Wrappers
  import opened Records

  /** Row `v` is a vote of user `userId` on report `reportId`. */
  predicate IsPair(v: Vote, userId: nat, reportId: nat)
  {
    v.userId == userId && v.reportId == reportId
  }

  /** The position of the first vote of the pair, as `filter_by(...).first()` returns it. */
  function FindVote(votes: seq<Vote>, userId: nat, reportId: nat): (k: Option<nat>)
    ensures k.Some? ==> k.value < |votes| && IsPair(votes[k.value], userId, reportId)
    ensures forall j :: 0 <= j < |votes| && (k.None? || j < k.value) ==> !IsPair(votes[j], userId, reportId)
  {
    if votes == [] then None
    else if IsPair(votes[0], userId, reportId) then Some(0)
    else match FindVote(votes[1..], userId, reportId)
      case None =>
        assert forall j :: 0 < j < |votes| ==> votes[j] == votes[1..][j - 1];
        None
      case Some(j) =>
        assert forall i :: 0 < i <= j ==> votes[i] == votes[1..][i - 1];
        Some(j + 1)
  }

  /** No user has two votes on the same report. */
  ghost predicate AtMostOnePerPair(votes: seq<Vote>)
  {
    forall i, j :: 0 <= i < j < |votes| ==> !IsPair(votes[j], votes[i].userId, votes[i].reportId)
  }

  /** The pair's vote: the type of its vote row, or None when the user has not voted on the report. */
  function VoteOf(votes: seq<Vote>, userId: nat, reportId: nat): Option<string>
  {
    match FindVote(votes, userId, reportId)
    case None => None
    case Some(k) => Some(votes[k].voteType)
  }

  /** The votes table after user `userId` votes `voteType` on report `reportId`. */
  function ToggleVote(votes: seq<Vote>, userId: nat, reportId: nat, voteType: string): seq<Vote>
  {
    match FindVote(votes, userId, reportId)
    case None => votes + [Vote(NextId(votes, VoteKey), voteType, userId, reportId)]
    case Some(k) =>
      if votes[k].voteType == voteType then votes[..k] + votes[k + 1..]
      else votes[k := votes[k].(voteType := voteType)]
  }

  /** The number of vote rows of the pair. */
  function PairCount(votes: seq<Vote>, userId: nat, reportId: nat): nat
  {
    if votes == [] then 0
    else (if IsPair(votes[0], userId, reportId) then 1 else 0) + PairCount(votes[1..], userId, reportId)
  }

  /** The rows of every other pair, in table order. */
  function OtherPairs(votes: seq<Vote>, userId: nat, reportId: nat): seq<Vote>
  {
    if votes == [] then []
    else (if IsPair(votes[0], userId, reportId) then [] else [votes[0]]) + OtherPairs(votes[1..], userId, reportId)
  }

  lemma {:induction false} PairCountAppend(a: seq<Vote>, b: seq<Vote>, userId: nat, reportId: nat)
    ensures PairCount(a + b, userId, reportId) == PairCount(a, userId, reportId) + PairCount(b, userId, reportId)
  {
    if a != [] {
      assert (a + b)[1..] == a[1..] + b;
      PairCountAppend(a[1..], b, userId, reportId);
    } else {
      assert a + b == b;
    }
  }

  lemma {:induction false} OtherPairsAppend(a: seq<Vote>, b: seq<Vote>, userId: nat, reportId: nat)
    ensures OtherPairs(a + b, userId, reportId) == OtherPairs(a, userId, reportId) + OtherPairs(b, userId, reportId)
  {
    if a != [] {
      assert (a + b)[1..] == a[1..] + b;
      OtherPairsAppend(a[1..], b, userId, reportId);
    } else {
      assert a + b == b;
    }
  }

  /** A pair has no vote exactly when none of its rows is in the table; otherwise it has at least one row. */
  lemma {:induction false} PairCountMatchesVoteOf(votes: seq<Vote>, userId: nat, reportId: nat)
    ensures VoteOf(votes, userId, reportId).None? <==> PairCount(votes, userId, reportId) == 0
  {
    if votes != [] {
      PairCountMatchesVoteOf(votes[1..], userId, reportId);
    }
  }

  /** Under the one-vote-per-pair invariant every pair has at most one row. */
  lemma {:induction false} AtMostOneRowPerPair(votes: seq<Vote>, userId: nat, reportId: nat)
    requires AtMostOnePerPair(votes)
    ensures PairCount(votes, userId, reportId) <= 1
  {
    if votes != [] {
      var rest := votes[1..];
      assert AtMostOnePerPair(rest) by {
        forall i, j | 0 <= i < j < |rest|
          ensures !IsPair(rest[j], rest[i].userId, rest[i].reportId)
        {
          assert rest[i] == votes[i + 1] && rest[j] == votes[j + 1];
        }
      }
      AtMostOneRowPerPair(rest, userId, reportId);
      if IsPair(votes[0], userId, reportId) {
        assert forall j :: 0 <= j < |rest| ==> rest[j] == votes[j + 1];
        assert FindVote(rest, userId, reportId).None?;
        PairCountMatchesVoteOf(rest, userId, reportId);
      }
    }
  }

  /** A vote appended for a pair that has none is the pair's vote. */
  lemma AppendedVoteIsFound(votes: seq<Vote>, v: Vote)
    requires VoteOf(votes, v.userId, v.reportId).None?
    ensures FindVote(votes + [v], v.userId, v.reportId) == Some(|votes|)
  {
    var k := FindVote(votes + [v], v.userId, v.reportId);
    assert IsPair((votes + [v])[|votes|], v.userId, v.reportId);
  }

  /**
   * The three rules of `vote_report`, as the pair's vote sees them: no vote
   * becomes the requested type, the same type is withdrawn, another type is
   * replaced by the requested one.
   */
  lemma ToggleVoteState(votes: seq<Vote>, userId: nat, reportId: nat, voteType: string)
    requires AtMostOnePerPair(votes)
    ensures VoteOf(ToggleVote(votes, userId, reportId, voteType), userId, reportId) ==
            if VoteOf(votes, userId, reportId) == Some(voteType) then None else Some(voteType)
  {
    var after := ToggleVote(votes, userId, reportId, voteType);
    match FindVote(votes, userId, reportId)
    case None =>
      AppendedVoteIsFound(votes, Vote(NextId(votes, VoteKey), voteType, userId, reportId));
    case Some(k) =>
      if votes[k].voteType == voteType {
        forall j | 0 <= j < |after| ensures !IsPair(after[j], userId, reportId) {
          var j' := if j < k then j else j + 1;
          assert after[j] == votes[j'];
          if j' > k {
            assert !IsPair(votes[j'], votes[k].userId, votes[k].reportId);
          }
        }
      } else {
        var k' := FindVote(after, userId, reportId);
        assert IsPair(after[k], userId, reportId);
      }
  }

  /**
   * The rows `vote_report` touches: a new row with a fresh key when the pair
   * had no vote; exactly that row removed when the type repeats; otherwise the
   * same row, in the same place and with the same key, now of the new type.
   */
  lemma ToggleVoteRows(votes: seq<Vote>, userId: nat, reportId: nat, voteType: string)
    ensures var after := ToggleVote(votes, userId, reportId, voteType);
            VoteOf(votes, userId, reportId).None? ==>
              |after| == |votes| + 1 && after[..|votes|] == votes &&
              IsPair(after[|votes|], userId, reportId) && after[|votes|].voteType == voteType &&
              forall i :: 0 <= i < |votes| ==> votes[i].id < after[|votes|].id
    ensures var after := ToggleVote(votes, userId, reportId, voteType);
            VoteOf(votes, userId, reportId) == Some(voteType) ==>
              var k := FindVote(votes, userId, reportId).value;
              |after| == |votes| - 1 && multiset(after) == multiset(votes) - multiset{votes[k]}
    ensures var after := ToggleVote(votes, userId, reportId, voteType);
            VoteOf(votes, userId, reportId).Some? && VoteOf(votes, userId, reportId) != Some(voteType) ==>
              var k := FindVote(votes, userId, reportId).value;
              |after| == |votes| && after[k].id == votes[k].id && IsPair(after[k], userId, reportId) &&
              after[k].voteType == voteType &&
              forall j :: 0 <= j < |votes| && j != k ==> after[j] == votes[j]
  {
    match FindVote(votes, userId, reportId)
    case None =>
    case Some(k) =>
      if votes[k].voteType == voteType {
        assert votes == votes[..k] + [votes[k]] + votes[k + 1..];
      }
  }

  /** The rows of every other pair are left exactly as they were, in the same order. */
  lemma ToggleVoteFrame(votes: seq<Vote>, userId: nat, reportId: nat, voteType: string)
    ensures OtherPairs(ToggleVote(votes, userId, reportId, voteType), userId, reportId) ==
            OtherPairs(votes, userId, reportId)
  {
    var after := ToggleVote(votes, userId, reportId, voteType);
    match FindVote(votes, userId, reportId)
    case None =>
      var v := Vote(NextId(votes, VoteKey), voteType, userId, reportId);
      OtherPairsAppend(votes, [v], userId, reportId);
    case Some(k) =>
      var w := if votes[k].voteType == voteType then [] else [votes[k].(voteType := voteType)];
      assert votes == votes[..k] + ([votes[k]] + votes[k + 1..]);
      assert after == votes[..k] + (w + votes[k + 1..]);
      OtherPairsAppend(votes[..k], [votes[k]] + votes[k + 1..], userId, reportId);
      OtherPairsAppend([votes[k]], votes[k + 1..], userId, reportId);
      OtherPairsAppend(votes[..k], w + votes[k + 1..], userId, reportId);
      OtherPairsAppend(w, votes[k + 1..], userId, reportId);
  }

  /** The pair's vote is its first row's type when the first row is the pair's, and is read off the rest otherwise. */
  lemma VoteOfCons(votes: seq<Vote>, userId: nat, reportId: nat)
    requires votes != []
    ensures VoteOf(votes, userId, reportId) ==
            if IsPair(votes[0], userId, reportId) then Some(votes[0].voteType)
            else VoteOf(votes[1..], userId, reportId)
  {
  }

  /** Another pair's vote can be read off the rows of the other pairs alone. */
  lemma {:induction false} OtherPairsKeepVoteOf(votes: seq<Vote>, userId: nat, reportId: nat, u: nat, r: nat)
    requires (u, r) != (userId, reportId)
    ensures VoteOf(OtherPairs(votes, userId, reportId), u, r) == VoteOf(votes, u, r)
  {
    if votes != [] {
      OtherPairsKeepVoteOf(votes[1..], userId, reportId, u, r);
      var rest := OtherPairs(votes[1..], userId, reportId);
      VoteOfCons(votes, u, r);
      if !IsPair(votes[0], userId, reportId) {
        assert OtherPairs(votes, userId, reportId) == [votes[0]] + rest;
        assert ([votes[0]] + rest)[1..] == rest;
        VoteOfCons([votes[0]] + rest, u, r);
      } else {
        assert OtherPairs(votes, userId, reportId) == rest;
        assert !IsPair(votes[0], u, r);
      }
    }
  }

  /** So no other pair's vote changes. */
  lemma ToggleVoteKeepsOtherVotes(votes: seq<Vote>, userId: nat, reportId: nat, voteType: string, u: nat, r: nat)
    requires (u, r) != (userId, reportId)
    ensures VoteOf(ToggleVote(votes, userId, reportId, voteType), u, r) == VoteOf(votes, u, r)
  {
    ToggleVoteFrame(votes, userId, reportId, voteType);
    OtherPairsKeepVoteOf(votes, userId, reportId, u, r);
    OtherPairsKeepVoteOf(ToggleVote(votes, userId, reportId, voteType), userId, reportId, u, r);
  }

  /** `vote_report` keeps at most one vote per pair. */
  lemma ToggleVoteKeepsOnePerPair(votes: seq<Vote>, userId: nat, reportId: nat, voteType: string)
    requires AtMostOnePerPair(votes)
    ensures AtMostOnePerPair(ToggleVote(votes, userId, reportId, voteType))
  {
    var after := ToggleVote(votes, userId, reportId, voteType);
    match FindVote(votes, userId, reportId)
    case None =>
      forall i, j | 0 <= i < j < |after|
        ensures !IsPair(after[j], after[i].userId, after[i].reportId)
      {
        if j == |votes| {
          assert after[i] == votes[i];
        }
      }
    case Some(k) =>
      if votes[k].voteType == voteType {
        forall i, j | 0 <= i < j < |after|
          ensures !IsPair(after[j], after[i].userId, after[i].reportId)
        {
          var i' := if i < k then i else i + 1;
          var j' := if j < k then j else j + 1;
          assert after[i] == votes[i'] && after[j] == votes[j'];
        }
      }
  }

  /** `vote_report` keeps the vote keys increasing: a new row gets the next key, a changed row keeps its own. */
  lemma ToggleVoteKeepsIdsIncreasing(votes: seq<Vote>, userId: nat, reportId: nat, voteType: string)
    requires IdsIncreasing(votes, VoteKey)
    ensures IdsIncreasing(ToggleVote(votes, userId, reportId, voteType), VoteKey)
  {
    var after := ToggleVote(votes, userId, reportId, voteType);
    match FindVote(votes, userId, reportId)
    case None =>
      InsertKeepsIdsIncreasing(votes, VoteKey, Vote(NextId(votes, VoteKey), voteType, userId, reportId));
    case Some(k) =>
      if votes[k].voteType == voteType {
        DeleteKeepsIdsIncreasing(votes, VoteKey, k);
      } else {
        forall i, j | 0 <= i < j < |after| ensures VoteKey(after[i]) < VoteKey(after[j]) {
          assert VoteKey(votes[i]) < VoteKey(votes[j]);
        }
      }
  }

  /** Voting the same type twice, starting from no vote, leaves the table exactly as it was. */
  lemma ToggleVoteTwiceUndoes(votes: seq<Vote>, userId: nat, reportId: nat, voteType: string)
    requires VoteOf(votes, userId, reportId).None?
    ensures ToggleVote(ToggleVote(votes, userId, reportId, voteType), userId, reportId, voteType) == votes
  {
    var v := Vote(NextId(votes, VoteKey), voteType, userId, reportId);
    AppendedVoteIsFound(votes, v);
    assert (votes + [v])[..|votes|] + (votes + [v])[|votes| + 1..] == votes;
  }

  /**
   * Voting one type and then another, starting from no vote, leaves exactly
   * one row for the pair, of the second type.
   */
  lemma ToggleVoteSwitch(votes: seq<Vote>, userId: nat, reportId: nat, first: string, second: string)
    requires AtMostOnePerPair(votes)
    requires VoteOf(votes, userId, reportId).None?
    requires first != second
    ensures var after := ToggleVote(ToggleVote(votes, userId, reportId, first), userId, reportId, second);
            VoteOf(after, userId, reportId) == Some(second) && PairCount(after, userId, reportId) == 1
  {
    var v := Vote(NextId(votes, VoteKey), first, userId, reportId);
    var once := votes + [v];
    AppendedVoteIsFound(votes, v);
    ToggleVoteKeepsOnePerPair(votes, userId, reportId, first);
    var after := ToggleVote(once, userId, reportId, second);
    assert after == votes + [v.(voteType := second)];
    ToggleVoteState(votes, userId, reportId, first);
    ToggleVoteState(once, userId, reportId, second);
    PairCountMatchesVoteOf(votes, userId, reportId);
    PairCountAppend(votes, [v.(voteType := second)], userId, reportId);
  }
}
