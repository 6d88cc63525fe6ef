/** clients/foundation/foundation.js: counting a custodians' vote, and the majority
    check on the group. */
module CustodianTally {
  import opened Basics
  import opened Coalition

  datatype Choice = Yes | No | Veto | Abstain | Unknown(text: nat)

  datatype Custodian = Custodian(address: nat, weight: nat)

  datatype Vote = Vote(voter: nat, choice: Choice)

  /** The chain's recorded tally. */
  datatype Recorded = Recorded(yes: nat, no: nat, veto: nat, abstain: nat)

  datatype Count = Count(yes: int, no: int, veto: int, abstain: int, undecided: int, reached: bool, couldStillPass: bool, stillNeeded: int)

  datatype Result = Result(count: Count, individual: bool, stale: seq<Vote>)

  function TotalWeight(cs: seq<Custodian>): nat {
    if cs == [] then 0 else cs[0].weight + TotalWeight(cs[1..])
  }

  /** The vote a voter's last entry records. */
  function LastVote(votes: seq<Vote>, voter: nat): Option<Choice> {
    if votes == [] then None
    else if votes[|votes| - 1].voter == voter then Some(votes[|votes| - 1].choice)
    else LastVote(votes[..|votes| - 1], voter)
  }

  /** The weight of the custodians whose vote is this; None is having none. */
  function WeightOf(cs: seq<Custodian>, votes: seq<Vote>, choice: Option<Choice>): nat {
    if cs == [] then 0
    else (if LastVote(votes, cs[0].address) == choice then cs[0].weight else 0) + WeightOf(cs[1..], votes, choice)
  }

  /** The weight of custodians whose recorded option is none of the four. */
  function UnknownWeight(cs: seq<Custodian>, votes: seq<Vote>): nat {
    if cs == [] then 0
    else (var v := LastVote(votes, cs[0].address); if v.Some? && v.value.Unknown? then cs[0].weight else 0) + UnknownWeight(cs[1..], votes)
  }

  predicate IsCustodian(cs: seq<Custodian>, address: nat) {
    exists i :: 0 <= i < |cs| && cs[i].address == address
  }

  function Stale(cs: seq<Custodian>, votes: seq<Vote>): seq<Vote> {
    if votes == [] then []
    else (if IsCustodian(cs, votes[0].voter) then [] else [votes[0]]) + Stale(cs, votes[1..])
  }

  function Counted(yes: int, no: int, veto: int, abstain: int, undecided: int, threshold: int): Count {
    Count(yes, no, veto, abstain, undecided, yes >= threshold, yes + undecided >= threshold, Max(0, threshold - yes))
  }

  /** Counting the votes themselves. */
  function LiveCount(cs: seq<Custodian>, votes: seq<Vote>, threshold: int): Count {
    Counted(WeightOf(cs, votes, Some(Yes)), WeightOf(cs, votes, Some(No)), WeightOf(cs, votes, Some(Veto)), WeightOf(cs, votes, Some(Abstain)),
            WeightOf(cs, votes, None), threshold)
  }

  function RecordedSum(t: Option<Recorded>): nat {
    if t.None? then 0 else t.value.yes + t.value.no + t.value.veto + t.value.abstain
  }

  /** What the tally reports. Once the chain has pruned the votes of a decided
      proposal, its recorded tally stands in for them. */
  function TallyOf(cs: seq<Custodian>, votes: seq<Vote>, threshold: int, recorded: Option<Recorded>): Result {
    if votes == [] && RecordedSum(recorded) > 0 then
      var t := recorded.value;
      Result(Counted(t.yes, t.no, t.veto, t.abstain, Max(0, TotalWeight(cs) - RecordedSum(recorded)), threshold), false, [])
    else
      Result(LiveCount(cs, votes, threshold), true, Stale(cs, votes))
  }

  /** `tally`: it files the votes in a Map by voter, a later entry over an earlier. */
  method Tally(cs: seq<Custodian>, votes: seq<Vote>, threshold: int, recorded: Option<Recorded>) returns (r: Result)
    ensures r == TallyOf(cs, votes, threshold, recorded)
    ensures var c := r.count;
      c.yes == (if votes == [] && RecordedSum(recorded) > 0 then recorded.value.yes else WeightOf(cs, votes, Some(Yes))) &&
      (c.reached <==> c.yes >= threshold) && (c.couldStillPass <==> c.yes + c.undecided >= threshold) &&
      c.stillNeeded >= 0 && c.yes + c.stillNeeded >= threshold && (c.stillNeeded > 0 ==> c.yes + c.stillNeeded == threshold)
  {
    if votes == [] && RecordedSum(recorded) > 0 {
      var t := recorded.value;
      var left := Max(0, TotalWeight(cs) - RecordedSum(recorded));
      var count := Count(t.yes, t.no, t.veto, t.abstain, left, t.yes >= threshold, t.yes + left >= threshold, Max(0, threshold - t.yes));
      return Result(count, false, []);
    }
    var cast: map<nat, Choice> := map[];
    for i := 0 to |votes|
      invariant forall v :: LastVote(votes[..i], v) == if v in cast then Some(cast[v]) else None
    {
      assert votes[..i + 1][..i] == votes[..i];
      cast := cast[votes[i].voter := votes[i].choice];
    }
    assert votes[..|votes|] == votes;
    var count := CountRows(cs, votes, cast, threshold);
    r := Result(count, true, Stale(cs, votes));
  }

  /** The rows, one for each custodian, and the weight behind each option. */
  method CountRows(cs: seq<Custodian>, ghost votes: seq<Vote>, cast: map<nat, Choice>, threshold: int) returns (count: Count)
    requires forall v :: LastVote(votes, v) == if v in cast then Some(cast[v]) else None
    ensures count == LiveCount(cs, votes, threshold)
  {
    var yes, no, veto, abstain, undecided: nat := 0, 0, 0, 0, 0;
    for i := 0 to |cs|
      invariant yes + WeightOf(cs[i..], votes, Some(Yes)) == WeightOf(cs, votes, Some(Yes))
      invariant no + WeightOf(cs[i..], votes, Some(No)) == WeightOf(cs, votes, Some(No))
      invariant veto + WeightOf(cs[i..], votes, Some(Veto)) == WeightOf(cs, votes, Some(Veto))
      invariant abstain + WeightOf(cs[i..], votes, Some(Abstain)) == WeightOf(cs, votes, Some(Abstain))
      invariant undecided + WeightOf(cs[i..], votes, None) == WeightOf(cs, votes, None)
    {
      var c := cs[i];
      if c.address !in cast {
        undecided := undecided + c.weight;
      } else {
        match cast[c.address] {
          case Yes => yes := yes + c.weight;
          case No => no := no + c.weight;
          case Veto => veto := veto + c.weight;
          case Abstain => abstain := abstain + c.weight;
          case Unknown(_) =>
        }
      }
    }
    count := Counted(yes, no, veto, abstain, undecided, threshold);
  }

  // ------------------------------------------------------------------ properties

  /** The five weights partition the total, up to the weight behind an option that
      is none of the four. */
  lemma {:induction false} WeightsPartition(cs: seq<Custodian>, votes: seq<Vote>)
    ensures WeightOf(cs, votes, Some(Yes)) + WeightOf(cs, votes, Some(No)) + WeightOf(cs, votes, Some(Veto)) + WeightOf(cs, votes, Some(Abstain))
          + WeightOf(cs, votes, None) + UnknownWeight(cs, votes) == TotalWeight(cs)
  {
    if cs != [] { WeightsPartition(cs[1..], votes); }
  }

  lemma {:induction false} LastVoteConcat(a: seq<Vote>, b: seq<Vote>, voter: nat)
    ensures LastVote(a + b, voter) == if LastVote(b, voter).Some? then LastVote(b, voter) else LastVote(a, voter)
  {
    if b == [] {
      assert a + b == a;
    } else {
      assert (a + b)[..|a + b| - 1] == a + b[..|b| - 1];
      LastVoteConcat(a, b[..|b| - 1], voter);
    }
  }

  lemma {:induction false} NeverVoted(votes: seq<Vote>, voter: nat)
    requires forall i :: 0 <= i < |votes| ==> votes[i].voter != voter
    ensures LastVote(votes, voter) == None
  {
    if votes != [] { NeverVoted(votes[..|votes| - 1], voter); }
  }

  lemma {:induction false} SameWeights(cs: seq<Custodian>, v: seq<Vote>, w: seq<Vote>, choice: Option<Choice>)
    requires forall i :: 0 <= i < |cs| ==> LastVote(v, cs[i].address) == LastVote(w, cs[i].address)
    ensures WeightOf(cs, v, choice) == WeightOf(cs, w, choice)
  {
    if cs != [] { SameWeights(cs[1..], v, w, choice); }
  }

  /** Votes by addresses that are not custodians, anywhere in the list, change no
      count; they are the ones listed as stale. */
  lemma StaleVotesChangeNothing(cs: seq<Custodian>, before: seq<Vote>, stale: seq<Vote>, after: seq<Vote>, threshold: int)
    requires forall i :: 0 <= i < |stale| ==> !IsCustodian(cs, stale[i].voter)
    ensures LiveCount(cs, before + stale + after, threshold) == LiveCount(cs, before + after, threshold)
    ensures Stale(cs, before + stale + after) == Stale(cs, before) + stale + Stale(cs, after)
  {
    forall i | 0 <= i < |cs|
      ensures LastVote(before + stale + after, cs[i].address) == LastVote(before + after, cs[i].address)
    {
      var a := cs[i].address;
      assert forall k :: 0 <= k < |stale| && stale[k].voter == a ==> IsCustodian(cs, a);
      NeverVoted(stale, a);
      LastVoteConcat(before + stale, after, a);
      LastVoteConcat(before, stale, a);
      LastVoteConcat(before, after, a);
    }
    forall choice ensures WeightOf(cs, before + stale + after, choice) == WeightOf(cs, before + after, choice) {
      SameWeights(cs, before + stale + after, before + after, choice);
    }
    StaleConcat(cs, before + stale, after);
    StaleConcat(cs, before, stale);
    AllStale(cs, stale);
  }

  lemma {:induction false} StaleConcat(cs: seq<Custodian>, a: seq<Vote>, b: seq<Vote>)
    ensures Stale(cs, a + b) == Stale(cs, a) + Stale(cs, b)
  {
    if a == [] {
      assert a + b == b;
    } else {
      assert (a + b)[1..] == a[1..] + b;
      StaleConcat(cs, a[1..], b);
    }
  }

  lemma {:induction false} AllStale(cs: seq<Custodian>, stale: seq<Vote>)
    requires forall i :: 0 <= i < |stale| ==> !IsCustodian(cs, stale[i].voter)
    ensures Stale(cs, stale) == stale
  {
    if stale != [] { AllStale(cs, stale[1..]); }
  }

  /** What the chain records when it tallies these votes. */
  function Record(cs: seq<Custodian>, votes: seq<Vote>): Recorded {
    Recorded(WeightOf(cs, votes, Some(Yes)), WeightOf(cs, votes, Some(No)), WeightOf(cs, votes, Some(Veto)), WeightOf(cs, votes, Some(Abstain)))
  }

  lemma {:induction false} NoVotes(cs: seq<Custodian>)
    ensures WeightOf(cs, [], None) == TotalWeight(cs)
    ensures forall c: Choice :: WeightOf(cs, [], Some(c)) == 0
  {
    if cs != [] { NoVotes(cs[1..]); }
  }

  /** Read from the recorded tally once the votes are pruned, every number is what the
      votes themselves gave, exactly when no weight is behind an unknown option. */
  lemma PrunedAgreesWithLive(cs: seq<Custodian>, votes: seq<Vote>, threshold: int)
    ensures TallyOf(cs, [], threshold, Some(Record(cs, votes))).count == TallyOf(cs, votes, threshold, None).count
      <==> UnknownWeight(cs, votes) == 0
  {
    WeightsPartition(cs, votes);
    NoVotes(cs);
  }

  /** Votes that may still come: from voters who have none recorded. */
  ghost predicate Continues(votes: seq<Vote>, more: seq<Vote>) {
    forall i :: 0 <= i < |more| ==> LastVote(votes, more[i].voter) == None
  }

  ghost predicate CanStillReach(cs: seq<Custodian>, votes: seq<Vote>, threshold: int) {
    exists more: seq<Vote> :: Continues(votes, more) && LiveCount(cs, votes + more, threshold).reached
  }

  lemma {:induction false} YesAtMost(cs: seq<Custodian>, votes: seq<Vote>, more: seq<Vote>)
    requires Continues(votes, more)
    ensures WeightOf(cs, votes + more, Some(Yes)) <= WeightOf(cs, votes, Some(Yes)) + WeightOf(cs, votes, None)
  {
    if cs != [] {
      YesAtMost(cs[1..], votes, more);
      var a := cs[0].address;
      LastVoteConcat(votes, more, a);
      if forall i :: 0 <= i < |more| ==> more[i].voter != a { NeverVoted(more, a); }
    }
  }

  /** Everyone without a vote says yes. */
  function RestYes(cs: seq<Custodian>, votes: seq<Vote>): seq<Vote> {
    if cs == [] then []
    else RestYes(cs[1..], votes) + if LastVote(votes, cs[0].address).None? then [Vote(cs[0].address, Yes)] else []
  }

  lemma {:induction false} RestSaysYes(cs: seq<Custodian>, votes: seq<Vote>)
    ensures Continues(votes, RestYes(cs, votes)) && forall i :: 0 <= i < |RestYes(cs, votes)| ==> RestYes(cs, votes)[i].choice == Yes
    ensures forall i :: 0 <= i < |cs| && LastVote(votes, cs[i].address).None? ==> exists j :: 0 <= j < |RestYes(cs, votes)| && RestYes(cs, votes)[j].voter == cs[i].address
  {
    if cs != [] {
      RestSaysYes(cs[1..], votes);
      var rest, r := RestYes(cs[1..], votes), RestYes(cs, votes);
      forall i | 0 <= i < |cs| && LastVote(votes, cs[i].address).None? ensures exists j :: 0 <= j < |r| && r[j].voter == cs[i].address {
        if i == 0 {
          assert r[|r| - 1].voter == cs[0].address;
        } else {
          assert cs[1..][i - 1] == cs[i];
          var j :| 0 <= j < |rest| && rest[j].voter == cs[i].address;
          assert r[j] == rest[j];
        }
      }
    }
  }

  lemma {:induction false} LastIsYes(more: seq<Vote>, voter: nat)
    requires (forall i :: 0 <= i < |more| ==> more[i].choice == Yes) && exists j :: 0 <= j < |more| && more[j].voter == voter
    ensures LastVote(more, voter) == Some(Yes)
  {
    if more[|more| - 1].voter != voter {
      var j :| 0 <= j < |more| && more[j].voter == voter;
      assert more[..|more| - 1][j] == more[j];
      LastIsYes(more[..|more| - 1], voter);
    }
  }

  lemma {:induction false} YesWithRest(cs: seq<Custodian>, votes: seq<Vote>, more: seq<Vote>)
    requires forall i :: 0 <= i < |cs| ==> LastVote(votes + more, cs[i].address) == if LastVote(votes, cs[i].address).None? then Some(Yes) else LastVote(votes, cs[i].address)
    ensures WeightOf(cs, votes + more, Some(Yes)) == WeightOf(cs, votes, Some(Yes)) + WeightOf(cs, votes, None)
  {
    if cs != [] { YesWithRest(cs[1..], votes, more); }
  }

  /** `couldStillPass` is exact: it holds exactly when some votes by those who have not
      voted reach the threshold. */
  lemma CouldPassExactly(cs: seq<Custodian>, votes: seq<Vote>, threshold: int)
    ensures LiveCount(cs, votes, threshold).couldStillPass <==> CanStillReach(cs, votes, threshold)
  {
    forall more: seq<Vote> | Continues(votes, more) && LiveCount(cs, votes + more, threshold).reached
      ensures LiveCount(cs, votes, threshold).couldStillPass
    {
      YesAtMost(cs, votes, more);
    }
    var more := RestYes(cs, votes);
    RestSaysYes(cs, votes);
    forall i | 0 <= i < |cs|
      ensures LastVote(votes + more, cs[i].address) == if LastVote(votes, cs[i].address).None? then Some(Yes) else LastVote(votes, cs[i].address)
    {
      var a := cs[i].address;
      LastVoteConcat(votes, more, a);
      if LastVote(votes, a).None? { LastIsYes(more, a); } else { NeverVoted(more, a); }
    }
    YesWithRest(cs, votes, more);
  }

  // -------------------------------------------------------------------- majority

  /** auditGroup's finding that the threshold is not a majority. */
  predicate NotAMajority(threshold: int, total: int) {
    total != 0 && threshold != 0 && threshold * 2 <= total
  }

  function Weights(cs: seq<Custodian>): (ws: seq<int>)
    ensures |ws| == |cs|
  {
    if cs == [] then [] else [cs[0].weight] + Weights(cs[1..])
  }

  lemma {:induction false} Overlap(cs: seq<Custodian>, a: seq<bool>, b: seq<bool>)
    requires |a| == |b| == |cs| && forall i :: 0 <= i < |cs| ==> !(a[i] && b[i])
    ensures Weight(Weights(cs), a) + Weight(Weights(cs), b) <= TotalWeight(cs)
  {
    if cs != [] { Overlap(cs[1..], a[1..], b[1..]); }
  }

  /** With no such finding, any two sets of custodians that reach a positive
      threshold have a member in common. */
  lemma MajoritiesIntersect(cs: seq<Custodian>, threshold: int, a: seq<bool>, b: seq<bool>)
    requires |a| == |b| == |cs| && threshold > 0 && !NotAMajority(threshold, TotalWeight(cs))
    requires Weight(Weights(cs), a) >= threshold && Weight(Weights(cs), b) >= threshold
    ensures exists i :: 0 <= i < |cs| && a[i] && b[i]
  {
    if forall i :: 0 <= i < |cs| ==> !(a[i] && b[i]) { Overlap(cs, a, b); }
  }

  ghost predicate Contradictory(cs: seq<Custodian>, threshold: int, a: seq<bool>, b: seq<bool>) {
    |a| == |b| == |cs| && Weight(Weights(cs), a) >= threshold && Weight(Weights(cs), b) >= threshold &&
    forall i :: 0 <= i < |cs| ==> !(a[i] && b[i])
  }

  /** A set that reaches the threshold and leaves enough behind to reach it again. */
  ghost predicate Halves(cs: seq<Custodian>, threshold: int, a: seq<bool>) {
    |a| == |cs| && threshold <= Weight(Weights(cs), a) <= TotalWeight(cs) - threshold
  }

  function Others(a: seq<bool>): seq<bool> {
    seq(|a|, i requires 0 <= i < |a| => !a[i])
  }

  lemma {:induction false} OthersWeigh(cs: seq<Custodian>, a: seq<bool>)
    requires |a| == |cs|
    ensures Weight(Weights(cs), a) + Weight(Weights(cs), Others(a)) == TotalWeight(cs)
  {
    if cs != [] {
      assert Others(a)[1..] == Others(a[1..]);
      OthersWeigh(cs[1..], a[1..]);
    }
  }

  /** Two sets with no member in common can both reach the threshold exactly when one
      set's weight lies between the threshold and what the threshold leaves; and the
      finding is then raised. */
  lemma FindingExactly(cs: seq<Custodian>, threshold: int)
    requires threshold > 0
    ensures (exists a, b :: Contradictory(cs, threshold, a, b)) <==> exists a :: Halves(cs, threshold, a)
    ensures (exists a, b :: Contradictory(cs, threshold, a, b)) ==> NotAMajority(threshold, TotalWeight(cs))
  {
    forall a, b | Contradictory(cs, threshold, a, b) ensures Halves(cs, threshold, a) && NotAMajority(threshold, TotalWeight(cs)) {
      Overlap(cs, a, b);
    }
    forall a | Halves(cs, threshold, a) ensures Contradictory(cs, threshold, a, Others(a)) {
      OthersWeigh(cs, a);
    }
  }

  /** Where every custodian has one vote the finding itself is exact. */
  lemma UnitFindingExactly(cs: seq<Custodian>, threshold: int)
    requires threshold > 0 && forall i :: 0 <= i < |cs| ==> cs[i].weight == 1
    ensures NotAMajority(threshold, TotalWeight(cs)) <==> exists a, b :: Contradictory(cs, threshold, a, b)
  {
    FindingExactly(cs, threshold);
    UnitWeights(cs);
    if NotAMajority(threshold, TotalWeight(cs)) {
      var a := seq(|cs|, i => i < threshold);
      UnitBand(cs, a, 0, threshold);
      assert Halves(cs, threshold, a);
    }
  }

  /** With other weights it can be raised although no two such sets exist: one
      custodian of weight three and a threshold of one. */
  lemma FindingWithoutContradiction()
    ensures var cs := [Custodian(0, 3)];
      NotAMajority(1, TotalWeight(cs)) && !exists a, b :: Contradictory(cs, 1, a, b)
  {
    var cs := [Custodian(0, 3)];
    assert cs[1..] == [];
    assert TotalWeight(cs) == 3 && Weights(cs) == [3];
    forall a ensures !Halves(cs, 1, a) {
      if |a| == 1 { assert Weight([3], a) == if a[0] then 3 else 0; }
    }
    FindingExactly(cs, 1);
  }

  lemma {:induction false} UnitWeights(cs: seq<Custodian>)
    requires forall i :: 0 <= i < |cs| ==> cs[i].weight == 1
    ensures TotalWeight(cs) == |cs|
  {
    if cs != [] { UnitWeights(cs[1..]); }
  }

  lemma {:induction false} UnitBand(cs: seq<Custodian>, marked: seq<bool>, from: int, to: int)
    requires (forall i :: 0 <= i < |cs| ==> cs[i].weight == 1) && |marked| == |cs| && from <= to <= |cs| && 0 <= to
    requires forall i :: 0 <= i < |cs| ==> (marked[i] <==> from <= i < to)
    ensures Weight(Weights(cs), marked) == to - if from < 0 then 0 else from
  {
    if cs != [] { UnitBand(cs[1..], marked[1..], from - 1, if to > 0 then to - 1 else 0); }
  }
}
