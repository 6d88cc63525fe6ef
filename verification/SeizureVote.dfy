/** clients/oversight/oversight.js: the power a seizure case needs, and where it
    stands as validators vote. */
module SeizureVote {
  import opened Basics
  import opened Coalition

  lemma CeilingOf(total: int, bps: int)
    requires total > 0
    ensures (RequiredPower(total, bps) - 1) * 10000 < total * bps <= RequiredPower(total, bps) * 10000
  {
    var n := total * bps;
    assert n / 10000 * 10000 <= n < n / 10000 * 10000 + 10000;
  }

  /** What dividing a Number by 10000 can give: it is exact where the division is, and
      otherwise off by half a unit in the last place, which for a quotient below 2^40
      is 2^-14, less than a ten-thousandth. */
  ghost predicate Quotient(q: real, n: int) {
    -0.0001 < q - n as real / 10000.0 < 0.0001 && (n % 10000 == 0 ==> q == n as real / 10000.0)
  }

  /** So Math.floor of it is the floor. */
  lemma FloorOfQuotient(q: real, n: int)
    requires Quotient(q, n)
    ensures q.Floor == n / 10000
  {
    var k, r := n / 10000, n % 10000;
    assert n as real / 10000.0 == k as real + r as real / 10000.0;
    if r == 0 {
      assert q == k as real;
    } else {
      assert 0.0001 <= r as real / 10000.0 <= 0.9999;
    }
  }

  /** On Numbers: while the numerator is at most 2^53, where a Number holds it exactly,
      the power required is the ceiling of total * bps / 10000, however the division
      rounds. */
  lemma RequiredIsCeiling(total: int, bps: int, q: real)
    requires total > 0 && 0 <= total * bps <= 0x20_0000_0000_0000 && Quotient(q, total * bps)
    ensures var required := RoundedUp(total * bps, q.Floor);
      required == RequiredPower(total, bps) && (required - 1) * 10000 < total * bps <= required * 10000
  {
    FloorOfQuotient(q, total * bps);
    CeilingOf(total, bps);
  }

  /** A bonded validator's vote on a case; powers are fixed when the case opens. */
  datatype Ballot = Uncast | Yes | No | Abstain

  function Cast(powers: seq<nat>, ballots: seq<Ballot>, b: Ballot): nat
    requires |powers| == |ballots|
  {
    if powers == [] then 0
    else (if ballots[0] == b then powers[0] else 0) + Cast(powers[1..], ballots[1..], b)
  }

  function Total(powers: seq<nat>): nat {
    if powers == [] then 0 else powers[0] + Total(powers[1..])
  }

  datatype Standing = Standing(required: int, met: bool, reachable: bool, shortBy: int, uncast: int)

  /** `caseStanding`, on the powers a case records. */
  function CaseStanding(total: int, yes: int, no: int, abstain: int, bps: int): Standing {
    var required := RequiredPower(total, bps);
    var stillPossible := Max(0, total - no - abstain);
    Standing(required, total > 0 && yes >= required, total > 0 && stillPossible >= required,
             Max(0, required - yes), Max(0, total - yes - no - abstain))
  }

  /** The standing of a case on these ballots. */
  function StandingOf(powers: seq<nat>, ballots: seq<Ballot>, bps: int): Standing
    requires |powers| == |ballots|
  {
    CaseStanding(Total(powers), Cast(powers, ballots, Yes), Cast(powers, ballots, No), Cast(powers, ballots, Abstain), bps)
  }

  // ------------------------------------------------------------------------ runs

  datatype Vote = Vote(validator: nat, choice: Ballot)

  /** Each validator votes once. */
  predicate Legal(ballots: seq<Ballot>, votes: seq<Vote>)
    decreases |votes|
  {
    votes == [] ||
    (votes[0].validator < |ballots| && ballots[votes[0].validator] == Uncast && votes[0].choice != Uncast &&
     Legal(ballots[votes[0].validator := votes[0].choice], votes[1..]))
  }

  function Run(ballots: seq<Ballot>, votes: seq<Vote>): (r: seq<Ballot>)
    requires Legal(ballots, votes)
    ensures |r| == |ballots|
    decreases |votes|
  {
    if votes == [] then ballots else Run(ballots[votes[0].validator := votes[0].choice], votes[1..])
  }

  predicate Extends(later: seq<Ballot>, ballots: seq<Ballot>) {
    |later| == |ballots| && forall i :: 0 <= i < |ballots| && ballots[i] != Uncast ==> later[i] == ballots[i]
  }

  lemma {:induction false} RunExtends(ballots: seq<Ballot>, votes: seq<Vote>)
    requires Legal(ballots, votes)
    ensures Extends(Run(ballots, votes), ballots)
    decreases |votes|
  {
    if votes != [] { RunExtends(ballots[votes[0].validator := votes[0].choice], votes[1..]); }
  }

  /** Cast power only grows, and it and the uncast power make up the total. */
  lemma {:induction false} PowerCast(powers: seq<nat>, later: seq<Ballot>, ballots: seq<Ballot>)
    requires |powers| == |ballots| && Extends(later, ballots)
    ensures forall b :: b != Uncast ==> Cast(powers, ballots, b) <= Cast(powers, later, b)
    ensures Cast(powers, ballots, Yes) + Cast(powers, ballots, No) + Cast(powers, ballots, Abstain) + Cast(powers, ballots, Uncast) == Total(powers)
  {
    if powers != [] { PowerCast(powers[1..], later[1..], ballots[1..]); }
  }

  /** Once a case has met the bar it has met it, and once it cannot it never does. */
  lemma StandingIsFinal(powers: seq<nat>, ballots: seq<Ballot>, votes: seq<Vote>, bps: int)
    requires |powers| == |ballots| && Legal(ballots, votes)
    ensures var now, then' := StandingOf(powers, ballots, bps), StandingOf(powers, Run(ballots, votes), bps);
      (now.met ==> then'.met) && (!now.reachable ==> !then'.reachable && !then'.met) && (then'.met ==> then'.reachable)
  {
    var later := Run(ballots, votes);
    RunExtends(ballots, votes);
    PowerCast(powers, later, ballots);
    PowerCast(powers, later, later);
  }

  /** Everyone left votes yes. */
  function RestYes(ballots: seq<Ballot>, from: nat): (votes: seq<Vote>)
    requires from <= |ballots|
    ensures Legal(ballots, votes) && Run(ballots, votes) == seq(|ballots|, i requires 0 <= i < |ballots| => if i >= from && ballots[i] == Uncast then Yes else ballots[i])
    decreases |ballots| - from
  {
    if from == |ballots| then []
    else if ballots[from] != Uncast then RestYes(ballots, from + 1)
    else
      var rest := RestYes(ballots[from := Yes], from + 1);
      assert ([Vote(from, Yes)] + rest)[1..] == rest;
      [Vote(from, Yes)] + rest
  }

  lemma {:induction false} YesPower(powers: seq<nat>, ballots: seq<Ballot>, filled: seq<Ballot>)
    requires |powers| == |ballots| == |filled|
    requires forall i :: 0 <= i < |ballots| ==> filled[i] == if ballots[i] == Uncast then Yes else ballots[i]
    ensures Cast(powers, filled, Yes) == Cast(powers, ballots, Yes) + Cast(powers, ballots, Uncast)
  {
    if powers != [] { YesPower(powers[1..], ballots[1..], filled[1..]); }
  }

  ghost predicate CanStillPass(powers: seq<nat>, ballots: seq<Ballot>, bps: int)
    requires |powers| == |ballots|
  {
    exists votes: seq<Vote> :: Legal(ballots, votes) && StandingOf(powers, Run(ballots, votes), bps).met
  }

  /** `reachable` is exact: it holds exactly when some run of the votes still to be
      cast meets the bar. */
  lemma ReachableIsExact(powers: seq<nat>, ballots: seq<Ballot>, bps: int)
    requires |powers| == |ballots|
    ensures StandingOf(powers, ballots, bps).reachable <==> CanStillPass(powers, ballots, bps)
  {
    if StandingOf(powers, ballots, bps).reachable {
      var votes := RestYes(ballots, 0);
      YesPower(powers, ballots, Run(ballots, votes));
      PowerCast(powers, ballots, ballots);
    } else {
      forall votes: seq<Vote> | Legal(ballots, votes) ensures !StandingOf(powers, Run(ballots, votes), bps).met {
        StandingIsFinal(powers, ballots, votes, bps);
      }
    }
  }

  /** Where Numbers hold the sums and products exactly. */
  predicate InRange(total: int, bps: int) {
    0 <= bps && total <= 0x20_0000_0000_0000 && total * bps <= 0x20_0000_0000_0000
  }

  /** k more power in favour would carry the case. */
  predicate Carries(total: int, yes: int, bps: int, k: int) {
    (yes + k) * 10000 >= total * bps
  }

  /** Yes votes alone count toward the bar, as a share of all the power there was when the
      case opened. Votes against and abstentions are spent; shortBy is the least power
      that is still missing. */
  lemma StandingExactly(powers: seq<nat>, ballots: seq<Ballot>, bps: int)
    requires |powers| == |ballots| && InRange(Total(powers), bps)
    ensures var s, total, yes, uncast := StandingOf(powers, ballots, bps), Total(powers), Cast(powers, ballots, Yes), Cast(powers, ballots, Uncast);
      (s.met <==> total > 0 && Carries(total, yes, bps, 0)) &&
      (s.reachable <==> total > 0 && Carries(total, yes, bps, uncast)) &&
      s.uncast == uncast &&
      s.shortBy >= 0 && (total > 0 ==> Carries(total, yes, bps, s.shortBy)) && forall k :: 0 <= k < s.shortBy ==> !Carries(total, yes, bps, k)
  {
    PowerCast(powers, ballots, ballots);
    if Total(powers) > 0 { CeilingOf(Total(powers), bps); }
  }

  /** The numbers a reader sees agree: what is short and what is uncast decide it. */
  lemma ShortfallDecides(powers: seq<nat>, ballots: seq<Ballot>, bps: int)
    requires |powers| == |ballots| && Total(powers) > 0
    ensures var s := StandingOf(powers, ballots, bps);
      s.uncast == Cast(powers, ballots, Uncast) && (s.met <==> s.shortBy == 0) && (s.reachable <==> s.shortBy <= s.uncast || s.met)
  {
    PowerCast(powers, ballots, ballots);
  }

  // -------------------------------------------------------------------- majority

  ghost predicate Disjoint(a: seq<bool>, b: seq<bool>) {
    |a| == |b| && forall i :: 0 <= i < |a| ==> !(a[i] && b[i])
  }

  lemma {:induction false} DisjointPower(powers: seq<nat>, a: seq<bool>, b: seq<bool>)
    requires |powers| == |a| && Disjoint(a, b)
    ensures Weight(powers, a) + Weight(powers, b) <= Total(powers)
    ensures Weight(powers, a) >= 0 && Weight(powers, b) >= 0
  {
    if powers != [] { DisjointPower(powers[1..], a[1..], b[1..]); }
  }

  /** Two sets with no validator in common both carry the case. */
  ghost predicate BothCarry(powers: seq<nat>, a: seq<bool>, b: seq<bool>, bps: int) {
    |powers| == |a| && Disjoint(a, b) && Total(powers) > 0 &&
    Weight(powers, a) >= RequiredPower(Total(powers), bps) && Weight(powers, b) >= RequiredPower(Total(powers), bps)
  }

  /** No validator set ever has two disjoint coalitions that both carry a case,
      exactly when the threshold is above 5000 basis points. */
  lemma MajorityExactly(bps: int)
    ensures (forall powers, a, b :: !BothCarry(powers, a, b, bps)) <==> bps > 5000
  {
    if bps > 5000 {
      forall powers, a, b ensures !BothCarry(powers, a, b, bps) {
        if |powers| == |a| && Disjoint(a, b) && Total(powers) > 0 {
          DisjointPower(powers, a, b);
          OverHalf(Total(powers), bps);
        }
      }
    } else {
      var powers: seq<nat>, a, b := [1, 1], [true, false], [false, true];
      assert powers[1..] == [1] && a[1..] == [false] && b[1..] == [true];
      assert BothCarry(powers, a, b, bps);
    }
  }

  lemma OverHalf(total: int, bps: int)
    requires total > 0 && bps > 5000
    ensures 2 * RequiredPower(total, bps) > total
  {
    CeilingOf(total, bps);
    MoreTimes(total, 5001, bps);
  }
}
