/** Histories of one key generation and any chain of reshares, and what the checks
    of mpc/mpc.go and mpc/party.go accept along them. */
module Generations {
  import opened Basics
  import opened Sharing

  // ----------------------------------------------------------------- operations

  /** `roleOfSave`: a finished party is recognised by its own id. */
  method RoleOfSave(ids: seq<PartyID>, data: Save) returns (r: Result<Role>)
    ensures r.Ok? ==> exists i :: 0 <= i < |ids| && ids[i].id == r.value && data.shareID == Some(ids[i].key)
    ensures r.Refused? ==> forall i :: 0 <= i < |ids| ==> data.shareID != Some(ids[i].key)
  {
    if data.shareID.None? { return Refused(NoShareId); }
    for i := 0 to |ids|
      invariant forall j :: 0 <= j < i ==> ids[j].key != data.shareID.value
    {
      if ids[i].key == data.shareID.value { return Ok(ids[i].id); }
    }
    return Refused(OutsideTheCommittee);
  }

  /** `Keygen`: the parties hold ids 1, 2 and 3 in Roles order, and end in any order. */
  method Keygen(ends: seq<Save>, ghost pub: int) returns (r: Result<map<Role, Share>>)
    requires forall k :: 0 <= k < |ends| ==> ends[k].secret
    ensures Completed(ends, Above(0), pub) ==> r == Ok(Issue(Above(0), pub))
  {
    var saved: map<Role, Share> := map[];
    var next := 0;
    while saved.Keys != ROLES && next < |ends|
      decreases |ends| - next
      invariant 0 <= next <= |ends|
      invariant Completed(ends, Above(0), pub) ==> Collected(saved, ends, next, Above(0), pub)
    {
      var data := ends[next];
      var ids := NewParties(Above(0));
      assert Completed(ends, Above(0), pub) ==>
        data.shareID == Some(ids[0].key) || data.shareID == Some(ids[1].key) || data.shareID == Some(ids[2].key);
      var role := RoleOfSave(ids, data);
      if role.Refused? { return Refused(role.reason); }
      if Completed(ends, Above(0), pub) { CollectOne(saved, ends, next, Above(0), pub, RoleIndex(role.value)); }
      saved := saved[role.value := Share(role.value, data.ks, data.shareID, data.pub)];
      next := next + 1;
    }
    if Completed(ends, Above(0), pub) { AllSaved(saved, ends, next, pub); }
    // Short of three shares the source goes on waiting.
    return if saved.Keys == ROLES then Ok(saved) else Refused(WrongShareCount);
  }

  lemma AllSaved(saved: map<Role, Share>, ends: seq<Save>, next: nat, pub: int)
    requires next <= |ends| && (saved.Keys == ROLES || next == |ends|)
    requires Completed(ends, Above(0), pub) && Collected(saved, ends, next, Above(0), pub)
    ensures saved == Issue(Above(0), pub)
  {
    assert saved.Keys == ROLES;
  }

  /** All shares under a role of the table know a committee, and the same one. */
  ghost predicate OneCommittee(shares: map<Role, Share>) {
    (forall r :: r in shares && r in ROLES ==> shares[r].ks != []) &&
    (forall r, s :: r in shares && s in shares && r in ROLES && s in ROLES ==> shares[r].ks == shares[s].ks)
  }

  method SameSharing(shares: map<Role, Share>) returns (r: Option<Refusal>)
    ensures r.None? <==> OneCommittee(shares)
  {
    var reference: seq<int> := [];
    for i := 0 to 3
      invariant forall j :: 0 <= j < i && RoleAt(j) in shares ==> shares[RoleAt(j)].ks == reference != []
      invariant reference != [] ==> exists j :: 0 <= j < i && RoleAt(j) in shares
    {
      var role := RoleAt(i);
      if role !in shares { continue; }
      var ks := shares[role].ks;
      if ks == [] { return Some(NoCommittee); }
      if reference == [] {
        reference := ks;
        continue;
      }
      if |ks| != |reference| { return Some(DifferentSharings); }
      for k := 0 to |reference|
        invariant ks[..k] == reference[..k]
      {
        if reference[k] != ks[k] { return Some(DifferentSharings); }
      }
      assert ks == ks[..|ks|] && reference == reference[..|reference|];
    }
    forall q | q in shares && q in ROLES ensures shares[q].ks == reference != [] {
      assert q == RoleAt(RoleIndex(q));
    }
    return None;
  }

  /** What Sign demands before it hands the shares to tss-lib. */
  ghost predicate CanSign(hashLength: nat, shares: map<Role, Share>) {
    |shares| >= 2 && hashLength == 32 && (forall r :: r in shares ==> shares[r].shareID.Some?) && OneCommittee(shares)
  }

  /** The checks of `Sign`, and the parties it names: one for every share given, with
      that share's own id. The source takes the roles in the order of their names. */
  method SigningCommittee(hashLength: nat, shares: map<Role, Share>) returns (r: Result<seq<PartyID>>)
    ensures r.Ok? <==> CanSign(hashLength, shares)
    ensures r.Ok? ==> Sorted(r.value) && |r.value| == |shares|
    ensures r.Ok? ==> forall p :: p in r.value <==> p.id in shares && shares[p.id].shareID == Some(p.key)
  {
    if |shares| < THRESHOLD + 1 { return Refused(TooFewShares); }
    if hashLength != 32 { return Refused(DigestLength); }
    var left, unsorted: seq<PartyID> := shares.Keys, [];
    while left != {}
      invariant left <= shares.Keys && |unsorted| + |left| == |shares|
      invariant forall q :: q in shares && q !in left ==> shares[q].shareID.Some?
      invariant forall p :: p in unsorted <==> p.id in shares && p.id !in left && shares[p.id].shareID == Some(p.key)
    {
      var role :| role in left;
      if shares[role].shareID.None? { return Refused(NoShareId); }
      unsorted := unsorted + [PartyID(role, shares[role].shareID.value)];
      left := left - {role};
    }
    var ids := SortPartyIDs(unsorted);
    SortSorts(unsorted);
    SameMembers(unsorted);
    assert |ids| == |multiset(ids)| == |multiset(unsorted)| == |unsorted|;
    var mixed := SameSharing(shares);
    return if mixed.None? then Ok(ids) else Refused(mixed.value);
  }

  /** The parties of the named signers, with the ids the share itself knows. */
  function Named(signers: seq<Role>, ks: seq<int>): seq<PartyID>
    requires |ks| == 3 && forall i :: 0 <= i < |signers| ==> signers[i] in ROLES
  {
    seq(|signers|, i requires 0 <= i < |signers| => PartyID(signers[i], ks[RoleIndex(signers[i])]))
  }

  /** What committeeOf demands of a share presented under a role. */
  ghost predicate Presentable(signers: seq<Role>, role: Role, share: Share) {
    |share.ks| == 3 && role in ROLES && share.shareID == Some(share.ks[RoleIndex(role)]) &&
    (forall i :: 0 <= i < |signers| ==> signers[i] in ROLES) && role in signers
  }

  method FindParty(ids: seq<PartyID>, role: Role) returns (self: Option<PartyID>)
    ensures self.Some? ==> self.value in ids && self.value.id == role
    ensures self.None? ==> forall i :: 0 <= i < |ids| ==> ids[i].id != role
  {
    for i := 0 to |ids|
      invariant forall j :: 0 <= j < i ==> ids[j].id != role
    {
      if ids[i].id == role { return Some(ids[i]); }
    }
    return None;
  }

  /** Ks is sorted the way Roles is, so position maps one to the other. */
  method RoleTable(ks: seq<int>) returns (index: map<Role, int>)
    requires |ks| == 3
    ensures index.Keys == ROLES && forall q :: q in index ==> index[q] == ks[RoleIndex(q)]
  {
    index := map[];
    for i := 0 to 3
      invariant forall q :: q in index <==> q in ROLES && RoleIndex(q) < i
      invariant forall q :: q in index ==> index[q] == ks[RoleIndex(q)]
    {
      index := index[RoleAt(i) := ks[i]];
    }
  }

  /** `committeeOf`. The source sorts the names before it looks them up, which
      decides no more than which unknown name is reported. */
  method CommitteeOf(signers: seq<Role>, role: Role, share: Share) returns (r: Result<(seq<PartyID>, PartyID)>)
    requires share.shareID.Some?
    ensures r.Ok? <==> Presentable(signers, role, share)
    ensures r.Ok? ==> r.value.0 == SortPartyIDs(Named(signers, share.ks))
    ensures r.Ok? ==> r.value.1 == PartyID(role, share.shareID.value) && r.value.1 in r.value.0
  {
    if |share.ks| != 3 { return Refused(UnknownCommitteeSize); }
    var index := RoleTable(share.ks);
    if role !in index || index[role] != share.shareID.value { return Refused(NotOwnShare); }
    var unsorted: seq<PartyID> := [];
    for i := 0 to |signers|
      invariant forall j :: 0 <= j < i ==> signers[j] in ROLES
      invariant unsorted == Named(signers[..i], share.ks)
    {
      if signers[i] !in index { return Refused(UnknownParty); }
      unsorted := unsorted + [PartyID(signers[i], index[signers[i]])];
    }
    assert signers[..|signers|] == signers;
    assert unsorted == Named(signers, share.ks);
    var ids := SortPartyIDs(unsorted);
    SignersNamed(signers, share.ks, ids);
    var self := FindParty(ids, role);
    return if self.Some? then Ok((ids, self.value)) else Refused(NotASigner);
  }

  lemma SameMembers(ids: seq<PartyID>)
    ensures forall p :: p in SortPartyIDs(ids) <==> p in ids
  {
    forall p ensures p in SortPartyIDs(ids) <==> p in ids {
      assert p in multiset(SortPartyIDs(ids)) <==> p in multiset(ids);
    }
  }

  lemma SignersNamed(signers: seq<Role>, ks: seq<int>, ids: seq<PartyID>)
    requires |ks| == 3 && forall i :: 0 <= i < |signers| ==> signers[i] in ROLES
    requires ids == SortPartyIDs(Named(signers, ks))
    ensures forall i :: 0 <= i < |ids| ==> ids[i].id in signers && ids[i].key == ks[RoleIndex(ids[i].id)]
    ensures forall role :: role in signers ==> exists i :: 0 <= i < |ids| && ids[i].id == role
  {
    var named := Named(signers, ks);
    SameMembers(named);
    forall i | 0 <= i < |ids| ensures ids[i].id in signers && ids[i].key == ks[RoleIndex(ids[i].id)] {
      assert ids[i] in named;
    }
    forall role | role in signers ensures exists i :: 0 <= i < |ids| && ids[i].id == role {
      var k :| 0 <= k < |signers| && signers[k] == role;
      assert named[k] in ids;
    }
  }

  // ------------------------------------------------------------------- histories

  /** The roles that took part in each reshare, oldest first. */
  type History = seq<set<Role>>

  ghost predicate Possible(h: History) {
    forall i :: 0 <= i < |h| ==> h[i] <= ROLES && |h[i]| >= 2
  }

  function Restrict(shares: map<Role, Share>, roles: set<Role>): map<Role, Share> {
    map r | r in shares && r in roles :: shares[r]
  }

  /** The shares the next committee is issued when these roles of this one reshare. */
  function Reshared(shares: map<Role, Share>, roles: set<Role>, pub: int): (next: map<Role, Share>)
    requires Identified(shares)
    ensures Identified(next)
  {
    Issue(NextKeys(Restrict(shares, roles)), pub)
  }

  /** The shares after key generation and these reshares. */
  ghost function Current(h: History, pub: int): (shares: map<Role, Share>)
    ensures shares.Keys == ROLES && Identified(shares)
  {
    if h == [] then Issue(Above(0), pub) else Reshared(Current(h[..|h| - 1], pub), h[|h| - 1], pub)
  }

  /** One less than the lowest id in use: a reshare moves it up by the place of the
      highest participating role. */
  ghost function Base(h: History): nat {
    if h == [] then 0 else Base(h[..|h| - 1]) + if Recovery in h[|h| - 1] then 3 else 2
  }

  lemma OnlyOne(roles: set<Role>, r: Role)
    requires roles <= {r}
    ensures |roles| <= 1
  {
    assert roles == {} || roles == {r};
  }

  lemma TwoRoles(roles: set<Role>)
    requires roles <= ROLES && |roles| >= 2
    ensures Custodian in roles || Recovery in roles
    ensures Recovery in roles ==> Device in roles || Custodian in roles
    ensures Recovery !in roles ==> Device in roles && Custodian in roles
  {
    if roles <= {Recovery} { OnlyOne(roles, Recovery); }
    if roles <= {Custodian} { OnlyOne(roles, Custodian); }
    if roles <= {Device} { OnlyOne(roles, Device); }
  }

  /** Resharing from any two or more shares of a committee. */
  lemma NextIds(b: int, pub: int, roles: set<Role>)
    requires b >= 0 && roles <= ROLES && |roles| >= 2
    ensures var outgoing := Restrict(Issue(Above(b), pub), roles);
      Identified(outgoing) && |Present(outgoing, 3)| >= 2 && SameKey(outgoing, pub) &&
      NextKeys(outgoing) == Above(b + if Recovery in roles then 3 else 2)
  {
    TwoRoles(roles);
    var outgoing := Restrict(Issue(Above(b), pub), roles);
    var present := Present(outgoing, 3);
    assert Present(outgoing, 2) == Present(outgoing, 1) + if Custodian in roles then [PartyID(Custodian, b + 2)] else [];
    assert Present(outgoing, 1) == if Device in roles then [PartyID(Device, b + 1)] else [];
    assert present == Present(outgoing, 2) + if Recovery in roles then [PartyID(Recovery, b + 3)] else [];
    assert |present| >= 2 && present[|present| - 1].key == b + if Recovery in roles then 3 else 2;
    assert forall i :: 0 <= i < |present| ==> present[i].key <= present[|present| - 1].key;
  }

  lemma ResharedIds(b: int, pub: int, roles: set<Role>)
    requires b >= 0 && roles <= ROLES && |roles| >= 2
    ensures Reshared(Issue(Above(b), pub), roles, pub) == Issue(Above(b + if Recovery in roles then 3 else 2), pub)
  {
    NextIds(b, pub, roles);
  }

  lemma CurrentStep(h: History, roles: set<Role>, pub: int)
    requires roles <= ROLES && |roles| >= 2 && Current(h, pub) == Issue(Above(Base(h)), pub)
    ensures Current(h + [roles], pub) == Issue(Above(Base(h + [roles])), pub)
  {
    assert (h + [roles])[..|h|] == h;
    ResharedIds(Base(h), pub, roles);
  }

  /** Every generation's ids are three consecutive numbers in Roles order. */
  lemma {:induction false} CurrentIds(h: History, pub: int)
    requires Possible(h)
    ensures Current(h, pub) == Issue(Above(Base(h)), pub)
  {
    if h != [] {
      hide Issue, Above;
      var prefix := h[..|h| - 1];
      assert Possible(prefix);
      CurrentIds(prefix, pub);
      CurrentStep(prefix, h[|h| - 1], pub);
      assert h == prefix + [h[|h| - 1]];
    }
  }

  lemma {:induction false} BaseGrows(h: History, i: nat, j: nat)
    requires i < j <= |h|
    ensures Base(h[..i]) < Base(h[..j])
    decreases j
  {
    assert h[..j][..j - 1] == h[..j - 1];
    if i < j - 1 { BaseGrows(h, i, j - 1); }
  }

  /** A reshare from any two or more current shares, completing in any order,
      issues the next generation: with Reshare's contract, the history goes on. */
  lemma ReshareExtends(h: History, roles: set<Role>, pub: int)
    requires Possible(h) && roles <= ROLES && |roles| >= 2
    ensures var outgoing := Restrict(Current(h, pub), roles);
      Possible(h + [roles]) && Enough(outgoing) && SameKey(outgoing, pub) &&
      Current(h + [roles], pub) == Issue(NextKeys(outgoing), pub)
  {
    assert (h + [roles])[..|h|] == h;
    CurrentIds(h, pub);
    NextIds(Base(h), pub, roles);
    assert Restrict(Current(h, pub), roles).Keys == roles;
  }

  /** A choice of shares, each from some generation of one history. */
  ghost function Mixed(h: History, pick: map<Role, nat>, pub: int): map<Role, Share>
    requires forall r :: r in pick ==> r in ROLES && pick[r] <= |h|
  {
    map r | r in pick :: Current(h[..pick[r]], pub)[r]
  }

  lemma PrefixPossible(h: History, i: nat)
    requires Possible(h) && i <= |h|
    ensures Possible(h[..i])
  {
  }

  /** sameSharing accepts a set of shares exactly when all are of one generation. */
  lemma OneGenerationExactly(h: History, pick: map<Role, nat>, pub: int)
    requires Possible(h) && forall r :: r in pick ==> r in ROLES && pick[r] <= |h|
    ensures OneCommittee(Mixed(h, pick, pub)) <==> forall r, s :: r in pick && s in pick ==> pick[r] == pick[s]
  {
    hide Current, Base;
    var shares := Mixed(h, pick, pub);
    forall r, s | r in pick && s in pick ensures shares[r].ks != [] && (shares[r].ks == shares[s].ks <==> pick[r] == pick[s]) {
      SameIdsExactly(h, pick[r], r, pick[s], s, pub);
    }
  }

  lemma SameIdsExactly(h: History, i: nat, r: Role, j: nat, s: Role, pub: int)
    requires Possible(h) && r in ROLES && s in ROLES && i <= |h| && j <= |h|
    ensures Current(h[..i], pub)[r].ks != []
    ensures Current(h[..i], pub)[r].ks == Current(h[..j], pub)[s].ks <==> i == j
  {
    PrefixPossible(h, i);
    PrefixPossible(h, j);
    CurrentIds(h[..i], pub);
    CurrentIds(h[..j], pub);
    DistinctGenerations(h, i, j);
    AboveIsInjective(Base(h[..i]), Base(h[..j]));
  }

  lemma DistinctGenerations(h: History, i: nat, j: nat)
    requires i <= |h| && j <= |h|
    ensures Base(h[..i]) == Base(h[..j]) <==> i == j
  {
    if i < j { BaseGrows(h, i, j); }
    if j < i { BaseGrows(h, j, i); }
  }

  /** Along a history, Sign's checks let a choice of shares through exactly when it is of
      at least two, all of one generation, and the digest has 32 bytes. */
  lemma SignsExactly(h: History, pick: map<Role, nat>, hashLength: nat, pub: int)
    requires Possible(h) && forall r :: r in pick ==> r in ROLES && pick[r] <= |h|
    ensures CanSign(hashLength, Mixed(h, pick, pub)) <==>
      hashLength == 32 && |pick| >= 2 && forall r, s :: r in pick && s in pick ==> pick[r] == pick[s]
  {
    OneGenerationExactly(h, pick, pub);
    MixedShape(h, pick, pub);
    hide Mixed, OneCommittee;
  }

  /** Any two of the three shares of any generation sign and reshare, and no fewer do. */
  lemma AnyTwoSuffice(h: History, roles: set<Role>, pub: int)
    requires Possible(h) && roles <= ROLES
    ensures CanSign(32, Restrict(Current(h, pub), roles)) <==> exists r, s :: r in roles && s in roles && r != s
    ensures Enough(Restrict(Current(h, pub), roles)) <==> exists r, s :: r in roles && s in roles && r != s
  {
    hide Current, Base, Issue, Restrict, CanSign, Enough;
    CurrentIds(h, pub);
    TwoOrMore(roles);
    PartSigns(Base(h), pub, roles);
    PartReshares(Base(h), pub, roles);
  }

  lemma TwoOrMore(roles: set<Role>)
    ensures |roles| >= 2 <==> exists r, s :: r in roles && s in roles && r != s
  {
    if r, s :| r in roles && s in roles && r != s {
      SizeOfPart({r, s}, roles);
    } else if r :| r in roles {
      OnlyOne(roles, r);
    }
  }

  lemma PartSigns(b: int, pub: int, roles: set<Role>)
    requires b >= 0 && roles <= ROLES
    ensures CanSign(32, Restrict(Issue(Above(b), pub), roles)) <==> |roles| >= 2
  {
    var shares := Restrict(Issue(Above(b), pub), roles);
    assert shares.Keys == roles && |shares| == |shares.Keys|;
  }

  lemma PartReshares(b: int, pub: int, roles: set<Role>)
    requires b >= 0 && roles <= ROLES
    ensures Enough(Restrict(Issue(Above(b), pub), roles)) <==> |roles| >= 2
  {
    hide Issue, NextKeys;
    var shares := Restrict(Issue(Above(b), pub), roles);
    assert shares.Keys == roles && |shares| == |shares.Keys|;
    if |roles| >= 2 { NextIds(b, pub, roles); }
  }

  lemma SizeOfPart(a: set<Role>, b: set<Role>)
    requires a <= b
    ensures |a| <= |b|
  {
    assert b == a + (b - a);
  }

  lemma MixedShape(h: History, pick: map<Role, nat>, pub: int)
    requires forall r :: r in pick ==> r in ROLES && pick[r] <= |h|
    ensures |Mixed(h, pick, pub)| == |pick|
    ensures forall r :: r in Mixed(h, pick, pub) ==> Mixed(h, pick, pub)[r].shareID.Some?
  {
    hide Current;
    assert Mixed(h, pick, pub).Keys == pick.Keys;
    assert |Mixed(h, pick, pub)| == |Mixed(h, pick, pub).Keys| == |pick.Keys| == |pick|;
    forall r | r in pick ensures Mixed(h, pick, pub)[r].shareID.Some? {
      assert r == RoleAt(RoleIndex(r)) && Identified(Current(h[..pick[r]], pub));
    }
  }

  /** Along a history, committeeOf accepts a share under its own role and no other,
      and two signers derive the same committee exactly when their shares are of one
      generation. */
  lemma OwnRoleOnly(h: History, i: nat, pub: int, own: Role, claimed: Role, signers: seq<Role>)
    requires Possible(h) && i <= |h| && own in ROLES
    requires (forall k :: 0 <= k < |signers| ==> signers[k] in ROLES) && claimed in signers
    ensures Presentable(signers, claimed, Current(h[..i], pub)[own]) <==> claimed == own
    ensures forall j: nat, other :: j <= |h| && other in ROLES ==> (SameCommittee(h, i, own, j, other, signers, pub) <==> i == j)
  {
    PrefixPossible(h, i);
    CurrentIds(h[..i], pub);
    forall j: nat, other | j <= |h| && other in ROLES ensures SameCommittee(h, i, own, j, other, signers, pub) <==> i == j {
      hide SameCommittee, Current, Base;
      SameCommitteeExactly(h, i, own, j, other, signers, pub);
    }
  }

  lemma SameCommitteeExactly(h: History, i: nat, own: Role, j: nat, other: Role, signers: seq<Role>, pub: int)
    requires Possible(h) && i <= |h| && j <= |h| && own in ROLES && other in ROLES
    requires signers != [] && forall k :: 0 <= k < |signers| ==> signers[k] in ROLES
    ensures SameCommittee(h, i, own, j, other, signers, pub) <==> i == j
  {
    hide Current, Base, Named;
    PrefixPossible(h, i);
    CurrentIds(h[..i], pub);
    PrefixPossible(h, j);
    CurrentIds(h[..j], pub);
    DistinctGenerations(h, i, j);
    NamedTells(signers, Base(h[..i]), Base(h[..j]));
  }

  /** What committeeOf makes of the signers for these two shares is the same. */
  ghost predicate SameCommittee(h: History, i: nat, own: Role, j: nat, other: Role, signers: seq<Role>, pub: int)
    requires i <= |h| && j <= |h| && own in ROLES && other in ROLES
    requires forall k :: 0 <= k < |signers| ==> signers[k] in ROLES
  {
    var a, b := Current(h[..i], pub)[own].ks, Current(h[..j], pub)[other].ks;
    |a| == |b| == 3 && Named(signers, a) == Named(signers, b)
  }

  lemma NamedTells(signers: seq<Role>, m: int, n: int)
    requires signers != [] && forall k :: 0 <= k < |signers| ==> signers[k] in ROLES
    ensures Named(signers, Above(m)) == Named(signers, Above(n)) <==> m == n
  {
    assert Named(signers, Above(m))[0].key - m == Named(signers, Above(n))[0].key - n;
  }

  /** Two reshares of the same generation cannot be told apart exactly when both or
      neither involved the recovery share: the ids come from participants only. */
  lemma ForksLookAlike(h: History, left: set<Role>, right: set<Role>, pub: int)
    requires Possible(h) && left <= ROLES && right <= ROLES && |left| >= 2 && |right| >= 2
    ensures Current(h + [left], pub) == Current(h + [right], pub) <==> (Recovery in left <==> Recovery in right)
  {
    assert (h + [left])[..|h|] == h && (h + [right])[..|h|] == h;
    CurrentIds(h + [left], pub);
    CurrentIds(h + [right], pub);
    AboveIsInjective(Base(h + [left]), Base(h + [right]));
    assert Current(h + [left], pub)[Device].ks == Above(Base(h + [left]));
    assert Current(h + [right], pub)[Device].ks == Above(Base(h + [right]));
  }
}
