/** mpc/mpc.go, mpc/reshare.go and mpc/party.go: the party ids that key generation
    and every later reshare issue, and the checks that rely on them. tss-lib is an
    opaque producer of save data: a committee's sorted ids, one's own id, the key. */
module Sharing {
  import opened Basics

  datatype Refusal =
    | TooFewShares | NoShareId | OutsideTheCommittee | WrongShareCount | NoPublicKey | KeyChanged
    | NoCommittee | DifferentSharings
    | UnknownCommitteeSize | NotOwnShare | UnknownParty | NotASigner | DigestLength

  datatype Result<+T> = Ok(value: T) | Refused(reason: Refusal)

  /** tss-lib's t: one more than this many cooperate. */
  const THRESHOLD: nat := 1

  /** A role name: one of the three in Roles, or any other string. */
  datatype Role = Device | Custodian | Recovery | Other(name: string)

  const ROLES: set<Role> := {Device, Custodian, Recovery}

  /** Roles[i]. */
  function RoleAt(i: nat): Role
    requires i < 3
  {
    if i == 0 then Device else if i == 1 then Custodian else Recovery
  }

  function RoleIndex(role: Role): (i: nat)
    requires !role.Other?
    ensures i < 3 && RoleAt(i) == role
  {
    match role case Device => 0 case Custodian => 1 case Recovery => 2
  }

  /** A share: the ids of its whole committee, its own id, the public key. */
  datatype Share = Share(role: Role, ks: seq<int>, shareID: Option<int>, pub: Option<int>)

  datatype PartyID = PartyID(id: Role, key: int)

  // ------------------------------------------------------------ sorted party ids

  predicate Sorted(ids: seq<PartyID>) {
    forall i, j :: 0 <= i < j < |ids| ==> ids[i].key <= ids[j].key
  }

  function Insert(p: PartyID, ids: seq<PartyID>): (r: seq<PartyID>)
    ensures multiset(r) == multiset{p} + multiset(ids)
  {
    if ids == [] || p.key <= ids[0].key then [p] + ids
    else
      assert ids == [ids[0]] + ids[1..];
      [ids[0]] + Insert(p, ids[1..])
  }

  /** tss.SortPartyIDs. */
  function SortPartyIDs(ids: seq<PartyID>): (r: seq<PartyID>)
    ensures multiset(r) == multiset(ids)
  {
    if ids == [] then [] else
    assert ids == [ids[0]] + ids[1..];
    Insert(ids[0], SortPartyIDs(ids[1..]))
  }

  lemma {:induction false} InsertSorts(p: PartyID, ids: seq<PartyID>)
    requires Sorted(ids)
    ensures Sorted(Insert(p, ids))
  {
    if ids != [] && p.key > ids[0].key {
      InsertSorts(p, ids[1..]);
      var rest := Insert(p, ids[1..]);
      forall k | 0 <= k < |rest| ensures ids[0].key <= rest[k].key {
        assert rest[k] in multiset(rest);
        assert rest[k] == p || rest[k] in ids[1..];
      }
    }
  }

  lemma {:induction false} SortSorts(ids: seq<PartyID>)
    ensures Sorted(SortPartyIDs(ids))
  {
    if ids != [] {
      SortSorts(ids[1..]);
      InsertSorts(ids[0], SortPartyIDs(ids[1..]));
    }
  }

  // ------------------------------------------------------------------ resharing

  /** The parties of `outgoing` that take part, in Roles order. */
  function Present(outgoing: map<Role, Share>, n: nat): seq<PartyID>
    requires n <= 3 && forall i :: 0 <= i < 3 && RoleAt(i) in outgoing ==> outgoing[RoleAt(i)].shareID.Some?
  {
    if n == 0 then []
    else Present(outgoing, n - 1) +
         if RoleAt(n - 1) in outgoing then [PartyID(RoleAt(n - 1), outgoing[RoleAt(n - 1)].shareID.value)] else []
  }

  predicate Identified(outgoing: map<Role, Share>) {
    forall i :: 0 <= i < 3 && RoleAt(i) in outgoing ==> outgoing[RoleAt(i)].shareID.Some?
  }

  method Participating(shares: map<Role, Share>) returns (r: Result<seq<PartyID>>)
    ensures r.Ok? <==> Identified(shares) && |Present(shares, 3)| >= 2
    ensures r.Ok? ==> r.value == SortPartyIDs(Present(shares, 3)) && MaxKey(r.value) == MaxKey(Present(shares, 3))
  {
    var unsorted: seq<PartyID> := [];
    for i := 0 to 3
      invariant forall j :: 0 <= j < i && RoleAt(j) in shares ==> shares[RoleAt(j)].shareID.Some?
      invariant Identified(shares) ==> unsorted == Present(shares, i)
    {
      if RoleAt(i) in shares {
        var s := shares[RoleAt(i)];
        if s.shareID.None? { return Refused(NoShareId); }
        unsorted := unsorted + [PartyID(RoleAt(i), s.shareID.value)];
      }
    }
    if |unsorted| < THRESHOLD + 1 { return Refused(TooFewShares); }
    MaxOfSorted(unsorted);
    return Ok(SortPartyIDs(unsorted));
  }

  function MaxKey(ids: seq<PartyID>): (m: int)
    ensures m >= 0
    ensures forall i :: 0 <= i < |ids| ==> ids[i].key <= m
    ensures m == 0 || exists i :: 0 <= i < |ids| && ids[i].key == m
  {
    if ids == [] then 0 else
    var m := MaxKey(ids[..|ids| - 1]);
    if ids[|ids| - 1].key > m then ids[|ids| - 1].key else m
  }

  method FreshKey(outgoing: seq<PartyID>, i: nat) returns (key: int)
    ensures key == MaxKey(outgoing) + i + 1
  {
    var max := 0;
    for k := 0 to |outgoing|
      invariant max == MaxKey(outgoing[..k])
    {
      assert outgoing[..k + 1][..k] == outgoing[..k];
      if outgoing[k].key > max { max := outgoing[k].key; }
    }
    assert outgoing[..|outgoing|] == outgoing;
    key := max + i + 1;
  }

  lemma MaxOfSorted(ids: seq<PartyID>)
    ensures MaxKey(SortPartyIDs(ids)) == MaxKey(ids)
  {
    var s := SortPartyIDs(ids);
    forall x: PartyID ensures x in s <==> x in ids { assert x in multiset(s) <==> x in multiset(ids); }
    if MaxKey(ids) > 0 { var i :| 0 <= i < |ids| && ids[i].key == MaxKey(ids); assert ids[i] in s; }
    if MaxKey(s) > 0 { var i :| 0 <= i < |s| && s[i].key == MaxKey(s); assert s[i] in ids; }
  }

  /** Three consecutive ids. */
  function Above(m: int): (ks: seq<int>)
    ensures |ks| == 3 && ks[0] < ks[1] < ks[2]
  {
    [m + 1, m + 2, m + 3]
  }

  lemma AboveIsInjective(m: int, n: int)
    ensures Above(m) == Above(n) <==> m == n
  {
    assert Above(m)[0] == m + 1 && Above(n)[0] == n + 1;
  }

  /** The ids of the next committee, in Roles order. */
  function NextKeys(outgoing: map<Role, Share>): (ks: seq<int>)
    requires Identified(outgoing)
    ensures |ks| == 3 && ks[0] < ks[1] < ks[2]
  {
    Above(MaxKey(Present(outgoing, 3)))
  }

  /** What tss-lib reports when a party ends: an outgoing one has its secret zeroed. */
  datatype Save = Save(secret: bool, ks: seq<int>, shareID: Option<int>, pub: Option<int>)

  /** save.OriginalIndex(): the place of its own id in the committee's. */
  function OriginalIndex(save: Save): (i: Option<nat>)
    ensures i.Some? ==> i.value < |save.ks| && save.shareID == Some(save.ks[i.value])
  {
    if save.shareID.Some? then IndexOf(save.ks, save.shareID.value) else None
  }

  function IndexOf(ks: seq<int>, k: int): (i: Option<nat>)
    ensures i.Some? <==> k in ks
    ensures i.Some? ==> i.value < |ks| && ks[i.value] == k
  {
    if ks == [] then None
    else if ks[0] == k then Some(0)
    else match IndexOf(ks[1..], k) case Some(i) => Some(i + 1) case None => None
  }

  /** Among the first n to end is the new party with this id. */
  ghost predicate Ended(ends: seq<Save>, n: nat, id: int)
    requires n <= |ends|
  {
    exists k :: 0 <= k < n && ends[k].secret && ends[k].shareID == Some(id)
  }

  /** A resharing that ran to completion: every party ended, in any order, each new
      one with the new committee's ids, and all under the one key. */
  ghost predicate Completed(ends: seq<Save>, ks: seq<int>, pub: int)
    requires |ks| == 3
  {
    && (forall k :: 0 <= k < |ends| && ends[k].secret ==>
          ends[k].ks == ks && ends[k].pub == Some(pub) && ends[k].shareID.Some? && ends[k].shareID.value in ks)
    && Ended(ends, |ends|, ks[0]) && Ended(ends, |ends|, ks[1]) && Ended(ends, |ends|, ks[2])
  }

  /** The shares of a committee with these ids. */
  function Issue(ks: seq<int>, pub: int): (shares: map<Role, Share>)
    requires |ks| == 3
    ensures shares.Keys == ROLES && SameKey(shares, pub)
  {
    map[Device := Share(Device, ks, Some(ks[0]), Some(pub)),
        Custodian := Share(Custodian, ks, Some(ks[1]), Some(pub)),
        Recovery := Share(Recovery, ks, Some(ks[2]), Some(pub))]
  }

  ghost predicate SameKey(shares: map<Role, Share>, pub: int) {
    forall r :: r in shares ==> shares[r].pub == Some(pub)
  }

  /** `sameKey`: Go takes an arbitrary entry of each map. */
  method CheckSameKey(outgoing: map<Role, Share>, issued: map<Role, Share>, ghost pub: int) returns (r: Option<Refusal>)
    ensures r.None? && SameKey(outgoing, pub) ==> SameKey(issued, pub)
    ensures SameKey(outgoing, pub) && SameKey(issued, pub) && |outgoing| > 0 && issued != map[] ==> r.None?
  {
    var before, after: Option<int> := None, None;
    if outgoing != map[] {
      var o :| o in outgoing;
      before := outgoing[o].pub;
    }
    if issued != map[] {
      var f :| f in issued;
      after := issued[f].pub;
    }
    if before.None? || after.None? { return Some(NoPublicKey); }
    if before != after { return Some(KeyChanged); }
    if exists f :: f in issued && issued[f].pub != after { return Some(KeyChanged); }
    return None;
  }

  /** The incoming committee, in Roles order. */
  function NewParties(ks: seq<int>): seq<PartyID>
    requires |ks| == 3
  {
    [PartyID(Device, ks[0]), PartyID(Custodian, ks[1]), PartyID(Recovery, ks[2])]
  }

  method NewCommittee(oldIDs: seq<PartyID>) returns (newIDs: seq<PartyID>)
    ensures newIDs == NewParties(Above(MaxKey(oldIDs)))
  {
    ghost var m := MaxKey(oldIDs);
    var unsorted: seq<PartyID> := [];
    for i := 0 to 3
      invariant |unsorted| == i
      invariant i > 0 ==> unsorted[0] == PartyID(Device, m + 1)
      invariant i > 1 ==> unsorted[1] == PartyID(Custodian, m + 2)
      invariant i > 2 ==> unsorted[2] == PartyID(Recovery, m + 3)
    {
      var key := FreshKey(oldIDs, i);
      unsorted := unsorted + [PartyID(RoleAt(i), key)];
    }
    newIDs := SortPartyIDs(unsorted);
    assert unsorted == NewParties([m + 1, m + 2, m + 3]);
    SortedAlready(PartyID(Device, m + 1), PartyID(Custodian, m + 2), PartyID(Recovery, m + 3));
  }

  /** The loop over the parties that end, in the order they do. */
  method Collect(newIDs: seq<PartyID>, ends: seq<Save>, ghost ks: seq<int>, ghost pub: int)
    returns (r: Result<map<Role, Share>>)
    requires |ks| == 3 && ks[0] < ks[1] < ks[2] && newIDs == NewParties(ks)
    ensures Completed(ends, ks, pub) ==> r == Ok(Issue(ks, pub))
  {
    var issued: map<Role, Share> := map[];
    for ended := 0 to |ends|
      invariant Completed(ends, ks, pub) ==> Collected(issued, ends, ended, ks, pub)
    {
      var save := ends[ended];
      if !save.secret { continue; }
      var index := OriginalIndex(save);
      if index.None? { return Refused(OutsideTheCommittee); }
      if index.value >= |newIDs| { return Refused(OutsideTheCommittee); }
      var role := newIDs[index.value].id;
      if Completed(ends, ks, pub) { CollectOne(issued, ends, ended, ks, pub, index.value); }
      issued := issued[role := Share(role, save.ks, save.shareID, save.pub)];
    }
    if Completed(ends, ks, pub) { AllCollected(issued, ends, ks, pub); }
    return Ok(issued);
  }

  /** At least two shares, each with its id. */
  predicate Enough(outgoing: map<Role, Share>) {
    |outgoing| >= 2 && Identified(outgoing) && |Present(outgoing, 3)| >= 2
  }

  /** `Reshare`, tss-lib's messages apart: `ends` is what its end channel yields.
      However the parties end, the shares issued are those of the next committee. */
  method Reshare(outgoing: map<Role, Share>, ends: seq<Save>, ghost pub: int) returns (r: Result<map<Role, Share>>)
    ensures r.Ok? ==> Enough(outgoing) && r.value.Keys == ROLES
    ensures r.Ok? && SameKey(outgoing, pub) ==> SameKey(r.value, pub)
    ensures Enough(outgoing) && SameKey(outgoing, pub) && Completed(ends, NextKeys(outgoing), pub) ==>
      r == Ok(Issue(NextKeys(outgoing), pub))
  {
    if |outgoing| < THRESHOLD + 1 { return Refused(TooFewShares); }
    var oldIDs := Participating(outgoing);
    if oldIDs.Refused? { return Refused(oldIDs.reason); }
    var newIDs := NewCommittee(oldIDs.value);
    var issued := Collect(newIDs, ends, NextKeys(outgoing), pub);
    if issued.Refused? { return issued; }
    r := Accept(outgoing, issued.value, pub);
  }

  /** The checks Reshare makes before it hands the new shares over. */
  method Accept(outgoing: map<Role, Share>, issued: map<Role, Share>, ghost pub: int) returns (r: Result<map<Role, Share>>)
    ensures r.Ok? ==> r.value == issued && issued.Keys == ROLES
    ensures r.Ok? && SameKey(outgoing, pub) ==> SameKey(issued, pub)
    ensures |outgoing| > 0 && issued.Keys == ROLES && SameKey(outgoing, pub) && SameKey(issued, pub) ==> r == Ok(issued)
  {
    // Every key is the role of a new party, so three shares are one for each role.
    if issued.Keys != ROLES { return Refused(WrongShareCount); }
    var check := CheckSameKey(outgoing, issued, pub);
    if check.Some? { return Refused(check.value); }
    assert Device in issued;
    return Ok(issued);
  }

  lemma SortedAlready(a: PartyID, b: PartyID, c: PartyID)
    requires a.key < b.key < c.key
    ensures SortPartyIDs([a, b, c]) == [a, b, c]
  {
    assert SortPartyIDs([c]) == Insert(c, []) == [c] by { assert [c][1..] == []; }
    assert SortPartyIDs([b, c]) == Insert(b, [c]) == [b, c] by { assert [b, c][1..] == [c]; }
    assert SortPartyIDs([a, b, c]) == Insert(a, [b, c]) by { assert [a, b, c][1..] == [b, c]; }
  }

  /** After `ended` parties: exactly the shares of the new parties that ended. */
  ghost predicate Collected(issued: map<Role, Share>, ends: seq<Save>, ended: nat, ks: seq<int>, pub: int)
    requires |ks| == 3 && ended <= |ends|
  {
    && (forall role :: role in issued ==> !role.Other? && issued[role] == Issue(ks, pub)[role])
    && (Ended(ends, ended, ks[0]) ==> Device in issued)
    && (Ended(ends, ended, ks[1]) ==> Custodian in issued)
    && (Ended(ends, ended, ks[2]) ==> Recovery in issued)
  }

  lemma AllCollected(issued: map<Role, Share>, ends: seq<Save>, ks: seq<int>, pub: int)
    requires |ks| == 3 && Completed(ends, ks, pub) && Collected(issued, ends, |ends|, ks, pub)
    ensures issued == Issue(ks, pub)
  {
    assert issued.Keys == ROLES;
  }

  lemma CollectOne(issued: map<Role, Share>, ends: seq<Save>, ended: nat, ks: seq<int>, pub: int, index: nat)
    requires |ks| == 3 && ks[0] < ks[1] < ks[2] && index < 3 && ended < |ends|
    requires Completed(ends, ks, pub) && Collected(issued, ends, ended, ks, pub)
    requires ends[ended].secret && ends[ended].shareID == Some(ks[index])
    ensures var save, role := ends[ended], RoleAt(index);
      Collected(issued[role := Share(role, save.ks, save.shareID, save.pub)], ends, ended + 1, ks, pub)
  {
  }
}
