/** clients/foundation/foundation.js: what an office is in the two numbers a grant
    pins, when a grant is composed, and why a pin only tightens. */
module Offices {
  import opened Basics
  import opened Coalition

  const MAX_OFFICE_MEMBERS: int := 50

  /** "m-of-n". */
  datatype Shape = Shape(signatures: int, members: int)

  /** An office as read: null signatures come with a problem. */
  datatype OfficeShape = OfficeShape(signatures: Option<nat>, members: nat, problem: bool)

  /** A group: its threshold, its members' weights (null where unreadable), and
      whether it decides by a percentage. */
  datatype Group = Group(threshold: Option<int>, weights: seq<Option<int>>, percentage: bool)

  function Positive(weights: seq<Option<int>>): (n: nat)
    ensures n == Size(Weighty(Usable(weights)))
  {
    if weights == [] then 0
    else
      assert Weighty(Usable(weights))[1..] == Weighty(Usable(weights[1..]));
      (if weights[0].Some? && weights[0].value > 0 then 1 else 0) + Positive(weights[1..])
  }

  predicate Unreadable(weights: seq<Option<int>>) {
    exists i :: 0 <= i < |weights| && weights[i].None?
  }

  /** `officeShapeOf`. */
  method OfficeShapeOf(g: Group) returns (s: OfficeShape)
    ensures s.members == Size(Weighty(Usable(g.weights)))
    ensures s.problem <==> s.signatures.None?
    ensures s.signatures.Some? ==>
      !g.percentage && None !in g.weights && |g.weights| <= 50 && g.threshold.Some? && g.threshold.value > 0 &&
      IsLeast(Usable(g.weights), g.threshold.value, s.signatures.value)
    ensures s.problem ==>
      g.percentage || None in g.weights || |g.weights| > 50 || g.threshold.None? || g.threshold.value <= 0 ||
      forall k: nat :: !Reachable(Usable(g.weights), g.threshold.value, k)
  {
    var positive := Positive(g.weights);
    if g.percentage || Unreadable(g.weights) || |g.weights| > MAX_OFFICE_MEMBERS {
      return OfficeShape(None, positive, true);
    }
    var fewest := FewestSigners(g.weights, g.threshold);
    return OfficeShape(fewest, positive, fewest.None?);
  }

  /** Floors on both numbers; no requirement is always met. */
  predicate Satisfies(want: Option<Shape>, signatures: Option<int>, members: int) {
    want.None? || (signatures.Some? && signatures.value >= want.value.signatures && members >= want.value.members)
  }

  predicate ValidShape(shape: Option<Shape>) {
    shape.None? || (1 <= shape.value.signatures <= shape.value.members <= 50)
  }

  /** `validateShape`: true when it finds a problem. */
  function ShapeProblem(shape: Option<Shape>): (problem: bool)
    ensures problem <==> !ValidShape(shape)
  {
    if shape.None? then false
    else if shape.value.signatures == 0 then true
    else if shape.value.signatures < 0 || shape.value.members < 0 then true
    else if shape.value.members < shape.value.signatures then true
    else shape.value.members > MAX_OFFICE_MEMBERS
  }

  // ------------------------------------------------------------------ grantPlan

  /** A stored grant of one holder. */
  datatype Grant = Grant(role: nat, jurisdiction: nat, shape: Option<Shape>)

  datatype Key = Key(holder: nat, role: nat, jurisdiction: nat)

  /** What the form asks for, with the verdicts of the checks the plan calls: of the
      address, of the role, of the scope, and of the group lookup when it is back. */
  datatype Request = Request(key: Key, addressOk: bool, roleKnown: bool, scopeOk: bool, isGroup: Option<bool>, shape: Option<Shape>)

  datatype Problem = BadAddress | BadRole | BadScope | Waiting | NotAGroup | DropsThePin | WeakensThePin | BadShape | ShapeUnknown | TooSmall

  /** `findGrant`. */
  function FindGrant(grants: seq<Grant>, role: nat, jurisdiction: nat): (g: Option<Grant>)
    ensures g.Some? ==> exists i :: FirstAt(grants, role, jurisdiction, i) && grants[i] == g.value
    ensures g.None? ==> forall i :: 0 <= i < |grants| ==> !Matches(grants[i], role, jurisdiction)
  {
    if grants == [] then None
    else if grants[0].role == role && grants[0].jurisdiction == jurisdiction then
      assert FirstAt(grants, role, jurisdiction, 0);
      Some(grants[0])
    else
      var g := FindGrant(grants[1..], role, jurisdiction);
      FirstOfRest(grants, role, jurisdiction);
      g
  }

  predicate Matches(g: Grant, role: nat, jurisdiction: nat) {
    g.role == role && g.jurisdiction == jurisdiction
  }

  /** The first grant of the list that is of this role in this scope stands at i. */
  ghost predicate FirstAt(grants: seq<Grant>, role: nat, jurisdiction: nat, i: int) {
    0 <= i < |grants| && Matches(grants[i], role, jurisdiction) && forall k :: 0 <= k < i ==> !Matches(grants[k], role, jurisdiction)
  }

  lemma FirstOfRest(grants: seq<Grant>, role: nat, jurisdiction: nat)
    requires grants != [] && !Matches(grants[0], role, jurisdiction)
    ensures forall i :: FirstAt(grants[1..], role, jurisdiction, i) ==> FirstAt(grants, role, jurisdiction, i + 1)
    ensures (forall i :: 0 <= i < |grants| - 1 ==> !Matches(grants[1..][i], role, jurisdiction)) ==>
      forall i :: 0 <= i < |grants| ==> !Matches(grants[i], role, jurisdiction)
  {
    forall i | FirstAt(grants[1..], role, jurisdiction, i) ensures FirstAt(grants, role, jurisdiction, i + 1) {
      forall k | 0 <= k < i + 1 ensures !Matches(grants[k], role, jurisdiction) {
        if k > 0 { assert grants[k] == grants[1..][k - 1]; }
      }
    }
    if forall i :: 0 <= i < |grants| - 1 ==> !Matches(grants[1..][i], role, jurisdiction) {
      forall i | 0 <= i < |grants| ensures !Matches(grants[i], role, jurisdiction) {
        if i > 0 { assert grants[i] == grants[1..][i - 1]; }
      }
    }
  }

  /** The list finds a grant exactly when it has one, and then the first. */
  lemma FoundExactly(grants: seq<Grant>, role: nat, jurisdiction: nat, i: int)
    ensures FirstAt(grants, role, jurisdiction, i) ==> FindGrant(grants, role, jurisdiction) == Some(grants[i])
    ensures FindGrant(grants, role, jurisdiction).Some? <==> exists k :: 0 <= k < |grants| && Matches(grants[k], role, jurisdiction)
  {
  }

  /** b asks for at least what a does. */
  predicate AtLeast(b: Option<Shape>, a: Option<Shape>) {
    a.None? || (b.Some? && b.value.signatures >= a.value.signatures && b.value.members >= a.value.members)
  }

  /** When a grant is composed: everything named is good, the holder is an office
      that has the shape asked for, and the shape asked for keeps any pin. */
  ghost predicate Acceptable(r: Request, office: Option<OfficeShape>, existing: Option<seq<Grant>>) {
    && r.addressOk && r.roleKnown && r.scopeOk && r.isGroup == Some(true)
    && (existing.Some? ==>
          forall i :: FirstAt(existing.value, r.key.role, r.key.jurisdiction, i) ==> AtLeast(r.shape, existing.value[i].shape))
    && ValidShape(r.shape)
    && (r.shape.Some? && office.Some? ==> !office.value.problem && Has(office.value, r.shape.value))
  }

  /** The holder already has this pin for the role in the scope. */
  ghost predicate OnRecord(r: Request, existing: Option<seq<Grant>>, pin: Shape) {
    r.roleKnown && r.scopeOk && existing.Some? &&
    exists i :: FirstAt(existing.value, r.key.role, r.key.jurisdiction, i) && existing.value[i].shape == Some(pin)
  }

  /** What is wrong with a request: each problem, exactly when it is one. */
  ghost predicate Raised(p: Problem, r: Request, office: Option<OfficeShape>, existing: Option<seq<Grant>>) {
    match p
    case BadAddress => !r.addressOk
    case BadRole => !r.roleKnown
    case BadScope => !r.scopeOk
    case Waiting => r.addressOk && r.isGroup.None?
    case NotAGroup => r.addressOk && r.isGroup == Some(false)
    case DropsThePin => r.shape.None? && exists pin :: OnRecord(r, existing, pin)
    case WeakensThePin => r.shape.Some? &&
      exists pin :: OnRecord(r, existing, pin) && (r.shape.value.signatures < pin.signatures || r.shape.value.members < pin.members)
    case BadShape => !ValidShape(r.shape)
    case ShapeUnknown => ValidShape(r.shape) && r.shape.Some? && office.Some? && office.value.problem
    case TooSmall => ValidShape(r.shape) && r.shape.Some? && office.Some? && !office.value.problem && !Has(office.value, r.shape.value)
  }

  /** The office has at least this shape. */
  predicate Has(office: OfficeShape, shape: Shape) {
    office.signatures.Some? && office.signatures.value >= shape.signatures && office.members >= shape.members
  }

  /** `grantPlan`: the problems that block it. */
  method GrantPlan(r: Request, office: Option<OfficeShape>, existing: Option<seq<Grant>>) returns (problems: seq<Problem>)
    ensures forall p :: p in problems <==> Raised(p, r, office, existing)
  {
    var named := NamingProblems(r);
    var pin := PinProblems(r, existing);
    var shape := ShapeProblems(r.shape, office);
    problems := named + pin + shape;
  }

  method NamingProblems(r: Request) returns (problems: seq<Problem>)
    ensures forall p :: p in problems <==> (p.BadAddress? || p.BadRole? || p.BadScope? || p.Waiting? || p.NotAGroup?) && Raised(p, r, None, None)
  {
    problems := [];
    if !r.addressOk { problems := problems + [BadAddress]; }
    if !r.roleKnown { problems := problems + [BadRole]; }
    if !r.scopeOk { problems := problems + [BadScope]; }
    if r.addressOk {
      if r.isGroup.None? {
        problems := problems + [Waiting];
      } else if !r.isGroup.value {
        problems := problems + [NotAGroup];
      }
    }
  }

  method PinProblems(r: Request, existing: Option<seq<Grant>>) returns (problems: seq<Problem>)
    ensures forall p :: p in problems <==> (p.DropsThePin? || p.WeakensThePin?) && Raised(p, r, None, existing)
  {
    problems := [];
    if existing.Some? && r.roleKnown && r.scopeOk {
      var already := FindGrant(existing.value, r.key.role, r.key.jurisdiction);
      RecordedExactly(r, existing);
      if already.Some? {
        var pinned := already.value.shape;
        if pinned.Some? && r.shape.None? {
          problems := problems + [DropsThePin];
        } else if pinned.Some? && r.shape.Some? && !Satisfies(pinned, Some(r.shape.value.signatures), r.shape.value.members) {
          problems := problems + [WeakensThePin];
        }
      }
    }
  }

  lemma RecordedExactly(r: Request, existing: Option<seq<Grant>>)
    requires r.roleKnown && r.scopeOk && existing.Some?
    ensures var already := FindGrant(existing.value, r.key.role, r.key.jurisdiction);
      forall pin :: OnRecord(r, existing, pin) <==> already.Some? && already.value.shape == Some(pin)
  {
    forall i | FirstAt(existing.value, r.key.role, r.key.jurisdiction, i)
      ensures FindGrant(existing.value, r.key.role, r.key.jurisdiction) == Some(existing.value[i])
    {
      FoundExactly(existing.value, r.key.role, r.key.jurisdiction, i);
    }
  }

  method ShapeProblems(shape: Option<Shape>, office: Option<OfficeShape>) returns (problems: seq<Problem>)
    ensures forall p :: p in problems <==>
      (p.BadShape? && !ValidShape(shape)) ||
      (ValidShape(shape) && shape.Some? && office.Some? &&
       if office.value.problem then p.ShapeUnknown? else p.TooSmall? && !Has(office.value, shape.value))
  {
    problems := [];
    if ShapeProblem(shape) {
      problems := problems + [BadShape];
    } else if shape.Some? && office.Some? {
      var has := office.value;
      if has.problem {
        problems := problems + [ShapeUnknown];
      } else if !Satisfies(shape, if has.signatures.Some? then Some(has.signatures.value) else None, has.members) {
        problems := problems + [TooSmall];
      }
    }
  }

  ghost predicate KeepsThePin(r: Request, existing: Option<seq<Grant>>) {
    forall pin :: OnRecord(r, existing, pin) ==> AtLeast(r.shape, Some(pin))
  }

  /** A grant is composed, no problem being raised, exactly when it is acceptable. */
  lemma ComposedExactly(r: Request, office: Option<OfficeShape>, existing: Option<seq<Grant>>)
    ensures (forall p :: !Raised(p, r, office, existing)) <==> Acceptable(r, office, existing)
  {
    if !Acceptable(r, office, existing) {
      var p := if !r.addressOk then BadAddress else if !r.roleKnown then BadRole else if !r.scopeOk then BadScope
        else if r.isGroup.None? then Waiting else if !r.isGroup.value then NotAGroup
        else if !ValidShape(r.shape) then BadShape
        else if !KeepsThePin(r, existing) then (if r.shape.None? then DropsThePin else WeakensThePin)
        else if office.value.problem then ShapeUnknown else TooSmall;
      if p.DropsThePin? || p.WeakensThePin? {
        var pin :| OnRecord(r, existing, pin) && !AtLeast(r.shape, Some(pin));
      } else if p.ShapeUnknown? || p.TooSmall? {
        assert forall i, pin :: existing.Some? && FirstAt(existing.value, r.key.role, r.key.jurisdiction, i) && existing.value[i].shape == Some(pin) ==> OnRecord(r, existing, pin);
      }
      assert Raised(p, r, office, existing);
    } else {
      forall p ensures !Raised(p, r, office, existing) { }
    }
  }

  // ---------------------------------------------------------------- the ratchet

  /** The grants on the chain, with the shape each records. */
  type Registry = map<Key, Option<Shape>>

  /** The list shown for a holder has the registry's grants to it, and no others. */
  ghost predicate Shows(grants: seq<Grant>, registry: Registry, holder: nat) {
    forall role, jurisdiction, shape ::
      Grant(role, jurisdiction, shape) in grants <==>
        Key(holder, role, jurisdiction) in registry && registry[Key(holder, role, jurisdiction)] == shape
  }

  /** A grant that the list has is found there first, whatever stands before it. */
  lemma {:induction false} FirstOfThem(grants: seq<Grant>, role: nat, jurisdiction: nat, i: nat) returns (first: nat)
    requires i < |grants| && Matches(grants[i], role, jurisdiction)
    ensures FirstAt(grants, role, jurisdiction, first)
    decreases i
  {
    if k :| 0 <= k < i && Matches(grants[k], role, jurisdiction) {
      first := FirstOfThem(grants, role, jurisdiction, k);
    } else {
      first := i;
    }
  }

  /** One accepted grant: what was asked, of what office, against what list. */
  datatype Event = Event(request: Request, office: OfficeShape, grants: seq<Grant>)

  /** Each grant was accepted with the office and the current grants supplied. */
  ghost predicate Granted(registry: Registry, events: seq<Event>)
    decreases |events|
  {
    events == [] ||
    (var e := events[0];
     Shows(e.grants, registry, e.request.key.holder) && Acceptable(e.request, Some(e.office), Some(e.grants)) &&
     Granted(registry[e.request.key := e.request.shape], events[1..]))
  }

  ghost function After(registry: Registry, events: seq<Event>): Registry
    decreases |events|
  {
    if events == [] then registry
    else After(registry[events[0].request.key := events[0].request.shape], events[1..])
  }

  /** Over any sequence of accepted grants, no pin weakens in either number. */
  lemma {:induction false} PinsOnlyTighten(registry: Registry, events: seq<Event>, key: Key)
    requires Granted(registry, events) && key in registry
    ensures key in After(registry, events) && AtLeast(After(registry, events)[key], registry[key])
    decreases |events|
  {
    if events == [] { return; }
    var e := events[0];
    var next := registry[e.request.key := e.request.shape];
    if e.request.key == key {
      assert Grant(key.role, key.jurisdiction, registry[key]) in e.grants;
      var i :| 0 <= i < |e.grants| && e.grants[i] == Grant(key.role, key.jurisdiction, registry[key]);
      var first := FirstOfThem(e.grants, key.role, key.jurisdiction, i);
      assert Grant(key.role, key.jurisdiction, e.grants[first].shape) == e.grants[first];
      assert e.grants[first] in e.grants;
    }
    PinsOnlyTighten(next, events[1..], key);
  }

  /** The shape read for an office, as OfficeShapeOf promises it. */
  ghost predicate ReadFrom(office: OfficeShape, g: Group) {
    office.members == Positive(g.weights) &&
    (office.signatures.Some? ==> g.threshold.Some? && IsLeast(Usable(g.weights), g.threshold.value, office.signatures.value))
  }

  /** Fewer than m members of the office never reach its threshold together, and at
      least n of them can vote. */
  ghost predicate Binds(shape: Shape, g: Group) {
    g.threshold.Some? && Positive(g.weights) >= shape.members &&
    forall k: nat :: k < shape.signatures ==> !Reachable(Usable(g.weights), g.threshold.value, k)
  }

  /** An accepted m-of-n pin binds the office it was granted to. */
  lemma PinBindsTheOffice(e: Event, g: Group)
    requires Acceptable(e.request, Some(e.office), Some(e.grants)) && e.request.shape.Some? && ReadFrom(e.office, g)
    ensures Binds(e.request.shape.value, g)
  {
  }

  /** Whatever grants follow one another, a pin in force was granted to an office that
      had the shape pinned: groups[i] is the one the i-th grant was checked against. */
  lemma PinnedByAnOffice(registry: Registry, events: seq<Event>, groups: seq<Group>, key: Key)
    requires Granted(registry, events) && key in After(registry, events) && key !in registry
    requires After(registry, events)[key].Some?
    requires |groups| == |events| && forall i :: 0 <= i < |events| ==> ReadFrom(events[i].office, groups[i])
    ensures exists i :: 0 <= i < |events| && events[i].request.key == key && Binds(After(registry, events)[key].value, groups[i])
  {
    LastGrant(registry, events, key);
    var i :| 0 <= i < |events| && events[i].request.key == key && events[i].request.shape == After(registry, events)[key]
          && Acceptable(events[i].request, Some(events[i].office), Some(events[i].grants));
    PinBindsTheOffice(events[i], groups[i]);
  }

  lemma {:induction false} LastGrant(registry: Registry, events: seq<Event>, key: Key)
    requires Granted(registry, events) && key in After(registry, events)
    ensures (key in registry && After(registry, events)[key] == registry[key]) ||
      exists i :: 0 <= i < |events| && events[i].request.key == key && events[i].request.shape == After(registry, events)[key]
                && Acceptable(events[i].request, Some(events[i].office), Some(events[i].grants))
    decreases |events|
  {
    if events == [] { return; }
    var e := events[0];
    var next := registry[e.request.key := e.request.shape];
    LastGrant(next, events[1..], key);
    if !(key in next && After(registry, events)[key] == next[key]) {
      var i :| 0 <= i < |events[1..]| && events[1..][i].request.key == key && events[1..][i].request.shape == After(registry, events)[key]
            && Acceptable(events[1..][i].request, Some(events[1..][i].office), Some(events[1..][i].grants));
      assert events[i + 1] == events[1..][i];
    } else if e.request.key == key {
      assert events[0].request.shape == After(registry, events)[key];
    }
  }
}
