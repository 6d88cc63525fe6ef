/** The permit queues of clients/demo/chain.js (six at a time) and
    clients/land/chain.js (three at a time). */
module PermitQueue {
  /** The counter and the queue, with what they stand for: who holds a permit, who
      has ever asked, and who has ever been given one, in order. */
  datatype Gate = Gate(active: int, waiting: seq<nat>, holders: set<nat>, arrived: seq<nat>, served: seq<nat>)

  const EMPTY: Gate := Gate(0, [], {}, [], [])

  /** A new ticket asks for a permit, or a holder gives one back. */
  datatype Step = Acquire(ticket: nat) | Release(holder: nat)

  predicate Enabled(g: Gate, step: Step) {
    match step
    case Acquire(t) => t !in g.arrived
    case Release(h) => h in g.holders
  }

  function Apply(g: Gate, step: Step, limit: nat): Gate {
    match step
    case Acquire(t) =>
      if g.active < limit then g.(active := g.active + 1, holders := g.holders + {t}, arrived := g.arrived + [t], served := g.served + [t])
      else g.(waiting := g.waiting + [t], arrived := g.arrived + [t])
    case Release(h) =>
      if g.waiting != [] then
        g.(waiting := g.waiting[1..], holders := g.holders - {h} + {g.waiting[0]}, served := g.served + [g.waiting[0]])
      else g.(active := g.active - 1, holders := g.holders - {h})
  }

  predicate Distinct(s: seq<nat>) {
    forall i, j :: 0 <= i < j < |s| ==> s[i] != s[j]
  }

  /** The counter is the number of holders, within the limit and at it while anyone
      waits; permits are given in order of arrival. */
  predicate Sound(g: Gate, limit: nat) {
    g.active == |g.holders| <= limit && (g.waiting != [] ==> g.active == limit) &&
    g.served + g.waiting == g.arrived && Distinct(g.arrived) && (forall h :: h in g.holders ==> h in g.served)
  }

  lemma AcquireIsSound(g: Gate, t: nat, limit: nat)
    requires Sound(g, limit) && t !in g.arrived
    ensures Sound(Apply(g, Acquire(t), limit), limit)
  {
    var next := Apply(g, Acquire(t), limit);
    if g.active < limit {
      assert g.served + [t] + g.waiting == g.arrived + [t];
      forall h | h in next.holders ensures h in next.served { assert h != t ==> h in g.served; }
      assert t !in g.holders by { assert forall h :: h in g.holders ==> h in g.arrived; }
    } else {
      assert g.served + (g.waiting + [t]) == g.arrived + [t];
    }
  }

  lemma FirstWaiterIsNew(g: Gate, limit: nat)
    requires Sound(g, limit) && g.waiting != []
    ensures g.waiting[0] !in g.served
  {
    assert g.arrived[|g.served|] == g.waiting[0];
    forall i | 0 <= i < |g.served| ensures g.served[i] != g.waiting[0] { assert g.arrived[i] == g.served[i]; }
  }

  lemma ReleaseIsSound(g: Gate, h: nat, limit: nat)
    requires Sound(g, limit) && h in g.holders
    ensures Sound(Apply(g, Release(h), limit), limit)
  {
    if g.waiting != [] {
      FirstWaiterIsNew(g, limit);
      var w := g.waiting[0];
      assert g.served + [w] + g.waiting[1..] == g.served + g.waiting;
      assert w !in g.holders;
      assert |g.holders - {h} + {w}| == |g.holders|;
    }
  }

  lemma StepIsSound(g: Gate, step: Step, limit: nat)
    requires Sound(g, limit) && Enabled(g, step)
    ensures Sound(Apply(g, step, limit), limit)
  {
    match step
    case Acquire(t) => AcquireIsSound(g, t, limit);
    case Release(h) => ReleaseIsSound(g, h, limit);
  }

  predicate Legal(g: Gate, steps: seq<Step>, limit: nat)
    decreases |steps|
  {
    steps == [] || (Enabled(g, steps[0]) && Legal(Apply(g, steps[0], limit), steps[1..], limit))
  }

  function Run(g: Gate, steps: seq<Step>, limit: nat): Gate
    requires Legal(g, steps, limit)
    decreases |steps|
  {
    if steps == [] then g else Run(Apply(g, steps[0], limit), steps[1..], limit)
  }

  lemma {:induction false} RunIsSound(g: Gate, steps: seq<Step>, limit: nat)
    requires Sound(g, limit) && Legal(g, steps, limit)
    ensures Sound(Run(g, steps, limit), limit)
    decreases |steps|
  {
    if steps != [] {
      StepIsSound(g, steps[0], limit);
      RunIsSound(Apply(g, steps[0], limit), steps[1..], limit);
    }
  }

  /** Every reachable state is sound, for any limit. */
  lemma AlwaysSound(steps: seq<Step>, limit: nat)
    requires Legal(EMPTY, steps, limit)
    ensures Sound(Run(EMPTY, steps, limit), limit)
  {
    RunIsSound(EMPTY, steps, limit);
  }

  function Releases(steps: seq<Step>): nat {
    if steps == [] then 0 else (if steps[0].Release? then 1 else 0) + Releases(steps[1..])
  }

  /** However many newcomers ask in between, r releases serve exactly the first r of
      those now waiting, in order. */
  lemma {:induction false} ServedInTurn(g: Gate, steps: seq<Step>, limit: nat, behind: seq<nat>, r: nat)
    requires Sound(g, limit) && g.active == limit && Legal(g, steps, limit) && behind <= g.waiting
    requires Releases(steps) == r <= |behind|
    ensures Run(g, steps, limit).served == g.served + behind[..r]
    ensures behind[r..] <= Run(g, steps, limit).waiting
    decreases |steps|
  {
    if steps == [] { return; }
    var next := Apply(g, steps[0], limit);
    StepIsSound(g, steps[0], limit);
    if steps[0].Acquire? {
      ServedInTurn(next, steps[1..], limit, behind, r);
    } else {
      ServedInTurn(next, steps[1..], limit, behind[1..], r - 1);
      assert g.served + [behind[0]] + behind[1..][..r - 1] == g.served + behind[..r];
      assert behind[1..][r - 1..] == behind[r..];
    }
  }

  /** The k-th waiter is served by the k-th release, not before. */
  lemma KthWaiter(g: Gate, steps: seq<Step>, limit: nat, k: nat)
    requires Sound(g, limit) && 1 <= k <= |g.waiting| && Legal(g, steps, limit) && Releases(steps) <= k
    ensures g.waiting[k - 1] in Run(g, steps, limit).served <==> Releases(steps) == k
  {
    var r, w := Releases(steps), g.waiting[k - 1];
    ServedInTurn(g, steps, limit, g.waiting[..k], r);
    assert g.arrived[|g.served| + k - 1] == w;
    forall i | 0 <= i < |g.served| + r && i != |g.served| + k - 1 ensures (g.served + g.waiting[..k][..r])[i] != w {
      assert (g.served + g.waiting[..k][..r])[i] == g.arrived[i];
    }
    if r == k { assert (g.served + g.waiting[..k][..r])[|g.served| + k - 1] == w; }
  }

  /** The module state: a counter and a queue of resolvers. */
  class Permits {
    const limit: nat
    var active: int
    var waiting: seq<nat>
    ghost var gate: Gate

    ghost predicate Valid()
      reads this
    {
      Sound(gate, limit) && active == gate.active && waiting == gate.waiting
    }

    constructor (limit: nat)
      ensures Valid() && this.limit == limit && gate == EMPTY
    {
      this.limit := limit;
      active, waiting, gate := 0, [], EMPTY;
    }

    /** `restAcquire` and `slot`: whether the permit is there at once. */
    method TryAcquire(ticket: nat) returns (granted: bool)
      requires Valid() && ticket !in gate.arrived
      modifies this
      ensures Valid() && gate == Apply(old(gate), Acquire(ticket), limit)
      ensures granted <==> ticket in gate.holders
    {
      StepIsSound(gate, Acquire(ticket), limit);
      gate := Apply(gate, Acquire(ticket), limit);
      assert gate.arrived[|gate.arrived| - 1] == ticket;
      if active < limit {
        active := active + 1;
        granted := true;
      } else {
        waiting := waiting + [ticket];
        granted := false;
        assert forall h :: h in gate.holders ==> h in old(gate).arrived;
      }
    }

    /** `restRelease` and `release`: the permit passes to the next waiter, if any. */
    method GiveBack(ghost holder: nat) returns (next: seq<nat>)
      requires Valid() && holder in gate.holders
      modifies this
      ensures Valid() && gate == Apply(old(gate), Release(holder), limit)
      ensures next == if old(waiting) == [] then [] else [old(waiting)[0]]
    {
      StepIsSound(gate, Release(holder), limit);
      gate := Apply(gate, Release(holder), limit);
      if waiting != [] {
        next := [waiting[0]];
        waiting := waiting[1..];
      } else {
        next := [];
        active := active - 1;
      }
    }
  }
}
