/** mpc/party.go and mpc/keygen_party.go: messages move from tss-lib's channels
    through a queue to the caller, while any number of callers drain the same
    channels at once. Both party types are this machine; `Result` is the signature
    of one and the share of the other. */
module Conveyor {
  import opened Basics

  /** A protocol message, and whether WireBytes succeeds on it. */
  datatype Message = Message(id: nat, serialises: bool)

  datatype Failure = Protocol(code: nat) | Serialising(message: Message)

  type Result = nat

  /** What a caller asked for: Outbound alone consumes the queue; Signature, Share
      and Err only look. */
  datatype Call = Outbound | Finished | Err

  /** Where a caller stands: outside, in the drain loop, in the loop holding what
      its select received but not yet the lock, or past the loop. */
  datatype Caller =
    | Outside
    | Draining(call: Call)
    | HoldsMessage(call: Call, message: Message)
    | HoldsFailure(call: Call, failure: Failure)
    | HoldsResult(call: Call, result: Result)
    | Drained(call: Call)

  datatype State = State(
    out: seq<Message>, errs: seq<Failure>, end: seq<Result>,                             // the channels
    queue: seq<Message>, result: Option<Result>, done: bool, err: Option<Failure>,       // under the mutex
    callers: seq<Caller>,
    produced: seq<Message>, handed: seq<Message>, failed: seq<Message>)                  // what happened so far

  /** A signing party buffers 32 messages, a key generation party 24. */
  const OUT_CAPACITY: nat := 32
  const ERRS_CAPACITY: nat := 4

  function Initial(callers: nat): State {
    State([], [], [], [], None, false, None, seq(callers, _ => Outside), [], [], [])
  }

  /** One atomic step: a channel operation, or one critical section. */
  datatype Step =
    | Produce(message: Message)
    | Fail(code: nat)
    | Finish(value: Result)
    | Enter(caller: nat, call: Call)
    | ReceiveMessage(caller: nat)
    | ReceiveFailure(caller: nat)
    | ReceiveResult(caller: nat)
    | Store(caller: nat)
    | Leave(caller: nat)
    | Return(caller: nat)

  predicate Enabled(s: State, step: Step) {
    match step
    case Produce(_) => |s.out| < OUT_CAPACITY
    case Fail(_) => |s.errs| < ERRS_CAPACITY
    case Finish(_) => s.end == []
    case Enter(c, _) => c < |s.callers| && s.callers[c] == Outside
    case ReceiveMessage(c) => c < |s.callers| && s.callers[c].Draining? && s.out != []
    case ReceiveFailure(c) => c < |s.callers| && s.callers[c].Draining? && s.errs != []
    case ReceiveResult(c) => c < |s.callers| && s.callers[c].Draining? && s.end != []
    case Store(c) => c < |s.callers| && (s.callers[c].HoldsMessage? || s.callers[c].HoldsFailure? || s.callers[c].HoldsResult?)
    // The select takes its default only when no channel is ready.
    case Leave(c) => c < |s.callers| && s.callers[c].Draining? && s.out == [] && s.errs == [] && s.end == []
    case Return(c) => c < |s.callers| && s.callers[c].Drained?
  }

  /** The select takes the next message; one that does not serialise is an error. */
  function Received(s: State, c: nat): State
    requires Enabled(s, ReceiveMessage(c))
  {
    var m, call := s.out[0], s.callers[c].call;
    var taken := s.(out := s.out[1..]);
    if m.serialises then taken.(callers := s.callers[c := HoldsMessage(call, m)])
    else taken.(failed := s.failed + [m], callers := s.callers[c := HoldsFailure(call, Serialising(m))])
  }

  /** Under the lock: what the caller holds joins the party's state. */
  function Stored(s: State, c: nat): State
    requires Enabled(s, Store(c))
  {
    var back := s.(callers := s.callers[c := Draining(s.callers[c].call)]);
    match s.callers[c]
    case HoldsMessage(_, m) => back.(queue := s.queue + [m])
    case HoldsFailure(_, e) => back.(err := if s.err.None? then Some(e) else s.err)
    case HoldsResult(_, r) => back.(result := Some(r), done := true)
  }

  function Apply(s: State, step: Step): State
    requires Enabled(s, step)
  {
    match step
    case Produce(m) => s.(out := s.out + [m], produced := s.produced + [m])
    case Fail(e) => s.(errs := s.errs + [Protocol(e)])
    case Finish(r) => s.(end := s.end + [r])
    case Enter(c, call) => s.(callers := s.callers[c := Draining(call)])
    case ReceiveMessage(c) => Received(s, c)
    case ReceiveFailure(c) => s.(errs := s.errs[1..], callers := s.callers[c := HoldsFailure(s.callers[c].call, s.errs[0])])
    case ReceiveResult(c) => s.(end := s.end[1..], callers := s.callers[c := HoldsResult(s.callers[c].call, s.end[0])])
    case Store(c) => Stored(s, c)
    case Leave(c) => s.(callers := s.callers[c := Drained(s.callers[c].call)])
    case Return(c) =>
      var back := s.(callers := s.callers[c := Outside]);
      if s.callers[c].call == Outbound then back.(handed := s.handed + s.queue, queue := []) else back
  }

  /** The steps can be taken one after another. */
  predicate Legal(s: State, steps: seq<Step>)
    decreases |steps|
  {
    steps == [] || (Enabled(s, steps[0]) && Legal(Apply(s, steps[0]), steps[1..]))
  }

  function Run(s: State, steps: seq<Step>): State
    requires Legal(s, steps)
    decreases |steps|
  {
    if steps == [] then s else Run(Apply(s, steps[0]), steps[1..])
  }

  // ---------------------------------------------------------------- exactly once

  function Held(c: Caller): seq<Message> {
    if c.HoldsMessage? then [c.message] else []
  }

  /** The messages callers have received and not yet put in the queue. */
  function InFlight(callers: seq<Caller>): seq<Message> {
    if callers == [] then [] else Held(callers[0]) + InFlight(callers[1..])
  }

  /** One caller's share of what is in flight, between that of the callers around
      it, when the caller moves on to x. */
  lemma {:induction false} InFlightAt(callers: seq<Caller>, c: nat, x: Caller) returns (before: seq<Message>, after: seq<Message>)
    requires c < |callers|
    ensures InFlight(callers[c := x]) == before + Held(x) + after
    ensures InFlight(callers) == before + Held(callers[c]) + after
  {
    if c == 0 {
      before, after := [], InFlight(callers[1..]);
      assert callers[0 := x][1..] == callers[1..];
    } else {
      before, after := InFlightAt(callers[1..], c - 1, x);
      assert callers[c := x][1..] == callers[1..][c - 1 := x];
      Assoc4(Held(callers[0]), before, Held(x), after);
      Assoc4(Held(callers[0]), before, Held(callers[c]), after);
      before := Held(callers[0]) + before;
    }
  }

  lemma Assoc4(a: seq<Message>, b: seq<Message>, c: seq<Message>, d: seq<Message>)
    ensures a + (b + c + d) == a + b + c + d
  {
  }

  /** How often x occurs. */
  function Count(ms: seq<Message>, x: Message): nat {
    multiset(ms)[x]
  }

  lemma CountConcat(a: seq<Message>, b: seq<Message>, x: Message)
    ensures Count(a + b, x) == Count(a, x) + Count(b, x)
  {
    assert multiset(a + b) == multiset(a) + multiset(b);
  }

  lemma CountNone(x: Message)
    ensures Count([], x) == 0
  {
  }

  /** x is in exactly one place for each time it was produced. */
  ghost predicate Accounted(s: State, x: Message) {
    Count(s.produced, x) ==
      Count(s.handed, x) + Count(s.queue, x) + Count(InFlight(s.callers), x) + Count(s.out, x) + Count(s.failed, x)
  }

  /** A caller that moves on and holds no message before or after. */
  lemma HandsFree(callers: seq<Caller>, c: nat, x: Caller)
    requires c < |callers| && Held(callers[c]) == Held(x) == []
    ensures InFlight(callers[c := x]) == InFlight(callers)
  {
    var before, after := InFlightAt(callers, c, x);
  }

  lemma MovesOn(callers: seq<Caller>, c: nat, to: Caller, x: Message)
    requires c < |callers|
    ensures Count(InFlight(callers[c := to]), x) + Count(Held(callers[c]), x) == Count(InFlight(callers), x) + Count(Held(to), x)
  {
    var before, after := InFlightAt(callers, c, to);
    CountConcat(before + Held(to), after, x);
    CountConcat(before, Held(to), x);
    CountConcat(before + Held(callers[c]), after, x);
    CountConcat(before, Held(callers[c]), x);
  }

  lemma ReceiveAccounts(s: State, c: nat, x: Message)
    requires Enabled(s, ReceiveMessage(c)) && Accounted(s, x)
    ensures Accounted(Received(s, c), x)
  {
    hide Count;
    CountNone(x);
    MovesOn(s.callers, c, Received(s, c).callers[c], x);
    CountConcat(s.failed, [s.out[0]], x);
    CountConcat([s.out[0]], s.out[1..], x);
    assert s.out == [s.out[0]] + s.out[1..];
  }

  lemma StoreAccounts(s: State, c: nat, x: Message)
    requires Enabled(s, Store(c)) && Accounted(s, x)
    ensures Accounted(Stored(s, c), x)
  {
    hide Count;
    CountNone(x);
    MovesOn(s.callers, c, Stored(s, c).callers[c], x);
    CountConcat(s.queue, Held(s.callers[c]), x);
    assert Stored(s, c).queue == s.queue + Held(s.callers[c]);
  }

  /** A step of a caller that holds no message before or after it. */
  lemma OtherStep(s: State, step: Step)
    requires Enabled(s, step) && (step.Enter? || step.ReceiveFailure? || step.ReceiveResult? || step.Leave? || step.Return?)
    ensures var t := Apply(s, step);
      InFlight(t.callers) == InFlight(s.callers) && t.out == s.out && t.produced == s.produced && t.failed == s.failed &&
      t.handed + t.queue == s.handed + s.queue
  {
    HandsFree(s.callers, step.caller, Apply(s, step).callers[step.caller]);
  }

  lemma StepAccounts(s: State, step: Step, x: Message)
    requires Enabled(s, step) && Accounted(s, x)
    ensures Accounted(Apply(s, step), x)
  {
    match step
    case Produce(m) =>
      CountConcat(s.produced, [m], x);
      CountConcat(s.out, [m], x);
    case Fail(_) =>
    case Finish(_) =>
    case ReceiveMessage(c) => ReceiveAccounts(s, c, x);
    case Store(c) => StoreAccounts(s, c, x);
    case _ =>
      OtherStep(s, step);
      CountConcat(s.handed, s.queue, x);
      CountConcat(Apply(s, step).handed, Apply(s, step).queue, x);
  }

  lemma {:induction false} NothingInFlight(callers: nat)
    ensures InFlight(Initial(callers).callers) == []
  {
    if callers > 0 {
      assert Initial(callers).callers[1..] == Initial(callers - 1).callers;
      NothingInFlight(callers - 1);
    }
  }

  lemma {:induction false} RunAccounts(s: State, steps: seq<Step>, x: Message)
    requires Legal(s, steps) && Accounted(s, x)
    ensures Accounted(Run(s, steps), x)
    decreases |steps|
  {
    if steps != [] {
      StepAccounts(s, steps[0], x);
      RunAccounts(Apply(s, steps[0]), steps[1..], x);
    }
  }

  /** Under every interleaving of the protocol with any number of callers, each
      message produced is handed out once, or queued, or in flight in one drain, or
      in the channel, or failed to serialise. */
  lemma ExactlyOnce(callers: nat, steps: seq<Step>)
    requires Legal(Initial(callers), steps)
    ensures var s := Run(Initial(callers), steps);
      multiset(s.produced) ==
        multiset(s.handed) + multiset(s.queue) + multiset(InFlight(s.callers)) + multiset(s.out) + multiset(s.failed)
  {
    NothingInFlight(callers);
    var s := Run(Initial(callers), steps);
    forall x ensures Accounted(s, x) { RunAccounts(Initial(callers), steps, x); }
    forall x ensures multiset(s.produced)[x] ==
      multiset(s.handed)[x] + multiset(s.queue)[x] + multiset(InFlight(s.callers))[x] + multiset(s.out)[x] + multiset(s.failed)[x]
    {
      assert Accounted(s, x);
    }
  }

  /** When an Outbound call returns with the channel empty and no drain holding a
      message, everything that serialised has been handed out. */
  lemma NothingLeftBehind(callers: nat, steps: seq<Step>, c: nat)
    requires Legal(Initial(callers), steps)
    requires var s := Run(Initial(callers), steps);
      Enabled(s, Return(c)) && s.callers[c].call == Outbound && s.out == [] && InFlight(s.callers) == []
    ensures var t := Apply(Run(Initial(callers), steps), Return(c));
      multiset(t.produced) == multiset(t.handed) + multiset(t.failed) && t.queue == []
  {
    ExactlyOnce(callers, steps);
    var s := Run(Initial(callers), steps);
    assert multiset(s.handed + s.queue) == multiset(s.handed) + multiset(s.queue);
  }

  /** What the channels hold is within what tss-lib may leave in them, in every run, and
      only what does not serialise has failed. */
  lemma {:induction false} WithinChannels(s: State, steps: seq<Step>)
    requires Legal(s, steps) && Bounded(s)
    ensures Bounded(Run(s, steps))
    decreases |steps|
  {
    if steps != [] { WithinChannels(Apply(s, steps[0]), steps[1..]); }
  }

  ghost predicate Bounded(s: State) {
    |s.out| <= 32 && |s.errs| <= 4 && |s.end| <= 1 && forall m :: m in s.failed ==> !m.serialises
  }

  // -------------------------------------------------------------------- polling

  /** The step is the return of an Outbound call. */
  predicate Consumes(s: State, step: Step)
    requires Enabled(s, step)
  {
    step.Return? && s.callers[step.caller].call == Outbound
  }

  predicate NeverConsumes(s: State, steps: seq<Step>)
    requires Legal(s, steps)
    decreases |steps|
  {
    steps == [] || (!Consumes(s, steps[0]) && NeverConsumes(Apply(s, steps[0]), steps[1..]))
  }

  /** However often callers ask whether it is finished or has failed, nothing
      leaves the queue and nothing is handed out. */
  lemma {:induction false} PollingNeverConsumes(s: State, steps: seq<Step>)
    requires Legal(s, steps) && NeverConsumes(s, steps)
    ensures Run(s, steps).handed == s.handed && s.queue <= Run(s, steps).queue
    decreases |steps|
  {
    if steps != [] { PollingNeverConsumes(Apply(s, steps[0]), steps[1..]); }
  }

  /** Once finished it stays finished, the first failure stays the failure, and
      what was handed out stays handed out. */
  lemma {:induction false} Sticky(s: State, steps: seq<Step>)
    requires Legal(s, steps)
    ensures s.done ==> Run(s, steps).done
    ensures s.err.Some? ==> Run(s, steps).err == s.err
    ensures s.handed <= Run(s, steps).handed && s.produced <= Run(s, steps).produced
    decreases |steps|
  {
    if steps != [] { Sticky(Apply(s, steps[0]), steps[1..]); }
  }

  // ---------------------------------------------------------------------- order

  /** The messages that serialise, in order. */
  function Serialised(ms: seq<Message>): seq<Message> {
    if ms == [] then []
    else if ms[0].serialises then [ms[0]] + Serialised(ms[1..])
    else Serialised(ms[1..])
  }

  lemma {:induction false} SerialisedConcat(a: seq<Message>, b: seq<Message>)
    ensures Serialised(a + b) == Serialised(a) + Serialised(b)
  {
    if a == [] {
      assert a + b == b;
    } else {
      assert (a + b)[1..] == a[1..] + b;
      SerialisedConcat(a[1..], b);
    }
  }

  /** Handed out, queued, in flight and in the channel, in that order, are the
      messages produced, in order; at most one is in flight. */
  ghost predicate InOrder(s: State) {
    |InFlight(s.callers)| <= 1 &&
    Serialised(s.produced) == s.handed + s.queue + InFlight(s.callers) + Serialised(s.out)
  }

  /** No drain takes a message while another holds one. */
  predicate OneAtATime(s: State, steps: seq<Step>)
    requires Legal(s, steps)
    decreases |steps|
  {
    steps == [] || ((steps[0].ReceiveMessage? ==> InFlight(s.callers) == []) && OneAtATime(Apply(s, steps[0]), steps[1..]))
  }

  /** While nothing else is in flight, what is in flight is what one caller holds. */
  lemma Alone(callers: seq<Caller>, c: nat, x: Caller)
    requires c < |callers| && (InFlight(callers) == [] || (|InFlight(callers)| == 1 && callers[c].HoldsMessage?))
    ensures InFlight(callers) == Held(callers[c]) && InFlight(callers[c := x]) == Held(x)
  {
    var before, after := InFlightAt(callers, c, x);
    assert |before| + |after| == 0;
  }

  lemma Regroup(handed: seq<Message>, queue: seq<Message>, held: seq<Message>, rest: seq<Message>)
    ensures handed + queue + [] + (held + rest) == handed + queue + held + rest
    ensures handed + queue + held + rest == handed + (queue + held) + [] + rest
  {
  }

  lemma ReceiveInOrder(s: State, c: nat)
    requires Enabled(s, ReceiveMessage(c)) && InOrder(s) && InFlight(s.callers) == []
    ensures InOrder(Received(s, c))
  {
    var x := Received(s, c).callers[c];
    Alone(s.callers, c, x);
    assert Received(s, c).callers == s.callers[c := x];
    assert Serialised(s.out) == Held(x) + Serialised(s.out[1..]);
    Regroup(s.handed, s.queue, Held(x), Serialised(s.out[1..]));
  }

  lemma StoreInOrder(s: State, c: nat)
    requires Enabled(s, Store(c)) && InOrder(s)
    ensures InOrder(Stored(s, c))
  {
    var x := Stored(s, c).callers[c];
    assert Stored(s, c).callers == s.callers[c := x];
    if s.callers[c].HoldsMessage? {
      var before, after := InFlightAt(s.callers, c, x);
      Alone(s.callers, c, x);
      Regroup(s.handed, s.queue, Held(s.callers[c]), Serialised(s.out));
    } else {
      HandsFree(s.callers, c, x);
    }
  }

  lemma StepInOrder(s: State, step: Step)
    requires Enabled(s, step) && InOrder(s) && (step.ReceiveMessage? ==> InFlight(s.callers) == [])
    ensures InOrder(Apply(s, step))
  {
    match step
    case Produce(m) =>
      SerialisedConcat(s.produced, [m]);
      SerialisedConcat(s.out, [m]);
    case Fail(_) =>
    case Finish(_) =>
    case ReceiveMessage(c) => ReceiveInOrder(s, c);
    case Store(c) => StoreInOrder(s, c);
    case _ => OtherStep(s, step);
  }

  lemma {:induction false} RunInOrder(s: State, steps: seq<Step>)
    requires Legal(s, steps) && InOrder(s) && OneAtATime(s, steps)
    ensures InOrder(Run(s, steps))
    decreases |steps|
  {
    if steps != [] {
      StepInOrder(s, steps[0]);
      RunInOrder(Apply(s, steps[0]), steps[1..]);
    }
  }

  /** Drains that do not overlap keep the order: what has been handed out is a
      prefix of what was produced. */
  lemma FirstInFirstOut(callers: nat, steps: seq<Step>)
    requires Legal(Initial(callers), steps) && OneAtATime(Initial(callers), steps)
    ensures Run(Initial(callers), steps).handed <= Serialised(Run(Initial(callers), steps).produced)
  {
    NothingInFlight(callers);
    RunInOrder(Initial(callers), steps);
    var s := Run(Initial(callers), steps);
    assert s.handed + s.queue + InFlight(s.callers) + Serialised(s.out)
        == s.handed + (s.queue + InFlight(s.callers) + Serialised(s.out));
  }

  /** A caller on its own never overlaps itself. */
  lemma {:induction false} OneCaller(s: State, steps: seq<Step>)
    requires Legal(s, steps) && |s.callers| <= 1
    ensures OneAtATime(s, steps)
    decreases |steps|
  {
    if steps != [] {
      assert s.callers != [] ==> s.callers[1..] == [];
      OneCaller(Apply(s, steps[0]), steps[1..]);
    }
  }

  lemma OneCallerSeesFifo(steps: seq<Step>)
    requires Legal(Initial(1), steps)
    ensures Run(Initial(1), steps).handed <= Serialised(Run(Initial(1), steps).produced)
  {
    OneCaller(Initial(1), steps);
    FirstInFirstOut(1, steps);
  }

  /** If the steps can be taken, what they hand out is in the order produced. */
  ghost predicate KeepsOrder(callers: nat, steps: seq<Step>) {
    Legal(Initial(callers), steps) ==>
      Run(Initial(callers), steps).handed <= Serialised(Run(Initial(callers), steps).produced)
  }

  /** Every run keeps the order exactly when there are not two callers to overlap. */
  lemma OrderExactly(callers: nat)
    ensures (forall steps: seq<Step> :: KeepsOrder(callers, steps)) <==> callers <= 1
  {
    if callers <= 1 {
      forall steps: seq<Step> ensures KeepsOrder(callers, steps) {
        if Legal(Initial(callers), steps) {
          OneCaller(Initial(callers), steps);
          FirstInFirstOut(callers, steps);
        }
      }
    } else {
      var a, b := Message(0, true), Message(1, true);
      TwoCallersReorder(callers, a, b);
      var steps := Overlap(a, b) + CROSSED;
      assert Serialised([b]) == [b] by { assert [b][1..] == []; }
      assert Serialised([a, b]) == [a, b] by { assert [a, b][1..] == [b]; }
      assert [b, a][0] != [a, b][0];
      assert !KeepsOrder(callers, steps);
    }
  }

  /** One caller takes a and another b before either has the lock; the second then
      stores first. */
  function Overlap(a: Message, b: Message): seq<Step> {
    [Produce(a), Produce(b), Enter(0, Finished), Enter(1, Outbound), ReceiveMessage(0), ReceiveMessage(1)]
  }

  const CROSSED: seq<Step> := [Store(1), Store(0), Leave(1), Return(1)]

  /** Two of any number of callers draining at once can hand messages out in the other
      order, while the rest stay outside. */
  lemma TwoCallersReorder(callers: nat, a: Message, b: Message)
    requires callers >= 2 && a.serialises && b.serialises
    ensures Legal(Initial(callers), Overlap(a, b) + CROSSED)
    ensures var s := Run(Initial(callers), Overlap(a, b) + CROSSED); s.produced == [a, b] && s.handed == [b, a]
  {
    var others := seq(callers - 2, _ => Outside);
    assert Initial(callers).callers == Pair(Outside, Outside, others);
    Overlapping(a, b, others);
    Crossing(a, b, others);
    LegalConcat(Initial(callers), Overlap(a, b), CROSSED);
  }

  /** The first two callers and the others. */
  function Pair(x: Caller, y: Caller, others: seq<Caller>): (callers: seq<Caller>)
    ensures |callers| == |others| + 2 && callers[0] == x && callers[1] == y
  {
    [x, y] + others
  }

  lemma PairMoves(x: Caller, y: Caller, others: seq<Caller>, z: Caller)
    ensures Pair(x, y, others)[0 := z] == Pair(z, y, others)
    ensures Pair(x, y, others)[1 := z] == Pair(x, z, others)
  {
  }

  /** Nothing in the channels but `out`, nothing failed. */
  function At(out: seq<Message>, queue: seq<Message>, callers: seq<Caller>, produced: seq<Message>, handed: seq<Message>): State {
    State(out, [], [], queue, None, false, None, callers, produced, handed, [])
  }

  lemma {:induction false} LegalConcat(s: State, a: seq<Step>, b: seq<Step>)
    requires Legal(s, a) && Legal(Run(s, a), b)
    ensures Legal(s, a + b) && Run(s, a + b) == Run(Run(s, a), b)
    decreases |a|
  {
    if a == [] {
      assert a + b == b;
    } else {
      assert (a + b)[1..] == a[1..] + b;
      LegalConcat(Apply(s, a[0]), a[1..], b);
    }
  }

  lemma Then(s: State, step: Step, rest: seq<Step>, t: State)
    requires Enabled(s, step) && Apply(s, step) == t && Legal(t, rest)
    ensures Legal(s, [step] + rest) && Run(s, [step] + rest) == Run(t, rest)
  {
    assert ([step] + rest)[1..] == rest;
  }

  lemma Crossing(a: Message, b: Message, others: seq<Caller>)
    ensures var s := At([], [], Pair(HoldsMessage(Finished, a), HoldsMessage(Outbound, b), others), [a, b], []);
      Legal(s, CROSSED) && Run(s, CROSSED).produced == [a, b] && Run(s, CROSSED).handed == [b, a]
  {
    hide Pair, Received;
    var s := At([], [], Pair(HoldsMessage(Finished, a), HoldsMessage(Outbound, b), others), [a, b], []);
    var s1 := At([], [b], Pair(HoldsMessage(Finished, a), Draining(Outbound), others), [a, b], []);
    var s2 := At([], [b, a], Pair(Draining(Finished), Draining(Outbound), others), [a, b], []);
    var s3 := At([], [b, a], Pair(Draining(Finished), Drained(Outbound), others), [a, b], []);
    var s4 := At([], [], Pair(Draining(Finished), Outside, others), [a, b], [b, a]);
    PairMoves(HoldsMessage(Finished, a), HoldsMessage(Outbound, b), others, Draining(Outbound));
    PairMoves(HoldsMessage(Finished, a), Draining(Outbound), others, Draining(Finished));
    PairMoves(Draining(Finished), Draining(Outbound), others, Drained(Outbound));
    PairMoves(Draining(Finished), Drained(Outbound), others, Outside);
    Then(s3, Return(1), [], s4);
    Then(s2, Leave(1), [Return(1)], s3);
    Then(s1, Store(0), [Leave(1), Return(1)], s2);
    Then(s, Store(1), [Store(0), Leave(1), Return(1)], s1);
  }

  lemma BothReceive(a: Message, b: Message, others: seq<Caller>, s: State, t: State)
    requires a.serialises && b.serialises
    requires s == At([a, b], [], Pair(Draining(Finished), Draining(Outbound), others), [a, b], [])
    requires t == At([], [], Pair(HoldsMessage(Finished, a), HoldsMessage(Outbound, b), others), [a, b], [])
    ensures Legal(s, [ReceiveMessage(0), ReceiveMessage(1)]) && Run(s, [ReceiveMessage(0), ReceiveMessage(1)]) == t
  {
    hide Pair, Stored;
    var between := At([b], [], Pair(HoldsMessage(Finished, a), Draining(Outbound), others), [a, b], []);
    PairMoves(Draining(Finished), Draining(Outbound), others, HoldsMessage(Finished, a));
    PairMoves(HoldsMessage(Finished, a), Draining(Outbound), others, HoldsMessage(Outbound, b));
    Then(between, ReceiveMessage(1), [], t);
    Then(s, ReceiveMessage(0), [ReceiveMessage(1)], between);
  }

  lemma Overlapping(a: Message, b: Message, others: seq<Caller>)
    requires a.serialises && b.serialises
    ensures var s, t := At([], [], Pair(Outside, Outside, others), [], []),
                        At([], [], Pair(HoldsMessage(Finished, a), HoldsMessage(Outbound, b), others), [a, b], []);
      Legal(s, Overlap(a, b)) && Run(s, Overlap(a, b)) == t
  {
    hide Pair;
    var s0 := At([], [], Pair(Outside, Outside, others), [], []);
    var s1 := At([a], [], Pair(Outside, Outside, others), [a], []);
    var s2 := At([a, b], [], Pair(Outside, Outside, others), [a, b], []);
    var s3 := At([a, b], [], Pair(Draining(Finished), Outside, others), [a, b], []);
    var s4 := At([a, b], [], Pair(Draining(Finished), Draining(Outbound), others), [a, b], []);
    var s6 := At([], [], Pair(HoldsMessage(Finished, a), HoldsMessage(Outbound, b), others), [a, b], []);
    PairMoves(Outside, Outside, others, Draining(Finished));
    PairMoves(Draining(Finished), Outside, others, Draining(Outbound));
    BothReceive(a, b, others, s4, s6);
    hide Received, Stored;
    Then(s3, Enter(1, Outbound), [ReceiveMessage(0), ReceiveMessage(1)], s4);
    Then(s2, Enter(0, Finished), [Enter(1, Outbound), ReceiveMessage(0), ReceiveMessage(1)], s3);
    Then(s1, Produce(b), [Enter(0, Finished), Enter(1, Outbound), ReceiveMessage(0), ReceiveMessage(1)], s2);
    Then(s0, Produce(a), [Produce(b), Enter(0, Finished), Enter(1, Outbound), ReceiveMessage(0), ReceiveMessage(1)], s1);
  }
}
