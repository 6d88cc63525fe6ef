/** mpc/party.go and mpc/keygen_party.go as one caller drives them: the drain loop
    and the methods around it, on the party's own fields. */
module Party {
  import opened Basics
  import opened Conveyor

  predicate AllSerialise(ms: seq<Message>) {
    ms == [] || (ms[0].serialises && AllSerialise(ms[1..]))
  }

  /** A failure is recorded or on its way. */
  predicate Trouble(err: Option<Failure>, errs: seq<Failure>, out: seq<Message>) {
    err.Some? || errs != [] || !AllSerialise(out)
  }

  /** The result once the channel is empty: the last one wins. */
  function Outcome(result: Option<Result>, end: seq<Result>): Option<Result> {
    if end == [] then result else Some(end[|end| - 1])
  }

  class Party {
    // The channels, oldest first.
    var out: seq<Message>
    var errs: seq<Failure>
    var end: seq<Result>
    // Guarded by the mutex.
    var queue: seq<Message>
    var result: Option<Result>
    var done: bool
    var err: Option<Failure>
    /** The steps of the machine this party has been through. */
    ghost var trace: seq<Step>

    /** The fields are those of the machine after the trace, its one caller standing
        where `at` says. */
    ghost predicate Mirrors(at: Caller)
      reads this
    {
      Legal(Initial(1), trace) &&
      var s := Run(Initial(1), trace);
      s.out == out && s.errs == errs && s.end == end && s.queue == queue &&
      s.result == result && s.done == done && s.err == err && s.callers == [at]
    }

    ghost function HandedOut(): seq<Message>
      reads this
      requires Legal(Initial(1), trace)
    {
      Run(Initial(1), trace).handed
    }

    constructor ()
      ensures Mirrors(Outside) && HandedOut() == [] && queue == [] && out == []
    {
      out, errs, end, queue, result, done, err, trace := [], [], [], [], None, false, None, [];
      new;
      assert Initial(1).callers == [Outside];
    }

    /** One more step of the machine. */
    ghost method Take(step: Step)
      requires Legal(Initial(1), trace) && Enabled(Run(Initial(1), trace), step)
      modifies this`trace
      ensures trace == old(trace) + [step] && Legal(Initial(1), trace)
      ensures Run(Initial(1), trace) == Apply(old(Run(Initial(1), trace)), step)
    {
      Then(Run(Initial(1), trace), step, [], Apply(Run(Initial(1), trace), step));
      assert [step] + [] == [step];
      LegalConcat(Initial(1), trace, [step]);
      trace := trace + [step];
    }

    /** tss-lib's goroutines, on the other side of the channels. */
    method Emit(m: Message)
      requires Mirrors(Outside) && |out| < OUT_CAPACITY
      modifies this
      ensures Mirrors(Outside) && HandedOut() == old(HandedOut()) && out == old(out) + [m] && queue == old(queue)
    {
      Take(Produce(m));
      out := out + [m];
    }

    method Complete(r: Result)
      requires Mirrors(Outside) && end == []
      modifies this
      ensures Mirrors(Outside) && HandedOut() == old(HandedOut()) && end == [r] && queue == old(queue)
    {
      Take(Finish(r));
      end := [r];
    }

    method Abort(code: nat)
      requires Mirrors(Outside) && |errs| < ERRS_CAPACITY
      modifies this
      ensures Mirrors(Outside) && HandedOut() == old(HandedOut()) && errs == old(errs) + [Protocol(code)] && queue == old(queue)
    {
      Take(Fail(code));
      errs := errs + [Protocol(code)];
    }

    method ReceiveOut(ghost call: Call)
      requires Mirrors(Draining(call)) && out != []
      modifies this
      ensures Mirrors(Draining(call)) && HandedOut() == old(HandedOut())
      ensures out == old(out)[1..] && errs == old(errs) && end == old(end) && result == old(result) && done == old(done)
      ensures queue == old(queue) + if old(out)[0].serialises then [old(out)[0]] else []
      ensures err == if old(out)[0].serialises || old(err).Some? then old(err) else Some(Serialising(old(out)[0]))
    {
      Take(ReceiveMessage(0));
      Take(Store(0));
      var m := out[0];
      out := out[1..];
      if m.serialises {
        queue := queue + [m];
      } else if err.None? {
        err := Some(Serialising(m));
      }
    }

    method ReceiveErr(ghost call: Call)
      requires Mirrors(Draining(call)) && errs != []
      modifies this
      ensures Mirrors(Draining(call)) && HandedOut() == old(HandedOut())
      ensures errs == old(errs)[1..] && out == old(out) && end == old(end) && result == old(result) && done == old(done) && queue == old(queue)
      ensures err == if old(err).Some? then old(err) else Some(old(errs)[0])
    {
      Take(ReceiveFailure(0));
      Take(Store(0));
      if err.None? { err := Some(errs[0]); }
      errs := errs[1..];
    }

    method ReceiveEnd(ghost call: Call)
      requires Mirrors(Draining(call)) && end != []
      modifies this
      ensures Mirrors(Draining(call)) && HandedOut() == old(HandedOut())
      ensures end == old(end)[1..] && out == old(out) && errs == old(errs) && queue == old(queue) && err == old(err)
      ensures done && result == Some(old(end)[0])
    {
      Take(ReceiveResult(0));
      Take(Store(0));
      result := Some(end[0]);
      done := true;
      end := end[1..];
    }

    /** One turn of the loop: whichever ready channel the select picks. */
    method Select(ghost call: Call)
      requires Mirrors(Draining(call)) && (out != [] || errs != [] || end != [])
      modifies this
      ensures Mirrors(Draining(call)) && HandedOut() == old(HandedOut())
      ensures |out| + |errs| + |end| < old(|out| + |errs| + |end|)
      ensures queue + Serialised(out) == old(queue + Serialised(out))
      ensures old(err).Some? ==> err == old(err)
      ensures Trouble(err, errs, out) == old(Trouble(err, errs, out))
      ensures (done || end != []) == old(done || end != []) && Outcome(result, end) == old(Outcome(result, end))
    {
      if {
        case out != [] =>
          ghost var m, rest, was := if out[0].serialises then [out[0]] else [], Serialised(out[1..]), queue;
          ReceiveOut(call);
          assert was + (m + rest) == was + m + rest;
        case errs != [] => ReceiveErr(call);
        case end != [] => ReceiveEnd(call);
      }
    }

    /** `drain`: empties the channels. */
    method Drain(ghost call: Call)
      requires Mirrors(Outside)
      modifies this
      ensures Mirrors(Drained(call)) && HandedOut() == old(HandedOut())
      ensures out == [] && errs == [] && end == []
      ensures queue == old(queue) + Serialised(old(out))
      ensures old(err).Some? ==> err == old(err)
      ensures err.Some? == old(Trouble(err, errs, out))
      ensures done == old(done || end != []) && result == old(Outcome(result, end))
    {
      Take(Enter(0, call));
      while out != [] || errs != [] || end != []
        invariant Mirrors(Draining(call)) && HandedOut() == old(HandedOut())
        invariant queue + Serialised(out) == old(queue + Serialised(out))
        invariant old(err).Some? ==> err == old(err)
        invariant Trouble(err, errs, out) == old(Trouble(err, errs, out))
        invariant (done || end != []) == old(done || end != []) && Outcome(result, end) == old(Outcome(result, end))
        decreases |out| + |errs| + |end|
      {
        Select(call);
      }
      Take(Leave(0));
    }

    /** `Outbound`: hands over the queue and clears it; the only method that does. */
    method TakeOutbound() returns (msgs: seq<Message>, failure: Option<Failure>)
      requires Mirrors(Outside)
      modifies this
      ensures Mirrors(Outside) && HandedOut() == old(HandedOut()) + msgs
      ensures msgs == old(queue) + Serialised(old(out)) && queue == []
      ensures failure == err && failure.Some? == old(Trouble(err, errs, out)) && (old(err).Some? ==> err == old(err))
    {
      Drain(Outbound);
      Take(Return(0));
      msgs := queue;
      queue := [];
      failure := err;
    }

    /** `Signature` and `Share`: what is finished, and whether it is. */
    method Poll() returns (value: Option<Result>)
      requires Mirrors(Outside)
      modifies this
      ensures Mirrors(Outside) && HandedOut() == old(HandedOut())
      ensures queue == old(queue) + Serialised(old(out))
      ensures done == old(done || end != []) && result == old(Outcome(result, end))
      ensures value == if done then result else None
    {
      Drain(Finished);
      Take(Return(0));
      value := if done then result else None;
    }

    /** `Err` of a key generation party. */
    method PollErr() returns (failure: Option<Failure>)
      requires Mirrors(Outside)
      modifies this
      ensures Mirrors(Outside) && HandedOut() == old(HandedOut())
      ensures queue == old(queue) + Serialised(old(out))
      ensures failure == err && failure.Some? == old(Trouble(err, errs, out)) && (old(err).Some? ==> err == old(err))
    {
      Drain(Err);
      Take(Return(0));
      failure := err;
    }
  }
}
