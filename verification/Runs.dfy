/** Runs of one session under the dispatcher, for any of the three machines. */
module Runs {
  import opened Bytes
  import opened Protocol

  /** One event, with the dispatcher as that event sees it and the random number a handler may draw. */
  datatype Input = Input(evt: Event, ctx: Ctx, random: nat) {
    /** The dispatcher with an empty record of calls. */
    function Begin(): Ctx {
      ctx.(log := [])
    }
  }

  /** The states of a run, first to last, and the calls made along it. */
  datatype Trace<S> = Trace(states: seq<S>, log: seq<Effect>) {
    function Last(): S
      requires states != []
    {
      states[|states| - 1]
    }

    function Extend(o: Outcome<S>): Trace<S>
      requires o.Next?
    {
      Trace(states + [o.s], log + o.ctx.log)
    }
  }

  /** A run; None when a handler threw or stopped, or after the dispatcher has removed a final session. */
  function Run<S>(step: (S, Input) -> Outcome<S>, final: S -> bool, s: S, inputs: seq<Input>): (t: Option<Trace<S>>)
    ensures t.Some? ==> |t.value.states| == |inputs| + 1 && t.value.states[0] == s
  {
    if inputs == [] then Some(Trace([s], []))
    else
      var n := |inputs| - 1;
      match Run(step, final, s, inputs[..n])
      case None => None
      case Some(t) =>
        if n > 0 && final(t.Last()) then None
        else
          var o := step(t.Last(), inputs[n]);
          if o.Next? then Some(t.Extend(o)) else None
  }

  // Counting calls

  function One(b: bool): nat {
    if b then 1 else 0
  }

  predicate Sends(e: Effect, kind: Kind) {
    e.Sent? && e.packet.msg.kind == kind
  }

  function CountSent(log: seq<Effect>, kind: Kind): nat {
    if log == [] then 0 else CountSent(log[..|log| - 1], kind) + One(Sends(log[|log| - 1], kind))
  }

  function CountRemoved(log: seq<Effect>): nat {
    if log == [] then 0 else CountRemoved(log[..|log| - 1]) + One(log[|log| - 1].Removed?)
  }

  /** The counts over the at most three calls that one event makes. */
  function SentNow(log: seq<Effect>, kind: Kind): nat {
    One(|log| > 0 && Sends(log[0], kind)) + One(|log| > 1 && Sends(log[1], kind)) + One(|log| > 2 && Sends(log[2], kind))
  }

  function RemovedNow(log: seq<Effect>): nat {
    One(|log| > 0 && log[0].Removed?) + One(|log| > 1 && log[1].Removed?) + One(|log| > 2 && log[2].Removed?)
  }

  lemma CountsNow(log: seq<Effect>, kind: Kind)
    requires |log| <= 3
    ensures CountSent(log, kind) == SentNow(log, kind) && CountRemoved(log) == RemovedNow(log)
  {
    if |log| > 0 {
      var a := log[..|log| - 1];
      if |a| > 0 {
        var b := a[..|a| - 1];
        assert |b| > 0 ==> b[..|b| - 1] == [];
      }
    }
  }

  lemma {:induction false} CountsAdd(a: seq<Effect>, b: seq<Effect>, kind: Kind)
    ensures CountSent(a + b, kind) == CountSent(a, kind) + CountSent(b, kind)
    ensures CountRemoved(a + b) == CountRemoved(a) + CountRemoved(b)
  {
    if b == [] {
      assert a + b == a;
    } else {
      CountsAdd(a, b[..|b| - 1], kind);
      assert (a + b)[..|a + b| - 1] == a + b[..|b| - 1];
    }
  }

  // Records that a handler leaves

  predicate IsCall(e: Effect) {
    !e.Sent? && !e.Started?
  }

  /** A record that breaks off at a call: the handler has thrown there. */
  predicate BreaksOff(log: seq<Effect>, whole: seq<Effect>) {
    log <= whole && log != [] && IsCall(log[|log| - 1])
  }
}
