/** The lifetime cap of a forwarder over whole runs. */
module NfCap {
  import opened Bytes
  import opened Protocol
  import opened Runs
  import opened SerialNumber
  import opened NfSpec
  import NfTheorems
  import NfRuns
  import NfTimers

  predicate Over(s: Nf) {
    s.lifetime > s.maxLifetime
  }

  /** The events that set the lifetime to at most the cap. */
  predicate Caps(s: Nf, evt: Event) {
    || (NfTheorems.Pends(s) && evt.Is(CREATE) && NfTheorems.Replaces(s, evt.packet)
        && evt.packet.msg.lifetime.GetOr(0) <= s.maxLifetime)
    || (s.state == PENDING_INSTALLING && evt.ApiInstall? && |evt.installed| != |s.rule.requests|)
    || NfTimers.AcceptsRefresh(s, evt)
  }

  predicate CapStep(s: Nf, evt: Event, o: Outcome<Nf>) {
    o.Next? ==> (Over(o.s) <==> NfTheorems.Lifts(s, evt) || (Over(s) && !Caps(s, evt)))
  }

  lemma CreateCapStep(s: Nf, p: Packet, forThisNode: bool, ctx: Ctx, cfg: Config, passOn: bool)
    requires NfTheorems.Pends(s) && p.msg.kind == CREATE
    ensures CapStep(s, MsgIn(p, forThisNode), StepCreateAgain(s, p, ctx, cfg, passOn))
  {
  }

  lemma PendingCapStep(s: Nf, evt: Event, ctx: Ctx, cfg: Config)
    requires NfTheorems.Pends(s) && !evt.Is(CREATE)
    ensures CapStep(s, evt, Step(s, evt, ctx, cfg))
  {
  }

  lemma OtherCapStep(s: Nf, evt: Event, ctx: Ctx, cfg: Config)
    requires !NfTheorems.Pends(s) && (s.state == CLOSE ==> s == INITIAL)
    ensures CapStep(s, evt, Step(s, evt, ctx, cfg))
  {
  }

  lemma ActCapStep(s: Nf, input: Input, cfg: Config)
    requires s.state == CLOSE ==> s == INITIAL
    ensures CapStep(s, input.evt, NfRuns.Act(cfg)(s, input))
  {
    var evt, ctx := input.evt, input.Begin();
    if !NfTheorems.Pends(s) {
      OtherCapStep(s, evt, ctx, cfg);
    } else if evt.Is(CREATE) {
      CreateCapStep(s, evt.packet, evt.forThisNode, ctx, cfg, s.state != PENDING_CHECK);
    } else {
      PendingCapStep(s, evt, ctx, cfg);
    }
  }

  /** Some replacing CREATE has lifted the lifetime over the cap, and no event has capped it since. */
  ghost predicate LiftedAndNotCapped(t: Trace<Nf>, inputs: seq<Input>)
    requires |t.states| == |inputs| + 1
  {
    exists i :: 0 <= i < |inputs| && LiftedAt(t, inputs, i)
  }

  ghost predicate LiftedAt(t: Trace<Nf>, inputs: seq<Input>, i: nat)
    requires |t.states| == |inputs| + 1 && i < |inputs|
  {
    NfTheorems.Lifts(t.states[i], inputs[i].evt) && forall j :: i < j < |inputs| ==> !Caps(t.states[j], inputs[j].evt)
  }

  lemma LiftedExtends(t: Trace<Nf>, inputs: seq<Input>, input: Input, o: Outcome<Nf>)
    requires |t.states| == |inputs| + 1 && o.Next?
    ensures LiftedAndNotCapped(t.Extend(o), inputs + [input])
            <==> NfTheorems.Lifts(t.Last(), input.evt) || (LiftedAndNotCapped(t, inputs) && !Caps(t.Last(), input.evt))
  {
    var t', inputs' := t.Extend(o), inputs + [input];
    var n := |inputs|;
    assert forall i :: 0 <= i < n ==> t'.states[i] == t.states[i] && inputs'[i] == inputs[i];
    assert t'.states[n] == t.Last() && inputs'[n] == input;
    assert LiftedAt(t', inputs', n) <==> NfTheorems.Lifts(t.Last(), input.evt);
    forall i | 0 <= i < n ensures LiftedAt(t', inputs', i) <==> LiftedAt(t, inputs, i) && !Caps(t.Last(), input.evt) {
      if LiftedAt(t', inputs', i) {
        assert forall j :: i < j < n ==> !Caps(t'.states[j], inputs'[j].evt);
      }
    }
  }

  /**
   * At the end of any run of a forwarder its lifetime exceeds the cap exactly when a replacing CREATE has lifted it, and
   * neither a smaller replacement, nor a REFRESH, nor a failed installation has set it anew.
   */
  lemma {:induction false} OverCapExactly(cfg: Config, inputs: seq<Input>)
    ensures var r := Run(NfRuns.Act(cfg), NfRuns.IsFinal, INITIAL, inputs);
            r.Some? ==> (Over(r.value.Last()) <==> LiftedAndNotCapped(r.value, inputs))
  {
    if inputs != [] && Run(NfRuns.Act(cfg), NfRuns.IsFinal, INITIAL, inputs).Some? {
      var shorter, input := inputs[..|inputs| - 1], inputs[|inputs| - 1];
      OverCapExactly(cfg, shorter);
      var r := Run(NfRuns.Act(cfg), NfRuns.IsFinal, INITIAL, shorter).value;
      assert shorter == [] ==> r == Trace([INITIAL], []);
      ActCapStep(r.Last(), input, cfg);
      LiftedExtends(r, shorter, input, NfRuns.Act(cfg)(r.Last(), input));
      assert inputs == shorter + [input];
    }
  }
}
