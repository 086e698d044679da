/** Whole runs of a forwarder session: installation before success, cleanup, and sequence numbers. */
module NfRuns {
  import opened Bytes
  import opened Protocol
  import opened Runs
  import opened SerialNumber
  import opened NfSpec

  function Act(cfg: Config): (Nf, Input) -> Outcome<Nf> {
    (s: Nf, input: Input) => Step(s, input.evt, input.Begin(), cfg)
  }

  predicate IsFinal(s: Nf) {
    s.state == CLOSE
  }

  // Installation before success

  /** A RESPONSE that reports success to the upstream node. */
  predicate Success(e: Effect) {
    e.Sent? && e.packet.msg.kind == RESPONSE && e.packet.msg.IsSuccess()
  }

  predicate HasSuccess(log: seq<Effect>) {
    exists e :: e in log && Success(e)
  }

  /** The downstream node has answered the CREATE with success. */
  predicate Confirms(s: Nf, evt: Event) {
    s.state == PENDING && s.lastCreate.Some? && evt.Answers(s.lastCreate.value) && evt.packet.msg.IsSuccess()
  }

  /** As many objects were installed as were requested. */
  predicate Installs(s: Nf, evt: Event) {
    s.state == PENDING_INSTALLING && evt.ApiInstall? && |evt.installed| == |s.rule.requests|
  }

  ghost predicate Confirmed(t: Trace<Nf>, inputs: seq<Input>, before: nat)
    requires |t.states| == |inputs| + 1
  {
    exists i :: 0 <= i < before && i < |inputs| && Confirms(t.states[i], inputs[i].evt)
  }

  ghost predicate ConfirmedThenInstalled(t: Trace<Nf>, inputs: seq<Input>)
    requires |t.states| == |inputs| + 1
  {
    exists j :: 0 <= j < |inputs| && Installs(t.states[j], inputs[j].evt) && Confirmed(t, inputs, j)
  }

  /** What one event has to do with confirmation, installation and success. */
  predicate InstallStep(s: Nf, evt: Event, o: Outcome<Nf>) {
    o.Next? ==>
      && (o.s.state == PENDING_INSTALLING ==> s.state == PENDING_INSTALLING || Confirms(s, evt))
      && (o.s.state == AUCTIONING || o.s.state == PENDING_TEARDOWN ==>
            s.state == AUCTIONING || s.state == PENDING_TEARDOWN || Installs(s, evt))
      && (HasSuccess(o.ctx.log) ==> s.state == AUCTIONING || Installs(s, evt))
  }

  lemma CreateInstallStep(s: Nf, p: Packet, forThisNode: bool, ctx: Ctx, cfg: Config, passOn: bool)
    requires ctx.log == [] && p.msg.kind == CREATE
    ensures s.state != AUCTIONING && s.state != PENDING_TEARDOWN ==>
              InstallStep(s, MsgIn(p, forThisNode), StepCreateAgain(s, p, ctx, cfg, passOn))
  {
  }

  lemma OpenInstallStep(s: Nf, evt: Event, ctx: Ctx, cfg: Config)
    requires ctx.log == [] && s.state == CLOSE
    ensures InstallStep(s, evt, StepClose(s, evt, ctx, cfg))
  {
  }

  lemma PendingInstallStep(s: Nf, evt: Event, ctx: Ctx, cfg: Config)
    requires ctx.log == [] && !evt.Is(CREATE)
    ensures s.state == PENDING_CHECK ==> InstallStep(s, evt, StepPendingCheck(s, evt, ctx, cfg))
    ensures s.state == PENDING ==> InstallStep(s, evt, StepPending(s, evt, ctx, cfg))
  {
  }

  lemma InstallingInstallStep(s: Nf, evt: Event, ctx: Ctx, cfg: Config)
    requires ctx.log == [] && !evt.Is(CREATE) && s.state == PENDING_INSTALLING
    ensures InstallStep(s, evt, StepPendingInstalling(s, evt, ctx, cfg))
  {
  }

  lemma LateInstallStep(s: Nf, evt: Event, ctx: Ctx)
    requires ctx.log == []
    ensures s.state == AUCTIONING ==> InstallStep(s, evt, StepAuctioning(s, evt, ctx))
    ensures s.state == PENDING_TEARDOWN ==> InstallStep(s, evt, StepPendingTeardown(s, evt, ctx))
  {
  }

  lemma ActInstallStep(s: Nf, input: Input, cfg: Config)
    ensures InstallStep(s, input.evt, Act(cfg)(s, input))
  {
    var evt, ctx := input.evt, input.Begin();
    if s.state == CLOSE {
      OpenInstallStep(s, evt, ctx, cfg);
    } else if s.state == AUCTIONING || s.state == PENDING_TEARDOWN {
      LateInstallStep(s, evt, ctx);
    } else if evt.Is(CREATE) {
      CreateInstallStep(s, evt.packet, evt.forThisNode, ctx, cfg, s.state != PENDING_CHECK);
    } else if s.state == PENDING_INSTALLING {
      InstallingInstallStep(s, evt, ctx, cfg);
    } else {
      PendingInstallStep(s, evt, ctx, cfg);
    }
  }

  /** The history of a run from a new session that its last state and its calls reveal. */
  ghost predicate History(t: Trace<Nf>, inputs: seq<Input>) {
    && |t.states| == |inputs| + 1
    && (t.Last().state == PENDING_INSTALLING ==> Confirmed(t, inputs, |inputs|))
    && (t.Last().state == AUCTIONING || t.Last().state == PENDING_TEARDOWN ==> ConfirmedThenInstalled(t, inputs))
    && (HasSuccess(t.log) ==> ConfirmedThenInstalled(t, inputs))
  }

  lemma HistoryGrows(t: Trace<Nf>, inputs: seq<Input>, input: Input, o: Outcome<Nf>)
    requires History(t, inputs) && InstallStep(t.Last(), input.evt, o) && o.Next?
    ensures History(t.Extend(o), inputs + [input])
  {
    var t', inputs' := t.Extend(o), inputs + [input];
    var n := |inputs|;
    assert t'.states[n] == t.Last() && inputs'[n] == input && t'.Last() == o.s;
    assert forall i :: 0 <= i < n ==> t'.states[i] == t.states[i] && inputs'[i] == inputs[i];
    assert forall before: nat :: Confirmed(t, inputs, before) ==> Confirmed(t', inputs', before) by {
      forall before: nat | Confirmed(t, inputs, before)
        ensures Confirmed(t', inputs', before)
      {
        var i :| 0 <= i < before && i < n && Confirms(t.states[i], inputs[i].evt);
        assert Confirms(t'.states[i], inputs'[i].evt);
      }
    }
    if ConfirmedThenInstalled(t, inputs) {
      var j :| 0 <= j < n && Installs(t.states[j], inputs[j].evt) && Confirmed(t, inputs, j);
      assert Installs(t'.states[j], inputs'[j].evt) && Confirmed(t', inputs', j);
    }
    if Confirms(t.Last(), input.evt) {
      assert Confirms(t'.states[n], inputs'[n].evt);
    }
    if Installs(t.Last(), input.evt) {
      assert Installs(t'.states[n], inputs'[n].evt) && Confirmed(t', inputs', n);
    }
    if HasSuccess(t'.log) {
      var e :| e in t'.log && Success(e);
      assert e in t.log || e in o.ctx.log;
    }
  }

  /** A forwarder reports success only after a matching success from downstream and then a complete installation. */
  lemma {:induction false} SuccessAfterInstallation(cfg: Config, inputs: seq<Input>)
    ensures var t := Run(Act(cfg), IsFinal, INITIAL, inputs); t.Some? ==> History(t.value, inputs)
  {
    if inputs != [] && Run(Act(cfg), IsFinal, INITIAL, inputs).Some? {
      var shorter, input := inputs[..|inputs| - 1], inputs[|inputs| - 1];
      SuccessAfterInstallation(cfg, shorter);
      var t := Run(Act(cfg), IsFinal, INITIAL, shorter).value;
      ActInstallStep(t.Last(), input, cfg);
      HistoryGrows(t, shorter, input, Act(cfg)(t.Last(), input));
      assert inputs == shorter + [input];
    }
  }

  // Cleanup

  /** One event of a session whose rule is installed: the rule is frozen, and leaving AUCTIONING has it removed. */
  predicate RuleStep(s: Nf, o: Outcome<Nf>) {
    o.Next? ==>
      && o.s.rule == s.rule
      && (forall e :: e in o.ctx.log && e.Removed? ==> e.rule == s.rule)
      && (s.state == AUCTIONING ==> o.s.state == AUCTIONING || (o.s.state == PENDING_TEARDOWN && Removed(s.rule) in o.ctx.log))
      && (s.state == PENDING_TEARDOWN ==> o.s.state == PENDING_TEARDOWN || o.s.state == CLOSE)
  }

  lemma MessageFreezesRule(s: Nf, evt: Event, ctx: Ctx, cfg: Config)
    requires s.state == AUCTIONING && |s.rule.responses| > 0 && ctx.log == [] && evt.MsgIn?
    ensures RuleStep(s, Step(s, evt, ctx, cfg))
  {
  }

  lemma AuctioningFreezesRule(s: Nf, evt: Event, ctx: Ctx, cfg: Config)
    requires s.state == AUCTIONING && |s.rule.responses| > 0 && ctx.log == []
    ensures RuleStep(s, Step(s, evt, ctx, cfg))
  {
    if evt.MsgIn? {
      MessageFreezesRule(s, evt, ctx, cfg);
    }
  }

  lemma TeardownFreezesRule(s: Nf, evt: Event, ctx: Ctx, cfg: Config)
    requires s.state == PENDING_TEARDOWN && ctx.log == []
    ensures RuleStep(s, Step(s, evt, ctx, cfg))
  {
  }

  lemma ActFreezesRule(s: Nf, input: Input, cfg: Config)
    requires s.state == PENDING_TEARDOWN || (s.state == AUCTIONING && |s.rule.responses| > 0)
    ensures RuleStep(s, Act(cfg)(s, input))
  {
    if s.state == AUCTIONING {
      AuctioningFreezesRule(s, input.evt, input.Begin(), cfg);
    } else {
      TeardownFreezesRule(s, input.evt, input.Begin(), cfg);
    }
  }

  /** The rule of `s` is still installed, or was handed to the installer for removal on the way through PENDING_TEARDOWN. */
  ghost predicate InstalledOrRemoved(s: Nf, t: Trace<Nf>) {
    && t.states != [] && t.Last().rule == s.rule
    && (forall e :: e in t.log && e.Removed? ==> e.rule == s.rule)
    && (t.Last().state == AUCTIONING
        || ((t.Last().state == PENDING_TEARDOWN || t.Last().state == CLOSE) && Removed(s.rule) in t.log
            && exists x :: x in t.states && x.state == PENDING_TEARDOWN))
  }

  lemma RuleStepKeeps(s: Nf, t: Trace<Nf>, o: Outcome<Nf>)
    requires InstalledOrRemoved(s, t) && t.Last().state != CLOSE && RuleStep(t.Last(), o) && o.Next?
    ensures InstalledOrRemoved(s, t.Extend(o))
  {
    var t' := t.Extend(o);
    assert o.s in t'.states;
    assert forall x :: x in t.states ==> x in t'.states;
  }

  /** A session with installed objects closes only through PENDING_TEARDOWN, after it had exactly those objects removed. */
  lemma {:induction false} RuleIsRemoved(s: Nf, inputs: seq<Input>, cfg: Config)
    requires s.state == AUCTIONING && |s.rule.responses| > 0
    ensures var t := Run(Act(cfg), IsFinal, s, inputs); t.Some? ==> InstalledOrRemoved(s, t.value)
  {
    if inputs != [] && Run(Act(cfg), IsFinal, s, inputs).Some? {
      var shorter, input := inputs[..|inputs| - 1], inputs[|inputs| - 1];
      RuleIsRemoved(s, shorter, cfg);
      var t := Run(Act(cfg), IsFinal, s, shorter).value;
      assert shorter == [] ==> t == Trace([s], []);
      ActFreezesRule(t.Last(), input, cfg);
      RuleStepKeeps(s, t, Act(cfg)(t.Last(), input));
    }
  }

  // Sequence numbers

  function Msns(states: seq<Nf>): (ms: seq<uint32>)
    ensures |ms| == |states| && forall i :: 0 <= i < |ms| ==> ms[i] == states[i].msn
  {
    seq(|states|, i requires 0 <= i < |states| => states[i].msn)
  }

  /** While auctioning, the number changes only to one that compares greater; once left, the state never comes back. */
  predicate MsnStep(s: Nf, o: Outcome<Nf>) {
    o.Next? && o.s.state == AUCTIONING && s.state == AUCTIONING ==> o.s.msn == s.msn || IsGreaterThan(o.s.msn, s.msn)
  }

  lemma ActMsnStep(s: Nf, input: Input, cfg: Config)
    requires s.state == AUCTIONING || s.state == PENDING_TEARDOWN
    ensures var o := Act(cfg)(s, input);
            MsnStep(s, o) && (o.Next? && s.state == PENDING_TEARDOWN ==> o.s.state != AUCTIONING)
            && (o.Next? ==> o.s.state == AUCTIONING || o.s.state == PENDING_TEARDOWN || o.s.state == CLOSE)
  {
  }

  lemma {:induction false} MsnsAscend(s: Nf, inputs: seq<Input>, cfg: Config)
    requires s.state == AUCTIONING
    ensures var t := Run(Act(cfg), IsFinal, s, inputs);
            t.Some? ==> (t.value.Last().state == AUCTIONING || t.value.Last().state == PENDING_TEARDOWN || t.value.Last().state == CLOSE)
                        && (t.value.Last().state == AUCTIONING ==> Ascends(Msns(t.value.states)))
  {
    if inputs != [] && Run(Act(cfg), IsFinal, s, inputs).Some? {
      var shorter, input := inputs[..|inputs| - 1], inputs[|inputs| - 1];
      MsnsAscend(s, shorter, cfg);
      var t := Run(Act(cfg), IsFinal, s, shorter).value;
      assert shorter == [] ==> t == Trace([s], []);
      ActMsnStep(t.Last(), input, cfg);
      var t' := Run(Act(cfg), IsFinal, s, inputs).value;
      assert Msns(t'.states) == Msns(t.states) + [t'.Last().msn];
    }
  }

  /**
   * A REFRESH that repeats a number the session had at any earlier moment changes nothing and is not passed on, as long
   * as the unwrapped counter has advanced by at most 2^31 since.
   */
  lemma ReplayIsRejected(s: Nf, inputs: seq<Input>, cfg: Config, i: nat, p: Packet, forThisNode: bool, ctx: Ctx)
    requires s.state == AUCTIONING && i <= |inputs| && p.msg.kind == REFRESH
    ensures var t := Run(Act(cfg), IsFinal, s, inputs);
            t.Some? && t.value.Last().state == AUCTIONING && p.msg.msn == Some(t.value.states[i].msn)
            && Unwrapped(Msns(t.value.states)) <= Unwrapped(Msns(t.value.states)[..i + 1]) + LIMIT ==>
              Step(t.value.Last(), MsgIn(p, forThisNode), ctx, cfg) == Next(t.value.Last(), ctx)
  {
    var t := Run(Act(cfg), IsFinal, s, inputs);
    if t.Some? && t.value.Last().state == AUCTIONING
       && Unwrapped(Msns(t.value.states)) <= Unwrapped(Msns(t.value.states)[..i + 1]) + LIMIT {
      MsnsAscend(s, inputs, cfg);
      OldNumberIsStale(Msns(t.value.states), i);
    }
  }

  /** A REFRESH with a non-zero lifetime that is accepted raises the unwrapped counter, whose residue is its number. */
  lemma AcceptedRefreshRises(s: Nf, inputs: seq<Input>, cfg: Config, p: Packet, forThisNode: bool, ctx: Ctx)
    requires s.state == AUCTIONING && p.msg.kind == REFRESH
    ensures var t := Run(Act(cfg), IsFinal, s, inputs);
            t.Some? && t.value.Last().state == AUCTIONING ==>
              var o := Step(t.value.Last(), MsgIn(p, forThisNode), ctx, cfg);
              var ms := Msns(t.value.states);
              o.Next? && o.s != t.value.Last() && o.s.lifetime > 0 ==>
                && o.s.msn == p.msg.msn.GetOr(0)
                && Unwrapped(ms) < Unwrapped(ms + [o.s.msn]) < Unwrapped(ms) + LIMIT
                && Unwrapped(ms + [o.s.msn]) % TWO_32 == o.s.msn
  {
    var t := Run(Act(cfg), IsFinal, s, inputs);
    if t.Some? && t.value.Last().state == AUCTIONING {
      MsnsAscend(s, inputs, cfg);
      var ms := Msns(t.value.states);
      var o := StepRefresh(t.value.Last(), p, ctx);
      if o.s != t.value.Last() && o.s.lifetime > 0 {
        assert (ms + [o.s.msn])[..|ms|] == ms;
        UnwrappedRises(ms + [o.s.msn]);
        UnwrappedResidue(ms + [o.s.msn]);
      }
    }
  }
}
