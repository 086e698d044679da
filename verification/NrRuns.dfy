/** Whole runs of a responder session: installation before success, cleanup, and sequence numbers. */
module NrRuns {
  import opened Bytes
  import opened Protocol
  import opened Runs
  import opened SerialNumber
  import opened NrSpec
  import NrTheorems

  function Act(cfg: Config): (Nr, Input) -> Outcome<Nr> {
    (s: Nr, input: Input) => Step(s, input.evt, input.Begin(), cfg)
  }

  predicate IsFinal(s: Nr) {
    s.state == CLOSE
  }

  // Installation before success

  predicate Success(e: Effect) {
    e.Sent? && e.packet.msg.kind == RESPONSE && e.packet.msg.IsSuccess()
  }

  predicate HasSuccess(log: seq<Effect>) {
    exists e :: e in log && Success(e)
  }

  /** The installer has named the requests that this node can serve. */
  predicate Checked(s: Nr, evt: Event, requests: Objects) {
    s.state == PENDING && evt.ApiCheck? && requests == Keep(s.rule.requests, evt.keys)
  }

  /** As many objects were installed as the check had kept. */
  predicate Installs(s: Nr, evt: Event) {
    s.state == PENDING_INSTALLING && evt.ApiInstall? && |evt.installed| == |s.rule.requests|
  }

  /** A CREATE that this node answers at once because it does not take part. */
  predicate Bystander(s: Nr, evt: Event, cfg: Config) {
    s.state == CLOSE && evt.Is(CREATE) && !Checks(evt.packet.msg, cfg)
  }

  ghost predicate CheckedBefore(t: Trace<Nr>, inputs: seq<Input>, before: nat, requests: Objects)
    requires |t.states| == |inputs| + 1
  {
    exists i :: 0 <= i < before && i < |inputs| && Checked(t.states[i], inputs[i].evt, requests)
  }

  ghost predicate CheckedThenInstalled(t: Trace<Nr>, inputs: seq<Input>)
    requires |t.states| == |inputs| + 1
  {
    exists j :: 0 <= j < |inputs| && Installs(t.states[j], inputs[j].evt)
                && CheckedBefore(t, inputs, j, t.states[j].rule.requests)
  }

  /** What one event has to do with check, installation and success. */
  predicate InstallStep(s: Nr, evt: Event, o: Outcome<Nr>, cfg: Config) {
    o.Next? ==>
      && (o.s.state == PENDING_INSTALLING ==>
            (s.state == PENDING_INSTALLING && o.s.rule == s.rule) || Checked(s, evt, o.s.rule.requests))
      && (HasSuccess(o.ctx.log) || o.s.state == AUCTIONING ==>
            s.state == AUCTIONING || Installs(s, evt) || Bystander(s, evt, cfg))
      && (s.state == AUCTIONING ==> o.s.state != PENDING_INSTALLING)
  }

  lemma OpenInstallStep(s: Nr, evt: Event, ctx: Ctx, cfg: Config)
    requires ctx.log == []
    ensures s.state == CLOSE ==> InstallStep(s, evt, StepClose(s, evt, ctx, cfg), cfg)
    ensures s.state == PENDING ==> InstallStep(s, evt, StepPending(s, evt, ctx, cfg), cfg)
  {
  }

  lemma InstallingInstallStep(s: Nr, evt: Event, ctx: Ctx, cfg: Config)
    requires ctx.log == []
    ensures s.state == PENDING_INSTALLING ==> InstallStep(s, evt, StepPendingInstalling(s, evt, ctx, cfg), cfg)
    ensures s.state == PENDING_TEARDOWN ==> InstallStep(s, evt, StepPendingTeardown(s, evt, ctx, cfg), cfg)
  {
  }

  lemma ActInstallStep(s: Nr, input: Input, cfg: Config)
    ensures InstallStep(s, input.evt, Act(cfg)(s, input), cfg)
  {
    OpenInstallStep(s, input.evt, input.Begin(), cfg);
    InstallingInstallStep(s, input.evt, input.Begin(), cfg);
  }

  /** The history of a run from a new session that its last state and its calls reveal. */
  ghost predicate History(t: Trace<Nr>, inputs: seq<Input>, cfg: Config) {
    && |t.states| == |inputs| + 1
    && (t.Last().state == PENDING_INSTALLING ==> CheckedBefore(t, inputs, |inputs|, t.Last().rule.requests))
    && (HasSuccess(t.log) || t.Last().state == AUCTIONING ==>
          CheckedThenInstalled(t, inputs) || (inputs != [] && Bystander(t.states[0], inputs[0].evt, cfg)))
  }

  lemma HistoryGrows(t: Trace<Nr>, inputs: seq<Input>, input: Input, o: Outcome<Nr>, cfg: Config)
    requires History(t, inputs, cfg) && InstallStep(t.Last(), input.evt, o, cfg) && o.Next?
    requires inputs != [] ==> t.Last().state != CLOSE
    ensures History(t.Extend(o), inputs + [input], cfg)
  {
    var t', inputs' := t.Extend(o), inputs + [input];
    var n := |inputs|;
    assert t'.states[n] == t.Last() && inputs'[n] == input && t'.Last() == o.s;
    assert forall i :: 0 <= i < n ==> t'.states[i] == t.states[i] && inputs'[i] == inputs[i];
    forall before: nat, requests | CheckedBefore(t, inputs, before, requests)
      ensures CheckedBefore(t', inputs', before, requests)
    {
      var i :| 0 <= i < before && i < n && Checked(t.states[i], inputs[i].evt, requests);
      assert Checked(t'.states[i], inputs'[i].evt, requests);
    }
    if CheckedThenInstalled(t, inputs) {
      var j :| 0 <= j < n && Installs(t.states[j], inputs[j].evt) && CheckedBefore(t, inputs, j, t.states[j].rule.requests);
      assert Installs(t'.states[j], inputs'[j].evt) && CheckedBefore(t', inputs', j, t'.states[j].rule.requests);
    }
    if Checked(t.Last(), input.evt, o.s.rule.requests) {
      assert Checked(t'.states[n], inputs'[n].evt, o.s.rule.requests);
    }
    if Installs(t.Last(), input.evt) {
      assert Installs(t'.states[n], inputs'[n].evt) && CheckedBefore(t', inputs', n, t'.states[n].rule.requests);
    }
    if HasSuccess(t'.log) {
      var e :| e in t'.log && Success(e);
      assert e in t.log || e in o.ctx.log;
      assert HasSuccess(t.log) || HasSuccess(o.ctx.log);
    }
  }

  /** A responder that takes part reports success only after a check and then an installation of what the check kept. */
  lemma {:induction false} SuccessAfterInstallation(s: Nr, cfg: Config, inputs: seq<Input>)
    requires NrTheorems.IsNew(s)
    ensures var t := Run(Act(cfg), IsFinal, s, inputs); t.Some? ==> History(t.value, inputs, cfg)
  {
    if inputs != [] && Run(Act(cfg), IsFinal, s, inputs).Some? {
      var shorter, input := inputs[..|inputs| - 1], inputs[|inputs| - 1];
      SuccessAfterInstallation(s, cfg, shorter);
      var t := Run(Act(cfg), IsFinal, s, shorter).value;
      ActInstallStep(t.Last(), input, cfg);
      HistoryGrows(t, shorter, input, Act(cfg)(t.Last(), input), cfg);
      assert inputs == shorter + [input];
    }
  }

  // Cleanup

  /** One event of a session whose rule is installed: the rule is frozen, and leaving AUCTIONING has it removed. */
  predicate RuleStep(s: Nr, o: Outcome<Nr>) {
    o.Next? ==>
      && o.s.rule == s.rule
      && (forall e :: e in o.ctx.log && e.Removed? ==> e.rule == s.rule)
      && (s.state == AUCTIONING ==> o.s.state == AUCTIONING || (o.s.state == PENDING_TEARDOWN && Removed(s.rule) in o.ctx.log))
      && (s.state == PENDING_TEARDOWN ==> o.s.state == PENDING_TEARDOWN || o.s.state == CLOSE)
  }

  lemma ActFreezesRule(s: Nr, input: Input, cfg: Config)
    requires s.state == PENDING_TEARDOWN || (s.state == AUCTIONING && |s.rule.responses| > 0)
    ensures RuleStep(s, Act(cfg)(s, input))
  {
  }

  /** The rule of `s` is still installed, or was handed to the installer for removal on the way through PENDING_TEARDOWN. */
  ghost predicate InstalledOrRemoved(s: Nr, t: Trace<Nr>) {
    && t.states != [] && t.Last().rule == s.rule
    && (forall e :: e in t.log && e.Removed? ==> e.rule == s.rule)
    && (t.Last().state == AUCTIONING
        || ((t.Last().state == PENDING_TEARDOWN || t.Last().state == CLOSE) && Removed(s.rule) in t.log
            && exists x :: x in t.states && x.state == PENDING_TEARDOWN))
  }

  lemma RuleStepKeeps(s: Nr, t: Trace<Nr>, o: Outcome<Nr>)
    requires InstalledOrRemoved(s, t) && t.Last().state != CLOSE && RuleStep(t.Last(), o) && o.Next?
    ensures InstalledOrRemoved(s, t.Extend(o))
  {
    var t' := t.Extend(o);
    assert o.s in t'.states;
    assert forall x :: x in t.states ==> x in t'.states;
  }

  /** A session with installed objects closes only through PENDING_TEARDOWN, after it had exactly those objects removed. */
  lemma {:induction false} RuleIsRemoved(s: Nr, inputs: seq<Input>, cfg: Config)
    requires s.state == AUCTIONING && |s.rule.responses| > 0
    ensures var t := Run(Act(cfg), IsFinal, s, inputs); t.Some? ==> InstalledOrRemoved(s, t.value)
  {
    if inputs != [] && Run(Act(cfg), IsFinal, s, inputs).Some? {
      var shorter, input := inputs[..|inputs| - 1], inputs[|inputs| - 1];
      RuleIsRemoved(s, shorter, cfg);
      var t := Run(Act(cfg), IsFinal, s, shorter).value;
      assert shorter == [] ==> t == Trace([s], []);
      ActFreezesRule(t.Last(), input, cfg);
      RuleStepKeeps(s, t, Act(cfg)(t.Last(), input));
    }
  }

  // Sequence numbers

  function Msns(states: seq<Nr>): (ms: seq<uint32>)
    ensures |ms| == |states| && forall i :: 0 <= i < |ms| ==> ms[i] == states[i].msn
  {
    seq(|states|, i requires 0 <= i < |states| => states[i].msn)
  }

  /** While auctioning, the number changes only to one that compares greater; once left, the state never comes back. */
  predicate MsnStep(s: Nr, o: Outcome<Nr>) {
    o.Next? && o.s.state == AUCTIONING && s.state == AUCTIONING ==> o.s.msn == s.msn || IsGreaterThan(o.s.msn, s.msn)
  }

  lemma ActMsnStep(s: Nr, input: Input, cfg: Config)
    requires s.state == AUCTIONING || s.state == PENDING_TEARDOWN
    ensures var o := Act(cfg)(s, input);
            MsnStep(s, o) && (o.Next? && s.state == PENDING_TEARDOWN ==> o.s.state != AUCTIONING)
            && (o.Next? ==> o.s.state == AUCTIONING || o.s.state == PENDING_TEARDOWN || o.s.state == CLOSE)
  {
  }

  lemma {:induction false} MsnsAscend(s: Nr, inputs: seq<Input>, cfg: Config)
    requires s.state == AUCTIONING
    ensures var t := Run(Act(cfg), IsFinal, s, inputs);
            t.Some? ==> (t.value.Last().state == AUCTIONING || t.value.Last().state == PENDING_TEARDOWN || t.value.Last().state == CLOSE)
                        && (t.value.Last().state == AUCTIONING ==> Ascends(Msns(t.value.states)))
  {
    if inputs != [] && Run(Act(cfg), IsFinal, s, inputs).Some? {
      var shorter, input := inputs[..|inputs| - 1], inputs[|inputs| - 1];
      MsnsAscend(s, shorter, cfg);
      var t := Run(Act(cfg), IsFinal, s, shorter).value;
      assert shorter == [] ==> t == Trace([s], []);
      ActMsnStep(t.Last(), input, cfg);
      var t' := Run(Act(cfg), IsFinal, s, inputs).value;
      assert Msns(t'.states) == Msns(t.states) + [t'.Last().msn];
    }
  }

  /**
   * A REFRESH that repeats a number the session had at any earlier moment changes nothing and is not passed on, as long
   * as the unwrapped counter has advanced by at most 2^31 since.
   */
  lemma ReplayIsRejected(s: Nr, inputs: seq<Input>, cfg: Config, i: nat, p: Packet, forThisNode: bool, ctx: Ctx)
    requires s.state == AUCTIONING && i <= |inputs| && p.msg.kind == REFRESH
    ensures var t := Run(Act(cfg), IsFinal, s, inputs);
            t.Some? && t.value.Last().state == AUCTIONING && p.msg.msn == Some(t.value.states[i].msn)
            && Unwrapped(Msns(t.value.states)) <= Unwrapped(Msns(t.value.states)[..i + 1]) + LIMIT ==>
              Step(t.value.Last(), MsgIn(p, forThisNode), ctx, cfg) == Next(t.value.Last(), ctx)
  {
    var t := Run(Act(cfg), IsFinal, s, inputs);
    if t.Some? && t.value.Last().state == AUCTIONING
       && Unwrapped(Msns(t.value.states)) <= Unwrapped(Msns(t.value.states)[..i + 1]) + LIMIT {
      MsnsAscend(s, inputs, cfg);
      OldNumberIsStale(Msns(t.value.states), i);
    }
  }

  lemma AcceptedRefresh(s: Nr, p: Packet, forThisNode: bool, ctx: Ctx, cfg: Config)
    requires s.state == AUCTIONING && p.msg.kind == REFRESH
    ensures var o := Step(s, MsgIn(p, forThisNode), ctx, cfg);
            o.Next? && o.s != s && o.s.lifetime > 0 && o.s.state == AUCTIONING ==>
              o.s.msn == p.msg.msn.GetOr(0) && IsGreaterThan(o.s.msn, s.msn)
  {
  }

  lemma AscendsFurther(ms: seq<uint32>, m: uint32)
    requires ms != [] && Ascends(ms) && IsGreaterThan(m, ms[|ms| - 1])
    ensures Unwrapped(ms) < Unwrapped(ms + [m]) < Unwrapped(ms) + LIMIT && Unwrapped(ms + [m]) % TWO_32 == m
  {
    assert (ms + [m])[..|ms|] == ms;
    UnwrappedRises(ms + [m]);
    UnwrappedResidue(ms + [m]);
  }

  /** A REFRESH with a non-zero lifetime that is accepted raises the unwrapped counter, whose residue is its number. */
  lemma AcceptedRefreshRises(s: Nr, inputs: seq<Input>, cfg: Config, p: Packet, forThisNode: bool, ctx: Ctx)
    requires s.state == AUCTIONING && p.msg.kind == REFRESH
    ensures var t := Run(Act(cfg), IsFinal, s, inputs);
            t.Some? && t.value.Last().state == AUCTIONING ==>
              var o := Step(t.value.Last(), MsgIn(p, forThisNode), ctx, cfg);
              var ms := Msns(t.value.states);
              o.Next? && o.s != t.value.Last() && o.s.lifetime > 0 && o.s.state == AUCTIONING ==>
                && o.s.msn == p.msg.msn.GetOr(0)
                && Unwrapped(ms) < Unwrapped(ms + [o.s.msn]) < Unwrapped(ms) + LIMIT
                && Unwrapped(ms + [o.s.msn]) % TWO_32 == o.s.msn
  {
    var t := Run(Act(cfg), IsFinal, s, inputs);
    if t.Some? && t.value.Last().state == AUCTIONING {
      MsnsAscend(s, inputs, cfg);
      AcceptedRefresh(t.value.Last(), p, forThisNode, ctx, cfg);
      var o := Step(t.value.Last(), MsgIn(p, forThisNode), ctx, cfg);
      if o.Next? && o.s != t.value.Last() && o.s.lifetime > 0 && o.s.state == AUCTIONING {
        AscendsFurther(Msns(t.value.states), o.s.msn);
      }
    }
  }
}
