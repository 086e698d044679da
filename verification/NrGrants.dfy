/** What a responder grants: never more than its cap, in its own lifetime and in every response. */
module NrGrants {
  import opened Bytes
  import opened Protocol
  import opened Runs
  import opened SerialNumber
  import opened NrSpec
  import NrTheorems
  import NrRuns
  import NrChart

  // One event

  /** A request that this session has to answer: its first CREATE, or a newer REFRESH while it is auctioning. */
  predicate Requests(s: Nr, evt: Event) {
    (s.state == CLOSE && evt.Is(CREATE))
    || (s.state == AUCTIONING && evt.Is(REFRESH) && IsGreaterThan(evt.packet.msg.msn.GetOr(0), s.msn))
  }

  function Asked(evt: Event): uint32
    requires evt.MsgIn?
  {
    evt.packet.msg.lifetime.GetOr(0)
  }

  /** The lifetime of the session after one event. */
  predicate LifetimeStep(s: Nr, evt: Event, o: Outcome<Nr>) {
    o.Next? ==>
      && o.s.maxLifetime == s.maxLifetime
      && if Requests(s, evt) && Min(Asked(evt), s.maxLifetime) > 0 then o.s.lifetime == Min(Asked(evt), s.maxLifetime)
         else o.s.lifetime == if s.state == PENDING_INSTALLING && o.s.state == PENDING_TEARDOWN then 0 else s.lifetime
  }

  lemma ActLifetimeStep(s: Nr, input: Input, cfg: Config)
    ensures LifetimeStep(s, input.evt, NrRuns.Act(cfg)(s, input))
  {
  }

  /** Every success that is sent grants the lifetime that the session lives for, or 0 to one that it tears down. */
  predicate GrantsStep(s: Nr, evt: Event, o: Outcome<Nr>) {
    !o.Halted? ==> forall k :: 0 <= k < |o.ctx.log| && NrRuns.Success(o.ctx.log[k]) ==>
      var granted := o.ctx.log[k].packet.msg.lifetime;
      if s.state == AUCTIONING then evt.MsgIn? && granted == Some(Min(Asked(evt), s.maxLifetime))
      else o.Next? && granted == Some(o.s.lifetime)
  }

  lemma OpenGrants(s: Nr, evt: Event, ctx: Ctx, cfg: Config)
    requires ctx.log == [] && s.state == CLOSE
    ensures GrantsStep(s, evt, Step(s, evt, ctx, cfg))
  {
  }

  lemma PendingGrants(s: Nr, evt: Event, ctx: Ctx, cfg: Config)
    requires ctx.log == [] && (s.state == PENDING || s.state == PENDING_TEARDOWN)
    ensures GrantsStep(s, evt, Step(s, evt, ctx, cfg))
  {
  }

  lemma OneReport(s: Nr, evt: Event, response: Packet, timer: Effect, o: Outcome<Nr>)
    requires s.state != AUCTIONING && o.Next? && o.ctx.log == [Sent(response), timer] && timer.Started?
    requires response.msg.lifetime == Some(o.s.lifetime)
    ensures GrantsStep(s, evt, o)
  {
  }

  lemma InstalledGrants(s: Nr, installed: Objects, ctx: Ctx, cfg: Config)
    requires ctx.log == [] && s.state == PENDING_INSTALLING && |s.rule.requests| == |installed|
    ensures GrantsStep(s, ApiInstall(installed), StepInstalled(s, installed, ctx, cfg))
  {
    if s.lastCreate.Some? {
      NrChart.ReportIsDone(s, s.lastCreate.value, installed, ctx, cfg);
      var response := ExtendResponse(NrChart.ResponseTo(s.lastCreate.value, InfoCode(2, 1), Some(s.lifetime), []),
                                     Install(s.rule.responses, ctx.nextKey, installed));
      OneReport(s, ApiInstall(installed), response, Started(ctx.nextTimer, s.lifetime), StepInstalled(s, installed, ctx, cfg));
    }
  }

  lemma MismatchGrants(s: Nr, installed: Objects, ctx: Ctx, cfg: Config)
    requires ctx.log == [] && s.state == PENDING_INSTALLING && |s.rule.requests| != |installed|
    ensures GrantsStep(s, ApiInstall(installed), StepInstalled(s, installed, ctx, cfg))
  {
  }

  lemma InstallUnansweredGrants(s: Nr, id: TimerId, ctx: Ctx, cfg: Config)
    requires ctx.log == [] && s.state == PENDING_INSTALLING
    ensures GrantsStep(s, Timer(id), StepInstallUnanswered(s, ctx))
  {
  }

  lemma InstallingGrants(s: Nr, evt: Event, ctx: Ctx, cfg: Config)
    requires ctx.log == [] && s.state == PENDING_INSTALLING
    ensures GrantsStep(s, evt, Step(s, evt, ctx, cfg))
  {
    if evt.Timer? {
      InstallUnansweredGrants(s, evt.id, ctx, cfg);
    } else if evt.ApiInstall? && |s.rule.requests| == |evt.installed| {
      InstalledGrants(s, evt.installed, ctx, cfg);
    } else if evt.ApiInstall? {
      MismatchGrants(s, evt.installed, ctx, cfg);
    }
  }

  lemma AuctioningGrants(s: Nr, evt: Event, ctx: Ctx, cfg: Config)
    requires ctx.log == [] && s.state == AUCTIONING
    ensures GrantsStep(s, evt, Step(s, evt, ctx, cfg))
  {
  }

  lemma ActGrants(s: Nr, input: Input, cfg: Config)
    ensures GrantsStep(s, input.evt, NrRuns.Act(cfg)(s, input))
  {
    match s.state
    case CLOSE => OpenGrants(s, input.evt, input.Begin(), cfg);
    case PENDING => PendingGrants(s, input.evt, input.Begin(), cfg);
    case PENDING_INSTALLING => InstallingGrants(s, input.evt, input.Begin(), cfg);
    case AUCTIONING => AuctioningGrants(s, input.evt, input.Begin(), cfg);
    case PENDING_TEARDOWN => PendingGrants(s, input.evt, input.Begin(), cfg);
  }

  // Whole runs

  /** A success response that grants at most the cap. */
  predicate Modest(e: Effect, cap: uint32) {
    NrRuns.Success(e) ==> e.packet.msg.lifetime.Some? && e.packet.msg.lifetime.value <= cap
  }

  ghost predicate WithinCap(t: Trace<Nr>, cap: uint32) {
    && t.states != []
    && (forall k :: 0 <= k < |t.states| ==> t.states[k].maxLifetime == cap && t.states[k].lifetime <= cap)
    && (forall k :: 0 <= k < |t.log| ==> Modest(t.log[k], cap))
  }

  lemma StaysWithinCap(t: Trace<Nr>, evt: Event, o: Outcome<Nr>, cap: uint32)
    requires WithinCap(t, cap) && o.Next? && LifetimeStep(t.Last(), evt, o) && GrantsStep(t.Last(), evt, o)
    ensures WithinCap(t.Extend(o), cap)
  {
    var t' := t.Extend(o);
    forall k | 0 <= k < |t'.log| ensures Modest(t'.log[k], cap) {
      if k >= |t.log| {
        assert t'.log[k] == o.ctx.log[k - |t.log|];
      }
    }
  }

  /** In every run of a responder no lifetime, and no lifetime that it grants, exceeds its cap. */
  lemma {:induction false} CapIsKept(cfg: Config, biddingMsn: uint32, inputs: seq<Input>)
    ensures var t := Run(NrRuns.Act(cfg), NrRuns.IsFinal, Initial(cfg, biddingMsn), inputs);
            t.Some? ==> WithinCap(t.value, cfg.nrMaxLifetime)
  {
    var s := Initial(cfg, biddingMsn);
    if inputs != [] && Run(NrRuns.Act(cfg), NrRuns.IsFinal, s, inputs).Some? {
      var shorter, input := inputs[..|inputs| - 1], inputs[|inputs| - 1];
      CapIsKept(cfg, biddingMsn, shorter);
      var t := Run(NrRuns.Act(cfg), NrRuns.IsFinal, s, shorter).value;
      assert shorter == [] ==> t == Trace([s], []);
      ActLifetimeStep(t.Last(), input, cfg);
      ActGrants(t.Last(), input, cfg);
      StaysWithinCap(t, input.evt, NrRuns.Act(cfg)(t.Last(), input), cfg.nrMaxLifetime);
    }
  }

  /** An accepted REFRESH: the responder grants the smaller of request and cap, and lives for exactly that long. */
  lemma RefreshGrants(s: Nr, p: Packet, forThisNode: bool, ctx: Ctx, cfg: Config)
    requires Requests(s, MsgIn(p, forThisNode)) && s.state == AUCTIONING && ctx.log == []
    ensures var o := Step(s, MsgIn(p, forThisNode), ctx, cfg);
            var granted := Min(p.msg.lifetime.GetOr(0), s.maxLifetime);
            && !o.Halted? && |o.ctx.log| > 0
            && o.ctx.log[0] == Sent(Packet(Msg(RESPONSE, p.msg.msn, Some(granted), None, None, Some(SUCCESS), []), p.mri.Inverted()))
            && (granted > 0 ==>
                  && o.Next? && o.s.state == AUCTIONING && o.s.lifetime == granted && o.s.msn == p.msg.msn.GetOr(0)
                  && o.ctx.log[1..] == [Started(o.s.stateTimer, granted)] && o.s.rule == s.rule)
            && (granted == 0 ==>
                  if |s.rule.responses| == 0 then o.Next? && o.s.state == CLOSE && |o.ctx.log| == 1
                  else |o.ctx.log| > 1 && o.ctx.log[1] == Removed(s.rule) && (o.Next? ==> o.s.state == PENDING_TEARDOWN))
  {
  }
}
