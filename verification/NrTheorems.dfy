/** What holds of a responder session after every event. */
module NrTheorems {
  import opened Bytes
  import opened Protocol
  import opened NrSpec

  predicate Inv(s: Nr, stateLive: bool) {
    && (s.state != CLOSE ==> stateLive && s.lastCreate.Some? && s.mri == Some(s.lastCreate.value.mri)
                             && s.lastCreate.value.msg.kind == CREATE && s.lastCreate.value.msg.MspecObjects().Some?)
    && (s.state == PENDING || s.state == PENDING_INSTALLING ==> s.rule.responses == map[])
    && (s.state == AUCTIONING ==> |s.rule.requests| == |s.rule.responses|)
  }

  /** The invariant of a session with the timer messages `out` under way and ids drawn below `next`. */
  predicate Good(s: Nr, out: set<TimerId>, next: TimerId) {
    s.stateTimer < next && Inv(s, s.stateTimer in out)
  }

  /** The invariant after one event. */
  predicate GoodAfter(o: Outcome<Nr>, out: set<TimerId>, evt: Event, from: TimerId) {
    o.Next? ==>
      && from <= o.ctx.nextTimer && o.s.stateTimer < o.ctx.nextTimer
      && Inv(o.s, Live(out, evt, from, o.ctx.nextTimer, o.s.stateTimer))
  }

  predicate IsNew(s: Nr) {
    s.state == CLOSE && s.rule == EMPTY_RULE && s.stateTimer == STOPPED && s.createCounter == 0
  }

  lemma OpenIsGood(s: Nr, out: set<TimerId>, evt: Event, ctx: Ctx, cfg: Config)
    requires IsNew(s) && Supplied(out, ctx.nextTimer)
    ensures GoodAfter(StepClose(s, evt, ctx, cfg), out, evt, ctx.nextTimer)
  {
  }

  lemma PendingStaysGood(s: Nr, out: set<TimerId>, evt: Event, ctx: Ctx, cfg: Config)
    requires Good(s, out, ctx.nextTimer) && Supplied(out, ctx.nextTimer) && s.state == PENDING
    requires evt.Timer? ==> evt.id in out
    ensures GoodAfter(StepPending(s, evt, ctx, cfg), out, evt, ctx.nextTimer)
  {
  }

  lemma PendingInstallingStaysGood(s: Nr, out: set<TimerId>, evt: Event, ctx: Ctx, cfg: Config)
    requires Good(s, out, ctx.nextTimer) && Supplied(out, ctx.nextTimer) && s.state == PENDING_INSTALLING
    requires evt.Timer? ==> evt.id in out
    ensures GoodAfter(StepPendingInstalling(s, evt, ctx, cfg), out, evt, ctx.nextTimer)
  {
  }

  lemma AuctioningStaysGood(s: Nr, out: set<TimerId>, evt: Event, ctx: Ctx, cfg: Config)
    requires Good(s, out, ctx.nextTimer) && Supplied(out, ctx.nextTimer) && s.state == AUCTIONING
    requires evt.Timer? ==> evt.id in out
    ensures GoodAfter(StepAuctioning(s, evt, ctx, cfg), out, evt, ctx.nextTimer)
  {
  }

  lemma PendingTeardownStaysGood(s: Nr, out: set<TimerId>, evt: Event, ctx: Ctx, cfg: Config)
    requires Good(s, out, ctx.nextTimer) && Supplied(out, ctx.nextTimer) && s.state == PENDING_TEARDOWN
    requires evt.Timer? ==> evt.id in out
    ensures GoodAfter(StepPendingTeardown(s, evt, ctx, cfg), out, evt, ctx.nextTimer)
  {
  }

  /** Every event leaves an open session with a live state timer, its saved CREATE, and a consistent rule. */
  lemma StepStaysGood(s: Nr, out: set<TimerId>, evt: Event, ctx: Ctx, cfg: Config)
    requires Good(s, out, ctx.nextTimer) && Supplied(out, ctx.nextTimer) && (s.state == CLOSE ==> IsNew(s))
    requires evt.Timer? ==> evt.id in out
    ensures GoodAfter(Step(s, evt, ctx, cfg), out, evt, ctx.nextTimer)
  {
    match s.state
    case CLOSE => OpenIsGood(s, out, evt, ctx, cfg);
    case PENDING => PendingStaysGood(s, out, evt, ctx, cfg);
    case PENDING_INSTALLING => PendingInstallingStaysGood(s, out, evt, ctx, cfg);
    case AUCTIONING => AuctioningStaysGood(s, out, evt, ctx, cfg);
    case PENDING_TEARDOWN => PendingTeardownStaysGood(s, out, evt, ctx, cfg);
  }

  // Halting

  /** Where a null pointer stops the daemon. */
  predicate Stops(s: Nr, evt: Event) {
    match s.state
    case CLOSE => evt.Is(CREATE) && evt.packet.mri.pathCoupled && evt.packet.msg.MspecObjects().None?
                  && evt.packet.msg.lifetime.GetOr(0) > 0 && s.maxLifetime > 0
    case AUCTIONING => evt.Is(BIDDING) && evt.forThisNode && evt.packet.msg.MspecObjects().None?
    case _ => false
  }

  lemma StopsExactly(s: Nr, stateLive: bool, evt: Event, ctx: Ctx, cfg: Config)
    requires Inv(s, stateLive)
    ensures Step(s, evt, ctx, cfg).Halted? <==> Stops(s, evt)
  {
  }

  // Alarms

  function Left(max: nat, counter: nat): nat {
    if counter < max then max - counter else 0
  }

  /** How many more alarms a session can take before it closes. */
  function Rank(s: Nr): nat {
    match s.state
    case CLOSE => 0
    case AUCTIONING => 2 + Left(s.maxRetries, s.createCounter)
    case _ => 1 + Left(s.maxRetries, s.createCounter)
  }

  /** An alarm other than the state timer changes nothing; a live one brings the session closer to its end. */
  predicate AlarmOk(s: Nr, id: TimerId, ctx: Ctx, o: Outcome<Nr>) {
    var from := ctx.nextTimer;
    && !o.Halted?
    && (o.Next? ==>
          && from <= o.ctx.nextTimer <= from + 1
          && (if id != s.stateTimer then o == Next(s, ctx) else Rank(o.s) < Rank(s)))
    && (o.Threw? ==> from <= o.ctx.nextTimer <= from + 1 && id == s.stateTimer)
  }

  lemma AlarmStep(s: Nr, stateLive: bool, id: TimerId, ctx: Ctx, cfg: Config)
    requires Inv(s, stateLive) && s.state != CLOSE
    ensures AlarmOk(s, id, ctx, Step(s, Timer(id), ctx, cfg))
  {
  }
}
