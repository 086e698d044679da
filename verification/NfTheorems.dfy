/** What holds of a forwarder session after every event. */
module NfTheorems {
  import opened Bytes
  import opened Protocol
  import opened SerialNumber
  import opened NfSpec

  predicate Pends(s: Nf) {
    s.state == PENDING_CHECK || s.state == PENDING || s.state == PENDING_INSTALLING
  }

  predicate Inv(s: Nf, stateLive: bool) {
    && (s.state != CLOSE ==> stateLive)
    && (Pends(s) ==> s.rule.responses == map[] && s.nrMri == Some(Mri(true, true)) && s.lastCreate.Some?
                     && s.lastCreate.value.msg.kind == CREATE && s.lastCreate.value.msg.MspecObjects().Some?)
    && (s.state == PENDING_INSTALLING ==>
          s.lastResponse.Some? && s.lastResponse.value.msg.kind == RESPONSE && s.lastResponse.value.msg.IsSuccess())
    && (s.state == AUCTIONING ==> |s.rule.requests| == |s.rule.responses|)
    && (s.state == PENDING_TEARDOWN ==> |s.rule.responses| > 0)
  }

  /** The invariant of a session with the timer messages `out` under way and ids drawn below `next`. */
  predicate Good(s: Nf, out: set<TimerId>, next: TimerId) {
    s.stateTimer < next && s.responseTimer < next && Inv(s, s.stateTimer in out)
  }

  /** The invariant after one event. */
  predicate GoodAfter(o: Outcome<Nf>, out: set<TimerId>, evt: Event, from: TimerId) {
    o.Next? ==>
      && from <= o.ctx.nextTimer
      && o.s.stateTimer < o.ctx.nextTimer && o.s.responseTimer < o.ctx.nextTimer
      && Inv(o.s, Live(out, evt, from, o.ctx.nextTimer, o.s.stateTimer))
  }

  lemma AcceptIsGood(s: Nf, out: set<TimerId>, p: Packet, forThisNode: bool, ctx: Ctx, cfg: Config)
    requires Supplied(out, ctx.nextTimer) && s.stateTimer < ctx.nextTimer && s.responseTimer < ctx.nextTimer
    requires s.rule.responses == map[] && p.msg.kind == CREATE
    ensures GoodAfter(Accept(s, p, ctx, cfg), out, MsgIn(p, forThisNode), ctx.nextTimer)
  {
  }

  lemma OpenIsGood(out: set<TimerId>, evt: Event, ctx: Ctx, cfg: Config)
    requires Supplied(out, ctx.nextTimer)
    ensures GoodAfter(Step(INITIAL, evt, ctx, cfg), out, evt, ctx.nextTimer)
  {
  }

  lemma CreateAgainIsGood(s: Nf, out: set<TimerId>, p: Packet, forThisNode: bool, ctx: Ctx, cfg: Config, passOn: bool)
    requires Good(s, out, ctx.nextTimer) && Supplied(out, ctx.nextTimer) && Pends(s) && p.msg.kind == CREATE
    ensures GoodAfter(StepCreateAgain(s, p, ctx, cfg, passOn), out, MsgIn(p, forThisNode), ctx.nextTimer)
  {
    var msn, lifetime := p.msg.msn.GetOr(0), p.msg.lifetime.GetOr(0);
    AcceptIsGood(s.(lifetime := lifetime, msn := msn), out, p, forThisNode, ctx, cfg);
  }

  lemma PendingCheckStaysGood(s: Nf, out: set<TimerId>, evt: Event, ctx: Ctx, cfg: Config)
    requires Good(s, out, ctx.nextTimer) && Supplied(out, ctx.nextTimer) && s.state == PENDING_CHECK
    requires evt.Timer? ==> evt.id in out
    ensures GoodAfter(StepPendingCheck(s, evt, ctx, cfg), out, evt, ctx.nextTimer)
  {
    if evt.Is(CREATE) {
      CreateAgainIsGood(s, out, evt.packet, evt.forThisNode, ctx, cfg, false);
    }
  }

  lemma PendingStaysGood(s: Nf, out: set<TimerId>, evt: Event, ctx: Ctx, cfg: Config)
    requires Good(s, out, ctx.nextTimer) && Supplied(out, ctx.nextTimer) && s.state == PENDING
    requires evt.Timer? ==> evt.id in out
    ensures GoodAfter(StepPending(s, evt, ctx, cfg), out, evt, ctx.nextTimer)
  {
    if evt.Is(CREATE) {
      CreateAgainIsGood(s, out, evt.packet, evt.forThisNode, ctx, cfg, true);
    }
  }

  lemma PendingInstallingStaysGood(s: Nf, out: set<TimerId>, evt: Event, ctx: Ctx, cfg: Config)
    requires Good(s, out, ctx.nextTimer) && Supplied(out, ctx.nextTimer) && s.state == PENDING_INSTALLING
    requires evt.Timer? ==> evt.id in out
    ensures GoodAfter(StepPendingInstalling(s, evt, ctx, cfg), out, evt, ctx.nextTimer)
  {
    if evt.Is(CREATE) {
      CreateAgainIsGood(s, out, evt.packet, evt.forThisNode, ctx, cfg, true);
    }
  }

  lemma AlarmStaysGood(s: Nf, out: set<TimerId>, evt: Event, ctx: Ctx)
    requires Good(s, out, ctx.nextTimer) && Supplied(out, ctx.nextTimer) && s.state == AUCTIONING
    requires evt.Timer? && evt.id in out
    ensures GoodAfter(StepAuctioning(s, evt, ctx), out, evt, ctx.nextTimer)
  {
  }

  lemma MessageStaysGood(s: Nf, out: set<TimerId>, evt: Event, ctx: Ctx)
    requires Good(s, out, ctx.nextTimer) && Supplied(out, ctx.nextTimer) && s.state == AUCTIONING && evt.MsgIn?
    ensures GoodAfter(StepAuctioning(s, evt, ctx), out, evt, ctx.nextTimer)
  {
  }

  lemma AuctioningStaysGood(s: Nf, out: set<TimerId>, evt: Event, ctx: Ctx)
    requires Good(s, out, ctx.nextTimer) && Supplied(out, ctx.nextTimer) && s.state == AUCTIONING && !evt.Timer?
    ensures GoodAfter(StepAuctioning(s, evt, ctx), out, evt, ctx.nextTimer)
  {
    if evt.MsgIn? {
      MessageStaysGood(s, out, evt, ctx);
    }
  }

  lemma PendingTeardownStaysGood(s: Nf, out: set<TimerId>, evt: Event, ctx: Ctx)
    requires Good(s, out, ctx.nextTimer) && Supplied(out, ctx.nextTimer) && s.state == PENDING_TEARDOWN
    requires evt.Timer? ==> evt.id in out
    ensures GoodAfter(StepPendingTeardown(s, evt, ctx), out, evt, ctx.nextTimer)
  {
  }

  /** Every event leaves an open session with a live state timer, its saved messages, and a consistent rule. */
  lemma StepStaysGood(s: Nf, out: set<TimerId>, evt: Event, ctx: Ctx, cfg: Config)
    requires Good(s, out, ctx.nextTimer) && Supplied(out, ctx.nextTimer) && (s.state == CLOSE ==> s == INITIAL)
    requires evt.Timer? ==> evt.id in out
    ensures GoodAfter(Step(s, evt, ctx, cfg), out, evt, ctx.nextTimer)
  {
    match s.state
    case CLOSE => OpenIsGood(out, evt, ctx, cfg);
    case PENDING_CHECK => PendingCheckStaysGood(s, out, evt, ctx, cfg);
    case PENDING => PendingStaysGood(s, out, evt, ctx, cfg);
    case PENDING_INSTALLING => PendingInstallingStaysGood(s, out, evt, ctx, cfg);
    case AUCTIONING =>
      if evt.Timer? {
        AlarmStaysGood(s, out, evt, ctx);
      } else {
        AuctioningStaysGood(s, out, evt, ctx);
      }
    case PENDING_TEARDOWN => PendingTeardownStaysGood(s, out, evt, ctx);
  }

  // Halting

  /** A CREATE that is neither a shutdown nor a retransmission replaces the one that is pending. */
  predicate Replaces(s: Nf, p: Packet) {
    && p.msg.kind == CREATE && s.lastCreate.Some?
    && var previous := s.lastCreate.value.msg.msn.GetOr(0);
       var msn := p.msg.msn.GetOr(0);
       msn != previous && (msn > previous ==> p.msg.lifetime.GetOr(0) != 0)
  }

  /** A CREATE whose direction or whose objects fail an assertion when it is accepted. */
  predicate Unusable(p: Packet) {
    p.mri.pathCoupled && (!p.mri.downstream || p.msg.MspecObjects().None?)
  }

  /** Where a failed assertion, a null pointer or a missing return stops the daemon. */
  predicate Stops(s: Nf, evt: Event, cfg: Config) {
    match s.state
    case CLOSE => !evt.Is(CREATE) || (Unusable(evt.packet) && evt.packet.msg.lifetime.GetOr(0) > 0 && cfg.nfMaxLifetime > 0)
    case AUCTIONING =>
      if evt.Is(BIDDING) then evt.forThisNode && evt.packet.msg.MspecObjects().None?
      else s.lastRefresh.None? && !evt.Is(REFRESH) && !evt.NoNextNode? && !evt.Timer? && !evt.RouteBad?
    case PENDING_TEARDOWN => evt.Is(BIDDING) && evt.forThisNode && evt.packet.msg.MspecObjects().None?
    case _ => evt.Is(CREATE) && Replaces(s, evt.packet) && Unusable(evt.packet)
  }

  lemma AcceptStops(s: Nf, p: Packet, ctx: Ctx, cfg: Config)
    ensures Accept(s, p, ctx, cfg).Halted? <==> Unusable(p)
  {
  }

  lemma PendsStops(s: Nf, stateLive: bool, evt: Event, ctx: Ctx, cfg: Config)
    requires Inv(s, stateLive) && Pends(s)
    ensures Step(s, evt, ctx, cfg).Halted? <==> Stops(s, evt, cfg)
  {
    if evt.Is(CREATE) {
      var p := evt.packet;
      AcceptStops(s.(lifetime := p.msg.lifetime.GetOr(0), msn := p.msg.msn.GetOr(0)), p, ctx, cfg);
    }
  }

  lemma StopsExactly(s: Nf, stateLive: bool, evt: Event, ctx: Ctx, cfg: Config)
    requires Inv(s, stateLive)
    ensures Step(s, evt, ctx, cfg).Halted? <==> Stops(s, evt, cfg)
  {
    if Pends(s) {
      PendsStops(s, stateLive, evt, ctx, cfg);
    }
  }

  // The lifetime cap

  /** The one event that lifts the lifetime over the cap. */
  predicate Lifts(s: Nf, evt: Event) {
    Pends(s) && evt.Is(CREATE) && Replaces(s, evt.packet) && evt.packet.msg.lifetime.GetOr(0) > s.maxLifetime
  }

  lemma PendingKeepsCap(s: Nf, evt: Event, ctx: Ctx, cfg: Config)
    requires s.lifetime <= s.maxLifetime && Pends(s)
    ensures var o := Step(s, evt, ctx, cfg); o.Next? ==> (o.s.lifetime > o.s.maxLifetime <==> Lifts(s, evt))
  {
  }

  lemma OthersKeepCap(s: Nf, evt: Event, ctx: Ctx, cfg: Config)
    requires s.lifetime <= s.maxLifetime && !Pends(s) && (s.state == CLOSE ==> s == INITIAL)
    ensures var o := Step(s, evt, ctx, cfg); o.Next? ==> o.s.lifetime <= o.s.maxLifetime
  {
  }

  /** A first CREATE and a REFRESH are capped; exactly a replacing CREATE can lift the lifetime over the cap. */
  lemma CapIsKeptUnlessReplaced(s: Nf, evt: Event, ctx: Ctx, cfg: Config)
    requires s.lifetime <= s.maxLifetime && (s.state == CLOSE ==> s == INITIAL)
    ensures var o := Step(s, evt, ctx, cfg);
            o.Next? ==> (o.s.lifetime > o.s.maxLifetime <==>
                           Pends(s) && evt.Is(CREATE) && Replaces(s, evt.packet) && evt.packet.msg.lifetime.GetOr(0) > s.maxLifetime)
  {
    if Pends(s) {
      PendingKeepsCap(s, evt, ctx, cfg);
    } else {
      OthersKeepCap(s, evt, ctx, cfg);
    }
  }

  // The direction of the error after a failed installation

  /**
   * When fewer or more objects are installed than were requested, the REFRESH that tears the path down goes downstream,
   * and the error goes against the direction of the stored response: upstream, to the initiator that it is meant for,
   * exactly when that response was itself marked as going downstream.
   */
  lemma InstallErrorDirection(s: Nf, stateLive: bool, installed: Objects, ctx: Ctx, cfg: Config)
    requires Inv(s, stateLive) && s.state == PENDING_INSTALLING && |installed| != |s.rule.requests|
    ensures var o := Step(s, ApiInstall(installed), ctx, cfg);
            && o.Next? && o.s.state == CLOSE && |o.ctx.log| == |ctx.log| + 2 && o.ctx.log[..|ctx.log|] == ctx.log
            && o.ctx.log[|ctx.log|]
               == Sent(Packet(Msg(REFRESH, Some(Increment(s.msn)), Some(0), None, None, None, []), Mri(true, true)))
            && var error := o.ctx.log[|ctx.log| + 1];
               && error == Sent(CreateResponse(s.lastResponse.value, INTERNAL_ERROR))
               && (!error.packet.mri.downstream <==> s.lastResponse.value.mri.downstream)
  {
  }

  /** PENDING accepts a success response whatever its direction, so neither case is excluded by the machine alone. */
  lemma ResponseOfAnyDirection(s: Nf, response: Packet, forThisNode: bool, ctx: Ctx, cfg: Config)
    requires s.state == PENDING && s.lastCreate.Some? && MsgIn(response, forThisNode).Answers(s.lastCreate.value)
    requires response.msg.IsSuccess() && ctx.verdict.Accepts?
    ensures var o := Step(s, MsgIn(response, forThisNode), ctx, cfg);
            o.Next? && o.s.state == PENDING_INSTALLING && o.s.lastResponse == Some(response)
  {
  }

  // Alarms

  /** How many more alarms a session can take before it closes. */
  function Rank(s: Nf): nat {
    match s.state
    case CLOSE => 0
    case AUCTIONING => 2
    case _ => 1
  }

  /** An alarm is stale when it is neither of the timers that the state listens to. */
  predicate Stale(s: Nf, id: TimerId) {
    id != s.stateTimer && (s.state == AUCTIONING ==> id != s.responseTimer)
  }

  /** A stale alarm changes nothing; a live one starts at most one timer and brings the session closer to its end. */
  predicate AlarmOk(s: Nf, id: TimerId, ctx: Ctx, o: Outcome<Nf>) {
    var from := ctx.nextTimer;
    && !o.Halted?
    && (o.Next? ==>
          && from <= o.ctx.nextTimer <= from + 1
          && (if Stale(s, id) then o == Next(s, ctx) else Rank(o.s) < Rank(s)))
    && (o.Threw? ==> from <= o.ctx.nextTimer <= from + 1 && !Stale(s, id))
  }

  lemma AlarmStep(s: Nf, stateLive: bool, id: TimerId, ctx: Ctx, cfg: Config)
    requires Inv(s, stateLive) && s.state != CLOSE
    ensures AlarmOk(s, id, ctx, Step(s, Timer(id), ctx, cfg))
  {
  }
}
