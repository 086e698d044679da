/** What holds of an initiator session in every run. */
module NiTheorems {
  import opened Bytes
  import opened Protocol
  import opened SerialNumber
  import opened NiSpec

  // Timers and messages

  predicate Inv(s: Ni, responseLive: bool, refreshLive: bool) {
    && TimerDiscipline(s, responseLive, refreshLive)
    && s.installRule.responses == map[]
    && s.createCounter <= s.maxRetries && s.refreshCounter <= s.maxRetries
    && SavedMessages(s)
    && (s.state == PENDING ==> s.lastCreate.Some?)
    && (s.state == AUCTIONING ==> |s.rule.requests| == |s.rule.responses|)
    && (s.state == PENDING_TEARDOWN ==> |s.rule.responses| > 0 && s.teardownCounter <= s.maxRetries)
  }

  predicate IsWhole(m: Msg) {
    m.HasRequired() && m.HasOnlyRequired()
  }

  /** The messages that are kept for retransmission can be written. */
  predicate SavedMessages(s: Ni) {
    && (s.lastCreate.Some? ==> s.lastCreate.value.msg.kind == CREATE && IsWhole(s.lastCreate.value.msg))
    && (s.lastRefresh.Some? ==> s.lastRefresh.value.msg.kind == REFRESH && IsWhole(s.lastRefresh.value.msg))
  }

  /** Every open session has a live timer; while auctioning exactly one of its two timers is live. */
  predicate TimerDiscipline(s: Ni, responseLive: bool, refreshLive: bool) {
    match s.state
    case CLOSE => true
    case AUCTIONING => responseLive != refreshLive && (responseLive ==> s.lastRefresh.Some?)
    case _ => responseLive
  }

  /** The invariant of a session with the timer messages `out` under way and ids drawn below `next`. */
  predicate Good(s: Ni, out: set<TimerId>, next: TimerId) {
    s.responseTimer < next && s.refreshTimer < next && Inv(s, s.responseTimer in out, s.refreshTimer in out)
  }

  /** The invariant after one event. */
  predicate GoodAfter(o: Outcome<Ni>, out: set<TimerId>, evt: Event, from: TimerId) {
    o.Next? ==>
      && from <= o.ctx.nextTimer
      && o.s.responseTimer < o.ctx.nextTimer && o.s.refreshTimer < o.ctx.nextTimer
      && Inv(o.s, Live(out, evt, from, o.ctx.nextTimer, o.s.responseTimer), Live(out, evt, from, o.ctx.nextTimer, o.s.refreshTimer))
  }

  lemma InitialInv(cfg: Config, msn: uint32, teardownCounter: uint32, out: set<TimerId>, next: TimerId)
    requires Supplied(out, next)
    ensures Good(Initial(cfg, msn, teardownCounter), out, next)
  {
  }

  lemma CloseStaysGood(s: Ni, out: set<TimerId>, evt: Event, ctx: Ctx, random: nat)
    requires Good(s, out, ctx.nextTimer) && Supplied(out, ctx.nextTimer) && s.state == CLOSE
    requires evt.Timer? ==> evt.id in out
    ensures GoodAfter(StepClose(s, evt, ctx, random), out, evt, ctx.nextTimer)
  {
  }

  lemma PendingStaysGood(s: Ni, out: set<TimerId>, evt: Event, ctx: Ctx)
    requires Good(s, out, ctx.nextTimer) && Supplied(out, ctx.nextTimer) && s.state == PENDING
    requires evt.Timer? ==> evt.id in out
    ensures GoodAfter(StepPending(s, evt, ctx), out, evt, ctx.nextTimer)
  {
  }

  lemma PendingInstallingStaysGood(s: Ni, out: set<TimerId>, evt: Event, ctx: Ctx)
    requires Good(s, out, ctx.nextTimer) && Supplied(out, ctx.nextTimer) && s.state == PENDING_INSTALLING
    requires evt.Timer? ==> evt.id in out
    ensures GoodAfter(StepPendingInstalling(s, evt, ctx), out, evt, ctx.nextTimer)
  {
  }

  lemma AlarmStaysGood(s: Ni, out: set<TimerId>, evt: Event, ctx: Ctx)
    requires Good(s, out, ctx.nextTimer) && Supplied(out, ctx.nextTimer) && s.state == AUCTIONING
    requires evt.Timer? && evt.id in out
    ensures GoodAfter(StepAuctioning(s, evt, ctx), out, evt, ctx.nextTimer)
  {
  }

  lemma MessageStaysGood(s: Ni, out: set<TimerId>, evt: Event, ctx: Ctx)
    requires Good(s, out, ctx.nextTimer) && Supplied(out, ctx.nextTimer) && s.state == AUCTIONING && evt.MsgIn?
    ensures GoodAfter(StepAuctioning(s, evt, ctx), out, evt, ctx.nextTimer)
  {
  }

  lemma AuctioningStaysGood(s: Ni, out: set<TimerId>, evt: Event, ctx: Ctx)
    requires Good(s, out, ctx.nextTimer) && Supplied(out, ctx.nextTimer) && s.state == AUCTIONING && !evt.Timer?
    ensures GoodAfter(StepAuctioning(s, evt, ctx), out, evt, ctx.nextTimer)
  {
    if evt.MsgIn? {
      MessageStaysGood(s, out, evt, ctx);
    }
  }

  lemma PendingTeardownStaysGood(s: Ni, out: set<TimerId>, evt: Event, ctx: Ctx)
    requires Good(s, out, ctx.nextTimer) && Supplied(out, ctx.nextTimer) && s.state == PENDING_TEARDOWN
    requires evt.Timer? ==> evt.id in out
    ensures GoodAfter(StepPendingTeardown(s, evt, ctx), out, evt, ctx.nextTimer)
  {
  }

  lemma StepStaysGood(s: Ni, out: set<TimerId>, evt: Event, ctx: Ctx, random: nat)
    requires Good(s, out, ctx.nextTimer) && Supplied(out, ctx.nextTimer)
    requires evt.Timer? ==> evt.id in out
    ensures GoodAfter(Step(s, evt, ctx, random), out, evt, ctx.nextTimer)
  {
    match s.state
    case CLOSE => CloseStaysGood(s, out, evt, ctx, random);
    case PENDING => PendingStaysGood(s, out, evt, ctx);
    case PENDING_INSTALLING => PendingInstallingStaysGood(s, out, evt, ctx);
    case AUCTIONING =>
      if evt.Timer? {
        AlarmStaysGood(s, out, evt, ctx);
      } else {
        AuctioningStaysGood(s, out, evt, ctx);
      }
    case PENDING_TEARDOWN => PendingTeardownStaysGood(s, out, evt, ctx);
  }

  // Halting

  /** Where a failed assertion or a null pointer stops the daemon. */
  predicate Stops(s: Ni, evt: Event) {
    match s.state
    case CLOSE => evt.ApiCreate? && evt.lifetime == 0 && s.lifetime == 0
    case PENDING => s.lastCreate.Some? && evt.Answers(s.lastCreate.value) && evt.packet.msg.IsSuccess() && evt.packet.msg.MspecObjects().None?
    case PENDING_INSTALLING => false
    case AUCTIONING =>
      if evt.Is(BIDDING) then evt.packet.msg.MspecObjects().None?
      else s.lastRefresh.None? && !evt.ApiInstall? && !evt.Timer? && !evt.ApiTeardown? && !evt.ApiBidding?
    case PENDING_TEARDOWN => evt.Is(BIDDING) && evt.packet.msg.MspecObjects().None?
  }

  /** The handlers stop in exactly these cases; retransmission in particular never misses its message. */
  lemma StopsExactly(s: Ni, responseLive: bool, refreshLive: bool, evt: Event, ctx: Ctx, random: nat)
    requires Inv(s, responseLive, refreshLive)
    requires evt == Timer(s.responseTimer) ==> responseLive
    ensures Step(s, evt, ctx, random).Halted? <==> Stops(s, evt)
  {
    if s.state == CLOSE && evt.ApiCreate? {
      var lifetime := if evt.lifetime != 0 then evt.lifetime else s.lifetime;
      RefreshIntervalIsLeast(lifetime, s.maxRetries);
    }
  }

  // The refresh timer

  /** The interval of section 3.7 of RFC 2205: the least R with (K + 0.5) * 1.5 * R >= lifetime, multiplied by four. */
  lemma RefreshIntervalIsLeast(lifetime: uint32, maxRetries: uint32)
    ensures var r := RefreshInterval(lifetime, maxRetries);
            && 3 * (2 * maxRetries + 1) * r >= 4 * lifetime
            && (r > 0 ==> 3 * (2 * maxRetries + 1) * (r - 1) < 4 * lifetime)
            && (r == 0 <==> lifetime == 0)
  {
    CeilDivIsLeast(4 * lifetime, 3 * (2 * maxRetries + 1));
  }

  lemma CeilDivIsLeast(a: nat, b: nat)
    requires b > 0
    ensures b * CeilDiv(a, b) >= a
    ensures CeilDiv(a, b) > 0 ==> b * (CeilDiv(a, b) - 1) < a
    ensures CeilDiv(a, b) == 0 <==> a == 0
  {
    var q: int := CeilDiv(a, b);
    assert a + b - 1 == b * q + (a + b - 1) % b;
    assert b * (q - 1) == b * q - b;
    if q == 0 {
      assert b * q == 0;
    }
  }

  lemma Scaled(k: nat, bound: nat, n: nat)
    requires k <= bound
    ensures k * n <= bound * n
  {
    assert bound * n - k * n == (bound - k) * n;
  }

  /** The random response timeout lies between half and twice the refresh interval. */
  lemma ResponseTimeoutRange(interval: nat, random: nat)
    requires random < 1000
    ensures interval <= 2 * ResponseTimeout(interval, random) <= 4 * interval
  {
    var a := (random + 500) * interval;
    CeilDivIsLeast(a, 1000);
    Scaled(500, random + 500, interval);
    Scaled(random + 500, 1499, interval);
  }
}
