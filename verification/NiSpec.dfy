/** The transition function of an initiator session. */
module NiSpec {
  import opened Bytes
  import opened Protocol
  import opened SerialNumber

  datatype State = CLOSE | PENDING | PENDING_INSTALLING | AUCTIONING | PENDING_TEARDOWN

  datatype Ni = Ni(
    state: State, msn: uint32, hopCount: uint32,
    lastCreate: Option<Packet>, lastRefresh: Option<Packet>, installRule: Rule, rule: Rule,
    lifetime: uint32, refreshInterval: nat, responseTimeout: nat,
    createCounter: uint32, refreshCounter: uint32, teardownCounter: uint32, maxRetries: uint32,
    responseTimer: TimerId, refreshTimer: TimerId)

  const DOWNSTREAM := Mri(true, true)

  /** A new session; the constructor draws the sequence number and leaves the teardown counter unset. */
  function Initial(cfg: Config, msn: uint32, teardownCounter: uint32): Ni {
    Ni(CLOSE, msn, cfg.niHopCount, None, None, EMPTY_RULE, EMPTY_RULE, 0, 20, cfg.niResponseTimeout,
       0, 0, teardownCounter, cfg.niMaxRetries, STOPPED, STOPPED)
  }

  function CeilDiv(a: nat, b: nat): nat
    requires b > 0
  {
    (a + b - 1) / b
  }

  /** ceil(lifetime / ((maxRetries + 0.5) * 1.5)) */
  function RefreshInterval(lifetime: uint32, maxRetries: uint32): nat {
    CeilDiv(4 * lifetime, 3 * (2 * maxRetries + 1))
  }

  /** ceil((random / 1000.0 + 0.5) * interval) */
  function ResponseTimeout(interval: nat, random: nat): nat {
    CeilDiv((random + 500) * interval, 1000)
  }

  function BuildRefresh(s: Ni): (Ni, Packet) {
    var msn := Increment(s.msn);
    (s.(msn := msn), Packet(Msg(REFRESH, Some(msn), Some(s.lifetime), None, None, None, []), DOWNSTREAM))
  }

  function BuildBidding(s: Ni, objects: seq<Payload>): (Ni, Packet) {
    var msn := Increment(s.msn);
    (s.(msn := msn), Packet(Msg(BIDDING, Some(msn), None, None, None, None, objects), DOWNSTREAM))
  }

  function StartResponseTimer(s: Ni, ctx: Ctx): (Ni, Ctx) {
    (s.(responseTimer := ctx.nextTimer), ctx.Start(s.responseTimeout))
  }

  function Stay(s: Ni, ctx: Ctx): Outcome<Ni> {
    Next(s, ctx)
  }

  // STATE_ANSLP_CLOSE

  function StepClose(s: Ni, evt: Event, ctx: Ctx, random: nat): Outcome<Ni> {
    if !evt.ApiCreate? then Stay(s, ctx)
    else
      var lifetime := if evt.lifetime != 0 then evt.lifetime else s.lifetime;
      var r := RefreshInterval(lifetime, s.maxRetries);
      if r == 0 then Halted
      else Open(s.(lifetime := lifetime, refreshInterval := r, responseTimeout := ResponseTimeout(r, random)), evt, ctx)
  }

  /** The part of the handler after setup_session. */
  function Open(s: Ni, evt: Event, ctx: Ctx): Outcome<Ni>
    requires evt.ApiCreate?
  {
    var msn := Increment(s.msn);
    var create := Packet(Msg(CREATE, Some(msn), Some(Min(s.lifetime, evt.lifetime)), Some(evt.sel), Some(s.hopCount),
                             None, evt.objects), DOWNSTREAM);
    var (s1, c) := StartResponseTimer(s.(msn := msn, lastCreate := Some(create)), ctx.Send(create));
    if evt.hasQueue then Next(s1.(state := PENDING), c.Do(Enqueued)) else Next(s1, c)
  }

  // STATE_ANSLP_PENDING

  function StepPending(s: Ni, evt: Event, ctx: Ctx): Outcome<Ni> {
    if evt == Timer(s.responseTimer) then
      if s.createCounter < s.maxRetries then
        match s.lastCreate
        case None => Halted
        case Some(create) =>
          var (s1, c) := StartResponseTimer(s.(createCounter := s.createCounter + 1), ctx.Send(create));
          Next(s1, c)
      else Next(s.(state := CLOSE), ctx)
    else if evt.NoNextNode? then Next(s.(state := CLOSE), ctx)
    else if evt.ApiTeardown? then
      var (s1, refresh) := BuildRefresh(s.(lifetime := 0, lastCreate := None));
      Next(s1.(state := CLOSE), ctx.Send(refresh))
    else if evt.Timer? then Stay(s, ctx)
    else
      match s.lastCreate
      case None => Halted
      case Some(create) =>
        if evt.Answers(create) then StepCreateAnswered(s, evt.packet.msg, ctx) else Stay(s, ctx)
  }

  function StepCreateAnswered(s: Ni, resp: Msg, ctx: Ctx): Outcome<Ni> {
    if !resp.IsSuccess() then Next(s.(state := CLOSE), ctx)
    else
      var (s1, c1) := StartResponseTimer(s, ctx);
      var lifetime := resp.lifetime.GetOr(0);
      var s2 := if lifetime == s.lifetime then s1
                else s1.(lifetime := lifetime, refreshInterval := lifetime * 2 % TWO_32 / 3);
      match resp.MspecObjects()
      case None => Halted
      case Some(objects) =>
        var rule := Rule(Assign(c1.nextKey, objects), map[]);
        var c2 := c1.TakeKeys(|objects|).Do(Responded(rule));
        if c2.verdict.Rejects? then Threw(c2)
        else Next(s2.(createCounter := 0, installRule := rule, state := PENDING_INSTALLING), c2)
  }

  // STATE_ANSLP_PENDING_INSTALLING

  /** Give the installation up: remove what was installed, tell the path, and close. */
  function Abandon(s: Ni, ctx: Ctx): Outcome<Ni> {
    var s1 := s.(lifetime := 0, lastCreate := None);
    var c1 := if |s.installRule.responses| > 0 then ctx.Do(Removed(s.installRule)) else ctx;
    if |s.installRule.responses| > 0 && c1.verdict.Rejects? then Threw(c1)
    else
      var (s2, refresh) := BuildRefresh(s1);
      Next(s2.(state := CLOSE), c1.Send(refresh))
  }

  function StepPendingInstalling(s: Ni, evt: Event, ctx: Ctx): Outcome<Ni> {
    if evt == Timer(s.responseTimer) then
      if s.createCounter < s.maxRetries then
        var c1 := ctx.Do(Responded(s.installRule));
        if c1.verdict.Rejects? then Threw(c1)
        else
          var (s1, c2) := StartResponseTimer(s.(createCounter := s.createCounter + 1), c1);
          Next(s1, c2)
      else Abandon(s.(rule := EMPTY_RULE), ctx)
    else if evt.ApiTeardown? then Abandon(s, ctx)
    else if evt.ApiInstall? then
      if |s.installRule.requests| == |evt.installed| then
        Next(s.(rule := s.installRule.(responses := Install(s.installRule.responses, ctx.nextKey, evt.installed)),
                createCounter := 0, responseTimer := STOPPED, refreshTimer := ctx.nextTimer, state := AUCTIONING),
             ctx.TakeKeys(|evt.installed|).Start(s.refreshInterval))
      else Abandon(s.(rule := EMPTY_RULE), ctx)
    else Stay(s, ctx)
  }

  // STATE_ANSLP_AUCTIONING

  /** Uninstall the rule and wait for the confirmation; close at once when nothing was installed. */
  function Teardown(s: Ni, ctx: Ctx): Outcome<Ni> {
    var s1 := s.(teardownCounter := 0);
    if |s.rule.responses| == 0 then Next(s1.(responseTimer := STOPPED, state := CLOSE), ctx)
    else
      var c1 := ctx.Do(Removed(s.rule));
      if c1.verdict.Rejects? then Threw(c1)
      else
        var (s2, c2) := StartResponseTimer(s1, c1);
        Next(s2.(state := PENDING_TEARDOWN), c2)
  }

  function StepRefreshTimer(s: Ni, ctx: Ctx): Outcome<Ni> {
    var (s1, refresh) := BuildRefresh(s);
    var (s2, c) := StartResponseTimer(s1.(lastRefresh := Some(refresh), refreshCounter := 0), ctx.Send(refresh));
    Next(s2, c)
  }

  function StepRefreshUnanswered(s: Ni, ctx: Ctx): Outcome<Ni> {
    if s.refreshCounter < s.maxRetries then
      match s.lastRefresh
      case None => Halted
      case Some(refresh) =>
        var (s1, c) := StartResponseTimer(s.(refreshCounter := s.refreshCounter + 1), ctx.Send(refresh));
        Next(s1, c)
    else Teardown(s, ctx)
  }

  /** A bidding message goes to the local client; errors of the installer are caught here. */
  function StepBiddingIn(s: Ni, bidding: Msg, ctx: Ctx): Outcome<Ni> {
    match bidding.MspecObjects()
    case None => Halted
    case Some(objects) => Stay(s, ctx.Do(Interacted(false, objects)))
  }

  function StepBiddingOut(s: Ni, objects: seq<Payload>, ctx: Ctx): Outcome<Ni> {
    var (s1, bidding) := BuildBidding(s, objects);
    Next(s1, ctx.Send(bidding))
  }

  function StepRefreshAnswered(s: Ni, resp: Msg, ctx: Ctx): Outcome<Ni> {
    if !resp.IsSuccess() || s.lifetime == 0 then Teardown(s, ctx)
    else
      Next(s.(responseTimer := STOPPED, refreshTimer := ctx.nextTimer, refreshCounter := 0), ctx.Start(s.refreshInterval))
  }

  function StepAuctioning(s: Ni, evt: Event, ctx: Ctx): Outcome<Ni> {
    if evt.ApiInstall? then Stay(s, ctx)
    else if evt == Timer(s.refreshTimer) then StepRefreshTimer(s, ctx)
    else if evt == Timer(s.responseTimer) then StepRefreshUnanswered(s, ctx)
    else if evt.ApiTeardown? then
      var (s1, refresh) := BuildRefresh(s.(lifetime := 0));
      Next(s1.(lastRefresh := Some(refresh)), ctx.Send(refresh))
    else if evt.ApiBidding? then StepBiddingOut(s, evt.objects, ctx)
    else if evt.Is(BIDDING) then StepBiddingIn(s, evt.packet.msg, ctx)
    else if evt.Timer? then Stay(s, ctx)
    else
      match s.lastRefresh
      case None => Halted
      case Some(refresh) =>
        if evt.Answers(refresh) then StepRefreshAnswered(s, evt.packet.msg, ctx) else Stay(s, ctx)
  }

  // STATE_ANSLP_PENDING_TEARDOWN

  function StepPendingTeardown(s: Ni, evt: Event, ctx: Ctx): Outcome<Ni> {
    if evt.ApiBidding? then StepBiddingOut(s, evt.objects, ctx)
    else if evt.Is(BIDDING) then StepBiddingIn(s, evt.packet.msg, ctx)
    else if evt == Timer(s.responseTimer) then
      if s.teardownCounter < s.maxRetries then
        var c1 := ctx.Do(Removed(s.rule));
        if c1.verdict.Rejects? then Threw(c1)
        else
          var (s1, c2) := StartResponseTimer(s.(teardownCounter := s.teardownCounter + 1), c1);
          Next(s1, c2)
      else Next(s.(state := CLOSE), ctx)
    else if evt.ApiRemove? then Next(s.(responseTimer := STOPPED, state := CLOSE), ctx)
    else Stay(s, ctx)
  }

  function Step(s: Ni, evt: Event, ctx: Ctx, random: nat): Outcome<Ni> {
    match s.state
    case CLOSE => StepClose(s, evt, ctx, random)
    case PENDING => StepPending(s, evt, ctx)
    case PENDING_INSTALLING => StepPendingInstalling(s, evt, ctx)
    case AUCTIONING => StepAuctioning(s, evt, ctx)
    case PENDING_TEARDOWN => StepPendingTeardown(s, evt, ctx)
  }
}
