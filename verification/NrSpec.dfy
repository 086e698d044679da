/** The transition function of a responder session. */
module NrSpec {
  import opened Bytes
  import opened Protocol
  import opened SerialNumber

  datatype State = CLOSE | PENDING | PENDING_INSTALLING | AUCTIONING | PENDING_TEARDOWN

  datatype Nr = Nr(
    state: State, msn: uint32, biddingMsn: uint32, lifetime: uint32, maxLifetime: uint32,
    createCounter: uint32, maxRetries: uint32, stateTimer: TimerId,
    mri: Option<Mri>, lastCreate: Option<Packet>, rule: Rule)

  function Initial(cfg: Config, biddingMsn: uint32): Nr {
    Nr(CLOSE, 0, biddingMsn, 0, cfg.nrMaxLifetime, 0, cfg.nrMaxRetries, STOPPED, None, None, EMPTY_RULE)
  }

  function StartStateTimer(s: Nr, ctx: Ctx, seconds: nat): (Nr, Ctx) {
    (s.(stateTimer := ctx.nextTimer), ctx.Start(seconds))
  }

  function Stay(s: Nr, ctx: Ctx): Outcome<Nr> {
    Next(s, ctx)
  }

  /** save_auction_rule up to the call of the installer: the objects of the CREATE replace the requests. */
  function SaveRequests(s: Nr, objects: seq<Payload>, ctx: Ctx): (Nr, Ctx) {
    (s.(rule := s.rule.(requests := Assign(ctx.nextKey, objects))), ctx.TakeKeys(|objects|))
  }

  predicate Checks(create: Msg, cfg: Config) {
    Participates(RECEIVER, create.sel.GetOr(0)) && cfg.installRules
  }

  // STATE_ANSLP_CLOSE

  function StepClose(s: Nr, evt: Event, ctx: Ctx, cfg: Config): Outcome<Nr> {
    if !evt.Is(CREATE) then Stay(s, ctx)
    else
      var p := evt.packet;
      var lifetime := Min(p.msg.lifetime.GetOr(0), s.maxLifetime);
      var s1 := s.(mri := Some(p.mri), lastCreate := Some(p));
      if lifetime == 0 then Next(s1, ctx.Send(CreateResponse(p, CONFIGURATION_FAILED)))
      else Accept(s1.(lifetime := lifetime, msn := p.msg.msn.GetOr(0)), p, ctx, cfg)
  }

  function Accept(s: Nr, p: Packet, ctx: Ctx, cfg: Config): Outcome<Nr> {
    if !p.mri.pathCoupled then Threw(ctx)
    else
      match p.msg.MspecObjects()
      case None => Halted
      case Some(objects) =>
        var (s1, c1) := SaveRequests(s, objects, ctx);
        if Checks(p.msg, cfg) then
          var c2 := c1.Do(Checked(s1.rule.requests));
          if c2.verdict.Rejects? then Next(s1, c2.Send(CreateResponse(p, CONFIGURATION_FAILED)))
          else
            var (s2, c3) := StartStateTimer(s1.(createCounter := (s1.createCounter + 1) % TWO_32), c2, s.lifetime);
            Next(s2.(state := PENDING), c3)
        else
          var (s2, c2) := StartStateTimer(s1.(rule := EMPTY_RULE), c1.Send(CreateSuccessResponse(p, s.lifetime)), s.lifetime);
          Next(s2.(state := AUCTIONING), c2)
  }

  // STATE_ANSLP_PENDING

  function StepCheckUnanswered(s: Nr, ctx: Ctx, cfg: Config): Outcome<Nr> {
    match s.lastCreate
    case None => Halted
    case Some(create) =>
      if s.createCounter < s.maxRetries then
        match create.msg.MspecObjects()
        case None => Halted
        case Some(objects) =>
          var (s1, c1) := SaveRequests(s.(createCounter := s.createCounter + 1), objects, ctx);
          var c2 := if Checks(create.msg, cfg) then c1.Do(Checked(s1.rule.requests)) else c1;
          if Checks(create.msg, cfg) && c2.verdict.Rejects? then Threw(c2)
          else
            var (s2, c3) := StartStateTimer(s1, c2, s.lifetime);
            Next(s2, c3)
      else Next(s.(state := CLOSE), ctx.Send(CreateResponse(create, INTERNAL_ERROR)))
  }

  function StepChecked(s: Nr, keys: set<Key>, ctx: Ctx): Outcome<Nr> {
    var s1 := s.(rule := s.rule.(requests := Keep(s.rule.requests, keys)), createCounter := 0);
    var c1 := ctx.Do(Installed(s1.rule));
    if c1.verdict.Rejects? then Threw(c1)
    else
      var (s2, c2) := StartStateTimer(s1, c1, s.lifetime);
      Next(s2.(state := PENDING_INSTALLING), c2)
  }

  function StepPending(s: Nr, evt: Event, ctx: Ctx, cfg: Config): Outcome<Nr> {
    if evt.NoNextNode? || evt == Timer(s.stateTimer) then StepCheckUnanswered(s, ctx, cfg)
    else if evt.ApiCheck? then StepChecked(s, evt.keys, ctx)
    else Stay(s, ctx)
  }

  // STATE_ANSLP_PENDING_INSTALLING

  function StepInstallUnanswered(s: Nr, ctx: Ctx): Outcome<Nr> {
    if s.createCounter < s.maxRetries then
      var c1 := ctx.Do(Installed(s.rule));
      if c1.verdict.Rejects? then Threw(c1)
      else
        var (s1, c2) := StartStateTimer(s.(createCounter := s.createCounter + 1), c1, s.lifetime);
        Next(s1, c2)
    else
      match s.lastCreate
      case None => Halted
      case Some(create) => Next(s.(state := CLOSE), ctx.Send(CreateResponse(create, INTERNAL_ERROR)))
  }

  function StepInstalled(s: Nr, objects: Objects, ctx: Ctx, cfg: Config): Outcome<Nr> {
    match s.lastCreate
    case None => Halted
    case Some(create) =>
      if |s.rule.requests| == |objects| then
        var s1 := s.(rule := s.rule.(responses := Install(s.rule.responses, ctx.nextKey, objects)));
        var response := ExtendResponse(CreateSuccessResponse(create, s.lifetime), s1.rule.responses);
        var (s2, c) := StartStateTimer(s1, ctx.TakeKeys(|objects|).Send(response), s.lifetime);
        Next(s2.(state := AUCTIONING), c)
      else
        var c1 := if |s.rule.responses| > 0 then ctx.Do(Removed(s.rule)) else ctx;
        if |s.rule.responses| > 0 && c1.verdict.Rejects? then Threw(c1)
        else
          var c2 := c1.Send(CreateResponse(create, INTERNAL_ERROR));
          var (s2, c3) := StartStateTimer(s.(lifetime := 0), c2, cfg.nrResponseTimeout);
          Next(s2.(state := PENDING_TEARDOWN), c3)
  }

  function StepPendingInstalling(s: Nr, evt: Event, ctx: Ctx, cfg: Config): Outcome<Nr> {
    if evt == Timer(s.stateTimer) then StepInstallUnanswered(s, ctx)
    else if evt.ApiInstall? then StepInstalled(s, evt.installed, ctx, cfg)
    else Stay(s, ctx)
  }

  // STATE_ANSLP_AUCTIONING

  /** Uninstall the rule and wait for the confirmation; close at once when nothing was installed. */
  function Teardown(s: Nr, ctx: Ctx, cfg: Config): Outcome<Nr> {
    if |s.rule.responses| == 0 then Next(s.(stateTimer := STOPPED, state := CLOSE), ctx)
    else
      var c1 := ctx.Do(Removed(s.rule));
      if c1.verdict.Rejects? then Threw(c1)
      else
        var (s1, c2) := StartStateTimer(s, c1, cfg.nrResponseTimeout);
        Next(s1.(state := PENDING_TEARDOWN), c2)
  }

  function StepRefresh(s: Nr, p: Packet, ctx: Ctx, cfg: Config): Outcome<Nr> {
    var lifetime := Min(p.msg.lifetime.GetOr(0), s.maxLifetime);
    var msn := p.msg.msn.GetOr(0);
    if !IsGreaterThan(msn, s.msn) then Stay(s, ctx)
    else
      var c1 := ctx.Send(CreateSuccessResponse(p, lifetime));
      if lifetime > 0 then
        var (s1, c2) := StartStateTimer(s.(lifetime := lifetime, msn := msn), c1, lifetime);
        Next(s1, c2)
      else Teardown(s, c1, cfg)
  }

  function StepBiddingIn(s: Nr, p: Packet, forThisNode: bool, ctx: Ctx): Outcome<Nr> {
    if !forThisNode then Stay(s, ctx)
    else
      match p.msg.MspecObjects()
      case None => Halted
      case Some(objects) =>
        var c := ctx.Do(Interacted(true, objects));
        if c.verdict.Rejects? then Threw(c) else Next(s, c)
  }

  function StepBiddingOut(s: Nr, objects: seq<Payload>, hasQueue: bool, ctx: Ctx): Outcome<Nr> {
    match s.mri
    case None => Halted
    case Some(mri) =>
      var msn := Increment(s.biddingMsn);
      var bidding := Packet(Msg(BIDDING, Some(msn), None, None, None, None, objects), mri.Inverted());
      var c := ctx.Send(bidding);
      Next(s.(biddingMsn := msn), if hasQueue then c.Do(Enqueued) else c)
  }

  function StepAuctioning(s: Nr, evt: Event, ctx: Ctx, cfg: Config): Outcome<Nr> {
    if evt.Is(REFRESH) then StepRefresh(s, evt.packet, ctx, cfg)
    else if evt.Is(BIDDING) then StepBiddingIn(s, evt.packet, evt.forThisNode, ctx)
    else if evt.ApiBidding? then StepBiddingOut(s, evt.objects, evt.hasQueue, ctx)
    else if evt == Timer(s.stateTimer) then Teardown(s, ctx, cfg)
    else Stay(s, ctx)
  }

  // STATE_ANSLP_PENDING_TEARDOWN

  function StepPendingTeardown(s: Nr, evt: Event, ctx: Ctx, cfg: Config): Outcome<Nr> {
    if evt == Timer(s.stateTimer) then
      if s.createCounter < s.maxRetries then
        var c1 := ctx.Do(Removed(s.rule));
        if c1.verdict.Rejects? then Threw(c1)
        else
          var (s1, c2) := StartStateTimer(s.(createCounter := s.createCounter + 1), c1, cfg.nrResponseTimeout);
          Next(s1, c2)
      else Next(s.(state := CLOSE), ctx)
    else if evt.ApiBidding? then StepBiddingOut(s, evt.objects, evt.hasQueue, ctx)
    else if evt.ApiRemove? then Next(s.(stateTimer := STOPPED, state := CLOSE), ctx)
    else Stay(s, ctx)
  }

  function Step(s: Nr, evt: Event, ctx: Ctx, cfg: Config): Outcome<Nr> {
    match s.state
    case CLOSE => StepClose(s, evt, ctx, cfg)
    case PENDING => StepPending(s, evt, ctx, cfg)
    case PENDING_INSTALLING => StepPendingInstalling(s, evt, ctx, cfg)
    case AUCTIONING => StepAuctioning(s, evt, ctx, cfg)
    case PENDING_TEARDOWN => StepPendingTeardown(s, evt, ctx, cfg)
  }
}
