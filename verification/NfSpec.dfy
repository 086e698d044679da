/** The transition function of a forwarder session. */
module NfSpec {
  import opened Bytes
  import opened Protocol
  import opened SerialNumber

  datatype State = CLOSE | PENDING_CHECK | PENDING | PENDING_INSTALLING | AUCTIONING | PENDING_TEARDOWN

  datatype Nf = Nf(
    state: State, msn: uint32, lifetime: uint32, maxLifetime: uint32, responseTimeout: uint32,
    stateTimer: TimerId, responseTimer: TimerId, nrMri: Option<Mri>,
    lastCreate: Option<Packet>, lastRefresh: Option<Packet>, lastResponse: Option<Packet>, rule: Rule)

  const INITIAL := Nf(CLOSE, 0, 0, 0, 0, STOPPED, STOPPED, None, None, None, None, EMPTY_RULE)

  function StartStateTimer(s: Nf, ctx: Ctx, seconds: nat): (Nf, Ctx) {
    (s.(stateTimer := ctx.nextTimer), ctx.Start(seconds))
  }

  function StartResponseTimer(s: Nf, ctx: Ctx): (Nf, Ctx) {
    (s.(responseTimer := ctx.nextTimer), ctx.Start(s.responseTimeout))
  }

  function Stay(s: Nf, ctx: Ctx): Outcome<Nf> {
    Next(s, ctx)
  }

  /** The CREATE for the next node: the smaller lifetime, and every object of the CREATE received. */
  function BuildCreate(s: Nf, create: Msg, objects: seq<Payload>, mri: Mri): Packet {
    Packet(Msg(CREATE, Some(create.msn.GetOr(0)), Some(Min(s.lifetime, create.lifetime.GetOr(0))),
               Some(create.sel.GetOr(0)), Some(create.hop.GetOr(0)), None, objects), mri)
  }

  // STATE_ANSLP_CLOSE

  /** process_state_close: save the CREATE and its objects, then check them or pass them on. */
  function Accept(s: Nf, p: Packet, ctx: Ctx, cfg: Config): Outcome<Nf> {
    var s1 := s.(lastCreate := Some(p));
    if !p.mri.pathCoupled then
      Next(s1.(state := CLOSE), ctx.Send(CreateResponse(p, CONFIGURATION_FAILED)))
    else if !p.mri.downstream then Halted
    else
      match p.msg.MspecObjects()
      case None => Halted
      case Some(objects) =>
        var s2 := s1.(nrMri := Some(p.mri), rule := s1.rule.(requests := Assign(ctx.nextKey, objects)));
        var c1 := ctx.TakeKeys(|objects|);
        if Participates(FORWARDER, p.msg.sel.GetOr(0)) && cfg.installRules then
          var c2 := c1.Do(Checked(s2.rule.requests));
          match c2.verdict
          case Rejects(code) => Next(s2.(state := CLOSE), c2.Send(CreateResponse(p, code)))
          case Accepts =>
            var (s3, c3) := StartStateTimer(s2, c2, s2.lifetime);
            Next(s3.(state := PENDING_CHECK), c3)
        else
          var (s3, c3) := StartStateTimer(s2, c1.Send(BuildCreate(s2, p.msg, objects, p.mri)), s2.lifetime);
          Next(s3.(state := PENDING), c3)
  }

  /** The handler has no return for any other event than a CREATE. */
  function StepClose(s: Nf, evt: Event, ctx: Ctx, cfg: Config): Outcome<Nf> {
    if !evt.Is(CREATE) then Halted
    else
      var create := evt.packet.msg;
      var s1 := s.(maxLifetime := cfg.nfMaxLifetime, responseTimeout := cfg.nfMaxLifetime);
      var lifetime := Min(create.lifetime.GetOr(0), s1.maxLifetime);
      if lifetime == 0 then Next(s1, ctx)
      else Accept(s1.(lifetime := lifetime, msn := create.msn.GetOr(0)), evt.packet, ctx, cfg)
  }

  // The three pending states

  /** A CREATE that arrives while the first one is pending: shut down, retransmission, or replacement. */
  function StepCreateAgain(s: Nf, p: Packet, ctx: Ctx, cfg: Config, passOn: bool): Outcome<Nf> {
    match s.lastCreate
    case None => Halted
    case Some(previous) =>
      var msn, lifetime := p.msg.msn.GetOr(0), p.msg.lifetime.GetOr(0);
      if msn > previous.msg.msn.GetOr(0) && lifetime == 0 then
        Next(s.(stateTimer := STOPPED, state := CLOSE), ctx.Send(p))
      else if msn == previous.msg.msn.GetOr(0) then
        var (s1, c) := StartStateTimer(s, if passOn then ctx.Send(p) else ctx, s.responseTimeout);
        Next(s1, c)
      else Accept(s.(lifetime := lifetime, msn := msn), p, ctx, cfg)
  }

  function StepUnreachable(s: Nf, ctx: Ctx): Outcome<Nf> {
    match s.lastCreate
    case None => Halted
    case Some(create) => Next(s.(state := CLOSE), ctx.Send(CreateResponse(create, NR_NOT_REACHED)))
  }

  // STATE_ANSLP_PENDING_CHECK

  function StepChecked(s: Nf, keys: set<Key>, ctx: Ctx): Outcome<Nf> {
    if s.lastCreate.None? || s.nrMri.None? then Halted
    else
      match s.lastCreate.value.msg.MspecObjects()
      case None => Halted
      case Some(objects) =>
        var s1 := s.(rule := s.rule.(requests := Keep(s.rule.requests, keys)));
        var c1 := ctx.Send(BuildCreate(s1, s.lastCreate.value.msg, objects, s.nrMri.value));
        var (s2, c2) := StartStateTimer(s1, c1, s1.lifetime);
        Next(s2.(state := PENDING), c2)
  }

  function StepPendingCheck(s: Nf, evt: Event, ctx: Ctx, cfg: Config): Outcome<Nf> {
    if evt.Is(CREATE) then StepCreateAgain(s, evt.packet, ctx, cfg, false)
    else if evt.NoNextNode? || evt == Timer(s.stateTimer) then StepUnreachable(s, ctx)
    else if evt.Timer? then Stay(s, ctx)
    else if evt.ApiCheck? then StepChecked(s, evt.keys, ctx)
    else Stay(s, ctx)
  }

  // STATE_ANSLP_PENDING

  function StepCreateAnswered(s: Nf, p: Packet, ctx: Ctx): Outcome<Nf> {
    if p.msg.IsSuccess() then
      var (s1, c1) := StartResponseTimer(s, ctx);
      var c2 := c1.Do(Installed(s.rule));
      if c2.verdict.Rejects? then Threw(c2)
      else
        var (s2, c3) := StartStateTimer(s1.(lastResponse := Some(p)), c2, s.responseTimeout);
        Next(s2.(state := PENDING_INSTALLING), c3)
    else Next(s.(stateTimer := STOPPED, state := CLOSE), ctx.Send(p))
  }

  function StepPending(s: Nf, evt: Event, ctx: Ctx, cfg: Config): Outcome<Nf> {
    if evt.Is(CREATE) then StepCreateAgain(s, evt.packet, ctx, cfg, true)
    else if evt.NoNextNode? || evt == Timer(s.stateTimer) then StepUnreachable(s, ctx)
    else if evt.Timer? then Stay(s, ctx)
    else
      match s.lastCreate
      case None => Halted
      case Some(create) => if evt.Answers(create) then StepCreateAnswered(s, evt.packet, ctx) else Stay(s, ctx)
  }

  // STATE_ANSLP_PENDING_INSTALLING

  function StepInstalled(s: Nf, objects: Objects, ctx: Ctx): Outcome<Nf> {
    match s.lastResponse
    case None => Halted
    case Some(response) =>
      if |s.rule.requests| == |objects| then
        var s1 := s.(rule := s.rule.(responses := Install(s.rule.responses, ctx.nextKey, objects)));
        var (s2, c) := StartStateTimer(s1, ctx.TakeKeys(|objects|).Send(ExtendResponse(response, s1.rule.responses)), s.lifetime);
        Next(s2.(state := AUCTIONING), c)
      else
        var s1 := s.(stateTimer := STOPPED, lifetime := 0);
        var c1 := if |s.rule.responses| > 0 then ctx.Do(Removed(s.rule)) else ctx;
        if |s.rule.responses| > 0 && c1.verdict.Rejects? then Threw(c1)
        else if s.nrMri.None? then Halted
        else
          var msn := Increment(s.msn);
          var refresh := Packet(Msg(REFRESH, Some(msn), Some(0), None, None, None, []), s.nrMri.value);
          Next(s1.(msn := msn, state := CLOSE), c1.Send(refresh).Send(CreateResponse(response, INTERNAL_ERROR)))
  }

  function StepPendingInstalling(s: Nf, evt: Event, ctx: Ctx, cfg: Config): Outcome<Nf> {
    if evt.Is(CREATE) then StepCreateAgain(s, evt.packet, ctx, cfg, true)
    else if evt.NoNextNode? || evt == Timer(s.stateTimer) then StepUnreachable(s, ctx)
    else if evt.Timer? then Stay(s, ctx)
    else if evt.ApiInstall? then StepInstalled(s, evt.installed, ctx)
    else Stay(s, ctx)
  }

  // STATE_ANSLP_AUCTIONING

  /** Uninstall the rule and wait for the confirmation; close at once when nothing was installed. */
  function Teardown(s: Nf, ctx: Ctx, seconds: nat): Outcome<Nf> {
    if |s.rule.responses| == 0 then Next(s.(stateTimer := STOPPED, state := CLOSE), ctx)
    else
      var c1 := ctx.Do(Removed(s.rule));
      if c1.verdict.Rejects? then Threw(c1)
      else
        var (s1, c2) := StartStateTimer(s, c1, seconds);
        Next(s1.(state := PENDING_TEARDOWN), c2)
  }

  function StepRefresh(s: Nf, p: Packet, ctx: Ctx): Outcome<Nf> {
    var lifetime := Min(p.msg.lifetime.GetOr(0), s.maxLifetime);
    var msn := p.msg.msn.GetOr(0);
    if !IsGreaterThan(msn, s.msn) then Stay(s, ctx)
    else
      var s1 := s.(lifetime := lifetime, lastRefresh := Some(p));
      var (s2, c) := StartResponseTimer(if lifetime > 0 then s1.(msn := msn) else s1, ctx.Send(p));
      Next(s2, c)
  }

  function StepBidding(s: Nf, p: Packet, forThisNode: bool, ctx: Ctx): Outcome<Nf> {
    if !forThisNode then Next(s, ctx.Send(p))
    else
      match p.msg.MspecObjects()
      case None => Halted
      case Some(objects) =>
        var c := ctx.Do(Interacted(true, objects));
        if c.verdict.Rejects? then Threw(c) else Next(s, c)
  }

  function StepRefreshAnswered(s: Nf, p: Packet, ctx: Ctx): Outcome<Nf> {
    var c1 := ctx.Send(p);
    if p.msg.IsSuccess() && s.lifetime > 0 then
      var (s1, c2) := StartStateTimer(s, c1, s.lifetime);
      Next(s1, c2)
    else Teardown(s.(stateTimer := STOPPED), c1, s.responseTimeout)
  }

  function StepAuctioning(s: Nf, evt: Event, ctx: Ctx): Outcome<Nf> {
    if evt.Is(REFRESH) then StepRefresh(s, evt.packet, ctx)
    else if evt.Is(BIDDING) then StepBidding(s, evt.packet, evt.forThisNode, ctx)
    else if evt.NoNextNode? || evt == Timer(s.responseTimer) then Teardown(s.(stateTimer := STOPPED), ctx, s.lifetime)
    else if evt == Timer(s.stateTimer) then Teardown(s.(responseTimer := STOPPED), ctx, s.lifetime)
    else if evt.RouteBad? then Teardown(s, ctx, s.responseTimeout)
    else if evt.Timer? then Stay(s, ctx)
    else
      match s.lastRefresh
      case None => Halted
      case Some(refresh) => if evt.Answers(refresh) then StepRefreshAnswered(s, evt.packet, ctx) else Stay(s, ctx)
  }

  // STATE_ANSLP_PENDING_TEARDOWN

  function StepPendingTeardown(s: Nf, evt: Event, ctx: Ctx): Outcome<Nf> {
    if evt.Is(BIDDING) then StepBidding(s, evt.packet, evt.forThisNode, ctx)
    else if evt == Timer(s.stateTimer) then Next(s.(state := CLOSE), ctx)
    else if evt.ApiRemove? then Next(s.(stateTimer := STOPPED, state := CLOSE), ctx)
    else Stay(s, ctx)
  }

  function Step(s: Nf, evt: Event, ctx: Ctx, cfg: Config): Outcome<Nf> {
    match s.state
    case CLOSE => StepClose(s, evt, ctx, cfg)
    case PENDING_CHECK => StepPendingCheck(s, evt, ctx, cfg)
    case PENDING => StepPending(s, evt, ctx, cfg)
    case PENDING_INSTALLING => StepPendingInstalling(s, evt, ctx, cfg)
    case AUCTIONING => StepAuctioning(s, evt, ctx)
    case PENDING_TEARDOWN => StepPendingTeardown(s, evt, ctx)
  }
}
