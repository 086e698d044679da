/** The state chart of a forwarder: which state follows on which event, and what is sent, started and called then. */
module NfChart {
  import opened Bytes
  import opened Protocol
  import opened Runs
  import opened SerialNumber
  import opened NfSpec
  import NfRuns

  predicate IsPending(state: State) {
    state == PENDING_CHECK || state == PENDING || state == PENDING_INSTALLING
  }

  // Which state follows

  /** A CREATE that comes to a pending session: it ends the session, repeats the CREATE that is pending, or replaces it. */
  datatype Repetition = Shutdown | Retransmission | Replacement

  function Repeats(s: Nf, p: Packet): Repetition {
    var before, now := if s.lastCreate.Some? then s.lastCreate.value.msg.msn.GetOr(0) else 0, p.msg.msn.GetOr(0);
    if now == before then Retransmission else if now > before && p.msg.lifetime.GetOr(0) == 0 then Shutdown else Replacement
  }

  predicate TakesPart(p: Packet, cfg: Config) {
    Participates(FORWARDER, p.msg.sel.GetOr(0)) && cfg.installRules
  }

  /** Where a CREATE leads that is taken up. */
  function Taken(p: Packet, verdict: Verdict, cfg: Config): State {
    if !p.mri.pathCoupled then CLOSE
    else if !TakesPart(p, cfg) then PENDING
    else if verdict.Rejects? then CLOSE
    else PENDING_CHECK
  }

  /** A response with the number of a message; one that has no number cannot be answered. */
  predicate IsResponseTo(evt: Event, sent: Packet) {
    evt.MsgIn? && evt.packet.msg.kind == RESPONSE && sent.msg.msn.Some? && evt.packet.msg.msn == Some(sent.msg.msn.value)
  }

  predicate Answered(s: Nf, evt: Event) {
    match s.state
    case PENDING => s.lastCreate.Some? && IsResponseTo(evt, s.lastCreate.value)
    case AUCTIONING => s.lastRefresh.Some? && IsResponseTo(evt, s.lastRefresh.value)
    case _ => false
  }

  predicate Expires(s: Nf, evt: Event) {
    evt == Timer(s.stateTimer) || (s.state == AUCTIONING && evt == Timer(s.responseTimer))
    || (s.state != PENDING_TEARDOWN && evt.NoNextNode?)
  }

  function AfterAuction(s: Nf): State {
    if |s.rule.responses| > 0 then PENDING_TEARDOWN else CLOSE
  }

  function StateAfter(s: Nf, evt: Event, verdict: Verdict, cfg: Config): State {
    if IsPending(s.state) && evt.Is(CREATE) then
      match Repeats(s, evt.packet)
      case Shutdown => CLOSE
      case Retransmission => s.state
      case Replacement => Taken(evt.packet, verdict, cfg)
    else if IsPending(s.state) && Expires(s, evt) then CLOSE
    else
      match s.state
      case CLOSE =>
        if evt.Is(CREATE) && evt.packet.msg.lifetime.GetOr(0) > 0 && cfg.nfMaxLifetime > 0 then Taken(evt.packet, verdict, cfg)
        else CLOSE
      case PENDING_CHECK => if evt.ApiCheck? then PENDING else PENDING_CHECK
      case PENDING =>
        if !Answered(s, evt) then PENDING else if evt.packet.msg.IsSuccess() then PENDING_INSTALLING else CLOSE
      case PENDING_INSTALLING =>
        if !evt.ApiInstall? then PENDING_INSTALLING else if |evt.installed| == |s.rule.requests| then AUCTIONING else CLOSE
      case AUCTIONING =>
        if Expires(s, evt) || evt.RouteBad? || (Answered(s, evt) && (!evt.packet.msg.IsSuccess() || s.lifetime == 0))
        then AfterAuction(s) else AUCTIONING
      case PENDING_TEARDOWN => if Expires(s, evt) || evt.ApiRemove? then CLOSE else PENDING_TEARDOWN
  }

  // What is done

  function Error(p: Packet, code: InfoCode): Packet {
    Packet(Msg(RESPONSE, p.msg.msn, None, None, None, Some(code), []), p.mri.Inverted())
  }

  /** The CREATE for the next node, with the lifetime of this one. */
  function PassedOn(p: Packet, lifetime: uint32, mri: Mri): Packet {
    Packet(Msg(CREATE, Some(p.msg.msn.GetOr(0)), Some(lifetime), Some(p.msg.sel.GetOr(0)), Some(p.msg.hop.GetOr(0)), None,
               p.msg.objects), mri)
  }

  function Capped(p: Packet, cap: uint32): uint32 {
    if p.msg.lifetime.GetOr(0) <= cap then p.msg.lifetime.GetOr(0) else cap
  }

  /** A CREATE that is taken up is refused, passed on by a node that takes no part, or checked. */
  function ForCreate(p: Packet, lifetime: uint32, ctx: Ctx, cfg: Config): seq<Effect> {
    var living := Started(ctx.nextTimer, lifetime);
    if !p.mri.pathCoupled then [Sent(Error(p, InfoCode(5, 9)))]
    else if !TakesPart(p, cfg) then [Sent(PassedOn(p, lifetime, p.mri)), living]
    else
      match ctx.verdict
      case Rejects(code) => [Checked(Assign(ctx.nextKey, p.msg.objects)), Sent(Error(p, code))]
      case Accepts => [Checked(Assign(ctx.nextKey, p.msg.objects)), living]
  }

  function ForAnotherCreate(s: Nf, p: Packet, ctx: Ctx, cfg: Config): seq<Effect> {
    match Repeats(s, p)
    case Shutdown => [Sent(p)]
    case Retransmission =>
      var waiting := Started(ctx.nextTimer, s.responseTimeout);
      if s.state == PENDING_CHECK then [waiting] else [Sent(p), waiting]
    case Replacement => ForCreate(p, p.msg.lifetime.GetOr(0), ctx, cfg)
  }

  /** The end of an auction: the removal of the rule, and a timer for its confirmation. */
  function Ending(s: Nf, ctx: Ctx, seconds: nat): seq<Effect> {
    if |s.rule.responses| > 0 then [Removed(s.rule), Started(ctx.nextTimer, seconds)] else []
  }

  /** A BIDDING is handed to the installer if it is for this node, and passed on if it is not. */
  function ForBidding(evt: Event): seq<Effect>
    requires evt.MsgIn?
  {
    if evt.forThisNode then [Interacted(true, evt.packet.msg.objects)] else [Sent(evt.packet)]
  }

  /** The messages, timers and calls of an event in their order. */
  function Deeds(s: Nf, evt: Event, ctx: Ctx, cfg: Config): seq<Effect> {
    if IsPending(s.state) && evt.Is(CREATE) then ForAnotherCreate(s, evt.packet, ctx, cfg)
    else if IsPending(s.state) && Expires(s, evt) then
      if s.lastCreate.Some? then [Sent(Error(s.lastCreate.value, InfoCode(5, 7)))] else []
    else
      match s.state
      case CLOSE =>
        if evt.Is(CREATE) && Capped(evt.packet, cfg.nfMaxLifetime) > 0
        then ForCreate(evt.packet, Capped(evt.packet, cfg.nfMaxLifetime), ctx, cfg) else []
      case PENDING_CHECK =>
        if evt.ApiCheck? && s.lastCreate.Some? && s.nrMri.Some?
        then [Sent(PassedOn(s.lastCreate.value, Capped(s.lastCreate.value, s.lifetime), s.nrMri.value)), Started(ctx.nextTimer, s.lifetime)]
        else []
      case PENDING =>
        if !Answered(s, evt) then []
        else if evt.packet.msg.IsSuccess() then
          [Started(ctx.nextTimer, s.responseTimeout), Installed(s.rule), Started(ctx.nextTimer + 1, s.responseTimeout)]
        else [Sent(evt.packet)]
      case PENDING_INSTALLING =>
        if !evt.ApiInstall? || s.lastResponse.None? || s.nrMri.None? then []
        else if |evt.installed| == |s.rule.requests| then
          [Sent(ExtendResponse(s.lastResponse.value, Install(s.rule.responses, ctx.nextKey, evt.installed))),
           Started(ctx.nextTimer, s.lifetime)]
        else
          var refresh := Sent(Packet(Msg(REFRESH, Some(Increment(s.msn)), Some(0), None, None, None, []), s.nrMri.value));
          var error := Sent(Error(s.lastResponse.value, InfoCode(5, 4)));
          if |s.rule.responses| > 0 then [Removed(s.rule), refresh, error] else [refresh, error]
      case AUCTIONING =>
        if evt.Is(REFRESH) then
          if IsGreaterThan(evt.packet.msg.msn.GetOr(0), s.msn)
          then [Sent(evt.packet), Started(ctx.nextTimer, s.responseTimeout)] else []
        else if evt.Is(BIDDING) then ForBidding(evt)
        else if Expires(s, evt) then Ending(s, ctx, s.lifetime)
        else if evt.RouteBad? then Ending(s, ctx, s.responseTimeout)
        else if !Answered(s, evt) then []
        else if evt.packet.msg.IsSuccess() && s.lifetime > 0 then [Sent(evt.packet), Started(ctx.nextTimer, s.lifetime)]
        else [Sent(evt.packet)] + Ending(s, ctx, s.responseTimeout)
      case PENDING_TEARDOWN => if evt.Is(BIDDING) then ForBidding(evt) else []
  }

  /** The errors of the installer, except for one that refuses a CREATE. */
  predicate Throws(s: Nf, evt: Event, verdict: Verdict, cfg: Config) {
    var after := StateAfter(s, evt, verdict, cfg);
    && verdict.Rejects?
    && match s.state
       case PENDING => after == PENDING_INSTALLING
       case PENDING_INSTALLING => evt.ApiInstall? && after == CLOSE && |s.rule.responses| > 0
       case AUCTIONING => after == PENDING_TEARDOWN || (evt.Is(BIDDING) && evt.forThisNode)
       case PENDING_TEARDOWN => evt.Is(BIDDING) && evt.forThisNode
       case _ => false
  }

  predicate Follows(s: Nf, evt: Event, ctx: Ctx, cfg: Config, o: Outcome<Nf>) {
    && (o.Next? ==>
          o.s.state == StateAfter(s, evt, ctx.verdict, cfg) && o.ctx.log == Deeds(s, evt, ctx, cfg) && !Throws(s, evt, ctx.verdict, cfg))
    && (o.Threw? ==> BreaksOff(o.ctx.log, Deeds(s, evt, ctx, cfg)) && Throws(s, evt, ctx.verdict, cfg))
  }

  lemma TakenFollows(s: Nf, p: Packet, ctx: Ctx, cfg: Config)
    requires ctx.log == [] && p.msg.kind == CREATE && s.lifetime <= p.msg.lifetime.GetOr(0)
    ensures var o := Accept(s, p, ctx, cfg);
            !o.Halted? ==> o.Next? && o.s.state == Taken(p, ctx.verdict, cfg) && o.ctx.log == ForCreate(p, s.lifetime, ctx, cfg)
  {
  }

  lemma CreateFollows(s: Nf, evt: Event, ctx: Ctx, cfg: Config, o: Outcome<Nf>)
    requires ctx.log == [] && IsPending(s.state) && evt.Is(CREATE)
    requires o == StepCreateAgain(s, evt.packet, ctx, cfg, s.state != PENDING_CHECK)
    ensures Follows(s, evt, ctx, cfg, o)
  {
    if Repeats(s, evt.packet).Replacement? {
      TakenFollows(s.(lifetime := evt.packet.msg.lifetime.GetOr(0), msn := evt.packet.msg.msn.GetOr(0)), evt.packet, ctx, cfg);
    }
  }

  lemma OpenFollows(s: Nf, evt: Event, ctx: Ctx, cfg: Config)
    requires ctx.log == [] && s.state == CLOSE
    ensures Follows(s, evt, ctx, cfg, Step(s, evt, ctx, cfg))
  {
    if evt.Is(CREATE) {
      var p := evt.packet;
      TakenFollows(s.(maxLifetime := cfg.nfMaxLifetime, responseTimeout := cfg.nfMaxLifetime,
                      lifetime := Capped(p, cfg.nfMaxLifetime), msn := p.msg.msn.GetOr(0)), p, ctx, cfg);
    }
  }

  lemma CheckFollows(s: Nf, evt: Event, ctx: Ctx, cfg: Config)
    requires ctx.log == [] && s.state == PENDING_CHECK && !evt.Is(CREATE)
    ensures Follows(s, evt, ctx, cfg, Step(s, evt, ctx, cfg))
  {
  }

  lemma PendingFollows(s: Nf, evt: Event, ctx: Ctx, cfg: Config)
    requires ctx.log == [] && s.state == PENDING && !evt.Is(CREATE)
    ensures Follows(s, evt, ctx, cfg, Step(s, evt, ctx, cfg))
  {
  }

  lemma ReportIsDone(s: Nf, response: Packet, installed: Objects, ctx: Ctx)
    requires ctx.log == [] && s.lastResponse == Some(response) && |installed| == |s.rule.requests|
    ensures var o := StepInstalled(s, installed, ctx);
            && o.Next? && o.s.state == AUCTIONING
            && o.ctx.log == [Sent(ExtendResponse(response, Install(s.rule.responses, ctx.nextKey, installed))),
                             Started(ctx.nextTimer, s.lifetime)]
  {
  }

  lemma OneReport(s: Nf, response: Packet, evt: Event, ctx: Ctx, cfg: Config, o: Outcome<Nf>)
    requires s.state == PENDING_INSTALLING && s.nrMri.Some? && s.lastResponse == Some(response)
    requires evt.ApiInstall? && |evt.installed| == |s.rule.requests| && o.Next? && o.s.state == AUCTIONING
    requires o.ctx.log == [Sent(ExtendResponse(response, Install(s.rule.responses, ctx.nextKey, evt.installed))),
                           Started(ctx.nextTimer, s.lifetime)]
    ensures Follows(s, evt, ctx, cfg, o)
  {
  }

  lemma ReportFollows(s: Nf, evt: Event, ctx: Ctx, cfg: Config, o: Outcome<Nf>)
    requires ctx.log == [] && s.state == PENDING_INSTALLING && s.nrMri.Some?
    requires evt.ApiInstall? && |evt.installed| == |s.rule.requests| && o == StepInstalled(s, evt.installed, ctx)
    ensures Follows(s, evt, ctx, cfg, o)
  {
    if s.lastResponse.Some? {
      ReportIsDone(s, s.lastResponse.value, evt.installed, ctx);
      OneReport(s, s.lastResponse.value, evt, ctx, cfg, o);
    }
  }

  lemma MismatchFollows(s: Nf, evt: Event, ctx: Ctx, cfg: Config, o: Outcome<Nf>)
    requires ctx.log == [] && s.state == PENDING_INSTALLING && s.nrMri.Some?
    requires evt.ApiInstall? && |evt.installed| != |s.rule.requests| && o == StepInstalled(s, evt.installed, ctx)
    ensures Follows(s, evt, ctx, cfg, o)
  {
  }

  lemma InstallingFollows(s: Nf, evt: Event, ctx: Ctx, cfg: Config)
    requires ctx.log == [] && s.state == PENDING_INSTALLING && !evt.ApiInstall? && !evt.Is(CREATE)
    ensures Follows(s, evt, ctx, cfg, Step(s, evt, ctx, cfg))
  {
  }

  lemma MessageFollows(s: Nf, evt: Event, ctx: Ctx, cfg: Config)
    requires ctx.log == [] && s.state == AUCTIONING && evt.MsgIn?
    ensures Follows(s, evt, ctx, cfg, Step(s, evt, ctx, cfg))
  {
  }

  lemma AuctioningFollows(s: Nf, evt: Event, ctx: Ctx, cfg: Config)
    requires ctx.log == [] && s.state == AUCTIONING && !evt.MsgIn?
    ensures Follows(s, evt, ctx, cfg, Step(s, evt, ctx, cfg))
  {
  }

  lemma TeardownFollows(s: Nf, evt: Event, ctx: Ctx, cfg: Config)
    requires ctx.log == [] && s.state == PENDING_TEARDOWN
    ensures Follows(s, evt, ctx, cfg, Step(s, evt, ctx, cfg))
  {
  }

  /** On every event that does not stop the daemon the session follows its chart. */
  lemma ActFollows(s: Nf, input: Input, cfg: Config)
    requires s.state == PENDING_INSTALLING ==> s.nrMri.Some?
    ensures Follows(s, input.evt, input.Begin(), cfg, NfRuns.Act(cfg)(s, input))
  {
    var evt, ctx := input.evt, input.Begin();
    if IsPending(s.state) && evt.Is(CREATE) {
      CreateFollows(s, evt, ctx, cfg, StepCreateAgain(s, evt.packet, ctx, cfg, s.state != PENDING_CHECK));
    } else {
      match s.state
      case CLOSE => OpenFollows(s, evt, ctx, cfg);
      case PENDING_CHECK => CheckFollows(s, evt, ctx, cfg);
      case PENDING => PendingFollows(s, evt, ctx, cfg);
      case PENDING_INSTALLING =>
        if !evt.ApiInstall? {
          InstallingFollows(s, evt, ctx, cfg);
        } else if |evt.installed| == |s.rule.requests| {
          ReportFollows(s, evt, ctx, cfg, StepInstalled(s, evt.installed, ctx));
        } else {
          MismatchFollows(s, evt, ctx, cfg, StepInstalled(s, evt.installed, ctx));
        }
      case AUCTIONING =>
        if evt.MsgIn? {
          MessageFollows(s, evt, ctx, cfg);
        } else {
          AuctioningFollows(s, evt, ctx, cfg);
        }
      case PENDING_TEARDOWN => TeardownFollows(s, evt, ctx, cfg);
    }
  }

  // What is remembered

  /** A CREATE that the session takes up: the first one, or one that replaces it. */
  predicate Takes(s: Nf, evt: Event, cfg: Config) {
    && evt.Is(CREATE)
    && if s.state == CLOSE then Capped(evt.packet, cfg.nfMaxLifetime) > 0 else IsPending(s.state) && Repeats(s, evt.packet).Replacement?
  }

  predicate TakesRefresh(s: Nf, evt: Event) {
    s.state == AUCTIONING && evt.Is(REFRESH) && IsGreaterThan(evt.packet.msg.msn.GetOr(0), s.msn)
  }

  /** Number, lifetime and saved messages of a session that stays open: those of the last CREATE and REFRESH that it has taken. */
  predicate Remembers(s: Nf, evt: Event, cfg: Config, o: Outcome<Nf>) {
    o.Next? && o.s.state != CLOSE ==>
      && o.s.maxLifetime == (if s.state == CLOSE then cfg.nfMaxLifetime else s.maxLifetime)
      && o.s.responseTimeout == (if s.state == CLOSE then cfg.nfMaxLifetime else s.responseTimeout)
      && o.s.lastCreate == (if Takes(s, evt, cfg) then Some(evt.packet) else s.lastCreate)
      && o.s.lastRefresh == (if TakesRefresh(s, evt) then Some(evt.packet) else s.lastRefresh)
      && if Takes(s, evt, cfg) then
           && o.s.msn == evt.packet.msg.msn.GetOr(0) && o.s.nrMri == Some(evt.packet.mri)
           && o.s.lifetime == if s.state == CLOSE then Capped(evt.packet, cfg.nfMaxLifetime) else evt.packet.msg.lifetime.GetOr(0)
         else if TakesRefresh(s, evt) then
           && o.s.lifetime == Capped(evt.packet, s.maxLifetime)
           && o.s.msn == if o.s.lifetime > 0 then evt.packet.msg.msn.GetOr(0) else s.msn
         else o.s.msn == s.msn && o.s.lifetime == s.lifetime
  }

  lemma TakenRemembers(s: Nf, p: Packet, ctx: Ctx, cfg: Config)
    ensures var o := Accept(s, p, ctx, cfg);
            o.Next? && o.s.state != CLOSE ==>
              && o.s.maxLifetime == s.maxLifetime && o.s.responseTimeout == s.responseTimeout && o.s.lastRefresh == s.lastRefresh
              && o.s.lastCreate == Some(p) && o.s.msn == s.msn && o.s.lifetime == s.lifetime && o.s.nrMri == Some(p.mri)
  {
  }

  lemma CreateRemembers(s: Nf, evt: Event, ctx: Ctx, cfg: Config, passOn: bool)
    requires IsPending(s.state) && evt.Is(CREATE)
    ensures Remembers(s, evt, cfg, StepCreateAgain(s, evt.packet, ctx, cfg, passOn))
  {
    TakenRemembers(s.(lifetime := evt.packet.msg.lifetime.GetOr(0), msn := evt.packet.msg.msn.GetOr(0)), evt.packet, ctx, cfg);
  }

  lemma OpenRemembers(s: Nf, evt: Event, ctx: Ctx, cfg: Config)
    requires s.state == CLOSE
    ensures Remembers(s, evt, cfg, Step(s, evt, ctx, cfg))
  {
    if evt.Is(CREATE) {
      var p := evt.packet;
      TakenRemembers(s.(maxLifetime := cfg.nfMaxLifetime, responseTimeout := cfg.nfMaxLifetime,
                        lifetime := Capped(p, cfg.nfMaxLifetime), msn := p.msg.msn.GetOr(0)), p, ctx, cfg);
    }
  }

  lemma PendingRemembers(s: Nf, evt: Event, ctx: Ctx, cfg: Config)
    requires IsPending(s.state) && !evt.Is(CREATE)
    ensures Remembers(s, evt, cfg, Step(s, evt, ctx, cfg))
  {
  }

  lemma LaterRemembers(s: Nf, evt: Event, ctx: Ctx, cfg: Config)
    requires s.state == AUCTIONING || s.state == PENDING_TEARDOWN
    ensures Remembers(s, evt, cfg, Step(s, evt, ctx, cfg))
  {
  }

  /** A session remembers what it has taken up, and nothing else changes that. */
  lemma ActRemembers(s: Nf, input: Input, cfg: Config)
    ensures Remembers(s, input.evt, cfg, NfRuns.Act(cfg)(s, input))
  {
    if s.state == CLOSE {
      OpenRemembers(s, input.evt, input.Begin(), cfg);
    } else if !IsPending(s.state) {
      LaterRemembers(s, input.evt, input.Begin(), cfg);
    } else if input.evt.Is(CREATE) {
      CreateRemembers(s, input.evt, input.Begin(), cfg, s.state != PENDING_CHECK);
    } else {
      PendingRemembers(s, input.evt, input.Begin(), cfg);
    }
  }
}
