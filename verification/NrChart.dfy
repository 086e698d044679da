/** The state chart of a responder: which state follows on which event, and what is sent, started and called then. */
module NrChart {
  import opened Bytes
  import opened Protocol
  import opened Runs
  import opened SerialNumber
  import opened NrSpec
  import NrRuns

  // Which state follows

  /** A REFRESH that is newer than the session. */
  predicate Refreshed(s: Nr, evt: Event) {
    s.state == AUCTIONING && evt.Is(REFRESH) && IsGreaterThan(evt.packet.msg.msn.GetOr(0), s.msn)
  }

  function Granted(s: Nr, p: Packet): uint32 {
    if p.msg.lifetime.GetOr(0) <= s.maxLifetime then p.msg.lifetime.GetOr(0) else s.maxLifetime
  }

  /** The timer has run out, or there is nobody to ask. */
  predicate Unanswered(s: Nr, evt: Event) {
    evt == Timer(s.stateTimer) || (s.state == PENDING && evt.NoNextNode?)
  }

  function AfterAuction(s: Nr): State {
    if |s.rule.responses| > 0 then PENDING_TEARDOWN else CLOSE
  }

  function StateAfter(s: Nr, evt: Event, verdict: Verdict, cfg: Config): State {
    match s.state
    case CLOSE =>
      if !evt.Is(CREATE) || Granted(s, evt.packet) == 0 then CLOSE
      else if !Checks(evt.packet.msg, cfg) then AUCTIONING
      else if verdict.Rejects? then CLOSE
      else PENDING
    case PENDING =>
      if Unanswered(s, evt) then if s.createCounter < s.maxRetries then PENDING else CLOSE
      else if evt.ApiCheck? then PENDING_INSTALLING
      else PENDING
    case PENDING_INSTALLING =>
      if Unanswered(s, evt) then if s.createCounter < s.maxRetries then PENDING_INSTALLING else CLOSE
      else if evt.ApiInstall? then if |evt.installed| == |s.rule.requests| then AUCTIONING else PENDING_TEARDOWN
      else PENDING_INSTALLING
    case AUCTIONING =>
      if Unanswered(s, evt) || (Refreshed(s, evt) && Granted(s, evt.packet) == 0) then AfterAuction(s) else AUCTIONING
    case PENDING_TEARDOWN =>
      if (Unanswered(s, evt) && s.createCounter >= s.maxRetries) || evt.ApiRemove? then CLOSE else PENDING_TEARDOWN
  }

  // What is done

  function ResponseTo(p: Packet, code: InfoCode, lifetime: Option<uint32>, objects: seq<Payload>): Packet {
    Packet(Msg(RESPONSE, p.msg.msn, lifetime, None, None, Some(code), objects), p.mri.Inverted())
  }

  function Failure(s: Nr): Option<Packet> {
    if s.lastCreate.Some? then Some(ResponseTo(s.lastCreate.value, InfoCode(5, 4), None, [])) else None
  }

  /** A BIDDING goes against the direction of the CREATE. */
  function Bidding(s: Nr, objects: seq<Payload>): Option<Packet> {
    if s.mri.Some?
    then Some(Packet(Msg(BIDDING, Some(Increment(s.biddingMsn)), None, None, None, None, objects), s.mri.value.Inverted()))
    else None
  }

  predicate Repeats(s: Nr, evt: Event) {
    Unanswered(s, evt) && s.createCounter < s.maxRetries
  }

  function AsList(p: Option<Packet>): seq<Effect> {
    if p.Some? then [Sent(p.value)] else []
  }

  function Enqueues(hasQueue: bool): seq<Effect> {
    if hasQueue then [Enqueued] else []
  }

  /** The messages, timers and calls of an event in their order. */
  function Deeds(s: Nr, evt: Event, ctx: Ctx, cfg: Config): seq<Effect> {
    var after := StateAfter(s, evt, ctx.verdict, cfg);
    var living := Started(ctx.nextTimer, s.lifetime);
    var ending := Started(ctx.nextTimer, cfg.nrResponseTimeout);
    match s.state
    case CLOSE => if evt.Is(CREATE) then ForCreate(s, evt.packet, ctx, cfg) else []
    case PENDING =>
      if Repeats(s, evt) && s.lastCreate.Some? then
        if Checks(s.lastCreate.value.msg, cfg) then [Checked(Assign(ctx.nextKey, s.lastCreate.value.msg.objects)), living] else [living]
      else if after == CLOSE then AsList(Failure(s))
      else if evt.ApiCheck? then [Installed(Rule(Keep(s.rule.requests, evt.keys), s.rule.responses)), living]
      else []
    case PENDING_INSTALLING =>
      if Repeats(s, evt) then [Installed(s.rule), living]
      else if after == CLOSE then AsList(Failure(s))
      else if !evt.ApiInstall? || s.lastCreate.None? then []
      else if after == AUCTIONING then
        [Sent(ExtendResponse(ResponseTo(s.lastCreate.value, InfoCode(2, 1), Some(s.lifetime), []),
                             Install(s.rule.responses, ctx.nextKey, evt.installed))), living]
      else if |s.rule.responses| > 0 then
        [Removed(s.rule), Sent(ResponseTo(s.lastCreate.value, InfoCode(5, 4), None, [])), ending]
      else [Sent(ResponseTo(s.lastCreate.value, InfoCode(5, 4), None, [])), ending]
    case AUCTIONING =>
      if Refreshed(s, evt) then
        var answer := Sent(ResponseTo(evt.packet, InfoCode(2, 1), Some(Granted(s, evt.packet)), []));
        if Granted(s, evt.packet) > 0 then [answer, Started(ctx.nextTimer, Granted(s, evt.packet))]
        else if after == PENDING_TEARDOWN then [answer, Removed(s.rule), ending]
        else [answer]
      else if evt.Is(BIDDING) && evt.forThisNode then [Interacted(true, evt.packet.msg.objects)]
      else if evt.ApiBidding? then AsList(Bidding(s, evt.objects)) + Enqueues(evt.hasQueue)
      else if after == PENDING_TEARDOWN then [Removed(s.rule), ending]
      else []
    case PENDING_TEARDOWN =>
      if Repeats(s, evt) then [Removed(s.rule), ending]
      else if evt.ApiBidding? then AsList(Bidding(s, evt.objects)) + Enqueues(evt.hasQueue)
      else []
  }

  /** A CREATE is refused, served at once by a node that takes no part, or checked. */
  function ForCreate(s: Nr, p: Packet, ctx: Ctx, cfg: Config): seq<Effect> {
    var living := Started(ctx.nextTimer, Granted(s, p));
    var refusal := Sent(ResponseTo(p, InfoCode(5, 9), None, []));
    if Granted(s, p) == 0 then [refusal]
    else if !Checks(p.msg, cfg) then [Sent(ResponseTo(p, InfoCode(2, 1), Some(Granted(s, p)), [])), living]
    else if ctx.verdict.Rejects? then [Checked(Assign(ctx.nextKey, p.msg.objects)), refusal]
    else [Checked(Assign(ctx.nextKey, p.msg.objects)), living]
  }

  /** A CREATE for another kind of path, and the errors of the installer, except for one that refuses the CREATE. */
  predicate Throws(s: Nr, evt: Event, verdict: Verdict, cfg: Config) {
    var after := StateAfter(s, evt, verdict, cfg);
    if s.state == CLOSE then evt.Is(CREATE) && Granted(s, evt.packet) > 0 && !evt.packet.mri.pathCoupled
    else
      && verdict.Rejects?
      && match s.state
         case PENDING => (Repeats(s, evt) && s.lastCreate.Some? && Checks(s.lastCreate.value.msg, cfg)) || evt.ApiCheck?
         case PENDING_INSTALLING => Repeats(s, evt) || (after == PENDING_TEARDOWN && |s.rule.responses| > 0)
         case AUCTIONING => after == PENDING_TEARDOWN || (evt.Is(BIDDING) && evt.forThisNode)
         case PENDING_TEARDOWN => Repeats(s, evt)
  }

  predicate Follows(s: Nr, evt: Event, ctx: Ctx, cfg: Config, o: Outcome<Nr>) {
    && (o.Next? ==>
          o.s.state == StateAfter(s, evt, ctx.verdict, cfg) && o.ctx.log == Deeds(s, evt, ctx, cfg) && !Throws(s, evt, ctx.verdict, cfg))
    && (o.Threw? ==>
          (if s.state == CLOSE then o.ctx.log == [] else BreaksOff(o.ctx.log, Deeds(s, evt, ctx, cfg))) && Throws(s, evt, ctx.verdict, cfg))
  }

  lemma OpenFollows(s: Nr, evt: Event, ctx: Ctx, cfg: Config)
    requires ctx.log == [] && s.state == CLOSE
    ensures Follows(s, evt, ctx, cfg, Step(s, evt, ctx, cfg))
  {
  }

  lemma PendingFollows(s: Nr, evt: Event, ctx: Ctx, cfg: Config)
    requires ctx.log == [] && s.state == PENDING
    ensures Follows(s, evt, ctx, cfg, Step(s, evt, ctx, cfg))
  {
  }

  lemma ReportIsDone(s: Nr, create: Packet, installed: Objects, ctx: Ctx, cfg: Config)
    requires ctx.log == [] && s.state == PENDING_INSTALLING && s.lastCreate == Some(create) && |installed| == |s.rule.requests|
    ensures var o := StepInstalled(s, installed, ctx, cfg);
            var response := ExtendResponse(ResponseTo(create, InfoCode(2, 1), Some(s.lifetime), []),
                                           Install(s.rule.responses, ctx.nextKey, installed));
            o.Next? && o.s.state == AUCTIONING && o.ctx.log == [Sent(response), Started(ctx.nextTimer, s.lifetime)]
  {
  }

  lemma ReportFollows(s: Nr, evt: Event, ctx: Ctx, cfg: Config, o: Outcome<Nr>)
    requires ctx.log == [] && s.state == PENDING_INSTALLING && evt.ApiInstall? && |evt.installed| == |s.rule.requests|
    requires o == StepInstalled(s, evt.installed, ctx, cfg)
    ensures Follows(s, evt, ctx, cfg, o)
  {
    if s.lastCreate.Some? {
      ReportIsDone(s, s.lastCreate.value, evt.installed, ctx, cfg);
    }
  }

  lemma MismatchFollows(s: Nr, evt: Event, ctx: Ctx, cfg: Config, o: Outcome<Nr>)
    requires ctx.log == [] && s.state == PENDING_INSTALLING && evt.ApiInstall? && |evt.installed| != |s.rule.requests|
    requires o == StepInstalled(s, evt.installed, ctx, cfg)
    ensures Follows(s, evt, ctx, cfg, o)
  {
  }

  lemma InstallingFollows(s: Nr, evt: Event, ctx: Ctx, cfg: Config)
    requires ctx.log == [] && s.state == PENDING_INSTALLING && !evt.ApiInstall?
    ensures Follows(s, evt, ctx, cfg, Step(s, evt, ctx, cfg))
  {
  }

  lemma MessageFollows(s: Nr, evt: Event, ctx: Ctx, cfg: Config)
    requires ctx.log == [] && s.state == AUCTIONING && evt.MsgIn?
    ensures Follows(s, evt, ctx, cfg, Step(s, evt, ctx, cfg))
  {
  }

  lemma AuctioningFollows(s: Nr, evt: Event, ctx: Ctx, cfg: Config)
    requires ctx.log == [] && s.state == AUCTIONING && !evt.MsgIn?
    ensures Follows(s, evt, ctx, cfg, Step(s, evt, ctx, cfg))
  {
  }

  lemma TeardownFollows(s: Nr, evt: Event, ctx: Ctx, cfg: Config)
    requires ctx.log == [] && s.state == PENDING_TEARDOWN
    ensures Follows(s, evt, ctx, cfg, Step(s, evt, ctx, cfg))
  {
  }

  /** On every event that does not stop the daemon the session follows its chart. */
  lemma ActFollows(s: Nr, input: Input, cfg: Config)
    ensures Follows(s, input.evt, input.Begin(), cfg, NrRuns.Act(cfg)(s, input))
  {
    var evt, ctx := input.evt, input.Begin();
    match s.state
    case CLOSE => OpenFollows(s, evt, ctx, cfg);
    case PENDING => PendingFollows(s, evt, ctx, cfg);
    case PENDING_INSTALLING =>
      if !evt.ApiInstall? {
        InstallingFollows(s, evt, ctx, cfg);
      } else if |evt.installed| == |s.rule.requests| {
        ReportFollows(s, evt, ctx, cfg, StepInstalled(s, evt.installed, ctx, cfg));
      } else {
        MismatchFollows(s, evt, ctx, cfg, StepInstalled(s, evt.installed, ctx, cfg));
      }
    case AUCTIONING =>
      if evt.MsgIn? {
        MessageFollows(s, evt, ctx, cfg);
      } else {
        AuctioningFollows(s, evt, ctx, cfg);
      }
    case PENDING_TEARDOWN => TeardownFollows(s, evt, ctx, cfg);
  }

  // What is remembered

  /** The numbers, the CREATE and its route in a session that stays open. */
  predicate Remembers(s: Nr, evt: Event, o: Outcome<Nr>) {
    o.Next? && o.s.state != CLOSE ==>
      && o.s.lastCreate == (if s.state == CLOSE && evt.Is(CREATE) then Some(evt.packet) else s.lastCreate)
      && o.s.mri == (if s.state == CLOSE && evt.Is(CREATE) then Some(evt.packet.mri) else s.mri)
      && o.s.msn == (if (s.state == CLOSE && evt.Is(CREATE)) || (Refreshed(s, evt) && Granted(s, evt.packet) > 0)
                     then evt.packet.msg.msn.GetOr(0) else s.msn)
      && o.s.biddingMsn == if evt.ApiBidding? && (s.state == AUCTIONING || s.state == PENDING_TEARDOWN)
                           then Increment(s.biddingMsn) else s.biddingMsn
  }

  lemma EarlyRemembers(s: Nr, evt: Event, ctx: Ctx, cfg: Config)
    requires s.state == CLOSE || s.state == PENDING
    ensures Remembers(s, evt, Step(s, evt, ctx, cfg))
  {
  }

  lemma LateRemembers(s: Nr, evt: Event, ctx: Ctx, cfg: Config)
    requires s.state != CLOSE && s.state != PENDING
    ensures Remembers(s, evt, Step(s, evt, ctx, cfg))
  {
  }

  /** A session remembers the CREATE that it serves, and the number of the last request that it has granted. */
  lemma ActRemembers(s: Nr, input: Input, cfg: Config)
    ensures Remembers(s, input.evt, NrRuns.Act(cfg)(s, input))
  {
    if s.state == CLOSE || s.state == PENDING {
      EarlyRemembers(s, input.evt, input.Begin(), cfg);
    } else {
      LateRemembers(s, input.evt, input.Begin(), cfg);
    }
  }
}
