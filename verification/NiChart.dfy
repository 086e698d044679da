/** The state chart of an initiator: which state follows on which event, and what is sent, started and called then. */
module NiChart {
  import opened Bytes
  import opened Protocol
  import opened Runs
  import opened SerialNumber
  import opened NiSpec
  import NiRuns

  // Which state follows

  /** A response with the number of a message; one that has no number cannot be answered. */
  predicate IsResponseTo(evt: Event, sent: Packet) {
    evt.MsgIn? && evt.packet.msg.kind == RESPONSE && sent.msg.msn.Some? && evt.packet.msg.msn == Some(sent.msg.msn.value)
  }

  /** A response to the message that the session waits for. */
  predicate Answered(s: Ni, evt: Event) {
    match s.state
    case PENDING => s.lastCreate.Some? && IsResponseTo(evt, s.lastCreate.value)
    case AUCTIONING => s.lastRefresh.Some? && IsResponseTo(evt, s.lastRefresh.value)
    case _ => false
  }

  /** The response timer has run out, and no retry is left. */
  predicate GivesUp(s: Ni, evt: Event) {
    && evt == Timer(s.responseTimer)
    && match s.state
       case PENDING => s.createCounter >= s.maxRetries
       case PENDING_INSTALLING => s.createCounter >= s.maxRetries
       case AUCTIONING => evt != Timer(s.refreshTimer) && s.refreshCounter >= s.maxRetries
       case PENDING_TEARDOWN => s.teardownCounter >= s.maxRetries
       case CLOSE => false
  }

  /** The end of an auction: its rule has to be removed, unless nothing was installed. */
  function AfterAuction(s: Ni): State {
    if |s.rule.responses| > 0 then PENDING_TEARDOWN else CLOSE
  }

  function StateAfter(s: Ni, evt: Event): State {
    match s.state
    case CLOSE => if evt.ApiCreate? && evt.hasQueue then PENDING else CLOSE
    case PENDING =>
      if GivesUp(s, evt) || evt.NoNextNode? || evt.ApiTeardown? then CLOSE
      else if Answered(s, evt) then if evt.packet.msg.IsSuccess() then PENDING_INSTALLING else CLOSE
      else PENDING
    case PENDING_INSTALLING =>
      if GivesUp(s, evt) || evt.ApiTeardown? then CLOSE
      else if evt.ApiInstall? then if |evt.installed| == |s.installRule.requests| then AUCTIONING else CLOSE
      else PENDING_INSTALLING
    case AUCTIONING =>
      if GivesUp(s, evt) || (Answered(s, evt) && (!evt.packet.msg.IsSuccess() || s.lifetime == 0)) then AfterAuction(s)
      else AUCTIONING
    case PENDING_TEARDOWN => if GivesUp(s, evt) || evt.ApiRemove? then CLOSE else PENDING_TEARDOWN
  }

  // What is done

  function Downstream(kind: Kind, msn: uint32, lifetime: Option<uint32>, objects: seq<Payload>): Packet {
    Packet(Msg(kind, Some(msn), lifetime, None, None, None, objects), Mri(true, true))
  }

  function CreateOf(s: Ni, evt: Event): Packet
    requires evt.ApiCreate?
  {
    Packet(Msg(CREATE, Some(Increment(s.msn)), Some(evt.lifetime), Some(evt.sel), Some(s.hopCount), None, evt.objects), Mri(true, true))
  }

  /** The session asks again, because its response timer has run out. */
  predicate Repeats(s: Ni, evt: Event) {
    evt == Timer(s.responseTimer) && !GivesUp(s, evt)
  }

  /** The response timeout of the session that a request opens. */
  function TimeoutOf(s: Ni, evt: Event, random: nat): nat
    requires evt.ApiCreate?
  {
    ResponseTimeout(RefreshInterval(if evt.lifetime != 0 then evt.lifetime else s.lifetime, s.maxRetries), random)
  }

  /** The messages, timers and calls of an event in their order: new messages with the next number, saved ones again. */
  function Deeds(s: Ni, evt: Event, ctx: Ctx, random: nat): seq<Effect> {
    var waiting := Started(ctx.nextTimer, s.responseTimeout);
    var ending := Sent(Downstream(REFRESH, Increment(s.msn), Some(0), []));
    match s.state
    case CLOSE =>
      if !evt.ApiCreate? then []
      else
        var opening := [Sent(CreateOf(s, evt)), Started(ctx.nextTimer, TimeoutOf(s, evt, random))];
        if evt.hasQueue then opening + [Enqueued] else opening
    case PENDING =>
      if Repeats(s, evt) && s.lastCreate.Some? then [Sent(s.lastCreate.value), waiting]
      else if evt.ApiTeardown? then [ending]
      else if StateAfter(s, evt) == PENDING_INSTALLING && evt.MsgIn? then
        [waiting, Responded(Rule(Assign(ctx.nextKey, evt.packet.msg.objects), map[]))]
      else []
    case PENDING_INSTALLING =>
      if Repeats(s, evt) then [Responded(s.installRule), waiting]
      else if StateAfter(s, evt) == CLOSE then if |s.installRule.responses| > 0 then [Removed(s.installRule), ending] else [ending]
      else if StateAfter(s, evt) == AUCTIONING then [Started(ctx.nextTimer, s.refreshInterval)]
      else []
    case AUCTIONING =>
      if evt == Timer(s.refreshTimer) then [Sent(Downstream(REFRESH, Increment(s.msn), Some(s.lifetime), [])), waiting]
      else if Repeats(s, evt) && s.lastRefresh.Some? then [Sent(s.lastRefresh.value), waiting]
      else if evt.ApiTeardown? then [ending]
      else if evt.ApiBidding? then [Sent(Downstream(BIDDING, Increment(s.msn), None, evt.objects))]
      else if evt.Is(BIDDING) then [Interacted(false, evt.packet.msg.objects)]
      else if StateAfter(s, evt) == PENDING_TEARDOWN then [Removed(s.rule), waiting]
      else if Answered(s, evt) && StateAfter(s, evt) == AUCTIONING then [Started(ctx.nextTimer, s.refreshInterval)]
      else []
    case PENDING_TEARDOWN =>
      if evt.ApiBidding? then [Sent(Downstream(BIDDING, Increment(s.msn), None, evt.objects))]
      else if evt.Is(BIDDING) then [Interacted(false, evt.packet.msg.objects)]
      else if Repeats(s, evt) then [Removed(s.rule), waiting]
      else []
  }

  /** The errors of the client end the session, except while it bids. */
  predicate Throws(s: Ni, evt: Event, verdict: Verdict) {
    && verdict.Rejects?
    && match s.state
       case CLOSE => false
       case PENDING => StateAfter(s, evt) == PENDING_INSTALLING
       case PENDING_INSTALLING => Repeats(s, evt) || (StateAfter(s, evt) == CLOSE && |s.installRule.responses| > 0)
       case AUCTIONING => StateAfter(s, evt) == PENDING_TEARDOWN
       case PENDING_TEARDOWN => Repeats(s, evt)
  }

  predicate Follows(s: Ni, evt: Event, ctx: Ctx, random: nat, o: Outcome<Ni>) {
    && (o.Next? ==> o.s.state == StateAfter(s, evt) && o.ctx.log == Deeds(s, evt, ctx, random) && !Throws(s, evt, ctx.verdict))
    && (o.Threw? ==> BreaksOff(o.ctx.log, Deeds(s, evt, ctx, random)) && Throws(s, evt, ctx.verdict))
  }

  lemma OpenFollows(s: Ni, evt: Event, ctx: Ctx, random: nat)
    requires ctx.log == [] && s.state == CLOSE
    ensures Follows(s, evt, ctx, random, Step(s, evt, ctx, random))
  {
  }

  lemma PendingFollows(s: Ni, evt: Event, ctx: Ctx, random: nat)
    requires ctx.log == [] && s.state == PENDING
    ensures Follows(s, evt, ctx, random, Step(s, evt, ctx, random))
  {
  }

  lemma InstallingFollows(s: Ni, evt: Event, ctx: Ctx, random: nat)
    requires ctx.log == [] && s.state == PENDING_INSTALLING
    ensures Follows(s, evt, ctx, random, Step(s, evt, ctx, random))
  {
  }

  lemma MessageFollows(s: Ni, evt: Event, ctx: Ctx, random: nat)
    requires ctx.log == [] && s.state == AUCTIONING && evt.MsgIn?
    ensures Follows(s, evt, ctx, random, Step(s, evt, ctx, random))
  {
  }

  lemma AuctioningFollows(s: Ni, evt: Event, ctx: Ctx, random: nat)
    requires ctx.log == [] && s.state == AUCTIONING && !evt.MsgIn?
    ensures Follows(s, evt, ctx, random, Step(s, evt, ctx, random))
  {
  }

  lemma TeardownFollows(s: Ni, evt: Event, ctx: Ctx, random: nat)
    requires ctx.log == [] && s.state == PENDING_TEARDOWN
    ensures Follows(s, evt, ctx, random, Step(s, evt, ctx, random))
  {
  }

  /** On every event that does not stop the daemon the session follows its chart. */
  lemma ActFollows(s: Ni, input: Input)
    ensures Follows(s, input.evt, input.Begin(), input.random, NiRuns.Act(s, input))
  {
    match s.state
    case CLOSE => OpenFollows(s, input.evt, input.Begin(), input.random);
    case PENDING => PendingFollows(s, input.evt, input.Begin(), input.random);
    case PENDING_INSTALLING => InstallingFollows(s, input.evt, input.Begin(), input.random);
    case AUCTIONING =>
      if input.evt.MsgIn? {
        MessageFollows(s, input.evt, input.Begin(), input.random);
      } else {
        AuctioningFollows(s, input.evt, input.Begin(), input.random);
      }
    case PENDING_TEARDOWN => TeardownFollows(s, input.evt, input.Begin(), input.random);
  }

  // What is remembered

  /** The event makes the session build a message, which takes the next number. */
  predicate Builds(s: Ni, evt: Event) {
    match s.state
    case CLOSE => evt.ApiCreate?
    case PENDING => evt.ApiTeardown?
    case PENDING_INSTALLING => StateAfter(s, evt) == CLOSE
    case AUCTIONING => evt == Timer(s.refreshTimer) || evt.ApiTeardown? || evt.ApiBidding?
    case PENDING_TEARDOWN => evt.ApiBidding?
  }

  /** The number, and the messages that are kept for repetition in a session that stays open. */
  predicate Remembers(s: Ni, evt: Event, o: Outcome<Ni>) {
    o.Next? ==>
      && o.s.msn == (if Builds(s, evt) then Increment(s.msn) else s.msn)
      && o.s.hopCount == s.hopCount && o.s.maxRetries == s.maxRetries
      && (o.s.state != CLOSE ==>
            && o.s.lastCreate == (if s.state == CLOSE && evt.ApiCreate? then Some(CreateOf(s, evt)) else s.lastCreate)
            && o.s.lastRefresh
               == if s.state == AUCTIONING && evt == Timer(s.refreshTimer) then Some(Downstream(REFRESH, o.s.msn, Some(s.lifetime), []))
                  else if s.state == AUCTIONING && evt.ApiTeardown? then Some(Downstream(REFRESH, o.s.msn, Some(0), []))
                  else s.lastRefresh)
  }

  lemma EarlyRemembers(s: Ni, evt: Event, ctx: Ctx, random: nat)
    requires s.state == CLOSE || s.state == PENDING
    ensures Remembers(s, evt, Step(s, evt, ctx, random))
  {
  }

  lemma InstallingRemembers(s: Ni, evt: Event, ctx: Ctx, random: nat)
    requires s.state == PENDING_INSTALLING || s.state == PENDING_TEARDOWN
    ensures Remembers(s, evt, Step(s, evt, ctx, random))
  {
  }

  lemma AuctioningRemembers(s: Ni, evt: Event, ctx: Ctx, random: nat)
    requires s.state == AUCTIONING
    ensures Remembers(s, evt, Step(s, evt, ctx, random))
  {
  }

  /** A session takes a number for each message that it builds, and keeps the last CREATE and REFRESH. */
  lemma ActRemembers(s: Ni, input: Input)
    ensures Remembers(s, input.evt, NiRuns.Act(s, input))
  {
    match s.state
    case CLOSE => EarlyRemembers(s, input.evt, input.Begin(), input.random);
    case PENDING => EarlyRemembers(s, input.evt, input.Begin(), input.random);
    case AUCTIONING => AuctioningRemembers(s, input.evt, input.Begin(), input.random);
    case PENDING_INSTALLING => InstallingRemembers(s, input.evt, input.Begin(), input.random);
    case PENDING_TEARDOWN => InstallingRemembers(s, input.evt, input.Begin(), input.random);
  }
}
