/** Which of the messages that sessions send carry all the objects that their type writes. */
module Sending {
  import opened Bytes
  import opened Protocol
  import Ni = NiSpec
  import Nf = NfSpec
  import Nr = NrSpec
  import NiTheorems
  import NfTheorems
  import NrTheorems
  import SessionIds
  import opened SystemSpec
  import SystemTheorems
  import SystemRuns
  import Wire
  import OC = ObjectCodec
  import MP = MessageParser

  /** Where a message comes from. */
  datatype Origin =
    /** The session has made it: a CREATE, a REFRESH or a BIDDING. */
    | Built
    /** A success response of this node to a request. */
    | Success(request: Msg)
    /** An error response of this node to a message. */
    | Failure(request: Msg)
    /** A received message, passed on with its objects or with more IPAP objects. */
    | Forwarded(received: Msg)
  {
    predicate Fits(m: Msg) {
      match this
      case Built => m.kind == CREATE || m.kind == REFRESH || m.kind == BIDDING
      case Success(request) => m.kind == RESPONSE && m.IsSuccess() && m.msn == request.msn
      case Failure(request) => m.kind == RESPONSE && m.code.Some? && !m.IsSuccess() && m.msn == request.msn
      case Forwarded(received) => m.(objects := received.objects) == received
    }

    /** The messages of this origin are complete, as far as one can tell before they are sent. */
    predicate IsComplete() {
      match this
      case Built => true
      case Success(request) => request.msn.Some?
      case Failure(_) => false
      case Forwarded(received) => received.HasRequired()
    }
  }

  /** A message has the given origin, is complete exactly as that says, and holds no surplus if it was made here. */
  predicate Comes(origin: Origin, m: Msg) {
    origin.Fits(m) && (m.HasRequired() <==> origin.IsComplete()) && (!origin.Forwarded? ==> m.HasOnlyRequired())
  }

  /** Each call that was added to a log and sends a message sends one of the given origin. */
  ghost predicate SendsFrom(origin: Packet -> Origin, before: nat, log: seq<Effect>) {
    forall k :: before <= k < |log| && log[k].Sent? ==> Comes(origin(log[k].packet), log[k].packet.msg)
  }

  ghost predicate StepSends<S>(origin: Packet -> Origin, ctx: Ctx, o: Outcome<S>) {
    !o.Halted? ==> |ctx.log| <= |o.ctx.log| && SendsFrom(origin, |ctx.log|, o.ctx.log)
  }

  // The initiator

  function OfInitiator(): Packet -> Origin {
    (p: Packet) => Built
  }

  lemma InitiatorOpens(s: Ni.Ni, evt: Event, ctx: Ctx, random: nat)
    requires NiTheorems.SavedMessages(s) && s.state == Ni.CLOSE
    ensures StepSends(OfInitiator(), ctx, Ni.Step(s, evt, ctx, random))
  {
  }

  lemma PendingInitiatorSends(s: Ni.Ni, evt: Event, ctx: Ctx, random: nat)
    requires NiTheorems.SavedMessages(s) && s.state == Ni.PENDING
    ensures StepSends(OfInitiator(), ctx, Ni.Step(s, evt, ctx, random))
  {
  }

  lemma AbandonSends(s: Ni.Ni, ctx: Ctx)
    ensures StepSends(OfInitiator(), ctx, Ni.Abandon(s, ctx))
  {
  }

  lemma InstallingInitiatorSends(s: Ni.Ni, evt: Event, ctx: Ctx, random: nat)
    requires s.state == Ni.PENDING_INSTALLING
    ensures StepSends(OfInitiator(), ctx, Ni.Step(s, evt, ctx, random))
  {
    AbandonSends(s, ctx);
    AbandonSends(s.(rule := EMPTY_RULE), ctx);
  }

  lemma TimedInitiatorSends(s: Ni.Ni, ctx: Ctx)
    requires NiTheorems.SavedMessages(s)
    ensures StepSends(OfInitiator(), ctx, Ni.StepRefreshTimer(s, ctx))
    ensures StepSends(OfInitiator(), ctx, Ni.StepRefreshUnanswered(s, ctx))
  {
  }

  lemma AuctioningInitiatorSends(s: Ni.Ni, evt: Event, ctx: Ctx, random: nat)
    requires NiTheorems.SavedMessages(s) && s.state == Ni.AUCTIONING
    ensures StepSends(OfInitiator(), ctx, Ni.Step(s, evt, ctx, random))
  {
    if evt.Timer? {
      TimedInitiatorSends(s, ctx);
    }
  }

  lemma TeardownInitiatorSends(s: Ni.Ni, evt: Event, ctx: Ctx, random: nat)
    requires s.state == Ni.PENDING_TEARDOWN
    ensures StepSends(OfInitiator(), ctx, Ni.Step(s, evt, ctx, random))
  {
  }

  /** All that an initiator sends it has made itself, and it is complete; that includes every retransmission. */
  lemma InitiatorSends(s: Ni.Ni, out: set<TimerId>, next: TimerId, evt: Event, ctx: Ctx, random: nat)
    requires NiTheorems.Good(s, out, next)
    ensures StepSends(OfInitiator(), ctx, Ni.Step(s, evt, ctx, random))
  {
    match s.state
    case CLOSE => InitiatorOpens(s, evt, ctx, random);
    case PENDING => PendingInitiatorSends(s, evt, ctx, random);
    case PENDING_INSTALLING => InstallingInitiatorSends(s, evt, ctx, random);
    case AUCTIONING => AuctioningInitiatorSends(s, evt, ctx, random);
    case PENDING_TEARDOWN => TeardownInitiatorSends(s, evt, ctx, random);
  }

  // The forwarder

  function NoMessage(): Msg {
    Msg(NOTIFY, None, None, None, None, None, [])
  }

  function MsgOf(p: Option<Packet>): Msg {
    if p.Some? then p.value.msg else NoMessage()
  }

  /** The message that an error response of a forwarder answers. */
  function Answered(s: Nf.Nf, evt: Event): Msg {
    if evt.ApiInstall? then MsgOf(s.lastResponse) else if evt.Is(CREATE) then evt.packet.msg else MsgOf(s.lastCreate)
  }

  function OfForwarder(s: Nf.Nf, evt: Event): Packet -> Origin {
    (p: Packet) => if evt.MsgIn? && p == evt.packet then Forwarded(p.msg)
         else if p.msg.kind != RESPONSE then Built
         else if evt.ApiInstall? && p.msg.IsSuccess() then Forwarded(MsgOf(s.lastResponse))
         else Failure(Answered(s, evt))
  }

  lemma AcceptSends(s: Nf.Nf, s': Nf.Nf, p: Packet, forThisNode: bool, ctx: Ctx, cfg: Config)
    requires p.msg.kind == CREATE
    ensures StepSends(OfForwarder(s, MsgIn(p, forThisNode)), ctx, Nf.Accept(s', p, ctx, cfg))
  {
  }

  lemma CreateAgainSends(s: Nf.Nf, p: Packet, forThisNode: bool, ctx: Ctx, cfg: Config, passOn: bool)
    requires p.msg.kind == CREATE
    ensures StepSends(OfForwarder(s, MsgIn(p, forThisNode)), ctx, Nf.StepCreateAgain(s, p, ctx, cfg, passOn))
  {
    AcceptSends(s, s.(lifetime := p.msg.lifetime.GetOr(0), msn := p.msg.msn.GetOr(0)), p, forThisNode, ctx, cfg);
  }

  lemma CloseSends(s: Nf.Nf, evt: Event, ctx: Ctx, cfg: Config)
    requires s.state == Nf.CLOSE
    ensures StepSends(OfForwarder(s, evt), ctx, Nf.Step(s, evt, ctx, cfg))
  {
    if evt.Is(CREATE) {
      var m := evt.packet.msg;
      var s' := s.(maxLifetime := cfg.nfMaxLifetime, responseTimeout := cfg.nfMaxLifetime);
      var lifetime := Min(m.lifetime.GetOr(0), s'.maxLifetime);
      AcceptSends(s, s'.(lifetime := lifetime, msn := m.msn.GetOr(0)), evt.packet, evt.forThisNode, ctx, cfg);
    }
  }

  lemma PendingSends(s: Nf.Nf, evt: Event, ctx: Ctx, cfg: Config)
    requires NfTheorems.Pends(s) && !evt.Is(CREATE) && s.state != Nf.PENDING_INSTALLING
    ensures StepSends(OfForwarder(s, evt), ctx, Nf.Step(s, evt, ctx, cfg))
  {
  }

  lemma UnreachableSends(s: Nf.Nf, evt: Event, ctx: Ctx)
    requires (s.lastCreate.Some? ==> s.lastCreate.value.msg.kind == CREATE) && !evt.MsgIn? && !evt.ApiInstall?
    ensures StepSends(OfForwarder(s, evt), ctx, Nf.StepUnreachable(s, ctx))
  {
  }

  lemma ExtendedComes(response: Packet, installed: Objects)
    requires response.msg.kind == RESPONSE
    ensures Comes(Forwarded(response.msg), ExtendResponse(response, installed).msg)
  {
  }

  /** A step that logs one message and one timer sends what that message is. */
  lemma OneSent(origin: Packet -> Origin, before: seq<Effect>, p: Packet, timer: Effect, log: seq<Effect>)
    requires log == before + [Sent(p)] + [timer] && timer.Started? && Comes(origin(p), p.msg)
    ensures |before| <= |log| && SendsFrom(origin, |before|, log)
  {
  }

  lemma ForwarderInstalledSends(s: Nf.Nf, response: Packet, installed: Objects, ctx: Ctx)
    requires s.lastResponse == Some(response) && response.msg.kind == RESPONSE && response.msg.IsSuccess()
    requires |s.rule.requests| == |installed|
    ensures StepSends(OfForwarder(s, ApiInstall(installed)), ctx, Nf.StepInstalled(s, installed, ctx))
  {
    var q := ExtendResponse(response, Install(s.rule.responses, ctx.nextKey, installed));
    ExtendedComes(response, Install(s.rule.responses, ctx.nextKey, installed));
    OneSent(OfForwarder(s, ApiInstall(installed)), ctx.log, q, Started(ctx.nextTimer, s.lifetime),
            Nf.StepInstalled(s, installed, ctx).ctx.log);
  }

  lemma ForwarderMismatchSends(s: Nf.Nf, response: Packet, installed: Objects, ctx: Ctx)
    requires s.lastResponse == Some(response) && |s.rule.requests| != |installed|
    ensures StepSends(OfForwarder(s, ApiInstall(installed)), ctx, Nf.StepInstalled(s, installed, ctx))
  {
  }

  lemma InstalledSends(s: Nf.Nf, stateLive: bool, installed: Objects, ctx: Ctx)
    requires NfTheorems.Inv(s, stateLive) && s.state == Nf.PENDING_INSTALLING
    ensures StepSends(OfForwarder(s, ApiInstall(installed)), ctx, Nf.StepInstalled(s, installed, ctx))
  {
    if |s.rule.requests| == |installed| {
      ForwarderInstalledSends(s, s.lastResponse.value, installed, ctx);
    } else {
      ForwarderMismatchSends(s, s.lastResponse.value, installed, ctx);
    }
  }

  lemma InstallingSends(s: Nf.Nf, stateLive: bool, evt: Event, ctx: Ctx, cfg: Config)
    requires NfTheorems.Inv(s, stateLive) && s.state == Nf.PENDING_INSTALLING && !evt.Is(CREATE) && !evt.ApiInstall?
    ensures StepSends(OfForwarder(s, evt), ctx, Nf.Step(s, evt, ctx, cfg))
  {
    if evt.NoNextNode? || evt.Timer? {
      UnreachableSends(s, evt, ctx);
    }
  }

  lemma RefreshSends(s: Nf.Nf, p: Packet, forThisNode: bool, ctx: Ctx)
    ensures StepSends(OfForwarder(s, MsgIn(p, forThisNode)), ctx, Nf.StepRefresh(s, p, ctx))
  {
  }

  lemma RefreshAnsweredSends(s: Nf.Nf, p: Packet, forThisNode: bool, ctx: Ctx)
    ensures StepSends(OfForwarder(s, MsgIn(p, forThisNode)), ctx, Nf.StepRefreshAnswered(s, p, ctx))
  {
  }

  lemma AuctioningSends(s: Nf.Nf, evt: Event, ctx: Ctx, cfg: Config)
    requires s.state == Nf.AUCTIONING || s.state == Nf.PENDING_TEARDOWN
    ensures StepSends(OfForwarder(s, evt), ctx, Nf.Step(s, evt, ctx, cfg))
  {
    if evt.MsgIn? && s.state == Nf.AUCTIONING {
      RefreshSends(s, evt.packet, evt.forThisNode, ctx);
      RefreshAnsweredSends(s, evt.packet, evt.forThisNode, ctx);
    }
  }

  /** What a forwarder makes is complete, what it passes on is as complete as it was, and its errors never are. */
  lemma ForwarderSends(s: Nf.Nf, out: set<TimerId>, next: TimerId, evt: Event, ctx: Ctx, cfg: Config)
    requires NfTheorems.Good(s, out, next)
    ensures StepSends(OfForwarder(s, evt), ctx, Nf.Step(s, evt, ctx, cfg))
  {
    if s.state == Nf.CLOSE {
      CloseSends(s, evt, ctx, cfg);
    } else if NfTheorems.Pends(s) && evt.Is(CREATE) {
      CreateAgainSends(s, evt.packet, evt.forThisNode, ctx, cfg, s.state != Nf.PENDING_CHECK);
    } else if s.state == Nf.PENDING_INSTALLING && evt.ApiInstall? {
      InstalledSends(s, s.stateTimer in out, evt.installed, ctx);
    } else if s.state == Nf.PENDING_INSTALLING {
      InstallingSends(s, s.stateTimer in out, evt, ctx, cfg);
    } else if NfTheorems.Pends(s) {
      PendingSends(s, evt, ctx, cfg);
    } else {
      AuctioningSends(s, evt, ctx, cfg);
    }
  }

  // The responder

  function OfResponder(s: Nr.Nr, evt: Event): Packet -> Origin {
    (p: Packet) => var request := if evt.MsgIn? then evt.packet.msg else MsgOf(s.lastCreate);
         if p.msg.kind != RESPONSE then Built else if p.msg.IsSuccess() then Success(request) else Failure(request)
  }

  lemma SuccessComes(p: Packet, lifetime: uint32, installed: Objects)
    ensures Comes(Success(p.msg), CreateSuccessResponse(p, lifetime).msg)
    ensures Comes(Success(p.msg), ExtendResponse(CreateSuccessResponse(p, lifetime), installed).msg)
  {
  }

  lemma ResponderAcceptSends(s: Nr.Nr, s': Nr.Nr, p: Packet, forThisNode: bool, ctx: Ctx, cfg: Config)
    ensures StepSends(OfResponder(s, MsgIn(p, forThisNode)), ctx, Nr.Accept(s', p, ctx, cfg))
  {
    SuccessComes(p, s'.lifetime, map[]);
  }

  lemma ClosedResponderSends(s: Nr.Nr, evt: Event, ctx: Ctx, cfg: Config)
    requires s.state == Nr.CLOSE
    ensures StepSends(OfResponder(s, evt), ctx, Nr.Step(s, evt, ctx, cfg))
  {
    if evt.Is(CREATE) {
      var p := evt.packet;
      var s' := s.(mri := Some(p.mri), lastCreate := Some(p), lifetime := Min(p.msg.lifetime.GetOr(0), s.maxLifetime),
                   msn := p.msg.msn.GetOr(0));
      ResponderAcceptSends(s, s', p, evt.forThisNode, ctx, cfg);
    }
  }

  lemma PendingResponderSends(s: Nr.Nr, evt: Event, ctx: Ctx, cfg: Config)
    requires s.state == Nr.PENDING
    ensures StepSends(OfResponder(s, evt), ctx, Nr.Step(s, evt, ctx, cfg))
  {
  }

  lemma InstallUnansweredSends(s: Nr.Nr, id: TimerId, ctx: Ctx)
    ensures StepSends(OfResponder(s, Timer(id)), ctx, Nr.StepInstallUnanswered(s, ctx))
  {
  }

  lemma ResponderInstalledSends(s: Nr.Nr, installed: Objects, ctx: Ctx, cfg: Config)
    requires |s.rule.requests| == |installed|
    ensures StepSends(OfResponder(s, ApiInstall(installed)), ctx, Nr.StepInstalled(s, installed, ctx, cfg))
  {
    if s.lastCreate.Some? {
      SuccessComes(s.lastCreate.value, s.lifetime, Install(s.rule.responses, ctx.nextKey, installed));
    }
  }

  lemma ResponderMismatchSends(s: Nr.Nr, installed: Objects, ctx: Ctx, cfg: Config)
    requires |s.rule.requests| != |installed|
    ensures StepSends(OfResponder(s, ApiInstall(installed)), ctx, Nr.StepInstalled(s, installed, ctx, cfg))
  {
  }

  lemma InstallingResponderSends(s: Nr.Nr, evt: Event, ctx: Ctx, cfg: Config)
    requires s.state == Nr.PENDING_INSTALLING
    ensures StepSends(OfResponder(s, evt), ctx, Nr.Step(s, evt, ctx, cfg))
  {
    if evt.Timer? {
      InstallUnansweredSends(s, evt.id, ctx);
    } else if evt.ApiInstall? {
      if |s.rule.requests| == |evt.installed| {
        ResponderInstalledSends(s, evt.installed, ctx, cfg);
      } else {
        ResponderMismatchSends(s, evt.installed, ctx, cfg);
      }
    }
  }

  lemma ResponderRefreshSends(s: Nr.Nr, p: Packet, forThisNode: bool, ctx: Ctx, cfg: Config)
    ensures StepSends(OfResponder(s, MsgIn(p, forThisNode)), ctx, Nr.StepRefresh(s, p, ctx, cfg))
  {
    SuccessComes(p, Min(p.msg.lifetime.GetOr(0), s.maxLifetime), map[]);
  }

  lemma AuctioningResponderSends(s: Nr.Nr, evt: Event, ctx: Ctx, cfg: Config)
    requires s.state == Nr.AUCTIONING || s.state == Nr.PENDING_TEARDOWN
    ensures StepSends(OfResponder(s, evt), ctx, Nr.Step(s, evt, ctx, cfg))
  {
    if evt.Is(REFRESH) {
      ResponderRefreshSends(s, evt.packet, evt.forThisNode, ctx, cfg);
    }
  }

  /** The success responses of a responder are complete exactly when the request had a number, and its errors never are. */
  lemma ResponderSends(s: Nr.Nr, evt: Event, ctx: Ctx, cfg: Config)
    ensures StepSends(OfResponder(s, evt), ctx, Nr.Step(s, evt, ctx, cfg))
  {
    match s.state
    case CLOSE => ClosedResponderSends(s, evt, ctx, cfg);
    case PENDING => PendingResponderSends(s, evt, ctx, cfg);
    case PENDING_INSTALLING => InstallingResponderSends(s, evt, ctx, cfg);
    case AUCTIONING => AuctioningResponderSends(s, evt, ctx, cfg);
    case PENDING_TEARDOWN => AuctioningResponderSends(s, evt, ctx, cfg);
  }

  // The node

  function OriginOf(x: Option<Session>, evt: Event): Packet -> Origin {
    if x.None? then (p: Packet) => Failure(NoMessage())
    else
      match x.value
      case Initiator(_) => OfInitiator()
      case Forwarder(s) => OfForwarder(s, evt)
      case Responder(s) => OfResponder(s, evt)
  }

  lemma SessionSends(x: Session, out: set<TimerId>, next: TimerId, evt: Event, ctx: Ctx, cfg: Config, random: nat)
    requires SystemTheorems.SessionGood(x, out, next)
    ensures StepSends(OriginOf(Some(x), evt), ctx, StepSession(x, evt, ctx, cfg, random))
  {
    match x
    case Initiator(s) => InitiatorSends(s, out, next, evt, ctx, random);
    case Forwarder(s) => ForwarderSends(s, out, next, evt, ctx, cfg);
    case Responder(s) => ResponderSends(s, evt, ctx, cfg);
  }

  lemma ConcludedLog(sys: Sys, sid: SessionIds.SessionId, o: Outcome<Session>)
    requires sid in sys.table
    ensures var p := Concluded(sys, sid, o); p.Running? ==> !o.Halted? && p.log == o.ctx.log
  {
  }

  /** Every message that a node sends has an origin in the session that handles the event, and is complete as that says. */
  lemma NodeSends(sys: Sys, a: Arrival, cfg: Config)
    requires SystemTheorems.Inv(sys) && Deliverable(sys, a)
    ensures var p := Process(sys, a, cfg);
            p.Running? ==> SendsFrom(OriginOf(SystemRuns.Addressee(sys, a, cfg), a.evt), 0, p.log)
  {
    var ctx := Ctx(sys.nextTimer, sys.nextKey, a.verdict, []);
    if a.evt.RoutingStateCheck? || a.evt.BadMsgIn? {
    } else if a.sid.Some? && a.sid.value in sys.table {
      var sid := a.sid.value;
      assert SystemTheorems.EntryGood(sys, sid);
      SessionSends(sys.table[sid].session, sys.Timers(sid), sys.nextTimer, a.evt, ctx, cfg, a.random);
      ConcludedLog(Taken(sys, a), sid, StepSession(sys.table[sid].session, a.evt, ctx, cfg, a.random));
    } else if Open(sys, a, cfg).Some? {
      var x := Open(sys, a, cfg).value;
      SystemTheorems.NewSessionIsGood(sys, a, cfg);
      SessionSends(x.session, sys.Timers(x.sid), sys.nextTimer, a.evt, ctx, cfg, a.random);
      ConcludedLog(Insert(sys, x), x.sid, StepSession(x.session, a.evt, ctx, cfg, a.random));
    }
  }

  /** On the wire: a message of the node lacks an object that its serialiser writes exactly when its origin is incomplete. */
  lemma NodeSendsComplete(sys: Sys, a: Arrival, cfg: Config, k: nat)
    requires SystemTheorems.Inv(sys) && Deliverable(sys, a)
    ensures var p := Process(sys, a, cfg);
            p.Running? && k < |p.log| && p.log[k].Sent? ==>
              var m := p.log[k].packet.msg;
              var origin := OriginOf(SystemRuns.Addressee(sys, a, cfg), a.evt)(p.log[k].packet);
              && origin.Fits(m)
              && (Wire.ToWire(m).Complete() <==> origin.IsComplete())
              && (!origin.Forwarded? ==> Wire.ToWire(m).Exact())
  {
    NodeSends(sys, a, cfg);
    var p := Process(sys, a, cfg);
    if p.Running? && k < |p.log| && p.log[k].Sent? {
      Wire.CompleteMeansRequired(p.log[k].packet.msg);
      if p.log[k].packet.msg.HasOnlyRequired() {
        Wire.NothingElseIsThere(p.log[k].packet.msg);
      }
    }
  }

  /** What a node has made itself is well-formed, but for a BIDDING without an object. */
  lemma OwnIsWellFormed(origin: Origin, m: Msg)
    requires Comes(origin, m) && !origin.Forwarded? && (m.kind == BIDDING ==> m.objects != [])
    requires m.code.Some? ==> m.code.value.severity < 0x10
    ensures Wire.WellFormed(m)
  {
  }

  /** Whatever a node makes and sends, error responses included, is read back as it was. */
  lemma NodeSendsReadably(sys: Sys, a: Arrival, cfg: Config, k: nat, imp: OC.Import)
    requires SystemTheorems.Inv(sys) && Deliverable(sys, a)
    ensures var p := Process(sys, a, cfg);
            p.Running? && k < |p.log| && p.log[k].Sent? ==>
              var m := p.log[k].packet.msg;
              var origin := OriginOf(SystemRuns.Addressee(sys, a, cfg), a.evt)(p.log[k].packet);
              && !origin.Forwarded? && Wire.Carriable(m.objects, imp)
              && (m.kind == BIDDING ==> m.objects != []) && (m.code.Some? ==> m.code.value.severity < 0x10) ==>
                var r := MP.Parse(Wire.ToWire(m).Encode(), imp, false);
                r.Accepted? && r.errors == [] && Wire.FromWire(r.message) == m
  {
    NodeSends(sys, a, cfg);
    var p := Process(sys, a, cfg);
    if p.Running? && k < |p.log| && p.log[k].Sent? {
      var m := p.log[k].packet.msg;
      var origin := OriginOf(SystemRuns.Addressee(sys, a, cfg), a.evt)(p.log[k].packet);
      if && !origin.Forwarded? && Wire.Carriable(m.objects, imp)
         && (m.kind == BIDDING ==> m.objects != []) && (m.code.Some? ==> m.code.value.severity < 0x10) {
        OwnIsWellFormed(origin, m);
        Wire.MessageSurvivesTheWire(m, imp);
      }
    }
  }
}
