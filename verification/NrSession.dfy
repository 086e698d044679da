/** The responder session as an object whose handlers update its fields. */
module NrSessions {
  import opened Bytes
  import opened Protocol
  import opened SerialNumber
  import opened SessionIds
  import opened DispatcherServices
  import opened NrSpec

  class NrSession {
    const id: SessionId
    const cfg: Config
    ghost const number: nat
    const stateTimer: Timer
    var state: State
    var msn: uint32
    var biddingMsn: uint32
    var lifetime: uint32
    const maxLifetime: uint32
    var createCounter: uint32
    const maxRetries: uint32
    var mri: Option<Mri>
    var lastCreate: Option<Packet>
    var rule: Rule

    ghost predicate Valid() {
      stateTimer.session == number
    }

    /** The state of the session as a value. */
    ghost function View(): Nr
      reads this, stateTimer
    {
      Nr(state, msn, biddingMsn, lifetime, maxLifetime, createCounter, maxRetries, stateTimer.id, mri, lastCreate, rule)
    }

    constructor (id: SessionId, cfg: Config, biddingMsn: uint32, ghost number: nat)
      ensures Valid() && this.id == id && this.cfg == cfg && this.number == number && fresh(stateTimer)
      ensures View() == Initial(cfg, biddingMsn)
    {
      this.id, this.cfg := id, cfg;
      this.number := number;
      stateTimer := new Timer(number);
      maxLifetime, maxRetries := cfg.nrMaxLifetime, cfg.nrMaxRetries;
      state, msn, this.biddingMsn, lifetime, createCounter := CLOSE, 0, biddingMsn, 0, 0;
      mri, lastCreate, rule := None, None, EMPTY_RULE;
    }

    /** The session and the dispatcher are where the transition function says, but for the state, which the caller sets. */
    ghost predicate Did(f: Flow<State>, o: Outcome<Nr>, d: Services)
      reads this, stateTimer, d
    {
      match o
      case Next(s, c) => f == To(s.state) && View().(state := s.state) == s && d.Ctx() == c
      case Threw(c) => f == Throws && d.Ctx() == c
      case Halted => f == Halts
    }

    method StartState(d: Services, seconds: nat)
      modifies stateTimer, d
      ensures (View(), d.Ctx()) == StartStateTimer(old(View()), old(d.Ctx()), seconds)
    {
      stateTimer.Start(d, seconds);
    }

    /** save_auction_rule: the objects replace the requests of the rule. */
    method SaveAuctionRule(d: Services, objects: seq<Payload>)
      modifies this, d
      ensures (View(), d.Ctx()) == SaveRequests(old(View()), objects, old(d.Ctx()))
    {
      var requests := d.AssignKeys(objects);
      rule := rule.(requests := requests);
    }

    // STATE_ANSLP_CLOSE

    method AcceptCreate(d: Services, p: Packet) returns (f: Flow<State>)
      requires state == CLOSE
      modifies this, stateTimer, d
      ensures Did(f, old(Accept(View(), p, d.Ctx(), cfg)), d)
    {
      if !p.mri.pathCoupled {
        return Throws;
      }
      var objects := p.msg.MspecObjects();
      if objects.None? {
        return Halts;
      }
      SaveAuctionRule(d, objects.value);
      if Checks(p.msg, cfg) {
        var ok := d.Call(Checked(rule.requests));
        if !ok {
          d.SendMessage(CreateResponse(p, CONFIGURATION_FAILED));
          return To(CLOSE);
        }
        createCounter := (createCounter + 1) % TWO_32;
        StartState(d, lifetime);
        return To(PENDING);
      }
      rule := EMPTY_RULE;
      d.SendMessage(CreateSuccessResponse(p, lifetime));
      StartState(d, lifetime);
      return To(AUCTIONING);
    }

    method HandleClose(d: Services, evt: Event) returns (f: Flow<State>)
      requires state == CLOSE
      modifies this, stateTimer, d
      ensures Did(f, old(StepClose(View(), evt, d.Ctx(), cfg)), d)
    {
      if !evt.Is(CREATE) {
        return To(CLOSE);
      }
      var p := evt.packet;
      mri := Some(p.mri);
      lastCreate := Some(p);
      var granted := Min(p.msg.lifetime.GetOr(0), maxLifetime);
      if granted == 0 {
        d.SendMessage(CreateResponse(p, CONFIGURATION_FAILED));
        return To(CLOSE);
      }
      lifetime := granted;
      msn := p.msg.msn.GetOr(0);
      f := AcceptCreate(d, p);
    }

    // STATE_ANSLP_PENDING

    method CheckUnanswered(d: Services) returns (f: Flow<State>)
      requires state == PENDING
      modifies this, stateTimer, d
      ensures Did(f, old(StepCheckUnanswered(View(), d.Ctx(), cfg)), d)
    {
      if lastCreate.None? {
        return Halts;
      }
      var create := lastCreate.value;
      if createCounter >= maxRetries {
        d.SendMessage(CreateResponse(create, INTERNAL_ERROR));
        return To(CLOSE);
      }
      var objects := create.msg.MspecObjects();
      if objects.None? {
        return Halts;
      }
      createCounter := createCounter + 1;
      SaveAuctionRule(d, objects.value);
      if Checks(create.msg, cfg) {
        var ok := d.Call(Checked(rule.requests));
        if !ok {
          return Throws;
        }
      }
      StartState(d, lifetime);
      return To(PENDING);
    }

    method CheckAnswered(d: Services, keys: set<Key>) returns (f: Flow<State>)
      requires state == PENDING
      modifies this, stateTimer, d
      ensures Did(f, old(StepChecked(View(), keys, d.Ctx())), d)
    {
      var kept := KeepChecked(rule.requests, keys);
      rule := rule.(requests := kept);
      createCounter := 0;
      var ok := d.Call(Installed(rule));
      if !ok {
        return Throws;
      }
      StartState(d, lifetime);
      return To(PENDING_INSTALLING);
    }

    method HandlePending(d: Services, evt: Event) returns (f: Flow<State>)
      requires state == PENDING
      modifies this, stateTimer, d
      ensures Did(f, old(StepPending(View(), evt, d.Ctx(), cfg)), d)
    {
      if evt.NoNextNode? || evt == Timer(stateTimer.id) {
        f := CheckUnanswered(d);
      } else if evt.ApiCheck? {
        f := CheckAnswered(d, evt.keys);
      } else {
        return To(PENDING);
      }
    }

    // STATE_ANSLP_PENDING_INSTALLING

    method InstallUnanswered(d: Services) returns (f: Flow<State>)
      requires state == PENDING_INSTALLING
      modifies this, stateTimer, d
      ensures Did(f, old(StepInstallUnanswered(View(), d.Ctx())), d)
    {
      if createCounter < maxRetries {
        var ok := d.Call(Installed(rule));
        if !ok {
          return Throws;
        }
        createCounter := createCounter + 1;
        StartState(d, lifetime);
        return To(PENDING_INSTALLING);
      }
      if lastCreate.None? {
        return Halts;
      }
      d.SendMessage(CreateResponse(lastCreate.value, INTERNAL_ERROR));
      return To(CLOSE);
    }

    method InstallMismatched(d: Services, create: Packet) returns (f: Flow<State>)
      requires state == PENDING_INSTALLING && lastCreate == Some(create)
      modifies this, stateTimer, d
      ensures forall objects :: |objects| != |old(rule).requests| ==>
                Did(f, old(StepInstalled(View(), objects, d.Ctx(), cfg)), d)
    {
      if |rule.responses| > 0 {
        var ok := d.Call(Removed(rule));
        if !ok {
          return Throws;
        }
      }
      lifetime := 0;
      d.SendMessage(CreateResponse(create, INTERNAL_ERROR));
      StartState(d, cfg.nrResponseTimeout);
      return To(PENDING_TEARDOWN);
    }

    method InstallAnswered(d: Services, objects: Objects) returns (f: Flow<State>)
      requires state == PENDING_INSTALLING
      modifies this, stateTimer, d
      ensures Did(f, old(StepInstalled(View(), objects, d.Ctx(), cfg)), d)
    {
      if lastCreate.None? {
        return Halts;
      }
      var create := lastCreate.value;
      if |rule.requests| != |objects| {
        f := InstallMismatched(d, create);
        return;
      }
      var responses := SetResponseObjects(d, rule.responses, objects);
      rule := rule.(responses := responses);
      var response := CreateSuccessResponse(create, lifetime);
      var list := ListObjects(rule.responses);
      d.SendMessage(response.(msg := response.msg.(objects := response.msg.objects + list)));
      StartState(d, lifetime);
      return To(AUCTIONING);
    }

    method HandlePendingInstalling(d: Services, evt: Event) returns (f: Flow<State>)
      requires state == PENDING_INSTALLING
      modifies this, stateTimer, d
      ensures Did(f, old(StepPendingInstalling(View(), evt, d.Ctx(), cfg)), d)
    {
      if evt == Timer(stateTimer.id) {
        f := InstallUnanswered(d);
      } else if evt.ApiInstall? {
        f := InstallAnswered(d, evt.installed);
      } else {
        return To(PENDING_INSTALLING);
      }
    }

    // STATE_ANSLP_AUCTIONING

    method TearDown(d: Services) returns (f: Flow<State>)
      requires state == AUCTIONING
      modifies this, stateTimer, d
      ensures Did(f, old(Teardown(View(), d.Ctx(), cfg)), d)
    {
      if |rule.responses| == 0 {
        stateTimer.Stop();
        return To(CLOSE);
      }
      var ok := d.Call(Removed(rule));
      if !ok {
        return Throws;
      }
      StartState(d, cfg.nrResponseTimeout);
      return To(PENDING_TEARDOWN);
    }

    method RefreshIn(d: Services, p: Packet) returns (f: Flow<State>)
      requires state == AUCTIONING
      modifies this, stateTimer, d
      ensures Did(f, old(StepRefresh(View(), p, d.Ctx(), cfg)), d)
    {
      var granted := Min(p.msg.lifetime.GetOr(0), maxLifetime);
      var number := p.msg.msn.GetOr(0);
      if !IsGreaterThan(number, msn) {
        return To(AUCTIONING);
      }
      d.SendMessage(CreateSuccessResponse(p, granted));
      if granted > 0 {
        lifetime := granted;
        msn := number;
        stateTimer.Restart(d, granted);
        return To(AUCTIONING);
      }
      f := TearDown(d);
    }

    method BiddingIn(d: Services, p: Packet, forThisNode: bool) returns (f: Flow<State>)
      modifies d
      ensures Did(f, old(StepBiddingIn(View(), p, forThisNode, d.Ctx())), d)
    {
      if !forThisNode {
        return To(state);
      }
      var objects := p.msg.MspecObjects();
      if objects.None? {
        return Halts;
      }
      var ok := d.Call(Interacted(true, objects.value));
      f := if ok then To(state) else Throws;
    }

    method BiddingOut(d: Services, objects: seq<Payload>, hasQueue: bool) returns (f: Flow<State>)
      modifies this, d
      ensures Did(f, old(StepBiddingOut(View(), objects, hasQueue, d.Ctx())), d)
    {
      if mri.None? {
        return Halts;
      }
      biddingMsn := Increment(biddingMsn);
      d.SendMessage(Packet(Msg(BIDDING, Some(biddingMsn), None, None, None, None, objects), mri.value.Inverted()));
      if hasQueue {
        d.Enqueue();
      }
      return To(state);
    }

    method HandleAuctioning(d: Services, evt: Event) returns (f: Flow<State>)
      requires state == AUCTIONING
      modifies this, stateTimer, d
      ensures Did(f, old(StepAuctioning(View(), evt, d.Ctx(), cfg)), d)
    {
      if evt.Is(REFRESH) {
        f := RefreshIn(d, evt.packet);
      } else if evt.Is(BIDDING) {
        f := BiddingIn(d, evt.packet, evt.forThisNode);
      } else if evt.ApiBidding? {
        f := BiddingOut(d, evt.objects, evt.hasQueue);
      } else if evt == Timer(stateTimer.id) {
        f := TearDown(d);
      } else {
        return To(AUCTIONING);
      }
    }

    // STATE_ANSLP_PENDING_TEARDOWN

    method HandlePendingTeardown(d: Services, evt: Event) returns (f: Flow<State>)
      requires state == PENDING_TEARDOWN
      modifies this, stateTimer, d
      ensures Did(f, old(StepPendingTeardown(View(), evt, d.Ctx(), cfg)), d)
    {
      if evt == Timer(stateTimer.id) {
        if createCounter >= maxRetries {
          return To(CLOSE);
        }
        var ok := d.Call(Removed(rule));
        if !ok {
          return Throws;
        }
        createCounter := createCounter + 1;
        StartState(d, cfg.nrResponseTimeout);
        return To(PENDING_TEARDOWN);
      } else if evt.ApiBidding? {
        f := BiddingOut(d, evt.objects, evt.hasQueue);
      } else if evt.ApiRemove? {
        stateTimer.Stop();
        return To(CLOSE);
      } else {
        return To(PENDING_TEARDOWN);
      }
    }

    /** process_event: the handler of the current state gives the next one. */
    method ProcessEvent(d: Services, evt: Event) returns (f: Flow<State>)
      modifies this, stateTimer, d
      ensures match old(Step(View(), evt, d.Ctx(), cfg))
              case Next(s, c) => f == To(s.state) && View() == s && d.Ctx() == c
              case Threw(c) => f == Throws && d.Ctx() == c
              case Halted => f == Halts
    {
      ghost var o := Step(View(), evt, d.Ctx(), cfg);
      match state {
        case CLOSE => f := HandleClose(d, evt);
        case PENDING => f := HandlePending(d, evt);
        case PENDING_INSTALLING => f := HandlePendingInstalling(d, evt);
        case AUCTIONING => f := HandleAuctioning(d, evt);
        case PENDING_TEARDOWN => f := HandlePendingTeardown(d, evt);
      }
      assert Did(f, o, d);
      if f.To? {
        state := f.state;
      }
    }
  }
}
