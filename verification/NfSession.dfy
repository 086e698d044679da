/** The forwarder session as an object whose handlers update its fields. */
module NfSessions {
  import opened Bytes
  import opened Protocol
  import opened SerialNumber
  import opened SessionIds
  import opened DispatcherServices
  import opened NfSpec

  class NfSession {
    const id: SessionId
    const cfg: Config
    ghost const number: nat
    const stateTimer: Timer
    const responseTimer: Timer
    var state: State
    var msn: uint32
    var lifetime: uint32
    var maxLifetime: uint32
    var responseTimeout: uint32
    var nrMri: Option<Mri>
    var lastCreate: Option<Packet>
    var lastRefresh: Option<Packet>
    var lastResponse: Option<Packet>
    var rule: Rule

    ghost predicate Valid() {
      stateTimer.session == number && responseTimer.session == number && stateTimer != responseTimer
    }

    /** The state of the session as a value. */
    ghost function View(): Nf
      reads this, stateTimer, responseTimer
    {
      Nf(state, msn, lifetime, maxLifetime, responseTimeout, stateTimer.id, responseTimer.id, nrMri,
         lastCreate, lastRefresh, lastResponse, rule)
    }

    constructor (id: SessionId, cfg: Config, ghost number: nat)
      ensures Valid() && this.id == id && this.cfg == cfg && this.number == number
      ensures fresh(stateTimer) && fresh(responseTimer) && View() == INITIAL
    {
      this.id, this.cfg := id, cfg;
      this.number := number;
      stateTimer := new Timer(number);
      responseTimer := new Timer(number);
      state, msn, lifetime, maxLifetime, responseTimeout := CLOSE, 0, 0, 0, 0;
      nrMri, lastCreate, lastRefresh, lastResponse, rule := None, None, None, None, EMPTY_RULE;
    }

    /** The session and the dispatcher are where the transition function says, but for the state, which the caller sets. */
    ghost predicate Did(f: Flow<State>, o: Outcome<Nf>, d: Services)
      reads this, stateTimer, responseTimer, d
    {
      match o
      case Next(s, c) => f == To(s.state) && View().(state := s.state) == s && d.Ctx() == c
      case Threw(c) => f == Throws && d.Ctx() == c
      case Halted => f == Halts
    }

    method StartState(d: Services, seconds: nat)
      requires Valid()
      modifies stateTimer, d
      ensures (View(), d.Ctx()) == StartStateTimer(old(View()), old(d.Ctx()), seconds)
    {
      stateTimer.Start(d, seconds);
    }

    method StartResponse(d: Services)
      requires Valid()
      modifies responseTimer, d
      ensures (View(), d.Ctx()) == StartResponseTimer(old(View()), old(d.Ctx()))
    {
      responseTimer.Start(d, responseTimeout);
    }

    /** build_create_message */
    method BuildCreateMessage(create: Msg, objects: seq<Payload>, mri: Mri) returns (p: Packet)
      ensures p == BuildCreate(View(), create, objects, mri)
    {
      p := Packet(Msg(CREATE, Some(create.msn.GetOr(0)), Some(Min(lifetime, create.lifetime.GetOr(0))),
                      Some(create.sel.GetOr(0)), Some(create.hop.GetOr(0)), None, objects), mri);
    }

    // STATE_ANSLP_CLOSE

    /** The end of process_state_close: check the objects, or pass the CREATE on. */
    method CheckOrPassOn(d: Services, p: Packet, objects: seq<Payload>) returns (f: Flow<State>)
      requires Valid() && lastCreate == Some(p) && p.mri.pathCoupled && p.mri.downstream
      requires p.msg.MspecObjects() == Some(objects)
      modifies this, stateTimer, d
      ensures Did(f, old(Accept(View(), p, d.Ctx(), cfg)), d)
    {
      nrMri := Some(p.mri);
      var requests := d.AssignKeys(objects);
      rule := rule.(requests := requests);
      if Participates(FORWARDER, p.msg.sel.GetOr(0)) && cfg.installRules {
        var ok := d.Call(Checked(requests));
        if !ok {
          d.SendMessage(CreateResponse(p, d.verdict.code));
          return To(CLOSE);
        }
        StartState(d, lifetime);
        return To(PENDING_CHECK);
      }
      var create := BuildCreateMessage(p.msg, objects, p.mri);
      d.SendMessage(create);
      StartState(d, lifetime);
      return To(PENDING);
    }

    /** process_state_close */
    method ProcessStateClose(d: Services, p: Packet) returns (f: Flow<State>)
      requires Valid()
      modifies this, stateTimer, d
      ensures Did(f, old(Accept(View(), p, d.Ctx(), cfg)), d)
    {
      lastCreate := Some(p);
      if !p.mri.pathCoupled {
        d.SendMessage(CreateResponse(p, CONFIGURATION_FAILED));
        return To(CLOSE);
      }
      if !p.mri.downstream {
        return Halts;
      }
      var objects := p.msg.MspecObjects();
      if objects.None? {
        return Halts;
      }
      f := CheckOrPassOn(d, p, objects.value);
    }

    method HandleClose(d: Services, evt: Event) returns (f: Flow<State>)
      requires Valid() && state == CLOSE
      modifies this, stateTimer, d
      ensures Did(f, old(StepClose(View(), evt, d.Ctx(), cfg)), d)
    {
      if !evt.Is(CREATE) {
        return Halts;
      }
      var create := evt.packet.msg;
      maxLifetime := cfg.nfMaxLifetime;
      responseTimeout := cfg.nfMaxLifetime;
      var granted := Min(create.lifetime.GetOr(0), maxLifetime);
      if granted == 0 {
        return To(CLOSE);
      }
      lifetime := granted;
      msn := create.msn.GetOr(0);
      f := ProcessStateClose(d, evt.packet);
    }

    // The three pending states

    method CreateAgain(d: Services, p: Packet, passOn: bool) returns (f: Flow<State>)
      requires Valid()
      modifies this, stateTimer, d
      ensures Did(f, old(StepCreateAgain(View(), p, d.Ctx(), cfg, passOn)), d)
    {
      if lastCreate.None? {
        return Halts;
      }
      var previous := lastCreate.value.msg.msn.GetOr(0);
      var number, requested := p.msg.msn.GetOr(0), p.msg.lifetime.GetOr(0);
      if number > previous && requested == 0 {
        d.SendMessage(p);
        stateTimer.Stop();
        return To(CLOSE);
      } else if number == previous {
        if passOn {
          d.SendMessage(p);
        }
        StartState(d, responseTimeout);
        return To(state);
      }
      lifetime := requested;
      msn := number;
      f := ProcessStateClose(d, p);
    }

    method Unreachable(d: Services) returns (f: Flow<State>)
      requires Valid()
      modifies this, d
      ensures Did(f, old(StepUnreachable(View(), d.Ctx())), d)
    {
      if lastCreate.None? {
        return Halts;
      }
      d.SendMessage(CreateResponse(lastCreate.value, NR_NOT_REACHED));
      return To(CLOSE);
    }

    // STATE_ANSLP_PENDING_CHECK

    method CheckAnswered(d: Services, keys: set<Key>) returns (f: Flow<State>)
      requires Valid() && state == PENDING_CHECK
      modifies this, stateTimer, d
      ensures Did(f, old(StepChecked(View(), keys, d.Ctx())), d)
    {
      if lastCreate.None? || nrMri.None? {
        return Halts;
      }
      var objects := lastCreate.value.msg.MspecObjects();
      if objects.None? {
        return Halts;
      }
      var kept := KeepChecked(rule.requests, keys);
      rule := rule.(requests := kept);
      var create := BuildCreateMessage(lastCreate.value.msg, objects.value, nrMri.value);
      d.SendMessage(create);
      StartState(d, lifetime);
      return To(PENDING);
    }

    method HandlePendingCheck(d: Services, evt: Event) returns (f: Flow<State>)
      requires Valid() && state == PENDING_CHECK
      modifies this, stateTimer, d
      ensures Did(f, old(StepPendingCheck(View(), evt, d.Ctx(), cfg)), d)
    {
      if evt.Is(CREATE) {
        f := CreateAgain(d, evt.packet, false);
      } else if evt.NoNextNode? || evt == Timer(stateTimer.id) {
        f := Unreachable(d);
      } else if evt.Timer? {
        return To(PENDING_CHECK);
      } else if evt.ApiCheck? {
        f := CheckAnswered(d, evt.keys);
      } else {
        return To(PENDING_CHECK);
      }
    }

    // STATE_ANSLP_PENDING

    method CreateAnswered(d: Services, p: Packet) returns (f: Flow<State>)
      requires Valid() && state == PENDING
      modifies this, stateTimer, responseTimer, d
      ensures Did(f, old(StepCreateAnswered(View(), p, d.Ctx())), d)
    {
      if !p.msg.IsSuccess() {
        d.SendMessage(p);
        stateTimer.Stop();
        return To(CLOSE);
      }
      StartResponse(d);
      var ok := d.Call(Installed(rule));
      if !ok {
        return Throws;
      }
      lastResponse := Some(p);
      StartState(d, responseTimeout);
      return To(PENDING_INSTALLING);
    }

    method HandlePending(d: Services, evt: Event) returns (f: Flow<State>)
      requires Valid() && state == PENDING
      modifies this, stateTimer, responseTimer, d
      ensures Did(f, old(StepPending(View(), evt, d.Ctx(), cfg)), d)
    {
      if evt.Is(CREATE) {
        f := CreateAgain(d, evt.packet, true);
      } else if evt.NoNextNode? || evt == Timer(stateTimer.id) {
        f := Unreachable(d);
      } else if evt.Timer? {
        return To(PENDING);
      } else if lastCreate.None? {
        return Halts;
      } else if evt.Answers(lastCreate.value) {
        f := CreateAnswered(d, evt.packet);
      } else {
        return To(PENDING);
      }
    }

    // STATE_ANSLP_PENDING_INSTALLING

    method InstallMismatched(d: Services, response: Packet) returns (f: Flow<State>)
      requires Valid() && state == PENDING_INSTALLING && lastResponse == Some(response)
      modifies this, stateTimer, d
      ensures forall objects :: |objects| != |old(rule).requests| ==>
                Did(f, old(StepInstalled(View(), objects, d.Ctx())), d)
    {
      stateTimer.Stop();
      lifetime := 0;
      if |rule.responses| > 0 {
        var ok := d.Call(Removed(rule));
        if !ok {
          return Throws;
        }
      }
      if nrMri.None? {
        return Halts;
      }
      msn := Increment(msn);
      d.SendMessage(Packet(Msg(REFRESH, Some(msn), Some(0), None, None, None, []), nrMri.value));
      d.SendMessage(CreateResponse(response, INTERNAL_ERROR));
      return To(CLOSE);
    }

    method InstallAnswered(d: Services, objects: Objects) returns (f: Flow<State>)
      requires Valid() && state == PENDING_INSTALLING
      modifies this, stateTimer, d
      ensures Did(f, old(StepInstalled(View(), objects, d.Ctx())), d)
    {
      if lastResponse.None? {
        return Halts;
      }
      var response := lastResponse.value;
      if |rule.requests| != |objects| {
        f := InstallMismatched(d, response);
        return;
      }
      var responses := SetResponseObjects(d, rule.responses, objects);
      rule := rule.(responses := responses);
      var list := ListObjects(rule.responses);
      d.SendMessage(response.(msg := response.msg.(objects := response.msg.objects + list)));
      StartState(d, lifetime);
      return To(AUCTIONING);
    }

    method HandlePendingInstalling(d: Services, evt: Event) returns (f: Flow<State>)
      requires Valid() && state == PENDING_INSTALLING
      modifies this, stateTimer, d
      ensures Did(f, old(StepPendingInstalling(View(), evt, d.Ctx(), cfg)), d)
    {
      if evt.Is(CREATE) {
        f := CreateAgain(d, evt.packet, true);
      } else if evt.NoNextNode? || evt == Timer(stateTimer.id) {
        f := Unreachable(d);
      } else if evt.Timer? {
        return To(PENDING_INSTALLING);
      } else if evt.ApiInstall? {
        f := InstallAnswered(d, evt.installed);
      } else {
        return To(PENDING_INSTALLING);
      }
    }

    // STATE_ANSLP_AUCTIONING

    method TearDown(d: Services, seconds: nat) returns (f: Flow<State>)
      requires Valid()
      modifies this, stateTimer, d
      ensures Did(f, old(Teardown(View(), d.Ctx(), seconds)), d)
    {
      if |rule.responses| == 0 {
        stateTimer.Stop();
        return To(CLOSE);
      }
      var ok := d.Call(Removed(rule));
      if !ok {
        return Throws;
      }
      StartState(d, seconds);
      return To(PENDING_TEARDOWN);
    }

    method RefreshIn(d: Services, p: Packet) returns (f: Flow<State>)
      requires Valid() && state == AUCTIONING
      modifies this, responseTimer, d
      ensures Did(f, old(StepRefresh(View(), p, d.Ctx())), d)
    {
      var granted := Min(p.msg.lifetime.GetOr(0), maxLifetime);
      var number := p.msg.msn.GetOr(0);
      if !IsGreaterThan(number, msn) {
        return To(AUCTIONING);
      }
      lifetime := granted;
      lastRefresh := Some(p);
      if granted > 0 {
        msn := number;
      }
      responseTimer.Stop();
      d.SendMessage(p);
      StartResponse(d);
      return To(AUCTIONING);
    }

    method BiddingIn(d: Services, p: Packet, forThisNode: bool) returns (f: Flow<State>)
      modifies d
      ensures Did(f, old(StepBidding(View(), p, forThisNode, d.Ctx())), d)
    {
      if !forThisNode {
        d.SendMessage(p);
        return To(state);
      }
      var objects := p.msg.MspecObjects();
      if objects.None? {
        return Halts;
      }
      var ok := d.Call(Interacted(true, objects.value));
      f := if ok then To(state) else Throws;
    }

    method RefreshAnswered(d: Services, p: Packet) returns (f: Flow<State>)
      requires Valid() && state == AUCTIONING
      modifies this, stateTimer, d
      ensures Did(f, old(StepRefreshAnswered(View(), p, d.Ctx())), d)
    {
      d.SendMessage(p);
      if p.msg.IsSuccess() && lifetime > 0 {
        StartState(d, lifetime);
        return To(AUCTIONING);
      }
      stateTimer.Stop();
      f := TearDown(d, responseTimeout);
    }

    method HandleAuctioning(d: Services, evt: Event) returns (f: Flow<State>)
      requires Valid() && state == AUCTIONING
      modifies this, stateTimer, responseTimer, d
      ensures Did(f, old(StepAuctioning(View(), evt, d.Ctx())), d)
    {
      if evt.Is(REFRESH) {
        f := RefreshIn(d, evt.packet);
      } else if evt.Is(BIDDING) {
        f := BiddingIn(d, evt.packet, evt.forThisNode);
      } else if evt.NoNextNode? || evt == Timer(responseTimer.id) {
        stateTimer.Stop();
        f := TearDown(d, lifetime);
      } else if evt == Timer(stateTimer.id) {
        responseTimer.Stop();
        f := TearDown(d, lifetime);
      } else if evt.RouteBad? {
        f := TearDown(d, responseTimeout);
      } else if evt.Timer? {
        return To(AUCTIONING);
      } else if lastRefresh.None? {
        return Halts;
      } else if evt.Answers(lastRefresh.value) {
        f := RefreshAnswered(d, evt.packet);
      } else {
        return To(AUCTIONING);
      }
    }

    // STATE_ANSLP_PENDING_TEARDOWN

    method HandlePendingTeardown(d: Services, evt: Event) returns (f: Flow<State>)
      requires Valid() && state == PENDING_TEARDOWN
      modifies this, stateTimer, d
      ensures Did(f, old(StepPendingTeardown(View(), evt, d.Ctx())), d)
    {
      if evt.Is(BIDDING) {
        f := BiddingIn(d, evt.packet, evt.forThisNode);
      } else if evt == Timer(stateTimer.id) {
        return To(CLOSE);
      } else if evt.ApiRemove? {
        stateTimer.Stop();
        return To(CLOSE);
      } else {
        return To(PENDING_TEARDOWN);
      }
    }

    /** process_event: the handler of the current state gives the next one. */
    method ProcessEvent(d: Services, evt: Event) returns (f: Flow<State>)
      requires Valid()
      modifies this, stateTimer, responseTimer, d
      ensures match old(Step(View(), evt, d.Ctx(), cfg))
              case Next(s, c) => f == To(s.state) && View() == s && d.Ctx() == c
              case Threw(c) => f == Throws && d.Ctx() == c
              case Halted => f == Halts
    {
      ghost var o := Step(View(), evt, d.Ctx(), cfg);
      match state {
        case CLOSE => f := HandleClose(d, evt);
        case PENDING_CHECK => f := HandlePendingCheck(d, evt);
        case PENDING => f := HandlePending(d, evt);
        case PENDING_INSTALLING => f := HandlePendingInstalling(d, evt);
        case AUCTIONING => f := HandleAuctioning(d, evt);
        case PENDING_TEARDOWN => f := HandlePendingTeardown(d, evt);
      }
      assert Did(f, o, d);
      if f.To? {
        state := f.state;
      }
    }
  }
}
