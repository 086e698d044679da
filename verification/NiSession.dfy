/** The initiator session as an object whose handlers update its fields. */
module NiSessions {
  import opened Bytes
  import opened Protocol
  import opened SerialNumber
  import opened SessionIds
  import opened DispatcherServices
  import opened NiSpec

  class NiSession {
    const id: SessionId
    ghost const number: nat
    const responseTimer: Timer
    const refreshTimer: Timer
    const maxRetries: uint32
    const hopCount: uint32
    var state: State
    var msn: uint32
    var lastCreate: Option<Packet>
    var lastRefresh: Option<Packet>
    var installRule: Rule
    var rule: Rule
    var lifetime: uint32
    var refreshInterval: nat
    var responseTimeout: nat
    var createCounter: uint32
    var refreshCounter: uint32
    var teardownCounter: uint32

    ghost predicate Valid() {
      responseTimer.session == number && refreshTimer.session == number && responseTimer != refreshTimer
    }

    /** The state of the session as a value. */
    ghost function View(): Ni
      reads this, responseTimer, refreshTimer
    {
      Ni(state, msn, hopCount, lastCreate, lastRefresh, installRule, rule, lifetime, refreshInterval, responseTimeout,
         createCounter, refreshCounter, teardownCounter, maxRetries, responseTimer.id, refreshTimer.id)
    }

    constructor (id: SessionId, cfg: Config, msn: uint32, teardownCounter: uint32, ghost number: nat)
      ensures Valid() && this.id == id && this.number == number && fresh(responseTimer) && fresh(refreshTimer)
      ensures View() == Initial(cfg, msn, teardownCounter)
    {
      this.id := id;
      this.number := number;
      responseTimer := new Timer(number);
      refreshTimer := new Timer(number);
      maxRetries, hopCount := cfg.niMaxRetries, cfg.niHopCount;
      state, this.msn := CLOSE, msn;
      lastCreate, lastRefresh, installRule, rule := None, None, EMPTY_RULE, EMPTY_RULE;
      lifetime, refreshInterval, responseTimeout := 0, 20, cfg.niResponseTimeout;
      createCounter, refreshCounter, this.teardownCounter := 0, 0, teardownCounter;
    }

    /** The session and the dispatcher are where the transition function says, but for the state, which the caller sets. */
    ghost predicate Did(f: Flow<State>, o: Outcome<Ni>, d: Services)
      reads this, responseTimer, refreshTimer, d
    {
      match o
      case Next(s, c) => f == To(s.state) && View().(state := s.state) == s && d.Ctx() == c
      case Threw(c) => f == Throws && d.Ctx() == c
      case Halted => f == Halts
    }

    method NextMsn() returns (next: uint32)
      modifies this
      ensures next == Increment(old(msn)) && View() == old(View()).(msn := next)
    {
      msn := Increment(msn);
      next := msn;
    }

    method BuildRefreshMessage() returns (p: Packet)
      modifies this
      ensures (View(), p) == BuildRefresh(old(View()))
    {
      var next := NextMsn();
      p := Packet(Msg(REFRESH, Some(next), Some(lifetime), None, None, None, []), DOWNSTREAM);
    }

    method BuildBiddingMessage(objects: seq<Payload>) returns (p: Packet)
      modifies this
      ensures (View(), p) == BuildBidding(old(View()), objects)
    {
      var next := NextMsn();
      p := Packet(Msg(BIDDING, Some(next), None, None, None, None, objects), DOWNSTREAM);
    }

    method StartResponse(d: Services)
      requires Valid()
      modifies responseTimer, d
      ensures (View(), d.Ctx()) == StartResponseTimer(old(View()), old(d.Ctx()))
    {
      responseTimer.Start(d, responseTimeout);
    }

    // STATE_ANSLP_CLOSE

    /** setup_session; false stands for its failed assertion. */
    method SetupSession(requested: uint32, random: nat) returns (ok: bool)
      modifies this
      ensures var s := old(View());
              var lifetime := if requested != 0 then requested else s.lifetime;
              var r := RefreshInterval(lifetime, s.maxRetries);
              && (ok <==> r > 0)
              && (ok ==> View() == s.(lifetime := lifetime, refreshInterval := r, responseTimeout := ResponseTimeout(r, random)))
    {
      if requested != 0 {
        lifetime := requested;
      }
      var r := RefreshInterval(lifetime, maxRetries);
      if r == 0 {
        return false;
      }
      refreshInterval := r;
      responseTimeout := ResponseTimeout(r, random);
      return true;
    }

    method OpenSession(d: Services, evt: Event) returns (f: Flow<State>)
      requires Valid() && state == CLOSE && evt.ApiCreate?
      modifies this, responseTimer, d
      ensures Did(f, old(Open(View(), evt, d.Ctx())), d)
    {
      var next := NextMsn();
      var create := Packet(Msg(CREATE, Some(next), Some(Min(lifetime, evt.lifetime)), Some(evt.sel), Some(hopCount), None,
                               evt.objects), DOWNSTREAM);
      lastCreate := Some(create);
      d.SendMessage(create);
      StartResponse(d);
      if evt.hasQueue {
        d.Enqueue();
        return To(PENDING);
      }
      return To(CLOSE);
    }

    method HandleClose(d: Services, evt: Event, random: nat) returns (f: Flow<State>)
      requires Valid() && state == CLOSE
      modifies this, responseTimer, d
      ensures Did(f, old(StepClose(View(), evt, d.Ctx(), random)), d)
    {
      if !evt.ApiCreate? {
        return To(CLOSE);
      }
      var ok := SetupSession(evt.lifetime, random);
      if !ok {
        return Halts;
      }
      f := OpenSession(d, evt);
    }

    // STATE_ANSLP_PENDING

    method CreateAnswered(d: Services, resp: Msg) returns (f: Flow<State>)
      requires Valid() && state == PENDING
      modifies this, responseTimer, d
      ensures Did(f, old(StepCreateAnswered(View(), resp, d.Ctx())), d)
    {
      if !resp.IsSuccess() {
        return To(CLOSE);
      }
      StartResponse(d);
      var granted := resp.lifetime.GetOr(0);
      if granted != lifetime {
        lifetime := granted;
        refreshInterval := granted * 2 % TWO_32 / 3;
      }
      var objects := resp.MspecObjects();
      if objects.None? {
        return Halts;
      }
      f := AskToInstall(d, objects.value);
    }

    /** The objects of the response become the requests of a rule that the client is asked to install. */
    method AskToInstall(d: Services, objects: seq<Payload>) returns (f: Flow<State>)
      requires Valid() && state == PENDING
      modifies this, d
      ensures var s, c := old(View()), old(d.Ctx());
              var asked := Rule(Assign(c.nextKey, objects), map[]);
              var c' := c.TakeKeys(|objects|).Do(Responded(asked));
              && d.Ctx() == c'
              && (c'.verdict.Rejects? ==> f == Throws)
              && (c'.verdict.Accepts? ==>
                    f == To(PENDING_INSTALLING) && View() == s.(createCounter := 0, installRule := asked))
    {
      var requests := d.AssignKeys(objects);
      var asked := Rule(requests, map[]);
      var ok := d.Call(Responded(asked));
      if !ok {
        return Throws;
      }
      createCounter := 0;
      installRule := asked;
      return To(PENDING_INSTALLING);
    }

    method HandlePending(d: Services, evt: Event) returns (f: Flow<State>)
      requires Valid() && state == PENDING
      modifies this, responseTimer, d
      ensures Did(f, old(StepPending(View(), evt, d.Ctx())), d)
    {
      if evt == Timer(responseTimer.id) {
        if createCounter >= maxRetries {
          return To(CLOSE);
        }
        if lastCreate.None? {
          return Halts;
        }
        createCounter := createCounter + 1;
        d.SendMessage(lastCreate.value);
        StartResponse(d);
        return To(PENDING);
      } else if evt.NoNextNode? {
        return To(CLOSE);
      } else if evt.ApiTeardown? {
        lifetime := 0;
        lastCreate := None;
        var refresh := BuildRefreshMessage();
        d.SendMessage(refresh);
        return To(CLOSE);
      } else if evt.Timer? {
        return To(PENDING);
      } else if lastCreate.None? {
        return Halts;
      } else if evt.Answers(lastCreate.value) {
        f := CreateAnswered(d, evt.packet.msg);
      } else {
        return To(PENDING);
      }
    }

    // STATE_ANSLP_PENDING_INSTALLING

    method GiveUp(d: Services) returns (f: Flow<State>)
      requires Valid() && state == PENDING_INSTALLING
      modifies this, d
      ensures Did(f, old(Abandon(View(), d.Ctx())), d)
    {
      lifetime := 0;
      lastCreate := None;
      if |installRule.responses| > 0 {
        var ok := d.Call(Removed(installRule));
        if !ok {
          return Throws;
        }
      }
      var refresh := BuildRefreshMessage();
      d.SendMessage(refresh);
      return To(CLOSE);
    }

    method InstallUnanswered(d: Services) returns (f: Flow<State>)
      requires Valid() && state == PENDING_INSTALLING
      modifies this, responseTimer, d
      ensures Did(f, old(StepPendingInstalling(View(), Timer(responseTimer.id), d.Ctx())), d)
    {
      if createCounter < maxRetries {
        var ok := d.Call(Responded(installRule));
        if !ok {
          return Throws;
        }
        createCounter := createCounter + 1;
        StartResponse(d);
        return To(PENDING_INSTALLING);
      }
      rule := EMPTY_RULE;
      f := GiveUp(d);
    }

    method InstallAnswered(d: Services, objects: Objects) returns (f: Flow<State>)
      requires Valid() && state == PENDING_INSTALLING
      modifies this, responseTimer, refreshTimer, d
      ensures Did(f, old(StepPendingInstalling(View(), ApiInstall(objects), d.Ctx())), d)
    {
      if |installRule.requests| == |objects| {
        var responses := SetResponseObjects(d, installRule.responses, objects);
        rule := installRule.(responses := responses);
        createCounter := 0;
        responseTimer.Stop();
        refreshTimer.Start(d, refreshInterval);
        return To(AUCTIONING);
      }
      rule := EMPTY_RULE;
      f := GiveUp(d);
    }

    method HandlePendingInstalling(d: Services, evt: Event) returns (f: Flow<State>)
      requires Valid() && state == PENDING_INSTALLING
      modifies this, responseTimer, refreshTimer, d
      ensures Did(f, old(StepPendingInstalling(View(), evt, d.Ctx())), d)
    {
      if evt == Timer(responseTimer.id) {
        f := InstallUnanswered(d);
      } else if evt.ApiTeardown? {
        f := GiveUp(d);
      } else if evt.ApiInstall? {
        f := InstallAnswered(d, evt.installed);
      } else {
        return To(PENDING_INSTALLING);
      }
    }

    // STATE_ANSLP_AUCTIONING

    method TearDown(d: Services) returns (f: Flow<State>)
      requires Valid() && state == AUCTIONING
      modifies this, responseTimer, d
      ensures Did(f, old(Teardown(View(), d.Ctx())), d)
    {
      teardownCounter := 0;
      if |rule.responses| == 0 {
        responseTimer.Stop();
        return To(CLOSE);
      }
      var ok := d.Call(Removed(rule));
      if !ok {
        return Throws;
      }
      StartResponse(d);
      return To(PENDING_TEARDOWN);
    }

    method RefreshTimerFired(d: Services) returns (f: Flow<State>)
      requires Valid() && state == AUCTIONING
      modifies this, responseTimer, d
      ensures Did(f, old(StepRefreshTimer(View(), d.Ctx())), d)
    {
      var refresh := BuildRefreshMessage();
      lastRefresh := Some(refresh);
      refreshCounter := 0;
      d.SendMessage(refresh);
      StartResponse(d);
      return To(AUCTIONING);
    }

    method RefreshUnanswered(d: Services) returns (f: Flow<State>)
      requires Valid() && state == AUCTIONING
      modifies this, responseTimer, d
      ensures Did(f, old(StepRefreshUnanswered(View(), d.Ctx())), d)
    {
      if refreshCounter < maxRetries {
        if lastRefresh.None? {
          return Halts;
        }
        refreshCounter := refreshCounter + 1;
        d.SendMessage(lastRefresh.value);
        StartResponse(d);
        return To(AUCTIONING);
      }
      f := TearDown(d);
    }

    method RefreshAnswered(d: Services, resp: Msg) returns (f: Flow<State>)
      requires Valid() && state == AUCTIONING
      modifies this, responseTimer, refreshTimer, d
      ensures Did(f, old(StepRefreshAnswered(View(), resp, d.Ctx())), d)
    {
      if !resp.IsSuccess() || lifetime == 0 {
        f := TearDown(d);
      } else {
        responseTimer.Stop();
        refreshTimer.Start(d, refreshInterval);
        refreshCounter := 0;
        return To(AUCTIONING);
      }
    }

    method BiddingIn(d: Services, bidding: Msg) returns (f: Flow<State>)
      requires Valid()
      modifies d
      ensures Did(f, old(StepBiddingIn(View(), bidding, d.Ctx())), d)
    {
      var objects := bidding.MspecObjects();
      if objects.None? {
        return Halts;
      }
      var ok := d.Call(Interacted(false, objects.value));
      return To(state);
    }

    method BiddingOut(d: Services, objects: seq<Payload>) returns (f: Flow<State>)
      requires Valid()
      modifies this, d
      ensures Did(f, old(StepBiddingOut(View(), objects, d.Ctx())), d)
    {
      var bidding := BuildBiddingMessage(objects);
      d.SendMessage(bidding);
      return To(state);
    }

    method HandleAuctioning(d: Services, evt: Event) returns (f: Flow<State>)
      requires Valid() && state == AUCTIONING
      modifies this, responseTimer, refreshTimer, d
      ensures Did(f, old(StepAuctioning(View(), evt, d.Ctx())), d)
    {
      if evt.ApiInstall? {
        return To(AUCTIONING);
      } else if evt == Timer(refreshTimer.id) {
        f := RefreshTimerFired(d);
      } else if evt == Timer(responseTimer.id) {
        f := RefreshUnanswered(d);
      } else if evt.ApiTeardown? {
        lifetime := 0;
        var refresh := BuildRefreshMessage();
        lastRefresh := Some(refresh);
        d.SendMessage(refresh);
        return To(AUCTIONING);
      } else if evt.ApiBidding? {
        f := BiddingOut(d, evt.objects);
      } else if evt.Is(BIDDING) {
        f := BiddingIn(d, evt.packet.msg);
      } else if evt.Timer? {
        return To(AUCTIONING);
      } else if lastRefresh.None? {
        return Halts;
      } else if evt.Answers(lastRefresh.value) {
        f := RefreshAnswered(d, evt.packet.msg);
      } else {
        return To(AUCTIONING);
      }
    }

    // STATE_ANSLP_PENDING_TEARDOWN

    method HandlePendingTeardown(d: Services, evt: Event) returns (f: Flow<State>)
      requires Valid() && state == PENDING_TEARDOWN
      modifies this, responseTimer, d
      ensures Did(f, old(StepPendingTeardown(View(), evt, d.Ctx())), d)
    {
      if evt.ApiBidding? {
        f := BiddingOut(d, evt.objects);
      } else if evt.Is(BIDDING) {
        f := BiddingIn(d, evt.packet.msg);
      } else if evt == Timer(responseTimer.id) {
        if teardownCounter >= maxRetries {
          return To(CLOSE);
        }
        var ok := d.Call(Removed(rule));
        if !ok {
          return Throws;
        }
        teardownCounter := teardownCounter + 1;
        StartResponse(d);
        return To(PENDING_TEARDOWN);
      } else if evt.ApiRemove? {
        responseTimer.Stop();
        return To(CLOSE);
      } else {
        return To(PENDING_TEARDOWN);
      }
    }

    /** process_event: the handler of the current state gives the next one. */
    method ProcessEvent(d: Services, evt: Event, random: nat) returns (f: Flow<State>)
      requires Valid()
      modifies this, responseTimer, refreshTimer, d
      ensures match old(Step(View(), evt, d.Ctx(), random))
              case Next(s, c) => f == To(s.state) && View() == s && d.Ctx() == c
              case Threw(c) => f == Throws && d.Ctx() == c
              case Halted => f == Halts
    {
      ghost var o := Step(View(), evt, d.Ctx(), random);
      match state {
        case CLOSE => f := HandleClose(d, evt, random);
        case PENDING => f := HandlePending(d, evt);
        case PENDING_INSTALLING => f := HandlePendingInstalling(d, evt);
        case AUCTIONING => f := HandleAuctioning(d, evt);
        case PENDING_TEARDOWN => f := HandlePendingTeardown(d, evt);
      }
      assert Did(f, o, d);
      if f.To? {
        state := f.state;
      }
    }
  }
}
