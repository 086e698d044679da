/** Sessions along a path after they are set up: refreshed round after round, or torn down. */
module PathRounds {
  import opened Bytes
  import opened Protocol
  import opened SerialNumber
  import Path
  import opened PathRefresh
  import Ni = NiSpec
  import Nf = NfSpec
  import Nr = NrSpec
  import NiIntervals

  /** The sessions of a path. */
  datatype Net = Net(ni: Ni.Ni, nfs: seq<Nf.Nf>, nr: Nr.Nr)

  /** The dispatchers of all nodes as one round of messages finds them. */
  datatype Env = Env(cfg: Config, start: Ctx, downs: seq<Ctx>, end: Ctx, ups: seq<Ctx>, finish: Ctx)

  function HopsOf(nfs: seq<Nf.Nf>, env: Env): (hops: seq<Hop>)
    requires |env.downs| == |nfs| == |env.ups|
    ensures |hops| == |nfs| && forall i :: 0 <= i < |nfs| ==> hops[i] == Hop(nfs[i], env.downs[i], env.ups[i], env.cfg)
  {
    seq(|nfs|, i requires 0 <= i < |nfs| => Hop(nfs[i], env.downs[i], env.ups[i], env.cfg))
  }

  /** What one round does: the initiator's event, the passage of its message, and the answer at the initiator. */
  datatype Round = Round(start: Outcome<Ni.Ni>, passage: Passage, finish: Outcome<Ni.Ni>)

  function Answered(s: Ni.Ni, response: Packet, ctx: Ctx): Outcome<Ni.Ni> {
    Ni.Step(s, MsgIn(response, true), ctx.(log := []), 0)
  }

  /** An event at the initiator whose message travels down the path, and whose answer comes back. */
  function Go(net: Net, evt: Event, env: Env): Option<Round>
    requires |env.downs| == |net.nfs| == |env.ups|
  {
    var o := Ni.Step(net.ni, evt, env.start.(log := []), 0);
    if !o.Next? || Path.FirstSent(o.ctx.log).None? then None
    else
      match Travel(HopsOf(net.nfs, env), End(net.nr, env.end, env.cfg), Path.FirstSent(o.ctx.log).value)
      case None => None
      case Some(e) => Some(Round(o, e, Answered(o.s, e.response, env.finish)))
  }

  // The initiator

  function RefreshOf(s: Ni.Ni, lifetime: uint32): Packet {
    Packet(Msg(REFRESH, Some(Increment(s.msn)), Some(lifetime), None, None, None, []), Mri(true, true))
  }

  /** The refresh timer: a REFRESH with the lifetime of the session, and the response timer. */
  lemma RefreshStarts(s: Ni.Ni, ctx: Ctx)
    requires s.state == Ni.AUCTIONING && ctx.log == []
    ensures var o := Ni.Step(s, Timer(s.refreshTimer), ctx, 0);
            var p := RefreshOf(s, s.lifetime);
            && o.Next? && o.ctx.log == [Sent(p), Started(ctx.nextTimer, s.responseTimeout)]
            && o.s == s.(msn := p.msg.msn.value, lastRefresh := Some(p), refreshCounter := 0, responseTimer := ctx.nextTimer)
  {
  }

  /** A teardown request: a REFRESH with lifetime 0. */
  lemma TeardownStarts(s: Ni.Ni, ctx: Ctx)
    requires s.state == Ni.AUCTIONING && ctx.log == []
    ensures var o := Ni.Step(s, ApiTeardown, ctx, 0);
            var p := RefreshOf(s, 0);
            && o.Next? && o.ctx.log == [Sent(p)]
            && o.s == s.(msn := p.msg.msn.value, lastRefresh := Some(p), lifetime := 0)
  {
  }

  /** A success response: back to the refresh timer, or to the end of a session whose lifetime is 0. */
  predicate Finishes(s: Ni.Ni, ctx: Ctx, o: Outcome<Ni.Ni>) {
    if s.lifetime > 0 then
      && o.Next? && o.ctx.log == [Started(ctx.nextTimer, s.refreshInterval)]
      && o.s == s.(responseTimer := STOPPED, refreshTimer := ctx.nextTimer, refreshCounter := 0)
    else
      TornDown(o, s.rule.responses, [], s.rule, ctx.nextTimer, s.responseTimeout,
               o.Next? && o.s.state == Ni.PENDING_TEARDOWN, o.Next? && o.s.state == Ni.CLOSE)
  }

  lemma SuccessFinishes(s: Ni.Ni, response: Packet, ctx: Ctx)
    requires s.state == Ni.AUCTIONING && s.lastRefresh.Some? && s.lastRefresh.value.msg.msn.Some?
    requires IsSuccessTo(response, s.lastRefresh.value)
    ensures Finishes(s, ctx, Answered(s, response, ctx))
  {
  }

  // Rounds of refreshing

  /** All sessions of a path are auctioning under the number of the last message. */
  predicate InStep(net: Net) {
    && net.ni.state == Ni.AUCTIONING
    && (forall i :: 0 <= i < |net.nfs| ==> NfInStep(net.ni, net.nfs[i]))
    && net.nr.state == Nr.AUCTIONING && net.nr.msn == net.ni.msn
  }

  predicate NfInStep(ni: Ni.Ni, s: Nf.Nf) {
    s.state == Nf.AUCTIONING && s.msn == ni.msn
  }

  /**
   * All sessions of a path are auctioning under the number of the last message, and every session lives longer than the
   * initiator waits before it refreshes.
   */
  predicate InSync(net: Net) {
    && net.ni.state == Ni.AUCTIONING && 0 < net.ni.lifetime && net.ni.refreshInterval < net.ni.lifetime
    && (forall i :: 0 <= i < |net.nfs| ==> NfInSync(net.ni, net.nfs[i]))
    && net.nr.state == Nr.AUCTIONING && net.nr.msn == net.ni.msn
    && net.ni.lifetime <= net.nr.lifetime && net.ni.lifetime <= net.nr.maxLifetime
  }

  predicate NfInSync(ni: Ni.Ni, s: Nf.Nf) {
    && s.state == Nf.AUCTIONING && s.msn == ni.msn
    && ni.lifetime <= s.lifetime && ni.lifetime <= s.maxLifetime && ni.lifetime <= s.responseTimeout
  }

  function Ended<S>(os: seq<Outcome<S>>): (ss: seq<S>)
    requires forall i :: 0 <= i < |os| ==> os[i].Next?
    ensures |ss| == |os| && forall i :: 0 <= i < |ss| ==> ss[i] == os[i].s
  {
    seq(|os|, i requires 0 <= i < |os| => os[i].s)
  }

  /** The sessions after a round that no session ended in. */
  ghost predicate Leads(r: Round, net: Net) {
    && r.finish.Next? && net.ni == r.finish.s && r.passage.end.Next? && net.nr == r.passage.end.s
    && |net.nfs| == |r.passage.ups|
    && forall i :: 0 <= i < |net.nfs| ==> r.passage.ups[i].Next? && net.nfs[i] == r.passage.ups[i].s
  }

  /** Every timer that a call record starts takes longer than that. */
  predicate Outlasts(log: seq<Effect>, seconds: nat) {
    forall k :: 0 <= k < |log| && log[k].Started? ==> log[k].seconds > seconds
  }

  /** A forwarder has passed the REFRESH and its answer on, and lives for the lifetime of the initiator from now on. */
  predicate HopInOrder(net: Net, p: Packet, down: Outcome<Nf.Nf>, up: Outcome<Nf.Nf>)
    requires p.msg.msn.Some?
  {
    && down.Next? && Sent(p) in down.ctx.log && Outlasts(down.ctx.log, net.ni.refreshInterval)
    && up.Next? && up.s.lifetime == net.ni.lifetime && Outlasts(up.ctx.log, net.ni.refreshInterval)
    && Started(up.s.stateTimer, net.ni.lifetime) in up.ctx.log
    && up.s.state == Nf.AUCTIONING && up.s.msn == p.msg.msn.value
    && net.ni.lifetime <= up.s.maxLifetime && net.ni.lifetime <= up.s.responseTimeout
  }

  predicate EndInOrder(net: Net, p: Packet, o: Outcome<Nr.Nr>)
    requires p.msg.msn.Some?
  {
    && o.Next? && o.s.lifetime == net.ni.lifetime && Outlasts(o.ctx.log, net.ni.refreshInterval)
    && Started(o.s.stateTimer, net.ni.lifetime) in o.ctx.log
    && o.s.state == Nr.AUCTIONING && o.s.msn == p.msg.msn.value && net.ni.lifetime <= o.s.maxLifetime
  }

  /** What a round does to a path in which all sessions are in step. */
  ghost predicate Refreshes(net: Net, r: Round) {
    var p := RefreshOf(net.ni, net.ni.lifetime);
    && r.passage.arrived == p && r.passage.response == CreateSuccessResponse(p, net.ni.lifetime)
    && |r.passage.downs| == |net.nfs| == |r.passage.ups|
    && (forall i :: 0 <= i < |net.nfs| ==> HopInOrder(net, p, r.passage.downs[i], r.passage.ups[i]))
    && EndInOrder(net, p, r.passage.end)
    && r.finish.Next? && r.finish.ctx.log == [Started(r.finish.s.refreshTimer, net.ni.refreshInterval)]
    && r.finish.s.state == Ni.AUCTIONING && r.finish.s.msn == p.msg.msn.value
    && r.finish.s.lifetime == net.ni.lifetime && r.finish.s.refreshInterval == net.ni.refreshInterval
  }

  lemma HopRefreshes(net: Net, h: Hop, p: Packet, response: Packet, down: Outcome<Nf.Nf>, up: Outcome<Nf.Nf>)
    requires NfInSync(net.ni, h.s) && 0 < net.ni.lifetime && net.ni.refreshInterval < net.ni.lifetime
    requires p == RefreshOf(net.ni, net.ni.lifetime) && GoesDown(h, p, down) && GoesUp(h, p, response, up)
    ensures HopInOrder(net, p, down, up)
  {
    assert Granted(h, p) == net.ni.lifetime;
    assert down.ctx.log[0] == Sent(p) && up.ctx.log[1] == Started(h.up.nextTimer, net.ni.lifetime);
  }

  lemma EndRefreshes(net: Net, last: End, p: Packet, o: Outcome<Nr.Nr>)
    requires InSync(net) && last.s == net.nr && p == RefreshOf(net.ni, net.ni.lifetime) && Ends(last, p, o)
    ensures EndGrants(last, p) == net.ni.lifetime
    ensures EndInOrder(net, p, o)
  {
    assert EndGrants(last, p) == net.ni.lifetime;
    assert o.ctx.log[1] == Started(last.ctx.nextTimer, net.ni.lifetime);
  }

  lemma NewNumberIsAccepted(net: Net, env: Env, lifetime: uint32)
    requires InStep(net) && |env.downs| == |net.nfs| == |env.ups|
    ensures var p := RefreshOf(net.ni, lifetime);
            IsRefresh(p) && AllAccept(HopsOf(net.nfs, env), End(net.nr, env.end, env.cfg), p)
  {
    FreshAhead(net.ni.msn, 1);
    assert Increment(net.ni.msn) == (net.ni.msn + 1) % TWO_32;
  }

  lemma SyncIsStep(net: Net)
    requires InSync(net)
    ensures InStep(net)
  {
    forall i | 0 <= i < |net.nfs| ensures NfInStep(net.ni, net.nfs[i]) {
      assert NfInSync(net.ni, net.nfs[i]);
    }
  }

  /** A REFRESH that the initiator sends and every node accepts: it passes, and its success ends the round. */
  lemma RefreshGoes(net: Net, evt: Event, env: Env, o: Outcome<Ni.Ni>, p: Packet)
    requires |env.downs| == |net.nfs| == |env.ups| && o == Ni.Step(net.ni, evt, env.start.(log := []), 0)
    requires o.Next? && Path.FirstSent(o.ctx.log) == Some(p) && IsRefresh(p)
    requires o.s.state == Ni.AUCTIONING && o.s.lastRefresh == Some(p)
    requires AllAccept(HopsOf(net.nfs, env), End(net.nr, env.end, env.cfg), p)
    ensures var hops, last := HopsOf(net.nfs, env), End(net.nr, env.end, env.cfg);
            && Travel(hops, last, p).Some?
            && var e := Travel(hops, last, p).value;
               && Passes(hops, last, p, e) && Go(net, evt, env) == Some(Round(o, e, Answered(o.s, e.response, env.finish)))
               && Finishes(o.s, env.finish, Answered(o.s, e.response, env.finish))
  {
    var hops, last := HopsOf(net.nfs, env), End(net.nr, env.end, env.cfg);
    RefreshPasses(hops, last, p);
    SuccessFinishes(o.s, Travel(hops, last, p).value.response, env.finish);
  }

  /**
   * One round on a path without loss: the REFRESH reaches the responder as it was sent, its success comes back to the
   * initiator, every session is prolonged by the negotiated lifetime, and every timer that a node starts on the way takes
   * longer than the initiator waits before its next REFRESH.
   */
  lemma RoundRefreshes(net: Net, env: Env)
    requires InSync(net) && |env.downs| == |net.nfs| == |env.ups|
    ensures var r := Go(net, Timer(net.ni.refreshTimer), env);
            r.Some? && Refreshes(net, r.value)
  {
    var p := RefreshOf(net.ni, net.ni.lifetime);
    var hops, last := HopsOf(net.nfs, env), End(net.nr, env.end, env.cfg);
    RefreshStarts(net.ni, env.start.(log := []));
    SyncIsStep(net);
    NewNumberIsAccepted(net, env, net.ni.lifetime);
    var o := Ni.Step(net.ni, Timer(net.ni.refreshTimer), env.start.(log := []), 0);
    RefreshGoes(net, Timer(net.ni.refreshTimer), env, o, p);
    var e := Travel(hops, last, p).value;
    EndRefreshes(net, last, p, e.end);
    forall i | 0 <= i < |hops|
      ensures HopInOrder(net, p, e.downs[i], e.ups[i])
    {
      HopRefreshes(net, hops[i], p, e.response, e.downs[i], e.ups[i]);
    }
  }

  /** After a round the sessions are in step again, with a new number. */
  lemma RoundKeepsSync(net: Net, r: Round, net': Net)
    requires InSync(net) && Refreshes(net, r) && Leads(r, net')
    ensures InSync(net')
  {
    forall i | 0 <= i < |net'.nfs| ensures NfInSync(net'.ni, net'.nfs[i]) {
      assert HopInOrder(net, RefreshOf(net.ni, net.ni.lifetime), r.passage.downs[i], r.passage.ups[i]);
    }
  }

  // Any number of rounds

  /** The sessions after a round; None when one of them has ended. */
  ghost function After(r: Round): (net: Option<Net>)
    ensures net.Some? ==> Leads(r, net.value)
  {
    if r.finish.Next? && r.passage.end.Next? && forall i :: 0 <= i < |r.passage.ups| ==> r.passage.ups[i].Next?
    then Some(Net(r.finish.s, Ended(r.passage.ups), r.passage.end.s)) else None
  }

  /** One refresh after another; None when a message gets lost or a session ends. */
  ghost function Rounds(net: Net, envs: seq<Env>): Option<Net>
    requires forall k :: 0 <= k < |envs| ==> |envs[k].downs| == |net.nfs| == |envs[k].ups|
    decreases |envs|
  {
    if envs == [] then Some(net)
    else
      match Go(net, Timer(net.ni.refreshTimer), envs[0])
      case None => None
      case Some(r) =>
        match After(r)
        case None => None
        case Some(net') => if |net'.nfs| == |net.nfs| then Rounds(net', envs[1..]) else None
  }

  /** A path without loss goes on for ever: after any number of rounds all sessions are in step and live as long as agreed. */
  lemma {:induction false} RoundsGoOn(net: Net, envs: seq<Env>)
    requires InSync(net) && forall k :: 0 <= k < |envs| ==> |envs[k].downs| == |net.nfs| == |envs[k].ups|
    ensures var net' := Rounds(net, envs);
            net'.Some? && InSync(net'.value) && net'.value.ni.lifetime == net.ni.lifetime
    decreases |envs|
  {
    if envs != [] {
      RoundRefreshes(net, envs[0]);
      var r := Go(net, Timer(net.ni.refreshTimer), envs[0]).value;
      assert forall i :: 0 <= i < |net.nfs| ==>
          HopInOrder(net, RefreshOf(net.ni, net.ni.lifetime), r.passage.downs[i], r.passage.ups[i]);
      RoundKeepsSync(net, r, After(r).value);
      RoundsGoOn(After(r).value, envs[1..]);
    }
  }

  // From the setting up

  lemma LeastIsPositive(lifetime: uint32, nodes: seq<Path.Node>, last: Path.Node, p: Packet, e: Path.Established)
    requires lifetime > 0 && Path.AllInStep(nodes, last, p, e)
    ensures var least := Path.Least(lifetime, Path.Caps(nodes) + [last.cfg.nrMaxLifetime]);
            && 0 < least <= last.cfg.nrMaxLifetime && forall i :: 0 <= i < |nodes| ==> least <= nodes[i].cfg.nfMaxLifetime
  {
    var caps := Path.Caps(nodes) + [last.cfg.nrMaxLifetime];
    Path.LeastIsMinimum(lifetime, caps);
    assert caps[|nodes|] == last.cfg.nrMaxLifetime;
    forall i | 0 <= i < |nodes| ensures caps[i] == nodes[i].cfg.nfMaxLifetime && nodes[i].cfg.nfMaxLifetime > 0 {
      assert Path.ForwarderInStep(nodes[i], p, e.forwarders[i]);
    }
    assert caps[|nodes|] in caps && forall cap :: cap in caps ==> cap > 0;
    forall i | 0 <= i < |nodes| ensures Path.Least(lifetime, caps) <= nodes[i].cfg.nfMaxLifetime {
      assert caps[i] in caps;
    }
  }

  /** A path that has agreed on a lifetime is in sync if its initiator refreshes within it. */
  lemma AgreedIsInSync(nodes: seq<Path.Node>, last: Path.Node, p: Packet, e: Path.Established, s: Ni.Ni)
    requires p.msg.lifetime.Some? && p.msg.lifetime.value > 0 && Path.AllInStep(nodes, last, p, e)
    requires Path.Agreed(nodes, last, p, e, s) && s.state == Ni.AUCTIONING && p.msg.msn == Some(s.msn)
    ensures InStep(Net(s, e.forwarders, e.responder))
    ensures InSync(Net(s, e.forwarders, e.responder)) <==> s.refreshInterval < s.lifetime
  {
    var net := Net(s, e.forwarders, e.responder);
    LeastIsPositive(p.msg.lifetime.value, nodes, last, p, e);
    forall i | 0 <= i < |net.nfs| ensures NfInSync(s, net.nfs[i]) && NfInStep(s, net.nfs[i]) {
      assert Path.ForwarderInStep(nodes[i], p, net.nfs[i]) && net.nfs[i] in e.forwarders;
    }
  }

  /**
   * A path that was set up is in step, and it is in sync exactly when some cap has changed the lifetime, or the initiator
   * has a retry and has asked for at least two seconds.
   */
  lemma SetUpIsInSync(asker: Path.Node, nodes: seq<Path.Node>, last: Path.Node, msn: uint32, lastMsn: uint32, request: Path.Request,
                      random: nat)
    requires request.lifetime > 0
    ensures var o := Path.Ask(asker, msn, request, random);
            o.Next? && o.s.state == Ni.PENDING ==>
              && Path.FirstSent(o.ctx.log).Some?
              && var t := Path.Travel(nodes, last, lastMsn, Path.FirstSent(o.ctx.log).value);
                 t.Some? ==>
                   var r := Path.Conclude(asker, o.s, t.value.response);
                   r.Next? && r.s.state == Ni.AUCTIONING ==>
                     var net := Net(r.s, t.value.forwarders, t.value.responder);
                     && InStep(net)
                     && (InSync(net) <==> r.s.lifetime != request.lifetime || (asker.cfg.niMaxRetries >= 1 && request.lifetime >= 2))
  {
    Path.AskOpens(asker, msn, request, random);
    Path.PathNegotiates(asker, nodes, last, msn, lastMsn, request, random);
    var o := Path.Ask(asker, msn, request, random);
    if o.Next? && o.s.state == Ni.PENDING {
      var p := Path.FirstSent(o.ctx.log).value;
      var t := Path.Travel(nodes, last, lastMsn, p);
      if t.Some? {
        ConcludedInSync(asker, nodes, last, lastMsn, request, o.s, p, t.value);
      }
    }
  }

  lemma ConcludedInSync(asker: Path.Node, nodes: seq<Path.Node>, last: Path.Node, lastMsn: uint32, request: Path.Request, s: Ni.Ni,
                        p: Packet, e: Path.Established)
    requires Path.Usable(p) && Path.Travel(nodes, last, lastMsn, p) == Some(e)
    requires s.state == Ni.PENDING && s.lastCreate == Some(p) && p.msg.msn == Some(s.msn)
    requires p.msg.lifetime.value == s.lifetime == request.lifetime
    requires s.refreshInterval == Ni.RefreshInterval(request.lifetime, asker.cfg.niMaxRetries)
    ensures var r := Path.Conclude(asker, s, e.response);
            r.Next? && r.s.state == Ni.AUCTIONING ==>
              var net := Net(r.s, e.forwarders, e.responder);
              && InStep(net)
              && (InSync(net) <==> r.s.lifetime != request.lifetime || (asker.cfg.niMaxRetries >= 1 && request.lifetime >= 2))
  {
    Path.TravelNegotiates(nodes, last, lastMsn, p);
    Path.TravelSynchronises(nodes, last, lastMsn, p);
    Path.ConcludeAdopts(asker, s, p, e.response);
    var r := Path.Conclude(asker, s, e.response);
    if r.Next? && r.s.state == Ni.AUCTIONING {
      Path.NegotiatedIsAgreed(nodes, last, p, e, r.s);
      AgreedIsInSync(nodes, last, p, e, r.s);
      LeastIsPositive(p.msg.lifetime.value, nodes, last, p, e);
      NiIntervals.RefreshesInTime(request.lifetime, r.s.lifetime, asker.cfg.niMaxRetries);
    }
  }

  // Teardown

  predicate NiTornDown(s: Ni.Ni, before: seq<Effect>, ctx: Ctx, o: Outcome<Ni.Ni>) {
    TornDown(o, s.rule.responses, before, s.rule, ctx.nextTimer, s.responseTimeout,
             o.Next? && o.s.state == Ni.PENDING_TEARDOWN, o.Next? && o.s.state == Ni.CLOSE)
  }

  predicate NfTornDown(s: Nf.Nf, before: seq<Effect>, ctx: Ctx, o: Outcome<Nf.Nf>) {
    TornDown(o, s.rule.responses, before, s.rule, ctx.nextTimer, s.responseTimeout,
             o.Next? && o.s.state == Nf.PENDING_TEARDOWN, o.Next? && o.s.state == Nf.CLOSE)
  }

  predicate NrTornDown(s: Nr.Nr, before: seq<Effect>, ctx: Ctx, cfg: Config, o: Outcome<Nr.Nr>) {
    TornDown(o, s.rule.responses, before, s.rule, ctx.nextTimer, cfg.nrResponseTimeout,
             o.Next? && o.s.state == Nr.PENDING_TEARDOWN, o.Next? && o.s.state == Nr.CLOSE)
  }

  /**
   * A client's request to end the session: the REFRESH with lifetime 0 reaches the responder, its success comes back, and
   * every session on the path hands the rule that it has installed to its installer for removal, or closes.
   */
  lemma TeardownPasses(net: Net, env: Env)
    requires InStep(net) && |env.downs| == |net.nfs| == |env.ups|
    ensures var r := Go(net, ApiTeardown, env);
            && r.Some?
            && var e := r.value.passage;
               var p := RefreshOf(net.ni, 0);
               && e.arrived == p && e.response == CreateSuccessResponse(p, 0)
               && (forall i :: 0 <= i < |net.nfs| ==>
                     NfTornDown(net.nfs[i], [Sent(e.response)], env.ups[i], e.ups[i]))
               && NrTornDown(net.nr, [Sent(e.response)], env.end, env.cfg, e.end)
               && NiTornDown(net.ni, [], env.finish, r.value.finish)
  {
    var p := RefreshOf(net.ni, 0);
    var hops, last := HopsOf(net.nfs, env), End(net.nr, env.end, env.cfg);
    TeardownStarts(net.ni, env.start.(log := []));
    NewNumberIsAccepted(net, env, 0);
    var o := Ni.Step(net.ni, ApiTeardown, env.start.(log := []), 0);
    RefreshGoes(net, ApiTeardown, env, o, p);
    HopsAreTornDown(net, env, p, Travel(hops, last, p).value);
  }

  lemma HopsAreTornDown(net: Net, env: Env, p: Packet, e: Passage)
    requires |env.downs| == |net.nfs| == |env.ups| && p.msg.lifetime == Some(0)
    requires Passes(HopsOf(net.nfs, env), End(net.nr, env.end, env.cfg), p, e)
    ensures forall i :: 0 <= i < |net.nfs| ==> NfTornDown(net.nfs[i], [Sent(e.response)], env.ups[i], e.ups[i])
    ensures NrTornDown(net.nr, [Sent(e.response)], env.end, env.cfg, e.end)
  {
    var hops := HopsOf(net.nfs, env);
    forall i | 0 <= i < |hops| ensures NfTornDown(net.nfs[i], [Sent(e.response)], env.ups[i], e.ups[i]) {
      assert GoesUp(hops[i], p, e.response, e.ups[i]) && Granted(hops[i], p) == 0;
    }
  }
}
