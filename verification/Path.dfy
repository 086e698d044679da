/** Setting up a session along a path: one initiator, any number of forwarders, one responder. */
module Path {
  import opened Bytes
  import opened Protocol
  import Ni = NiSpec
  import Nf = NfSpec
  import Nr = NrSpec
  import SerialNumber
  import NiIntervals

  /** A node on the path: its dispatcher, the objects its installer can serve, and the objects it installs. */
  datatype Node = Node(cfg: Config, ctx: Ctx, keys: set<Key>, installed: Objects) {
    function Begin(): Ctx {
      ctx.(log := [])
    }
  }

  /** The message that an event sent; it is always the first call. */
  function FirstSent(log: seq<Effect>): Option<Packet> {
    if log != [] && log[0].Sent? then Some(log[0].packet) else None
  }

  function Again(c: Ctx): Ctx {
    c.(log := [])
  }

  // One forwarder

  /** A forwarder accepts a CREATE, has it checked if it takes part, and passes it on. */
  function PassOn(node: Node, p: Packet): Outcome<Nf.Nf> {
    var o := Nf.Step(Nf.INITIAL, MsgIn(p, false), node.Begin(), node.cfg);
    if o.Next? && o.s.state == Nf.PENDING_CHECK then Nf.Step(o.s, ApiCheck(node.keys), Again(o.ctx), node.cfg) else o
  }

  /** A forwarder accepts the response, has its rule installed, and passes the response on. */
  function PassBack(node: Node, s: Nf.Nf, response: Packet): Outcome<Nf.Nf> {
    var o := Nf.Step(s, MsgIn(response, false), node.Begin(), node.cfg);
    if o.Next? && o.s.state == Nf.PENDING_INSTALLING then Nf.Step(o.s, ApiInstall(node.installed), Again(o.ctx), node.cfg) else o
  }

  // The responder

  function Answer(node: Node, cfgMsn: uint32, p: Packet): Outcome<Nr.Nr> {
    var o := Nr.Step(Nr.Initial(node.cfg, cfgMsn), MsgIn(p, true), node.Begin(), node.cfg);
    if o.Next? && o.s.state == Nr.PENDING then
      var o' := Nr.Step(o.s, ApiCheck(node.keys), Again(o.ctx), node.cfg);
      if o'.Next? then Nr.Step(o'.s, ApiInstall(node.installed), Again(o'.ctx), node.cfg) else o'
    else o
  }

  // The path

  datatype Established = Established(response: Packet, forwarders: seq<Nf.Nf>, responder: Nr.Nr)

  /** A CREATE travels down the path and its response back; None when a node fails to set up its session. */
  function Travel(nodes: seq<Node>, last: Node, msn: uint32, p: Packet): (e: Option<Established>)
    ensures e.Some? ==> |e.value.forwarders| == |nodes|
    decreases |nodes|
  {
    if nodes == [] then
      var o := Answer(last, msn, p);
      if o.Next? && o.s.state == Nr.AUCTIONING && FirstSent(o.ctx.log).Some?
      then Some(Established(FirstSent(o.ctx.log).value, [], o.s)) else None
    else
      var o := PassOn(nodes[0], p);
      if !(o.Next? && o.s.state == Nf.PENDING && FirstSent(o.ctx.log).Some?) then None
      else
        match Travel(nodes[1..], last, msn, FirstSent(o.ctx.log).value)
        case None => None
        case Some(e) =>
          var r := PassBack(nodes[0], o.s, e.response);
          if !(r.Next? && r.s.state == Nf.AUCTIONING && FirstSent(r.ctx.log).Some?) then None
          else Some(Established(FirstSent(r.ctx.log).value, [r.s] + e.forwarders, e.responder))
  }

  /** The role of the node at a position: the initiator, some forwarders, the responder. */
  function RoleAt(position: nat, forwarders: nat): Role {
    if position == 0 then INITIATOR else if position <= forwarders then FORWARDER else RECEIVER
  }

  /** Who takes part in a request: all nodes, the first, the last, or both ends, by the registered number. */
  lemma TakesPart(position: nat, forwarders: nat, sme: uint32)
    requires position <= forwarders + 1
    ensures Participates(RoleAt(position, forwarders), sme) <==>
              || sme == 1 || sme == 2
              || (sme == 3 && position == 0)
              || (sme == 4 && position == forwarders + 1)
              || (sme == 5 && (position == 0 || position == forwarders + 1))
  {
  }

  // What the path should come to

  /** The smallest of a lifetime and some caps. */
  function Least(lifetime: uint32, caps: seq<uint32>): uint32 {
    if caps == [] then lifetime else Least(Min(lifetime, caps[0]), caps[1..])
  }

  lemma {:induction false} LeastIsMinimum(lifetime: uint32, caps: seq<uint32>)
    ensures var m := Least(lifetime, caps);
            && m <= lifetime && (forall cap :: cap in caps ==> m <= cap)
            && (m == lifetime || m in caps)
  {
    if caps != [] {
      LeastIsMinimum(Min(lifetime, caps[0]), caps[1..]);
      assert forall cap :: cap in caps <==> cap == caps[0] || cap in caps[1..];
    }
  }

  function Caps(nodes: seq<Node>): (caps: seq<uint32>)
    ensures |caps| == |nodes| && forall i :: 0 <= i < |nodes| ==> caps[i] == nodes[i].cfg.nfMaxLifetime
  {
    seq(|nodes|, i requires 0 <= i < |nodes| => nodes[i].cfg.nfMaxLifetime)
  }

  /** The objects that the forwarders add, from the last to the first. */
  function Collected(nodes: seq<Node>): seq<Payload> {
    if nodes == [] then [] else Collected(nodes[1..]) + Listing(nodes[0].installed)
  }

  /** The objects a node is expected to install for a CREATE. */
  function Wanted(node: Node, role: Role, create: Msg): Objects {
    var requests := Assign(node.ctx.nextKey, create.objects);
    if Participates(role, create.sel.GetOr(0)) && node.cfg.installRules then Keep(requests, node.keys) else requests
  }

  /** A usable CREATE, and a node that accepts it and installs what it is expected to. */
  predicate Cooperates(node: Node, p: Packet) {
    && node.ctx.verdict.Accepts? && node.cfg.nfMaxLifetime > 0
    && |node.installed| == |Wanted(node, FORWARDER, p.msg)|
  }

  predicate Answers(node: Node, p: Packet) {
    && node.cfg.nrMaxLifetime > 0
    && (Nr.Checks(p.msg, node.cfg) ==> node.ctx.verdict.Accepts? && |node.installed| == |Wanted(node, RECEIVER, p.msg)|)
  }

  predicate Usable(p: Packet) {
    && p.mri == Mri(true, true) && p.msg.kind == CREATE
    && p.msg.msn.Some? && p.msg.lifetime.Some? && p.msg.lifetime.value > 0 && p.msg.sel.Some? && p.msg.hop.Some?
    && p.msg.code.None?
  }

  function Capped(p: Packet, cap: uint32): Packet
    requires p.msg.lifetime.Some?
  {
    p.(msg := p.msg.(lifetime := Some(Min(p.msg.lifetime.value, cap))))
  }

  /** What one forwarder does to the CREATE and to its own session. */
  lemma PassOnCaps(node: Node, p: Packet)
    requires Usable(p)
    ensures var o := PassOn(node, p);
            && (Cooperates(node, p) ==> o.Next? && o.s.state == Nf.PENDING)
            && (o.Next? && o.s.state == Nf.PENDING ==>
                  && node.cfg.nfMaxLifetime > 0
                  && FirstSent(o.ctx.log) == Some(Capped(p, node.cfg.nfMaxLifetime))
                  && o.s.lifetime == Min(p.msg.lifetime.value, node.cfg.nfMaxLifetime)
                  && o.s.lastCreate == Some(p) && o.s.rule == Rule(Wanted(node, FORWARDER, p.msg), map[])
                  && o.s.nrMri == Some(p.mri) && o.s.msn == p.msg.msn.value
                  && o.s.maxLifetime == o.s.responseTimeout == node.cfg.nfMaxLifetime)
  {
  }

  predicate Confirms(response: Packet, p: Packet) {
    response.msg.kind == RESPONSE && response.msg.IsSuccess() && response.msg.msn == p.msg.msn
  }

  /** The terms on which a forwarder lives. */
  predicate SameTerms(s: Nf.Nf, s': Nf.Nf) {
    s'.msn == s.msn && s'.lifetime == s.lifetime && s'.maxLifetime == s.maxLifetime && s'.responseTimeout == s.responseTimeout
  }

  /** A forwarder accepts the response if its installer does. */
  lemma ForwarderAccepts(node: Node, s: Nf.Nf, p: Packet, response: Packet)
    requires Usable(p) && Confirms(response, p) && s.state == Nf.PENDING && s.lastCreate == Some(p)
    ensures var o := Nf.Step(s, MsgIn(response, false), node.Begin(), node.cfg);
            && (o.Next? <==> node.ctx.verdict.Accepts?)
            && (o.Next? ==>
                  && o.s.state == Nf.PENDING_INSTALLING && o.s.lastResponse == Some(response)
                  && o.s.rule == s.rule && SameTerms(s, o.s) && o.ctx.verdict == node.ctx.verdict
                  && o.s.nrMri == s.nrMri)
  {
  }

  /** It passes the response on when it has installed as many objects as were wanted. */
  lemma ForwarderInstalls(node: Node, s: Nf.Nf, response: Packet, ctx: Ctx)
    requires s.state == Nf.PENDING_INSTALLING && s.lastResponse == Some(response)
    requires ctx.verdict.Accepts? && ctx.log == []
    ensures var o := Nf.Step(s, ApiInstall(node.installed), ctx, node.cfg);
            var installed := Install(s.rule.responses, ctx.nextKey, node.installed);
            && (o.Next? && o.s.state == Nf.AUCTIONING <==> |node.installed| == |s.rule.requests|)
            && (o.Next? && o.s.state == Nf.AUCTIONING ==>
                  && FirstSent(o.ctx.log) == Some(ExtendResponse(response, installed))
                  && SameTerms(s, o.s) && o.s.rule.responses == installed)
  {
  }

  /** What one forwarder does to the response. */
  lemma PassBackExtends(node: Node, s: Nf.Nf, p: Packet, response: Packet)
    requires Usable(p) && Confirms(response, p)
    requires s.state == Nf.PENDING && s.lastCreate == Some(p) && s.rule == Rule(Wanted(node, FORWARDER, p.msg), map[])
    ensures var o := PassBack(node, s, response);
            && (o.Next? && o.s.state == Nf.AUCTIONING <==>
                  node.ctx.verdict.Accepts? && |node.installed| == |Wanted(node, FORWARDER, p.msg)|)
            && (o.Next? && o.s.state == Nf.AUCTIONING ==>
                  && FirstSent(o.ctx.log) == Some(ExtendResponse(response, node.installed))
                  && SameTerms(s, o.s) && Listing(o.s.rule.responses) == Listing(node.installed))
  {
    ForwarderAccepts(node, s, p, response);
    var o := Nf.Step(s, MsgIn(response, false), node.Begin(), node.cfg);
    if o.Next? {
      ForwarderInstalls(node, o.s, response, Again(o.ctx));
      InstallFirst(o.ctx.nextKey, node.installed);
    }
  }

  /** The responder accepts, and reports success at once if it does not take part. */
  lemma ResponderAccepts(node: Node, msn: uint32, p: Packet)
    requires Usable(p)
    ensures var o := Nr.Step(Nr.Initial(node.cfg, msn), MsgIn(p, true), node.Begin(), node.cfg);
            var lifetime := Min(p.msg.lifetime.value, node.cfg.nrMaxLifetime);
            && o.Next?
            && (o.s.state == Nr.PENDING <==> lifetime > 0 && Nr.Checks(p.msg, node.cfg) && node.ctx.verdict.Accepts?)
            && (o.s.state == Nr.AUCTIONING <==> lifetime > 0 && !Nr.Checks(p.msg, node.cfg))
            && (o.s.state != Nr.CLOSE ==> o.s.msn == p.msg.msn.value && o.s.maxLifetime == node.cfg.nrMaxLifetime)
            && (o.s.state == Nr.PENDING ==>
                  && o.s.lastCreate == Some(p) && o.s.lifetime == lifetime && o.ctx.verdict == node.ctx.verdict
                  && o.s.rule == Rule(Assign(node.ctx.nextKey, p.msg.objects), map[]))
            && (o.s.state == Nr.AUCTIONING ==> o.s.lifetime == lifetime && FirstSent(o.ctx.log) == Some(CreateSuccessResponse(p, lifetime)))
  {
  }

  predicate SameNumbers(s: Nr.Nr, s': Nr.Nr) {
    s'.msn == s.msn && s'.lifetime == s.lifetime && s'.maxLifetime == s.maxLifetime
  }

  lemma ResponderChecks(node: Node, s: Nr.Nr, p: Packet, ctx: Ctx)
    requires s.state == Nr.PENDING && ctx.verdict.Accepts?
    ensures var o := Nr.Step(s, ApiCheck(node.keys), ctx, node.cfg);
            && o.Next? && o.s.state == Nr.PENDING_INSTALLING && o.ctx.verdict.Accepts?
            && o.s.rule == s.rule.(requests := Keep(s.rule.requests, node.keys))
            && o.s.lastCreate == s.lastCreate && SameNumbers(s, o.s)
  {
  }

  lemma ResponderReports(node: Node, s: Nr.Nr, p: Packet, ctx: Ctx)
    requires s.lastCreate == Some(p) && |node.installed| == |s.rule.requests| && ctx.log == []
    ensures var o := Nr.StepInstalled(s, node.installed, ctx, node.cfg);
            var installed := Install(s.rule.responses, ctx.nextKey, node.installed);
            && o.Next? && o.s.state == Nr.AUCTIONING && SameNumbers(s, o.s)
            && FirstSent(o.ctx.log) == Some(ExtendResponse(CreateSuccessResponse(p, s.lifetime), installed))
  {
  }

  /** The responder reports success when it has installed as many objects as the check has kept. */
  lemma ResponderInstalls(node: Node, s: Nr.Nr, p: Packet, ctx: Ctx)
    requires s.state == Nr.PENDING_INSTALLING && s.lastCreate == Some(p) && ctx.log == []
    ensures var o := Nr.Step(s, ApiInstall(node.installed), ctx, node.cfg);
            var installed := Install(s.rule.responses, ctx.nextKey, node.installed);
            && (o.Next? && o.s.state == Nr.AUCTIONING <==> |node.installed| == |s.rule.requests|)
            && (o.Next? && o.s.state == Nr.AUCTIONING ==>
                  && FirstSent(o.ctx.log) == Some(ExtendResponse(CreateSuccessResponse(p, s.lifetime), installed))
                  && SameNumbers(s, o.s))
  {
    if |node.installed| == |s.rule.requests| {
      ResponderReports(node, s, p, ctx);
    }
  }

  /** What the responder answers. */
  lemma AnswerCaps(node: Node, msn: uint32, p: Packet)
    requires Usable(p)
    ensures var o := Answer(node, msn, p);
            && (o.Next? && o.s.state == Nr.AUCTIONING <==> Answers(node, p))
            && (o.Next? && o.s.state == Nr.AUCTIONING ==>
                  && FirstSent(o.ctx.log).Some?
                  && var response := FirstSent(o.ctx.log).value;
                     && Confirms(response, p) && response.mri == p.mri.Inverted()
                     && response.msg.lifetime == Some(Min(p.msg.lifetime.value, node.cfg.nrMaxLifetime))
                     && response.msg.objects == (if Nr.Checks(p.msg, node.cfg) then Listing(node.installed) else [])
                     && o.s.lifetime == response.msg.lifetime.value
                     && o.s.msn == p.msg.msn.value && o.s.maxLifetime == node.cfg.nrMaxLifetime)
  {
    ResponderAccepts(node, msn, p);
    var o := Nr.Step(Nr.Initial(node.cfg, msn), MsgIn(p, true), node.Begin(), node.cfg);
    if o.s.state == Nr.PENDING {
      ResponderChecks(node, o.s, p, Again(o.ctx));
      var o' := Nr.Step(o.s, ApiCheck(node.keys), Again(o.ctx), node.cfg);
      ResponderInstalls(node, o'.s, p, Again(o'.ctx));
      InstallFirst(o'.ctx.nextKey, node.installed);
      assert [] + Listing(node.installed) == Listing(node.installed);
    }
  }

  /** Every forwarder and the responder do their part. */
  predicate AllCooperate(nodes: seq<Node>, last: Node, p: Packet)
    requires p.msg.lifetime.Some?
    decreases |nodes|
  {
    if nodes == [] then Answers(last, p)
    else Cooperates(nodes[0], p) && AllCooperate(nodes[1..], last, Capped(p, nodes[0].cfg.nfMaxLifetime))
  }

  /** The objects in the response: those of the responder, then those of the forwarders from the last to the first. */
  function AllInstalled(nodes: seq<Node>, last: Node, create: Msg): seq<Payload> {
    (if Nr.Checks(create, last.cfg) then Listing(last.installed) else []) + Collected(nodes)
  }

  /**
   * What a path negotiates for a CREATE: the response carries the least of the requested lifetime and the caps, and the
   * installed objects of all nodes; each forwarder lives at least as long.
   */
  ghost predicate Negotiated(nodes: seq<Node>, last: Node, p: Packet, e: Established)
    requires p.msg.lifetime.Some?
  {
    && Confirms(e.response, p) && e.response.mri == p.mri.Inverted()
    && e.response.msg.lifetime == Some(Least(p.msg.lifetime.value, Caps(nodes) + [last.cfg.nrMaxLifetime]))
    && e.response.msg.objects == AllInstalled(nodes, last, p.msg)
    && e.responder.lifetime == e.response.msg.lifetime.value
    && Lifetimes(e.forwarders, p.msg.lifetime.value, Caps(nodes))
  }

  lemma CapsSplit(nodes: seq<Node>, cap: uint32)
    requires nodes != []
    ensures Caps(nodes)[1..] == Caps(nodes[1..])
    ensures (Caps(nodes) + [cap])[1..] == Caps(nodes[1..]) + [cap]
  {
  }

  ghost predicate Lifetimes(forwarders: seq<Nf.Nf>, lifetime: uint32, caps: seq<uint32>) {
    && |forwarders| == |caps|
    && forall i :: 0 <= i < |caps| ==> forwarders[i].lifetime == Least(lifetime, caps[..i + 1])
  }

  lemma OneMoreLifetime(s: Nf.Nf, forwarders: seq<Nf.Nf>, lifetime: uint32, caps: seq<uint32>)
    requires caps != [] && s.lifetime == Min(lifetime, caps[0]) && Lifetimes(forwarders, s.lifetime, caps[1..])
    ensures Lifetimes([s] + forwarders, lifetime, caps)
  {
    forall i | 0 <= i < |caps| ensures ([s] + forwarders)[i].lifetime == Least(lifetime, caps[..i + 1]) {
      assert caps[..i + 1][1..] == caps[1..][..i];
    }
  }

  lemma OneMoreListing(nodes: seq<Node>, last: Node, create: Msg)
    requires nodes != []
    ensures AllInstalled(nodes, last, create) == AllInstalled(nodes[1..], last, create) + Listing(nodes[0].installed)
  {
  }

  lemma OneMoreForwarder(nodes: seq<Node>, last: Node, p: Packet, e: Established, s: Nf.Nf)
    requires nodes != [] && Usable(p)
    requires Negotiated(nodes[1..], last, Capped(p, nodes[0].cfg.nfMaxLifetime), e)
    requires s.lifetime == Min(p.msg.lifetime.value, nodes[0].cfg.nfMaxLifetime)
    ensures Negotiated(nodes, last, p,
                       Established(ExtendResponse(e.response, nodes[0].installed), [s] + e.forwarders, e.responder))
  {
    CapsSplit(nodes, last.cfg.nrMaxLifetime);
    OneMoreListing(nodes, last, p.msg);
    OneMoreLifetime(s, e.forwarders, p.msg.lifetime.value, Caps(nodes));
  }

  /** By induction over the forwarders, every path negotiates so. */
  lemma {:induction false} TravelNegotiates(nodes: seq<Node>, last: Node, msn: uint32, p: Packet)
    requires Usable(p)
    ensures var t := Travel(nodes, last, msn, p); t.Some? ==> Negotiated(nodes, last, p, t.value)
    decreases |nodes|
  {
    if nodes == [] {
      AnswerCaps(last, msn, p);
      assert [last.cfg.nrMaxLifetime][1..] == [];
      assert Caps(nodes) + [last.cfg.nrMaxLifetime] == [last.cfg.nrMaxLifetime];
    } else if Travel(nodes, last, msn, p).Some? {
      PassOnCaps(nodes[0], p);
      var p' := Capped(p, nodes[0].cfg.nfMaxLifetime);
      TravelNegotiates(nodes[1..], last, msn, p');
      var e, s := Travel(nodes[1..], last, msn, p').value, PassOn(nodes[0], p).s;
      PassBackExtends(nodes[0], s, p, e.response);
      OneMoreForwarder(nodes, last, p, e, PassBack(nodes[0], s, e.response).s);
    }
  }

  /** A forwarder that auctions under the number of the CREATE, on the terms of its own configuration. */
  predicate ForwarderInStep(node: Node, p: Packet, s: Nf.Nf) {
    && s.state == Nf.AUCTIONING && Some(s.msn) == p.msg.msn
    && s.maxLifetime == s.responseTimeout == node.cfg.nfMaxLifetime && 0 < node.cfg.nfMaxLifetime
  }

  predicate ResponderInStep(node: Node, p: Packet, s: Nr.Nr) {
    s.state == Nr.AUCTIONING && Some(s.msn) == p.msg.msn && s.maxLifetime == node.cfg.nrMaxLifetime && 0 < node.cfg.nrMaxLifetime
  }

  ghost predicate AllInStep(nodes: seq<Node>, last: Node, p: Packet, e: Established) {
    && |e.forwarders| == |nodes| && ResponderInStep(last, p, e.responder)
    && forall i :: 0 <= i < |nodes| ==> ForwarderInStep(nodes[i], p, e.forwarders[i])
  }

  lemma OneMoreInStep(nodes: seq<Node>, last: Node, p: Packet, e: Established, response: Packet, s: Nf.Nf)
    requires nodes != [] && AllInStep(nodes[1..], last, p, e) && ForwarderInStep(nodes[0], p, s)
    ensures AllInStep(nodes, last, p, Established(response, [s] + e.forwarders, e.responder))
  {
    forall i | 0 <= i < |nodes| ensures ForwarderInStep(nodes[i], p, ([s] + e.forwarders)[i]) {
      if i > 0 {
        assert nodes[i] == nodes[1..][i - 1];
      }
    }
  }

  /** A path that is set up is auctioning everywhere under the number of its CREATE. */
  lemma {:induction false} TravelSynchronises(nodes: seq<Node>, last: Node, msn: uint32, p: Packet)
    requires Usable(p)
    ensures var t := Travel(nodes, last, msn, p); t.Some? ==> AllInStep(nodes, last, p, t.value)
    decreases |nodes|
  {
    if nodes == [] {
      AnswerCaps(last, msn, p);
    } else if Travel(nodes, last, msn, p).Some? {
      PassOnCaps(nodes[0], p);
      var p' := Capped(p, nodes[0].cfg.nfMaxLifetime);
      TravelNegotiates(nodes[1..], last, msn, p');
      TravelSynchronises(nodes[1..], last, msn, p');
      var e, s := Travel(nodes[1..], last, msn, p').value, PassOn(nodes[0], p).s;
      PassBackExtends(nodes[0], s, p, e.response);
      var r := PassBack(nodes[0], s, e.response);
      OneMoreInStep(nodes, last, p, e, FirstSent(r.ctx.log).value, r.s);
    }
  }

  /** The session is set up exactly when every node does its part. */
  lemma {:induction false} TravelSucceedsExactly(nodes: seq<Node>, last: Node, msn: uint32, p: Packet)
    requires Usable(p)
    ensures Travel(nodes, last, msn, p).Some? <==> AllCooperate(nodes, last, p)
    decreases |nodes|
  {
    if nodes == [] {
      AnswerCaps(last, msn, p);
    } else if PassOn(nodes[0], p).Next? && PassOn(nodes[0], p).s.state == Nf.PENDING {
      var p' := Capped(p, nodes[0].cfg.nfMaxLifetime);
      PassOnCaps(nodes[0], p);
      TravelSucceedsExactly(nodes[1..], last, msn, p');
      TravelNegotiates(nodes[1..], last, msn, p');
      var t := Travel(nodes[1..], last, msn, p');
      if t.Some? {
        PassBackExtends(nodes[0], PassOn(nodes[0], p).s, p, t.value.response);
      }
    } else {
      PassOnCaps(nodes[0], p);
    }
  }

  // A failed installation on the path

  lemma MismatchSends(s: Nf.Nf, installed: Objects, ctx: Ctx, cfg: Config)
    requires s.state == Nf.PENDING_INSTALLING && s.lastResponse.Some? && s.nrMri.Some? && s.rule.responses == map[]
    requires |installed| != |s.rule.requests| && ctx.log == []
    ensures var o := Nf.Step(s, ApiInstall(installed), ctx, cfg);
            && o.Next? && o.s.state == Nf.CLOSE && |o.ctx.log| == 2
            && o.ctx.log[1] == Sent(CreateResponse(s.lastResponse.value, INTERNAL_ERROR))
  {
  }

  /**
   * On every path, wherever a forwarder stands on it: the response that it stores comes against the direction of the
   * CREATE, so its error after a failed installation goes downstream and never reaches the initiator.
   */
  lemma InstallErrorMissesInitiator(node: Node, rest: seq<Node>, last: Node, msn: uint32, p: Packet, installed: Objects)
    requires Usable(p) && Cooperates(node, p)
    requires AllCooperate(rest, last, Capped(p, node.cfg.nfMaxLifetime))
    requires |installed| != |Wanted(node, FORWARDER, p.msg)|
    ensures var s := PassOn(node, p).s;
            var t := Travel(rest, last, msn, Capped(p, node.cfg.nfMaxLifetime));
            && t.Some?
            && var o := Nf.Step(s, MsgIn(t.value.response, false), node.Begin(), node.cfg);
               && o.Next? && o.s.lastResponse == Some(t.value.response) && o.s.nrMri.Some?
               && t.value.response.mri == o.s.nrMri.value.Inverted()
               && var o' := Nf.Step(o.s, ApiInstall(installed), Again(o.ctx), node.cfg);
                  && o'.Next? && o'.s.state == Nf.CLOSE && |o'.ctx.log| == 2
                  && o'.ctx.log[1] == Sent(CreateResponse(t.value.response, INTERNAL_ERROR))
                  && o'.ctx.log[1].packet.mri == p.mri && p.mri.downstream
  {
    var p' := Capped(p, node.cfg.nfMaxLifetime);
    PassOnCaps(node, p);
    TravelSucceedsExactly(rest, last, msn, p');
    TravelNegotiates(rest, last, msn, p');
    var s, response := PassOn(node, p).s, Travel(rest, last, msn, p').value.response;
    ForwarderAccepts(node, s, p, response);
    var o := Nf.Step(s, MsgIn(response, false), node.Begin(), node.cfg);
    MismatchSends(o.s, installed, Again(o.ctx), node.cfg);
  }

  // From the client's request to the installed session

  datatype Request = Request(lifetime: uint32, sel: uint32, objects: seq<Payload>)

  /** The initiator opens a session and sends its CREATE. */
  function Ask(node: Node, msn: uint32, request: Request, random: nat): Outcome<Ni.Ni> {
    Ni.Step(Ni.Initial(node.cfg, msn, 0), ApiCreate(request.lifetime, request.sel, request.objects, true), node.Begin(), random)
  }

  /** The initiator receives the response and installs its objects. */
  function Conclude(node: Node, s: Ni.Ni, response: Packet): Outcome<Ni.Ni> {
    var o := Ni.Step(s, MsgIn(response, true), node.Begin(), 0);
    if o.Next? && o.s.state == Ni.PENDING_INSTALLING then Ni.Step(o.s, ApiInstall(node.installed), Again(o.ctx), 0) else o
  }

  lemma AskOpens(node: Node, msn: uint32, request: Request, random: nat)
    requires request.lifetime > 0
    ensures var o := Ask(node, msn, request, random);
            o.Next? && o.s.state == Ni.PENDING ==>
            && FirstSent(o.ctx.log).Some?
            && var p := FirstSent(o.ctx.log).value;
               && Usable(p) && o.s.lastCreate == Some(p) && p.msg.lifetime.value == o.s.lifetime == request.lifetime
               && p.msg.objects == request.objects && p.msg.sel.value == request.sel
               && p.msg.hop == Some(node.cfg.niHopCount) && p.msg.msn == Some(o.s.msn) && o.s.msn == SerialNumber.Increment(msn)
               && o.s.refreshInterval == Ni.RefreshInterval(request.lifetime, node.cfg.niMaxRetries)
  {
  }

  /** The refresh interval after the answer: that of the request, or two thirds of another lifetime. */
  function IntervalAfter(s: Ni.Ni, granted: uint32): nat {
    if granted == s.lifetime then s.refreshInterval else NiIntervals.Adopted(granted)
  }

  lemma ResponseIsAdopted(s: Ni.Ni, p: Packet, response: Packet, ctx: Ctx)
    requires s.state == Ni.PENDING && s.lastCreate == Some(p) && Usable(p)
    requires Confirms(response, p) && response.msg.lifetime.Some?
    ensures var o := Ni.Step(s, MsgIn(response, true), ctx, 0);
            o.Next? ==>
              && o.s.state == Ni.PENDING_INSTALLING && o.s.lifetime == response.msg.lifetime.value
              && response.msg.MspecObjects().Some?
              && o.s.installRule == Rule(Assign(ctx.nextKey, response.msg.MspecObjects().value), map[])
              && o.s.msn == s.msn && o.s.refreshInterval == IntervalAfter(s, response.msg.lifetime.value)
  {
  }

  lemma InstallationCounts(s: Ni.Ni, installed: Objects, ctx: Ctx)
    requires s.state == Ni.PENDING_INSTALLING && s.installRule.responses == map[]
    ensures var o := Ni.Step(s, ApiInstall(installed), ctx, 0);
            o.Next? && o.s.state == Ni.AUCTIONING ==>
              && o.s.lifetime == s.lifetime && |installed| == |s.installRule.requests|
              && o.s.rule.responses == Install(map[], ctx.nextKey, installed)
              && o.s.msn == s.msn && o.s.refreshInterval == s.refreshInterval
  {
  }

  lemma ConcludeAdopts(node: Node, s: Ni.Ni, p: Packet, response: Packet)
    requires s.state == Ni.PENDING && s.lastCreate == Some(p) && Usable(p)
    requires Confirms(response, p) && response.msg.lifetime.Some?
    ensures var o := Conclude(node, s, response);
            o.Next? && o.s.state == Ni.AUCTIONING ==>
              && o.s.lifetime == response.msg.lifetime.value && |o.s.rule.responses| == |response.msg.objects|
              && o.s.msn == s.msn && o.s.refreshInterval == IntervalAfter(s, response.msg.lifetime.value)
  {
    var ctx := node.Begin();
    ResponseIsAdopted(s, p, response, ctx);
    var o := Ni.Step(s, MsgIn(response, true), ctx, 0);
    if o.Next? {
      InstallationCounts(o.s, node.installed, Again(o.ctx));
      InstallFirst(o.ctx.nextKey, node.installed);
    }
  }

  /** All parties of a negotiation agree. */
  ghost predicate Agreed(nodes: seq<Node>, last: Node, p: Packet, e: Established, s: Ni.Ni)
    requires p.msg.lifetime.Some?
  {
    var least := Least(p.msg.lifetime.value, Caps(nodes) + [last.cfg.nrMaxLifetime]);
    && s.lifetime == least && e.responder.lifetime == least
    && (forall f :: f in e.forwarders ==> f.lifetime >= least)
    && e.response.msg.objects == AllInstalled(nodes, last, p.msg)
    && |s.rule.responses| == |e.response.msg.objects|
  }

  lemma NegotiatedIsAgreed(nodes: seq<Node>, last: Node, p: Packet, e: Established, s: Ni.Ni)
    requires p.msg.lifetime.Some? && Negotiated(nodes, last, p, e)
    requires s.lifetime == e.response.msg.lifetime.value && |s.rule.responses| == |e.response.msg.objects|
    ensures Agreed(nodes, last, p, e, s)
  {
    forall i | 0 <= i < |nodes| ensures e.forwarders[i].lifetime >= e.response.msg.lifetime.value {
      LeastOfMore(p.msg.lifetime.value, Caps(nodes) + [last.cfg.nrMaxLifetime], i + 1);
      assert (Caps(nodes) + [last.cfg.nrMaxLifetime])[..i + 1] == Caps(nodes)[..i + 1];
    }
  }

  /**
   * The whole negotiation: the initiator, the responder and the response agree on the least of the requested lifetime and
   * the caps on the path, no forwarder gives its session up earlier, and the initiator installs one object for each
   * object installed on the path.
   */
  lemma PathNegotiates(asker: Node, nodes: seq<Node>, last: Node, msn: uint32, lastMsn: uint32, request: Request, random: nat)
    requires request.lifetime > 0
    ensures var o := Ask(asker, msn, request, random);
            o.Next? && o.s.state == Ni.PENDING ==>
              && FirstSent(o.ctx.log).Some?
              && var p := FirstSent(o.ctx.log).value;
                 var t := Travel(nodes, last, lastMsn, p);
                 p.msg.lifetime == Some(request.lifetime) && p.msg.objects == request.objects
                 && (t.Some? ==>
                       var r := Conclude(asker, o.s, t.value.response);
                       r.Next? && r.s.state == Ni.AUCTIONING ==> Agreed(nodes, last, p, t.value, r.s))
  {
    AskOpens(asker, msn, request, random);
    var o := Ask(asker, msn, request, random);
    if o.Next? && o.s.state == Ni.PENDING {
      var p := FirstSent(o.ctx.log).value;
      TravelNegotiates(nodes, last, lastMsn, p);
      var t := Travel(nodes, last, lastMsn, p);
      if t.Some? {
        ConcludeAdopts(asker, o.s, p, t.value.response);
        var r := Conclude(asker, o.s, t.value.response);
        if r.Next? && r.s.state == Ni.AUCTIONING {
          NegotiatedIsAgreed(nodes, last, p, t.value, r.s);
        }
      }
    }
  }

  lemma {:induction false} LeastOfMore(lifetime: uint32, caps: seq<uint32>, n: nat)
    requires n <= |caps|
    ensures Least(lifetime, caps) <= Least(lifetime, caps[..n])
  {
    if n == 0 {
      LeastIsMinimum(lifetime, caps);
    } else {
      LeastOfMore(Min(lifetime, caps[0]), caps[1..], n - 1);
      assert caps[..n][1..] == caps[1..][..n - 1];
    }
  }
}
