/** Refreshing and tearing down a session along a path, each node with its own transition function. */
module PathRefresh {
  import opened Bytes
  import opened Protocol
  import opened SerialNumber
  import Ni = NiSpec
  import Nf = NfSpec
  import Nr = NrSpec
  import Path

  /** A forwarder, with its dispatcher as the REFRESH and then its answer find it. */
  datatype Hop = Hop(s: Nf.Nf, down: Ctx, up: Ctx, cfg: Config)

  /** The responder. */
  datatype End = End(s: Nr.Nr, ctx: Ctx, cfg: Config)

  function Down(h: Hop, p: Packet): Outcome<Nf.Nf> {
    Nf.Step(h.s, MsgIn(p, false), h.down.(log := []), h.cfg)
  }

  function Up(h: Hop, s: Nf.Nf, response: Packet): Outcome<Nf.Nf> {
    Nf.Step(s, MsgIn(response, false), h.up.(log := []), h.cfg)
  }

  function Arrive(last: End, p: Packet): Outcome<Nr.Nr> {
    Nr.Step(last.s, MsgIn(p, true), last.ctx.(log := []), last.cfg)
  }

  /** The message that arrives, the response that comes back, and what each node did on the way down and up. */
  datatype Passage = Passage(arrived: Packet, response: Packet, downs: seq<Outcome<Nf.Nf>>, ups: seq<Outcome<Nf.Nf>>, end: Outcome<Nr.Nr>)

  /** A message travels down the path and its response back; None when some node sends nothing on. */
  function Travel(hops: seq<Hop>, last: End, p: Packet): (e: Option<Passage>)
    ensures e.Some? ==> |e.value.downs| == |hops| == |e.value.ups|
    decreases |hops|
  {
    if hops == [] then
      var o := Arrive(last, p);
      if o.Halted? || Path.FirstSent(o.ctx.log).None? then None
      else Some(Passage(p, Path.FirstSent(o.ctx.log).value, [], [], o))
    else
      var o := Down(hops[0], p);
      if !o.Next? || Path.FirstSent(o.ctx.log).None? then None
      else
        match Travel(hops[1..], last, Path.FirstSent(o.ctx.log).value)
        case None => None
        case Some(e) =>
          var r := Up(hops[0], o.s, e.response);
          if r.Halted? || Path.FirstSent(r.ctx.log).None? then None
          else Some(Passage(e.arrived, Path.FirstSent(r.ctx.log).value, [o] + e.downs, [r] + e.ups, e.end))
  }

  // One forwarder

  predicate IsRefresh(p: Packet) {
    p.msg.kind == REFRESH && p.msg.msn.Some? && p.msg.lifetime.Some?
  }

  predicate HopAccepts(h: Hop, p: Packet) {
    h.s.state == Nf.AUCTIONING && IsGreaterThan(p.msg.msn.GetOr(0), h.s.msn)
  }

  predicate EndAccepts(last: End, p: Packet) {
    last.s.state == Nr.AUCTIONING && IsGreaterThan(p.msg.msn.GetOr(0), last.s.msn)
  }

  /** The lifetime that a forwarder grants. */
  function Granted(h: Hop, p: Packet): uint32 {
    Min(p.msg.lifetime.GetOr(0), h.s.maxLifetime)
  }

  /** On the way down: the REFRESH goes on as it came, and the response timer starts. */
  predicate GoesDown(h: Hop, p: Packet, o: Outcome<Nf.Nf>) {
    && o.Next? && o.s.state == Nf.AUCTIONING
    && o.ctx.log == [Sent(p), Started(h.down.nextTimer, h.s.responseTimeout)]
    && o.s.lifetime == Granted(h, p) && o.s.lastRefresh == Some(p) && o.s.responseTimer == h.down.nextTimer
    && o.s.msn == (if Granted(h, p) > 0 then p.msg.msn.GetOr(0) else h.s.msn)
    && o.s.maxLifetime == h.s.maxLifetime && o.s.responseTimeout == h.s.responseTimeout && o.s.rule == h.s.rule
    && o.s.stateTimer == h.s.stateTimer
  }

  lemma RefreshGoesDown(h: Hop, p: Packet)
    requires IsRefresh(p) && HopAccepts(h, p)
    ensures GoesDown(h, p, Down(h, p))
  {
  }

  /** A REFRESH that is not newer than the session changes nothing and goes no further. */
  lemma StaleRefreshStays(h: Hop, p: Packet)
    requires p.msg.kind == REFRESH && h.s.state == Nf.AUCTIONING && !HopAccepts(h, p)
    ensures Down(h, p) == Next(h.s, h.down.(log := []))
  {
  }

  /** The rule is handed to the installer for removal, and the session waits for it, or closes when nothing is installed. */
  predicate TornDown<S>(o: Outcome<S>, responses: Objects, before: seq<Effect>, rule: Rule, id: TimerId, seconds: nat, waits: bool,
                        closed: bool) {
    if |responses| == 0 then o.Next? && closed && o.ctx.log == before
    else if o.Threw? then o.ctx.log == before + [Removed(rule)]
    else o.Next? && waits && o.ctx.log == before + [Removed(rule), Started(id, seconds)]
  }

  /** On the way up: the response goes on as it came; the session is prolonged by its lifetime, or torn down if that is 0. */
  predicate GoesUp(h: Hop, p: Packet, response: Packet, o: Outcome<Nf.Nf>) {
    if Granted(h, p) > 0 then
      && o.Next? && o.s.state == Nf.AUCTIONING
      && o.ctx.log == [Sent(response), Started(h.up.nextTimer, Granted(h, p))] && o.s.stateTimer == h.up.nextTimer
      && o.s.lifetime == Granted(h, p) && o.s.msn == p.msg.msn.GetOr(0) && o.s.responseTimer == h.down.nextTimer
      && o.s.maxLifetime == h.s.maxLifetime && o.s.responseTimeout == h.s.responseTimeout && o.s.rule == h.s.rule
    else
      TornDown(o, h.s.rule.responses, [Sent(response)], h.s.rule, h.up.nextTimer, h.s.responseTimeout,
               o.Next? && o.s.state == Nf.PENDING_TEARDOWN, o.Next? && o.s.state == Nf.CLOSE)
  }

  predicate IsSuccessTo(response: Packet, p: Packet) {
    response.msg.kind == RESPONSE && response.msg.IsSuccess() && response.msg.msn == p.msg.msn
  }

  lemma ResponseGoesUp(h: Hop, s: Nf.Nf, p: Packet, response: Packet)
    requires IsRefresh(p) && Down(h, p).Next? && s == Down(h, p).s && GoesDown(h, p, Down(h, p)) && IsSuccessTo(response, p)
    ensures GoesUp(h, p, response, Up(h, s, response))
  {
  }

  // The responder

  function EndGrants(last: End, p: Packet): uint32 {
    Min(p.msg.lifetime.GetOr(0), last.s.maxLifetime)
  }

  /** The responder answers with what it grants; it is prolonged by that, or torn down if it is 0. */
  predicate Ends(last: End, p: Packet, o: Outcome<Nr.Nr>) {
    var answer := Sent(CreateSuccessResponse(p, EndGrants(last, p)));
    if EndGrants(last, p) > 0 then
      && o.Next? && o.s.state == Nr.AUCTIONING && o.ctx.log == [answer, Started(last.ctx.nextTimer, EndGrants(last, p))]
      && o.s.stateTimer == last.ctx.nextTimer && o.s.lifetime == EndGrants(last, p) && o.s.msn == p.msg.msn.GetOr(0)
      && o.s.maxLifetime == last.s.maxLifetime && o.s.rule == last.s.rule
    else
      TornDown(o, last.s.rule.responses, [answer], last.s.rule, last.ctx.nextTimer, last.cfg.nrResponseTimeout,
               o.Next? && o.s.state == Nr.PENDING_TEARDOWN, o.Next? && o.s.state == Nr.CLOSE)
  }

  lemma RefreshEnds(last: End, p: Packet)
    requires IsRefresh(p) && EndAccepts(last, p)
    ensures Ends(last, p, Arrive(last, p))
  {
  }

  // The path

  predicate AllAccept(hops: seq<Hop>, last: End, p: Packet) {
    (forall i :: 0 <= i < |hops| ==> HopAccepts(hops[i], p)) && EndAccepts(last, p)
  }

  /** The REFRESH arrives as it was sent, its success comes back as it was answered, and every node has done its part. */
  ghost predicate Passes(hops: seq<Hop>, last: End, p: Packet, e: Passage) {
    && e.arrived == p && e.response == CreateSuccessResponse(p, EndGrants(last, p))
    && |e.downs| == |hops| == |e.ups|
    && (forall i :: 0 <= i < |hops| ==> GoesDown(hops[i], p, e.downs[i]))
    && (forall i :: 0 <= i < |hops| ==> GoesUp(hops[i], p, e.response, e.ups[i]))
    && Ends(last, p, e.end)
  }

  lemma OneMoreHop(hops: seq<Hop>, last: End, p: Packet, e: Passage, o: Outcome<Nf.Nf>, r: Outcome<Nf.Nf>)
    requires hops != [] && Passes(hops[1..], last, p, e)
    requires GoesDown(hops[0], p, o) && GoesUp(hops[0], p, e.response, r)
    ensures Passes(hops, last, p, Passage(e.arrived, e.response, [o] + e.downs, [r] + e.ups, e.end))
  {
    var downs, ups := [o] + e.downs, [r] + e.ups;
    forall i | 0 <= i < |hops| ensures GoesDown(hops[i], p, downs[i]) && GoesUp(hops[i], p, e.response, ups[i]) {
      if i > 0 {
        assert hops[i] == hops[1..][i - 1] && downs[i] == e.downs[i - 1] && ups[i] == e.ups[i - 1];
      }
    }
  }

  lemma FirstOfDown(h: Hop, p: Packet, o: Outcome<Nf.Nf>)
    requires GoesDown(h, p, o)
    ensures Path.FirstSent(o.ctx.log) == Some(p)
  {
  }

  lemma FirstOfUp(h: Hop, p: Packet, response: Packet, o: Outcome<Nf.Nf>)
    requires GoesUp(h, p, response, o)
    ensures !o.Halted? && Path.FirstSent(o.ctx.log) == Some(response)
  {
  }

  lemma FirstOfEnd(last: End, p: Packet, o: Outcome<Nr.Nr>)
    requires Ends(last, p, o)
    ensures !o.Halted? && Path.FirstSent(o.ctx.log) == Some(CreateSuccessResponse(p, EndGrants(last, p)))
  {
  }

  /** By induction over the forwarders, every REFRESH that all nodes accept passes so, whatever its lifetime. */
  lemma {:induction false} RefreshPasses(hops: seq<Hop>, last: End, p: Packet)
    requires IsRefresh(p) && AllAccept(hops, last, p)
    ensures var e := Travel(hops, last, p); e.Some? && Passes(hops, last, p, e.value)
    decreases |hops|
  {
    if hops == [] {
      RefreshEnds(last, p);
      FirstOfEnd(last, p, Arrive(last, p));
    } else {
      var o := Down(hops[0], p);
      RefreshGoesDown(hops[0], p);
      FirstOfDown(hops[0], p, o);
      RefreshPasses(hops[1..], last, p);
      var e := Travel(hops[1..], last, p).value;
      ResponseGoesUp(hops[0], o.s, p, e.response);
      FirstOfUp(hops[0], p, e.response, Up(hops[0], o.s, e.response));
      OneMoreHop(hops, last, p, e, o, Up(hops[0], o.s, e.response));
    }
  }
}
