/** Bidding along a path, in both directions. */
module PathBidding {
  import opened Bytes
  import opened Protocol
  import opened SerialNumber
  import Ni = NiSpec
  import Nf = NfSpec
  import Nr = NrSpec
  import Path

  /** A forwarder with its dispatcher. */
  datatype Hop = Hop(s: Nf.Nf, ctx: Ctx, cfg: Config) {
    function Pass(p: Packet): Outcome<Nf.Nf> {
      Nf.Step(s, MsgIn(p, false), ctx.(log := []), cfg)
    }
  }

  /** A message as it leaves the last of some forwarders, and the sessions after it; None when it gets lost on the way. */
  function Carry(hops: seq<Hop>, p: Packet): Option<(Packet, seq<Nf.Nf>)>
    decreases |hops|
  {
    if hops == [] then Some((p, []))
    else
      var o := hops[0].Pass(p);
      if !o.Next? || Path.FirstSent(o.ctx.log).None? then None
      else
        match Carry(hops[1..], Path.FirstSent(o.ctx.log).value)
        case None => None
        case Some((q, rest)) => Some((q, [o.s] + rest))
  }

  predicate Carries(h: Hop) {
    h.s.state == Nf.AUCTIONING || h.s.state == Nf.PENDING_TEARDOWN
  }

  function States(hops: seq<Hop>): (states: seq<Nf.Nf>)
    ensures |states| == |hops| && forall i :: 0 <= i < |hops| ==> states[i] == hops[i].s
  {
    seq(|hops|, i requires 0 <= i < |hops| => hops[i].s)
  }

  /** A BIDDING for another node is passed on as it came, and changes nothing. */
  lemma BiddingIsPassed(h: Hop, p: Packet)
    requires Carries(h) && p.msg.kind == BIDDING
    ensures h.Pass(p) == Next(h.s, h.ctx.(log := [Sent(p)]))
  {
  }

  /** It comes through any number of forwarders as it was sent, and leaves them as they were. */
  lemma {:induction false} BiddingIsCarried(hops: seq<Hop>, p: Packet)
    requires (forall i :: 0 <= i < |hops| ==> Carries(hops[i])) && p.msg.kind == BIDDING
    ensures Carry(hops, p) == Some((p, States(hops)))
    decreases |hops|
  {
    if hops != [] {
      BiddingIsPassed(hops[0], p);
      BiddingIsCarried(hops[1..], p);
      assert [hops[0].s] + States(hops[1..]) == States(hops);
    }
  }

  // Downstream

  function BiddingOf(msn: uint32, objects: seq<Payload>, mri: Mri): Packet {
    Packet(Msg(BIDDING, Some(Increment(msn)), None, None, None, None, objects), mri)
  }

  lemma ClientBids(s: Ni.Ni, objects: seq<Payload>, hasQueue: bool, ctx: Ctx, random: nat)
    requires (s.state == Ni.AUCTIONING || s.state == Ni.PENDING_TEARDOWN) && ctx.log == []
    ensures var o := Ni.Step(s, ApiBidding(objects, hasQueue), ctx, random);
            var p := BiddingOf(s.msn, objects, Mri(true, true));
            o == Next(s.(msn := p.msg.msn.value), ctx.Send(p)) && Path.FirstSent(o.ctx.log) == Some(p)
  {
  }

  /** At the responder a BIDDING goes to the installer with its objects; whatever that does, the session stays as it is. */
  lemma ServerReceives(s: Nr.Nr, p: Packet, ctx: Ctx, cfg: Config)
    requires s.state == Nr.AUCTIONING && p.msg.kind == BIDDING && p.msg.code.None? && ctx.log == []
    ensures var o := Nr.Step(s, MsgIn(p, true), ctx, cfg);
            var c := ctx.Do(Interacted(true, p.msg.objects));
            o == if ctx.verdict.Rejects? then Threw(c) else Next(s, c)
  {
  }

  /** The same at a forwarder that a BIDDING is for. */
  lemma ForwarderReceives(h: Hop, p: Packet)
    requires Carries(h) && p.msg.kind == BIDDING && p.msg.code.None?
    ensures var c := h.ctx.(log := [Interacted(true, p.msg.objects)]);
            Nf.Step(h.s, MsgIn(p, true), h.ctx.(log := []), h.cfg) == if c.verdict.Rejects? then Threw(c) else Next(h.s, c)
  {
  }

  /** What some forwarders make of a BIDDING that arrives at the responder behind them. */
  predicate ArrivesAtServer(last: Nr.Nr, hops: seq<Hop>, p: Packet, objects: seq<Payload>, end: Ctx, cfg: Config) {
    var t := Carry(hops, p);
    && t.Some? && t.value.1 == States(hops)
    && var r := Nr.Step(last, MsgIn(t.value.0, true), end, cfg);
       r == if end.verdict.Rejects? then Threw(end.Do(Interacted(true, objects))) else Next(last, end.Do(Interacted(true, objects)))
  }

  lemma CarriedToServer(last: Nr.Nr, hops: seq<Hop>, p: Packet, end: Ctx, cfg: Config)
    requires last.state == Nr.AUCTIONING && end.log == []
    requires (forall i :: 0 <= i < |hops| ==> Carries(hops[i])) && p.msg.kind == BIDDING && p.msg.code.None?
    ensures ArrivesAtServer(last, hops, p, p.msg.objects, end, cfg)
  {
    BiddingIsCarried(hops, p);
    ServerReceives(last, p, end, cfg);
  }

  /** A bid of the client reaches the server: exactly its objects, through any number of forwarders. */
  lemma BidReachesServer(s: Ni.Ni, hops: seq<Hop>, last: Nr.Nr, objects: seq<Payload>, hasQueue: bool, ctx: Ctx, end: Ctx, cfg: Config,
                         random: nat)
    requires (s.state == Ni.AUCTIONING || s.state == Ni.PENDING_TEARDOWN) && last.state == Nr.AUCTIONING
    requires (forall i :: 0 <= i < |hops| ==> Carries(hops[i])) && ctx.log == [] && end.log == []
    ensures var o := Ni.Step(s, ApiBidding(objects, hasQueue), ctx, random);
            && o.Next? && Path.FirstSent(o.ctx.log).Some?
            && ArrivesAtServer(last, hops, Path.FirstSent(o.ctx.log).value, objects, end, cfg)
  {
    ClientBids(s, objects, hasQueue, ctx, random);
    CarriedToServer(last, hops, BiddingOf(s.msn, objects, Mri(true, true)), end, cfg);
  }

  // Upstream

  lemma ServerBids(s: Nr.Nr, objects: seq<Payload>, hasQueue: bool, ctx: Ctx, cfg: Config)
    requires (s.state == Nr.AUCTIONING || s.state == Nr.PENDING_TEARDOWN) && s.mri.Some? && ctx.log == []
    ensures var o := Nr.Step(s, ApiBidding(objects, hasQueue), ctx, cfg);
            var p := BiddingOf(s.biddingMsn, objects, s.mri.value.Inverted());
            && o == Next(s.(biddingMsn := p.msg.msn.value), ctx.(log := if hasQueue then [Sent(p), Enqueued] else [Sent(p)]))
            && Path.FirstSent(o.ctx.log) == Some(p)
  {
  }

  /** At the initiator it goes to the client, whose errors are caught: the session stays as it is in any case. */
  lemma ClientReceives(s: Ni.Ni, p: Packet, forThisNode: bool, ctx: Ctx, random: nat)
    requires s.state == Ni.AUCTIONING || s.state == Ni.PENDING_TEARDOWN
    requires p.msg.kind == BIDDING && p.msg.code.None?
    ensures Ni.Step(s, MsgIn(p, forThisNode), ctx, random) == Next(s, ctx.Do(Interacted(false, p.msg.objects)))
  {
  }

  /** What some forwarders make of a BIDDING that arrives at the initiator behind them. */
  predicate ArrivesAtClient(s: Ni.Ni, hops: seq<Hop>, p: Packet, objects: seq<Payload>, ctx: Ctx, random: nat) {
    var t := Carry(hops, p);
    && t.Some? && t.value.1 == States(hops)
    && Ni.Step(s, MsgIn(t.value.0, true), ctx, random) == Next(s, ctx.Do(Interacted(false, objects)))
  }

  lemma CarriedToClient(s: Ni.Ni, hops: seq<Hop>, p: Packet, ctx: Ctx, random: nat)
    requires s.state == Ni.AUCTIONING || s.state == Ni.PENDING_TEARDOWN
    requires (forall i :: 0 <= i < |hops| ==> Carries(hops[i])) && p.msg.kind == BIDDING && p.msg.code.None?
    ensures ArrivesAtClient(s, hops, p, p.msg.objects, ctx, random)
  {
    BiddingIsCarried(hops, p);
    ClientReceives(s, p, true, ctx, random);
  }

  /** What the server bids reaches the client: exactly its objects, against the direction of the CREATE. */
  lemma BidReachesClient(s: Ni.Ni, hops: seq<Hop>, last: Nr.Nr, objects: seq<Payload>, hasQueue: bool, ctx: Ctx, end: Ctx, cfg: Config,
                         random: nat)
    requires (s.state == Ni.AUCTIONING || s.state == Ni.PENDING_TEARDOWN) && last.mri.Some?
    requires last.state == Nr.AUCTIONING || last.state == Nr.PENDING_TEARDOWN
    requires (forall i :: 0 <= i < |hops| ==> Carries(hops[i])) && end.log == []
    ensures var o := Nr.Step(last, ApiBidding(objects, hasQueue), end, cfg);
            && o.Next? && Path.FirstSent(o.ctx.log).Some?
            && Path.FirstSent(o.ctx.log).value.mri == last.mri.value.Inverted()
            && ArrivesAtClient(s, hops, Path.FirstSent(o.ctx.log).value, objects, ctx, random)
  {
    ServerBids(last, objects, hasQueue, end, cfg);
    CarriedToClient(s, hops, BiddingOf(last.biddingMsn, objects, last.mri.value.Inverted()), ctx, random);
  }
}
