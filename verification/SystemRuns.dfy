/** Whole runs of a node: what they keep, what stops them, and how the session table drains. */
module SystemRuns {
  import opened Bytes
  import opened Protocol
  import opened SessionIds
  import opened SystemSpec
  import opened SystemTheorems
  import Ni = NiSpec
  import Nf = NfSpec
  import Nr = NrSpec
  import NiTheorems
  import NiSilence
  import NfTheorems
  import NrTheorems

  /** A run of the dispatcher; None when it stopped or when an arrival could not happen. */
  function Run(sys: Sys, arrivals: seq<Arrival>, cfg: Config): Option<Sys>
    decreases |arrivals|
  {
    if arrivals == [] then Some(sys)
    else if !Deliverable(sys, arrivals[0]) then None
    else
      match Process(sys, arrivals[0], cfg)
      case Down => None
      case Running(sys', _) => Run(sys', arrivals[1..], cfg)
  }

  predicate Prefix(a: seq<nat>, b: seq<nat>) {
    |a| <= |b| && a == b[..|a|]
  }

  lemma RemoveExtends(sys: Sys, sid: SessionId)
    requires sid in sys.table
    ensures var sys' := Remove(sys, sid);
            Prefix(sys.Removed(), sys'.Removed()) && Prefix(sys.freed, sys'.freed) && sys'.created == sys.created
  {
    var done := sys.done + [sys.table[sid].number];
    assert [done[0]] + done[1..] == done;
    assert Remove(sys, sid).Removed() == sys.Removed() + [sys.table[sid].number];
  }

  /** One event removes sessions only at the end of the list, and never brings one back. */
  lemma ProcessExtends(sys: Sys, a: Arrival, cfg: Config)
    requires Deliverable(sys, a)
    ensures var p := Process(sys, a, cfg);
            p.Running? ==> Prefix(sys.Removed(), p.sys.Removed()) && Prefix(sys.freed, p.sys.freed) && sys.created <= p.sys.created
  {
    var sys' := Taken(sys, a);
    if !a.evt.RoutingStateCheck? && !a.evt.BadMsgIn? {
      if a.sid.Some? && a.sid.value in sys.table {
        DeliverExtends(sys', a.sid.value, a, cfg);
      } else if Open(sys, a, cfg).Some? {
        var o := Open(sys, a, cfg).value;
        DeliverExtends(Insert(sys', o), o.sid, a, cfg);
      }
    }
  }

  lemma DeliverExtends(sys: Sys, sid: SessionId, a: Arrival, cfg: Config)
    requires sid in sys.table
    ensures var p := Deliver(sys, sid, a, cfg);
            p.Running? ==> Prefix(sys.Removed(), p.sys.Removed()) && Prefix(sys.freed, p.sys.freed) && sys.created == p.sys.created
  {
    var ctx := Ctx(sys.nextTimer, sys.nextKey, a.verdict, []);
    ConcludedExtends(sys, sid, StepSession(sys.table[sid].session, a.evt, ctx, cfg, a.random));
  }

  lemma ConcludedExtends(sys: Sys, sid: SessionId, o: Outcome<Session>)
    requires sid in sys.table
    ensures var p := Concluded(sys, sid, o);
            p.Running? ==> Prefix(sys.Removed(), p.sys.Removed()) && Prefix(sys.freed, p.sys.freed) && sys.created == p.sys.created
  {
    if !o.Halted? {
      var settled := Settled(sys, sid, o.ctx);
      var sys' := if o.Next? then settled.(table := sys.table[sid := sys.table[sid].(session := o.s)]) else settled;
      RemoveExtends(sys', sid);
    }
  }

  /**
   * Every run keeps the invariant, and what was removed or freed stays so: together with the ownership of the last state,
   * a session is freed at most once, and only after it has left the table.
   */
  lemma {:induction false} RunKeepsInv(sys: Sys, arrivals: seq<Arrival>, cfg: Config)
    requires Inv(sys)
    ensures var r := Run(sys, arrivals, cfg);
            r.Some? ==> Inv(r.value) && Prefix(sys.Removed(), r.value.Removed()) && Prefix(sys.freed, r.value.freed)
    decreases |arrivals|
  {
    if arrivals != [] && Deliverable(sys, arrivals[0]) && Process(sys, arrivals[0], cfg).Running? {
      ProcessKeepsInv(sys, arrivals[0], cfg);
      ProcessExtends(sys, arrivals[0], cfg);
      RunKeepsInv(Process(sys, arrivals[0], cfg).sys, arrivals[1..], cfg);
    }
  }

  lemma EmptyInv()
    ensures Inv(EMPTY)
  {
  }

  /** After any run from start-up, every session in the table has a message of one of its current timers under way. */
  lemma TableIsSoftState(arrivals: seq<Arrival>, cfg: Config, sid: SessionId)
    ensures var r := Run(EMPTY, arrivals, cfg);
            r.Some? && sid in r.value.table ==>
              && Ownership(r.value) && r.value.table[sid].id == sid && !r.value.table[sid].session.IsFinal()
              && exists a :: a in r.value.alarms && a.sid == sid && Current(r.value.table[sid].session, a.id)
  {
    EmptyInv();
    RunKeepsInv(EMPTY, arrivals, cfg);
    var r := Run(EMPTY, arrivals, cfg);
    if r.Some? && sid in r.value.table {
      SessionHasAlarm(r.value, sid);
      assert EntryGood(r.value, sid);
    }
  }

  // Stopping

  /** The session that processes an event, as it is before. */
  function Addressee(sys: Sys, a: Arrival, cfg: Config): Option<Session>
    requires Deliverable(sys, a)
  {
    if a.evt.RoutingStateCheck? || a.evt.BadMsgIn? then None
    else if a.sid.Some? && a.sid.value in sys.table then Some(sys.table[a.sid.value].session)
    else if Open(sys, a, cfg).Some? then Some(Open(sys, a, cfg).value.session)
    else None
  }

  /** A forwarder is never handed anything but a CREATE while it is closed. */
  lemma ClosedForwarderGetsCreate(sys: Sys, a: Arrival, cfg: Config)
    requires Inv(sys) && Deliverable(sys, a)
    ensures var x := Addressee(sys, a, cfg);
            x.Some? && x.value.Forwarder? && x.value.nf.state == Nf.CLOSE ==> a.evt.Is(CREATE)
  {
  }

  /** An event that stops the daemon while it opens a session. */
  predicate OpensBadly(a: Arrival, cfg: Config) {
    if a.evt.ApiCreate? then a.evt.lifetime == 0
    else
      && a.evt.Is(CREATE) && a.evt.packet.mri.pathCoupled && a.evt.packet.msg.lifetime.GetOr(0) > 0
      && if a.evt.forThisNode || cfg.nfIsEdge then cfg.nrMaxLifetime > 0 && a.evt.packet.msg.MspecObjects().None?
         else cfg.nfMaxLifetime > 0 && (!a.evt.packet.mri.downstream || a.evt.packet.msg.MspecObjects().None?)
  }

  /** An event stops the daemon in exactly the cases of the session that it is for, or that it opens. */
  predicate NodeStops(sys: Sys, a: Arrival, cfg: Config) {
    && !a.evt.RoutingStateCheck? && !a.evt.BadMsgIn?
    && if a.sid.Some? && a.sid.value in sys.table then Stops(sys.table[a.sid.value].session, a.evt, cfg)
       else OpensBadly(a, cfg)
  }

  lemma SessionStopsExactly(x: Session, out: set<TimerId>, evt: Event, ctx: Ctx, cfg: Config, random: nat)
    requires SessionGood(x, out, ctx.nextTimer) && (evt.Timer? ==> evt.id in out)
    ensures StepSession(x, evt, ctx, cfg, random).Halted? <==> Stops(x, evt, cfg)
  {
    match x
    case Initiator(s) => NiTheorems.StopsExactly(s, s.responseTimer in out, s.refreshTimer in out, evt, ctx, random);
    case Forwarder(s) => NfTheorems.StopsExactly(s, s.stateTimer in out, evt, ctx, cfg);
    case Responder(s) => NrTheorems.StopsExactly(s, s.stateTimer in out, evt, ctx, cfg);
  }

  lemma NodeStopsExactly(sys: Sys, a: Arrival, cfg: Config)
    requires Inv(sys) && Deliverable(sys, a)
    ensures Process(sys, a, cfg).Down? <==> NodeStops(sys, a, cfg)
  {
    if a.evt.RoutingStateCheck? || a.evt.BadMsgIn? {
    } else if a.sid.Some? && a.sid.value in sys.table {
      var sid := a.sid.value;
      var ctx := Ctx(sys.nextTimer, sys.nextKey, a.verdict, []);
      assert EntryGood(sys, sid);
      assert a.evt.Timer? ==> a.evt.id in sys.Timers(sid);
      SessionStopsExactly(sys.table[sid].session, sys.Timers(sid), a.evt, ctx, cfg, a.random);
    } else if Open(sys, a, cfg).Some? {
      var o := Open(sys, a, cfg).value;
      var ctx := Ctx(sys.nextTimer, sys.nextKey, a.verdict, []);
      NewSessionIsGood(sys, a, cfg);
      SessionStopsExactly(o.session, sys.Timers(o.sid), a.evt, ctx, cfg, a.random);
    }
  }
}
