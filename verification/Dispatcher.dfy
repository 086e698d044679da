/** The dispatcher: it hands each event to its session and keeps the session table. */
module Dispatchers {
  import opened Bytes
  import opened Protocol
  import opened SessionIds
  import opened DispatcherServices
  import opened SystemSpec
  import opened SessionManagers
  import Ni = NiSpec
  import Nf = NfSpec
  import Nr = NrSpec

  /** What a session has done with an event. */
  datatype Result = Done | Thrown | Crashed

  /** The outcome of a transition, stated so that it is only unfolded where it is needed. */
  ghost predicate IsStep(x: Session, a: Arrival, c: Ctx, cfg: Config, o: Outcome<Session>) {
    forall y: Session {:trigger StepSession(y, a.evt, c, cfg, a.random)} :: y == x ==> StepSession(y, a.evt, c, cfg, a.random) == o
  }

  lemma DeliverIs(sys: Sys, sid: SessionId, a: Arrival, cfg: Config, o: Outcome<Session>)
    requires sid in sys.table
    requires IsStep(sys.table[sid].session, a, Ctx(sys.nextTimer, sys.nextKey, a.verdict, []), cfg, o)
    ensures SystemSpec.Deliver(sys, sid, a, cfg) == Concluded(sys, sid, o)
  {
  }

  class Dispatcher {
    const manager: SessionManager
    const services: Services

    ghost predicate Valid()
      reads this, manager
    {
      manager.Valid()
    }

    /** The node, as a value, is `sys`; the timer messages under way are outside of it. */
    ghost predicate Shows(sys: Sys)
      reads *
    {
      && manager.Shows(sys.table)
      && sys.done == manager.Numbers(manager.done) && sys.freed == manager.freed && sys.created == manager.created
      && sys.nextTimer == services.nextTimer && sys.nextKey == services.nextKey
    }

    constructor (cfg: Config)
      ensures Valid() && manager.cfg == cfg && Shows(EMPTY)
      ensures fresh(manager) && fresh(services)
    {
      manager := new SessionManager(cfg);
      services := new Services(Ctx(1, 0, Accepts, []));
    }

    /** Hand the event to the session, whose value is `x`. */
    method Run(r: SessionRef, a: Arrival, ghost x: Session, ghost c: Ctx) returns (result: Result, ghost o: Outcome<Session>)
      requires r.Valid(manager.cfg) && r.View() == x && services.Ctx() == c
      modifies r.Footprint(), services
      ensures IsStep(x, a, c, manager.cfg, o)
      ensures match o
              case Next(s, c) => result == Done && r.View() == s && services.Ctx() == c
              case Threw(c) => result == Thrown && services.Ctx() == c
              case Halted => result == Crashed
    {
      o := StepSession(x, a.evt, c, manager.cfg, a.random);
      match r
      case NiRef(s) =>
        var f := s.ProcessEvent(services, a.evt, a.random);
        result := if f.To? then Done else if f.Throws? then Thrown else Crashed;
      case NfRef(s) =>
        var f := s.ProcessEvent(services, a.evt);
        result := if f.To? then Done else if f.Throws? then Thrown else Crashed;
      case NrRef(s) =>
        var f := s.ProcessEvent(services, a.evt);
        result := if f.To? then Done else if f.Throws? then Thrown else Crashed;
    }

    method IsFinal(r: SessionRef) returns (final: bool)
      ensures final == r.View().IsFinal()
    {
      match r
      case NiRef(s) => final := s.state == Ni.CLOSE;
      case NfRef(s) => final := s.state == Nf.CLOSE;
      case NrRef(s) => final := s.state == Nr.CLOSE;
    }

    /** Hand the event to a session of the table; the other sessions stay as they are. */
    method RunInTable(r: SessionRef, sid: SessionId, a: Arrival, ghost t: map<SessionId, Entry>, ghost c: Ctx)
      returns (result: Result, ghost o: Outcome<Session>)
      requires Valid() && sid in manager.table && manager.table[sid] == r
      requires manager.Shows(t) && services.Ctx() == c
      modifies r.Footprint(), services
      ensures Valid()
      ensures IsStep(t[sid].session, a, c, manager.cfg, o)
      ensures result == match o case Next(_, _) => Done case Threw(_) => Thrown case Halted => Crashed
      ensures manager.Shows(t[sid := t[sid].(session := r.View())])
      ensures !o.Halted? ==> services.Ctx() == o.ctx
      ensures o.Next? ==> r.View() == o.s
    {
      result, o := Run(r, a, t[sid].session, c);
      forall other | other in t && other != sid
        ensures t[other] == Entry(manager.table[other].Number(), other, manager.table[other].View())
      {
        Apart(r, manager.table[other], manager.cfg);
      }
      manager.ShowsChange(sid, t);
    }

    /** remove_session, seen from outside. */
    method Discard(sid: SessionId, ghost sys: Sys)
      requires Valid() && sid in manager.table && Shows(sys)
      modifies manager
      ensures Valid() && Shows(Remove(sys, sid))
    {
      ghost var all := manager.done + [manager.table[sid]];
      assert manager.Numbers(all) == manager.Numbers(manager.done) + [manager.table[sid].Number()];
      assert manager.Numbers(all[1..]) == manager.Numbers(all)[1..];
      manager.RemoveSession(sid, sys.table);
    }

    /** Remove a session that threw or ended in the final state. */
    method Conclude(r: SessionRef, sid: SessionId, thrown: bool, ghost sys: Sys, ghost o: Outcome<Session>)
      requires Valid() && sid in manager.table && manager.table[sid] == r && sid in sys.table
      requires !o.Halted? && thrown == o.Threw? && (o.Next? ==> r.View() == o.s)
      requires Shows(Settled(sys, sid, o.ctx).(table := sys.table[sid := sys.table[sid].(session := r.View())]))
      modifies manager
      ensures Valid() && Shows(Concluded(sys, sid, o).sys)
    {
      ghost var after := Settled(sys, sid, o.ctx).(table := sys.table[sid := sys.table[sid].(session := r.View())]);
      ThrownIsRemoved(sys, sid, o, r.View());
      var final := IsFinal(r);
      if thrown || final {
        Discard(sid, after);
      }
    }

    /** The session processes the event; if that throws or ends in the final state, it is removed. */
    method Deliver(r: SessionRef, sid: SessionId, a: Arrival, ghost sys: Sys) returns (down: bool, ghost o: Outcome<Session>)
      requires Valid() && sid in manager.table && manager.table[sid] == r
      requires Shows(sys) && services.verdict == a.verdict && services.log == []
      modifies manager, r.Footprint(), services
      ensures IsStep(sys.table[sid].session, a, Ctx(sys.nextTimer, sys.nextKey, a.verdict, []), manager.cfg, o)
      ensures match Concluded(sys, sid, o)
              case Running(s, log) => !down && Valid() && Shows(s) && services.log == log
              case Down => down
    {
      var result;
      result, o := RunInTable(r, sid, a, sys.table, services.Ctx());
      down := result.Crashed?;
      if !down {
        Conclude(r, sid, result.Thrown?, sys, o);
      }
    }

    /** create_session: open a session for a client's request or for a CREATE. */
    method CreateSession(a: Arrival, ghost sys: Sys) returns (r: Option<SessionRef>)
      requires Valid() && Shows(sys) && Deliverable(sys, a)
      requires a.sid.Some? ==> a.sid.value !in manager.table
      modifies manager
      ensures Valid()
      ensures match Open(sys, a, manager.cfg)
              case None => r.None? && Shows(sys) && manager.table == old(manager.table)
              case Some(made) =>
                r.Some? && r.value.GetId() == made.sid && fresh(r.value.Footprint())
                && Shows(Insert(sys, made)) && manager.table == old(manager.table)[made.sid := r.value]
    {
      if a.evt.ApiCreate? {
        var s := manager.CreateNiSession(a.ids, a.msn, a.counter, sys.table);
        r := Some(s);
      } else if a.evt.Is(CREATE) {
        if a.evt.forThisNode || manager.cfg.nfIsEdge {
          var s := manager.CreateNrSession(a.sid.value, a.msn, sys.table);
          r := Some(s);
        } else {
          var s := manager.CreateNfSession(a.sid.value, sys.table);
          r := Some(s);
        }
      } else {
        r := None;
      }
    }

    /** The part of `process` for an event that no session of the table is for. */
    method ProcessNew(a: Arrival, ghost sys: Sys) returns (down: bool)
      requires Valid() && Shows(sys) && Deliverable(sys, a)
      requires (a.sid.Some? ==> a.sid.value !in manager.table) && services.verdict == a.verdict && services.log == []
      modifies manager, services
      ensures match OpenAndDeliver(sys, a, manager.cfg)
              case Running(s, log) => !down && Valid() && Shows(s) && services.log == log
              case Down => down
    {
      var r := CreateSession(a, sys);
      if r.None? {
        return false;
      }
      ghost var made := Open(sys, a, manager.cfg).value;
      ghost var o;
      down, o := Deliver(r.value, r.value.GetId(), a, Insert(sys, made));
      DeliverIs(Insert(sys, made), made.sid, a, manager.cfg, o);
    }

    /** The part of `process` for an event of a session in the table. */
    method ProcessFound(r: SessionRef, a: Arrival, ghost sys: Sys) returns (down: bool)
      requires Valid() && Shows(sys) && a.sid.Some? && a.sid.value in manager.table && manager.table[a.sid.value] == r
      requires services.verdict == a.verdict && services.log == []
      modifies manager, r.Footprint(), services
      ensures match SystemSpec.Deliver(sys, a.sid.value, a, manager.cfg)
              case Running(s, log) => !down && Valid() && Shows(s) && services.log == log
              case Down => down
    {
      ghost var o;
      down, o := Deliver(r, a.sid.value, a, sys);
      DeliverIs(sys, a.sid.value, a, manager.cfg, o);
    }

    method Begin(a: Arrival, ghost sys: Sys)
      requires Shows(sys)
      modifies services`verdict, services`log
      ensures Shows(sys) && services.verdict == a.verdict && services.log == []
    {
      services.verdict, services.log := a.verdict, [];
    }

    /** The part of `process` for events that are for sessions. */
    method Route(a: Arrival, ghost sys: Sys) returns (down: bool)
      requires Valid() && Shows(sys) && Deliverable(sys, a) && !a.evt.RoutingStateCheck? && !a.evt.BadMsgIn?
      requires services.verdict == a.verdict && services.log == []
      modifies manager, manager.Repr(), services
      ensures match SystemSpec.Process(sys, a, manager.cfg)
              case Running(s, log) => !down && Valid() && Shows(s) && services.log == log
              case Down => down
    {
      var found := None;
      if a.sid.Some? {
        found := manager.GetSession(a.sid.value);
      }
      ghost var taken := Taken(sys, a);
      assert Shows(taken);
      if found.Some? {
        down := ProcessFound(found.value, a, taken);
      } else if a.evt.Timer? {
        down := false;
      } else {
        down := ProcessNew(a, sys);
      }
    }

    /** Answer a message that could not be parsed. */
    method RejectMessage(mri: Mri, ghost sys: Sys)
      requires Shows(sys) && services.log == []
      modifies services
      ensures Shows(sys)
      ensures services.log == [Sent(CreateResponse(Packet(Msg(NOTIFY, None, None, None, None, None, []), mri), PROTOCOL_ERROR))]
    {
      var unreadable := Packet(Msg(NOTIFY, None, None, None, None, None, []), mri);
      services.SendMessage(CreateResponse(unreadable, PROTOCOL_ERROR));
    }

    /** process: route an event to its session, or open one for it. */
    method Process(a: Arrival, ghost sys: Sys) returns (down: bool)
      requires Valid() && Shows(sys) && Deliverable(sys, a)
      modifies manager, manager.Repr(), services
      ensures match SystemSpec.Process(sys, a, manager.cfg)
              case Running(s, log) => !down && Valid() && Shows(s) && services.log == log
              case Down => down
    {
      Begin(a, sys);
      if a.evt.RoutingStateCheck? {
        return false;
      }
      if a.evt.BadMsgIn? {
        RejectMessage(a.evt.mri, sys);
        return false;
      }
      down := Route(a, sys);
    }
  }

  lemma ThrownIsRemoved(sys: Sys, sid: SessionId, o: Outcome<Session>, x: Session)
    requires sid in sys.table && !o.Halted? && (o.Next? ==> x == o.s)
    ensures var after := Settled(sys, sid, o.ctx).(table := sys.table[sid := sys.table[sid].(session := x)]);
            Concluded(sys, sid, o) == Running(if o.Threw? || x.IsFinal() then Remove(after, sid) else after, o.ctx.log)
  {
    assert sys.table[sid := sys.table[sid].(session := x)] - {sid} == sys.table - {sid};
  }
}
