/** Which session an event reaches, and which session it opens. */
module SystemRouting {
  import opened Bytes
  import opened Protocol
  import opened SessionIds
  import Ni = NiSpec
  import Nf = NfSpec
  import Nr = NrSpec
  import opened SystemSpec

  /** Events that concern the node as a whole. */
  predicate IsOfNode(evt: Event) {
    evt.RoutingStateCheck? || evt.BadMsgIn?
  }

  /** A session in the table has processed an event: it stays with its new state, or leaves when it is final or has thrown. */
  predicate Leads(sys: Sys, sid: SessionId, o: Outcome<Session>, p: Processed)
    requires sid in sys.table
  {
    && (p.Down? <==> o.Halted?)
    && (p.Running? && !o.Halted? ==>
          && p.log == o.ctx.log && p.sys.nextTimer == o.ctx.nextTimer && p.sys.nextKey == o.ctx.nextKey
          && p.sys.created == sys.created
          && if o.Next? && !o.s.IsFinal()
             then p.sys.table == sys.table[sid := Entry(sys.table[sid].number, sys.table[sid].id, o.s)] && p.sys.Removed() == sys.Removed()
             else p.sys.table == sys.table - {sid} && p.sys.Removed() == sys.Removed() + [sys.table[sid].number])
  }

  lemma RemoveAppends(sys: Sys, sid: SessionId)
    requires sid in sys.table
    ensures var sys' := Remove(sys, sid);
            && sys'.table == sys.table - {sid} && sys'.Removed() == sys.Removed() + [sys.table[sid].number]
            && sys'.nextTimer == sys.nextTimer && sys'.nextKey == sys.nextKey && sys'.created == sys.created
  {
    var done := sys.done + [sys.table[sid].number];
    assert [done[0]] + done[1..] == done;
  }

  lemma ConcludedLeads(sys: Sys, sid: SessionId, o: Outcome<Session>)
    requires sid in sys.table
    ensures Leads(sys, sid, o, Concluded(sys, sid, o))
  {
    match o
    case Halted =>
    case Threw(c) => RemoveAppends(Settled(sys, sid, c), sid);
    case Next(x, c) =>
      var sys' := Settled(sys, sid, c).(table := sys.table[sid := sys.table[sid].(session := x)]);
      RemoveAppends(sys', sid);
      assert sys'.table - {sid} == sys.table - {sid};
  }

  /** An event for a session of the table is processed by that session, and no other one changes. */
  lemma SessionProcesses(sys: Sys, a: Arrival, cfg: Config, sid: SessionId)
    requires Deliverable(sys, a) && sid in sys.table && a.sid == Some(sid) && !IsOfNode(a.evt)
    ensures var o := StepSession(sys.table[sid].session, a.evt, Ctx(sys.nextTimer, sys.nextKey, a.verdict, []), cfg, a.random);
            Leads(sys, sid, o, Process(sys, a, cfg))
  {
    var o := StepSession(sys.table[sid].session, a.evt, Ctx(sys.nextTimer, sys.nextKey, a.verdict, []), cfg, a.random);
    ConcludedLeads(Taken(sys, a), sid, o);
  }

  /** The session that an event for an unknown session id begins. */
  function Beginning(a: Arrival, cfg: Config): Option<Session> {
    match a.evt
    case ApiCreate(_, _, _, _) => Some(Initiator(Ni.Initial(cfg, a.msn, a.counter)))
    case MsgIn(p, forThisNode) =>
      if p.msg.kind != CREATE then None
      else if forThisNode || cfg.nfIsEdge then Some(Responder(Nr.Initial(cfg, a.msn)))
      else Some(Forwarder(Nf.INITIAL))
    case _ => None
  }

  /** The id under which it begins: the one that the event names, or one drawn that is not in use. */
  predicate BeginsUnder(sys: Sys, a: Arrival, sid: SessionId) {
    sid !in sys.table && if a.evt.ApiCreate? then sid in a.ids else a.sid == Some(sid)
  }

  lemma OpensBeginning(sys: Sys, a: Arrival, cfg: Config)
    requires Deliverable(sys, a) && !(a.sid.Some? && a.sid.value in sys.table)
    ensures Open(sys, a, cfg).None? <==> Beginning(a, cfg).None?
    ensures Open(sys, a, cfg).Some? ==>
              Open(sys, a, cfg).value.session == Beginning(a, cfg).value && BeginsUnder(sys, a, Open(sys, a, cfg).value.sid)
  {
  }

  /**
   * A client's request begins an initiator session under an id that was not in use; a CREATE begins a responder if it is for
   * this node or reaches the edge of the network, and a forwarder otherwise; any other event is dropped.
   */
  lemma NewSessionProcesses(sys: Sys, a: Arrival, cfg: Config)
    requires Deliverable(sys, a) && !IsOfNode(a.evt) && !(a.sid.Some? && a.sid.value in sys.table)
    ensures Beginning(a, cfg).None? ==>
              Process(sys, a, cfg).Running? && Process(sys, a, cfg).log == [] && Process(sys, a, cfg).sys == Taken(sys, a)
    ensures Beginning(a, cfg).Some? ==>
              var s := Beginning(a, cfg).value;
              var o := StepSession(s, a.evt, Ctx(sys.nextTimer, sys.nextKey, a.verdict, []), cfg, a.random);
              exists sid :: BeginsUnder(sys, a, sid) && Leads(Insert(sys, Opened(sid, s)), sid, o, Process(sys, a, cfg))
  {
    OpensBeginning(sys, a, cfg);
    if Beginning(a, cfg).Some? {
      var x := Open(sys, a, cfg).value;
      var o := StepSession(x.session, a.evt, Ctx(sys.nextTimer, sys.nextKey, a.verdict, []), cfg, a.random);
      ConcludedLeads(Insert(sys, x), x.sid, o);
      assert BeginsUnder(sys, a, x.sid) && x == Opened(x.sid, x.session);
    }
  }

  /** What the node does itself: an unreadable message is answered by a protocol error, a routing question by nothing. */
  lemma NodeAnswers(sys: Sys, a: Arrival, cfg: Config)
    requires Deliverable(sys, a) && IsOfNode(a.evt)
    ensures var p := Process(sys, a, cfg);
            && p.Running? && p.sys == sys
            && p.log == if a.evt.RoutingStateCheck? then []
                        else [Sent(Packet(Msg(RESPONSE, None, None, None, None, Some(InfoCode(3, 0)), []), a.evt.mri.Inverted()))]
  {
  }
}
