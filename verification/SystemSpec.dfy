/** The sessions of one node under the dispatcher: the session table, the done list and the timer messages under way. */
module SystemSpec {
  import opened Bytes
  import opened Protocol
  import opened SessionIds
  import Ni = NiSpec
  import Nf = NfSpec
  import Nr = NrSpec

  // Sessions of any role

  datatype Session = Initiator(ni: Ni.Ni) | Forwarder(nf: Nf.Nf) | Responder(nr: Nr.Nr) {
    predicate IsFinal() {
      match this
      case Initiator(s) => s.state == Ni.CLOSE
      case Forwarder(s) => s.state == Nf.CLOSE
      case Responder(s) => s.state == Nr.CLOSE
    }
  }

  function MapNi(o: Outcome<Ni.Ni>): Outcome<Session> {
    match o
    case Next(s, c) => Next(Initiator(s), c)
    case Threw(c) => Threw(c)
    case Halted => Halted
  }

  function MapNf(o: Outcome<Nf.Nf>): Outcome<Session> {
    match o
    case Next(s, c) => Next(Forwarder(s), c)
    case Threw(c) => Threw(c)
    case Halted => Halted
  }

  function MapNr(o: Outcome<Nr.Nr>): Outcome<Session> {
    match o
    case Next(s, c) => Next(Responder(s), c)
    case Threw(c) => Threw(c)
    case Halted => Halted
  }

  function StepSession(x: Session, evt: Event, ctx: Ctx, cfg: Config, random: nat): Outcome<Session> {
    match x
    case Initiator(s) => MapNi(Ni.Step(s, evt, ctx, random))
    case Forwarder(s) => MapNf(Nf.Step(s, evt, ctx, cfg))
    case Responder(s) => MapNr(Nr.Step(s, evt, ctx, cfg))
  }

  // The node

  const DONE_LIST_SIZE := 300

  /** A session object, numbered in the order of creation. */
  datatype Entry = Entry(number: nat, id: SessionId, session: Session)

  /** A timer message under way to a session. */
  datatype Alarm = Alarm(sid: SessionId, id: TimerId)

  datatype Sys = Sys(
    table: map<SessionId, Entry>, done: seq<nat>, freed: seq<nat>, created: nat,
    alarms: set<Alarm>, nextTimer: TimerId, nextKey: Key)
  {
    /** The timers of one session that are under way. */
    function Timers(sid: SessionId): set<TimerId> {
      set a | a in alarms && a.sid == sid :: a.id
    }

    /** The numbers of the sessions that left the table, in the order in which they left it. */
    function Removed(): seq<nat> {
      freed + done
    }
  }

  const EMPTY := Sys(map[], [], [], 0, {}, 1, 0)

  /**
   * What the dispatcher takes from its queue, together with what its environment decides meanwhile: the installer's
   * verdict and the random session ids and numbers that are drawn.
   */
  datatype Arrival = Arrival(sid: Option<SessionId>, evt: Event, verdict: Verdict, ids: seq<SessionId>,
                             msn: uint32, counter: uint32, random: nat)

  /** Messages name their session, a timer message is one of those under way, and unused session ids can be found. */
  predicate Deliverable(sys: Sys, a: Arrival) {
    && (a.evt.MsgIn? ==> a.sid.Some?)
    && (a.evt.Timer? ==> a.sid.Some? && Alarm(a.sid.value, a.evt.id) in sys.alarms)
    && (a.evt.ApiCreate? ==> exists id :: id in a.ids && id !in sys.table)
  }

  /** create_unique_id: the first id drawn that is not in the table. */
  function FirstUnused(ids: seq<SessionId>, used: set<SessionId>): (id: SessionId)
    requires exists id :: id in ids && id !in used
    ensures id in ids && id !in used
  {
    if ids[0] !in used then ids[0] else FirstUnused(ids[1..], used)
  }

  datatype Opened = Opened(sid: SessionId, session: Session)

  /** create_session: the session that an event opens, if any. */
  function Open(sys: Sys, a: Arrival, cfg: Config): Option<Opened>
    requires Deliverable(sys, a)
  {
    if a.evt.ApiCreate? then
      Some(Opened(FirstUnused(a.ids, sys.table.Keys), Initiator(Ni.Initial(cfg, a.msn, a.counter))))
    else if a.evt.Is(CREATE) then
      if a.evt.forThisNode || cfg.nfIsEdge then Some(Opened(a.sid.value, Responder(Nr.Initial(cfg, a.msn))))
      else Some(Opened(a.sid.value, Forwarder(Nf.INITIAL)))
    else None
  }

  function Insert(sys: Sys, o: Opened): Sys {
    sys.(table := sys.table[o.sid := Entry(sys.created, o.sid, o.session)], created := sys.created + 1)
  }

  /** remove_session: the session moves to the done list, whose oldest entry is freed when it grows too long. */
  function Remove(sys: Sys, sid: SessionId): Sys
    requires sid in sys.table
  {
    var done := sys.done + [sys.table[sid].number];
    var sys' := sys.(table := sys.table - {sid});
    if |done| > DONE_LIST_SIZE then sys'.(done := done[1..], freed := sys.freed + [done[0]])
    else sys'.(done := done)
  }

  /** The timer message that is being delivered is no longer under way. */
  function Taken(sys: Sys, a: Arrival): Sys {
    if a.evt.Timer? && a.sid.Some? then sys.(alarms := sys.alarms - {Alarm(a.sid.value, a.evt.id)}) else sys
  }

  /** The timers and keys that a session took while it processed an event. */
  function Settled(sys: Sys, sid: SessionId, c: Ctx): Sys {
    var started := set id | sys.nextTimer <= id < c.nextTimer :: Alarm(sid, id);
    sys.(alarms := sys.alarms + started, nextTimer := c.nextTimer, nextKey := c.nextKey)
  }

  datatype Processed = Running(sys: Sys, log: seq<Effect>) | Down

  /** What becomes of a session that processed an event: one that threw or is final is removed. */
  function Concluded(sys: Sys, sid: SessionId, o: Outcome<Session>): Processed
    requires sid in sys.table
  {
    match o
    case Halted => Down
    case Threw(c) => Running(Remove(Settled(sys, sid, c), sid), c.log)
    case Next(x, c) =>
      var sys' := Settled(sys, sid, c).(table := sys.table[sid := sys.table[sid].(session := x)]);
      Running(if x.IsFinal() then Remove(sys', sid) else sys', c.log)
  }

  function Deliver(sys: Sys, sid: SessionId, a: Arrival, cfg: Config): Processed
    requires sid in sys.table
  {
    var ctx := Ctx(sys.nextTimer, sys.nextKey, a.verdict, []);
    Concluded(sys, sid, StepSession(sys.table[sid].session, a.evt, ctx, cfg, a.random))
  }

  /** An event that no session of the table is for may open one. */
  function OpenAndDeliver(sys: Sys, a: Arrival, cfg: Config): Processed
    requires Deliverable(sys, a)
  {
    match Open(sys, a, cfg)
    case None => Running(sys, [])
    case Some(o) => Deliver(Insert(sys, o), o.sid, a, cfg)
  }

  /** dispatcher::process */
  function Process(sys: Sys, a: Arrival, cfg: Config): Processed
    requires Deliverable(sys, a)
  {
    if a.evt.RoutingStateCheck? then Running(sys, [])
    else if a.evt.BadMsgIn? then
      var unreadable := Packet(Msg(NOTIFY, None, None, None, None, None, []), a.evt.mri);
      Running(sys, [Sent(CreateResponse(unreadable, PROTOCOL_ERROR))])
    else if a.sid.Some? && a.sid.value in sys.table then Deliver(Taken(sys, a), a.sid.value, a, cfg)
    else if a.evt.Timer? then Running(Taken(sys, a), [])
    else OpenAndDeliver(sys, a, cfg)
  }
}
