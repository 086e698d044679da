/** What holds of a node after every event, and how it drains when only timers are left. */
module SystemTheorems {
  import opened Bytes
  import opened Protocol
  import opened SessionIds
  import opened SystemSpec
  import Ni = NiSpec
  import Nf = NfSpec
  import Nr = NrSpec
  import NiTheorems
  import NiSilence
  import NfTheorems
  import NrTheorems

  // Sessions of any role

  predicate SessionGood(x: Session, out: set<TimerId>, next: TimerId) {
    match x
    case Initiator(s) => NiTheorems.Good(s, out, next)
    case Forwarder(s) => NfTheorems.Good(s, out, next)
    case Responder(s) => NrTheorems.Good(s, out, next)
  }

  /** A session as its constructor leaves it. */
  predicate IsNew(x: Session) {
    match x
    case Initiator(s) => s.state == Ni.CLOSE && s.responseTimer == STOPPED && s.refreshTimer == STOPPED
    case Forwarder(s) => s == Nf.INITIAL
    case Responder(s) => NrTheorems.IsNew(s)
  }

  /** The session timers a state listens to. */
  predicate Current(x: Session, id: TimerId) {
    match x
    case Initiator(s) => !NiSilence.Stale(s, id)
    case Forwarder(s) => !NfTheorems.Stale(s, id)
    case Responder(s) => id == s.stateTimer
  }

  /** How many more alarms a session can take before it closes. */
  function Rank(x: Session, out: set<TimerId>): nat {
    match x
    case Initiator(s) => NiSilence.Rank(s, s.refreshTimer in out)
    case Forwarder(s) => NfTheorems.Rank(s)
    case Responder(s) => NrTheorems.Rank(s)
  }

  /** Where a failed assertion, a null pointer or a missing return stops the daemon. */
  predicate Stops(x: Session, evt: Event, cfg: Config) {
    match x
    case Initiator(s) => NiTheorems.Stops(s, evt)
    case Forwarder(s) => NfTheorems.Stops(s, evt, cfg)
    case Responder(s) => NrTheorems.Stops(s, evt)
  }

  function Between(from: TimerId, to: TimerId): (ids: set<TimerId>)
    ensures forall id :: (id in ids <==> from <= id < to)
    decreases if from < to then to - from else 0
  {
    if from < to then {from} + Between(from + 1, to) else {}
  }

  /** The timers under way after an event: without its own message, and with those it started. */
  function After(out: set<TimerId>, evt: Event, from: TimerId, to: TimerId): set<TimerId> {
    (if evt.Timer? then out - {evt.id} else out) + Between(from, to)
  }

  lemma AfterIsLive(out: set<TimerId>, evt: Event, from: TimerId, to: TimerId, id: TimerId)
    ensures id in After(out, evt, from, to) <==> Live(out, evt, from, to, id)
  {
  }

  lemma SessionStaysGood(x: Session, out: set<TimerId>, evt: Event, ctx: Ctx, cfg: Config, random: nat)
    requires SessionGood(x, out, ctx.nextTimer) && Supplied(out, ctx.nextTimer) && (x.IsFinal() ==> IsNew(x))
    requires evt.Timer? ==> evt.id in out
    ensures var o := StepSession(x, evt, ctx, cfg, random);
            o.Next? ==> ctx.nextTimer <= o.ctx.nextTimer && SessionGood(o.s, After(out, evt, ctx.nextTimer, o.ctx.nextTimer), o.ctx.nextTimer)
  {
    var o := StepSession(x, evt, ctx, cfg, random);
    match x
    case Initiator(s) =>
      NiTheorems.StepStaysGood(s, out, evt, ctx, random);
      if o.Next? {
        AfterIsLive(out, evt, ctx.nextTimer, o.ctx.nextTimer, o.s.ni.responseTimer);
        AfterIsLive(out, evt, ctx.nextTimer, o.ctx.nextTimer, o.s.ni.refreshTimer);
      }
    case Forwarder(s) =>
      NfTheorems.StepStaysGood(s, out, evt, ctx, cfg);
      if o.Next? {
        AfterIsLive(out, evt, ctx.nextTimer, o.ctx.nextTimer, o.s.nf.stateTimer);
      }
    case Responder(s) =>
      NrTheorems.StepStaysGood(s, out, evt, ctx, cfg);
      if o.Next? {
        AfterIsLive(out, evt, ctx.nextTimer, o.ctx.nextTimer, o.s.nr.stateTimer);
      }
  }

  /** An open session has a timer message under way that it will act on. */
  lemma OpenSessionWaits(x: Session, out: set<TimerId>, next: TimerId)
    requires SessionGood(x, out, next) && !x.IsFinal()
    ensures exists id :: id in out && Current(x, id)
  {
    match x
    case Initiator(s) => assert s.responseTimer in out || s.refreshTimer in out;
    case Forwarder(s) => assert s.stateTimer in out;
    case Responder(s) => assert s.stateTimer in out;
  }

  // The invariant of the node

  predicate AlarmsOk(sys: Sys) {
    sys.nextTimer > 0 && forall a :: a in sys.alarms ==> 0 < a.id < sys.nextTimer
  }

  predicate EntryGood(sys: Sys, sid: SessionId)
    requires sid in sys.table
  {
    SessionGood(sys.table[sid].session, sys.Timers(sid), sys.nextTimer)
  }

  predicate Distinct(s: seq<nat>) {
    forall i, j :: 0 <= i < j < |s| ==> s[i] != s[j]
  }

  /**
   * Every session object ever created is in exactly one place: under its own id in the table, in the done list, or
   * freed. No object is freed twice, and the done list keeps the 300 sessions that were removed last.
   */
  ghost predicate Ownership(sys: Sys) {
    && (forall sid :: sid in sys.table ==> sys.table[sid].id == sid && sys.table[sid].number < sys.created)
    && (forall x, y :: x in sys.table && y in sys.table && sys.table[x].number == sys.table[y].number ==> x == y)
    && Distinct(sys.Removed())
    && (forall n :: n in sys.Removed() ==> n < sys.created && forall sid :: sid in sys.table ==> sys.table[sid].number != n)
    && (forall n: nat :: n < sys.created ==> n in sys.Removed() || InTable(sys, n))
    && |sys.done| <= DONE_LIST_SIZE && (sys.freed != [] ==> |sys.done| == DONE_LIST_SIZE)
  }

  ghost predicate InTable(sys: Sys, n: nat) {
    exists sid :: sid in sys.table && sys.table[sid].number == n
  }

  /** Between two events the table holds only open sessions. */
  ghost predicate SessionsOpen(sys: Sys) {
    forall sid :: sid in sys.table ==> EntryGood(sys, sid) && !sys.table[sid].session.IsFinal()
  }

  ghost predicate Inv(sys: Sys) {
    AlarmsOk(sys) && Ownership(sys) && SessionsOpen(sys)
  }

  /** Each session in the table has a message of one of its current timers under way. */
  lemma SessionHasAlarm(sys: Sys, sid: SessionId)
    requires SessionsOpen(sys) && sid in sys.table
    ensures exists a :: a in sys.alarms && a.sid == sid && Current(sys.table[sid].session, a.id)
  {
    assert EntryGood(sys, sid);
    OpenSessionWaits(sys.table[sid].session, sys.Timers(sid), sys.nextTimer);
    var id :| id in sys.Timers(sid) && Current(sys.table[sid].session, id);
    assert Alarm(sid, id) in sys.alarms;
  }

  lemma InsertKeepsOwnership(sys: Sys, o: Opened)
    requires Ownership(sys) && o.sid !in sys.table
    ensures Ownership(Insert(sys, o))
  {
    var sys' := Insert(sys, o);
    assert sys'.Removed() == sys.Removed();
    forall n: nat | n < sys'.created ensures n in sys'.Removed() || InTable(sys', n) {
      if n == sys.created {
        assert sys'.table[o.sid].number == n;
      } else if n !in sys.Removed() {
        var sid :| sid in sys.table && sys.table[sid].number == n;
        assert sys'.table[sid].number == n;
      }
    }
  }

  lemma RemovedNumbers(sys: Sys, sid: SessionId)
    requires sid in sys.table
    ensures Remove(sys, sid).Removed() == sys.Removed() + [sys.table[sid].number]
  {
    var done := sys.done + [sys.table[sid].number];
    assert [done[0]] + done[1..] == done;
  }

  lemma RemoveKeepsOwnership(sys: Sys, sid: SessionId)
    requires Ownership(sys) && sid in sys.table
    ensures Ownership(Remove(sys, sid)) && Remove(sys, sid).Removed() == sys.Removed() + [sys.table[sid].number]
    ensures |Remove(sys, sid).done| == if |sys.done| < 300 then |sys.done| + 1 else 300
  {
    var sys', n := Remove(sys, sid), sys.table[sid].number;
    RemovedNumbers(sys, sid);
    var r, r' := sys.Removed(), sys'.Removed();
    assert Distinct(r') by {
      assert n !in r;
    }
    assert forall m :: m in r' <==> m in r || m == n;
    forall m: nat | m < sys'.created ensures m in sys'.Removed() || InTable(sys', m) {
      if m !in sys.Removed() && m != n {
        var x :| x in sys.table && sys.table[x].number == m;
        assert x in sys'.table && sys'.table[x].number == m;
      }
    }
  }

  /** Replacing the session of an entry leaves the ownership as it is. */
  lemma UpdateKeepsOwnership(sys: Sys, sys': Sys)
    requires Ownership(sys)
    requires sys'.table.Keys == sys.table.Keys
    requires forall sid :: sid in sys.table ==> sys'.table[sid].id == sys.table[sid].id && sys'.table[sid].number == sys.table[sid].number
    requires sys'.created == sys.created && sys'.done == sys.done && sys'.freed == sys.freed
    ensures Ownership(sys')
  {
    forall n: nat | n < sys'.created ensures n in sys'.Removed() || InTable(sys', n) {
      if n !in sys.Removed() {
        var sid :| sid in sys.table && sys.table[sid].number == n;
        assert sys'.table[sid].number == n;
      }
    }
  }

  /** The timers after one event: those of its session as `After` says, those of the others as before. */
  lemma TimersAfter(sys: Sys, sid: SessionId, a: Arrival, c: Ctx)
    requires a.evt.Timer? ==> a.sid == Some(sid)
    ensures var sys' := Settled(Taken(sys, a), sid, c);
            && sys'.Timers(sid) == After(sys.Timers(sid), a.evt, sys.nextTimer, c.nextTimer)
            && forall other :: other != sid ==> sys'.Timers(other) == sys.Timers(other)
  {
    var sys' := Settled(Taken(sys, a), sid, c);
    forall id ensures id in sys'.Timers(sid) <==> id in After(sys.Timers(sid), a.evt, sys.nextTimer, c.nextTimer) {
      assert id in sys'.Timers(sid) <==> Alarm(sid, id) in sys'.alarms;
      assert id in sys.Timers(sid) <==> Alarm(sid, id) in sys.alarms;
    }
    forall other, id | other != sid ensures id in sys'.Timers(other) <==> id in sys.Timers(other) {
      assert id in sys'.Timers(other) <==> Alarm(other, id) in sys'.alarms;
      assert id in sys.Timers(other) <==> Alarm(other, id) in sys.alarms;
    }
  }

  lemma InitiatorSupply(s: Ni.Ni, evt: Event, ctx: Ctx, random: nat)
    ensures var o := Ni.Step(s, evt, ctx, random); o.Threw? ==> ctx.nextTimer <= o.ctx.nextTimer
  {
  }

  lemma PendingForwarderSupply(s: Nf.Nf, evt: Event, ctx: Ctx, cfg: Config)
    requires NfTheorems.Pends(s)
    ensures var o := Nf.Step(s, evt, ctx, cfg); o.Threw? ==> ctx.nextTimer <= o.ctx.nextTimer
  {
  }

  lemma ForwarderSupply(s: Nf.Nf, evt: Event, ctx: Ctx, cfg: Config)
    ensures var o := Nf.Step(s, evt, ctx, cfg); o.Threw? ==> ctx.nextTimer <= o.ctx.nextTimer
  {
    if NfTheorems.Pends(s) {
      PendingForwarderSupply(s, evt, ctx, cfg);
    }
  }

  lemma ResponderSupply(s: Nr.Nr, evt: Event, ctx: Ctx, cfg: Config)
    ensures var o := Nr.Step(s, evt, ctx, cfg); o.Threw? ==> ctx.nextTimer <= o.ctx.nextTimer
  {
  }

  lemma ThrowKeepsSupply(x: Session, evt: Event, ctx: Ctx, cfg: Config, random: nat)
    ensures var o := StepSession(x, evt, ctx, cfg, random); o.Threw? ==> ctx.nextTimer <= o.ctx.nextTimer
  {
    match x
    case Initiator(s) => InitiatorSupply(s, evt, ctx, random);
    case Forwarder(s) => ForwarderSupply(s, evt, ctx, cfg);
    case Responder(s) => ResponderSupply(s, evt, ctx, cfg);
  }

  lemma SettledIsOk(sys: Sys, sid: SessionId, a: Arrival, c: Ctx)
    requires AlarmsOk(sys) && sys.nextTimer <= c.nextTimer
    ensures AlarmsOk(Settled(Taken(sys, a), sid, c))
  {
  }

  /** Sessions of the table other than `sid` are open and good. */
  ghost predicate OthersGood(sys: Sys, sid: SessionId) {
    forall other :: other in sys.table && other != sid ==> EntryGood(sys, other) && !sys.table[other].session.IsFinal()
  }

  /** `t` differs from `s` only in the timers and in the entry of `sid`. */
  predicate SameOthers(s: Sys, t: Sys, sid: SessionId) {
    && s.nextTimer <= t.nextTimer
    && (forall other :: other in t.table && other != sid ==> other in s.table && t.table[other] == s.table[other])
    && (forall other :: other in t.table && other != sid ==> t.Timers(other) == s.Timers(other))
  }

  lemma LaterStaysGood(x: Session, out: set<TimerId>, next: TimerId, later: TimerId)
    requires SessionGood(x, out, next) && next <= later
    ensures SessionGood(x, out, later)
  {
  }

  lemma OthersStayGood(s: Sys, t: Sys, sid: SessionId)
    requires OthersGood(s, sid) && SameOthers(s, t, sid)
    ensures OthersGood(t, sid)
  {
    forall other | other in t.table && other != sid ensures EntryGood(t, other) && !t.table[other].session.IsFinal() {
      assert EntryGood(s, other);
      LaterStaysGood(s.table[other].session, s.Timers(other), s.nextTimer, t.nextTimer);
    }
  }

  lemma ConcludedKeepsOwnership(sys: Sys, sid: SessionId, o: Outcome<Session>)
    requires Ownership(sys) && sid in sys.table
    ensures var p := Concluded(sys, sid, o); p.Running? ==> Ownership(p.sys)
  {
    if !o.Halted? {
      var settled := Settled(sys, sid, o.ctx);
      var sys' := if o.Next? then settled.(table := sys.table[sid := sys.table[sid].(session := o.s)]) else settled;
      UpdateKeepsOwnership(sys, sys');
      RemoveKeepsOwnership(sys', sid);
    }
  }

  lemma ConcludedTimers(sys: Sys, sid: SessionId, a: Arrival, o: Outcome<Session>)
    requires sid in sys.table && !o.Halted? && (a.evt.Timer? ==> a.sid == Some(sid))
    ensures var sys' := Concluded(Taken(sys, a), sid, o).sys;
            && sys'.alarms == Settled(Taken(sys, a), sid, o.ctx).alarms && sys'.nextTimer == o.ctx.nextTimer
            && sys'.Timers(sid) == After(sys.Timers(sid), a.evt, sys.nextTimer, o.ctx.nextTimer)
            && forall other :: other != sid ==> sys'.Timers(other) == sys.Timers(other)
  {
    TimersAfter(sys, sid, a, o.ctx);
  }

  lemma ConcludedKeepsSessions(sys: Sys, sid: SessionId, a: Arrival, o: Outcome<Session>)
    requires AlarmsOk(sys) && OthersGood(sys, sid) && sid in sys.table
    requires a.evt.Timer? ==> a.sid == Some(sid)
    requires !o.Halted? ==> sys.nextTimer <= o.ctx.nextTimer
    requires o.Next? ==> SessionGood(o.s, After(sys.Timers(sid), a.evt, sys.nextTimer, o.ctx.nextTimer), o.ctx.nextTimer)
    ensures var p := Concluded(Taken(sys, a), sid, o); p.Running? ==> AlarmsOk(p.sys) && SessionsOpen(p.sys)
  {
    if !o.Halted? {
      var sys' := Concluded(Taken(sys, a), sid, o).sys;
      SettledIsOk(sys, sid, a, o.ctx);
      ConcludedTimers(sys, sid, a, o);
      OthersStayGood(sys, sys', sid);
    }
  }

  lemma ConcludedKeepsInv(sys: Sys, sid: SessionId, a: Arrival, o: Outcome<Session>)
    requires AlarmsOk(sys) && Ownership(sys) && OthersGood(sys, sid) && sid in sys.table
    requires a.evt.Timer? ==> a.sid == Some(sid)
    requires !o.Halted? ==> sys.nextTimer <= o.ctx.nextTimer
    requires o.Next? ==> SessionGood(o.s, After(sys.Timers(sid), a.evt, sys.nextTimer, o.ctx.nextTimer), o.ctx.nextTimer)
    ensures var p := Concluded(Taken(sys, a), sid, o); p.Running? ==> Inv(p.sys)
  {
    UpdateKeepsOwnership(sys, Taken(sys, a));
    ConcludedKeepsOwnership(Taken(sys, a), sid, o);
    ConcludedKeepsSessions(sys, sid, a, o);
  }

  lemma DeliverKeepsInv(sys: Sys, sid: SessionId, a: Arrival, cfg: Config)
    requires AlarmsOk(sys) && Ownership(sys) && OthersGood(sys, sid)
    requires sid in sys.table && EntryGood(sys, sid)
    requires sys.table[sid].session.IsFinal() ==> IsNew(sys.table[sid].session)
    requires a.evt.Timer? ==> a.sid == Some(sid) && Alarm(sid, a.evt.id) in sys.alarms
    ensures var p := Deliver(Taken(sys, a), sid, a, cfg); p.Running? ==> Inv(p.sys)
  {
    var x, out := sys.table[sid].session, sys.Timers(sid);
    var ctx := Ctx(sys.nextTimer, sys.nextKey, a.verdict, []);
    SessionStaysGood(x, out, a.evt, ctx, cfg, a.random);
    ThrowKeepsSupply(x, a.evt, ctx, cfg, a.random);
    ConcludedKeepsInv(sys, sid, a, StepSession(x, a.evt, ctx, cfg, a.random));
  }

  lemma NewSessionIsGood(sys: Sys, a: Arrival, cfg: Config)
    requires AlarmsOk(sys) && Deliverable(sys, a) && Open(sys, a, cfg).Some?
    ensures var o := Open(sys, a, cfg).value;
            IsNew(o.session) && SessionGood(o.session, sys.Timers(o.sid), sys.nextTimer)
  {
    if a.evt.ApiCreate? {
      NiTheorems.InitialInv(cfg, a.msn, a.counter, sys.Timers(Open(sys, a, cfg).value.sid), sys.nextTimer);
    }
  }

  /** Every event keeps the invariant of the node. */
  lemma ProcessKeepsInv(sys: Sys, a: Arrival, cfg: Config)
    requires Inv(sys) && Deliverable(sys, a)
    ensures var p := Process(sys, a, cfg); p.Running? ==> Inv(p.sys)
  {
    if a.evt.RoutingStateCheck? || a.evt.BadMsgIn? {
    } else if a.sid.Some? && a.sid.value in sys.table {
      DeliverKeepsInv(sys, a.sid.value, a, cfg);
    } else if Open(sys, a, cfg).Some? {
      var o := Open(sys, a, cfg).value;
      var sys' := Insert(sys, o);
      NewSessionIsGood(sys, a, cfg);
      InsertKeepsOwnership(sys, o);
      forall other | other in sys.table ensures EntryGood(sys', other) {
        assert EntryGood(sys, other);
        assert sys'.Timers(other) == sys.Timers(other);
      }
      assert sys'.Timers(o.sid) == sys.Timers(o.sid);
      DeliverKeepsInv(sys', o.sid, a, cfg);
    } else {
      TakenKeepsInv(sys, a);
    }
  }

  /** A timer message for a session that is gone is dropped. */
  lemma TakenKeepsInv(sys: Sys, a: Arrival)
    requires Inv(sys) && (a.evt.Timer? && a.sid.Some? ==> a.sid.value !in sys.table)
    ensures Inv(Taken(sys, a))
  {
    var sys' := Taken(sys, a);
    UpdateKeepsOwnership(sys, sys');
    forall sid | sid in sys.table ensures EntryGood(sys', sid) {
      assert EntryGood(sys, sid);
      assert sys'.Timers(sid) == sys.Timers(sid);
    }
  }
}
