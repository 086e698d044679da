/** A node that receives nothing but its own timer messages: every order of delivering them empties the session table. */
module SystemDrain {
  import opened Bytes
  import opened Protocol
  import opened SessionIds
  import opened Collections
  import opened SystemSpec
  import opened SystemTheorems
  import SystemRuns
  import NiSilence
  import NfTheorems
  import NrTheorems

  // Sums over the table

  ghost function Sum(m: map<SessionId, nat>): nat
    decreases |m|
  {
    if m == map[] then 0
    else
      var k :| k in m;
      Smaller(m, k);
      m[k] + Sum(m - {k})
  }

  lemma Smaller(m: map<SessionId, nat>, k: SessionId)
    requires k in m
    ensures |m - {k}| < |m|
  {
    assert (m - {k}).Keys == m.Keys - {k};
    assert |m| == |m.Keys| && |m - {k}| == |(m - {k}).Keys|;
  }

  lemma {:induction false} SumRemove(m: map<SessionId, nat>, k: SessionId)
    requires k in m
    ensures Sum(m) == m[k] + Sum(m - {k})
    decreases |m|
  {
    var j :| j in m && Sum(m) == m[j] + Sum(m - {j});
    if j != k {
      Smaller(m, j);
      Smaller(m, k);
      SumRemove(m - {j}, k);
      SumRemove(m - {k}, j);
      assert m - {j} - {k} == m - {k} - {j};
    }
  }

  lemma SumUpdate(m: map<SessionId, nat>, k: SessionId, v: nat)
    requires k in m
    ensures Sum(m[k := v]) + m[k] == Sum(m) + v
  {
    SumRemove(m, k);
    SumRemove(m[k := v], k);
    assert m[k := v] - {k} == m - {k};
  }

  // The measure

  function Ranks(sys: Sys): map<SessionId, nat> {
    map sid | sid in sys.table :: Rank(sys.table[sid].session, sys.Timers(sid))
  }

  /** Each session counts twice its rank, since every alarm it acts on may start one more timer. */
  ghost function Measure(sys: Sys): nat {
    2 * Sum(Ranks(sys)) + |sys.alarms|
  }

  // One alarm

  predicate SessionAlarmOk(x: Session, out: set<TimerId>, id: TimerId, ctx: Ctx, o: Outcome<Session>) {
    && !o.Halted?
    && ctx.nextTimer <= o.ctx.nextTimer <= ctx.nextTimer + 1
    && (if Current(x, id) then
          o.Next? ==> Rank(o.s, After(out, Timer(id), ctx.nextTimer, o.ctx.nextTimer)) < Rank(x, out)
        else o == Next(x, ctx))
  }

  lemma SessionAlarm(x: Session, out: set<TimerId>, id: TimerId, ctx: Ctx, cfg: Config, random: nat)
    requires SessionGood(x, out, ctx.nextTimer) && Supplied(out, ctx.nextTimer) && id in out && !x.IsFinal()
    ensures SessionAlarmOk(x, out, id, ctx, StepSession(x, Timer(id), ctx, cfg, random))
    ensures Rank(x, out) > 0
  {
    match x
    case Initiator(s) => NiSilence.AlarmStep(s, out, id, ctx, random);
    case Forwarder(s) => NfTheorems.AlarmStep(s, s.stateTimer in out, id, ctx, cfg);
    case Responder(s) => NrTheorems.AlarmStep(s, s.stateTimer in out, id, ctx, cfg);
  }

  /** The arrival of a timer message. */
  function Tick(a: Alarm, verdict: Verdict): Arrival {
    Arrival(Some(a.sid), Timer(a.id), verdict, [], 0, 0, 0)
  }

  lemma AlarmsShrink(sys: Sys, a: Alarm, verdict: Verdict, c: Ctx)
    requires a in sys.alarms && sys.nextTimer <= c.nextTimer <= sys.nextTimer + 1
    ensures |Taken(sys, Tick(a, verdict)).alarms| == |sys.alarms| - 1
    ensures |Settled(Taken(sys, Tick(a, verdict)), a.sid, c).alarms| <= |sys.alarms|
  {
    var left := Taken(sys, Tick(a, verdict)).alarms;
    var all := Settled(Taken(sys, Tick(a, verdict)), a.sid, c).alarms;
    assert all <= left + {Alarm(a.sid, sys.nextTimer)};
    SubsetSize(all, left + {Alarm(a.sid, sys.nextTimer)});
  }

  lemma ConcludedRanks(sys: Sys, a: Alarm, verdict: Verdict, o: Outcome<Session>)
    requires a.sid in sys.table && !o.Halted?
    ensures var sys' := Concluded(Taken(sys, Tick(a, verdict)), a.sid, o).sys;
            && (if o.Next? && !o.s.IsFinal()
                then Ranks(sys') == Ranks(sys)[a.sid := Rank(o.s, After(sys.Timers(a.sid), Timer(a.id), sys.nextTimer, o.ctx.nextTimer))]
                else Ranks(sys') == Ranks(sys) - {a.sid})
  {
    ConcludedTimers(sys, a.sid, Tick(a, verdict), o);
  }

  lemma ConcludedMeasure(sys: Sys, a: Alarm, verdict: Verdict, ctx: Ctx, o: Outcome<Session>)
    requires a in sys.alarms && a.sid in sys.table && ctx.nextTimer == sys.nextTimer
    requires Rank(sys.table[a.sid].session, sys.Timers(a.sid)) > 0
    requires Current(sys.table[a.sid].session, a.id)
    requires SessionAlarmOk(sys.table[a.sid].session, sys.Timers(a.sid), a.id, ctx, o)
    ensures Measure(Concluded(Taken(sys, Tick(a, verdict)), a.sid, o).sys) < Measure(sys)
  {
    ConcludedRanks(sys, a, verdict, o);
    ConcludedTimers(sys, a.sid, Tick(a, verdict), o);
    AlarmsShrink(sys, a, verdict, o.ctx);
    SumRemove(Ranks(sys), a.sid);
    if o.Next? {
      SumUpdate(Ranks(sys), a.sid, Rank(o.s, After(sys.Timers(a.sid), Timer(a.id), sys.nextTimer, o.ctx.nextTimer)));
    }
  }

  /** A timer message that no session waits for. */
  predicate IsStale(sys: Sys, a: Alarm) {
    a.sid in sys.table ==> !Current(sys.table[a.sid].session, a.id)
  }

  lemma StaleKeepsRank(x: Session, out: set<TimerId>, id: TimerId)
    requires !Current(x, id)
    ensures Rank(x, out - {id}) == Rank(x, out)
  {
  }

  lemma StaleKeepsRanks(sys: Sys, a: Alarm)
    requires IsStale(sys, a)
    ensures Ranks(sys.(alarms := sys.alarms - {a})) == Ranks(sys)
  {
    var sys' := sys.(alarms := sys.alarms - {a});
    forall sid | sid in sys.table
      ensures Rank(sys.table[sid].session, sys'.Timers(sid)) == Rank(sys.table[sid].session, sys.Timers(sid))
    {
      if sid == a.sid {
        assert sys'.Timers(sid) == sys.Timers(sid) - {a.id};
        StaleKeepsRank(sys.table[sid].session, sys.Timers(sid), a.id);
      } else {
        assert sys'.Timers(sid) == sys.Timers(sid);
      }
    }
  }

  lemma StaleIsDropped(sys: Sys, a: Alarm, verdict: Verdict, cfg: Config)
    requires SessionsOpen(sys) && AlarmsOk(sys) && a in sys.alarms && IsStale(sys, a)
    ensures Process(sys, Tick(a, verdict), cfg) == Running(sys.(alarms := sys.alarms - {a}), [])
  {
    var ctx := Ctx(sys.nextTimer, sys.nextKey, verdict, []);
    if a.sid in sys.table {
      assert EntryGood(sys, a.sid);
      SessionAlarm(sys.table[a.sid].session, sys.Timers(a.sid), a.id, ctx, cfg, 0);
      var sys' := Taken(sys, Tick(a, verdict));
      assert Settled(sys', a.sid, ctx).alarms == sys'.alarms;
      assert sys'.table[a.sid := sys.table[a.sid]] == sys.table;
    }
  }

  lemma CurrentDrains(sys: Sys, a: Alarm, verdict: Verdict, cfg: Config)
    requires SessionsOpen(sys) && AlarmsOk(sys) && a in sys.alarms && !IsStale(sys, a)
    ensures var p := Process(sys, Tick(a, verdict), cfg); p.Running? && Measure(p.sys) < Measure(sys)
  {
    var ctx := Ctx(sys.nextTimer, sys.nextKey, verdict, []);
    assert EntryGood(sys, a.sid);
    SessionAlarm(sys.table[a.sid].session, sys.Timers(a.sid), a.id, ctx, cfg, 0);
    ConcludedMeasure(sys, a, verdict, ctx, StepSession(sys.table[a.sid].session, Timer(a.id), ctx, cfg, 0));
  }

  /**
   * A timer message never stops the daemon and always lowers the measure. A stale one changes no session: all it does is
   * to leave the queue.
   */
  lemma TickDrains(sys: Sys, a: Alarm, verdict: Verdict, cfg: Config)
    requires Inv(sys) && a in sys.alarms
    ensures var p := Process(sys, Tick(a, verdict), cfg);
            && p.Running? && Inv(p.sys) && Measure(p.sys) < Measure(sys)
            && (IsStale(sys, a) ==> p == Running(sys.(alarms := sys.alarms - {a}), []))
  {
    ProcessKeepsInv(sys, Tick(a, verdict), cfg);
    if IsStale(sys, a) {
      StaleIsDropped(sys, a, verdict, cfg);
      StaleKeepsRanks(sys, a);
    } else {
      CurrentDrains(sys, a, verdict, cfg);
    }
  }

  // Runs of timers only

  /** A delivered timer message and what the installer answers meanwhile. */
  datatype Delivery = Delivery(alarm: Alarm, verdict: Verdict)

  /** Deliver timer messages in any order that is possible; None when one of them is not under way, or when a delivery stops the daemon. */
  function Deliveries(sys: Sys, ds: seq<Delivery>, cfg: Config): Option<Sys>
    decreases |ds|
  {
    if ds == [] then Some(sys)
    else if ds[0].alarm !in sys.alarms then None
    else
      match Process(sys, Tick(ds[0].alarm, ds[0].verdict), cfg)
      case Down => None
      case Running(sys', _) => Deliveries(sys', ds[1..], cfg)
  }

  /** Every run of timer messages is at most as long as the measure of its first state. */
  lemma {:induction false} DeliveriesEnd(sys: Sys, ds: seq<Delivery>, cfg: Config)
    requires Inv(sys)
    ensures var r := Deliveries(sys, ds, cfg); r.Some? ==> Inv(r.value) && |ds| + Measure(r.value) <= Measure(sys)
    decreases |ds|
  {
    if ds != [] && ds[0].alarm in sys.alarms {
      TickDrains(sys, ds[0].alarm, ds[0].verdict, cfg);
      DeliveriesEnd(Process(sys, Tick(ds[0].alarm, ds[0].verdict), cfg).sys, ds[1..], cfg);
    }
  }

  lemma QuietIsEmpty(sys: Sys)
    requires Inv(sys) && sys.alarms == {}
    ensures sys.table == map[]
  {
    if sid :| sid in sys.table {
      SessionHasAlarm(sys, sid);
    }
  }

  /**
   * When only timers are left, a node whose messages are delivered in any order reaches an empty session table: a run
   * can always be extended while a message is under way, it cannot be longer than the measure, and once no message is
   * left the table is empty.
   */
  lemma TableDrains(sys: Sys, ds: seq<Delivery>, cfg: Config)
    requires Inv(sys) && Deliveries(sys, ds, cfg).Some?
    ensures var last := Deliveries(sys, ds, cfg).value;
            && |ds| <= Measure(sys)
            && (last.alarms == {} ==> last.table == map[])
            && (forall d: Delivery :: d.alarm in last.alarms ==> Deliveries(sys, ds + [d], cfg).Some?)
  {
    DeliveriesEnd(sys, ds, cfg);
    var last := Deliveries(sys, ds, cfg).value;
    if last.alarms == {} {
      QuietIsEmpty(last);
    }
    forall d: Delivery | d.alarm in last.alarms ensures Deliveries(sys, ds + [d], cfg).Some? {
      TickDrains(last, d.alarm, d.verdict, cfg);
      DeliveriesExtend(sys, ds, d, cfg);
    }
  }

  lemma {:induction false} DeliveriesExtend(sys: Sys, ds: seq<Delivery>, d: Delivery, cfg: Config)
    requires Deliveries(sys, ds, cfg).Some? && d.alarm in Deliveries(sys, ds, cfg).value.alarms
    requires Process(Deliveries(sys, ds, cfg).value, Tick(d.alarm, d.verdict), cfg).Running?
    ensures Deliveries(sys, ds + [d], cfg)
            == Some(Process(Deliveries(sys, ds, cfg).value, Tick(d.alarm, d.verdict), cfg).sys)
    decreases |ds|
  {
    if ds == [] {
      assert (ds + [d])[1..] == [];
    } else {
      assert (ds + [d])[1..] == ds[1..] + [d];
      DeliveriesExtend(Process(sys, Tick(ds[0].alarm, ds[0].verdict), cfg).sys, ds[1..], d, cfg);
    }
  }
}
