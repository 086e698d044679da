/** An initiator session that hears nothing but its own timers. */
module NiSilence {
  import opened Bytes
  import opened Protocol
  import opened Runs
  import opened NiSpec
  import NiTheorems

  // How far a session is from its end

  function Left(max: nat, counter: nat): nat {
    if counter < max then max - counter else 0
  }

  /** How many more alarms a session can take before it closes. */
  function Rank(s: Ni, refreshLive: bool): nat {
    match s.state
    case CLOSE => 0
    case PENDING_TEARDOWN => 1 + Left(s.maxRetries, s.teardownCounter)
    case AUCTIONING => if refreshLive then 2 * s.maxRetries + 3 else s.maxRetries + 2 + Left(s.maxRetries, s.refreshCounter)
    case _ => 1 + Left(s.maxRetries, s.createCounter)
  }

  /** An alarm is stale when it is neither of the timers that the state listens to. */
  predicate Stale(s: Ni, id: TimerId) {
    id != s.responseTimer && (s.state == AUCTIONING ==> id != s.refreshTimer)
  }

  /** A stale alarm changes nothing; a live one starts at most one timer and brings the session closer to its end. */
  predicate AlarmOk(s: Ni, out: set<TimerId>, id: TimerId, ctx: Ctx, o: Outcome<Ni>) {
    var from := ctx.nextTimer;
    && !o.Halted?
    && (o.Next? ==>
          && from <= o.ctx.nextTimer <= from + 1
          && (Stale(s, id) ==> o == Next(s, ctx))
          && (!Stale(s, id) ==> Rank(o.s, Live(out, Timer(id), from, o.ctx.nextTimer, o.s.refreshTimer)) < Rank(s, s.refreshTimer in out)))
    && (o.Threw? ==> from <= o.ctx.nextTimer <= from + 1 && !Stale(s, id))
  }

  lemma AlarmStep(s: Ni, out: set<TimerId>, id: TimerId, ctx: Ctx, random: nat)
    requires NiTheorems.Good(s, out, ctx.nextTimer) && Supplied(out, ctx.nextTimer)
    requires id in out && s.state != CLOSE
    ensures AlarmOk(s, out, id, ctx, Step(s, Timer(id), ctx, random))
  {
  }

  // Silence in seconds

  /** A timer that is running, and the seconds it still has. */
  datatype Alarm = Alarm(id: TimerId, seconds: nat)

  /** An open session with its one live alarm. */
  predicate Waits(s: Ni, alarm: Alarm, next: TimerId) {
    && alarm.id < next && s.responseTimer < next && s.refreshTimer < next
    && match s.state
       case AUCTIONING =>
         || alarm.id == s.refreshTimer
         || (alarm.id == s.responseTimer && s.lastRefresh.Some? && s.refreshCounter <= s.maxRetries)
       case PENDING_TEARDOWN => alarm.id == s.responseTimer && s.teardownCounter <= s.maxRetries
       case PENDING => alarm.id == s.responseTimer && s.lastCreate.Some? && s.lastCreate.value.msg.kind == CREATE
       case PENDING_INSTALLING => alarm.id == s.responseTimer && s.installRule.responses == map[]
       case CLOSE => false
  }

  function Ring(s: Ni, alarm: Alarm, next: TimerId): Outcome<Ni> {
    Step(s, Timer(alarm.id), Ctx(next, 0, Accepts, []), 0)
  }

  /** The next alarm is the timer that the last step started. */
  function NextAlarm(o: Outcome<Ni>): Alarm {
    if o.Next? && o.ctx.log != [] && o.ctx.log[|o.ctx.log| - 1].Started?
    then var e := o.ctx.log[|o.ctx.log| - 1]; Alarm(e.id, e.seconds)
    else Alarm(STOPPED, 0)
  }

  function Distance(s: Ni, alarm: Alarm): nat {
    Rank(s, s.state == AUCTIONING && alarm.id == s.refreshTimer)
  }

  lemma RingStep(s: Ni, alarm: Alarm, next: TimerId)
    requires Waits(s, alarm, next)
    ensures var o := Ring(s, alarm, next);
            && o.Next?
            && (o.s.state != CLOSE ==> Waits(o.s, NextAlarm(o), o.ctx.nextTimer) && Distance(o.s, NextAlarm(o)) < Distance(s, alarm))
  {
  }

  /** The seconds until a silent session closes, and the calls it makes meanwhile, if the installer accepts them all. */
  function UntilClosed(s: Ni, alarm: Alarm, next: TimerId): (nat, seq<Effect>)
    requires Waits(s, alarm, next)
    decreases Distance(s, alarm)
  {
    RingStep(s, alarm, next);
    var o := Ring(s, alarm, next);
    if o.s.state == CLOSE then (alarm.seconds, o.ctx.log)
    else
      var (seconds, log) := UntilClosed(o.s, NextAlarm(o), o.ctx.nextTimer);
      (alarm.seconds + seconds, o.ctx.log + log)
  }

  /** The rounds of waiting for a response that are still ahead after the live alarm. */
  function Rounds(s: Ni, alarm: Alarm): nat
  {
    var teardown := if |s.rule.responses| > 0 then s.maxRetries + 1 else 0;
    match s.state
    case CLOSE => 0
    case PENDING_TEARDOWN => Left(s.maxRetries, s.teardownCounter)
    case AUCTIONING =>
      if alarm.id == s.refreshTimer then s.maxRetries + 1 + teardown else Left(s.maxRetries, s.refreshCounter) + teardown
    case _ => Left(s.maxRetries, s.createCounter)
  }

  lemma OneRound(n: nat, t: nat)
    requires n > 0
    ensures n * t == t + (n - 1) * t
  {
  }

  /** What one alarm does to the number of rounds and to the calls made. */
  predicate RoundStep(s: Ni, alarm: Alarm, o: Outcome<Ni>) {
    && o.Next? && |o.ctx.log| <= 3
    && o.s.responseTimeout == s.responseTimeout && o.s.maxRetries == s.maxRetries && (o.s.state != CLOSE ==> o.s.rule == s.rule)
    && (if o.s.state == CLOSE then Rounds(s, alarm) == 0
        else Rounds(o.s, NextAlarm(o)) + 1 == Rounds(s, alarm) && NextAlarm(o).seconds == s.responseTimeout)
    && SentNow(o.ctx.log, REFRESH) + RefreshesAhead(o.s, NextAlarm(o)) == RefreshesAhead(s, alarm)
    && RemovedNow(o.ctx.log) + RemovesAhead(o.s) == RemovesAhead(s)
    && SentNow(o.ctx.log, CREATE) + CreatesAhead(o.s) == CreatesAhead(s)
  }

  /** The CREATE is sent K + 1 times. */
  function CreatesAhead(s: Ni): nat {
    if s.state == PENDING then Left(s.maxRetries, s.createCounter) else 0
  }

  /** A refresh cycle sends the REFRESH K + 1 times; a session that gives its installation up sends one. */
  function RefreshesAhead(s: Ni, alarm: Alarm): nat
  {
    if s.state == PENDING_INSTALLING then 1
    else if s.state != AUCTIONING then 0
    else if alarm.id == s.refreshTimer then s.maxRetries + 1
    else Left(s.maxRetries, s.refreshCounter)
  }

  /** A teardown calls the installer K + 1 times. */
  function RemovesAhead(s: Ni): nat
  {
    if s.state == PENDING_TEARDOWN then Left(s.maxRetries, s.teardownCounter)
    else if s.state == AUCTIONING && |s.rule.responses| > 0 then s.maxRetries + 1
    else 0
  }

  predicate KeepsRefresh(s: Ni) {
    s.lastRefresh.Some? ==> s.lastRefresh.value.msg.kind == REFRESH
  }

  lemma PendingRounds(s: Ni, alarm: Alarm, next: TimerId)
    requires Waits(s, alarm, next) && KeepsRefresh(s) && (s.state == PENDING || s.state == PENDING_INSTALLING)
    ensures RoundStep(s, alarm, Ring(s, alarm, next)) && KeepsRefresh(Ring(s, alarm, next).s)
  {
  }

  lemma TeardownRounds(s: Ni, alarm: Alarm, next: TimerId)
    requires Waits(s, alarm, next) && KeepsRefresh(s) && s.state == PENDING_TEARDOWN
    ensures RoundStep(s, alarm, Ring(s, alarm, next)) && KeepsRefresh(Ring(s, alarm, next).s)
  {
  }

  lemma RefreshRounds(s: Ni, alarm: Alarm, next: TimerId)
    requires Waits(s, alarm, next) && KeepsRefresh(s) && s.state == AUCTIONING && alarm.id == s.refreshTimer
    ensures RoundStep(s, alarm, Ring(s, alarm, next)) && KeepsRefresh(Ring(s, alarm, next).s)
  {
  }

  lemma ResponseRounds(s: Ni, alarm: Alarm, next: TimerId)
    requires Waits(s, alarm, next) && KeepsRefresh(s) && s.state == AUCTIONING && alarm.id != s.refreshTimer
    ensures RoundStep(s, alarm, Ring(s, alarm, next)) && KeepsRefresh(Ring(s, alarm, next).s)
  {
  }

  lemma RingRounds(s: Ni, alarm: Alarm, next: TimerId)
    requires Waits(s, alarm, next) && KeepsRefresh(s)
    ensures RoundStep(s, alarm, Ring(s, alarm, next)) && KeepsRefresh(Ring(s, alarm, next).s)
  {
    if s.state == PENDING || s.state == PENDING_INSTALLING {
      PendingRounds(s, alarm, next);
    } else if s.state == PENDING_TEARDOWN {
      TeardownRounds(s, alarm, next);
    } else if alarm.id == s.refreshTimer {
      RefreshRounds(s, alarm, next);
    } else {
      ResponseRounds(s, alarm, next);
    }
  }

  /** What a session has ahead of it. */
  predicate Ahead(s: Ni, alarm: Alarm, seconds: nat, log: seq<Effect>) {
    && seconds == alarm.seconds + Rounds(s, alarm) * s.responseTimeout
    && CountSent(log, REFRESH) == RefreshesAhead(s, alarm)
    && CountRemoved(log) == RemovesAhead(s) && CountSent(log, CREATE) == CreatesAhead(s)
  }

  /** One alarm and what is ahead after it make up what was ahead before it. */
  lemma AheadAdds(s: Ni, alarm: Alarm, o: Outcome<Ni>, seconds: nat, log: seq<Effect>)
    requires RoundStep(s, alarm, o) && o.s.state != CLOSE && Ahead(o.s, NextAlarm(o), seconds, log)
    ensures Ahead(s, alarm, alarm.seconds + seconds, o.ctx.log + log)
  {
    CountsNow(o.ctx.log, REFRESH);
    CountsNow(o.ctx.log, CREATE);
    CountsAdd(o.ctx.log, log, REFRESH);
    CountsAdd(o.ctx.log, log, CREATE);
    OneRound(Rounds(s, alarm), s.responseTimeout);
  }

  lemma AheadEnds(s: Ni, alarm: Alarm, o: Outcome<Ni>)
    requires RoundStep(s, alarm, o) && o.s.state == CLOSE
    ensures Ahead(s, alarm, alarm.seconds, o.ctx.log)
  {
    CountsNow(o.ctx.log, REFRESH);
    CountsNow(o.ctx.log, CREATE);
  }

  /**
   * The exact time to the end of a silent session, in any of its states: the live alarm, then one response timeout for each
   * round. From a running refresh timer that makes the refresh interval plus K + 1 timeouts, and K + 1 more when objects
   * are installed.
   */
  lemma {:induction false} SilenceCloses(s: Ni, alarm: Alarm, next: TimerId)
    requires Waits(s, alarm, next) && KeepsRefresh(s)
    ensures var (seconds, log) := UntilClosed(s, alarm, next); Ahead(s, alarm, seconds, log)
    decreases Distance(s, alarm)
  {
    RingStep(s, alarm, next);
    RingRounds(s, alarm, next);
    var o := Ring(s, alarm, next);
    if o.s.state == CLOSE {
      AheadEnds(s, alarm, o);
    } else {
      var (seconds, log) := UntilClosed(o.s, NextAlarm(o), o.ctx.nextTimer);
      SilenceCloses(o.s, NextAlarm(o), o.ctx.nextTimer);
      AheadAdds(s, alarm, o, seconds, log);
    }
  }

  /** From AUCTIONING on, a silent session lasts at most its live alarm and two times K + 1 response timeouts. */
  lemma SilenceIsBounded(s: Ni, alarm: Alarm, next: TimerId)
    requires Waits(s, alarm, next) && KeepsRefresh(s) && s.state == AUCTIONING
    ensures UntilClosed(s, alarm, next).0 <= alarm.seconds + 2 * (s.maxRetries + 1) * s.responseTimeout
  {
    SilenceCloses(s, alarm, next);
    NiTheorems.Scaled(Rounds(s, alarm), 2 * (s.maxRetries + 1), s.responseTimeout);
  }
}
