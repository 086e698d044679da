/** A responder session that hears nothing but its own timer. */
module NrSilence {
  import opened Bytes
  import opened Protocol
  import opened Runs
  import opened NrSpec
  import opened NrTheorems

  /** A timer that is running, and the seconds it still has. */
  datatype Alarm = Alarm(id: TimerId, seconds: nat)

  /** An open session with its alarm; while it owes an answer it has the CREATE. */
  predicate Waits(s: Nr, alarm: Alarm) {
    && alarm.id == s.stateTimer && s.state != CLOSE
    && (s.state == PENDING || s.state == PENDING_INSTALLING ==> s.lastCreate.Some? && s.lastCreate.value.msg.code.None?
                                                                && s.lastCreate.value.msg.kind == CREATE)
  }

  function Ring(s: Nr, alarm: Alarm, next: TimerId, key: Key, cfg: Config): Outcome<Nr> {
    Step(s, Timer(alarm.id), Ctx(next, key, Accepts, []), cfg)
  }

  function NextAlarm(o: Outcome<Nr>): Alarm {
    if o.Next? && o.ctx.log != [] && o.ctx.log[|o.ctx.log| - 1].Started?
    then var e := o.ctx.log[|o.ctx.log| - 1]; Alarm(e.id, e.seconds)
    else Alarm(STOPPED, 0)
  }

  lemma RingStep(s: Nr, alarm: Alarm, next: TimerId, key: Key, cfg: Config)
    requires Waits(s, alarm)
    ensures var o := Ring(s, alarm, next, key, cfg);
            o.Next? && (o.s.state != CLOSE ==> Waits(o.s, NextAlarm(o)) && Rank(o.s) < Rank(s))
  {
  }

  /** The seconds until a silent session closes, and the calls it makes meanwhile, if the installer accepts them all. */
  function UntilClosed(s: Nr, alarm: Alarm, next: TimerId, key: Key, cfg: Config): (nat, seq<Effect>)
    requires Waits(s, alarm)
    decreases Rank(s)
  {
    RingStep(s, alarm, next, key, cfg);
    var o := Ring(s, alarm, next, key, cfg);
    if o.s.state == CLOSE then (alarm.seconds, o.ctx.log)
    else
      var (seconds, log) := UntilClosed(o.s, NextAlarm(o), o.ctx.nextTimer, o.ctx.nextKey, cfg);
      (alarm.seconds + seconds, o.ctx.log + log)
  }

  // What is ahead

  /** The rounds of waiting that are still ahead after the live alarm. */
  function Rounds(s: Nr): nat {
    var more := Left(s.maxRetries, s.createCounter);
    match s.state
    case CLOSE => 0
    case AUCTIONING => if |s.rule.responses| > 0 then 1 + more else 0
    case _ => more
  }

  /** How long a round takes: the lifetime while an answer is owed, the response timeout while the rule is removed. */
  function Round(s: Nr, cfg: Config): nat {
    if s.state == PENDING || s.state == PENDING_INSTALLING then s.lifetime else cfg.nrResponseTimeout
  }

  /** One error response tells the path that a session is given up. */
  function ResponsesAhead(s: Nr): nat {
    One(s.state == PENDING || s.state == PENDING_INSTALLING)
  }

  function RemovesAhead(s: Nr): nat {
    if s.state == PENDING_TEARDOWN || s.state == AUCTIONING then Rounds(s) else 0
  }

  predicate RoundStep(s: Nr, o: Outcome<Nr>, cfg: Config) {
    && o.Next? && |o.ctx.log| <= 3
    && (if o.s.state == CLOSE then Rounds(s) == 0
        else Rounds(o.s) + 1 == Rounds(s) && NextAlarm(o).seconds == Round(s, cfg) && Round(o.s, cfg) == Round(s, cfg))
    && SentNow(o.ctx.log, RESPONSE) + ResponsesAhead(o.s) == ResponsesAhead(s)
    && RemovedNow(o.ctx.log) + RemovesAhead(o.s) == RemovesAhead(s)
  }

  lemma OwingRounds(s: Nr, alarm: Alarm, next: TimerId, key: Key, cfg: Config)
    requires Waits(s, alarm) && (s.state == PENDING || s.state == PENDING_INSTALLING)
    ensures RoundStep(s, Ring(s, alarm, next, key, cfg), cfg)
  {
  }

  lemma EndingRounds(s: Nr, alarm: Alarm, next: TimerId, key: Key, cfg: Config)
    requires Waits(s, alarm) && (s.state == AUCTIONING || s.state == PENDING_TEARDOWN)
    ensures RoundStep(s, Ring(s, alarm, next, key, cfg), cfg)
  {
  }

  predicate Ahead(s: Nr, alarm: Alarm, cfg: Config, seconds: nat, log: seq<Effect>) {
    && seconds == alarm.seconds + Rounds(s) * Round(s, cfg)
    && CountSent(log, RESPONSE) == ResponsesAhead(s) && CountRemoved(log) == RemovesAhead(s)
  }

  lemma OneRound(n: nat, t: nat)
    requires n > 0
    ensures n * t == t + (n - 1) * t
  {
  }

  lemma AheadAdds(s: Nr, alarm: Alarm, cfg: Config, o: Outcome<Nr>, seconds: nat, log: seq<Effect>)
    requires RoundStep(s, o, cfg) && o.s.state != CLOSE && Ahead(o.s, NextAlarm(o), cfg, seconds, log)
    ensures Ahead(s, alarm, cfg, alarm.seconds + seconds, o.ctx.log + log)
  {
    CountsNow(o.ctx.log, RESPONSE);
    CountsAdd(o.ctx.log, log, RESPONSE);
    OneRound(Rounds(s), Round(s, cfg));
  }

  /**
   * The exact time to the end of a silent responder, and what it tells others: one error if it still owes an answer, and a
   * call of the installer for each round in which an installed rule is to be removed.
   */
  lemma {:induction false} SilenceCloses(s: Nr, alarm: Alarm, next: TimerId, key: Key, cfg: Config)
    requires Waits(s, alarm)
    ensures var (seconds, log) := UntilClosed(s, alarm, next, key, cfg); Ahead(s, alarm, cfg, seconds, log)
    decreases Rank(s)
  {
    RingStep(s, alarm, next, key, cfg);
    if s.state == PENDING || s.state == PENDING_INSTALLING {
      OwingRounds(s, alarm, next, key, cfg);
    } else {
      EndingRounds(s, alarm, next, key, cfg);
    }
    var o := Ring(s, alarm, next, key, cfg);
    if o.s.state == CLOSE {
      CountsNow(o.ctx.log, RESPONSE);
    } else {
      var (seconds, log) := UntilClosed(o.s, NextAlarm(o), o.ctx.nextTimer, o.ctx.nextKey, cfg);
      SilenceCloses(o.s, NextAlarm(o), o.ctx.nextTimer, o.ctx.nextKey, cfg);
      AheadAdds(s, alarm, cfg, o, seconds, log);
    }
  }
}
