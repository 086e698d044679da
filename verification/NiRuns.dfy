/** Whole runs of an initiator session: retransmission, cleanup, sequence numbers and silence. */
module NiRuns {
  import opened Bytes
  import opened Protocol
  import opened Runs
  import opened SerialNumber
  import opened NiSpec
  import NiTheorems

  function Act(s: Ni, input: Input): Outcome<Ni> {
    Step(s, input.evt, input.Begin(), input.random)
  }

  predicate IsFinal(s: Ni) {
    s.state == CLOSE
  }

  // Bounded retransmission

  /** The saved messages have their kinds, nothing is installed before the rule is, and the counters stay in range. */
  predicate Sound(s: Ni) {
    && (s.lastCreate.Some? ==> s.lastCreate.value.msg.kind == CREATE)
    && (s.lastRefresh.Some? ==> s.lastRefresh.value.msg.kind == REFRESH)
    && s.installRule.responses == map[] && s.createCounter <= s.maxRetries
    && (s.state == PENDING_TEARDOWN ==> s.teardownCounter <= s.maxRetries)
  }

  /** What one event adds to the transmissions of the CREATE and to the calls that remove the rule. */
  predicate CountsStep(s: Ni, o: Outcome<Ni>) {
    o.Next? ==>
      var creates, removes := SentNow(o.ctx.log, CREATE), RemovedNow(o.ctx.log);
      && |o.ctx.log| <= 3
      && o.s.maxRetries == s.maxRetries && Sound(o.s)
      && match s.state
         case CLOSE => creates <= 1 && removes == 0
                       && (o.s.state == CLOSE || (o.s.state == PENDING && o.s.createCounter == s.createCounter && creates == 1))
         case PENDING => removes == 0
                         && if o.s.state == PENDING then o.s.createCounter == s.createCounter + creates
                            else creates == 0 && (o.s.state == CLOSE || o.s.state == PENDING_INSTALLING)
         case PENDING_INSTALLING => creates == 0 && removes == 0 && o.s.state != PENDING && o.s.state != PENDING_TEARDOWN
         case AUCTIONING => creates == 0
                            && if o.s.state == PENDING_TEARDOWN then removes == 1 && o.s.teardownCounter == 0
                               else removes == 0 && (o.s.state == CLOSE || o.s.state == AUCTIONING)
         case PENDING_TEARDOWN => creates == 0
                                  && if o.s.state == PENDING_TEARDOWN
                                     then o.s.teardownCounter == s.teardownCounter + removes
                                     else o.s.state == CLOSE && removes == 0
  }

  lemma PendingCounts(s: Ni, evt: Event, ctx: Ctx)
    requires Sound(s) && s.state == PENDING && ctx.log == []
    ensures CountsStep(s, StepPending(s, evt, ctx))
  {
  }

  lemma PendingInstallingCounts(s: Ni, evt: Event, ctx: Ctx)
    requires Sound(s) && s.state == PENDING_INSTALLING && ctx.log == []
    ensures CountsStep(s, StepPendingInstalling(s, evt, ctx))
  {
  }

  lemma UnansweredCounts(s: Ni, ctx: Ctx)
    requires Sound(s) && s.state == AUCTIONING && ctx.log == []
    ensures CountsStep(s, StepRefreshUnanswered(s, ctx))
  {
  }

  lemma AlarmCounts(s: Ni, evt: Event, ctx: Ctx)
    requires Sound(s) && s.state == AUCTIONING && ctx.log == [] && evt.Timer?
    ensures CountsStep(s, StepAuctioning(s, evt, ctx))
  {
    if evt == Timer(s.responseTimer) && evt != Timer(s.refreshTimer) {
      UnansweredCounts(s, ctx);
    }
  }

  lemma AuctioningCounts(s: Ni, evt: Event, ctx: Ctx)
    requires Sound(s) && s.state == AUCTIONING && ctx.log == [] && !evt.Timer?
    ensures CountsStep(s, StepAuctioning(s, evt, ctx))
  {
  }

  lemma PendingTeardownCounts(s: Ni, evt: Event, ctx: Ctx)
    requires Sound(s) && s.state == PENDING_TEARDOWN && ctx.log == []
    ensures CountsStep(s, StepPendingTeardown(s, evt, ctx))
  {
  }

  lemma OpenCounts(s: Ni, evt: Event, ctx: Ctx)
    requires Sound(s) && s.state == CLOSE && evt.ApiCreate? && ctx.log == []
    ensures CountsStep(s, Open(s, evt, ctx))
  {
  }

  lemma ActCounts(s: Ni, input: Input)
    requires Sound(s)
    ensures CountsStep(s, Act(s, input))
  {
    var evt, ctx := input.evt, input.Begin();
    match s.state
    case CLOSE =>
      if evt.ApiCreate? && Act(s, input).Next? {
        var lifetime := if evt.lifetime != 0 then evt.lifetime else s.lifetime;
        var r := RefreshInterval(lifetime, s.maxRetries);
        OpenCounts(s.(lifetime := lifetime, refreshInterval := r, responseTimeout := ResponseTimeout(r, input.random)), evt, ctx);
      }
    case PENDING => PendingCounts(s, evt, ctx);
    case PENDING_INSTALLING => PendingInstallingCounts(s, evt, ctx);
    case AUCTIONING =>
      if evt.Timer? {
        AlarmCounts(s, evt, ctx);
      } else {
        AuctioningCounts(s, evt, ctx);
      }
    case PENDING_TEARDOWN => PendingTeardownCounts(s, evt, ctx);
  }

  predicate CountsOk(s: Ni, maxRetries: uint32, log: seq<Effect>) {
    var creates, removes := CountSent(log, CREATE), CountRemoved(log);
    && s.maxRetries == maxRetries && Sound(s)
    && creates <= 1 + maxRetries && removes <= 1 + maxRetries
    && match s.state
       case PENDING => creates == 1 + s.createCounter && removes == 0
       case PENDING_TEARDOWN => removes == 1 + s.teardownCounter
       case _ => s.state != CLOSE ==> removes == 0
  }

  lemma CountsStay(s: Ni, o: Outcome<Ni>, maxRetries: uint32, log: seq<Effect>)
    requires CountsOk(s, maxRetries, log) && CountsStep(s, o) && o.Next? && (s.state == CLOSE ==> log == [])
    requires s.state == CLOSE ==> s.createCounter == 0
    ensures CountsOk(o.s, maxRetries, log + o.ctx.log)
  {
    CountsNow(o.ctx.log, CREATE);
    CountsAdd(log, o.ctx.log, CREATE);
  }

  /** At most K + 1 transmissions of the CREATE and K + 1 calls to remove the rule in the life of a session. */
  lemma {:induction false} BoundedRetransmission(cfg: Config, msn: uint32, teardownCounter: uint32, inputs: seq<Input>)
    ensures var t := Run(Act, IsFinal, Initial(cfg, msn, teardownCounter), inputs);
            t.Some? ==> CountSent(t.value.log, CREATE) <= cfg.niMaxRetries + 1
                        && CountRemoved(t.value.log) <= cfg.niMaxRetries + 1
                        && CountsOk(t.value.Last(), cfg.niMaxRetries, t.value.log)
  {
    var s := Initial(cfg, msn, teardownCounter);
    if inputs != [] && Run(Act, IsFinal, s, inputs).Some? {
      var shorter, input := inputs[..|inputs| - 1], inputs[|inputs| - 1];
      BoundedRetransmission(cfg, msn, teardownCounter, shorter);
      var t := Run(Act, IsFinal, s, shorter).value;
      assert shorter == [] ==> t == Trace([s], []);
      ActCounts(t.Last(), input);
      CountsStay(t.Last(), Act(t.Last(), input), cfg.niMaxRetries, t.log);
    }
  }

  // Cleanup

  /** One event of a session whose rule is installed: the rule is frozen, and leaving AUCTIONING has it removed. */
  predicate RuleStep(s: Ni, o: Outcome<Ni>) {
    o.Next? ==>
      && o.s.rule == s.rule
      && (forall e :: e in o.ctx.log && e.Removed? ==> e.rule == s.rule)
      && (s.state == AUCTIONING ==> o.s.state == AUCTIONING || (o.s.state == PENDING_TEARDOWN && Removed(s.rule) in o.ctx.log))
      && (s.state == PENDING_TEARDOWN ==> o.s.state == PENDING_TEARDOWN || o.s.state == CLOSE)
  }

  lemma AlarmFreezesRule(s: Ni, evt: Event, ctx: Ctx)
    requires s.state == AUCTIONING && |s.rule.responses| > 0 && ctx.log == [] && evt.Timer?
    ensures RuleStep(s, StepAuctioning(s, evt, ctx))
  {
  }

  lemma AuctioningFreezesRule(s: Ni, evt: Event, ctx: Ctx)
    requires s.state == AUCTIONING && |s.rule.responses| > 0 && ctx.log == [] && !evt.Timer?
    ensures RuleStep(s, StepAuctioning(s, evt, ctx))
  {
  }

  lemma TeardownFreezesRule(s: Ni, evt: Event, ctx: Ctx)
    requires s.state == PENDING_TEARDOWN && ctx.log == []
    ensures RuleStep(s, StepPendingTeardown(s, evt, ctx))
  {
  }

  lemma ActFreezesRule(s: Ni, input: Input)
    requires s.state == PENDING_TEARDOWN || (s.state == AUCTIONING && |s.rule.responses| > 0)
    ensures RuleStep(s, Act(s, input))
  {
    var evt, ctx := input.evt, input.Begin();
    if s.state == PENDING_TEARDOWN {
      TeardownFreezesRule(s, evt, ctx);
    } else if evt.Timer? {
      AlarmFreezesRule(s, evt, ctx);
    } else {
      AuctioningFreezesRule(s, evt, ctx);
    }
  }

  /** The rule of `s` is still installed, or was handed to the installer for removal on the way through PENDING_TEARDOWN. */
  ghost predicate InstalledOrRemoved(s: Ni, t: Trace<Ni>) {
    && t.states != [] && t.Last().rule == s.rule
    && (forall e :: e in t.log && e.Removed? ==> e.rule == s.rule)
    && (t.Last().state == AUCTIONING
        || ((t.Last().state == PENDING_TEARDOWN || t.Last().state == CLOSE) && Removed(s.rule) in t.log
            && exists x :: x in t.states && x.state == PENDING_TEARDOWN))
  }

  lemma RuleStepKeeps(s: Ni, t: Trace<Ni>, o: Outcome<Ni>)
    requires InstalledOrRemoved(s, t) && t.Last().state != CLOSE && RuleStep(t.Last(), o) && o.Next?
    ensures InstalledOrRemoved(s, t.Extend(o))
  {
    var t' := t.Extend(o);
    assert o.s in t'.states;
    assert forall x :: x in t.states ==> x in t'.states;
  }

  /** A session with installed objects closes only through PENDING_TEARDOWN, after it had exactly those objects removed. */
  lemma {:induction false} RuleIsRemoved(s: Ni, inputs: seq<Input>)
    requires s.state == AUCTIONING && |s.rule.responses| > 0
    ensures var t := Run(Act, IsFinal, s, inputs); t.Some? ==> InstalledOrRemoved(s, t.value)
  {
    if inputs != [] && Run(Act, IsFinal, s, inputs).Some? {
      var shorter, input := inputs[..|inputs| - 1], inputs[|inputs| - 1];
      RuleIsRemoved(s, shorter);
      var t := Run(Act, IsFinal, s, shorter).value;
      assert shorter == [] ==> t == Trace([s], []);
      ActFreezesRule(t.Last(), input);
      RuleStepKeeps(s, t, Act(t.Last(), input));
    }
  }

  // Sequence numbers

  predicate DrawStep(s: Ni, o: Outcome<Ni>) {
    o.Next? ==> o.s.msn == s.msn || o.s.msn == Increment(s.msn)
  }

  lemma ActDrawsAtMostOne(s: Ni, input: Input)
    ensures DrawStep(s, Act(s, input))
  {
  }

  /** `msn` is the number reached from `base` after `draws` increments. */
  predicate Reached(base: uint32, draws: nat, msn: uint32) {
    msn == (base + draws) % TWO_32
  }

  lemma ReachMore(base: uint32, draws: nat, msn: uint32)
    requires Reached(base, draws, msn)
    ensures Reached(base, draws + 1, Increment(msn))
    ensures draws + 1 < LIMIT ==> IsGreaterThan(Increment(msn), base)
  {
    var x := base + draws;
    var q := x / TWO_32;
    if msn + 1 < TWO_32 {
      ModUnique(x + 1, q, msn + 1);
    } else {
      ModUnique(x + 1, q + 1, 0);
    }
    if draws + 1 < LIMIT {
      FreshAhead(base, draws + 1);
    }
  }

  lemma DrawnOnce(base: uint32, draws: nat, msn: uint32, msn': uint32)
    requires Reached(base, draws, msn) && (msn' == msn || msn' == Increment(msn))
    ensures Reached(base, draws + One(msn' != msn), msn')
  {
    if msn' != msn {
      ReachMore(base, draws, msn);
    }
  }

  /** How many numbers were drawn along some states. */
  function Draws(states: seq<Ni>): nat {
    if |states| < 2 then 0
    else
      var n := |states| - 1;
      Draws(states[..n]) + One(states[n].msn != states[n - 1].msn)
  }

  /** The last number is the first one plus the number of draws, and no event draws twice. */
  predicate DrawsOk(base: uint32, t: Trace<Ni>) {
    t.states != [] && Draws(t.states) < |t.states| && Reached(base, Draws(t.states), t.Last().msn)
  }

  lemma DrawsStay(base: uint32, t: Trace<Ni>, o: Outcome<Ni>)
    requires DrawsOk(base, t) && DrawStep(t.Last(), o) && o.Next?
    ensures DrawsOk(base, t.Extend(o))
  {
    var states := t.states + [o.s];
    assert states[..|t.states|] == t.states;
    DrawnOnce(base, Draws(t.states), t.Last().msn, o.s.msn);
  }

  lemma NothingDrawn(s: Ni)
    ensures DrawsOk(s.msn, Trace([s], []))
  {
  }

  /** Every message built advances the sequence number by one, and one event builds at most one message. */
  lemma {:induction false} DrawsAreCounted(s: Ni, inputs: seq<Input>)
    ensures var t := Run(Act, IsFinal, s, inputs); t.Some? ==> DrawsOk(s.msn, t.value)
  {
    if inputs == [] {
      NothingDrawn(s);
    } else if Run(Act, IsFinal, s, inputs).Some? {
      var shorter, input := inputs[..|inputs| - 1], inputs[|inputs| - 1];
      DrawsAreCounted(s, shorter);
      var t := Run(Act, IsFinal, s, shorter).value;
      ActDrawsAtMostOne(t.Last(), input);
      DrawsStay(s.msn, t, Act(t.Last(), input));
    }
  }

  /** The step sends a new REFRESH with this number and keeps it for retransmission. */
  predicate SendsRefresh(o: Outcome<Ni>, msn: uint32) {
    o.Next? && o.s.lastRefresh.Some? && |o.ctx.log| > 0 && o.ctx.log[0] == Sent(o.s.lastRefresh.value)
    && o.s.lastRefresh.value.msg.kind == REFRESH && o.s.lastRefresh.value.msg.msn == Some(msn)
  }

  lemma ActSendsRefresh(s: Ni, input: Input)
    requires s.state == AUCTIONING && (input.evt == Timer(s.refreshTimer) || input.evt.ApiTeardown?)
    ensures SendsRefresh(Act(s, input), Increment(s.msn))
  {
  }

  /** A new REFRESH compares greater than `s.msn`, the last number accepted, while fewer than 2^31 were drawn since. */
  lemma NewRefreshIsFresh(s: Ni, inputs: seq<Input>, input: Input)
    ensures var t := Run(Act, IsFinal, s, inputs);
            t.Some? && t.value.Last().state == AUCTIONING && Draws(t.value.states) + 1 < LIMIT
            && (input.evt == Timer(t.value.Last().refreshTimer) || input.evt.ApiTeardown?) ==>
              exists msn :: SendsRefresh(Act(t.value.Last(), input), msn) && IsGreaterThan(msn, s.msn)
  {
    var t := Run(Act, IsFinal, s, inputs);
    if t.Some? && t.value.Last().state == AUCTIONING && Draws(t.value.states) + 1 < LIMIT
       && (input.evt == Timer(t.value.Last().refreshTimer) || input.evt.ApiTeardown?) {
      DrawsAreCounted(s, inputs);
      ReachMore(s.msn, Draws(t.value.states), t.value.Last().msn);
      ActSendsRefresh(t.value.Last(), input);
    }
  }

  // One refresh cycle

  /** An event that neither begins a refresh cycle nor asks for the end of the session. */
  predicate InCycle(s: Ni, evt: Event) {
    evt != Timer(s.refreshTimer) && evt != Timer(STOPPED) && !evt.ApiTeardown?
  }

  /** A cycle has sent `sent` copies of its REFRESH; no more will follow once the response timer is stopped. */
  predicate CycleOk(s: Ni, maxRetries: uint32, sent: nat) {
    && s.maxRetries == maxRetries && sent <= maxRetries
    && match s.state
       case AUCTIONING => s.responseTimer == STOPPED || sent <= s.refreshCounter
       case PENDING_TEARDOWN => true
       case CLOSE => true
       case _ => false
  }

  ghost predicate CycleStep(s: Ni, o: Outcome<Ni>) {
    o.Next? ==> |o.ctx.log| <= 3 && forall sent: nat :: CycleOk(s, s.maxRetries, sent) ==>
      CycleOk(o.s, s.maxRetries, sent + SentNow(o.ctx.log, REFRESH))
  }

  lemma UnansweredCycleStep(s: Ni, ctx: Ctx)
    requires s.state == AUCTIONING && s.responseTimer != STOPPED && ctx.log == []
    ensures CycleStep(s, StepRefreshUnanswered(s, ctx))
  {
  }

  lemma AuctioningCycleStep(s: Ni, evt: Event, ctx: Ctx)
    requires s.state == AUCTIONING && InCycle(s, evt) && evt != Timer(s.responseTimer) && ctx.log == []
    ensures CycleStep(s, StepAuctioning(s, evt, ctx))
  {
  }

  lemma TeardownCycleStep(s: Ni, evt: Event, ctx: Ctx)
    requires s.state == PENDING_TEARDOWN && ctx.log == []
    ensures CycleStep(s, StepPendingTeardown(s, evt, ctx))
  {
  }

  lemma ActCycleStep(s: Ni, input: Input)
    requires (s.state == AUCTIONING || s.state == PENDING_TEARDOWN) && InCycle(s, input.evt)
    ensures CycleStep(s, Act(s, input))
  {
    if s.state == PENDING_TEARDOWN {
      TeardownCycleStep(s, input.evt, input.Begin());
    } else if input.evt == Timer(s.responseTimer) {
      UnansweredCycleStep(s, input.Begin());
    } else {
      AuctioningCycleStep(s, input.evt, input.Begin());
    }
  }

  lemma CycleStays(o: Outcome<Ni>, s: Ni, maxRetries: uint32, log: seq<Effect>)
    requires CycleOk(s, maxRetries, CountSent(log, REFRESH)) && CycleStep(s, o) && o.Next?
    ensures CycleOk(o.s, maxRetries, CountSent(log + o.ctx.log, REFRESH))
  {
    CountsNow(o.ctx.log, REFRESH);
    CountsAdd(log, o.ctx.log, REFRESH);
  }

  /** After the first transmission of a REFRESH at most K more follow, until the next cycle begins. */
  lemma {:induction false} BoundedRefresh(s: Ni, inputs: seq<Input>)
    requires s.state == AUCTIONING && s.refreshCounter == 0 && Run(Act, IsFinal, s, inputs).Some?
    requires forall i :: 0 <= i < |inputs| ==> InCycle(Run(Act, IsFinal, s, inputs).value.states[i], inputs[i].evt)
    ensures var t := Run(Act, IsFinal, s, inputs).value; CycleOk(t.Last(), s.maxRetries, CountSent(t.log, REFRESH))
  {
    if inputs != [] {
      var n := |inputs| - 1;
      var shorter := inputs[..n];
      var t, t' := Run(Act, IsFinal, s, shorter).value, Run(Act, IsFinal, s, inputs).value;
      assert t'.states[..n + 1] == t.states;
      forall i | 0 <= i < n ensures InCycle(t.states[i], shorter[i].evt) {
        assert t.states[i] == t'.states[i];
      }
      BoundedRefresh(s, shorter);
      assert t'.states[n] == t.Last();
      assert n == 0 ==> t == Trace([s], []);
      ActCycleStep(t.Last(), inputs[n]);
      CycleStays(Act(t.Last(), inputs[n]), t.Last(), s.maxRetries, t.log);
    }
  }
}
