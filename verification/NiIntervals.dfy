/** The refresh interval of an initiator session: how it is chosen, that it never changes, and that the refresh timer runs for it. */
module NiIntervals {
  import opened Bytes
  import opened Protocol
  import opened Runs
  import opened NiSpec
  import NiTheorems
  import NiRuns

  /** The interval that a session takes over when the path grants another lifetime than it has asked for. */
  function Adopted(granted: uint32): nat {
    granted * 2 % TWO_32 / 3
  }

  /** The interval of a session that has asked for one lifetime and was granted another or the same. */
  function Interval(asked: uint32, granted: uint32, maxRetries: uint32): nat {
    if granted == asked then RefreshInterval(asked, maxRetries) else Adopted(granted)
  }

  // How long it is

  /** Two thirds of the lifetime, exactly when doubling it does not wrap; it ends before the session in any case. */
  lemma AdoptedIsTwoThirds(granted: uint32)
    ensures 3 * Adopted(granted) <= 2 * granted < 3 * (Adopted(granted) + 1) <==> 2 * granted < TWO_32
    ensures granted > 0 ==> Adopted(granted) < granted
  {
  }

  /** The interval of the formula ends before the session exactly when there is a retry and the lifetime is two seconds. */
  lemma RequestedEndsFirst(lifetime: uint32, maxRetries: uint32)
    requires lifetime > 0
    ensures RefreshInterval(lifetime, maxRetries) < lifetime <==> maxRetries >= 1 && lifetime >= 2
  {
    NiTheorems.RefreshIntervalIsLeast(lifetime, maxRetries);
    var b, r := 3 * (2 * maxRetries + 1), RefreshInterval(lifetime, maxRetries);
    if maxRetries == 0 {
      assert 3 * r >= 4 * lifetime;
    } else {
      AtLeastNine(b, r - 1);
      assert 9 * (r - 1) < 4 * lifetime;
    }
  }

  lemma AtLeastNine(b: nat, n: nat)
    requires b >= 9
    ensures 9 * n <= b * n
  {
    assert (b - 9) * n >= 0;
  }

  /** A session refreshes before it expires, with the exact exception of a granted request that is too short to do so. */
  lemma RefreshesInTime(asked: uint32, granted: uint32, maxRetries: uint32)
    requires granted > 0
    ensures Interval(asked, granted, maxRetries) < granted <==> granted != asked || (maxRetries >= 1 && asked >= 2)
  {
    AdoptedIsTwoThirds(granted);
    RequestedEndsFirst(granted, maxRetries);
  }

  // One event

  predicate Grants(s: Ni, evt: Event) {
    s.state == PENDING && s.lastCreate.Some? && evt.Answers(s.lastCreate.value) && evt.packet.msg.IsSuccess()
  }

  /** The interval changes only with a request for a session, and with the answer to the CREATE. */
  predicate IntervalStep(s: Ni, evt: Event, random: nat, o: Outcome<Ni>) {
    o.Next? ==>
      && o.s.maxRetries == s.maxRetries
      && if s.state == CLOSE && evt.ApiCreate? then
           var asked := if evt.lifetime != 0 then evt.lifetime else s.lifetime;
           && o.s.lifetime == asked && o.s.refreshInterval == RefreshInterval(asked, s.maxRetries)
           && o.s.responseTimeout == ResponseTimeout(o.s.refreshInterval, random)
         else
           && o.s.responseTimeout == s.responseTimeout
           && if Grants(s, evt) then
                var granted := evt.packet.msg.lifetime.GetOr(0);
                && o.s.lifetime == granted
                && o.s.refreshInterval == if granted == s.lifetime then s.refreshInterval else Adopted(granted)
              else
                && o.s.refreshInterval == s.refreshInterval
                && (o.s.lifetime == s.lifetime || (o.s.lifetime == 0 && (o.s.state == AUCTIONING || o.s.state == CLOSE)))
  }

  lemma OpenIntervalStep(s: Ni, evt: Event, ctx: Ctx, random: nat)
    requires s.state == CLOSE
    ensures IntervalStep(s, evt, random, Step(s, evt, ctx, random))
  {
  }

  lemma LaterIntervalStep(s: Ni, evt: Event, ctx: Ctx, random: nat)
    requires s.state != CLOSE
    ensures IntervalStep(s, evt, random, Step(s, evt, ctx, random))
  {
  }

  lemma ActIntervalStep(s: Ni, input: Input)
    ensures IntervalStep(s, input.evt, input.random, NiRuns.Act(s, input))
  {
    if s.state == CLOSE {
      OpenIntervalStep(s, input.evt, input.Begin(), input.random);
    } else {
      LaterIntervalStep(s, input.evt, input.Begin(), input.random);
    }
  }

  /** AUCTIONING begins with the refresh timer; only a refresh cycle with a success takes it up again. */
  predicate Refreshes(s: Ni, evt: Event) {
    || (s.state == PENDING_INSTALLING && evt.ApiInstall? && |s.installRule.requests| == |evt.installed|
        && evt != Timer(s.responseTimer))
    || (s.state == AUCTIONING && s.lastRefresh.Some? && evt.Answers(s.lastRefresh.value) && evt.packet.msg.IsSuccess()
        && s.lifetime > 0)
  }

  predicate RefreshTimerStep(s: Ni, evt: Event, from: TimerId, o: Outcome<Ni>) {
    o.Next? ==>
      if Refreshes(s, evt) then
        o.s.state == AUCTIONING && o.s.refreshTimer == from && o.ctx.log == [Started(from, s.refreshInterval)]
      else o.s.refreshTimer == s.refreshTimer
  }

  lemma ActRefreshTimerStep(s: Ni, input: Input)
    ensures RefreshTimerStep(s, input.evt, input.ctx.nextTimer, NiRuns.Act(s, input))
  {
  }

  // Whole runs

  /** The interval of a session in a run: as it was asked for, and from the answer on as the path has granted it. */
  ghost predicate IntervalHistory(t: Trace<Ni>, inputs: seq<Input>, maxRetries: uint32) {
    && |t.states| == |inputs| + 1 && t.Last().maxRetries == maxRetries
    && (t.Last().state == CLOSE && inputs == [] ==> t.Last().lifetime == 0)
    && (t.Last().state != CLOSE ==> inputs != [] && inputs[0].evt.ApiCreate?)
    && match t.Last().state
       case CLOSE => true
       case PENDING =>
         var asked := inputs[0].evt.lifetime;
         t.Last().lifetime == asked && t.Last().refreshInterval == RefreshInterval(asked, maxRetries)
       case _ => exists i :: 0 <= i < |inputs| && GrantedAt(t, inputs, i, maxRetries)
  }

  predicate GrantedAt(t: Trace<Ni>, inputs: seq<Input>, i: nat, maxRetries: uint32)
    requires |t.states| == |inputs| + 1 && i < |inputs|
  {
    && Grants(t.states[i], inputs[i].evt) && inputs[0].evt.ApiCreate?
    && var granted := inputs[i].evt.packet.msg.lifetime.GetOr(0);
       && (t.Last().lifetime == granted || t.Last().lifetime == 0)
       && t.Last().refreshInterval == Interval(inputs[0].evt.lifetime, granted, maxRetries)
  }

  /** Which state follows which. */
  predicate StateStep(s: Ni, evt: Event, o: Outcome<Ni>) {
    o.Next? ==>
      match o.s.state
      case CLOSE => true
      case PENDING => (s.state == PENDING && !Grants(s, evt)) || (s.state == CLOSE && evt.ApiCreate? && evt.lifetime + s.lifetime > 0)
      case PENDING_INSTALLING => s.state == PENDING_INSTALLING || Grants(s, evt)
      case AUCTIONING => s.state == AUCTIONING || s.state == PENDING_INSTALLING
      case PENDING_TEARDOWN => s.state == PENDING_TEARDOWN || s.state == AUCTIONING
  }

  lemma OpenStateStep(s: Ni, evt: Event, ctx: Ctx, random: nat)
    requires s.state == CLOSE
    ensures StateStep(s, evt, Step(s, evt, ctx, random))
  {
    if evt.ApiCreate? {
      NiTheorems.RefreshIntervalIsLeast(if evt.lifetime != 0 then evt.lifetime else s.lifetime, s.maxRetries);
    }
  }

  lemma PendingStateStep(s: Ni, evt: Event, ctx: Ctx, random: nat)
    requires s.state == PENDING
    ensures StateStep(s, evt, Step(s, evt, ctx, random))
  {
  }

  lemma LateStateStep(s: Ni, evt: Event, ctx: Ctx, random: nat)
    requires s.state != CLOSE && s.state != PENDING
    ensures StateStep(s, evt, Step(s, evt, ctx, random))
  {
  }

  /** All that one event has to do with the interval. */
  predicate HistoryStep(s: Ni, input: Input, o: Outcome<Ni>) {
    && IntervalStep(s, input.evt, input.random, o) && StateStep(s, input.evt, o)
  }

  lemma ActHistoryStep(s: Ni, input: Input)
    ensures HistoryStep(s, input, NiRuns.Act(s, input))
  {
    ActIntervalStep(s, input);
    if s.state == CLOSE {
      OpenStateStep(s, input.evt, input.Begin(), input.random);
    } else if s.state == PENDING {
      PendingStateStep(s, input.evt, input.Begin(), input.random);
    } else {
      LateStateStep(s, input.evt, input.Begin(), input.random);
    }
  }

  lemma HistoryGrows(t: Trace<Ni>, inputs: seq<Input>, input: Input, o: Outcome<Ni>, maxRetries: uint32)
    requires IntervalHistory(t, inputs, maxRetries) && (inputs != [] ==> t.Last().state != CLOSE) && o.Next?
    requires HistoryStep(t.Last(), input, o)
    ensures IntervalHistory(t.Extend(o), inputs + [input], maxRetries)
  {
    var t', inputs' := t.Extend(o), inputs + [input];
    var n := |inputs|;
    assert t'.states[n] == t.Last() && inputs'[n] == input && t'.Last() == o.s;
    if Grants(t.Last(), input.evt) {
      assert o.s.state != CLOSE && o.s.state != PENDING ==> GrantedAt(t', inputs', n, maxRetries);
    } else if i :| 0 <= i < n && GrantedAt(t, inputs, i, maxRetries) {
      assert t'.states[i] == t.states[i] && inputs'[i] == inputs[i] && inputs'[0] == inputs[0];
      assert t.Last().state != CLOSE ==> GrantedAt(t', inputs', i, maxRetries);
    }
  }

  /** In every run the interval is that of the lifetime asked for, or two thirds of the one that the path has granted. */
  lemma {:induction false} IntervalIsKept(cfg: Config, msn: uint32, teardownCounter: uint32, inputs: seq<Input>)
    ensures var t := Run(NiRuns.Act, NiRuns.IsFinal, Initial(cfg, msn, teardownCounter), inputs);
            t.Some? ==> IntervalHistory(t.value, inputs, cfg.niMaxRetries)
  {
    var s := Initial(cfg, msn, teardownCounter);
    if inputs != [] && Run(NiRuns.Act, NiRuns.IsFinal, s, inputs).Some? {
      var shorter, input := inputs[..|inputs| - 1], inputs[|inputs| - 1];
      IntervalIsKept(cfg, msn, teardownCounter, shorter);
      var t := Run(NiRuns.Act, NiRuns.IsFinal, s, shorter).value;
      assert shorter == [] ==> t == Trace([s], []);
      ActHistoryStep(t.Last(), input);
      HistoryGrows(t, shorter, input, NiRuns.Act(t.Last(), input), cfg.niMaxRetries);
      assert inputs == shorter + [input];
    }
  }
}
