/** The response timer of a forwarder: what restarts it, and when its message tears the session down. */
module NfTimers {
  import opened Bytes
  import opened Protocol
  import opened Runs
  import opened SerialNumber
  import opened NfSpec
  import NfRuns

  /** A REFRESH whose number is greater than that of the session. */
  predicate AcceptsRefresh(s: Nf, evt: Event) {
    s.state == AUCTIONING && evt.Is(REFRESH) && IsGreaterThan(evt.packet.msg.msn.GetOr(0), s.msn)
  }

  /** The events that start the response timer: an accepted REFRESH, and the success of the CREATE. */
  predicate Restarts(s: Nf, evt: Event) {
    AcceptsRefresh(s, evt) || NfRuns.Confirms(s, evt)
  }

  /** The session is torn down: it leaves AUCTIONING, or the installer throws and the dispatcher removes it. */
  predicate Leaves(o: Outcome<Nf>) {
    o.Threw? || (o.Next? && o.s.state != AUCTIONING)
  }

  // One event

  /** In AUCTIONING nothing but an accepted REFRESH changes the response timer; its answer in particular does not. */
  lemma ResponseTimerChanges(s: Nf, evt: Event, ctx: Ctx, cfg: Config)
    requires s.state == AUCTIONING && s.responseTimer < ctx.nextTimer
    ensures var o := Step(s, evt, ctx, cfg);
            o.Next? && o.s.state == AUCTIONING ==>
              && (o.s.responseTimer != s.responseTimer <==> AcceptsRefresh(s, evt))
              && (AcceptsRefresh(s, evt) ==> o.s.responseTimer == ctx.nextTimer)
  {
  }

  lemma TimerTearsDown(s: Nf, id: TimerId, ctx: Ctx, cfg: Config)
    requires s.state == AUCTIONING
    ensures Leaves(Step(s, Timer(id), ctx, cfg)) <==> id == s.responseTimer || id == s.stateTimer
  {
  }

  /** The answer to a REFRESH does not stop the timer that the REFRESH has started: its message tears the session down. */
  lemma AnsweredRefreshStillExpires(s: Nf, p: Packet, answer: Packet, first: Ctx, second: Ctx, third: Ctx, cfg: Config)
    requires AcceptsRefresh(s, MsgIn(p, false)) && Min(p.msg.lifetime.GetOr(0), s.maxLifetime) > 0
    requires MsgIn(answer, false).Answers(p) && answer.msg.IsSuccess() && first.nextTimer < second.nextTimer
    ensures var o := Step(s, MsgIn(p, false), first, cfg);
            && o.Next?
            && var o' := Step(o.s, MsgIn(answer, false), second, cfg);
               && o'.Next? && o'.s.state == AUCTIONING && Sent(answer) in o'.ctx.log
               && Leaves(Step(o'.s, Timer(first.nextTimer), third, cfg))
  {
    var o := Step(s, MsgIn(p, false), first, cfg);
    var o' := Step(o.s, MsgIn(answer, false), second, cfg);
    assert o'.ctx.log[|second.log|] == Sent(answer);
    TimerTearsDown(o'.s, first.nextTimer, third, cfg);
  }

  // Whole runs

  /** Timer `t` is still the response timer, or a later one has taken its place; it never is the state timer. */
  predicate Tracks(s: Nf, t: TimerId, restarted: bool) {
    s.state == CLOSE || s.state == PENDING_TEARDOWN
    || (s.stateTimer != t && if restarted then s.responseTimer > t else s.responseTimer == t)
  }

  predicate TrackStep(s: Nf, evt: Event, t: TimerId, o: Outcome<Nf>) {
    o.Next? ==>
      && (Tracks(s, t, true) ==> Tracks(o.s, t, true))
      && (Tracks(s, t, false) ==> Tracks(o.s, t, Restarts(s, evt)))
  }

  lemma CreateTrackStep(s: Nf, p: Packet, forThisNode: bool, t: TimerId, ctx: Ctx, cfg: Config, passOn: bool)
    requires t < ctx.nextTimer && s.state != AUCTIONING && s.state != CLOSE && s.state != PENDING_TEARDOWN
    requires p.msg.kind == CREATE
    ensures TrackStep(s, MsgIn(p, forThisNode), t, StepCreateAgain(s, p, ctx, cfg, passOn))
  {
  }

  lemma PendingTrackStep(s: Nf, evt: Event, t: TimerId, ctx: Ctx, cfg: Config)
    requires t < ctx.nextTimer && !evt.Is(CREATE)
    requires s.state == PENDING_CHECK || s.state == PENDING || s.state == PENDING_INSTALLING
    ensures TrackStep(s, evt, t, Step(s, evt, ctx, cfg))
  {
  }

  lemma AuctioningTrackStep(s: Nf, evt: Event, t: TimerId, ctx: Ctx, cfg: Config)
    requires t < ctx.nextTimer && (s.state == AUCTIONING || s.state == PENDING_TEARDOWN)
    ensures TrackStep(s, evt, t, Step(s, evt, ctx, cfg))
  {
  }

  lemma ActTrackStep(s: Nf, input: Input, t: TimerId, cfg: Config)
    requires t < input.ctx.nextTimer && s.state != CLOSE
    ensures TrackStep(s, input.evt, t, NfRuns.Act(cfg)(s, input))
  {
    var evt, ctx := input.evt, input.Begin();
    if s.state == AUCTIONING || s.state == PENDING_TEARDOWN {
      AuctioningTrackStep(s, evt, t, ctx, cfg);
    } else if evt.Is(CREATE) {
      CreateTrackStep(s, evt.packet, evt.forThisNode, t, ctx, cfg, s.state != PENDING_CHECK);
    } else {
      PendingTrackStep(s, evt, t, ctx, cfg);
    }
  }

  /** Some event of a run has started the response timer anew. */
  ghost predicate Restarted(t: Trace<Nf>, inputs: seq<Input>)
    requires |t.states| == |inputs| + 1
  {
    exists i :: 0 <= i < |inputs| && Restarts(t.states[i], inputs[i].evt)
  }

  lemma RestartedExtends(t: Trace<Nf>, inputs: seq<Input>, input: Input, o: Outcome<Nf>)
    requires |t.states| == |inputs| + 1 && o.Next?
    ensures Restarted(t.Extend(o), inputs + [input]) <==> Restarted(t, inputs) || Restarts(t.Last(), input.evt)
  {
    var t', inputs' := t.Extend(o), inputs + [input];
    assert forall i :: 0 <= i < |inputs| ==> t'.states[i] == t.states[i] && inputs'[i] == inputs[i];
    assert t'.states[|inputs|] == t.Last() && inputs'[|inputs|] == input;
    if i :| 0 <= i < |inputs| && Restarts(t.states[i], inputs[i].evt) {
      assert Restarts(t'.states[i], inputs'[i].evt);
    }
  }

  lemma {:induction false} RunTracks(s: Nf, inputs: seq<Input>, t: TimerId, cfg: Config)
    requires s.state != CLOSE && Tracks(s, t, false) && forall i :: 0 <= i < |inputs| ==> t < inputs[i].ctx.nextTimer
    ensures var r := Run(NfRuns.Act(cfg), NfRuns.IsFinal, s, inputs);
            r.Some? ==> Tracks(r.value.Last(), t, Restarted(r.value, inputs))
  {
    if inputs != [] && Run(NfRuns.Act(cfg), NfRuns.IsFinal, s, inputs).Some? {
      var shorter, input := inputs[..|inputs| - 1], inputs[|inputs| - 1];
      RunTracks(s, shorter, t, cfg);
      var r := Run(NfRuns.Act(cfg), NfRuns.IsFinal, s, shorter).value;
      assert shorter == [] ==> r == Trace([s], []);
      ActTrackStep(r.Last(), input, t, cfg);
      RestartedExtends(r, shorter, input, NfRuns.Act(cfg)(r.Last(), input));
      assert inputs == shorter + [input];
    }
  }

  /**
   * After any run from a session whose response timer is `t`: the message of `t` tears the auctioning session down exactly
   * when no event has started the timer anew. Timers that are started later have greater ids.
   */
  lemma ExpiresUnlessRestarted(s: Nf, inputs: seq<Input>, t: TimerId, ctx: Ctx, cfg: Config)
    requires s.state != CLOSE && s.responseTimer == t && s.stateTimer != t
    requires forall i :: 0 <= i < |inputs| ==> t < inputs[i].ctx.nextTimer
    ensures var r := Run(NfRuns.Act(cfg), NfRuns.IsFinal, s, inputs);
            r.Some? && r.value.Last().state == AUCTIONING ==>
              (Leaves(Step(r.value.Last(), Timer(t), ctx, cfg)) <==> !Restarted(r.value, inputs))
  {
    RunTracks(s, inputs, t, cfg);
    var r := Run(NfRuns.Act(cfg), NfRuns.IsFinal, s, inputs);
    if r.Some? && r.value.Last().state == AUCTIONING {
      TimerTearsDown(r.value.Last(), t, ctx, cfg);
    }
  }

  /** So it is with the timer that an accepted REFRESH has started, whether or not the REFRESH is answered. */
  lemma RefreshTimerExpires(s: Nf, p: Packet, first: Ctx, inputs: seq<Input>, ctx: Ctx, cfg: Config)
    requires AcceptsRefresh(s, MsgIn(p, false)) && s.stateTimer < first.nextTimer
    requires forall i :: 0 <= i < |inputs| ==> first.nextTimer < inputs[i].ctx.nextTimer
    ensures var o := Step(s, MsgIn(p, false), first, cfg);
            && o.Next?
            && var r := Run(NfRuns.Act(cfg), NfRuns.IsFinal, o.s, inputs);
               r.Some? && r.value.Last().state == AUCTIONING ==>
                 (Leaves(Step(r.value.Last(), Timer(first.nextTimer), ctx, cfg)) <==> !Restarted(r.value, inputs))
  {
    var o := Step(s, MsgIn(p, false), first, cfg);
    ExpiresUnlessRestarted(o.s, inputs, first.nextTimer, ctx, cfg);
  }

  /** And with the timer that the success of the CREATE has started. */
  lemma CreateTimerExpires(s: Nf, evt: Event, first: Ctx, inputs: seq<Input>, ctx: Ctx, cfg: Config)
    requires NfRuns.Confirms(s, evt) && first.verdict.Accepts?
    requires forall i :: 0 <= i < |inputs| ==> first.nextTimer < inputs[i].ctx.nextTimer
    ensures var o := Step(s, evt, first, cfg);
            && o.Next?
            && var r := Run(NfRuns.Act(cfg), NfRuns.IsFinal, o.s, inputs);
               r.Some? && r.value.Last().state == AUCTIONING ==>
                 (Leaves(Step(r.value.Last(), Timer(first.nextTimer), ctx, cfg)) <==> !Restarted(r.value, inputs))
  {
    var o := Step(s, evt, first, cfg);
    ExpiresUnlessRestarted(o.s, inputs, first.nextTimer, ctx, cfg);
  }
}
