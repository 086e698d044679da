/** The keys of a node: every object in every rule stands under a key that was given out once. */
module SystemKeys {
  import opened Bytes
  import opened Protocol
  import opened SessionIds
  import Ni = NiSpec
  import Nf = NfSpec
  import Nr = NrSpec
  import opened SystemSpec
  import SystemRuns

  /** All keys of a rule were given out before `next`. */
  predicate Below(rule: Rule, next: Key) {
    (forall k :: k in rule.requests ==> k < next) && (forall k :: k in rule.responses ==> k < next)
  }

  lemma AssignIsBelow(from: Key, objects: seq<Payload>)
    ensures forall k :: k in Assign(from, objects) ==> from <= k < from + |objects|
  {
  }

  lemma BelowMore(rule: Rule, next: Key, more: Key)
    requires Below(rule, next) && next <= more
    ensures Below(rule, more)
  {
  }

  /** Objects that are installed are added: none that stands in the rule is overwritten. */
  lemma InstallAdds(rule: Rule, from: Key, installed: Objects)
    requires Below(rule, from)
    ensures var rule' := rule.(responses := Install(rule.responses, from, installed));
            && Below(rule', from + |installed|) && |rule'.responses| == |rule.responses| + |installed|
            && (forall k :: k in rule.responses ==> k in rule'.responses && rule'.responses[k] == rule.responses[k])
  {
    var added := Assign(from, Listing(installed));
    AssignIsBelow(from, Listing(installed));
    assert rule.responses.Keys !! added.Keys;
    assert (rule.responses + added).Keys == rule.responses.Keys + added.Keys;
    assert |added| == |added.Keys| && |rule.responses| == |rule.responses.Keys|;
  }

  // One event

  predicate NiBelow(s: Ni.Ni, next: Key) {
    Below(s.rule, next) && Below(s.installRule, next)
  }

  predicate NiInOrder(from: Key, o: Outcome<Ni.Ni>) {
    !o.Halted? ==> from <= o.ctx.nextKey && (o.Next? ==> NiBelow(o.s, o.ctx.nextKey))
  }

  lemma NiPendingBelow(s: Ni.Ni, evt: Event, ctx: Ctx, random: nat)
    requires NiBelow(s, ctx.nextKey) && s.state == Ni.PENDING
    ensures NiInOrder(ctx.nextKey, Ni.Step(s, evt, ctx, random))
  {
    if evt.MsgIn? {
      AssignIsBelow(ctx.nextKey, evt.packet.msg.objects);
    }
  }

  lemma AbandonBelow(s: Ni.Ni, ctx: Ctx)
    requires NiBelow(s, ctx.nextKey)
    ensures NiInOrder(ctx.nextKey, Ni.Abandon(s, ctx))
  {
  }

  lemma InstalledRule(s: Ni.Ni, installed: Objects, ctx: Ctx)
    requires |s.installRule.requests| == |installed|
    ensures var o := Ni.StepPendingInstalling(s, ApiInstall(installed), ctx);
            && o.Next? && o.ctx.nextKey == ctx.nextKey + |installed| && o.s.installRule == s.installRule
            && o.s.rule == s.installRule.(responses := Install(s.installRule.responses, ctx.nextKey, installed))
  {
  }

  lemma NiInstalledBelow(s: Ni.Ni, installed: Objects, ctx: Ctx)
    requires NiBelow(s, ctx.nextKey)
    ensures NiInOrder(ctx.nextKey, Ni.StepPendingInstalling(s, ApiInstall(installed), ctx))
  {
    if |s.installRule.requests| == |installed| {
      InstallAdds(s.installRule, ctx.nextKey, installed);
      BelowMore(s.installRule, ctx.nextKey, ctx.nextKey + |installed|);
      InstalledRule(s, installed, ctx);
    } else {
      AbandonBelow(s.(rule := EMPTY_RULE), ctx);
    }
  }

  lemma NiWaitingBelow(s: Ni.Ni, evt: Event, ctx: Ctx)
    requires NiBelow(s, ctx.nextKey) && !evt.ApiInstall?
    ensures NiInOrder(ctx.nextKey, Ni.StepPendingInstalling(s, evt, ctx))
  {
  }

  lemma NiInstallingBelow(s: Ni.Ni, evt: Event, ctx: Ctx, random: nat)
    requires NiBelow(s, ctx.nextKey) && s.state == Ni.PENDING_INSTALLING
    ensures NiInOrder(ctx.nextKey, Ni.Step(s, evt, ctx, random))
  {
    if evt.ApiInstall? {
      NiInstalledBelow(s, evt.installed, ctx);
    } else {
      NiWaitingBelow(s, evt, ctx);
    }
  }

  lemma NiOtherBelow(s: Ni.Ni, evt: Event, ctx: Ctx, random: nat)
    requires NiBelow(s, ctx.nextKey) && s.state != Ni.PENDING && s.state != Ni.PENDING_INSTALLING
    ensures NiInOrder(ctx.nextKey, Ni.Step(s, evt, ctx, random))
  {
    var o := Ni.Step(s, evt, ctx, random);
    assert !o.Halted? ==> o.ctx.nextKey == ctx.nextKey;
    assert o.Next? ==> o.s.rule == s.rule && o.s.installRule == s.installRule;
  }

  lemma NiStaysBelow(s: Ni.Ni, evt: Event, ctx: Ctx, random: nat)
    requires NiBelow(s, ctx.nextKey)
    ensures NiInOrder(ctx.nextKey, Ni.Step(s, evt, ctx, random))
  {
    if s.state == Ni.PENDING {
      NiPendingBelow(s, evt, ctx, random);
    } else if s.state == Ni.PENDING_INSTALLING {
      NiInstallingBelow(s, evt, ctx, random);
    } else {
      NiOtherBelow(s, evt, ctx, random);
    }
  }

  predicate NfInOrder(from: Key, o: Outcome<Nf.Nf>) {
    !o.Halted? ==> from <= o.ctx.nextKey && (o.Next? ==> Below(o.s.rule, o.ctx.nextKey))
  }

  lemma AcceptBelow(s: Nf.Nf, p: Packet, ctx: Ctx, cfg: Config)
    requires Below(s.rule, ctx.nextKey) && p.msg.kind == CREATE
    ensures NfInOrder(ctx.nextKey, Nf.Accept(s, p, ctx, cfg))
  {
    AssignIsBelow(ctx.nextKey, p.msg.objects);
  }

  lemma CreateBelow(s: Nf.Nf, p: Packet, ctx: Ctx, cfg: Config, passOn: bool)
    requires Below(s.rule, ctx.nextKey) && p.msg.kind == CREATE
    ensures NfInOrder(ctx.nextKey, Nf.StepCreateAgain(s, p, ctx, cfg, passOn))
  {
    AcceptBelow(s.(lifetime := p.msg.lifetime.GetOr(0), msn := p.msg.msn.GetOr(0)), p, ctx, cfg);
  }

  lemma NfOpenBelow(s: Nf.Nf, evt: Event, ctx: Ctx, cfg: Config)
    requires Below(s.rule, ctx.nextKey) && s.state == Nf.CLOSE
    ensures NfInOrder(ctx.nextKey, Nf.Step(s, evt, ctx, cfg))
  {
    if evt.Is(CREATE) {
      var p := evt.packet;
      AcceptBelow(s.(maxLifetime := cfg.nfMaxLifetime, responseTimeout := cfg.nfMaxLifetime,
                     lifetime := Min(p.msg.lifetime.GetOr(0), cfg.nfMaxLifetime), msn := p.msg.msn.GetOr(0)), p, ctx, cfg);
    }
  }

  lemma NfInstallingBelow(s: Nf.Nf, installed: Objects, ctx: Ctx)
    requires Below(s.rule, ctx.nextKey)
    ensures NfInOrder(ctx.nextKey, Nf.StepInstalled(s, installed, ctx))
  {
    InstallAdds(s.rule, ctx.nextKey, installed);
  }

  lemma NfPendingBelow(s: Nf.Nf, evt: Event, ctx: Ctx, cfg: Config)
    requires Below(s.rule, ctx.nextKey) && !evt.Is(CREATE)
    requires s.state == Nf.PENDING_CHECK || s.state == Nf.PENDING || (s.state == Nf.PENDING_INSTALLING && !evt.ApiInstall?)
    ensures NfInOrder(ctx.nextKey, Nf.Step(s, evt, ctx, cfg))
  {
  }

  lemma NfLaterBelow(s: Nf.Nf, evt: Event, ctx: Ctx, cfg: Config)
    requires Below(s.rule, ctx.nextKey) && (s.state == Nf.AUCTIONING || s.state == Nf.PENDING_TEARDOWN)
    ensures NfInOrder(ctx.nextKey, Nf.Step(s, evt, ctx, cfg))
  {
    var o := Nf.Step(s, evt, ctx, cfg);
    assert !o.Halted? ==> o.ctx.nextKey == ctx.nextKey;
    assert o.Next? ==> o.s.rule == s.rule;
  }

  lemma NfStaysBelow(s: Nf.Nf, evt: Event, ctx: Ctx, cfg: Config)
    requires Below(s.rule, ctx.nextKey)
    ensures NfInOrder(ctx.nextKey, Nf.Step(s, evt, ctx, cfg))
  {
    if s.state == Nf.CLOSE {
      NfOpenBelow(s, evt, ctx, cfg);
    } else if s.state == Nf.AUCTIONING || s.state == Nf.PENDING_TEARDOWN {
      NfLaterBelow(s, evt, ctx, cfg);
    } else if evt.Is(CREATE) {
      CreateBelow(s, evt.packet, ctx, cfg, s.state != Nf.PENDING_CHECK);
    } else if s.state == Nf.PENDING_INSTALLING && evt.ApiInstall? {
      NfInstallingBelow(s, evt.installed, ctx);
    } else {
      NfPendingBelow(s, evt, ctx, cfg);
    }
  }

  predicate NrInOrder(from: Key, o: Outcome<Nr.Nr>) {
    !o.Halted? ==> from <= o.ctx.nextKey && (o.Next? ==> Below(o.s.rule, o.ctx.nextKey))
  }

  lemma NrOpenBelow(s: Nr.Nr, evt: Event, ctx: Ctx, cfg: Config)
    requires Below(s.rule, ctx.nextKey) && s.state == Nr.CLOSE
    ensures NrInOrder(ctx.nextKey, Nr.Step(s, evt, ctx, cfg))
  {
    if evt.MsgIn? {
      AssignIsBelow(ctx.nextKey, evt.packet.msg.objects);
    }
  }

  lemma NrPendingBelow(s: Nr.Nr, evt: Event, ctx: Ctx, cfg: Config)
    requires Below(s.rule, ctx.nextKey) && s.state == Nr.PENDING
    ensures NrInOrder(ctx.nextKey, Nr.Step(s, evt, ctx, cfg))
  {
    if s.lastCreate.Some? {
      AssignIsBelow(ctx.nextKey, s.lastCreate.value.msg.objects);
    }
  }

  lemma NrInstallingBelow(s: Nr.Nr, evt: Event, ctx: Ctx, cfg: Config)
    requires Below(s.rule, ctx.nextKey) && s.state == Nr.PENDING_INSTALLING
    ensures NrInOrder(ctx.nextKey, Nr.Step(s, evt, ctx, cfg))
  {
    if evt.ApiInstall? {
      InstallAdds(s.rule, ctx.nextKey, evt.installed);
    }
  }

  lemma NrLaterBelow(s: Nr.Nr, evt: Event, ctx: Ctx, cfg: Config)
    requires Below(s.rule, ctx.nextKey) && (s.state == Nr.AUCTIONING || s.state == Nr.PENDING_TEARDOWN)
    ensures NrInOrder(ctx.nextKey, Nr.Step(s, evt, ctx, cfg))
  {
    var o := Nr.Step(s, evt, ctx, cfg);
    assert !o.Halted? ==> o.ctx.nextKey == ctx.nextKey;
    assert o.Next? ==> o.s.rule == s.rule;
  }

  lemma NrStaysBelow(s: Nr.Nr, evt: Event, ctx: Ctx, cfg: Config)
    requires Below(s.rule, ctx.nextKey)
    ensures NrInOrder(ctx.nextKey, Nr.Step(s, evt, ctx, cfg))
  {
    match s.state
    case CLOSE => NrOpenBelow(s, evt, ctx, cfg);
    case PENDING => NrPendingBelow(s, evt, ctx, cfg);
    case PENDING_INSTALLING => NrInstallingBelow(s, evt, ctx, cfg);
    case AUCTIONING => NrLaterBelow(s, evt, ctx, cfg);
    case PENDING_TEARDOWN => NrLaterBelow(s, evt, ctx, cfg);
  }

  // The node

  predicate SessionBelow(x: Session, next: Key) {
    match x
    case Initiator(s) => NiBelow(s, next)
    case Forwarder(s) => Below(s.rule, next)
    case Responder(s) => Below(s.rule, next)
  }

  ghost predicate AllBelow(sys: Sys) {
    forall sid :: sid in sys.table ==> SessionBelow(sys.table[sid].session, sys.nextKey)
  }

  lemma SessionStaysBelow(x: Session, evt: Event, ctx: Ctx, cfg: Config, random: nat)
    requires SessionBelow(x, ctx.nextKey)
    ensures var o := StepSession(x, evt, ctx, cfg, random);
            && (o.Next? ==> ctx.nextKey <= o.ctx.nextKey && SessionBelow(o.s, o.ctx.nextKey))
            && (o.Threw? ==> ctx.nextKey <= o.ctx.nextKey)
  {
    match x
    case Initiator(s) => NiStaysBelow(s, evt, ctx, random);
    case Forwarder(s) => NfStaysBelow(s, evt, ctx, cfg);
    case Responder(s) => NrStaysBelow(s, evt, ctx, cfg);
  }

  lemma SessionBelowMore(x: Session, next: Key, more: Key)
    requires SessionBelow(x, next) && next <= more
    ensures SessionBelow(x, more)
  {
  }

  lemma ConcludedStaysBelow(sys: Sys, sid: SessionId, o: Outcome<Session>)
    requires AllBelow(sys) && sid in sys.table
    requires !o.Halted? ==> sys.nextKey <= o.ctx.nextKey
    requires o.Next? ==> SessionBelow(o.s, o.ctx.nextKey)
    ensures var p := Concluded(sys, sid, o); p.Running? ==> AllBelow(p.sys) && sys.nextKey <= p.sys.nextKey
  {
    var p := Concluded(sys, sid, o);
    if p.Running? {
      forall id | id in p.sys.table ensures SessionBelow(p.sys.table[id].session, p.sys.nextKey) {
        if id != sid {
          SessionBelowMore(sys.table[id].session, sys.nextKey, p.sys.nextKey);
        }
      }
    }
  }

  lemma DeliverStaysBelow(sys: Sys, sid: SessionId, a: Arrival, cfg: Config)
    requires AllBelow(sys) && sid in sys.table
    ensures var p := Deliver(sys, sid, a, cfg); p.Running? ==> AllBelow(p.sys) && sys.nextKey <= p.sys.nextKey
  {
    var ctx := Ctx(sys.nextTimer, sys.nextKey, a.verdict, []);
    SessionStaysBelow(sys.table[sid].session, a.evt, ctx, cfg, a.random);
    ConcludedStaysBelow(sys, sid, StepSession(sys.table[sid].session, a.evt, ctx, cfg, a.random));
  }

  lemma ProcessStaysBelow(sys: Sys, a: Arrival, cfg: Config)
    requires AllBelow(sys) && Deliverable(sys, a)
    ensures var p := Process(sys, a, cfg); p.Running? ==> AllBelow(p.sys) && sys.nextKey <= p.sys.nextKey
  {
    if a.evt.RoutingStateCheck? || a.evt.BadMsgIn? {
    } else if a.sid.Some? && a.sid.value in sys.table {
      assert AllBelow(Taken(sys, a));
      DeliverStaysBelow(Taken(sys, a), a.sid.value, a, cfg);
    } else if Open(sys, a, cfg).Some? {
      var x := Open(sys, a, cfg).value;
      assert AllBelow(Insert(sys, x));
      DeliverStaysBelow(Insert(sys, x), x.sid, a, cfg);
    }
  }

  lemma {:induction false} RunStaysBelow(sys: Sys, arrivals: seq<Arrival>, cfg: Config)
    requires AllBelow(sys)
    ensures var t := SystemRuns.Run(sys, arrivals, cfg); t.Some? ==> AllBelow(t.value) && sys.nextKey <= t.value.nextKey
    decreases |arrivals|
  {
    if arrivals != [] && SystemRuns.Run(sys, arrivals, cfg).Some? {
      ProcessStaysBelow(sys, arrivals[0], cfg);
      RunStaysBelow(Process(sys, arrivals[0], cfg).sys, arrivals[1..], cfg);
    }
  }

  /** After any run from start-up every key in every rule is one that was given out, and none is given out again. */
  lemma KeysAreFresh(arrivals: seq<Arrival>, cfg: Config)
    ensures var t := SystemRuns.Run(EMPTY, arrivals, cfg); t.Some? ==> AllBelow(t.value)
  {
    RunStaysBelow(EMPTY, arrivals, cfg);
  }
}
