/** A declined address stays out of circulation while the client its record names is
    silent, and exactly when that client cuts the quarantine short. */
module Quarantine {
  import opened Prelude
  import opened Addr
  import opened Scopes
  import opened Leases
  import opened Tables
  import opened Allocation
  import opened Server
  import opened Effects
  import opened Admin
  import opened Exclusivity

  // ----- While the named client is silent -----

  /** A declined record that lasts at least until `until`. */
  ghost predicate Quarantined(t: Table, k: Slot, until: UnixTime) {
    k in t.leases && t.leases[k].state == Declined && t.leases[k].expiresAt >= until
  }

  /** The event may happen while `k` is in quarantine without ending it: no change of
      configuration, no removal of the record, and no message from the client the
      record names. */
  ghost predicate Tolerated(sys: Sys, ev: Event, k: Slot) {
    && KeepsConfig(ev)
    && (ev.Revoke? ==> Slot(ev.scope, ev.ip) != k)
    && (ev.Packet? && k in sys.table.leases ==> ClientIdOf(ev.msg) != Some(sys.table.leases[k].client))
  }

  lemma {:induction false} QuarantineSurvivesPacket(
      scopes: seq<Scope>, t: Table, msg: Message, ctx: Ctx, s: Scope, k: Slot, from: UnixTime)
    requires Consistent(t) && UniqueIds(scopes) && s in scopes && s.id == k.scope
    requires from <= ctx.now < from + s.declineQuarantineSecs
    requires Quarantined(t, k, from + s.declineQuarantineSecs)
    requires ClientIdOf(msg) != Some(t.leases[k].client)
    ensures Quarantined(Handle(scopes, t, msg, ctx).0, k, from + s.declineQuarantineSecs)
  {
    if !Declines(msg, k.ip) {
      StrangerDisturbsIff(scopes, t, msg, ctx, k);
    } else {
      var served, a := HandleActs(scopes, t, msg, ctx);
      match a {
        case Keep =>
        case Take(l) =>
          AtInsert(t, l, k);
          SelectedScopeServes(scopes, msg, ctx, served.value);
          if SlotOf(l) == k {
            SameIdSameScope(scopes, s, served.value);
          }
        case GiveBack(g) => AtRemove(t, g.scope, g.ip, k);
      }
    }
  }

  lemma {:induction false} QuarantineSurvivesStep(sys: Sys, e: Timed, s: Scope, k: Slot, from: UnixTime)
    requires Consistent(sys.table) && UniqueIds(sys.scopes) && s in sys.scopes && s.id == k.scope
    requires from <= e.now < from + s.declineQuarantineSecs
    requires Quarantined(sys.table, k, from + s.declineQuarantineSecs) && Tolerated(sys, e.event, k)
    ensures Step(sys, e).scopes == sys.scopes
    ensures Quarantined(Step(sys, e).table, k, from + s.declineQuarantineSecs)
  {
    StepTable(sys, e);
    match e.event {
      case Packet(msg, _, _) =>
        QuarantineSurvivesPacket(sys.scopes, sys.table, msg, CtxOf(e), s, k, from);
      case ReapTick => AtReap(sys.table, e.now, k);
      case Revoke(scope, ip) => AtRemove(sys.table, scope, ip, k);
    }
  }

  /** Event `i` of the run happens within the quarantine and does not end it. */
  ghost predicate ToleratedAt(sys: Sys, es: seq<Timed>, i: nat, s: Scope, k: Slot, from: UnixTime)
    requires i < |es|
  {
    from <= es[i].now < from + s.declineQuarantineSecs && Tolerated(After(sys, es, i), es[i].event, k)
  }

  lemma {:induction false} QuarantineSurvivesRun(sys: Sys, es: seq<Timed>, s: Scope, k: Slot, from: UnixTime, n: nat)
    requires Consistent(sys.table) && UniqueIds(sys.scopes) && s in sys.scopes && s.id == k.scope
    requires n <= |es|
    requires Quarantined(sys.table, k, from + s.declineQuarantineSecs)
    requires forall i :: 0 <= i < n ==> ToleratedAt(sys, es, i, s, k, from)
    ensures After(sys, es, n).scopes == sys.scopes
    ensures Consistent(After(sys, es, n).table)
    ensures Quarantined(After(sys, es, n).table, k, from + s.declineQuarantineSecs)
  {
    hide Step, Consistent, Quarantined, UniqueIds;
    if n == 0 {
    } else {
      QuarantineSurvivesRun(sys, es, s, k, from, n - 1);
      assert ToleratedAt(sys, es, n - 1, s, k, from);
      StepConsistent(After(sys, es, n - 1), es[n - 1]);
      QuarantineSurvivesStep(After(sys, es, n - 1), es[n - 1], s, k, from);
    }
  }

  /** After a DECLINE no OFFER or ACK hands the address out before the quarantine is
      over, on any run in which the clock does not go back, the configuration stays, the
      record is not revoked, and the client the record names says nothing more; except to
      a client the address is reserved for. Reaping does not cut it short. */
  lemma {:induction false} DeclineQuarantines(sys: Sys, decline: Timed, s: Scope, es: seq<Timed>, i: nat)
    requires Consistent(sys.table) && UniqueIds(sys.scopes)
    requires decline.event.Packet? && decline.event.msg.kind == Some(Decline)
    requires decline.event.msg.requestedIp.Some? && ClientIdOf(decline.event.msg).Some?
    requires Served(sys.scopes, decline.event.msg, CtxOf(decline), s, ClientIdOf(decline.event.msg).value)
    requires i < |es| && es[i].event.Packet?
    requires var k := Slot(s.id, decline.event.msg.requestedIp.value);
      forall j :: 0 <= j <= i ==>
        ToleratedAt(Step(sys, decline), es, j, s, k, decline.now)
    ensures var ip := decline.event.msg.requestedIp.value;
      Hands(Answer(After(Step(sys, decline), es, i), es[i]), s.id, ip) ==>
        && ClientIdOf(es[i].event.msg).Some?
        && ReservedFor(sys.scopes, Slot(s.id, ip), ClientIdOf(es[i].event.msg).value)
  {
    var k := Slot(s.id, decline.event.msg.requestedIp.value);
    DeclineStartsQuarantine(sys, decline, s);
    var start := Step(sys, decline);
    QuarantineSurvivesRun(start, es, s, k, decline.now, i);
    assert ToleratedAt(start, es, i, s, k, decline.now);
    HeldIsNotHanded(After(start, es, i), es[i], k);
  }

  lemma {:induction false} DeclineStartsQuarantine(sys: Sys, decline: Timed, s: Scope)
    requires Consistent(sys.table)
    requires decline.event.Packet? && decline.event.msg.kind == Some(Decline)
    requires decline.event.msg.requestedIp.Some? && ClientIdOf(decline.event.msg).Some?
    requires Served(sys.scopes, decline.event.msg, CtxOf(decline), s, ClientIdOf(decline.event.msg).value)
    ensures s in sys.scopes
    ensures var next := Step(sys, decline);
      && next.scopes == sys.scopes && Consistent(next.table)
      && Quarantined(next.table, Slot(s.id, decline.event.msg.requestedIp.value), decline.now + s.declineQuarantineSecs)
  {
    SelectedScopeServes(sys.scopes, decline.event.msg, CtxOf(decline), s);
    StepConsistent(sys, decline);
  }

  // ----- When the named client speaks -----

  /** The address is quarantined under the client's name. */
  ghost predicate Declared(t: Table, k: Slot, client: ClientId) {
    At(t, k).Some? && t.leases[k].client == client && t.leases[k].state == Declined
  }

  /** There is another address for the client: its reservation, if it has one and can
      take it, or else any address of the pool. */
  ghost predicate HasAlternative(s: Scope, t: Table, q: Query, ip: Ip) {
    match s.ReservationFor(q.client)
    case Some(r) => r.ip != ip && Usable(s, t, q, r.ip)
    case None => exists a :: Obtainable(s, t, q, a)
  }

  /** The message makes the client let go of the address it declined. */
  ghost predicate LetsGo(s: Scope, t: Table, msg: Message, client: ClientId, ctx: Ctx, ip: Ip) {
    || (Allocates(s, msg, ctx) && HasAlternative(s, t, QueryOf(msg, client, ctx), ip))
    || (msg.kind == Some(Decline) && msg.requestedIp.Some? && msg.requestedIp.value != ip)
    || (msg.kind == Some(Release) && msg.ciaddr == ip && ip != UNSPECIFIED)
  }

  lemma {:induction false} AllocationEndsQuarantine(s: Scope, t: Table, q: Query, tmpl: Lease, ip: Ip)
    requires Consistent(t) && IsTemplate(tmpl, s, q) && tmpl.state != Declined
    requires Declared(t, Slot(s.id, ip), q.client)
    ensures Declared(Recorded(s, t, q, tmpl), Slot(s.id, ip), q.client) <==> !HasAlternative(s, t, q, ip)
    ensures HasAlternative(s, t, q, ip) ==> At(Recorded(s, t, q, tmpl), Slot(s.id, ip)).None?
  {
    var k := Slot(s.id, ip);
    assert HolderOf(t.leases[k]) == Holder(s.id, q.client);
    forall a
      ensures !MayKeep(s, t, q, a)
    {
      if At(t, Slot(s.id, a)).Some? && t.leases[Slot(s.id, a)].client == q.client {
        assert HolderOf(t.leases[Slot(s.id, a)]) == Holder(s.id, q.client);
      }
    }
    PickNoneIffExhausted(s, t, q);
    if Pick(s, t, q).Some? {
      var g := Pick(s, t, q).value.ip;
      PickIsPriority(s, t, q, g);
      AtInsert(t, tmpl.(ip := g), k);
    }
  }

  /** A message of the client named in the record leaves the address in quarantine unless
      it makes the client let go: by obtaining another address, declining another one, or
      releasing this one. */
  lemma {:induction false} NamedClientEndsQuarantineIff(
      scopes: seq<Scope>, t: Table, msg: Message, ctx: Ctx, s: Scope, client: ClientId, ip: Ip)
    requires Consistent(t) && Served(scopes, msg, ctx, s, client)
    requires Declared(t, Slot(s.id, ip), client)
    ensures Declared(Handle(scopes, t, msg, ctx).0, Slot(s.id, ip), client) <==>
      !LetsGo(s, t, msg, client, ctx, ip)
  {
    hide Recorded, Pick, Obtainable, UsableBy, HasAlternative;
    var k := Slot(s.id, ip);
    assert HolderOf(t.leases[k]) == Holder(s.id, client);
    match msg.kind.value {
      case Discover =>
        AllocationEndsQuarantine(s, t, DiscoverQuery(msg, client, ctx), OfferLease(s, msg, client, ctx), ip);
      case Request =>
        if Allocates(s, msg, ctx) {
          AllocationEndsQuarantine(s, t, RequestQuery(msg, client, ctx), BoundLease(s, t, msg, client, ctx), ip);
        }
      case Decline =>
        if msg.requestedIp.Some? {
          AtInsert(t, DeclinedLease(s, msg.requestedIp.value, client, ctx), k);
        }
      case Release => AtRemove(t, s.id, msg.ciaddr, k);
      case _ =>
    }
  }

  /** A quarantine is not kept for its full length. Once the client that declined an
      address has been given another one, the declined address is offered at once to any
      newcomer that asks for it, however much of the quarantine was left. */
  lemma {:induction false} DeclinerFreesAddress(
      scopes: seq<Scope>, t: Table, s: Scope, ip: Ip,
      decliner: Message, d: ClientId, ctx: Ctx, newcomer: Message, e: ClientId, later: Ctx)
    requires Consistent(t) && Declared(t, Slot(s.id, ip), d)
    requires Served(scopes, decliner, ctx, s, d) && decliner.kind == Some(Discover)
    requires HasAlternative(s, t, DiscoverQuery(decliner, d, ctx), ip)
    requires Served(scopes, newcomer, later, s, e) && newcomer.kind == Some(Discover)
    requires s.ReservationFor(e).None? && e != d && Holder(s.id, e) !in t.index
    requires newcomer.requestedIp == Some(ip) && Eligible(s, DiscoverQuery(newcomer, e, later), ip)
    ensures IsOfferOf(Handle(scopes, Handle(scopes, t, decliner, ctx).0, newcomer, later).1, ip)
  {
    hide SelectScope, Pick, HasAlternative, Eligible, Scope.IsPoolable;
    assert Handle(scopes, t, decliner, ctx).0 == OnDiscover(s, t, decliner, d, ctx).0;
    DeclinerFreesSlot(s, t, ip, decliner, d, ctx, newcomer, e, later);
  }

  lemma {:induction false} DeclinerFreesSlot(
      s: Scope, t: Table, ip: Ip, decliner: Message, d: ClientId, ctx: Ctx, newcomer: Message, e: ClientId, later: Ctx)
    requires Consistent(t) && Declared(t, Slot(s.id, ip), d)
    requires HasAlternative(s, t, DiscoverQuery(decliner, d, ctx), ip)
    requires s.ReservationFor(e).None? && e != d && Holder(s.id, e) !in t.index
    requires newcomer.requestedIp == Some(ip) && Eligible(s, DiscoverQuery(newcomer, e, later), ip)
    ensures IsOfferOf(OnDiscover(s, OnDiscover(s, t, decliner, d, ctx).0, newcomer, e, later).1, ip)
  {
    var q := DiscoverQuery(decliner, d, ctx);
    var tmpl := OfferLease(s, decliner, d, ctx);
    AllocationEndsQuarantine(s, t, q, tmpl, ip);
    var a := AllocationActs(s, t, q, tmpl);
    PerformConsistent(t, a);
    var t' := Recorded(s, t, q, tmpl);
    var q' := DiscoverQuery(newcomer, e, later);
    forall other
      ensures !MayKeep(s, t', q', other)
    {
      if a.Take? {
        AtInsert(t, a.lease, Slot(s.id, other));
      }
    }
    PickIsPriority(s, t', q', ip);
  }
}
