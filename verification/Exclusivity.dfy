/** Whole runs: a recorded lease keeps its address, and an OFFER is honoured. */
module Exclusivity {
  import opened Prelude
  import opened Addr
  import opened Scopes
  import opened Leases
  import opened Tables
  import opened Allocation
  import opened Server
  import opened Effects
  import opened Validation
  import opened Admin

  lemma {:induction false} StepConsistent(sys: Sys, e: Timed)
    requires Consistent(sys.table)
    ensures Consistent(Step(sys, e).table)
  {
    StepTable(sys, e);
    match e.event {
      case Packet(msg, _, _) => HandleConsistent(sys.scopes, sys.table, msg, CtxOf(e));
      case ReapTick => DropSlotsConsistent(sys.table, StaleSlots(sys.table, e.now));
      case Revoke(scope, ip) => RemoveConsistent(sys.table, scope, ip);
      case ScopeRemoved(id) => ClearScopeConsistent(sys.table, id);
      case ReservationAdded(id, r) => EvictConsistent(sys.table, id, r);
      case _ =>
    }
  }

  lemma {:induction false} EvictConsistent(t: Table, id: ScopeId, r: Reservation)
    requires Consistent(t)
    ensures Consistent(Evict(t, id, r))
  {
    RemoveConsistent(t, id, r.ip);
  }

  lemma {:induction false} RunConsistent(sys: Sys, es: seq<Timed>, n: nat)
    requires Consistent(sys.table) && n <= |es|
    ensures Consistent(After(sys, es, n).table)
  {
    hide Step;
    if n == 0 {
    } else {
      RunConsistent(sys, es, n - 1);
      StepConsistent(After(sys, es, n - 1), es[n - 1]);
    }
  }

  // ----- A lease is exclusive -----

  /** The event is none of those that may take a record at `k` away from its owner: in
      that scope a message of the owner or a DECLINE of the address, an administrative
      removal, or a reservation of the address for someone else. */
  predicate Spares(scopes: seq<Scope>, e: Timed, k: Slot, owner: ClientId) {
    match e.event
    case Packet(msg, _, _) =>
      Reaches(scopes, msg, CtxOf(e), k.scope) ==> ClientIdOf(msg) != Some(owner) && !Declines(msg, k.ip)
    case Revoke(scope, ip) => Slot(scope, ip) != k
    case ScopeRemoved(id) => id != k.scope
    case ReservationAdded(id, r) => !(id == k.scope && r.ip == k.ip && r.client != owner)
    case _ => true
  }

  /** Event `i` of the run leaves the record at `k` to its owner. */
  predicate SparedAt(sys: Sys, es: seq<Timed>, i: nat, k: Slot, owner: ClientId)
    requires i < |es|
  {
    Spares(After(sys, es, i).scopes, es[i], k, owner)
  }

  lemma {:induction false} RecordSurvivesStep(sys: Sys, e: Timed, k: Slot)
    requires Consistent(sys.table) && k in sys.table.leases
    requires sys.table.leases[k].state != Free && !sys.table.leases[k].IsExpired(e.now)
    requires Spares(sys.scopes, e, k, sys.table.leases[k].client)
    ensures At(Step(sys, e).table, k) == Some(sys.table.leases[k])
  {
    StepTable(sys, e);
    match e.event {
      case Packet(msg, _, _) =>
        if Reaches(sys.scopes, msg, CtxOf(e), k.scope) {
          StrangerDisturbsIff(sys.scopes, sys.table, msg, CtxOf(e), k);
        } else {
          OtherScopesUntouched(sys.scopes, sys.table, msg, CtxOf(e), k);
        }
      case ReapTick => AtReap(sys.table, e.now, k);
      case Revoke(scope, ip) => AtRemove(sys.table, scope, ip, k);
      case ScopeRemoved(id) => AtClearScope(sys.table, id, k);
      case ReservationAdded(id, r) => AtRemove(sys.table, id, r.ip, k);
      case _ =>
    }
  }

  /** While every clock reading is before its expiry, a record outlives any run of
      other clients' packets, reaps and unrelated administrative edits, unaltered. */
  lemma {:induction false} RecordSurvivesRun(sys: Sys, es: seq<Timed>, k: Slot, n: nat)
    requires Consistent(sys.table) && k in sys.table.leases && n <= |es|
    requires sys.table.leases[k].state != Free
    requires forall i :: 0 <= i < n ==>
      !sys.table.leases[k].IsExpired(es[i].now) && SparedAt(sys, es, i, k, sys.table.leases[k].client)
    ensures At(After(sys, es, n).table, k) == Some(sys.table.leases[k])
  {
    hide Step, Consistent, Spares;
    if n == 0 {
    } else {
      RecordSurvivesRun(sys, es, k, n - 1);
      RunConsistent(sys, es, n - 1);
      RecordSurvivesStep(After(sys, es, n - 1), es[n - 1], k);
    }
  }

  /** Some configured scope with this id reserves the address for the client. */
  ghost predicate ReservedFor(scopes: seq<Scope>, k: Slot, client: ClientId) {
    exists s :: s in scopes && s.id == k.scope
      && s.ReservationFor(client).Some? && s.ReservationFor(client).value.ip == k.ip
  }

  /** Until a Bound lease expires, no run gives its address in its scope to another
      client or alters the record, unless the owner speaks, someone declines the
      address, an administrative step takes it away, or the address is reserved for
      that other client. */
  lemma {:induction false} BoundLeaseIsExclusive(sys: Sys, es: seq<Timed>, k: Slot, i: nat)
    requires Consistent(sys.table) && k in sys.table.leases
    requires sys.table.leases[k].state == Bound
    requires forall j :: 0 <= j < |es| ==>
      !sys.table.leases[k].IsExpired(es[j].now) && SparedAt(sys, es, j, k, sys.table.leases[k].client)
    requires i < |es|
    ensures At(After(sys, es, |es|).table, k) == Some(sys.table.leases[k])
    ensures At(After(sys, es, i).table, k) == Some(sys.table.leases[k])
    ensures es[i].event.Packet? && Hands(Answer(After(sys, es, i), es[i]), k.scope, k.ip) ==>
      && ClientIdOf(es[i].event.msg).Some?
      && ReservedFor(After(sys, es, i).scopes, k, ClientIdOf(es[i].event.msg).value)
  {
    hide Step, Consistent, Handle;
    RecordSurvivesRun(sys, es, k, |es|);
    RecordSurvivesRun(sys, es, k, i);
    RunConsistent(sys, es, i);
    if es[i].event.Packet? {
      HeldIsNotHanded(After(sys, es, i), es[i], k);
    }
  }

  /** A record that is in force keeps its address from everyone else but the holder of
      a reservation. */
  lemma {:induction false} HeldIsNotHanded(sys: Sys, e: Timed, k: Slot)
    requires Consistent(sys.table) && e.event.Packet? && k in sys.table.leases
    requires sys.table.leases[k].state != Free && !sys.table.leases[k].IsExpired(e.now)
    requires Reaches(sys.scopes, e.event.msg, CtxOf(e), k.scope) ==>
      ClientIdOf(e.event.msg) != Some(sys.table.leases[k].client)
    ensures Hands(Answer(sys, e), k.scope, k.ip) ==>
      && ClientIdOf(e.event.msg).Some?
      && ReservedFor(sys.scopes, k, ClientIdOf(e.event.msg).value)
  {
    if Hands(Answer(sys, e), k.scope, k.ip) {
      var s, client := HandedIsUsableOrReserved(sys.scopes, sys.table, e.event.msg, CtxOf(e), k.ip);
      SelectedScopeServes(sys.scopes, e.event.msg, CtxOf(e), s);
    }
  }

  // ----- An OFFER is a promise -----

  /** Packets, reaps and revocations: everything but a change of configuration. */
  predicate KeepsConfig(ev: Event) {
    ev.Packet? || ev.ReapTick? || ev.Revoke?
  }

  lemma {:induction false} ConfigFixed(sys: Sys, es: seq<Timed>, n: nat)
    requires n <= |es| && forall i :: 0 <= i < n ==> KeepsConfig(es[i].event)
    ensures After(sys, es, n).scopes == sys.scopes
  {
    if n == 0 {
    } else {
      ConfigFixed(sys, es, n - 1);
    }
  }

  /** What the allocator may give lies in the subnet. */
  lemma {:induction false} GrantInSubnet(s: Scope, t: Table, q: Query)
    requires Sound(s) && Consistent(t)
    ensures Pick(s, t, q).Some? ==> s.Contains(Pick(s, t, q).value.ip)
    ensures Pick(s, t, q).Some? && s.ReservationFor(q.client).None? ==>
      s.IsPoolable(Pick(s, t, q).value.ip) && !s.IsReservedForOther(Pick(s, t, q).value.ip, q.client)
  {
    if Pick(s, t, q).Some? {
      var ip := Pick(s, t, q).value.ip;
      PickIsPriority(s, t, q, ip);
      if s.ReservationFor(q.client).Some? {
        ContainsIsInterval(s, ip);
      } else {
        PoolableInSubnet(s, ip);
      }
    }
  }

  lemma {:induction false} PoolableInSubnet(s: Scope, ip: Ip)
    requires Sound(s)
    ensures s.IsPoolable(ip) ==> s.Contains(ip)
  {
    if s.IsPoolable(ip) {
      var p :| p in s.pools && p.Contains(ip);
      ContainsIsInterval(s, p.start);
      ContainsIsInterval(s, p.end);
      EndpointsPlaceRange(s, p, ip);
    }
  }

  /** The client was offered `ip` in `s`: it is its reservation, or its live placeholder
      sits on a poolable address nobody else has reserved. */
  ghost predicate Promised(s: Scope, t: Table, client: ClientId, ip: Ip) {
    match s.ReservationFor(client)
    case Some(r) => r.ip == ip
    case None =>
      && At(t, Slot(s.id, ip)).Some?
      && t.leases[Slot(s.id, ip)].client == client
      && t.leases[Slot(s.id, ip)].state == Offered
      && s.IsPoolable(ip) && !s.IsReservedForOther(ip, client)
  }

  lemma {:induction false} OfferPromised(
      scopes: seq<Scope>, t: Table, msg: Message, ctx: Ctx, s: Scope, client: ClientId)
    requires Served(scopes, msg, ctx, s, client)
    requires Consistent(t) && forall x :: x in scopes ==> Sound(x)
    requires Handle(scopes, t, msg, ctx).1.Answered? && Handle(scopes, t, msg, ctx).1.reply.kind == Offer
    ensures var (t', o) := Handle(scopes, t, msg, ctx);
      && Promised(s, t', client, o.reply.yiaddr) && s.Contains(o.reply.yiaddr)
      && (s.ReservationFor(client).None? ==>
            && Slot(s.id, o.reply.yiaddr) in t'.leases
            && t'.leases[Slot(s.id, o.reply.yiaddr)].client == client
            && t'.leases[Slot(s.id, o.reply.yiaddr)].state == Offered
            && t'.leases[Slot(s.id, o.reply.yiaddr)].expiresAt == ctx.now + s.offerSecs)
  {
    hide Consistent, Sound, Recorded, SelectScope, Scope.IsPoolable, Scope.Contains, UsableBy, FirstUsable, Candidates;
    var _, _ := AnswersComeFromAllocator(scopes, t, msg, ctx);
    SelectedScopeServes(scopes, msg, ctx, s);
    GrantInSubnet(s, t, QueryOf(msg, client, ctx));
    GrantRecorded(s, t, DiscoverQuery(msg, client, ctx), OfferLease(s, msg, client, ctx));
  }

  /** A grant that is not a reservation is on record. */
  lemma {:induction false} GrantRecorded(s: Scope, t: Table, q: Query, tmpl: Lease)
    requires Consistent(t) && IsTemplate(tmpl, s, q)
    requires Pick(s, t, q).Some?
    ensures var ip := Pick(s, t, q).value.ip;
      && (s.ReservationFor(q.client).None? ==> Usable(s, t, q, ip))
      && (Usable(s, t, q, ip) ==> At(Recorded(s, t, q, tmpl), Slot(s.id, ip)) == Some(tmpl.(ip := ip)))
      && (!Usable(s, t, q, ip) ==> Pick(s, t, q).value.source == Reserved && Recorded(s, t, q, tmpl) == t)
  {
    hide Pick, Consistent, Insert, UsableBy;
    PickIsUsableOrReserved(s, t, q);
    var ip := Pick(s, t, q).value.ip;
    AtInsert(t, tmpl.(ip := ip), Slot(s.id, ip));
  }

  /** The client's own DISCOVER, handled in `s`. */
  predicate Repeats(scopes: seq<Scope>, e: Timed, s: Scope, client: ClientId) {
    e.event.Packet? && e.event.msg.kind == Some(Discover) && Served(scopes, e.event.msg, CtxOf(e), s, client)
  }

  /** The promise stands, and what holds the address for the client lasts until `until`. */
  ghost predicate Standing(s: Scope, t: Table, client: ClientId, ip: Ip, until: UnixTime) {
    && Promised(s, t, client, ip)
    && (s.ReservationFor(client).None? ==> t.leases[Slot(s.id, ip)].expiresAt >= until)
  }

  /** The answer offers the address. */
  predicate IsOfferOf(o: Outcome, ip: Ip) {
    o.Answered? && o.reply.kind == Offer && o.reply.yiaddr == ip
  }

  /** A client that repeats its DISCOVER is offered the same address again, for as long. */
  lemma {:induction false} RepeatKeepsPromise(sys: Sys, e: Timed, s: Scope, client: ClientId, ip: Ip)
    requires Consistent(sys.table) && Promised(s, sys.table, client, ip)
    requires Repeats(sys.scopes, e, s, client)
    ensures Standing(s, Step(sys, e).table, client, ip, e.now + s.offerSecs)
    ensures IsOfferOf(Answer(sys, e), ip)
  {
    hide Pick, Consistent, Recorded, SelectScope, Scope.IsPoolable, UsableBy;
    var msg, ctx := e.event.msg, CtxOf(e);
    var q := DiscoverQuery(msg, client, ctx);
    PickIsPriority(s, sys.table, q, ip);
    assert s.ReservationFor(client).None? ==> MayKeep(s, sys.table, q, ip);
    GrantRecorded(s, sys.table, q, OfferLease(s, msg, client, ctx));
  }

  /** The event leaves an offer of `ip` made at `from` standing: it spares the placeholder,
      or is a DISCOVER the client repeats. */
  predicate KeepsPromise(scopes: seq<Scope>, e: Timed, s: Scope, client: ClientId, ip: Ip, from: UnixTime) {
    && KeepsConfig(e.event)
    && e.now < from + s.offerSecs
    && (Spares(scopes, e, Slot(s.id, ip), client) || (Repeats(scopes, e, s, client) && from <= e.now))
  }

  lemma {:induction false} PromiseSurvivesStep(
      sys: Sys, e: Timed, s: Scope, client: ClientId, ip: Ip, from: UnixTime)
    requires Consistent(sys.table) && Standing(s, sys.table, client, ip, from + s.offerSecs)
    requires KeepsPromise(sys.scopes, e, s, client, ip, from)
    ensures Standing(s, Step(sys, e).table, client, ip, from + s.offerSecs)
  {
    hide Step, Answer, Consistent, Scope.IsPoolable, Spares, Repeats;
    if !Spares(sys.scopes, e, Slot(s.id, ip), client) {
      RepeatKeepsPromise(sys, e, s, client, ip);
    } else if s.ReservationFor(client).None? {
      RecordSurvivesStep(sys, e, Slot(s.id, ip));
    }
  }

  lemma {:induction false} PromiseSurvivesRun(
      sys: Sys, es: seq<Timed>, s: Scope, client: ClientId, ip: Ip, from: UnixTime, n: nat)
    requires Consistent(sys.table) && Standing(s, sys.table, client, ip, from + s.offerSecs) && n <= |es|
    requires forall i :: 0 <= i < |es| ==> KeepsPromise(sys.scopes, es[i], s, client, ip, from)
    ensures After(sys, es, n).scopes == sys.scopes
    ensures Consistent(After(sys, es, n).table)
    ensures Standing(s, After(sys, es, n).table, client, ip, from + s.offerSecs)
    decreases n
  {
    hide Step, Consistent, Standing;
    ConfigFixed(sys, es, n);
    RunConsistent(sys, es, n);
    if n == 0 {
    } else {
      PromiseSurvivesRun(sys, es, s, client, ip, from, n - 1);
      PromiseSurvivesStep(After(sys, es, n - 1), es[n - 1], s, client, ip, from);
    }
  }

  /** A REQUEST for a promised address is acknowledged with it. */
  lemma {:induction false} PromiseKept(
      scopes: seq<Scope>, t: Table, s: Scope, client: ClientId, ip: Ip, msg: Message, ctx: Ctx)
    requires Consistent(t) && Promised(s, t, client, ip) && s.Contains(ip)
    requires Served(scopes, msg, ctx, s, client)
    requires msg.kind == Some(Request) && !ChoseAnother(msg, ctx) && ClaimedAddress(msg) == Some(ip)
    ensures var o := Handle(scopes, t, msg, ctx).1;
      o.Answered? && o.reply.kind == Ack && o.reply.yiaddr == ip && o.reply.scopeId == s.id
  {
    var q := RequestQuery(msg, client, ctx);
    PickIsPriority(s, t, q, ip);
    assert s.ReservationFor(client).None? ==> MayKeep(s, t, q, ip);
  }

  lemma {:induction false} StandingIsPromised(s: Scope, t: Table, client: ClientId, ip: Ip, until: UnixTime)
    requires Standing(s, t, client, ip, until)
    ensures Promised(s, t, client, ip)
  {
  }

  lemma {:induction false} OfferStands(sys: Sys, discover: Timed, s: Scope, client: ClientId)
    requires Consistent(sys.table) && forall x :: x in sys.scopes ==> ValidateErrors(x) == []
    requires discover.event.Packet? && Served(sys.scopes, discover.event.msg, CtxOf(discover), s, client)
    requires Answer(sys, discover).Answered? && Answer(sys, discover).reply.kind == Offer
    ensures var start, ip := Step(sys, discover), Answer(sys, discover).reply.yiaddr;
      && start.scopes == sys.scopes && Consistent(start.table)
      && Standing(s, start.table, client, ip, discover.now + s.offerSecs)
      && s.Contains(ip)
  {
    hide ValidateErrors, Sound, Served, Promised, Handle, Consistent, Scope.Contains;
    forall x | x in sys.scopes
      ensures Sound(x)
    {
      ValidateIsExact(x);
    }
    OfferPromised(sys.scopes, sys.table, discover.event.msg, CtxOf(discover), s, client);
    StepConsistent(sys, discover);
  }

  lemma {:induction false} RepeatsAreOffered(
      start: Sys, es: seq<Timed>, s: Scope, client: ClientId, ip: Ip, from: UnixTime)
    requires Consistent(start.table) && Standing(s, start.table, client, ip, from + s.offerSecs)
    requires forall i :: 0 <= i < |es| ==> KeepsPromise(start.scopes, es[i], s, client, ip, from)
    ensures forall i :: 0 <= i < |es| && Repeats(start.scopes, es[i], s, client) ==>
      IsOfferOf(Answer(After(start, es, i), es[i]), ip)
  {
    hide Step, Served, Standing, Promised, Consistent, KeepsPromise, Answer, IsOfferOf;
    forall i | 0 <= i < |es| && Repeats(start.scopes, es[i], s, client)
      ensures IsOfferOf(Answer(After(start, es, i), es[i]), ip)
    {
      PromiseSurvivesRun(start, es, s, client, ip, from, i);
      StandingIsPromised(s, After(start, es, i).table, client, ip, from + s.offerSecs);
      RepeatKeepsPromise(After(start, es, i), es[i], s, client, ip);
    }
  }

  /** An OFFER is a promise. Under a validated configuration that does not change, when a
      client is offered an address and sends nothing more in that scope but the same
      DISCOVER again, then whatever packets other clients send before the offer runs out,
      short of a DECLINE of that address, and whatever is reaped or revoked elsewhere,
      every repeated DISCOVER is offered the address again and the client's REQUEST for it
      is acknowledged with it. */
  lemma {:induction false} OfferIsHonoured(
      sys: Sys, discover: Timed, s: Scope, client: ClientId, es: seq<Timed>, request: Timed)
    requires Consistent(sys.table) && forall x :: x in sys.scopes ==> ValidateErrors(x) == []
    requires discover.event.Packet? && Served(sys.scopes, discover.event.msg, CtxOf(discover), s, client)
    requires Answer(sys, discover).Answered? && Answer(sys, discover).reply.kind == Offer
    requires forall i :: 0 <= i < |es| ==>
      KeepsPromise(sys.scopes, es[i], s, client, Answer(sys, discover).reply.yiaddr, discover.now)
    requires request.event.Packet? && Served(sys.scopes, request.event.msg, CtxOf(request), s, client)
    requires request.event.msg.kind == Some(Request) && !ChoseAnother(request.event.msg, CtxOf(request))
    requires ClaimedAddress(request.event.msg) == Some(Answer(sys, discover).reply.yiaddr)
    ensures var o := Answer(After(Step(sys, discover), es, |es|), request);
      && o.Answered? && o.reply.kind == Ack && o.reply.scopeId == s.id
      && o.reply.yiaddr == Answer(sys, discover).reply.yiaddr
    ensures forall i :: 0 <= i < |es| && Repeats(sys.scopes, es[i], s, client) ==>
      IsOfferOf(Answer(After(Step(sys, discover), es, i), es[i]), Answer(sys, discover).reply.yiaddr)
  {
    hide Handle, Step, ValidateErrors, Served, Standing, Promised, Consistent, Scope.Contains, KeepsPromise;
    OfferStands(sys, discover, s, client);
    var ip, start := Answer(sys, discover).reply.yiaddr, Step(sys, discover);
    PromiseSurvivesRun(start, es, s, client, ip, discover.now, |es|);
    StandingIsPromised(s, After(start, es, |es|).table, client, ip, discover.now + s.offerSecs);
    PromiseKept(sys.scopes, After(start, es, |es|).table, s, client, ip, request.event.msg, CtxOf(request));
    RepeatsAreOffered(start, es, s, client, ip, discover.now);
  }
}
