/** What a fixed configuration guarantees in every reachable state: leases sit where
    their owners may be, so a renewal is always honoured and occupancy is bounded. */
module Entitlement {
  import opened Prelude
  import opened Addr
  import opened Scopes
  import opened Leases
  import opened Tables
  import opened Allocation
  import opened Server
  import opened Effects
  import opened Validation
  import opened Admin
  import opened Exclusivity

  /** The client may hold `ip` in `s`: by its reservation if it has one, else from the pool. */
  ghost predicate EntitledTo(s: Scope, client: ClientId, ip: Ip) {
    match s.ReservationFor(client)
    case Some(r) => r.ip == ip
    case None => s.IsPoolable(ip) && !s.IsReservedForOther(ip, client)
  }

  predicate InUse(l: Lease) {
    l.state == Offered || l.state == Bound
  }

  /** Every lease in use sits in a configured scope, on an address its owner may hold there. */
  ghost predicate AllEntitled(scopes: seq<Scope>, t: Table) {
    forall k :: k in t.leases && InUse(t.leases[k]) ==>
      exists s :: s in scopes && s.id == k.scope && EntitledTo(s, t.leases[k].client, k.ip)
  }

  lemma {:induction false} GrantIsEntitled(s: Scope, t: Table, q: Query)
    requires Consistent(t)
    ensures Pick(s, t, q).Some? ==> EntitledTo(s, q.client, Pick(s, t, q).value.ip)
  {
    if Pick(s, t, q).Some? {
      PickIsPriority(s, t, q, Pick(s, t, q).value.ip);
    }
  }

  lemma {:induction false} PacketKeepsEntitled(scopes: seq<Scope>, t: Table, msg: Message, ctx: Ctx)
    requires Consistent(t) && AllEntitled(scopes, t)
    ensures AllEntitled(scopes, Handle(scopes, t, msg, ctx).0)
  {
    var s, a := HandleActs(scopes, t, msg, ctx);
    var t' := Perform(t, a);
    forall k | k in t'.leases && InUse(t'.leases[k])
      ensures exists s :: s in scopes && s.id == k.scope && EntitledTo(s, t'.leases[k].client, k.ip)
    {
      match a {
        case Keep =>
        case Take(l) =>
          AtInsert(t, l, k);
          if k == SlotOf(l) {
            SelectedScopeServes(scopes, msg, ctx, s.value);
            GrantIsEntitled(s.value, t, QueryOf(msg, l.client, ctx));
          } else {
            assert t'.leases[k] == t.leases[k];
          }
        case GiveBack(g) =>
          AtRemove(t, g.scope, g.ip, k);
          assert t'.leases[k] == t.leases[k];
      }
    }
  }

  lemma {:induction false} StepKeepsEntitled(sys: Sys, e: Timed)
    requires Consistent(sys.table) && AllEntitled(sys.scopes, sys.table) && KeepsConfig(e.event)
    ensures Step(sys, e).scopes == sys.scopes
    ensures AllEntitled(sys.scopes, Step(sys, e).table)
  {
    StepTable(sys, e);
    match e.event {
      case Packet(msg, _, _) => PacketKeepsEntitled(sys.scopes, sys.table, msg, CtxOf(e));
      case ReapTick =>
      case Revoke(scope, ip) =>
    }
  }

  /** A run from an empty table under one configuration. */
  ghost predicate IsServiceRun(sys: Sys, es: seq<Timed>) {
    sys.table == EMPTY && forall i :: 0 <= i < |es| ==> KeepsConfig(es[i].event)
  }

  lemma {:induction false} RunKeepsEntitled(sys: Sys, es: seq<Timed>, n: nat)
    requires IsServiceRun(sys, es) && n <= |es|
    ensures After(sys, es, n).scopes == sys.scopes
    ensures Consistent(After(sys, es, n).table)
    ensures AllEntitled(sys.scopes, After(sys, es, n).table)
  {
    hide Step;
    if n == 0 {
    } else {
      hide Consistent, AllEntitled;
      RunKeepsEntitled(sys, es, n - 1);
      StepConsistent(After(sys, es, n - 1), es[n - 1]);
      StepKeepsEntitled(After(sys, es, n - 1), es[n - 1]);
    }
  }

  // ----- Renewal -----

  ghost predicate PairwiseDisjoint(scopes: seq<Scope>) {
    forall i, j, ip: Ip :: 0 <= i < j < |scopes| && scopes[i].Contains(ip) ==> !scopes[j].Contains(ip)
  }

  /** Among disjoint enabled scopes the one containing the key is selected. */
  lemma {:induction false} SelectsContaining(scopes: seq<Scope>, msg: Message, ctx: Ctx, s: Scope)
    requires PairwiseDisjoint(scopes) && s in scopes && s.enabled && s.Contains(ScopeKey(msg, ctx))
    ensures SelectScope(scopes, msg, ctx) == Success(s)
  {
    var key := ScopeKey(msg, ctx);
    CoveringMembers(scopes, key, s);
    FirstEnabledIsMember(Covering(scopes, key));
    var found := FirstEnabled(Covering(scopes, key)).value;
    CoveringMembers(scopes, key, found);
    var i :| 0 <= i < |scopes| && scopes[i] == s;
    var j :| 0 <= j < |scopes| && scopes[j] == found;
  }

  /** A REQUEST in RENEWING: only ciaddr says which address it is about. */
  predicate IsRenewal(msg: Message, client: ClientId, ip: Ip) {
    && msg.isBootRequest && msg.kind == Some(Request)
    && ClientIdOf(msg) == Some(client)
    && msg.giaddr == UNSPECIFIED && msg.ciaddr == ip && ip != UNSPECIFIED
    && msg.requestedIp.None? && msg.serverIdent.None?
  }

  lemma {:induction false} RenewalInScope(s: Scope, t: Table, l: Lease, msg: Message, ctx: Ctx)
    requires Consistent(t) && Sound(s)
    requires At(t, Slot(s.id, l.ip)) == Some(l) && InUse(l) && EntitledTo(s, l.client, l.ip)
    requires IsRenewal(msg, l.client, l.ip)
    ensures var (t', o) := OnRequest(s, t, msg, l.client, ctx);
      && o.Answered? && o.reply.kind == Ack && o.reply.yiaddr == l.ip
      && o.reply.scopeId == s.id && o.reply.dest == ToClient(l.ip)
      && o.reply.timers == Some(TimersFor(RequestedLeaseSecs(msg, s)))
      && At(t', Slot(s.id, l.ip)) == Some(l.(state := Bound,
            expiresAt := ctx.now + RequestedLeaseSecs(msg, s), lastSeen := ctx.now,
            hostname := NonEmpty(msg.hostname), vendorClass := NonEmpty(msg.vendorClass)))
  {
    hide Scope.IsPoolable, Scope.Contains, Pick, Insert, Sound;
    var q := RequestQuery(msg, l.client, ctx);
    assert SlotOf(l) == Slot(s.id, l.ip) && HolderOf(l) in t.index && t.index[HolderOf(l)] == l.ip;
    PickIsPriority(s, t, q, l.ip);
    assert s.ReservationFor(l.client).None? ==> MayKeep(s, t, q, l.ip);
    EntitledInSubnet(s, l.client, l.ip);
    GrantRecorded(s, t, q, BoundLease(s, t, msg, l.client, ctx));
  }

  lemma {:induction false} EntitledInSubnet(s: Scope, client: ClientId, ip: Ip)
    requires Sound(s) && EntitledTo(s, client, ip)
    ensures s.Contains(ip)
  {
    if s.ReservationFor(client).Some? {
      ContainsIsInterval(s, ip);
    } else {
      PoolableInSubnet(s, ip);
    }
  }

  /** A renewal finds its own scope. With disjoint, enabled, validated scopes and a
      configuration that does not change, in every reachable state a REQUEST
      carrying only the address the client is using is acknowledged in that lease's scope
      with that address, on whichever listener it arrives, and the lease is extended
      without losing its creation time. */
  lemma {:induction false} RenewalFindsItsScope(sys: Sys, es: seq<Timed>, k: Slot, renewal: Timed)
    requires IsServiceRun(sys, es)
    requires PairwiseDisjoint(sys.scopes)
    requires forall s :: s in sys.scopes ==> s.enabled && ValidateErrors(s) == []
    requires k in After(sys, es, |es|).table.leases
    requires var l := After(sys, es, |es|).table.leases[k];
      && InUse(l) && renewal.event.Packet? && IsRenewal(renewal.event.msg, l.client, k.ip)
    ensures var now, next := After(sys, es, |es|), Step(After(sys, es, |es|), renewal);
      var o := Answer(now, renewal);
      && o.Answered? && o.reply.kind == Ack && o.reply.yiaddr == k.ip && o.reply.scopeId == k.scope
      && At(next.table, k).Some? && next.table.leases[k].state == Bound
      && next.table.leases[k].client == now.table.leases[k].client
      && next.table.leases[k].createdAt == now.table.leases[k].createdAt
      && o.reply.timers.Some? && next.table.leases[k].expiresAt == renewal.now + o.reply.timers.value.lease
  {
    hide Step, Consistent, AllEntitled, IsRenewal;
    RunKeepsEntitled(sys, es, |es|);
    RenewalInState(After(sys, es, |es|), k, renewal);
  }

  lemma {:induction false} RenewalInState(sys: Sys, k: Slot, renewal: Timed)
    requires Consistent(sys.table) && AllEntitled(sys.scopes, sys.table) && PairwiseDisjoint(sys.scopes)
    requires forall s :: s in sys.scopes ==> s.enabled && ValidateErrors(s) == []
    requires k in sys.table.leases && InUse(sys.table.leases[k])
    requires renewal.event.Packet? && IsRenewal(renewal.event.msg, sys.table.leases[k].client, k.ip)
    ensures var next, o := Step(sys, renewal), Answer(sys, renewal);
      && o.Answered? && o.reply.kind == Ack && o.reply.yiaddr == k.ip && o.reply.scopeId == k.scope
      && At(next.table, k).Some? && next.table.leases[k].state == Bound
      && next.table.leases[k].client == sys.table.leases[k].client
      && next.table.leases[k].createdAt == sys.table.leases[k].createdAt
      && o.reply.timers.Some? && next.table.leases[k].expiresAt == renewal.now + o.reply.timers.value.lease
  {
    hide Step, Answer, OnRequest, SelectScope, ClientIdOf, ValidateErrors;
    var l := sys.table.leases[k];
    assert SlotOf(l) == k;
    var s :| s in sys.scopes && s.id == k.scope && EntitledTo(s, l.client, k.ip);
    ValidateIsExact(s);
    EntitledInSubnet(s, l.client, k.ip);
    SelectsContaining(sys.scopes, renewal.event.msg, CtxOf(renewal), s);
    RequestStep(sys, renewal, s, l.client);
    RenewalInScope(s, sys.table, l, renewal.event.msg, CtxOf(renewal));
  }

  lemma {:induction false} RequestStep(sys: Sys, e: Timed, s: Scope, client: ClientId)
    requires e.event.Packet? && e.event.msg.kind == Some(Request)
    requires Served(sys.scopes, e.event.msg, CtxOf(e), s, client)
    ensures (Step(sys, e).table, Answer(sys, e)) == OnRequest(s, sys.table, e.event.msg, client, CtxOf(e))
  {
  }

  // ----- Occupancy -----

  lemma {:induction false} SetOfSeqCardinality<T>(xs: seq<T>)
    ensures |ToSet(xs)| <= |xs|
  {
    if xs == [] {
    } else {
      SetOfSeqCardinality(xs[1..]);
      assert ToSet(xs) == ToSet(xs[1..]) + {xs[0]};
    }
  }

  function ReservedIps(rs: seq<Reservation>): seq<Ip> {
    seq(|rs|, i requires 0 <= i < |rs| => rs[i].ip)
  }

  /** Every address of the scope anybody may hold, each once. */
  function HoldableIps(s: Scope): set<Ip> {
    ToSet(s.PoolableAddrs() + ReservedIps(s.reservations))
  }

  /** Under a fixed configuration with distinct scope ids, no reachable state ever has more
      active leases in a scope than it has addresses that are poolable or reserved; so
      never more than its capacity plus its reservations. */
  lemma {:induction false} OccupancyIsBounded(sys: Sys, es: seq<Timed>, s: Scope, now: UnixTime)
    requires IsServiceRun(sys, es) && UniqueIds(sys.scopes) && s in sys.scopes
    ensures UsedIn(After(sys, es, |es|).table, s.id, now) <= |HoldableIps(s)| <= s.Capacity() + |s.reservations|
  {
    hide Step, Consistent, AllEntitled, UniqueIds, Scope.IsPoolable, ActiveSlots;
    RunKeepsEntitled(sys, es, |es|);
    var t := After(sys, es, |es|).table;
    forall k | k in ActiveSlots(t, s.id, now)
      ensures k.scope == s.id && k.ip in HoldableIps(s)
    {
      ActiveIsHoldable(sys.scopes, t, s, now, k);
    }
    SlotsByAddress(ActiveSlots(t, s.id, now), s.id, HoldableIps(s));
    SetOfSeqCardinality(s.PoolableAddrs() + ReservedIps(s.reservations));
  }

  lemma {:induction false} ActiveIsHoldable(scopes: seq<Scope>, t: Table, s: Scope, now: UnixTime, k: Slot)
    requires Consistent(t) && AllEntitled(scopes, t) && UniqueIds(scopes) && s in scopes
    requires k in ActiveSlots(t, s.id, now)
    ensures k.scope == s.id && k.ip in HoldableIps(s)
  {
    hide Scope.IsPoolable;
    var l, ips := t.leases[k], s.PoolableAddrs() + ReservedIps(s.reservations);
    assert SlotOf(l) == k && InUse(l);
    var x :| x in scopes && x.id == k.scope && EntitledTo(x, l.client, k.ip);
    SameIdSameScope(scopes, x, s);
    if s.ReservationFor(l.client).Some? {
      var i :| 0 <= i < |s.reservations| && s.reservations[i] == s.ReservationFor(l.client).value;
      assert ips[|s.PoolableAddrs()| + i] == k.ip;
    } else {
      assert k.ip in s.PoolableAddrs();
    }
  }
}
