/** The reply and the lease table tell the same story. */
module Agreement {
  import opened Prelude
  import opened Addr
  import opened Scopes
  import opened Leases
  import opened Tables
  import opened Allocation
  import opened Server
  import opened Effects
  import opened Validation
  import opened Admin
  import opened Exclusivity
  import opened Entitlement
  import opened Integrity

  /** What the server may lend: no more than the scope allows, nor than was asked for. */
  predicate MayLend(s: Scope, msg: Message, secs: U32) {
    secs <= s.leaseSecs && (msg.leaseTime.Some? ==> secs <= msg.leaseTime.value)
  }

  /** The client's Bound lease is on record at `ip` until `expiry`. */
  ghost predicate BoundUntil(t: Table, s: Scope, client: ClientId, ip: Ip, expiry: UnixTime) {
    var l := At(t, Slot(s.id, ip));
    l.Some? && l.value.client == client && l.value.state == Bound && l.value.expiresAt == expiry
  }

  /** An ACK names the address the client asked for, by option 50 or else by ciaddr, and
      lends it for as long as the scope and the request allow; the table holds that lease
      until the promised second, except when the address is the client's reservation and
      was not usable, in which case the table has not changed at all. */
  lemma {:induction false} AckMatchesTable(scopes: seq<Scope>, t: Table, msg: Message, ctx: Ctx)
    returns (s: Scope, client: ClientId)
    requires Consistent(t) && msg.kind == Some(Request)
    requires var o := Handle(scopes, t, msg, ctx).1; o.Answered? && o.reply.kind == Ack
    ensures Served(scopes, msg, ctx, s, client)
    ensures var (t', o) := Handle(scopes, t, msg, ctx);
      && ClaimedAddress(msg) == Some(o.reply.yiaddr)
      && o.reply.yiaddr == (if msg.requestedIp.Some? then msg.requestedIp.value else msg.ciaddr)
      && o.reply.timers.Some? && MayLend(s, msg, o.reply.timers.value.lease)
      && (forall secs: U32 :: MayLend(s, msg, secs) ==> secs <= o.reply.timers.value.lease)
      && (if UsableBy(t, s.id, o.reply.yiaddr, client, ctx.now)
          then BoundUntil(t', s, client, o.reply.yiaddr, ctx.now + o.reply.timers.value.lease)
          else o.reply.source == Some(Reserved) && t' == t)
  {
    s, client := AnswersComeFromAllocator(scopes, t, msg, ctx);
    assert MayLend(s, msg, RequestedLeaseSecs(msg, s));
    GrantRecorded(s, t, RequestQuery(msg, client, ctx), BoundLease(s, t, msg, client, ctx));
  }

  /** A Declined record keeps the address from the client: its own, or a stranger's that
      has not run out. */
  predicate DeclinedAgainst(t: Table, k: Slot, client: ClientId, now: UnixTime) {
    var l := At(t, k);
    l.Some? && l.value.state == Declined && (l.value.client == client || !l.value.IsExpired(now))
  }

  /** While no lease in use sits on another client's reservation, a reserved address is
      unusable to its owner exactly when a Declined record keeps it. */
  lemma {:induction false} ReservationUnusableIffDeclined(
      scopes: seq<Scope>, t: Table, s: Scope, client: ClientId, now: UnixTime)
    requires Respected(scopes, t) && s in scopes && s.ReservationFor(client).Some?
    ensures var ip := s.ReservationFor(client).value.ip;
      !UsableBy(t, s.id, ip, client, now) <==> DeclinedAgainst(t, Slot(s.id, ip), client, now)
  {
    var r := s.ReservationFor(client).value;
    var k := Slot(s.id, r.ip);
    if k in t.leases && t.leases[k].client != client {
      assert s.IsReservedForOther(k.ip, t.leases[k].client);
    }
  }

  /** A client asking for the address reserved for it is always acknowledged, and the lease
      it is told about is on record exactly when no Declined record keeps the address from
      it; if one does, nothing is recorded at all. */
  lemma {:induction false} ReservedRequestIsAcked(
      scopes: seq<Scope>, t: Table, msg: Message, ctx: Ctx, s: Scope, client: ClientId)
    requires Consistent(t) && Respected(scopes, t) && AllSound(scopes)
    requires Served(scopes, msg, ctx, s, client)
    requires msg.kind == Some(Request) && !ChoseAnother(msg, ctx)
    requires s.ReservationFor(client).Some?
    requires ClaimedAddress(msg) == Some(s.ReservationFor(client).value.ip)
    ensures var (t', o) := Handle(scopes, t, msg, ctx);
      var ip := s.ReservationFor(client).value.ip;
      var kept := DeclinedAgainst(t, Slot(s.id, ip), client, ctx.now);
      && o.Answered? && o.reply.kind == Ack && o.reply.yiaddr == ip && o.reply.source == Some(Reserved)
      && (BoundUntil(t', s, client, ip, ctx.now + RequestedLeaseSecs(msg, s)) <==> !kept)
      && (kept ==> t' == t)
  {
    hide Sound;
    SelectedScopeServes(scopes, msg, ctx, s);
    ReservationUnusableIffDeclined(scopes, t, s, client, ctx.now);
    GrantInSubnet(s, t, RequestQuery(msg, client, ctx));
    GrantRecorded(s, t, RequestQuery(msg, client, ctx), BoundLease(s, t, msg, client, ctx));
  }

  /** The timers of section 4.4.5 of RFC 2131 are in order for every lease of 8 seconds or
      more, T1 strictly before T2 unless the lease is 14 or 15 seconds, and exactly then
      among leases longer than one second. */
  lemma {:induction false} TimersInOrder(leaseSecs: U32)
    ensures var t := TimersFor(leaseSecs);
      && t.lease == leaseSecs
      && (t.t1 <= t.t2 <==> leaseSecs <= 1 || leaseSecs >= 8)
      && (t.t1 < t.t2 <==> 8 <= leaseSecs <= 13 || leaseSecs >= 16)
      && (t.t2 < leaseSecs <==> leaseSecs > 0)
      && 2 * t.t1 <= leaseSecs <= 2 * t.t1 + 1
      && 8 * t.t2 <= 7 * leaseSecs < 8 * t.t2 + 56
  {
    assert leaseSecs == 8 * (leaseSecs / 8) + leaseSecs % 8;
  }

  // ----- Which REQUEST gets which answer -----

  /** The address is the client's to have: its reservation, or else the record it may keep,
      or else, when it has none, an address it can obtain. */
  ghost predicate MayHave(s: Scope, t: Table, q: Query, ip: Ip) {
    match s.ReservationFor(q.client)
    case Some(r) => r.ip == ip
    case None => MayKeep(s, t, q, ip) || ((forall a :: !MayKeep(s, t, q, a)) && Obtainable(s, t, q, ip))
  }

  /** The claimed address is not to be had, but another one is. */
  ghost predicate GivenElsewhere(s: Scope, t: Table, q: Query, claimed: Ip) {
    match s.ReservationFor(q.client)
    case Some(r) => r.ip != claimed
    case None =>
      || (exists a :: a != claimed && MayKeep(s, t, q, a))
      || ((forall a :: !MayKeep(s, t, q, a)) && !Obtainable(s, t, q, claimed)
          && exists a :: Obtainable(s, t, q, a))
  }

  /** Which other one. */
  ghost predicate GivenInstead(s: Scope, t: Table, q: Query, claimed: Ip, ip: Ip) {
    && ip != claimed
    && match s.ReservationFor(q.client)
       case Some(r) => r.ip == ip
       case None =>
         || MayKeep(s, t, q, ip)
         || ((forall a :: !MayKeep(s, t, q, a)) && !Obtainable(s, t, q, claimed) && FirstFree(s, t, q, ip))
  }

  /** The allocator's choice, whichever source it comes from. */
  lemma {:induction false} PickedIff(s: Scope, t: Table, q: Query, ip: Ip)
    requires Consistent(t)
    ensures Pick(s, t, q).Some? && Pick(s, t, q).value.ip == ip <==>
      match s.ReservationFor(q.client)
      case Some(r) => r.ip == ip
      case None =>
        || MayKeep(s, t, q, ip)
        || ((forall a :: !MayKeep(s, t, q, a))
            && if q.requested.Some? && Obtainable(s, t, q, q.requested.value) then q.requested == Some(ip)
               else FirstFree(s, t, q, ip))
  {
    hide Pick, MayKeep, Obtainable, FirstFree, Consistent;
    PickIsPriority(s, t, q, ip);
    if Pick(s, t, q).Some? && Pick(s, t, q).value.ip == ip {
      assert Pick(s, t, q) == Some(Grant(ip, Pick(s, t, q).value.source));
      match Pick(s, t, q).value.source {
        case Reserved =>
        case Existing =>
        case Requested =>
        case Pool =>
      }
    }
  }

  lemma {:induction false} PickAgainstClaim(s: Scope, t: Table, q: Query, claimed: Ip)
    requires Consistent(t) && q.requested == Some(claimed)
    ensures MayHave(s, t, q, claimed) <==> Pick(s, t, q).Some? && Pick(s, t, q).value.ip == claimed
    ensures GivenElsewhere(s, t, q, claimed) <==> Pick(s, t, q).Some? && Pick(s, t, q).value.ip != claimed
    ensures forall ip :: GivenInstead(s, t, q, claimed, ip) <==>
      Pick(s, t, q).Some? && Pick(s, t, q).value.ip == ip && ip != claimed
  {
    hide Pick, MayKeep, Obtainable, FirstFree, Consistent;
    PickNoneIffExhausted(s, t, q);
    FirstFreeIsObtainable(s, t, q);
    PickedIff(s, t, q, claimed);
    forall ip
      ensures GivenInstead(s, t, q, claimed, ip) <==>
        Pick(s, t, q).Some? && Pick(s, t, q).value.ip == ip && ip != claimed
    {
      PickedIff(s, t, q, ip);
    }
    if Pick(s, t, q).Some? {
      PickedIff(s, t, q, Pick(s, t, q).value.ip);
    }
    if a :| a != claimed && MayKeep(s, t, q, a) {
      PickedIff(s, t, q, a);
    }
  }

  lemma {:induction false} FirstFreeIsObtainable(s: Scope, t: Table, q: Query)
    ensures forall ip :: FirstFree(s, t, q, ip) ==> Obtainable(s, t, q, ip)
  {
  }

  predicate IsNak(o: Outcome, why: NakReason) {
    o.Answered? && o.reply.kind == Nak && o.reply.reason == Some(why)
  }

  /** Every answer to a REQUEST, told from the state it arrives in. */
  lemma {:induction false} RequestVerdict(
      scopes: seq<Scope>, t: Table, msg: Message, ctx: Ctx, s: Scope, client: ClientId)
    requires Consistent(t) && Served(scopes, msg, ctx, s, client) && msg.kind == Some(Request)
    ensures var o, q := Handle(scopes, t, msg, ctx).1, RequestQuery(msg, client, ctx);
      && (o == Dropped(ChoseAnotherServer) <==> ChoseAnother(msg, ctx))
      && (IsNak(o, NoAddressNamed) <==> !ChoseAnother(msg, ctx) && ClaimedAddress(msg).None?)
      && (IsNak(o, NotInSubnet) <==>
            !ChoseAnother(msg, ctx) && ClaimedAddress(msg).Some? && !s.Contains(ClaimedAddress(msg).value))
      && (IsNak(o, NothingAvailable) <==>
            && Allocates(s, msg, ctx)
            && s.ReservationFor(client).None?
            && (forall a :: !MayKeep(s, t, q, a)) && (forall a :: !Obtainable(s, t, q, a)))
      && (IsNak(o, NoLongerYours) <==>
            Allocates(s, msg, ctx) && GivenElsewhere(s, t, q, ClaimedAddress(msg).value))
      && (o.Answered? && o.reply.kind == Ack <==>
            Allocates(s, msg, ctx) && MayHave(s, t, q, ClaimedAddress(msg).value))
  {
    hide Pick, MayHave, GivenElsewhere, MayKeep, Obtainable, Consistent, Scope.Contains, Recorded;
    if Allocates(s, msg, ctx) {
      PickNoneIffExhausted(s, t, RequestQuery(msg, client, ctx));
      PickAgainstClaim(s, t, RequestQuery(msg, client, ctx), ClaimedAddress(msg).value);
    }
  }

  /** A NAK is not always neutral. It changes the table exactly when there is a usable
      address to give the client instead of the one it named and the record it would get
      there is not already in place; and then that address has been bound to it. */
  lemma {:induction false} NakMayBind(
      scopes: seq<Scope>, t: Table, msg: Message, ctx: Ctx, s: Scope, client: ClientId)
    requires Consistent(t) && Served(scopes, msg, ctx, s, client) && msg.kind == Some(Request)
    ensures var (t', o) := Handle(scopes, t, msg, ctx);
      && (o.Answered? && o.reply.kind == Nak && t' != t <==> exists ip :: BoundInstead(s, t, msg, client, ctx, ip))
      && (forall ip :: BoundInstead(s, t, msg, client, ctx, ip) ==>
            && IsNak(o, NoLongerYours)
            && BoundUntil(t', s, client, ip, ctx.now + RequestedLeaseSecs(msg, s)))
  {
    hide Pick, GivenInstead, Consistent, Scope.Contains, Served;
    var q, tmpl := RequestQuery(msg, client, ctx), BoundLease(s, t, msg, client, ctx);
    RequestOutcome(scopes, t, msg, ctx, s, client);
    if Allocates(s, msg, ctx) {
      PickAgainstClaim(s, t, q, ClaimedAddress(msg).value);
      if Pick(s, t, q).Some? {
        var ip := Pick(s, t, q).value.ip;
        GrantRecorded(s, t, q, tmpl);
        RewriteIsNeutral(t, tmpl.(ip := ip));
        assert BoundInstead(s, t, msg, client, ctx, ip) <==>
          ip != ClaimedAddress(msg).value && Recorded(s, t, q, tmpl) != t;
      }
    }
  }

  /** The REQUEST gets the client a new record at `ip`, an address it did not name. */
  ghost predicate BoundInstead(s: Scope, t: Table, msg: Message, client: ClientId, ctx: Ctx, ip: Ip) {
    && msg.kind == Some(Request) && Allocates(s, msg, ctx)
    && GivenInstead(s, t, RequestQuery(msg, client, ctx), ClaimedAddress(msg).value, ip)
    && UsableBy(t, s.id, ip, client, ctx.now)
    && At(t, Slot(s.id, ip)) != Some(BoundLease(s, t, msg, client, ctx).(ip := ip))
  }

  lemma {:induction false} RequestOutcome(
      scopes: seq<Scope>, t: Table, msg: Message, ctx: Ctx, s: Scope, client: ClientId)
    requires Served(scopes, msg, ctx, s, client) && msg.kind == Some(Request)
    ensures var (t', o) := Handle(scopes, t, msg, ctx);
      var q := RequestQuery(msg, client, ctx);
      if Allocates(s, msg, ctx) then
        && t' == Recorded(s, t, q, BoundLease(s, t, msg, client, ctx))
        && match Pick(s, t, q)
           case None => IsNak(o, NothingAvailable)
           case Some(g) =>
             if g.ip != ClaimedAddress(msg).value then IsNak(o, NoLongerYours)
             else o.Answered? && o.reply.kind == Ack
      else
        o.Answered? ==> o.reply.kind == Nak && t' == t
  {
    hide Pick, Recorded;
  }

  /** Writing a record that is there already changes nothing. */
  lemma {:induction false} RewriteIsNeutral(t: Table, l: Lease)
    requires Consistent(t)
    ensures Insert(t, l) == t <==> At(t, SlotOf(l)) == Some(l)
  {
    if At(t, SlotOf(l)) == Some(l) {
      assert t.index[HolderOf(l)] == l.ip;
      assert Insert(t, l).leases == t.leases && Insert(t, l).index == t.index;
    } else {
      assert Insert(t, l).leases[SlotOf(l)] == l;
    }
  }

  /** It does happen: a client that may keep its address and asks for another one in the
      subnet is told no, and bound to the address it had for a fresh lease. */
  lemma {:induction false} AskingElsewhereBinds(
      scopes: seq<Scope>, t: Table, msg: Message, ctx: Ctx, s: Scope, client: ClientId, had: Ip)
    requires Consistent(t) && Served(scopes, msg, ctx, s, client)
    requires msg.kind == Some(Request) && Allocates(s, msg, ctx) && ClaimedAddress(msg).value != had
    requires s.ReservationFor(client).None? && MayKeep(s, t, RequestQuery(msg, client, ctx), had)
    ensures var (t', o) := Handle(scopes, t, msg, ctx);
      IsNak(o, NoLongerYours) && BoundUntil(t', s, client, had, ctx.now + RequestedLeaseSecs(msg, s))
  {
    hide Pick, Scope.Contains, Served, Recorded;
    var q := RequestQuery(msg, client, ctx);
    RequestOutcome(scopes, t, msg, ctx, s, client);
    PickIsPriority(s, t, q, had);
    GrantRecorded(s, t, q, BoundLease(s, t, msg, client, ctx));
  }

  // ----- What an ACK promises -----

  /** What one reply promises no other reply breaks. Once a client's REQUEST has been
      acknowledged with an address it could use, then for as long as the acknowledged lease
      runs, no OFFER or ACK of any run gives that address in that scope to anyone else,
      unless the client speaks again, someone declines the address there, an administrative
      step takes it away, or it is reserved for the other. */
  lemma {:induction false} AcknowledgedAddressIsExclusive(
      sys: Sys, request: Timed, client: ClientId, es: seq<Timed>, i: nat)
    requires Consistent(sys.table)
    requires request.event.Packet? && request.event.msg.kind == Some(Request)
    requires ClientIdOf(request.event.msg) == Some(client)
    requires var o := Answer(sys, request);
      && o.Answered? && o.reply.kind == Ack && o.reply.timers.Some?
      && UsableBy(sys.table, o.reply.scopeId, o.reply.yiaddr, client, request.now)
    requires i < |es| && es[i].event.Packet?
    requires var r := Answer(sys, request).reply;
      forall j :: 0 <= j < |es| ==>
        && es[j].now < request.now + r.timers.value.lease
        && SparedAt(Step(sys, request), es, j, Slot(r.scopeId, r.yiaddr), client)
    ensures var r := Answer(sys, request).reply;
      var now := After(Step(sys, request), es, i);
      Hands(Answer(now, es[i]), r.scopeId, r.yiaddr) ==>
        && ClientIdOf(es[i].event.msg).Some?
        && ReservedFor(now.scopes, Slot(r.scopeId, r.yiaddr), ClientIdOf(es[i].event.msg).value)
  {
    hide Step, Consistent, Spares;
    var k := AckRecords(sys, request, client);
    StepConsistent(sys, request);
    BoundLeaseIsExclusive(Step(sys, request), es, k, i);
  }

  lemma {:induction false} AckRecords(sys: Sys, request: Timed, client: ClientId) returns (k: Slot)
    requires Consistent(sys.table)
    requires request.event.Packet? && request.event.msg.kind == Some(Request)
    requires ClientIdOf(request.event.msg) == Some(client)
    requires var o := Answer(sys, request);
      && o.Answered? && o.reply.kind == Ack
      && UsableBy(sys.table, o.reply.scopeId, o.reply.yiaddr, client, request.now)
    ensures var r, t' := Answer(sys, request).reply, Step(sys, request).table;
      && k == Slot(r.scopeId, r.yiaddr) && k in t'.leases
      && t'.leases[k].client == client && t'.leases[k].state == Bound
      && r.timers.Some? && t'.leases[k].expiresAt == request.now + r.timers.value.lease
  {
    var s, _ := AckMatchesTable(sys.scopes, sys.table, request.event.msg, CtxOf(request));
    k := Slot(s.id, Answer(sys, request).reply.yiaddr);
    ReplyNamesScope(sys, request, s);
  }

  lemma {:induction false} ReplyNamesScope(sys: Sys, e: Timed, s: Scope)
    requires e.event.Packet? && Answer(sys, e).Answered?
    requires SelectScope(sys.scopes, e.event.msg, CtxOf(e)) == Success(s)
    ensures Answer(sys, e).reply.scopeId == s.id
  {
    var _, _ := AnswersComeFromAllocator(sys.scopes, sys.table, e.event.msg, CtxOf(e));
  }

  // ----- What a DISCOVER does to its sender's lease -----

  /** The DISCOVER gets its sender nothing on record: its reservation is unusable, or it has
      no reservation, may not keep the record at `ip` and can obtain no address. */
  ghost predicate GetsNothing(s: Scope, t: Table, q: Query, ip: Ip) {
    match s.ReservationFor(q.client)
    case Some(r) => !Usable(s, t, q, r.ip)
    case None => !MayKeep(s, t, q, ip) && forall a :: !Obtainable(s, t, q, a)
  }

  /** A DISCOVER is not neutral for a client that is bound. Its Bound record is untouched
      exactly when the DISCOVER gets it nothing. Otherwise the record is gone if the address
      is no longer the client's to have, and is replaced by a placeholder if it is; and
      then the client has lost time exactly when it had more left than an offer lasts. */
  lemma {:induction false} DiscoverShortensOwnLease(
      scopes: seq<Scope>, t: Table, msg: Message, ctx: Ctx, s: Scope, client: ClientId, k: Slot)
    requires Consistent(t) && Served(scopes, msg, ctx, s, client) && msg.kind == Some(Discover)
    requires k.scope == s.id && k in t.leases
    requires t.leases[k].client == client && t.leases[k].state == Bound
    ensures var t', was := Handle(scopes, t, msg, ctx).0, t.leases[k];
      var nothing := GetsNothing(s, t, DiscoverQuery(msg, client, ctx), k.ip);
      && (At(t', k) == Some(was) <==> nothing)
      && (At(t', k).None? <==> !nothing && !EntitledTo(s, client, k.ip))
      && (At(t', k).Some? && At(t', k) != Some(was) <==> !nothing && EntitledTo(s, client, k.ip))
      && (!nothing && EntitledTo(s, client, k.ip) ==>
            && t'.leases[k].client == client && t'.leases[k].state == Offered
            && t'.leases[k].expiresAt == ctx.now + s.offerSecs
            && (t'.leases[k].expiresAt < was.expiresAt <==> was.expiresAt > ctx.now + s.offerSecs))
  {
    hide Pick, MayKeep, Obtainable, Scope.IsPoolable, Recorded;
    var q, tmpl := DiscoverQuery(msg, client, ctx), OfferLease(s, msg, client, ctx);
    assert Handle(scopes, t, msg, ctx).0 == Recorded(s, t, q, tmpl);
    OwnRecordAfter(s, t, q, tmpl, k);
  }

  lemma {:induction false} OwnRecordAfter(s: Scope, t: Table, q: Query, tmpl: Lease, k: Slot)
    requires Consistent(t) && IsTemplate(tmpl, s, q) && tmpl.state == Offered
    requires k.scope == s.id && k in t.leases && t.leases[k].client == q.client && t.leases[k].state == Bound
    ensures At(Recorded(s, t, q, tmpl), k) ==
      if GetsNothing(s, t, q, k.ip) then Some(t.leases[k])
      else if EntitledTo(s, q.client, k.ip) then Some(tmpl.(ip := k.ip))
      else None
  {
    assert SlotOf(t.leases[k]) == k && HolderOf(t.leases[k]) == Holder(s.id, q.client);
    forall a | MayKeep(s, t, q, a)
      ensures a == k.ip
    {
      assert HolderOf(t.leases[Slot(s.id, a)]) == Holder(s.id, q.client);
    }
    assert s.ReservationFor(q.client).None? ==> (MayKeep(s, t, q, k.ip) <==> EntitledTo(s, q.client, k.ip));
    hide Pick, MayKeep, Obtainable, Scope.IsPoolable, FirstFree;
    PickNoneIffExhausted(s, t, q);
    if Pick(s, t, q).Some? {
      var ip := Pick(s, t, q).value.ip;
      PickIsPriority(s, t, q, ip);
      PickIsPriority(s, t, q, k.ip);
      GrantRecorded(s, t, q, tmpl);
      AtInsert(t, tmpl.(ip := ip), k);
    }
  }
}
