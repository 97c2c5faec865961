/** What one packet does and how it is answered, told from the fields its sender filled
    in and the state it arrives in. */
module Answers {
  import opened Prelude
  import opened Addr
  import opened Scopes
  import opened Leases
  import opened Tables
  import opened Allocation
  import opened Server
  import opened Effects
  import opened Validation
  import opened Exclusivity
  import opened Agreement

  // ----- Who sent it, and who serves it -----

  /** The sender names itself: by a client identifier, or by a hardware address. */
  predicate Identified(msg: Message) {
    || (msg.clientIdentifier.Some? && msg.clientIdentifier.value != [])
    || (|msg.chaddr| >= 6 && exists i :: 0 <= i < 6 && msg.chaddr[i] != 0)
  }

  /** The bytes that tell senders apart: option 61, or else the Ethernet form of the first
      six bytes of the hardware address. */
  function ClientBytes(msg: Message): seq<Byte> {
    if msg.clientIdentifier.Some? && msg.clientIdentifier.value != [] then msg.clientIdentifier.value
    else if |msg.chaddr| >= 6 then [1] + msg.chaddr[..6]
    else []
  }

  lemma {:induction false} IdentifiedIff(msg: Message)
    ensures Identified(msg) <==> ClientIdOf(msg).Some?
  {
    if |msg.chaddr| >= 6 {
      assert msg.chaddr[..6] == MAC_ZERO <==> forall i :: 0 <= i < 6 ==> msg.chaddr[i] == 0;
    }
  }

  /** Two senders are one client exactly when their bytes are the same. */
  lemma {:induction false} SendersCoincideIff(a: Message, b: Message)
    requires Identified(a) && Identified(b)
    ensures ClientIdOf(a) == ClientIdOf(b) <==> ClientBytes(a) == ClientBytes(b)
  {
    IdentifiedIff(a);
    IdentifiedIff(b);
    IdentityIsBytes(a);
    IdentityIsBytes(b);
    FromPartsOfBytes(ClientBytes(a), ClientBytes(b));
  }

  lemma {:induction false} IdentityIsBytes(msg: Message)
    requires ClientIdOf(msg).Some?
    ensures ClientBytes(msg) != []
    ensures ClientIdOf(msg) == Some(FromParts(Some(ClientBytes(msg)), MAC_ZERO))
  {
    if msg.clientIdentifier.None? || msg.clientIdentifier.value == [] {
      assert ClientBytes(msg)[1..] == msg.chaddr[..6];
    }
  }

  lemma {:induction false} FromPartsOfBytes(a: seq<Byte>, b: seq<Byte>)
    requires a != [] && b != []
    ensures FromParts(Some(a), MAC_ZERO) == FromParts(Some(b), MAC_ZERO) <==> a == b
  {
    FromPartsSeparatesClients(a, b, MAC_ZERO, MAC_ZERO);
  }

  /** The scope contains the address that tells the sender's subnet: the relay's if the
      packet was relayed, else the sender's own if it has one, else the listener's. */
  predicate IsHome(s: Scope, msg: Message, ctx: Ctx) {
    && (msg.giaddr != UNSPECIFIED ==> s.Contains(msg.giaddr))
    && (msg.giaddr == UNSPECIFIED && msg.ciaddr != UNSPECIFIED ==> s.Contains(msg.ciaddr))
    && (msg.giaddr == UNSPECIFIED && msg.ciaddr == UNSPECIFIED ==> s.Contains(ctx.serverIp))
  }

  /** A packet is served exactly when it is a request with a type from an identified sender
      whose subnet some enabled scope has; the scope that serves it is such a one, its
      answers come from there, and every record it touches is there. */
  lemma {:induction false} ServedAtHome(scopes: seq<Scope>, t: Table, msg: Message, ctx: Ctx)
    requires Consistent(t)
    ensures (exists s, client :: Served(scopes, msg, ctx, s, client)) <==>
      && msg.isBootRequest && msg.kind.Some? && Identified(msg)
      && exists s :: s in scopes && s.enabled && IsHome(s, msg, ctx)
    ensures forall s, client :: Served(scopes, msg, ctx, s, client) ==>
      s in scopes && s.enabled && IsHome(s, msg, ctx)
    ensures var o := Handle(scopes, t, msg, ctx).1; o.Answered? ==>
      exists s :: s in scopes && s.enabled && IsHome(s, msg, ctx) && s.id == o.reply.scopeId
    ensures var t' := Handle(scopes, t, msg, ctx).0; forall k :: At(t', k) != At(t, k) ==>
      exists s :: s in scopes && s.enabled && IsHome(s, msg, ctx) && s.id == k.scope
  {
    hide Handle, SelectScope, Scope.Contains, Consistent, ClientIdOf, Identified;
    IdentifiedIff(msg);
    SelectedIsHome(scopes, msg, ctx);
    if ClientIdOf(msg).Some? && SelectScope(scopes, msg, ctx).Success? && msg.isBootRequest && msg.kind.Some? {
      assert Served(scopes, msg, ctx, SelectScope(scopes, msg, ctx).value, ClientIdOf(msg).value);
    }
    if Handle(scopes, t, msg, ctx).1.Answered? {
      var s, client := AnswersComeFromAllocator(scopes, t, msg, ctx);
    }
    forall k | At(Handle(scopes, t, msg, ctx).0, k) != At(t, k)
      ensures exists s :: s in scopes && s.enabled && IsHome(s, msg, ctx) && s.id == k.scope
    {
      EffectsAreConfined(scopes, t, msg, ctx, k);
    }
  }

  lemma {:induction false} SelectedIsHome(scopes: seq<Scope>, msg: Message, ctx: Ctx)
    ensures match SelectScope(scopes, msg, ctx)
      case Success(s) => s in scopes && s.enabled && IsHome(s, msg, ctx)
      case Failure(why) =>
        && (forall s :: s in scopes ==> !(s.enabled && IsHome(s, msg, ctx)))
        && why == if exists s :: s in scopes && IsHome(s, msg, ctx) then ScopeDisabled else NoMatchingScope
  {
    hide Scope.Contains, Covering, FirstEnabled;
    var matched := Covering(scopes, ScopeKey(msg, ctx));
    FirstEnabledIsMember(matched);
    forall s
      ensures s in matched <==> s in scopes && IsHome(s, msg, ctx)
    {
      CoveringMembers(scopes, ScopeKey(msg, ctx), s);
    }
    assert matched != [] ==> matched[0] in matched;
  }

  /** For a relayed packet neither the listener nor the sender's own address matters to the
      choice of the scope, nor to what a DISCOVER or a DECLINE does; for a direct packet
      from a sender with an address the listener does not. */
  lemma {:induction false} RelayDecides(
      scopes: seq<Scope>, t: Table, msg: Message, ctx: Ctx, ciaddr: Ip, serverIp: Ip)
    ensures msg.giaddr != UNSPECIFIED ==>
      SelectScope(scopes, msg.(ciaddr := ciaddr), ctx.(serverIp := serverIp)) == SelectScope(scopes, msg, ctx)
    ensures msg.giaddr != UNSPECIFIED && (msg.kind == Some(Discover) || msg.kind == Some(Decline)) ==>
      Handle(scopes, t, msg.(ciaddr := ciaddr), ctx.(serverIp := serverIp)).0 == Handle(scopes, t, msg, ctx).0
    ensures msg.ciaddr != UNSPECIFIED ==>
      SelectScope(scopes, msg, ctx.(serverIp := serverIp)) == SelectScope(scopes, msg, ctx)
  {
    hide Covering, FirstEnabled, Recorded, Insert;
    if msg.giaddr != UNSPECIFIED && (msg.kind == Some(Discover) || msg.kind == Some(Decline)) {
      var other, elsewhere := msg.(ciaddr := ciaddr), ctx.(serverIp := serverIp);
      assert ClientIdOf(other) == ClientIdOf(msg);
      assert SelectScope(scopes, other, elsewhere) == SelectScope(scopes, msg, ctx);
      SameEffect(scopes, t, msg, ctx, other, elsewhere);
    }
  }

  lemma {:induction false} SameEffect(scopes: seq<Scope>, t: Table, a: Message, at: Ctx, b: Message, bt: Ctx)
    requires a.kind == Some(Discover) || a.kind == Some(Decline)
    requires b == a.(ciaddr := b.ciaddr) && bt == at.(serverIp := bt.serverIp)
    requires SelectScope(scopes, b, bt) == SelectScope(scopes, a, at)
    ensures Handle(scopes, t, b, bt).0 == Handle(scopes, t, a, at).0
  {
    hide SelectScope, Recorded, Pick, Insert;
    assert ClientIdOf(a) == ClientIdOf(b);
    forall s: Scope, client: ClientId
      ensures DiscoverQuery(a, client, at) == DiscoverQuery(b, client, bt)
      ensures OfferLease(s, a, client, at) == OfferLease(s, b, client, bt)
    {
    }
  }

  // ----- Why nothing is answered -----

  /** A packet that no scope serves is dropped, and why. */
  lemma {:induction false} WhyUnserved(scopes: seq<Scope>, t: Table, msg: Message, ctx: Ctx)
    ensures var o := Handle(scopes, t, msg, ctx).1;
      var complete := msg.isBootRequest && msg.kind.Some? && Identified(msg);
      && (o == Dropped(NotBootRequest) <==> !msg.isBootRequest)
      && (o == Dropped(NoMessageType) <==> msg.isBootRequest && msg.kind.None?)
      && (o == Dropped(UnidentifiableClient) <==> msg.isBootRequest && msg.kind.Some? && !Identified(msg))
      && (o == Dropped(NoMatchingScope) <==> complete && forall s :: s in scopes ==> !IsHome(s, msg, ctx))
      && (o == Dropped(ScopeDisabled) <==>
            && complete && (exists s :: s in scopes && IsHome(s, msg, ctx))
            && forall s :: s in scopes && IsHome(s, msg, ctx) ==> !s.enabled)
  {
    hide SelectScope, Pick, Recorded, IsHome, ClientIdOf, Identified, WithdrawOffer, Insert, Remove, Scope.Contains;
    IdentifiedIff(msg);
    SelectedIsHome(scopes, msg, ctx);
  }

  /** A packet that is served is dropped all the same, and why. */
  lemma {:induction false} WhyRefused(
      scopes: seq<Scope>, t: Table, msg: Message, ctx: Ctx, s: Scope, client: ClientId)
    requires Consistent(t) && Served(scopes, msg, ctx, s, client)
    ensures var o, q := Handle(scopes, t, msg, ctx).1, DiscoverQuery(msg, client, ctx);
      && (o == Dropped(UnsupportedType) <==> msg.kind.value in {Offer, Ack, Nak, OtherType})
      && (o == Dropped(PoolExhausted) <==>
            && msg.kind == Some(Discover) && (forall r :: r in s.reservations ==> r.client != client)
            && (forall ip :: !MayKeep(s, t, q, ip)) && (forall ip :: !Obtainable(s, t, q, ip)))
      && (o == Dropped(ChoseAnotherServer) <==>
            msg.kind == Some(Request) && msg.serverIdent.Some? && msg.serverIdent.value != ctx.serverIp)
      && (o == Dropped(DeclineWithoutAddress) <==> msg.kind == Some(Decline) && msg.requestedIp.None?)
      && (o == Dropped(ReleaseWithoutAddress) <==> msg.kind == Some(Release) && msg.ciaddr == UNSPECIFIED)
      && (o == Dropped(ReleaseNotOwned) <==>
            && msg.kind == Some(Release) && msg.ciaddr != UNSPECIFIED
            && !Holds(t, s.id, client, msg.ciaddr))
  {
    hide SelectScope, Pick, Recorded, ClientIdOf, MayKeep, Obtainable, Consistent, Insert, Remove, Scope.Contains;
    PickNoneIffExhausted(s, t, DiscoverQuery(msg, client, ctx));
  }

  // ----- What a reply carries -----

  /** Every reply repeats the request's transaction, hardware address and relay, names the
      listener it came in on as the server, and goes where the client can hear it; a NAK
      carries nothing else, and the answer to an INFORM neither address nor times. */
  lemma {:induction false} ReplyIsAddressed(scopes: seq<Scope>, t: Table, msg: Message, ctx: Ctx)
    requires Handle(scopes, t, msg, ctx).1.Answered?
    ensures var r := Handle(scopes, t, msg, ctx).1.reply;
      && r.xid == msg.xid && r.chaddr == msg.chaddr && r.giaddr == msg.giaddr
      && r.serverId == ctx.serverIp
      && r.ciaddr == (if r.kind == Ack then msg.ciaddr else UNSPECIFIED)
      && (r.kind == Nak ==> r.yiaddr == UNSPECIFIED && r.mask.None? && r.timers.None?)
      && (msg.kind == Some(Inform) ==> r.kind == Ack && r.yiaddr == UNSPECIFIED && r.timers.None?)
      && (r.dest == ToRelay(msg.giaddr) <==> msg.giaddr != UNSPECIFIED && msg.kind != Some(Inform))
      && (r.kind == Nak && msg.giaddr == UNSPECIFIED ==> r.dest == ToAll)
      && (r.kind != Nak && r.dest.ToClient? ==> r.dest.ip == msg.ciaddr && msg.ciaddr != UNSPECIFIED)
      && (r.kind != Nak && r.dest.ToYiaddr? ==> r.dest.ip == r.yiaddr && !msg.broadcast && msg.ciaddr == UNSPECIFIED)
      && (r.kind != Nak && r.dest.ToAll? ==> msg.ciaddr == UNSPECIFIED && (msg.broadcast || msg.kind == Some(Inform)))
  {
    hide SelectScope, Pick, Recorded, ClientIdOf, WithdrawOffer, Insert, Remove, Scope.Contains;
  }

  /** Every reply but a NAK carries the mask of the subnet it is for. */
  lemma {:induction false} MaskIsCarried(scopes: seq<Scope>, t: Table, msg: Message, ctx: Ctx)
    returns (s: Scope, client: ClientId)
    requires var o := Handle(scopes, t, msg, ctx).1; o.Answered? && o.reply.kind != Nak
    ensures Served(scopes, msg, ctx, s, client)
    ensures s.prefix <= 32 ==>
      Handle(scopes, t, msg, ctx).1.reply.mask == Some(0x1_0000_0000 - BlockSize(s.prefix))
  {
    hide SelectScope, Recorded, Pick, ClientIdOf, Netmask, WithdrawOffer, Insert, Remove, Scope.Contains;
    s, client := SelectScope(scopes, msg, ctx).value, ClientIdOf(msg).value;
    if s.prefix <= 32 {
      NetmaskValue(s.prefix);
    }
  }

  /** Every OFFER, and every ACK to a REQUEST, lends the address for the longest time the
      server may. */
  lemma {:induction false} LongestLeaseIsLent(scopes: seq<Scope>, t: Table, msg: Message, ctx: Ctx)
    returns (s: Scope, client: ClientId)
    requires var o := Handle(scopes, t, msg, ctx).1; o.Answered? && o.reply.source.Some?
    ensures Served(scopes, msg, ctx, s, client)
    ensures var r := Handle(scopes, t, msg, ctx).1.reply;
      && r.timers.Some?
      && MayLend(s, msg, r.timers.value.lease)
      && (forall secs: U32 :: MayLend(s, msg, secs) ==> secs <= r.timers.value.lease)
  {
    hide SelectScope, Recorded, Pick, ClientIdOf, Netmask;
    s, client := AnswersComeFromAllocator(scopes, t, msg, ctx);
    assert MayLend(s, msg, RequestedLeaseSecs(msg, s));
  }

  /** The record an OFFER or an ACK leaves: the sender's, on the address it was given, until
      the offer or the lease runs out, under the names it gave if any. */
  predicate IsRecordOf(l: Lease, s: Scope, msg: Message, client: ClientId, r: Reply, now: UnixTime) {
    && l.ip == r.yiaddr && l.client == client && l.scopeId == s.id
    && l.state == (if r.kind == Offer then Offered else Bound)
    && (r.kind == Offer ==> l.expiresAt == now + s.offerSecs)
    && (r.kind == Ack && r.timers.Some? ==> l.expiresAt == now + r.timers.value.lease)
    && l.lastSeen == now
    && (if msg.hostname == Some("") then l.hostname == None else l.hostname == msg.hostname)
    && (if msg.vendorClass == Some("") then l.vendorClass == None else l.vendorClass == msg.vendorClass)
  }

  /** What an OFFER or an ACK to a REQUEST does to the whole table, when the sender could
      use the address: its record there, its record elsewhere in the scope gone, nothing
      else. A REQUEST keeps the creation time of the record it replaces. */
  lemma {:induction false} GrantIsRecorded(
      scopes: seq<Scope>, t: Table, msg: Message, ctx: Ctx, s: Scope, client: ClientId, k: Slot)
    requires Consistent(t) && Served(scopes, msg, ctx, s, client)
    requires var o := Handle(scopes, t, msg, ctx).1;
      o.Answered? && o.reply.source.Some? && UsableBy(t, s.id, o.reply.yiaddr, client, ctx.now)
    ensures var (t', o) := Handle(scopes, t, msg, ctx);
      if k == Slot(s.id, o.reply.yiaddr) then
        && At(t', k).Some? && IsRecordOf(t'.leases[k], s, msg, client, o.reply, ctx.now)
        && (forall ip :: Holds(t, s.id, client, ip) && o.reply.kind == Ack ==>
              t'.leases[k].createdAt == t.leases[Slot(s.id, ip)].createdAt)
        && ((forall ip :: !Holds(t, s.id, client, ip)) || o.reply.kind == Offer ==>
              t'.leases[k].createdAt == ctx.now)
      else
        At(t', k) == if k.scope == s.id && Holds(t, s.id, client, k.ip) then None else At(t, k)
  {
    hide SelectScope, Pick, Insert, Allocates, Handle, ClientIdOf, Consistent, CreatedAt;
    GrantInserts(scopes, t, msg, ctx, s, client);
    var r := Handle(scopes, t, msg, ctx).1.reply;
    AtInsert(t, Granted(s, t, msg, client, ctx, r.yiaddr), k);
    AtIsHolds(t, s.id, client, k);
    CreationIsKept(t, s, client, ctx);
  }

  /** The record a grant writes. */
  function Granted(s: Scope, t: Table, msg: Message, client: ClientId, ctx: Ctx, ip: Ip): Lease {
    if msg.kind == Some(Discover) then OfferLease(s, msg, client, ctx).(ip := ip)
    else BoundLease(s, t, msg, client, ctx).(ip := ip)
  }

  lemma {:induction false} GrantInserts(
      scopes: seq<Scope>, t: Table, msg: Message, ctx: Ctx, s: Scope, client: ClientId)
    requires Consistent(t) && Served(scopes, msg, ctx, s, client)
    requires var o := Handle(scopes, t, msg, ctx).1;
      o.Answered? && o.reply.source.Some? && UsableBy(t, s.id, o.reply.yiaddr, client, ctx.now)
    ensures var (t', o) := Handle(scopes, t, msg, ctx);
      && t' == Insert(t, Granted(s, t, msg, client, ctx, o.reply.yiaddr))
      && o.reply.kind == (if msg.kind == Some(Discover) then Offer else Ack)
      && (o.reply.kind == Ack ==> o.reply.timers == Some(TimersFor(RequestedLeaseSecs(msg, s))))
  {
    var _, _ := AnswersComeFromAllocator(scopes, t, msg, ctx);
    hide SelectScope, Pick, Insert, ClientIdOf, Consistent, UsableBy, OfferLease, BoundLease, WithdrawOffer, Remove;
  }

  lemma {:induction false} CreationIsKept(t: Table, s: Scope, client: ClientId, ctx: Ctx)
    requires Consistent(t)
    ensures forall ip :: Holds(t, s.id, client, ip) ==>
      CreatedAt(t, s, client, ctx) == t.leases[Slot(s.id, ip)].createdAt
    ensures (forall ip :: !Holds(t, s.id, client, ip)) ==> CreatedAt(t, s, client, ctx) == ctx.now
  {
    forall ip | Holds(t, s.id, client, ip)
      ensures GetByClient(t, s.id, client) == Some(t.leases[Slot(s.id, ip)])
    {
      AtIsHolds(t, s.id, client, Slot(s.id, ip));
    }
    if GetByClient(t, s.id, client).Some? {
      HolderIsAt(t, s.id, client);
    }
  }

  lemma {:induction false} AtIsHolds(t: Table, scope: ScopeId, client: ClientId, k: Slot)
    requires Consistent(t)
    ensures k in t.leases && HolderOf(t.leases[k]) == Holder(scope, client) <==>
      k.scope == scope && Holds(t, scope, client, k.ip)
    ensures k.scope == scope && Holds(t, scope, client, k.ip) ==> GetByClient(t, scope, client) == Some(t.leases[k])
  {
    if k in t.leases {
      assert SlotOf(t.leases[k]) == k;
    }
  }

  // ----- What the other messages do -----

  /** A RELEASE frees its sender's address, in use or not, for anyone, and only its own. */
  lemma {:induction false} ReleaseFrees(
      scopes: seq<Scope>, t: Table, msg: Message, ctx: Ctx, s: Scope, client: ClientId, k: Slot)
    requires Consistent(t) && Served(scopes, msg, ctx, s, client)
    requires msg.kind == Some(Release) && msg.ciaddr != UNSPECIFIED
    ensures var (t', o) := Handle(scopes, t, msg, ctx);
      if Holds(t, s.id, client, msg.ciaddr) then
        && o == Handled(LeaseReleased)
        && At(t', k) == (if k == Slot(s.id, msg.ciaddr) then None else At(t, k))
        && forall other, later :: UsableBy(t', s.id, msg.ciaddr, other, later)
      else
        o == Dropped(ReleaseNotOwned) && t' == t
  {
    hide SelectScope, ClientIdOf;
    AtRemove(t, s.id, msg.ciaddr, k);
    AtRemove(t, s.id, msg.ciaddr, Slot(s.id, msg.ciaddr));
  }

  /** A REQUEST that names another server gives up its sender's placeholder in the scope,
      but no lease and no quarantine. */
  lemma {:induction false} ChoosingAnotherGivesUp(
      scopes: seq<Scope>, t: Table, msg: Message, ctx: Ctx, s: Scope, client: ClientId, k: Slot)
    requires Consistent(t) && Served(scopes, msg, ctx, s, client)
    requires msg.kind == Some(Request) && msg.serverIdent.Some? && msg.serverIdent.value != ctx.serverIp
    ensures At(Handle(scopes, t, msg, ctx).0, k) ==
      if k.scope == s.id && Holds(t, s.id, client, k.ip) && t.leases[k].state == Offered then None else At(t, k)
  {
    hide SelectScope, ClientIdOf, Recorded, Remove, Consistent;
    AtIsHolds(t, s.id, client, k);
    var l := GetByClient(t, s.id, client);
    if l.Some? {
      HolderIsAt(t, s.id, client);
      AtRemove(t, s.id, l.value.ip, k);
    }
  }

  lemma {:induction false} HolderIsAt(t: Table, scope: ScopeId, client: ClientId)
    requires Consistent(t) && GetByClient(t, scope, client).Some?
    ensures var l := GetByClient(t, scope, client).value;
      At(t, Slot(scope, l.ip)) == Some(l) && Holds(t, scope, client, l.ip)
      && forall ip :: Holds(t, scope, client, ip) ==> ip == l.ip
  {
    forall ip | Holds(t, scope, client, ip)
      ensures ip == GetByClient(t, scope, client).value.ip
    {
      AtIsHolds(t, scope, client, Slot(scope, ip));
    }
  }

  /** A DECLINE puts its address in quarantine under its sender's name for the time the
      scope sets, whoever held it, and drops the sender's other record. */
  lemma {:induction false} DeclineRecords(
      scopes: seq<Scope>, t: Table, msg: Message, ctx: Ctx, s: Scope, client: ClientId, k: Slot)
    requires Consistent(t) && Served(scopes, msg, ctx, s, client)
    requires msg.kind == Some(Decline) && msg.requestedIp.Some?
    ensures var (t', o) := Handle(scopes, t, msg, ctx);
      && o == Handled(AddressQuarantined)
      && if k == Slot(s.id, msg.requestedIp.value) then
           && At(t', k).Some? && t'.leases[k].state == Declined && t'.leases[k].client == client
           && t'.leases[k].expiresAt == ctx.now + s.declineQuarantineSecs
           && t'.leases[k].createdAt == t'.leases[k].lastSeen == ctx.now
           && t'.leases[k].hostname.None? && t'.leases[k].vendorClass.None?
         else
           At(t', k) == if k.scope == s.id && Holds(t, s.id, client, k.ip) then None else At(t, k)
  {
    hide SelectScope, ClientIdOf, Insert;
    AtInsert(t, DeclinedLease(s, msg.requestedIp.value, client, ctx), k);
    AtIsHolds(t, s.id, client, k);
  }

  // ----- Which address -----

  /** The address may be handed out dynamically, told with bounds: it is in a pool, in no
      exclusion, and strictly inside the block. */
  ghost predicate Assignable(s: Scope, ip: Ip)
    requires s.prefix <= 32
  {
    && (exists p :: p in s.pools && p.start <= ip <= p.end)
    && (forall e :: e in s.exclusions ==> ip < e.start || e.end < ip)
    && s.subnet < ip < s.subnet + BlockSize(s.prefix) - 1
  }

  lemma {:induction false} PoolableIsAssignable(s: Scope, ip: Ip)
    requires Sound(s)
    ensures s.IsPoolable(ip) <==> Assignable(s, ip)
  {
    ContainsIsInterval(s, ip);
    if exists p :: p in s.pools && p.start <= ip <= p.end {
      var p :| p in s.pools && p.start <= ip <= p.end;
      assert InBlock(s, p.start) && InBlock(s, p.end);
    }
    assert forall r: Range :: r.Contains(ip) <==> r.start <= ip <= r.end;
  }

  /** The first of the client's reservations is for this address. */
  ghost predicate IsFirstReserved(s: Scope, client: ClientId, ip: Ip) {
    exists i :: 0 <= i < |s.reservations|
      && s.reservations[i].client == client && s.reservations[i].ip == ip
      && forall j :: 0 <= j < i ==> s.reservations[j].client != client
  }

  lemma {:induction false} ReservationForIsFirst(s: Scope, client: ClientId)
    ensures s.ReservationFor(client).Some? ==> IsFirstReserved(s, client, s.ReservationFor(client).value.ip)
  {
    if s.ReservationFor(client).Some? {
      var i := PositionOfReservation(s.reservations, client);
    }
  }

  lemma {:induction false} PositionOfReservation(rs: seq<Reservation>, client: ClientId) returns (i: nat)
    requires FindReservation(rs, client).Some?
    ensures i < |rs| && rs[i] == FindReservation(rs, client).value
    ensures forall j :: 0 <= j < i ==> rs[j].client != client
  {
    if rs[0].client == client {
      i := 0;
    } else {
      i := PositionOfReservation(rs[1..], client);
      i := i + 1;
    }
  }

  /** In a validated scope an OFFER or ACK gives a client its reservation if it has one, and
      otherwise an assignable address that is reserved for nobody else; what the client did
      not have before was not in use elsewhere. */
  lemma {:induction false} HandedAddressIsProper(scopes: seq<Scope>, t: Table, msg: Message, ctx: Ctx)
    returns (s: Scope, client: ClientId)
    requires Consistent(t) && forall x :: x in scopes ==> ValidateErrors(x) == []
    requires var o := Handle(scopes, t, msg, ctx).1; o.Answered? && o.reply.source.Some?
    ensures Served(scopes, msg, ctx, s, client) && s.prefix <= 32
    ensures var ip := Handle(scopes, t, msg, ctx).1.reply.yiaddr;
      if exists r :: r in s.reservations && r.client == client then
        IsFirstReserved(s, client, ip)
      else
        && Assignable(s, ip)
        && (forall r :: r in s.reservations ==> r.ip != ip)
        && (ip in ctx.occupied ==> Holds(t, s.id, client, ip))
  {
    hide ValidateErrors, SelectScope, Handle, Pick, Scope.IsPoolable, Scope.Contains, Consistent, Sound;
    s, client := AnswersComeFromAllocator(scopes, t, msg, ctx);
    SelectedScopeServes(scopes, msg, ctx, s);
    ValidateIsExact(s);
    SoundPrefix(s);
    var q, ip := QueryOf(msg, client, ctx), Handle(scopes, t, msg, ctx).1.reply.yiaddr;
    GrantInSubnet(s, t, q);
    PoolableIsAssignable(s, ip);
    GrantOrigin(s, t, q);
    ReservationForIsFirst(s, client);
  }

  lemma {:induction false} SoundPrefix(s: Scope)
    requires Sound(s)
    ensures s.prefix <= 32
  {
  }

  lemma {:induction false} GrantOrigin(s: Scope, t: Table, q: Query)
    requires Consistent(t) && Pick(s, t, q).Some?
    ensures var ip := Pick(s, t, q).value.ip;
      match s.ReservationFor(q.client)
      case Some(r) => r.ip == ip
      case None => ip in q.occupied ==> Holds(t, s.id, q.client, ip)
  {
    hide Consistent, Scope.IsPoolable, Usable;
    var g := Pick(s, t, q).value;
    PickIsPriority(s, t, q, g.ip);
    match g.source {
      case Reserved =>
      case Existing =>
      case Requested =>
      case Pool =>
    }
  }

  /** The client has no reservation and no record in the scope. */
  predicate IsNewcomer(s: Scope, t: Table, client: ClientId) {
    s.ReservationFor(client).None? && Holder(s.id, client) !in t.index
  }

  /** The address is nobody's any more: no record, or one that is free or has run out. */
  predicate UpForTaking(t: Table, k: Slot, now: UnixTime) {
    At(t, k).Some? ==> t.leases[k].state == Free || t.leases[k].expiresAt <= now
  }

  /** A newcomer is offered the address it asks for exactly when the scope may give it out
      and nobody has it any more, to the second. */
  lemma {:induction false} AskedAddressIsOfferedIff(
      scopes: seq<Scope>, t: Table, msg: Message, ctx: Ctx, s: Scope, client: ClientId, ip: Ip)
    requires Consistent(t) && Served(scopes, msg, ctx, s, client) && Sound(s)
    requires msg.kind == Some(Discover) && msg.requestedIp == Some(ip) && IsNewcomer(s, t, client)
    ensures IsOfferOf(Handle(scopes, t, msg, ctx).1, ip) <==>
      && Assignable(s, ip) && (forall r :: r in s.reservations ==> r.ip != ip)
      && ip !in ctx.occupied && UpForTaking(t, Slot(s.id, ip), ctx.now)
  {
    hide Sound, SelectScope, Consistent, ClientIdOf, Scope.IsPoolable;
    var q := DiscoverQuery(msg, client, ctx);
    PoolableIsAssignable(s, ip);
    NewcomerKeepsNothing(s, t, q);
    NewcomerObtains(s, t, q, ip);
    hide Pick, MayKeep, Obtainable, FirstFree, Recorded, Assignable;
    PickNoneIffExhausted(s, t, q);
    PickIsPriority(s, t, q, ip);
    if Pick(s, t, q).Some? && Pick(s, t, q).value.ip == ip {
      assert Pick(s, t, q) == Some(Grant(ip, Pick(s, t, q).value.source));
      FirstFreeObtainable(s, t, q, ip);
      match Pick(s, t, q).value.source {
        case Reserved =>
        case Existing =>
        case Requested =>
        case Pool =>
      }
    }
  }

  lemma {:induction false} FirstFreeObtainable(s: Scope, t: Table, q: Query, ip: Ip)
    ensures FirstFree(s, t, q, ip) ==> Obtainable(s, t, q, ip)
  {
  }

  lemma {:induction false} NewcomerKeepsNothing(s: Scope, t: Table, q: Query)
    requires Consistent(t) && Holder(s.id, q.client) !in t.index
    ensures forall ip :: !MayKeep(s, t, q, ip)
  {
    forall ip
      ensures !MayKeep(s, t, q, ip)
    {
      if Slot(s.id, ip) in t.leases {
        assert HolderOf(t.leases[Slot(s.id, ip)]) in t.index;
      }
    }
  }

  lemma {:induction false} NewcomerObtains(s: Scope, t: Table, q: Query, ip: Ip)
    requires Consistent(t) && IsNewcomer(s, t, q.client)
    ensures Obtainable(s, t, q, ip) <==>
      && s.IsPoolable(ip) && (forall r :: r in s.reservations ==> r.ip != ip)
      && ip !in q.occupied && UpForTaking(t, Slot(s.id, ip), q.now)
  {
    hide Scope.IsPoolable;
    if Slot(s.id, ip) in t.leases {
      assert HolderOf(t.leases[Slot(s.id, ip)]) in t.index;
    }
  }

  /** A newcomer that asks for no address, or for one it cannot have, is offered the first
      address it can have in the order the pools are configured, lowest first in a pool. */
  lemma {:induction false} NewcomerIsOfferedFirst(
      scopes: seq<Scope>, t: Table, msg: Message, ctx: Ctx, s: Scope, client: ClientId, a: Ip)
    requires Consistent(t) && Served(scopes, msg, ctx, s, client) && PoolsDisjoint(s.pools)
    requires msg.kind == Some(Discover) && IsNewcomer(s, t, client)
    requires var q := DiscoverQuery(msg, client, ctx);
      Obtainable(s, t, q, a) && (msg.requestedIp.Some? ==> !Obtainable(s, t, q, msg.requestedIp.value))
    ensures var o := Handle(scopes, t, msg, ctx).1;
      && o.Answered? && o.reply.kind == Offer
      && Obtainable(s, t, DiscoverQuery(msg, client, ctx), o.reply.yiaddr)
      && (a == o.reply.yiaddr || Precedes(s.pools, o.reply.yiaddr, a))
  {
    hide SelectScope, Consistent, ClientIdOf, Scope.IsPoolable, Pick, MayKeep, Obtainable, FirstFree, Recorded;
    var q := DiscoverQuery(msg, client, ctx);
    NewcomerKeepsNothing(s, t, q);
    PickNoneIffExhausted(s, t, q);
    var g := Pick(s, t, q).value;
    PickIsPriority(s, t, q, g.ip);
    assert g.source == Pool by {
      match g.source {
        case Reserved =>
        case Existing =>
        case Requested =>
        case Pool =>
      }
    }
    FirstFreeObtainable(s, t, q, g.ip);
    PoolGrantIsFirst(s, t, q, g.ip, a);
  }
}
