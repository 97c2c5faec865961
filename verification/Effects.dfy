/** How far the effects of one packet reach. */
module Effects {
  import opened Prelude
  import opened Addr
  import opened Scopes
  import opened Leases
  import opened Tables
  import opened Allocation
  import opened Server

  /** The packet is handled in scope `s`, on behalf of `client`. */
  predicate Served(scopes: seq<Scope>, msg: Message, ctx: Ctx, s: Scope, client: ClientId) {
    && msg.isBootRequest
    && msg.kind.Some?
    && ClientIdOf(msg) == Some(client)
    && SelectScope(scopes, msg, ctx) == Success(s)
  }

  lemma {:induction false} SelectedScopeServes(scopes: seq<Scope>, msg: Message, ctx: Ctx, s: Scope)
    requires SelectScope(scopes, msg, ctx) == Success(s)
    ensures s in scopes && s.enabled && s.Contains(ScopeKey(msg, ctx))
  {
    FirstEnabledIsMember(Covering(scopes, ScopeKey(msg, ctx)));
    CoveringMembers(scopes, ScopeKey(msg, ctx), s);
  }

  lemma {:induction false} FirstEnabledIsMember(scopes: seq<Scope>)
    ensures FirstEnabled(scopes).Some? ==> FirstEnabled(scopes).value in scopes && FirstEnabled(scopes).value.enabled
    ensures FirstEnabled(scopes).None? ==> forall s :: s in scopes ==> !s.enabled
  {
    if scopes == [] {
    } else {
      FirstEnabledIsMember(scopes[1..]);
    }
  }

  lemma {:induction false} CoveringMembers(scopes: seq<Scope>, key: Ip, s: Scope)
    ensures s in Covering(scopes, key) <==> s in scopes && s.Contains(key)
  {
    if scopes == [] {
    } else {
      CoveringMembers(scopes[1..], key, s);
    }
  }

  /** The one change a packet can make. */
  datatype Action = Keep | Take(lease: Lease) | GiveBack(slot: Slot)

  function Perform(t: Table, a: Action): Table {
    match a
    case Keep => t
    case Take(l) => Insert(t, l)
    case GiveBack(k) => Remove(t, k.scope, k.ip)
  }

  /** What a DISCOVER or REQUEST asks of the allocator. */
  function QueryOf(msg: Message, client: ClientId, ctx: Ctx): Query {
    if msg.kind == Some(Request) then RequestQuery(msg, client, ctx) else DiscoverQuery(msg, client, ctx)
  }

  /** The packet reaches the allocator. */
  predicate Allocates(s: Scope, msg: Message, ctx: Ctx) {
    || msg.kind == Some(Discover)
    || (msg.kind == Some(Request) && !ChoseAnother(msg, ctx)
        && ClaimedAddress(msg).Some? && s.Contains(ClaimedAddress(msg).value))
  }

  predicate Declines(msg: Message, ip: Ip) {
    msg.kind == Some(Decline) && msg.requestedIp == Some(ip)
  }

  /** The packet gets as far as being handled, in a scope with this id. */
  predicate Reaches(scopes: seq<Scope>, msg: Message, ctx: Ctx, id: ScopeId) {
    && msg.isBootRequest && msg.kind.Some? && ClientIdOf(msg).Some?
    && SelectScope(scopes, msg, ctx).Success? && SelectScope(scopes, msg, ctx).value.id == id
  }

  /** When an action is one the packet may cause. */
  ghost predicate Legal(s: Scope, t: Table, msg: Message, client: ClientId, ctx: Ctx, a: Action) {
    match a
    case Keep => true
    case Take(l) =>
      && l.client == client && l.scopeId == s.id
      && (if l.state == Declined then
            Declines(msg, l.ip) && l == DeclinedLease(s, l.ip, client, ctx)
          else
            && Allocates(s, msg, ctx)
            && UsableBy(t, s.id, l.ip, client, ctx.now)
            && Pick(s, t, QueryOf(msg, client, ctx)).Some?
            && Pick(s, t, QueryOf(msg, client, ctx)).value.ip == l.ip
            && l == (if msg.kind == Some(Discover) then OfferLease(s, msg, client, ctx)
                     else BoundLease(s, t, msg, client, ctx)).(ip := l.ip))
    case GiveBack(k) =>
      && k in t.leases && t.leases[k].client == client && k.scope == s.id
      && (|| (msg.kind == Some(Release) && k.ip == msg.ciaddr)
          || (msg.kind == Some(Request) && ChoseAnother(msg, ctx) && t.leases[k].state == Offered))
  }

  lemma {:induction false} AllocationActs(s: Scope, t: Table, q: Query, tmpl: Lease) returns (a: Action)
    ensures Recorded(s, t, q, tmpl) == Perform(t, a)
    ensures a == Keep
      || (Pick(s, t, q).Some? && Usable(s, t, q, Pick(s, t, q).value.ip)
          && a == Take(tmpl.(ip := Pick(s, t, q).value.ip)))
    ensures Pick(s, t, q).Some? && Usable(s, t, q, Pick(s, t, q).value.ip) ==> a.Take?
  {
    var p := Pick(s, t, q);
    if p.Some? && Usable(s, t, q, p.value.ip) {
      a := Take(tmpl.(ip := p.value.ip));
    } else {
      a := Keep;
    }
  }

  lemma {:induction false} DispatchActs(s: Scope, t: Table, msg: Message, client: ClientId, ctx: Ctx)
    returns (a: Action)
    requires Consistent(t) && msg.kind.Some?
    ensures Dispatch(s, t, msg, msg.kind.value, client, ctx).0 == Perform(t, a)
    ensures Legal(s, t, msg, client, ctx, a)
  {
    a := Keep;
    match msg.kind.value {
      case Discover =>
        a := AllocationActs(s, t, DiscoverQuery(msg, client, ctx), OfferLease(s, msg, client, ctx));
      case Request =>
        if ChoseAnother(msg, ctx) {
          var l := GetByClient(t, s.id, client);
          if l.Some? && l.value.state == Offered {
            a := GiveBack(Slot(s.id, l.value.ip));
          }
        } else if Allocates(s, msg, ctx) {
          a := AllocationActs(s, t, RequestQuery(msg, client, ctx), BoundLease(s, t, msg, client, ctx));
        }
      case Decline =>
        if msg.requestedIp.Some? {
          a := Take(DeclinedLease(s, msg.requestedIp.value, client, ctx));
        }
      case Release =>
        if msg.ciaddr != UNSPECIFIED {
          var l := GetByIp(t, s.id, msg.ciaddr);
          if l.Some? && l.value.client == client {
            a := GiveBack(Slot(s.id, msg.ciaddr));
          }
        }
      case _ =>
    }
  }

  /** Every packet performs one legal action in the scope it selects, or none at all. */
  lemma {:induction false} HandleActs(scopes: seq<Scope>, t: Table, msg: Message, ctx: Ctx)
    returns (s: Option<Scope>, a: Action)
    requires Consistent(t)
    ensures Handle(scopes, t, msg, ctx).0 == Perform(t, a)
    ensures s.None? ==> a == Keep
    ensures s.Some? ==> ClientIdOf(msg).Some?
    ensures s.Some? ==> Served(scopes, msg, ctx, s.value, ClientIdOf(msg).value)
    ensures s.Some? ==> Legal(s.value, t, msg, ClientIdOf(msg).value, ctx, a)
  {
    s, a := None, Keep;
    if msg.isBootRequest && msg.kind.Some? && ClientIdOf(msg).Some? {
      match SelectScope(scopes, msg, ctx) {
        case Failure(_) =>
        case Success(sel) =>
          s := Some(sel);
          a := DispatchActs(sel, t, msg, ClientIdOf(msg).value, ctx);
      }
    }
  }

  lemma {:induction false} PerformConsistent(t: Table, a: Action)
    requires Consistent(t)
    ensures Consistent(Perform(t, a))
  {
    match a {
      case Keep =>
      case Take(l) => InsertConsistent(t, l);
      case GiveBack(k) => RemoveConsistent(t, k.scope, k.ip);
    }
  }

  lemma {:induction false} HandleConsistent(scopes: seq<Scope>, t: Table, msg: Message, ctx: Ctx)
    requires Consistent(t)
    ensures Consistent(Handle(scopes, t, msg, ctx).0)
  {
    var _, a := HandleActs(scopes, t, msg, ctx);
    PerformConsistent(t, a);
  }

  // ----- Confinement -----

  /** The address a packet is granted, or declares unusable. */
  function Target(s: Scope, t: Table, msg: Message, client: ClientId, ctx: Ctx): Option<Ip> {
    if msg.kind == Some(Decline) then msg.requestedIp
    else if Allocates(s, msg, ctx) then
      match Pick(s, t, QueryOf(msg, client, ctx))
      case Some(g) => Some(g.ip)
      case None => None
    else None
  }

  /** The record at `k` was the client's and is gone. */
  ghost predicate Lost(t: Table, t': Table, client: ClientId, k: Slot) {
    At(t, k).Some? && At(t, k).value.client == client && At(t', k).None?
  }

  /** The record at `k` is the client's now; if it was someone else's, it was up for taking. */
  ghost predicate Gained(t: Table, t': Table, client: ClientId, k: Slot, msg: Message, now: UnixTime) {
    && At(t', k).Some? && At(t', k).value.client == client
    && (msg.kind == Some(Decline) || UsableBy(t, k.scope, k.ip, client, now))
  }

  /** A packet from one client changes nothing but that client's own record and the
      single address it was granted or declined, in the one scope it selects. */
  lemma {:induction false} EffectsAreConfined(scopes: seq<Scope>, t: Table, msg: Message, ctx: Ctx, k: Slot)
    requires Consistent(t)
    ensures var t' := Handle(scopes, t, msg, ctx).0;
      At(t', k) != At(t, k) ==>
        exists s, client :: Served(scopes, msg, ctx, s, client) && k.scope == s.id
          && (|| Lost(t, t', client, k)
              || (Target(s, t, msg, client, ctx) == Some(k.ip) && Gained(t, t', client, k, msg, ctx.now)))
  {
    var t' := Handle(scopes, t, msg, ctx).0;
    var s, a := HandleActs(scopes, t, msg, ctx);
    if At(t', k) != At(t, k) {
      var client := ClientIdOf(msg).value;
      assert Served(scopes, msg, ctx, s.value, client);
      match a {
        case Keep =>
        case Take(l) => AtInsert(t, l, k);
        case GiveBack(g) => AtRemove(t, g.scope, g.ip, k);
      }
    }
  }

  /** A packet that is dropped, and every INFORM, leaves the table as it was; a client
      that chose another server gives up at most its own placeholder. */
  lemma {:induction false} DropsAreNeutral(scopes: seq<Scope>, t: Table, msg: Message, ctx: Ctx)
    requires Consistent(t)
    ensures var (t', o) := Handle(scopes, t, msg, ctx);
      && (o.Dropped? && o.why != ChoseAnotherServer ==> t' == t)
      && (msg.kind == Some(Inform) ==> t' == t)
      && (o == Dropped(ChoseAnotherServer) ==>
            t' == t || exists s, client, ip ::
              && Served(scopes, msg, ctx, s, client) && t' == Remove(t, s.id, ip)
              && At(t, Slot(s.id, ip)).Some?
              && At(t, Slot(s.id, ip)).value.client == client
              && At(t, Slot(s.id, ip)).value.state == Offered)
  {
    var (t', o) := Handle(scopes, t, msg, ctx);
    if o == Dropped(ChoseAnotherServer) && t' != t {
      var s, a := HandleActs(scopes, t, msg, ctx);
      assert Served(scopes, msg, ctx, s.value, ClientIdOf(msg).value);
      assert a.GiveBack? && t' == Remove(t, s.value.id, a.slot.ip);
    }
  }

  /** A record that is not up for taking is disturbed by another client's packet exactly
      when that is a DECLINE of its address in its scope. A DECLINE is believed whoever
      sends it, even while the lease is live; only a RELEASE is checked for ownership. */
  lemma {:induction false} StrangerDisturbsIff(scopes: seq<Scope>, t: Table, msg: Message, ctx: Ctx, k: Slot)
    requires Consistent(t) && k in t.leases
    requires t.leases[k].state != Free && !t.leases[k].IsExpired(ctx.now)
    requires ClientIdOf(msg) != Some(t.leases[k].client)
    ensures At(Handle(scopes, t, msg, ctx).0, k) != Some(t.leases[k]) <==>
      Reaches(scopes, msg, ctx, k.scope) && Declines(msg, k.ip)
  {
    if Reaches(scopes, msg, ctx, k.scope) && Declines(msg, k.ip) {
      var l := DeclinedLease(SelectScope(scopes, msg, ctx).value, k.ip, ClientIdOf(msg).value, ctx);
      AtInsert(t, l, k);
    } else {
      var s, a := HandleActs(scopes, t, msg, ctx);
      match a {
        case Keep =>
        case Take(l) => AtInsert(t, l, k);
        case GiveBack(g) => AtRemove(t, g.scope, g.ip, k);
      }
    }
  }

  /** A packet that does not reach a scope disturbs none of its records, not even its
      sender's. */
  lemma {:induction false} OtherScopesUntouched(scopes: seq<Scope>, t: Table, msg: Message, ctx: Ctx, k: Slot)
    requires Consistent(t) && !Reaches(scopes, msg, ctx, k.scope)
    ensures At(Handle(scopes, t, msg, ctx).0, k) == At(t, k)
  {
    var s, a := HandleActs(scopes, t, msg, ctx);
    match a {
      case Keep =>
      case Take(l) => AtInsert(t, l, k);
      case GiveBack(g) => AtRemove(t, g.scope, g.ip, k);
    }
  }

  // ----- Answers -----

  /** The outcome gives `ip` in scope `id` to the client: an OFFER, or the ACK of a REQUEST. */
  predicate Hands(o: Outcome, id: ScopeId, ip: Ip) {
    o.Answered? && o.reply.source.Some? && o.reply.scopeId == id && o.reply.yiaddr == ip
  }

  lemma {:induction false} DispatchAnswers(s: Scope, t: Table, msg: Message, client: ClientId, ctx: Ctx)
    requires msg.kind.Some?
    requires Dispatch(s, t, msg, msg.kind.value, client, ctx).1.Answered?
    ensures var r := Dispatch(s, t, msg, msg.kind.value, client, ctx).1.reply;
      && r.scopeId == s.id
      && (r.source.None? ==> r.yiaddr == UNSPECIFIED && (r.kind == Nak || msg.kind == Some(Inform)))
      && (r.source.Some? ==> Allocates(s, msg, ctx))
      && (r.source.Some? ==> r.kind == (if msg.kind == Some(Discover) then Offer else Ack))
      && (r.source.Some? ==> Pick(s, t, QueryOf(msg, client, ctx)) == Some(Grant(r.yiaddr, r.source.value)))
      && (r.source.Some? ==> Target(s, t, msg, client, ctx) == Some(r.yiaddr))
  {
    hide Pick, Recorded, Insert, Remove, Scope.Contains, DestFor, TimersFor, RequestedLeaseSecs;
  }

  /** Only OFFERs and ACKs hand out addresses, and what they hand out is the allocator's
      choice; any other reply carries no address. */
  lemma {:induction false} AnswersComeFromAllocator(scopes: seq<Scope>, t: Table, msg: Message, ctx: Ctx)
    returns (s: Scope, client: ClientId)
    requires Handle(scopes, t, msg, ctx).1.Answered?
    ensures Served(scopes, msg, ctx, s, client)
    ensures var r := Handle(scopes, t, msg, ctx).1.reply;
      && r.scopeId == s.id
      && (r.source.None? ==> r.yiaddr == UNSPECIFIED && (r.kind == Nak || msg.kind == Some(Inform)))
      && (r.source.Some? ==>
            && Allocates(s, msg, ctx)
            && r.kind == (if msg.kind == Some(Discover) then Offer else Ack)
            && Pick(s, t, QueryOf(msg, client, ctx)) == Some(Grant(r.yiaddr, r.source.value))
            && Target(s, t, msg, client, ctx) == Some(r.yiaddr))
  {
    hide Dispatch, Pick;
    client := ClientIdOf(msg).value;
    s := SelectScope(scopes, msg, ctx).value;
    DispatchAnswers(s, t, msg, client, ctx);
  }

  /** An address held against the client is handed to it only as its reservation. */
  lemma {:induction false} HandedIsUsableOrReserved(scopes: seq<Scope>, t: Table, msg: Message, ctx: Ctx, ip: Ip)
    returns (s: Scope, client: ClientId)
    requires Consistent(t)
    requires Handle(scopes, t, msg, ctx).1.Answered?
    ensures Served(scopes, msg, ctx, s, client)
    ensures Hands(Handle(scopes, t, msg, ctx).1, s.id, ip) ==>
      || UsableBy(t, s.id, ip, client, ctx.now)
      || (s.ReservationFor(client).Some? && s.ReservationFor(client).value.ip == ip)
    ensures Handle(scopes, t, msg, ctx).1.reply.scopeId == s.id
  {
    hide Handle, Served, Pick, Consistent;
    s, client := AnswersComeFromAllocator(scopes, t, msg, ctx);
    if Hands(Handle(scopes, t, msg, ctx).1, s.id, ip) {
      PickIsUsableOrReserved(s, t, QueryOf(msg, client, ctx));
    }
  }
}
