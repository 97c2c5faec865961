/** Packet decisions: what a request does to the lease table and what is answered
    (section 4.3 of RFC 2131). */
module Server {
  import opened Prelude
  import opened Addr
  import opened Scopes
  import opened Leases
  import opened Tables
  import opened Store
  import opened Allocation

  datatype MessageType = Discover | Offer | Request | Decline | Ack | Nak | Release | Inform | OtherType

  /** The parts of a DHCP message the handlers read. Options are `None` when absent. */
  datatype Message = Message(
    isBootRequest: bool,
    kind: Option<MessageType>,
    xid: U32,
    broadcast: bool,
    chaddr: seq<Byte>,
    giaddr: Ip,
    ciaddr: Ip,
    requestedIp: Option<Ip>,
    serverIdent: Option<Ip>,
    leaseTime: Option<U32>,
    clientIdentifier: Option<seq<Byte>>,
    hostname: Option<string>,
    vendorClass: Option<string>)

  datatype ReplyDest = ToRelay(ip: Ip) | ToClient(ip: Ip) | ToAll | ToYiaddr(ip: Ip)

  /** Options 51, 58 and 59. */
  datatype Timers = Timers(lease: U32, t1: U32, t2: U32)

  datatype NakReason = NoAddressNamed | NotInSubnet | NothingAvailable | NoLongerYours

  datatype Reply = Reply(
    kind: MessageType,
    xid: U32,
    chaddr: seq<Byte>,
    giaddr: Ip,
    serverId: Ip,
    yiaddr: Ip,
    ciaddr: Ip,
    mask: Option<U32>,
    timers: Option<Timers>,
    reason: Option<NakReason>,
    dest: ReplyDest,
    scopeId: ScopeId,
    source: Option<AllocSource>)

  datatype DropReason =
    | NotBootRequest
    | NoMessageType
    | UnsupportedType
    | UnidentifiableClient
    | NoMatchingScope
    | ScopeDisabled
    | PoolExhausted
    | ChoseAnotherServer
    | DeclineWithoutAddress
    | ReleaseWithoutAddress
    | ReleaseNotOwned

  datatype Note = AddressQuarantined | LeaseReleased

  datatype Outcome = Answered(reply: Reply) | Handled(note: Note) | Dropped(why: DropReason)

  /** When a packet arrived, on which local address, and what a probe found taken. */
  datatype Ctx = Ctx(now: UnixTime, serverIp: Ip, occupied: set<Ip>)

  // ----- Reading the request -----

  /** The address by which the client's subnet is recognised. */
  function ScopeKey(msg: Message, ctx: Ctx): Ip {
    if msg.giaddr != UNSPECIFIED then msg.giaddr
    else if msg.ciaddr != UNSPECIFIED then msg.ciaddr
    else ctx.serverIp
  }

  function Covering(scopes: seq<Scope>, key: Ip): seq<Scope> {
    if scopes == [] then []
    else (if scopes[0].Contains(key) then [scopes[0]] else []) + Covering(scopes[1..], key)
  }

  function FirstEnabled(scopes: seq<Scope>): Option<Scope> {
    if scopes == [] then None
    else if scopes[0].enabled then Some(scopes[0])
    else FirstEnabled(scopes[1..])
  }

  function SelectScope(scopes: seq<Scope>, msg: Message, ctx: Ctx): Result<Scope, DropReason> {
    var matched := Covering(scopes, ScopeKey(msg, ctx));
    match FirstEnabled(matched)
    case Some(s) => Success(s)
    case None => if matched == [] then Failure(NoMatchingScope) else Failure(ScopeDisabled)
  }

  function ClientIdOf(msg: Message): Option<ClientId> {
    var opt61 :=
      match msg.clientIdentifier
      case Some(raw) => if raw == [] then None else Some(raw)
      case None => None;
    var mac := match MacFromSlice(msg.chaddr) case Some(m) => m case None => MAC_ZERO;
    if opt61.None? && mac == MAC_ZERO then None else Some(FromParts(opt61, mac))
  }

  function NonEmpty(text: Option<string>): Option<string> {
    if text == Some("") then None else text
  }

  function RequestedLeaseSecs(msg: Message, s: Scope): U32 {
    match msg.leaseTime
    case Some(secs) => if secs < s.leaseSecs then secs else s.leaseSecs
    case None => s.leaseSecs
  }

  /** The address a REQUEST is about: option 50, else ciaddr. */
  function ClaimedAddress(msg: Message): Option<Ip> {
    match msg.requestedIp
    case Some(ip) => Some(ip)
    case None => if msg.ciaddr != UNSPECIFIED then Some(msg.ciaddr) else None
  }

  predicate ChoseAnother(msg: Message, ctx: Ctx) {
    msg.serverIdent.Some? && msg.serverIdent.value != ctx.serverIp
  }

  // ----- Building the reply -----

  function DestFor(msg: Message, yiaddr: Ip): ReplyDest {
    if msg.giaddr != UNSPECIFIED then ToRelay(msg.giaddr)
    else if msg.ciaddr != UNSPECIFIED then ToClient(msg.ciaddr)
    else if msg.broadcast then ToAll
    else ToYiaddr(yiaddr)
  }

  function TimersFor(leaseSecs: U32): Timers {
    Timers(leaseSecs, leaseSecs / 2, leaseSecs / 8 * 7)
  }

  function BaseReply(msg: Message, kind: MessageType, ctx: Ctx, s: Scope): Reply {
    Reply(kind, msg.xid, msg.chaddr, msg.giaddr, ctx.serverIp, UNSPECIFIED, UNSPECIFIED,
          None, None, None, ToAll, s.id, None)
  }

  function Lend(r: Reply, msg: Message, s: Scope, g: Grant, leaseSecs: U32): Reply {
    r.(yiaddr := g.ip, mask := Some(s.Mask()), timers := Some(TimersFor(leaseSecs)),
       dest := DestFor(msg, g.ip), source := Some(g.source))
  }

  function Refuse(msg: Message, ctx: Ctx, s: Scope, why: NakReason): Outcome {
    Answered(BaseReply(msg, Nak, ctx, s).(
      reason := Some(why),
      dest := if msg.giaddr == UNSPECIFIED then ToAll else ToRelay(msg.giaddr)))
  }

  // ----- The handlers, as functions on the table -----

  function DiscoverQuery(msg: Message, client: ClientId, ctx: Ctx): Query {
    Query(client, msg.requestedIp, ctx.now, ctx.occupied)
  }

  /** The short placeholder an OFFER writes. */
  function OfferLease(s: Scope, msg: Message, client: ClientId, ctx: Ctx): Lease {
    Lease(UNSPECIFIED, client, s.id, Offered, ctx.now + s.offerSecs,
          NonEmpty(msg.hostname), NonEmpty(msg.vendorClass), ctx.now, ctx.now)
  }

  function OnDiscover(s: Scope, t: Table, msg: Message, client: ClientId, ctx: Ctx): (Table, Outcome) {
    var q := DiscoverQuery(msg, client, ctx);
    (Recorded(s, t, q, OfferLease(s, msg, client, ctx)),
     match Pick(s, t, q)
     case None => Dropped(PoolExhausted)
     case Some(g) => Answered(Lend(BaseReply(msg, Offer, ctx, s), msg, s, g, RequestedLeaseSecs(msg, s))))
  }

  function RequestQuery(msg: Message, client: ClientId, ctx: Ctx): Query {
    Query(client, ClaimedAddress(msg), ctx.now, ctx.occupied)
  }

  function CreatedAt(t: Table, s: Scope, client: ClientId, ctx: Ctx): UnixTime {
    match GetByClient(t, s.id, client)
    case Some(l) => l.createdAt
    case None => ctx.now
  }

  /** The lease an ACK writes. */
  function BoundLease(s: Scope, t: Table, msg: Message, client: ClientId, ctx: Ctx): Lease {
    Lease(UNSPECIFIED, client, s.id, Bound, ctx.now + RequestedLeaseSecs(msg, s),
          NonEmpty(msg.hostname), NonEmpty(msg.vendorClass), CreatedAt(t, s, client, ctx), ctx.now)
  }

  /** Gives up the placeholder of a client that went elsewhere. */
  function WithdrawOffer(t: Table, scope: ScopeId, client: ClientId): Table {
    match GetByClient(t, scope, client)
    case Some(l) => if l.state == Offered then Remove(t, scope, l.ip) else t
    case None => t
  }

  function OnRequest(s: Scope, t: Table, msg: Message, client: ClientId, ctx: Ctx): (Table, Outcome) {
    if ChoseAnother(msg, ctx) then (WithdrawOffer(t, s.id, client), Dropped(ChoseAnotherServer))
    else
      match ClaimedAddress(msg)
      case None => (t, Refuse(msg, ctx, s, NoAddressNamed))
      case Some(claimed) =>
        if !s.Contains(claimed) then (t, Refuse(msg, ctx, s, NotInSubnet))
        else
          var q := RequestQuery(msg, client, ctx);
          (Recorded(s, t, q, BoundLease(s, t, msg, client, ctx)),
           match Pick(s, t, q)
           case None => Refuse(msg, ctx, s, NothingAvailable)
           case Some(g) =>
             if g.ip != claimed then Refuse(msg, ctx, s, NoLongerYours)
             else Answered(Lend(BaseReply(msg, Ack, ctx, s).(ciaddr := msg.ciaddr),
                                msg, s, g, RequestedLeaseSecs(msg, s))))
  }

  function DeclinedLease(s: Scope, ip: Ip, client: ClientId, ctx: Ctx): Lease {
    Lease(ip, client, s.id, Declined, ctx.now + s.declineQuarantineSecs, None, None, ctx.now, ctx.now)
  }

  function OnDecline(s: Scope, t: Table, msg: Message, client: ClientId, ctx: Ctx): (Table, Outcome) {
    match msg.requestedIp
    case None => (t, Dropped(DeclineWithoutAddress))
    case Some(bad) => (Insert(t, DeclinedLease(s, bad, client, ctx)), Handled(AddressQuarantined))
  }

  function OnRelease(s: Scope, t: Table, msg: Message, client: ClientId): (Table, Outcome) {
    if msg.ciaddr == UNSPECIFIED then (t, Dropped(ReleaseWithoutAddress))
    else
      match GetByIp(t, s.id, msg.ciaddr)
      case Some(l) =>
        if l.client == client then (Remove(t, s.id, msg.ciaddr), Handled(LeaseReleased))
        else (t, Dropped(ReleaseNotOwned))
      case None => (t, Dropped(ReleaseNotOwned))
  }

  function OnInform(s: Scope, msg: Message, ctx: Ctx): Outcome {
    Answered(BaseReply(msg, Ack, ctx, s).(
      ciaddr := msg.ciaddr,
      mask := Some(s.Mask()),
      dest := if msg.ciaddr == UNSPECIFIED then ToAll else ToClient(msg.ciaddr)))
  }

  function Dispatch(s: Scope, t: Table, msg: Message, kind: MessageType, client: ClientId, ctx: Ctx)
    : (Table, Outcome)
  {
    match kind
    case Discover => OnDiscover(s, t, msg, client, ctx)
    case Request => OnRequest(s, t, msg, client, ctx)
    case Decline => OnDecline(s, t, msg, client, ctx)
    case Release => OnRelease(s, t, msg, client)
    case Inform => (t, OnInform(s, msg, ctx))
    case _ => (t, Dropped(UnsupportedType))
  }

  function Handle(scopes: seq<Scope>, t: Table, msg: Message, ctx: Ctx): (Table, Outcome) {
    if !msg.isBootRequest then (t, Dropped(NotBootRequest))
    else if msg.kind.None? then (t, Dropped(NoMessageType))
    else if ClientIdOf(msg).None? then (t, Dropped(UnidentifiableClient))
    else
      match SelectScope(scopes, msg, ctx)
      case Failure(why) => (t, Dropped(why))
      case Success(s) => Dispatch(s, t, msg, msg.kind.value, ClientIdOf(msg).value, ctx)
  }

  // ----- The handlers, on the mutable store -----

  method HandlePacket(scopes: seq<Scope>, store: MemoryStore, msg: Message, ctx: Ctx) returns (o: Outcome)
    requires store.Valid()
    modifies store
    ensures store.Valid() && (store.View(), o) == Handle(scopes, old(store.View()), msg, ctx)
  {
    if !msg.isBootRequest {
      return Dropped(NotBootRequest);
    }
    if msg.kind.None? {
      return Dropped(NoMessageType);
    }
    var client := ClientIdOf(msg);
    if client.None? {
      return Dropped(UnidentifiableClient);
    }
    match SelectScope(scopes, msg, ctx) {
      case Failure(why) =>
        o := Dropped(why);
      case Success(s) =>
        match msg.kind.value {
          case Discover => o := HandleDiscover(s, store, msg, client.value, ctx);
          case Request => o := HandleRequest(s, store, msg, client.value, ctx);
          case Decline => o := HandleDecline(s, store, msg, client.value, ctx);
          case Release => o := HandleRelease(s, store, msg, client.value);
          case Inform => o := OnInform(s, msg, ctx);
          case _ => o := Dropped(UnsupportedType);
        }
    }
  }

  method HandleDiscover(s: Scope, store: MemoryStore, msg: Message, client: ClientId, ctx: Ctx)
    returns (o: Outcome)
    requires store.Valid()
    modifies store
    ensures store.Valid() && (store.View(), o) == OnDiscover(s, old(store.View()), msg, client, ctx)
  {
    var q := DiscoverQuery(msg, client, ctx);
    var g := Allocate(s, store, q, OfferLease(s, msg, client, ctx));
    if g.None? {
      return Dropped(PoolExhausted);
    }
    o := Answered(Lend(BaseReply(msg, Offer, ctx, s), msg, s, g.value, RequestedLeaseSecs(msg, s)));
  }

  method HandleRequest(s: Scope, store: MemoryStore, msg: Message, client: ClientId, ctx: Ctx)
    returns (o: Outcome)
    requires store.Valid()
    modifies store
    ensures store.Valid() && (store.View(), o) == OnRequest(s, old(store.View()), msg, client, ctx)
  {
    if ChoseAnother(msg, ctx) {
      var l := GetByClient(store.View(), s.id, client);
      if l.Some? && l.value.state == Offered {
        var _ := store.Remove(s.id, l.value.ip);
      }
      return Dropped(ChoseAnotherServer);
    }
    var claimed := ClaimedAddress(msg);
    if claimed.None? {
      return Refuse(msg, ctx, s, NoAddressNamed);
    }
    if !s.Contains(claimed.value) {
      return Refuse(msg, ctx, s, NotInSubnet);
    }
    var q := RequestQuery(msg, client, ctx);
    var g := Allocate(s, store, q, BoundLease(s, store.View(), msg, client, ctx));
    if g.None? {
      return Refuse(msg, ctx, s, NothingAvailable);
    }
    if g.value.ip != claimed.value {
      return Refuse(msg, ctx, s, NoLongerYours);
    }
    o := Answered(Lend(BaseReply(msg, Ack, ctx, s).(ciaddr := msg.ciaddr),
                       msg, s, g.value, RequestedLeaseSecs(msg, s)));
  }

  method HandleDecline(s: Scope, store: MemoryStore, msg: Message, client: ClientId, ctx: Ctx)
    returns (o: Outcome)
    requires store.Valid()
    modifies store
    ensures store.Valid() && (store.View(), o) == OnDecline(s, old(store.View()), msg, client, ctx)
  {
    if msg.requestedIp.None? {
      return Dropped(DeclineWithoutAddress);
    }
    store.Insert(DeclinedLease(s, msg.requestedIp.value, client, ctx));
    o := Handled(AddressQuarantined);
  }

  method HandleRelease(s: Scope, store: MemoryStore, msg: Message, client: ClientId)
    returns (o: Outcome)
    requires store.Valid()
    modifies store
    ensures store.Valid() && (store.View(), o) == OnRelease(s, old(store.View()), msg, client)
  {
    if msg.ciaddr == UNSPECIFIED {
      return Dropped(ReleaseWithoutAddress);
    }
    var l := GetByIp(store.View(), s.id, msg.ciaddr);
    if l.Some? && l.value.client == client {
      var _ := store.Remove(s.id, msg.ciaddr);
      return Handled(LeaseReleased);
    }
    o := Dropped(ReleaseNotOwned);
  }
}
