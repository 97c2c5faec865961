/** Choosing an address for a client and taking it on the spot. */
module Allocation {
  import opened Prelude
  import opened Addr
  import opened Scopes
  import opened Leases
  import opened Tables
  import opened Store

  datatype AllocSource = Existing | Reserved | Requested | Pool

  datatype Grant = Grant(ip: Ip, source: AllocSource)

  /** Who asks for what, when, and which addresses a probe found taken by strangers. */
  datatype Query = Query(client: ClientId, requested: Option<Ip>, now: UnixTime, occupied: set<Ip>)

  /** The lease to write, whatever address it ends up on. */
  predicate IsTemplate(tmpl: Lease, s: Scope, q: Query) {
    tmpl.client == q.client && tmpl.scopeId == s.id
  }

  predicate Usable(s: Scope, t: Table, q: Query, ip: Ip) {
    UsableBy(t, s.id, ip, q.client, q.now)
  }

  /** The scope and the probe allow giving the address to the client. */
  predicate Eligible(s: Scope, q: Query, ip: Ip) {
    s.IsPoolable(ip) && !s.IsReservedForOther(ip, q.client) && ip !in q.occupied
  }

  predicate Unblocked(s: Scope, q: Query, ip: Ip) {
    !s.IsReservedForOther(ip, q.client) && ip !in q.occupied
  }

  /** The addresses worth trying, in order. */
  function Worthwhile(s: Scope, q: Query, ips: seq<Ip>): seq<Ip> {
    if ips == [] then []
    else (if Unblocked(s, q, ips[0]) then [ips[0]] else []) + Worthwhile(s, q, ips[1..])
  }

  function Candidates(s: Scope, q: Query): seq<Ip> {
    Worthwhile(s, q, s.PoolableAddrs())
  }

  /** The client has a record it may go on using. */
  predicate KeepsExisting(s: Scope, t: Table, q: Query) {
    match GetByClient(t, s.id, q.client)
    case None => false
    case Some(l) =>
      && l.state != Declined
      && s.IsPoolable(l.ip)
      && !s.IsReservedForOther(l.ip, q.client)
      && Usable(s, t, q, l.ip)
  }

  predicate GetsRequested(s: Scope, t: Table, q: Query) {
    q.requested.Some? && Eligible(s, q, q.requested.value) && Usable(s, t, q, q.requested.value)
  }

  function FirstUsable(s: Scope, t: Table, q: Query, ips: seq<Ip>): Option<Ip> {
    if ips == [] then None
    else if Usable(s, t, q, ips[0]) then Some(ips[0])
    else FirstUsable(s, t, q, ips[1..])
  }

  /** The outcome of an allocation, stage by stage. */
  function Pick(s: Scope, t: Table, q: Query): Option<Grant> {
    match s.ReservationFor(q.client)
    case Some(r) => Some(Grant(r.ip, Reserved))
    case None =>
      if KeepsExisting(s, t, q) then Some(Grant(GetByClient(t, s.id, q.client).value.ip, Existing))
      else if GetsRequested(s, t, q) then Some(Grant(q.requested.value, Requested))
      else
        match FirstUsable(s, t, q, Candidates(s, q))
        case Some(ip) => Some(Grant(ip, Pool))
        case None => None
  }

  /** The table after an allocation. Only a reserved address can be granted and not recorded. */
  function Recorded(s: Scope, t: Table, q: Query, tmpl: Lease): Table {
    match Pick(s, t, q)
    case None => t
    case Some(g) => Claimed(t, tmpl, if Usable(s, t, q, g.ip) then Some(g.ip) else None)
  }

  function Claimed(t: Table, tmpl: Lease, ip: Option<Ip>): Table {
    match ip
    case Some(a) => Insert(t, tmpl.(ip := a))
    case None => t
  }

  /** The claim-as-you-go allocator: every candidate is claimed to find out whether
      it is free, and the claims that fail leave no trace. */
  method Allocate(s: Scope, store: MemoryStore, q: Query, tmpl: Lease) returns (r: Option<Grant>)
    requires store.Valid() && IsTemplate(tmpl, s, q)
    modifies store
    ensures store.Valid()
    ensures r == Pick(s, old(store.View()), q)
    ensures store.View() == Recorded(s, old(store.View()), q, tmpl)
  {
    ghost var t := store.View();
    FirstUsableIsUsable(s, t, q, Candidates(s, q));
    var res := s.ReservationFor(q.client);
    if res.Some? {
      var _ := store.TryClaim(tmpl.(ip := res.value.ip), q.now);
      return Some(Grant(res.value.ip, Reserved));
    }
    var ip := ClaimExisting(s, store, q, tmpl);
    if ip.Some? {
      return Some(Grant(ip.value, Existing));
    }
    ip := ClaimRequested(s, store, q, tmpl);
    if ip.Some? {
      return Some(Grant(ip.value, Requested));
    }
    ip := ClaimFirst(s, store, q, tmpl, Candidates(s, q));
    r := if ip.Some? then Some(Grant(ip.value, Pool)) else None;
  }

  method ClaimExisting(s: Scope, store: MemoryStore, q: Query, tmpl: Lease) returns (r: Option<Ip>)
    requires store.Valid() && IsTemplate(tmpl, s, q)
    modifies store
    ensures store.Valid() && store.View() == Claimed(old(store.View()), tmpl, r)
    ensures r == if KeepsExisting(s, old(store.View()), q)
                 then Some(GetByClient(old(store.View()), s.id, q.client).value.ip) else None
  {
    r := None;
    var existing := GetByClient(store.View(), s.id, q.client);
    if existing.Some? {
      var ip := existing.value.ip;
      if existing.value.state != Declined && s.IsPoolable(ip) && !s.IsReservedForOther(ip, q.client) {
        var claimed := store.TryClaim(tmpl.(ip := ip), q.now);
        if claimed {
          r := Some(ip);
        }
      }
    }
  }

  method ClaimRequested(s: Scope, store: MemoryStore, q: Query, tmpl: Lease) returns (r: Option<Ip>)
    requires store.Valid() && IsTemplate(tmpl, s, q)
    modifies store
    ensures store.Valid() && store.View() == Claimed(old(store.View()), tmpl, r)
    ensures r == if GetsRequested(s, old(store.View()), q) then q.requested else None
  {
    r := None;
    if q.requested.Some? {
      var want := q.requested.value;
      if s.IsPoolable(want) && !s.IsReservedForOther(want, q.client) && want !in q.occupied {
        var claimed := store.TryClaim(tmpl.(ip := want), q.now);
        if claimed {
          r := Some(want);
        }
      }
    }
  }

  /** Tries the candidates in order until one claim succeeds. */
  method ClaimFirst(s: Scope, store: MemoryStore, q: Query, tmpl: Lease, candidates: seq<Ip>)
    returns (r: Option<Ip>)
    requires store.Valid() && IsTemplate(tmpl, s, q)
    modifies store
    ensures store.Valid() && store.View() == Claimed(old(store.View()), tmpl, r)
    ensures r == FirstUsable(s, old(store.View()), q, candidates)
  {
    ghost var t := store.View();
    for i := 0 to |candidates|
      invariant store.Valid() && store.View() == t
      invariant FirstUsable(s, t, q, candidates) == FirstUsable(s, t, q, candidates[i..])
    {
      FirstUsableStep(s, t, q, candidates, i);
      var claimed := store.TryClaim(tmpl.(ip := candidates[i]), q.now);
      if claimed {
        return Some(candidates[i]);
      }
    }
    return None;
  }

  lemma {:induction false} FirstUsableIsUsable(s: Scope, t: Table, q: Query, ips: seq<Ip>)
    ensures var f := FirstUsable(s, t, q, ips); f.Some? ==> f.value in ips && Usable(s, t, q, f.value)
  {
    if ips == [] {
    } else {
      FirstUsableIsUsable(s, t, q, ips[1..]);
    }
  }

  /** Whatever is granted is usable or reserved for the client. */
  lemma {:induction false} PickIsUsableOrReserved(s: Scope, t: Table, q: Query)
    requires Pick(s, t, q).Some?
    ensures var g := Pick(s, t, q).value;
      || Usable(s, t, q, g.ip)
      || (g.source == Reserved && s.ReservationFor(q.client).Some? && s.ReservationFor(q.client).value.ip == g.ip)
  {
    hide Usable, Candidates, FirstUsable, GetByClient, Eligible, Scope.IsPoolable;
    FirstUsableIsUsable(s, t, q, Candidates(s, q));
  }

  lemma {:induction false} FirstUsableStep(s: Scope, t: Table, q: Query, ips: seq<Ip>, i: nat)
    requires i < |ips|
    ensures FirstUsable(s, t, q, ips[i..]) ==
      if Usable(s, t, q, ips[i]) then Some(ips[i]) else FirstUsable(s, t, q, ips[i + 1..])
  {
    assert ips[i..][1..] == ips[i + 1..];
  }

  // ----- The priority specification -----

  /** `ip` is the first address of the pools, in pool order, that the client may have. */
  ghost predicate FirstFree(s: Scope, t: Table, q: Query, ip: Ip) {
    exists i :: 0 <= i < |s.PoolableAddrs()| && s.PoolableAddrs()[i] == ip
      && Eligible(s, q, ip) && Usable(s, t, q, ip)
      && forall j :: 0 <= j < i ==>
           !(Eligible(s, q, s.PoolableAddrs()[j]) && Usable(s, t, q, s.PoolableAddrs()[j]))
  }

  /** The client's record, if it is not declined and its address is still the scope's to give. */
  ghost predicate MayKeep(s: Scope, t: Table, q: Query, ip: Ip) {
    && At(t, Slot(s.id, ip)).Some?
    && t.leases[Slot(s.id, ip)].client == q.client
    && t.leases[Slot(s.id, ip)].state != Declined
    && s.IsPoolable(ip)
    && !s.IsReservedForOther(ip, q.client)
  }

  /** An address the client could be given this minute without keeping anything. */
  ghost predicate Obtainable(s: Scope, t: Table, q: Query, ip: Ip) {
    Eligible(s, q, ip) && Usable(s, t, q, ip)
  }

  /** Which of the four sources answers, and with what: each exactly when no
      earlier one can. */
  lemma {:induction false} PickIsPriority(s: Scope, t: Table, q: Query, ip: Ip)
    requires Consistent(t)
    ensures Pick(s, t, q) == Some(Grant(ip, Reserved)) <==>
      s.ReservationFor(q.client).Some? && s.ReservationFor(q.client).value.ip == ip
    ensures Pick(s, t, q) == Some(Grant(ip, Existing)) <==>
      s.ReservationFor(q.client).None? && MayKeep(s, t, q, ip)
    ensures Pick(s, t, q) == Some(Grant(ip, Requested)) <==>
      && s.ReservationFor(q.client).None?
      && (forall other :: !MayKeep(s, t, q, other))
      && q.requested == Some(ip) && Obtainable(s, t, q, ip)
    ensures Pick(s, t, q) == Some(Grant(ip, Pool)) <==>
      && s.ReservationFor(q.client).None?
      && (forall other :: !MayKeep(s, t, q, other))
      && !(q.requested.Some? && Obtainable(s, t, q, q.requested.value))
      && FirstFree(s, t, q, ip)
  {
    hide MayKeep, Obtainable, FirstFree, FirstUsable, Candidates, KeepsExisting, GetsRequested, FindReservation;
    KeepsExistingIsMayKeep(s, t, q);
    GetsRequestedIsObtainable(s, t, q);
    FirstUsableOfPool(s, t, q);
    if FirstFree(s, t, q, ip) {
      FirstFreeIsUnique(s, t, q, ip);
    }
  }

  /** A pool grant is the first obtainable address in the order the pools are configured,
      lowest first within a pool. */
  lemma {:induction false} PoolGrantIsFirst(s: Scope, t: Table, q: Query, ip: Ip, a: Ip)
    requires Consistent(t) && PoolsDisjoint(s.pools)
    requires Pick(s, t, q) == Some(Grant(ip, Pool)) && Obtainable(s, t, q, a)
    ensures a == ip || Precedes(s.pools, ip, a)
  {
    PickIsPriority(s, t, q, ip);
    hide Pick, Consistent, Precedes, Scope.IsPoolable, Usable, PoolsDisjoint;
    var addrs := s.PoolableAddrs();
    var i :| 0 <= i < |addrs| && addrs[i] == ip && forall j :: 0 <= j < i ==>
      !(Eligible(s, q, addrs[j]) && Usable(s, t, q, addrs[j]));
    assert a in addrs;
    var j :| 0 <= j < |addrs| && addrs[j] == a;
    if i < j {
      PoolableAddrsInOrder(s, i, j);
    }
  }

  lemma {:induction false} GetsRequestedIsObtainable(s: Scope, t: Table, q: Query)
    ensures GetsRequested(s, t, q) <==> q.requested.Some? && Obtainable(s, t, q, q.requested.value)
  {
  }

  /** Nothing is granted exactly when the client has no reservation, no record it
      may keep, and no address it could obtain. */
  lemma {:induction false} PickNoneIffExhausted(s: Scope, t: Table, q: Query)
    requires Consistent(t)
    ensures Pick(s, t, q).None? <==>
      && (forall r :: r in s.reservations ==> r.client != q.client)
      && (forall ip :: !MayKeep(s, t, q, ip))
      && (forall ip :: !Obtainable(s, t, q, ip))
  {
    hide MayKeep, Obtainable, FirstFree, FirstUsable, Candidates, KeepsExisting, GetsRequested;
    KeepsExistingIsMayKeep(s, t, q);
    GetsRequestedIsObtainable(s, t, q);
    FirstUsableOfPool(s, t, q);
  }

  /** The search stops at the first free address. */
  lemma {:induction false} FirstFreeIsUnique(s: Scope, t: Table, q: Query, ip: Ip)
    requires FirstFree(s, t, q, ip)
    ensures FirstUsable(s, t, q, Candidates(s, q)) == Some(ip)
  {
    hide Scope.IsPoolable, UsableBy, Scope.IsReservedForOther;
    var addrs := s.PoolableAddrs();
    var i := FirstInFilter(s, t, q, addrs);
    var k :| 0 <= k < |addrs| && addrs[k] == ip && Obtainable(s, t, q, ip)
      && forall j :: 0 <= j < k ==> !(Eligible(s, q, addrs[j]) && Usable(s, t, q, addrs[j]));
    assert i <= k;
    assert addrs[i] in addrs;
  }

  lemma {:induction false} KeepsExistingIsMayKeep(s: Scope, t: Table, q: Query)
    requires Consistent(t)
    ensures KeepsExisting(s, t, q) ==>
      MayKeep(s, t, q, GetByClient(t, s.id, q.client).value.ip)
    ensures forall ip :: MayKeep(s, t, q, ip) ==>
      KeepsExisting(s, t, q) && GetByClient(t, s.id, q.client).value.ip == ip
  {
    forall ip | MayKeep(s, t, q, ip)
      ensures KeepsExisting(s, t, q) && GetByClient(t, s.id, q.client).value.ip == ip
    {
      assert HolderOf(t.leases[Slot(s.id, ip)]) == Holder(s.id, q.client);
    }
  }

  lemma {:induction false} FirstUsableOfPool(s: Scope, t: Table, q: Query)
    ensures var f := FirstUsable(s, t, q, Candidates(s, q));
      && (f.None? <==> forall ip :: !Obtainable(s, t, q, ip))
      && (f.Some? ==> FirstFree(s, t, q, f.value))
  {
    hide Scope.IsPoolable, UsableBy, Scope.IsReservedForOther;
    var addrs := s.PoolableAddrs();
    var i := FirstInFilter(s, t, q, addrs);
    if i < |addrs| {
      assert addrs[i] in addrs && Obtainable(s, t, q, addrs[i]);
      forall j | 0 <= j < i
        ensures !(Eligible(s, q, addrs[j]) && Usable(s, t, q, addrs[j]))
      {
        assert addrs[j] in addrs;
      }
    } else {
      forall ip
        ensures !Obtainable(s, t, q, ip)
      {
        if ip in addrs {
          var j :| 0 <= j < |addrs| && addrs[j] == ip;
        }
      }
    }
  }

  /** Searching the unblocked addresses finds the first one that is unblocked and usable. */
  lemma {:induction false} FirstInFilter(s: Scope, t: Table, q: Query, ips: seq<Ip>) returns (i: nat)
    ensures i <= |ips|
    ensures forall j :: 0 <= j < i ==> !(Unblocked(s, q, ips[j]) && Usable(s, t, q, ips[j]))
    ensures i < |ips| ==> Unblocked(s, q, ips[i]) && Usable(s, t, q, ips[i])
    ensures FirstUsable(s, t, q, Worthwhile(s, q, ips))
      == if i < |ips| then Some(ips[i]) else None
  {
    if ips == [] {
      i := 0;
    } else {
      if Unblocked(s, q, ips[0]) {
        assert Worthwhile(s, q, ips)[1..] == Worthwhile(s, q, ips[1..]);
      } else {
        assert Worthwhile(s, q, ips) == Worthwhile(s, q, ips[1..]);
      }
      if Unblocked(s, q, ips[0]) && Usable(s, t, q, ips[0]) {
        i := 0;
      } else {
        i := FirstInFilter(s, t, q, ips[1..]);
        i := i + 1;
      }
    }
  }

  // ----- Reaping and later answers -----

  /** Reaping does not change which addresses a client can use later on: a stale record
      was up for taking anyway. */
  lemma {:induction false} ReapKeepsUsable(s: Scope, t: Table, q: Query, ip: Ip, reaped: UnixTime)
    requires reaped <= q.now
    ensures Usable(s, Reap(t, reaped), q, ip) <==> Usable(s, t, q, ip)
    ensures Obtainable(s, Reap(t, reaped), q, ip) <==> Obtainable(s, t, q, ip)
  {
    AtReap(t, reaped, Slot(s.id, ip));
  }

  lemma {:induction false} ReapKeepsFirstUsable(s: Scope, t: Table, q: Query, ips: seq<Ip>, reaped: UnixTime)
    requires reaped <= q.now
    ensures FirstUsable(s, Reap(t, reaped), q, ips) == FirstUsable(s, t, q, ips)
  {
    hide Usable;
    if ips == [] {
    } else {
      ReapKeepsUsable(s, t, q, ips[0], reaped);
      ReapKeepsFirstUsable(s, t, q, ips[1..], reaped);
    }
  }

  lemma {:induction false} ReapKeepsRequested(s: Scope, t: Table, q: Query, reaped: UnixTime)
    requires reaped <= q.now
    ensures GetsRequested(s, Reap(t, reaped), q) <==> GetsRequested(s, t, q)
  {
    hide Usable;
    if q.requested.Some? {
      ReapKeepsUsable(s, t, q, q.requested.value, reaped);
    }
  }

  /** Reaping takes the record a client may keep from it exactly when that record is stale. */
  lemma {:induction false} ReapKeepsExisting(s: Scope, t: Table, q: Query, reaped: UnixTime, ip: Ip)
    requires Consistent(t)
    ensures MayKeep(s, Reap(t, reaped), q, ip) <==>
      MayKeep(s, t, q, ip) && !Stale(t.leases[Slot(s.id, ip)], reaped)
  {
    AtReap(t, reaped, Slot(s.id, ip));
  }

  /** When reaping makes a difference to a later allocation: only for a client without a
      reservation whose own record, one it might have kept, had run out by then. It no
      longer comes back to its address for being its own. */
  lemma {:induction false} ReapChangesGrantIff(s: Scope, t: Table, q: Query, reaped: UnixTime)
    requires Consistent(t) && reaped <= q.now
    ensures Pick(s, Reap(t, reaped), q) != Pick(s, t, q) <==>
      && s.ReservationFor(q.client).None?
      && exists ip :: MayKeep(s, t, q, ip) && Stale(t.leases[Slot(s.id, ip)], reaped)
  {
    var t' := Reap(t, reaped);
    DropSlotsConsistent(t, StaleSlots(t, reaped));
    KeepsExistingIsMayKeep(s, t, q);
    KeepsExistingIsMayKeep(s, t', q);
    forall ip
      ensures MayKeep(s, t', q, ip) <==> MayKeep(s, t, q, ip) && !Stale(t.leases[Slot(s.id, ip)], reaped)
    {
      ReapKeepsExisting(s, t, q, reaped, ip);
    }
    ReapKeepsRequested(s, t, q, reaped);
    ReapKeepsFirstUsable(s, t, q, Candidates(s, q), reaped);
    hide MayKeep, KeepsExisting, GetsRequested, FirstUsable, Candidates, Reap, Consistent, Stale;
  }
}
