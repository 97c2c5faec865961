/** What every mix of packets and administrative edits preserves. */
module Integrity {
  import opened Prelude
  import opened Addr
  import opened Scopes
  import opened Leases
  import opened Tables
  import opened Allocation
  import opened Server
  import opened Effects
  import opened Validation
  import opened Admin
  import opened Exclusivity
  import opened Entitlement

  ghost predicate HasId(scopes: seq<Scope>, id: ScopeId) {
    exists s :: s in scopes && s.id == id
  }

  /** Every record names a configured scope. */
  ghost predicate Rooted(scopes: seq<Scope>, t: Table) {
    forall k :: k in t.leases ==> HasId(scopes, k.scope)
  }

  /** No lease in use sits on an address its scope reserves for a different client. */
  ghost predicate Respected(scopes: seq<Scope>, t: Table) {
    forall k, s :: k in t.leases && InUse(t.leases[k]) && s in scopes && s.id == k.scope ==>
      !s.IsReservedForOther(k.ip, t.leases[k].client)
  }

  ghost predicate AllSound(scopes: seq<Scope>) {
    forall s :: s in scopes ==> Sound(s)
  }

  ghost predicate Sane(sys: Sys) {
    && UniqueIds(sys.scopes)
    && AllSound(sys.scopes)
    && Consistent(sys.table)
    && Rooted(sys.scopes, sys.table)
    && Respected(sys.scopes, sys.table)
  }

  // ----- Records only move within bounds -----

  /** Taking records away endangers nothing. */
  lemma {:induction false} FewerRecords(scopes: seq<Scope>, t: Table, t': Table)
    requires Rooted(scopes, t) && Respected(scopes, t)
    requires forall k :: k in t'.leases ==> k in t.leases && t'.leases[k] == t.leases[k]
    ensures Rooted(scopes, t') && Respected(scopes, t')
  {
  }

  /** A reservation excludes every other client, because each address is reserved once. */
  lemma {:induction false} ReservationExcludesOthers(s: Scope, client: ClientId)
    requires ReservedOnce(s.reservations) && s.ReservationFor(client).Some?
    ensures !s.IsReservedForOther(s.ReservationFor(client).value.ip, client)
  {
    var mine := s.ReservationFor(client).value;
    forall r | r in s.reservations && r.ip == mine.ip
      ensures r == mine
    {
      var i :| 0 <= i < |s.reservations| && s.reservations[i] == r;
      var j :| 0 <= j < |s.reservations| && s.reservations[j] == mine;
    }
  }

  lemma {:induction false} GrantIsUnreserved(s: Scope, t: Table, q: Query)
    requires Consistent(t) && Sound(s) && Pick(s, t, q).Some?
    ensures !s.IsReservedForOther(Pick(s, t, q).value.ip, q.client)
  {
    GrantIsEntitled(s, t, q);
    if s.ReservationFor(q.client).Some? {
      ReservationExcludesOthers(s, q.client);
    }
  }

  lemma {:induction false} PacketKeepsSane(sys: Sys, msg: Message, ctx: Ctx)
    requires Sane(sys)
    ensures Sane(sys.(table := Handle(sys.scopes, sys.table, msg, ctx).0))
  {
    hide Handle, Legal, Served, Sound, Scope.IsPoolable, Consistent;
    var t := sys.table;
    var s, a := HandleActs(sys.scopes, t, msg, ctx);
    HandleConsistent(sys.scopes, t, msg, ctx);
    match a {
      case Keep =>
      case Take(l) => TakeKeepsSane(sys, s.value, msg, ctx, l);
      case GiveBack(g) => FewerRecords(sys.scopes, t, Remove(t, g.scope, g.ip));
    }
  }

  lemma {:induction false} TakeKeepsSane(sys: Sys, s: Scope, msg: Message, ctx: Ctx, l: Lease)
    requires Sane(sys) && ClientIdOf(msg).Some?
    requires Served(sys.scopes, msg, ctx, s, ClientIdOf(msg).value)
    requires Legal(s, sys.table, msg, ClientIdOf(msg).value, ctx, Take(l))
    ensures Rooted(sys.scopes, Insert(sys.table, l)) && Respected(sys.scopes, Insert(sys.table, l))
  {
    SelectedScopeServes(sys.scopes, msg, ctx, s);
    if l.state != Declined {
      GrantIsUnreserved(s, sys.table, QueryOf(msg, l.client, ctx));
    }
    hide Served, Legal, Sound, Scope.Contains, Insert;
    var t, t' := sys.table, Insert(sys.table, l);
    forall k | k in t'.leases
      ensures HasId(sys.scopes, k.scope)
    {
      AtInsert(t, l, k);
    }
    forall k, x | k in t'.leases && InUse(t'.leases[k]) && x in sys.scopes && x.id == k.scope
      ensures !x.IsReservedForOther(k.ip, t'.leases[k].client)
    {
      AtInsert(t, l, k);
      if k == SlotOf(l) {
        SameIdSameScope(sys.scopes, x, s);
      }
    }
  }

  // ----- Configuration edits -----

  /** Replacing a scope by one with the same id. */
  lemma {:induction false} ReplaceScope(scopes: seq<Scope>, i: nat, next: Scope)
    requires i < |scopes| && UniqueIds(scopes) && AllSound(scopes)
    requires next.id == scopes[i].id && Sound(next)
    ensures UniqueIds(scopes[i := next]) && AllSound(scopes[i := next])
    ensures forall id :: HasId(scopes, id) ==> HasId(scopes[i := next], id)
    ensures forall s :: s in scopes[i := next] ==> s == next || s in scopes
  {
    var after := scopes[i := next];
    forall id | HasId(scopes, id)
      ensures HasId(after, id)
    {
      var s :| s in scopes && s.id == id;
      var j :| 0 <= j < |scopes| && scopes[j] == s;
      assert after[j] in after && after[j].id == id;
    }
  }

  /** A table in which the edited scope's reservations are respected stays in order. */
  lemma {:induction false} EditKeepsSane(sys: Sys, i: nat, next: Scope, t: Table)
    requires Sane(sys) && i < |sys.scopes|
    requires next.id == sys.scopes[i].id && Sound(next)
    requires Consistent(t)
    requires forall k :: k in t.leases ==> k in sys.table.leases && t.leases[k] == sys.table.leases[k]
    requires forall k :: k in t.leases && InUse(t.leases[k]) && k.scope == next.id ==>
      !next.IsReservedForOther(k.ip, t.leases[k].client)
    ensures Sane(sys.(scopes := sys.scopes[i := next], table := t))
  {
    hide Sound, Consistent;
    ReplaceScope(sys.scopes, i, next);
    FewerRecords(sys.scopes, sys.table, t);
    var after := sys.scopes[i := next];
    forall k, x | k in t.leases && InUse(t.leases[k]) && x in after && x.id == k.scope
      ensures !x.IsReservedForOther(k.ip, t.leases[k].client)
    {
      if x != next {
        assert x in sys.scopes;
      }
    }
  }

  lemma {:induction false} PatchKeepsSane(sys: Sys, id: ScopeId, p: ScopePatch)
    requires Sane(sys)
    ensures Sane(PatchScope(sys, id, p).0)
  {
    hide ValidateErrors, Sound, Consistent, Scope.IsPoolable;
    var i := FindScope(sys.scopes, id);
    if i < |sys.scopes| && Patched(sys.scopes[i], p).Success? {
      var next := Patched(sys.scopes[i], p).value;
      ValidateIsExact(next);
      if WellFormed(next) {
        EditKeepsSane(sys, i, next, sys.table);
      }
    }
  }

  lemma {:induction false} AddReservationKeepsSane(sys: Sys, id: ScopeId, r: Reservation)
    requires Sane(sys)
    ensures Sane(AddReservation(sys, id, r).0)
  {
    var i := FindScope(sys.scopes, id);
    if i < |sys.scopes| {
      var next, t := Reserving(sys.scopes[i], r), Evict(sys.table, id, r);
      ValidateIsExact(next);
      if WellFormed(next) {
        EvictConsistent(sys.table, id, r);
        forall k | k in t.leases && InUse(t.leases[k]) && k.scope == id
          ensures !next.IsReservedForOther(k.ip, t.leases[k].client)
        {
          assert t.leases[k] == sys.table.leases[k];
          assert !sys.scopes[i].IsReservedForOther(k.ip, t.leases[k].client);
        }
        EditKeepsSane(sys, i, next, t);
      }
    }
  }

  lemma {:induction false} WithoutClientReservedOnce(rs: seq<Reservation>, client: ClientId)
    requires ReservedOnce(rs)
    ensures ReservedOnce(WithoutClient(rs, client))
  {
    if rs == [] {
    } else {
      var rest := WithoutClient(rs[1..], client);
      WithoutClientReservedOnce(rs[1..], client);
      if rs[0].client != client {
        var all := WithoutClient(rs, client);
        assert all == [rs[0]] + rest;
        forall i, j | 0 <= i < j < |all|
          ensures all[i].ip != all[j].ip
        {
          if i == 0 {
            assert all[j] in rest;
            var m :| 0 <= m < |rs[1..]| && rs[1..][m] == all[j];
            assert rs[m + 1] == all[j];
          }
        }
      } else {
        assert WithoutClient(rs, client) == rest;
      }
    }
  }

  lemma {:induction false} UnreservingSound(s: Scope, client: ClientId)
    requires Sound(s)
    ensures Sound(Unreserving(s, client))
  {
    WithoutClientReservedOnce(s.reservations, client);
    var next := Unreserving(s, client);
    forall r | r in next.reservations
      ensures InBlock(next, r.ip)
    {
      assert InBlock(s, r.ip);
    }
    assert forall p :: p in s.pools ==> InBlock(next, p.start) && InBlock(next, p.end);
  }

  lemma {:induction false} RemoveReservationKeepsSane(sys: Sys, id: ScopeId, client: ClientId)
    requires Sane(sys)
    ensures Sane(RemoveReservation(sys, id, client).0)
  {
    hide Sound;
    var i := FindScope(sys.scopes, id);
    if i < |sys.scopes| {
      var next := Unreserving(sys.scopes[i], client);
      UnreservingSound(sys.scopes[i], client);
      forall k | k in sys.table.leases && InUse(sys.table.leases[k]) && k.scope == id
        ensures !next.IsReservedForOther(k.ip, sys.table.leases[k].client)
      {
        assert !sys.scopes[i].IsReservedForOther(k.ip, sys.table.leases[k].client);
      }
      EditKeepsSane(sys, i, next, sys.table);
    }
  }

  /** Removing the last way to serve anyone goes unnoticed: the only rule that can fail
      after a reservation is removed is the last one, and it fails exactly when the pools
      are empty and nobody else has a reservation. */
  lemma {:induction false} RemoveReservationMayStrand(s: Scope, client: ClientId)
    requires ValidateErrors(s) == []
    ensures ValidateErrors(Unreserving(s, client)) ==
      if s.Capacity() == 0 && (forall r :: r in s.reservations ==> r.client == client)
      then [NoUsableAddresses] else []
  {
    var next := Unreserving(s, client);
    ValidateIsExact(s);
    UnreservingSound(s, client);
    hide ValidateErrors, Sound, WellFormed, Scope.PoolableAddrs;
    SoundReport(next);
    SamePools(s, next);
    NobodyElse(s.reservations, client);
  }

  /** A sound scope can only be reported for serving nobody. */
  lemma {:induction false} SoundReport(s: Scope)
    requires Sound(s)
    ensures ValidateErrors(s) == if s.Capacity() == 0 && s.reservations == [] then [NoUsableAddresses] else []
  {
    hide Scope.PoolableAddrs;
    ValidateIsExact(s);
  }

  lemma {:induction false} NobodyElse(rs: seq<Reservation>, client: ClientId)
    ensures WithoutClient(rs, client) == [] <==> forall r :: r in rs ==> r.client == client
  {
    var rest := WithoutClient(rs, client);
    assert rest != [] ==> rest[0] in rest;
    forall r | r in rs && r.client != client
      ensures rest != []
    {
      assert r in rest;
    }
  }

  lemma {:induction false} SamePools(a: Scope, b: Scope)
    requires a.pools == b.pools && a.exclusions == b.exclusions && a.subnet == b.subnet && a.prefix == b.prefix
    ensures a.PoolableAddrs() == b.PoolableAddrs()
  {
    forall ip: Ip
      ensures a.IsPoolable(ip) == b.IsPoolable(ip)
    {
    }
    FilterExtensional((ip: Ip) => a.IsPoolable(ip), (ip: Ip) => b.IsPoolable(ip), PoolAddrs(a.pools));
  }

  lemma {:induction false} FilterExtensional(f: Ip -> bool, g: Ip -> bool, xs: seq<Ip>)
    requires forall x :: f(x) == g(x)
    ensures Filter(f, xs) == Filter(g, xs)
  {
    if xs == [] {
    } else {
      FilterExtensional(f, g, xs[1..]);
    }
  }

  lemma {:induction false} WithoutScopeUnique(scopes: seq<Scope>, id: ScopeId)
    requires UniqueIds(scopes)
    ensures UniqueIds(WithoutScope(scopes, id))
  {
    if scopes == [] {
    } else {
      var rest := WithoutScope(scopes[1..], id);
      WithoutScopeUnique(scopes[1..], id);
      if scopes[0].id != id {
        var all := WithoutScope(scopes, id);
        assert all == [scopes[0]] + rest;
        forall i, j | 0 <= i < j < |all|
          ensures all[i].id != all[j].id
        {
          if i == 0 {
            assert all[j] in rest;
            var m :| 0 <= m < |scopes[1..]| && scopes[1..][m] == all[j];
            assert scopes[m + 1] == all[j];
          }
        }
      } else {
        assert WithoutScope(scopes, id) == rest;
      }
    }
  }

  lemma {:induction false} RemoveScopeKeepsSane(sys: Sys, id: ScopeId)
    requires Sane(sys)
    ensures Sane(RemoveScope(sys, id).0)
  {
    hide Sound;
    var rest, t := WithoutScope(sys.scopes, id), ClearScope(sys.table, id);
    WithoutScopeUnique(sys.scopes, id);
    ClearScopeConsistent(sys.table, id);
    forall k | k in t.leases
      ensures HasId(rest, k.scope)
    {
      var s :| s in sys.scopes && s.id == k.scope;
      assert s in rest;
    }
  }

  // ----- Adding a scope -----

  /** The next id is new: no wrap-around, or nothing at zero to collide with. */
  predicate HasRoom(scopes: seq<Scope>) {
    MaxId(scopes) < U32_MAX || forall s :: s in scopes ==> s.id != 0
  }

  /** The id given to a new scope is unused exactly when there is room for it. */
  lemma {:induction false} NextIdIsFreshIffRoom(scopes: seq<Scope>)
    ensures !HasId(scopes, NextId(scopes)) <==> HasRoom(scopes)
  {
    if MaxId(scopes) < U32_MAX {
      assert NextId(scopes) == MaxId(scopes) + 1;
    } else {
      assert NextId(scopes) == 0;
    }
  }

  /** Ids do collide: after the largest id comes zero, taken or not. */
  lemma {:induction false} WrappedIdCollides(a: Scope, b: Scope)
    requires a.id == 0 && b.id == U32_MAX
    ensures NextId([a, b]) == a.id
  {
    assert MaxId([a, b]) == U32_MAX by {
      assert b in [a, b];
    }
  }

  lemma {:induction false} AppendKeepsSane(sys: Sys, added: Scope, listeners: seq<Ip>)
    requires Sane(sys) && Sound(added) && !HasId(sys.scopes, added.id)
    ensures Sane(sys.(scopes := sys.scopes + [added], listeners := listeners))
  {
    hide Sound, Consistent;
    var after := sys.scopes + [added];
    forall k | k in sys.table.leases
      ensures HasId(after, k.scope) && k.scope != added.id
    {
      var x :| x in sys.scopes && x.id == k.scope;
      assert x in after;
    }
  }

  lemma {:induction false} AddScopeKeepsSane(sys: Sys, s: Scope, local: seq<Ip>)
    requires Sane(sys) && HasRoom(sys.scopes)
    ensures Sane(AddScope(sys, s, local).0)
  {
    hide Sane, HasRoom;
    if AddScopeProblems(sys, s, local) == [] {
      ValidateIsExact(s);
      NextIdIsFreshIffRoom(sys.scopes);
      var added := s.(id := NextId(sys.scopes));
      SoundIgnoresId(s, added);
      AppendKeepsSane(sys, added, AddScope(sys, s, local).0.listeners);
    }
  }

  lemma {:induction false} SoundIgnoresId(s: Scope, next: Scope)
    requires Sound(s) && next == s.(id := next.id)
    ensures Sound(next)
  {
    assert forall p :: p in s.pools ==> InBlock(s, p.start) && InBlock(s, p.end);
    assert forall r :: r in s.reservations ==> InBlock(s, r.ip);
  }

  // ----- Whole runs -----

  lemma {:induction false} StepKeepsSane(sys: Sys, e: Timed)
    requires Sane(sys) && (e.event.ScopeAdded? ==> HasRoom(sys.scopes))
    ensures Sane(Step(sys, e))
  {
    hide Sane, Handle, AddScope, PatchScope, RemoveScope, AddReservation, RemoveReservation;
    match e.event {
      case Packet(msg, _, _) => PacketKeepsSane(sys, msg, CtxOf(e));
      case ReapTick => DropKeepsSane(sys, StaleSlots(sys.table, e.now));
      case Revoke(scope, ip) => RevokeKeepsSane(sys, scope, ip);
      case ScopeAdded(s, local) => AddScopeKeepsSane(sys, s, local);
      case ScopePatched(id, p) => PatchKeepsSane(sys, id, p);
      case ScopeRemoved(id) => RemoveScopeKeepsSane(sys, id);
      case ReservationAdded(id, r) => AddReservationKeepsSane(sys, id, r);
      case ReservationRemoved(id, client) => RemoveReservationKeepsSane(sys, id, client);
    }
  }

  lemma {:induction false} DropKeepsSane(sys: Sys, gone: set<Slot>)
    requires Sane(sys)
    ensures Sane(sys.(table := DropSlots(sys.table, gone)))
  {
    DropSlotsConsistent(sys.table, gone);
    FewerRecords(sys.scopes, sys.table, DropSlots(sys.table, gone));
  }

  lemma {:induction false} RevokeKeepsSane(sys: Sys, scope: ScopeId, ip: Ip)
    requires Sane(sys)
    ensures Sane(sys.(table := Remove(sys.table, scope, ip)))
  {
    RemoveConsistent(sys.table, scope, ip);
    DropKeepsSane(sys, {Slot(scope, ip)});
  }

  lemma {:induction false} RunKeepsSane(sys: Sys, es: seq<Timed>, n: nat)
    requires Sane(sys) && n <= |es|
    requires forall i :: 0 <= i < n && es[i].event.ScopeAdded? ==> HasRoom(After(sys, es, i).scopes)
    ensures Sane(After(sys, es, n))
  {
    hide Step, Sane, HasRoom;
    if n == 0 {
    } else {
      RunKeepsSane(sys, es, n - 1);
      StepKeepsSane(After(sys, es, n - 1), es[n - 1]);
    }
  }

  /** Starting from validated scopes with distinct ids and no leases, after any mix of
      packets, reaps, revocations and scope or reservation edits: ids are distinct, every
      scope passes every rule except perhaps the last, every record names a configured
      scope, and no Offered or Bound lease sits on an address reserved for a different
      client. Ids are assumed not to run out. */
  lemma {:induction false} EditsPreserveReservations(scopes: seq<Scope>, listeners: seq<Ip>, es: seq<Timed>)
    requires UniqueIds(scopes) && forall s :: s in scopes ==> ValidateErrors(s) == []
    requires forall i :: 0 <= i < |es| && es[i].event.ScopeAdded? ==>
      HasRoom(After(Sys(scopes, listeners, EMPTY), es, i).scopes)
    ensures var end := After(Sys(scopes, listeners, EMPTY), es, |es|);
      && UniqueIds(end.scopes)
      && (forall s :: s in end.scopes ==> ValidateErrors(s) == [] || ValidateErrors(s) == [NoUsableAddresses])
      && Consistent(end.table)
      && (forall k :: k in end.table.leases ==> HasId(end.scopes, k.scope))
      && (forall k, s :: k in end.table.leases && InUse(end.table.leases[k]) && s in end.scopes && s.id == k.scope ==>
            !s.IsReservedForOther(k.ip, end.table.leases[k].client))
  {
    hide Step, Sound, ValidateErrors;
    var start := Sys(scopes, listeners, EMPTY);
    forall s | s in scopes
      ensures Sound(s)
    {
      ValidateIsExact(s);
    }
    RunKeepsSane(start, es, |es|);
    forall s | s in After(start, es, |es|).scopes
      ensures ValidateErrors(s) == [] || ValidateErrors(s) == [NoUsableAddresses]
    {
      SoundReport(s);
    }
  }
}
