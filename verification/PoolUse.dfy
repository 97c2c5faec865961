/** The pool is used exactly: a burst of new clients gets every address once, and
    only then is anyone turned away. */
module PoolUse {
  import opened Prelude
  import opened Addr
  import opened Scopes
  import opened Leases
  import opened Tables
  import opened Allocation
  import opened Server
  import opened Effects
  import opened Admin

  /** Only live placeholders of the given clients, on poolable addresses of `s`. */
  ghost predicate Filling(s: Scope, t: Table, clients: set<ClientId>, deadline: UnixTime) {
    && Consistent(t)
    && forall k :: k in t.leases ==>
         && k.scope == s.id && s.IsPoolable(k.ip)
         && t.leases[k].state == Offered && t.leases[k].expiresAt >= deadline
         && t.leases[k].client in clients
  }

  function TakenIps(t: Table): set<Ip> {
    set k | k in t.leases :: k.ip
  }

  /** Each record takes one address of the pool. */
  lemma {:induction false} TakenCount(s: Scope, t: Table, clients: set<ClientId>, deadline: UnixTime)
    requires Filling(s, t, clients, deadline)
    ensures TakenIps(t) <= ToSet(s.PoolableAddrs())
    ensures |TakenIps(t)| == |t.leases|
    ensures forall ip :: ip in TakenIps(t) <==> Slot(s.id, ip) in t.leases
  {
    hide Scope.IsPoolable, Consistent;
    forall ip | ip in TakenIps(t)
      ensures Slot(s.id, ip) in t.leases.Keys
    {
    }
    AddressesBySlot(TakenIps(t), s.id, t.leases.Keys);
    SlotsByAddress(t.leases.Keys, s.id, TakenIps(t));
  }

  /** Fewer records than addresses leave an address over; as many leave none. */
  lemma {:induction false} Pigeonhole(s: Scope, t: Table, clients: set<ClientId>, deadline: UnixTime)
    requires PoolsDisjoint(s.pools) && Filling(s, t, clients, deadline)
    ensures |t.leases| < s.Capacity() <==> exists ip: Ip :: s.IsPoolable(ip) && Slot(s.id, ip) !in t.leases
    ensures |t.leases| <= s.Capacity()
  {
    hide Scope.IsPoolable, Filling;
    var pool, taken := ToSet(s.PoolableAddrs()), TakenIps(t);
    PoolAddrsDistinct(s.pools);
    NoDuplicatesCardinality(s.PoolableAddrs());
    TakenCount(s, t, clients, deadline);
    SubsetCardinality(taken, pool);
    if |taken| < |pool| {
      assert pool == taken + (pool - taken);
      assert |pool - taken| == |pool| - |taken|;
      var ip :| ip in pool - taken;
    }
  }

  /** For a newcomer, exactly the poolable addresses without a record are to be had. */
  lemma {:induction false} NewcomerPick(s: Scope, t: Table, clients: set<ClientId>, deadline: UnixTime, q: Query)
    requires Filling(s, t, clients, deadline)
    requires s.reservations == [] && q.client !in clients && q.now < deadline && q.occupied == {}
    ensures Holder(s.id, q.client) !in t.index
    ensures Pick(s, t, q).None? <==> forall ip: Ip :: s.IsPoolable(ip) ==> Slot(s.id, ip) in t.leases
    ensures Pick(s, t, q).Some? ==>
      && s.IsPoolable(Pick(s, t, q).value.ip) && Slot(s.id, Pick(s, t, q).value.ip) !in t.leases
      && Usable(s, t, q, Pick(s, t, q).value.ip)
  {
    hide Scope.IsPoolable;
    forall ip
      ensures !MayKeep(s, t, q, ip)
      ensures Obtainable(s, t, q, ip) <==> s.IsPoolable(ip) && Slot(s.id, ip) !in t.leases
    {
    }
    PickNoneIffExhausted(s, t, q);
    if Pick(s, t, q).Some? {
      PickIsPriority(s, t, q, Pick(s, t, q).value.ip);
    }
  }

  /** A newcomer's DISCOVER takes a free poolable address if there is one; else it is
      dropped and nothing changes. */
  lemma {:induction false} NewcomerDiscovers(
      s: Scope, t: Table, clients: set<ClientId>, deadline: UnixTime, msg: Message, client: ClientId, ctx: Ctx)
    requires PoolsDisjoint(s.pools) && Filling(s, t, clients, deadline)
    requires s.reservations == [] && client !in clients && ctx.occupied == {}
    requires ctx.now < deadline <= ctx.now + s.offerSecs
    ensures var (t', o) := OnDiscover(s, t, msg, client, ctx);
      if |t.leases| < s.Capacity() then
        && o.Answered? && o.reply.kind == Offer && s.IsPoolable(o.reply.yiaddr)
        && Slot(s.id, o.reply.yiaddr) !in t.leases
        && t'.leases.Keys == t.leases.Keys + {Slot(s.id, o.reply.yiaddr)}
        && Filling(s, t', clients + {client}, deadline)
      else
        (t', o) == (t, Dropped(PoolExhausted))
  {
    hide Scope.IsPoolable, Filling, Pick, UsableBy, Insert;
    var q := DiscoverQuery(msg, client, ctx);
    Pigeonhole(s, t, clients, deadline);
    NewcomerPick(s, t, clients, deadline, q);
    if Pick(s, t, q).Some? {
      NewRecord(s, t, clients, deadline, OfferLease(s, msg, client, ctx).(ip := Pick(s, t, q).value.ip));
    }
  }

  lemma {:induction false} NewRecord(s: Scope, t: Table, clients: set<ClientId>, deadline: UnixTime, l: Lease)
    requires Filling(s, t, clients, deadline)
    requires SlotOf(l) !in t.leases && HolderOf(l) !in t.index
    requires l.scopeId == s.id && s.IsPoolable(l.ip) && l.state == Offered && l.expiresAt >= deadline
    ensures Insert(t, l).leases == t.leases[SlotOf(l) := l]
    ensures Filling(s, Insert(t, l), clients + {l.client}, deadline)
  {
    InsertConsistent(t, l);
  }

  // ----- A burst of DISCOVERs -----

  /** Event `i` is a DISCOVER in `s`, handled before any offer made so far runs out,
      while no stranger occupies an address. */
  ghost predicate IsDiscover(scopes: seq<Scope>, s: Scope, e: Timed, deadline: UnixTime) {
    && e.event.Packet? && e.event.msg.kind == Some(Discover) && e.event.occupied == {}
    && ClientIdOf(e.event.msg).Some?
    && Served(scopes, e.event.msg, CtxOf(e), s, ClientIdOf(e.event.msg).value)
    && e.now < deadline <= e.now + s.offerSecs
  }

  ghost predicate IsBurst(scopes: seq<Scope>, s: Scope, es: seq<Timed>, deadline: UnixTime) {
    && (forall i :: 0 <= i < |es| ==> IsDiscover(scopes, s, es[i], deadline))
    && (forall i, j :: 0 <= i < j < |es| ==> Sender(es[i]) != Sender(es[j]))
  }

  function Sender(e: Timed): Option<ClientId> {
    if e.event.Packet? then ClientIdOf(e.event.msg) else None
  }

  ghost function Senders(es: seq<Timed>, n: nat): set<ClientId>
    requires n <= |es|
  {
    set i | 0 <= i < n && Sender(es[i]).Some? :: Sender(es[i]).value
  }

  function Min(a: nat, b: nat): nat {
    if a < b then a else b
  }

  /** The slot an answer hands out. */
  function HandedSlot(o: Outcome, s: Scope): Slot
    requires o.Answered?
  {
    Slot(s.id, o.reply.yiaddr)
  }

  lemma {:induction false} DiscoverStep(sys: Sys, e: Timed, s: Scope, client: ClientId)
    requires e.event.Packet? && e.event.msg.kind == Some(Discover)
    requires Served(sys.scopes, e.event.msg, CtxOf(e), s, client)
    ensures (Step(sys, e).table, Answer(sys, e)) == OnDiscover(s, sys.table, e.event.msg, client, CtxOf(e))
    ensures Step(sys, e) == sys.(table := Step(sys, e).table)
  {
  }

  lemma {:induction false} EmptyFilling(s: Scope, deadline: UnixTime)
    ensures Filling(s, EMPTY, {}, deadline)
  {
  }

  /** Event `n` of a burst, from a state the burst has reached. */
  lemma {:induction false} BurstStep(sys: Sys, s: Scope, es: seq<Timed>, deadline: UnixTime, n: nat)
    requires IsBurst(sys.scopes, s, es, deadline) && n < |es|
    requires PoolsDisjoint(s.pools) && s.reservations == []
    requires After(sys, es, n).scopes == sys.scopes
    requires Filling(s, After(sys, es, n).table, Senders(es, n), deadline)
    ensures var now, next, o := After(sys, es, n), After(sys, es, n + 1), Answer(After(sys, es, n), es[n]);
      && next.scopes == sys.scopes
      && if |now.table.leases| < s.Capacity() then
           && o.Answered? && o.reply.kind == Offer && s.IsPoolable(o.reply.yiaddr)
           && HandedSlot(o, s) !in now.table.leases
           && next.table.leases.Keys == now.table.leases.Keys + {HandedSlot(o, s)}
           && Filling(s, next.table, Senders(es, n + 1), deadline)
         else
           o == Dropped(PoolExhausted) && next == now
  {
    hide Step, Answer, OnDiscover, Handle, Served, Filling, Scope.IsPoolable, PoolsDisjoint, IsBurst, Senders;
    var now, e := After(sys, es, n), es[n];
    BurstEvent(sys.scopes, s, es, deadline, n);
    var client := Sender(e).value;
    DiscoverStep(now, e, s, client);
    NewcomerDiscovers(s, now.table, Senders(es, n), deadline, e.event.msg, client, CtxOf(e));
  }

  /** After `n` newcomers: the configuration stands and `min(n, capacity)` addresses are taken. */
  ghost predicate Stage(sys: Sys, s: Scope, es: seq<Timed>, deadline: UnixTime, n: nat)
    requires n <= |es|
  {
    && After(sys, es, n).scopes == sys.scopes
    && Filling(s, After(sys, es, n).table, Senders(es, n), deadline)
    && |After(sys, es, n).table.leases| == Min(n, s.Capacity())
  }

  lemma {:induction false} StageAdvances(sys: Sys, s: Scope, es: seq<Timed>, deadline: UnixTime, n: nat)
    requires IsBurst(sys.scopes, s, es, deadline) && n < |es|
    requires PoolsDisjoint(s.pools) && s.reservations == []
    requires Stage(sys, s, es, deadline, n)
    ensures Stage(sys, s, es, deadline, n + 1)
  {
    hide Step, Answer, Filling, Scope.Capacity, PoolsDisjoint, IsBurst, Scope.IsPoolable;
    BurstStep(sys, s, es, deadline, n);
    SendersOnlyGrow(es, n + 1);
    FillingWidens(s, After(sys, es, n + 1).table, Senders(es, n), Senders(es, n + 1), deadline);
  }

  lemma {:induction false} BurstFills(sys: Sys, s: Scope, es: seq<Timed>, deadline: UnixTime, n: nat)
    requires sys.table == EMPTY && IsBurst(sys.scopes, s, es, deadline) && n <= |es|
    requires PoolsDisjoint(s.pools) && s.reservations == []
    ensures Stage(sys, s, es, deadline, n)
  {
    hide Step, Filling, Scope.Capacity, PoolsDisjoint, IsBurst;
    if n == 0 {
      EmptyFilling(s, deadline);
      assert Senders(es, 0) == {};
    } else {
      hide Stage;
      BurstFills(sys, s, es, deadline, n - 1);
      StageAdvances(sys, s, es, deadline, n - 1);
    }
  }

  lemma {:induction false} SendersOnlyGrow(es: seq<Timed>, n: nat)
    requires 0 < n <= |es|
    ensures Senders(es, n - 1) <= Senders(es, n)
  {
  }

  lemma {:induction false} FillingWidens(
      s: Scope, t: Table, few: set<ClientId>, many: set<ClientId>, deadline: UnixTime)
    requires few <= many
    ensures Filling(s, t, few, deadline) ==> Filling(s, t, many, deadline)
  {
  }

  /** What was handed out stays on record for the rest of the burst. */
  lemma {:induction false} HandedStays(sys: Sys, s: Scope, es: seq<Timed>, deadline: UnixTime, j: nat, n: nat)
    requires sys.table == EMPTY && IsBurst(sys.scopes, s, es, deadline) && j < n <= |es|
    requires PoolsDisjoint(s.pools) && s.reservations == [] && j < s.Capacity()
    ensures var o := Answer(After(sys, es, j), es[j]);
      o.Answered? && HandedSlot(o, s) in After(sys, es, n).table.leases
  {
    hide Step, Answer, Filling, Scope.Capacity, PoolsDisjoint, IsBurst, Scope.IsPoolable;
    BurstFills(sys, s, es, deadline, n - 1);
    BurstStep(sys, s, es, deadline, n - 1);
    if j < n - 1 {
      HandedStays(sys, s, es, deadline, j, n - 1);
    }
  }

  lemma {:induction false} BurstEvent(scopes: seq<Scope>, s: Scope, es: seq<Timed>, deadline: UnixTime, n: nat)
    requires IsBurst(scopes, s, es, deadline) && n < |es|
    ensures IsDiscover(scopes, s, es[n], deadline)
    ensures Sender(es[n]).Some?
    ensures Senders(es, n + 1) == Senders(es, n) + {Sender(es[n]).value}
    ensures Sender(es[n]).value !in Senders(es, n)
  {
    assert IsDiscover(scopes, s, es[n], deadline);
    forall i | 0 <= i < n
      ensures Sender(es[i]) != Sender(es[n])
    {
    }
  }

  /** With disjoint pools of `N` addresses, no reservations, an empty table and nothing
      occupied elsewhere: among distinct clients that DISCOVER before any offer runs out,
      whatever addresses they ask for, the first `N` are offered poolable addresses, no
      two the same, and every one after that is dropped with the state unchanged. */
  lemma {:induction false} PoolIsUsedExactly(sys: Sys, s: Scope, es: seq<Timed>, deadline: UnixTime, i: nat)
    requires sys.table == EMPTY && IsBurst(sys.scopes, s, es, deadline) && i < |es|
    requires PoolsDisjoint(s.pools) && s.reservations == []
    ensures var o := Answer(After(sys, es, i), es[i]);
      if i < s.Capacity() then
        && o.Answered? && o.reply.kind == Offer && s.IsPoolable(o.reply.yiaddr)
        && forall j :: 0 <= j < i ==> Differs(Answer(After(sys, es, j), es[j]), o.reply.yiaddr)
      else
        o == Dropped(PoolExhausted) && After(sys, es, i + 1) == After(sys, es, i)
  {
    hide Step, Answer, Filling, Scope.IsPoolable, Scope.Capacity, PoolsDisjoint;
    BurstFills(sys, s, es, deadline, i);
    BurstStep(sys, s, es, deadline, i);
    if i < s.Capacity() {
      forall j | 0 <= j < i
        ensures Differs(Answer(After(sys, es, j), es[j]), Answer(After(sys, es, i), es[i]).reply.yiaddr)
      {
        HandedStays(sys, s, es, deadline, j, i);
      }
    }
  }

  /** After `n` newcomers exactly `min(n, N)` leases are counted as in use, to the last
      second before the first offer runs out. */
  lemma {:induction false} UseIsCounted(
      sys: Sys, s: Scope, es: seq<Timed>, deadline: UnixTime, n: nat, now: UnixTime)
    requires sys.table == EMPTY && IsBurst(sys.scopes, s, es, deadline) && n <= |es| && now < deadline
    requires PoolsDisjoint(s.pools) && s.reservations == []
    ensures UsedIn(After(sys, es, n).table, s.id, now) == if n < s.Capacity() then n else s.Capacity()
  {
    hide Step, Answer, Scope.IsPoolable, Scope.Capacity, PoolsDisjoint, IsBurst;
    BurstFills(sys, s, es, deadline, n);
    var t := After(sys, es, n).table;
    forall k | k in t.leases
      ensures t.leases[k].scopeId == s.id
    {
      assert SlotOf(t.leases[k]) == k;
    }
    assert ActiveSlots(t, s.id, now) == t.leases.Keys;
  }

  /** The answer hands out some other address. */
  predicate Differs(o: Outcome, ip: Ip) {
    o.Answered? && o.reply.yiaddr != ip
  }
}
