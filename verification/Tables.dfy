/** The two-way lease index as a value, and what each operation does to it. */
module Tables {
  import opened Prelude
  import opened Addr
  import opened Scopes
  import opened Leases

  datatype Table = Table(leases: map<Slot, Lease>, index: map<Holder, Ip>)

  const EMPTY: Table := Table(map[], map[])

  // ----- Queries -----

  function GetByIp(t: Table, scope: ScopeId, ip: Ip): Option<Lease> {
    At(t, Slot(scope, ip))
  }

  function At(t: Table, k: Slot): Option<Lease> {
    if k in t.leases then Some(t.leases[k]) else None
  }

  function GetByClient(t: Table, scope: ScopeId, client: ClientId): Option<Lease> {
    var h := Holder(scope, client);
    if h in t.index then At(t, Slot(scope, t.index[h])) else None
  }

  predicate UsableBy(t: Table, scope: ScopeId, ip: Ip, client: ClientId, now: UnixTime) {
    match GetByIp(t, scope, ip)
    case None => true
    case Some(l) => if l.client == client then l.state != Declined else l.IsAvailableForOthers(now)
  }

  /** The slots `used_in` counts. */
  function ActiveSlots(t: Table, scope: ScopeId, now: UnixTime): set<Slot> {
    set k | k in t.leases && t.leases[k].scopeId == scope && t.leases[k].IsActive(now)
  }

  function UsedIn(t: Table, scope: ScopeId, now: UnixTime): nat {
    |ActiveSlots(t, scope, now)|
  }

  // ----- Updates -----

  /** The client's record elsewhere goes, and so does the previous owner's index entry. */
  function Insert(t: Table, l: Lease): Table {
    var h, k := HolderOf(l), SlotOf(l);
    var leases :=
      if h in t.index && t.index[h] != l.ip
      then t.leases - {Slot(l.scopeId, t.index[h])}
      else t.leases;
    var index :=
      if k in leases && leases[k].client != l.client
      then t.index - {Holder(l.scopeId, leases[k].client)}
      else t.index;
    Table(leases[k := l], index[h := l.ip])
  }

  function TryClaim(t: Table, l: Lease, now: UnixTime): (Table, bool) {
    if UsableBy(t, l.scopeId, l.ip, l.client, now) then (Insert(t, l), true) else (t, false)
  }

  function Remove(t: Table, scope: ScopeId, ip: Ip): Table {
    var k := Slot(scope, ip);
    if k !in t.leases then t
    else
      var h := Holder(scope, t.leases[k].client);
      Table(t.leases - {k}, if h in t.index && t.index[h] == ip then t.index - {h} else t.index)
  }

  function ClearScope(t: Table, scope: ScopeId): Table {
    Table(map k | k in t.leases && k.scope != scope :: t.leases[k],
          map h | h in t.index && h.scope != scope :: t.index[h])
  }

  /** Expired, and not kept for its quarantine. */
  predicate Stale(l: Lease, now: UnixTime) {
    l.IsExpired(now) && l.state != Declined
  }

  function StaleSlots(t: Table, now: UnixTime): set<Slot> {
    set k | k in t.leases && Stale(t.leases[k], now)
  }

  function Reap(t: Table, now: UnixTime): Table {
    DropSlots(t, StaleSlots(t, now))
  }

  /** The table without the given slots, and without the index entries pointing at them. */
  function DropSlots(t: Table, gone: set<Slot>): Table {
    Table(t.leases - gone,
          map h | h in t.index && Slot(h.scope, t.index[h]) !in gone :: t.index[h])
  }

  // ----- The two-way index -----

  /** `leases` and `index` are exact inverses, and each record sits under its own key. */
  ghost predicate Consistent(t: Table) {
    && (forall k :: k in t.leases ==>
          && SlotOf(t.leases[k]) == k
          && HolderOf(t.leases[k]) in t.index
          && t.index[HolderOf(t.leases[k])] == k.ip)
    && (forall h :: h in t.index ==>
          && Slot(h.scope, t.index[h]) in t.leases
          && t.leases[Slot(h.scope, t.index[h])].client == h.client)
  }

  lemma {:induction false} InsertConsistent(t: Table, l: Lease)
    requires Consistent(t)
    ensures Consistent(Insert(t, l))
  {
    var t' := Insert(t, l);
    forall k | k in t'.leases
      ensures SlotOf(t'.leases[k]) == k
      ensures HolderOf(t'.leases[k]) in t'.index && t'.index[HolderOf(t'.leases[k])] == k.ip
    {
      InsertKeepsSlot(t, l, k);
    }
    forall h | h in t'.index
      ensures Slot(h.scope, t'.index[h]) in t'.leases && t'.leases[Slot(h.scope, t'.index[h])].client == h.client
    {
      InsertKeepsHolder(t, l, h);
    }
  }

  lemma {:induction false} InsertKeepsSlot(t: Table, l: Lease, k: Slot)
    requires Consistent(t) && k in Insert(t, l).leases
    ensures var t' := Insert(t, l);
      && SlotOf(t'.leases[k]) == k
      && HolderOf(t'.leases[k]) in t'.index && t'.index[HolderOf(t'.leases[k])] == k.ip
  {
    if k != SlotOf(l) {
      assert Insert(t, l).leases[k] == t.leases[k];
    }
  }

  lemma {:induction false} InsertKeepsHolder(t: Table, l: Lease, h: Holder)
    requires Consistent(t) && h in Insert(t, l).index
    ensures var t' := Insert(t, l); var k := Slot(h.scope, t'.index[h]);
      k in t'.leases && t'.leases[k].client == h.client
  {
    if h != HolderOf(l) {
      assert Insert(t, l).index[h] == t.index[h];
      var k := Slot(h.scope, t.index[h]);
      assert k in t.leases && SlotOf(t.leases[k]) == k;
    }
  }

  lemma {:induction false} RemoveConsistent(t: Table, scope: ScopeId, ip: Ip)
    requires Consistent(t)
    ensures Consistent(Remove(t, scope, ip))
    ensures Remove(t, scope, ip) == DropSlots(t, {Slot(scope, ip)})
  {
    var t' := Remove(t, scope, ip);
    forall k | k in t'.leases
      ensures SlotOf(t'.leases[k]) == k
      ensures HolderOf(t'.leases[k]) in t'.index && t'.index[HolderOf(t'.leases[k])] == k.ip
    {
      assert t.leases[k] == t'.leases[k];
    }
    assert t'.index == DropSlots(t, {Slot(scope, ip)}).index;
  }

  lemma {:induction false} DropSlotsConsistent(t: Table, gone: set<Slot>)
    requires Consistent(t)
    ensures Consistent(DropSlots(t, gone))
  {
  }

  /** Dropping one more slot. */
  lemma {:induction false} DropSlotsExtend(t: Table, gone: set<Slot>, k: Slot)
    ensures DropSlots(DropSlots(t, gone), {k}) == DropSlots(t, gone + {k})
  {
    assert t.leases - gone - {k} == t.leases - (gone + {k});
    assert DropSlots(DropSlots(t, gone), {k}).index == DropSlots(t, gone + {k}).index;
  }

  lemma {:induction false} ClearScopeConsistent(t: Table, scope: ScopeId)
    requires Consistent(t)
    ensures Consistent(ClearScope(t, scope))
  {
  }

  lemma {:induction false} ClearScopeCount(t: Table, scope: ScopeId)
    ensures |t.leases| - |ClearScope(t, scope).leases| == |set k | k in t.leases && k.scope == scope|
  {
    var gone := set k | k in t.leases && k.scope == scope;
    var rest := ClearScope(t, scope).leases;
    assert t.leases.Keys == rest.Keys + gone;
    assert |t.leases.Keys| == |rest.Keys| + |gone|;
  }

  /** One mutation of the store, with everything the caller chooses. */
  datatype Mutation =
    | DoInsert(lease: Lease)
    | DoTryClaim(lease: Lease, now: UnixTime)
    | DoRemove(scope: ScopeId, ip: Ip)
    | DoClearScope(scope: ScopeId)
    | DoReap(now: UnixTime)

  function Mutate(t: Table, m: Mutation): Table {
    match m
    case DoInsert(l) => Insert(t, l)
    case DoTryClaim(l, now) => TryClaim(t, l, now).0
    case DoRemove(scope, ip) => Remove(t, scope, ip)
    case DoClearScope(scope) => ClearScope(t, scope)
    case DoReap(now) => Reap(t, now)
  }

  function MutateAll(t: Table, ms: seq<Mutation>): Table
    decreases |ms|
  {
    if ms == [] then t else MutateAll(Mutate(t, ms[0]), ms[1..])
  }

  /** Every sequence of operations keeps the two maps inverse. */
  lemma {:induction false} IndexIsExactInverse(t: Table, ms: seq<Mutation>)
    requires Consistent(t)
    ensures Consistent(MutateAll(t, ms))
    decreases |ms|
  {
    if ms == [] {
    } else {
      match ms[0] {
        case DoInsert(l) => InsertConsistent(t, l);
        case DoTryClaim(l, _) => InsertConsistent(t, l);
        case DoRemove(scope, ip) => RemoveConsistent(t, scope, ip);
        case DoClearScope(scope) => ClearScopeConsistent(t, scope);
        case DoReap(now) => DropSlotsConsistent(t, StaleSlots(t, now));
      }
      IndexIsExactInverse(Mutate(t, ms[0]), ms[1..]);
    }
  }

  /** The reverse index maps the client to the address. */
  ghost predicate Indexed(t: Table, scope: ScopeId, client: ClientId, ip: Ip) {
    Holder(scope, client) in t.index && t.index[Holder(scope, client)] == ip
  }

  /** The record at the address is the client's. */
  ghost predicate Holds(t: Table, scope: ScopeId, client: ClientId, ip: Ip) {
    GetByIp(t, scope, ip).Some? && GetByIp(t, scope, ip).value.client == client
  }

  /** Whatever sequence of operations is run on an empty store, the reverse index
      maps a client to an address iff the record at that address is the client's;
      a client has at most one record in a scope; and looking a client up finds
      exactly what a scan of the whole table would. */
  lemma {:induction false} LookupIsScan(ms: seq<Mutation>, scope: ScopeId, client: ClientId, ip: Ip, other: Ip)
    ensures var t := MutateAll(EMPTY, ms);
      && (Indexed(t, scope, client, ip) <==> Holds(t, scope, client, ip))
      && (Holds(t, scope, client, ip) && Holds(t, scope, client, other) ==> ip == other)
      && (forall l ::
            GetByClient(t, scope, client) == Some(l)
            <==> l in t.leases.Values && l.scopeId == scope && l.client == client)
  {
    IndexIsExactInverse(EMPTY, ms);
    var t := MutateAll(EMPTY, ms);
    forall l
      ensures GetByClient(t, scope, client) == Some(l)
        <==> l in t.leases.Values && l.scopeId == scope && l.client == client
    {
      if l in t.leases.Values && l.scopeId == scope && l.client == client {
        var k :| k in t.leases && t.leases[k] == l;
        assert SlotOf(l) == k && HolderOf(l) == Holder(scope, client);
      }
    }
  }

  // ----- What each operation leaves at an address -----

  lemma {:induction false} AtInsert(t: Table, l: Lease, k: Slot)
    requires Consistent(t)
    ensures At(Insert(t, l), k) ==
      if k == SlotOf(l) then Some(l)
      else if k in t.leases && HolderOf(t.leases[k]) == HolderOf(l) then None
      else At(t, k)
  {
  }

  lemma {:induction false} AtRemove(t: Table, scope: ScopeId, ip: Ip, k: Slot)
    ensures At(Remove(t, scope, ip), k) == if k == Slot(scope, ip) then None else At(t, k)
  {
  }

  lemma {:induction false} AtReap(t: Table, now: UnixTime, k: Slot)
    ensures At(Reap(t, now), k) ==
      if k in t.leases && Stale(t.leases[k], now) then None else At(t, k)
  {
  }

  lemma {:induction false} AtClearScope(t: Table, scope: ScopeId, k: Slot)
    ensures At(ClearScope(t, scope), k) == if k.scope == scope then None else At(t, k)
  {
  }

  /** What counts as used: the scope's records that are offered or bound and not yet over. */
  lemma {:induction false} UseIsExact(t: Table, scope: ScopeId, now: UnixTime, reaped: UnixTime)
    requires Consistent(t)
    ensures UsedIn(t, scope, now) == |set k | k in t.leases && k.scope == scope
      && (t.leases[k].state == Offered || t.leases[k].state == Bound) && now < t.leases[k].expiresAt|
    ensures reaped <= now ==> UsedIn(Reap(t, reaped), scope, now) == UsedIn(t, scope, now)
  {
    var used := set k | k in t.leases && k.scope == scope
      && (t.leases[k].state == Offered || t.leases[k].state == Bound) && now < t.leases[k].expiresAt;
    forall k
      ensures k in ActiveSlots(t, scope, now) <==> k in used
    {
      assert k in t.leases ==> SlotOf(t.leases[k]) == k;
    }
    assert ActiveSlots(t, scope, now) == used;
    if reaped <= now {
      forall k
        ensures k in ActiveSlots(Reap(t, reaped), scope, now) <==> k in ActiveSlots(t, scope, now)
      {
        AtReap(t, reaped, k);
      }
      assert ActiveSlots(Reap(t, reaped), scope, now) == ActiveSlots(t, scope, now);
    }
  }

  // ----- Counting records by address -----

  /** Slots of one scope are no more than their addresses. */
  lemma {:induction false} SlotsByAddress(ks: set<Slot>, scope: ScopeId, ips: set<Ip>)
    requires forall k :: k in ks ==> k.scope == scope && k.ip in ips
    ensures |ks| <= |ips|
  {
    if ks == {} {
    } else {
      var k :| k in ks;
      forall j | j in ks - {k}
        ensures j.scope == scope && j.ip in ips - {k.ip}
      {
      }
      SlotsByAddress(ks - {k}, scope, ips - {k.ip});
    }
  }

  lemma {:induction false} AddressesBySlot(ips: set<Ip>, scope: ScopeId, ks: set<Slot>)
    requires forall ip :: ip in ips ==> Slot(scope, ip) in ks
    ensures |ips| <= |ks|
  {
    if ips == {} {
    } else {
      var ip :| ip in ips;
      AddressesBySlot(ips - {ip}, scope, ks - {Slot(scope, ip)});
    }
  }
}
