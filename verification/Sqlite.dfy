/** The shared lease table of the SQL backend: claims as single conditional writes. */
module Sqlite {
  import opened Prelude
  import opened Addr
  import opened Scopes
  import opened Leases
  import Tables
  import opened Text

  /** Every column but the key. */
  datatype Row = Row(
    client: Text,
    state: LeaseState,
    expiresAt: UnixTime,
    hostname: Option<string>,
    vendorClass: Option<string>,
    createdAt: UnixTime,
    lastSeen: UnixTime)

  type Rows = map<Slot, Row>

  function RowOf(l: Lease): Row {
    Row(ClientText(l.client), l.state, l.expiresAt, l.hostname, l.vendorClass, l.createdAt, l.lastSeen)
  }

  // ----- The statements -----

  function SqlInsert(t: Rows, l: Lease): Rows {
    t[SlotOf(l) := RowOf(l)]
  }

  /** The `WHERE` clause of the claim. */
  predicate MayClaim(t: Rows, l: Lease, now: UnixTime) {
    SlotOf(l) in t ==> t[SlotOf(l)].client == ClientText(l.client) || t[SlotOf(l)].expiresAt <= now
  }

  function SqlTryClaim(t: Rows, l: Lease, now: UnixTime): (Rows, bool) {
    if MayClaim(t, l, now) then (SqlInsert(t, l), true) else (t, false)
  }

  predicate SqlUsableBy(t: Rows, k: Slot, client: ClientId, now: UnixTime) {
    k in t ==>
      if t[k].client == ClientText(client) then t[k].state != Declined else t[k].expiresAt <= now
  }

  function SqlRemove(t: Rows, k: Slot): Rows {
    t - {k}
  }

  function SqlReap(t: Rows, now: UnixTime): Rows {
    map k | k in t && t[k].expiresAt > now :: t[k]
  }

  function SqlClearScope(t: Rows, scope: ScopeId): Rows {
    map k | k in t && k.scope != scope :: t[k]
  }

  class SqliteStore {
    var rows: Rows

    constructor ()
      ensures rows == map[]
    {
      rows := map[];
    }

    method Insert(l: Lease)
      modifies this
      ensures rows == SqlInsert(old(rows), l)
    {
      rows := rows[SlotOf(l) := RowOf(l)];
    }

    method TryClaim(l: Lease, now: UnixTime) returns (claimed: bool)
      modifies this
      ensures (rows, claimed) == SqlTryClaim(old(rows), l, now)
    {
      var k, client := SlotOf(l), ClientText(l.client);
      if k !in rows {
        rows := rows[k := RowOf(l)];
        return true;
      }
      if rows[k].client == client || rows[k].expiresAt <= now {
        rows := rows[k := RowOf(l)];
        return true;
      }
      claimed := false;
    }

    method Remove(k: Slot) returns (existed: bool)
      modifies this
      ensures rows == SqlRemove(old(rows), k) && existed == (k in old(rows))
    {
      existed := k in rows;
      rows := rows - {k};
    }

    method Reap(now: UnixTime) returns (reaped: nat)
      modifies this
      ensures rows == SqlReap(old(rows), now)
      ensures reaped == |set k | k in old(rows) && old(rows)[k].expiresAt <= now|
    {
      var expired := set k | k in rows && rows[k].expiresAt <= now;
      reaped := |expired|;
      rows := rows - expired;
    }

    method ClearScope(scope: ScopeId) returns (dropped: nat)
      modifies this
      ensures rows == SqlClearScope(old(rows), scope)
      ensures dropped == |set k | k in old(rows) && k.scope == scope|
    {
      var gone := set k | k in rows && k.scope == scope;
      dropped := |gone|;
      rows := rows - gone;
    }
  }

  // ----- Any number of instances on one table -----

  /** One statement of one instance. */
  datatype Op =
    | Claim(instance: nat, lease: Lease, now: UnixTime)
    | Put(instance: nat, lease: Lease)
    | Delete(instance: nat, slot: Slot)
    | DeleteExpired(instance: nat, now: UnixTime)
    | DeleteScope(instance: nat, scope: ScopeId)

  function Execute(t: Rows, op: Op): Rows {
    match op
    case Claim(_, l, now) => SqlTryClaim(t, l, now).0
    case Put(_, l) => SqlInsert(t, l)
    case Delete(_, k) => SqlRemove(t, k)
    case DeleteExpired(_, now) => SqlReap(t, now)
    case DeleteScope(_, scope) => SqlClearScope(t, scope)
  }

  /** The table after the first `n` statements, in the order the database ran them. */
  function Executed(t: Rows, ops: seq<Op>, n: nat): Rows
    requires n <= |ops|
  {
    if n == 0 then t else Execute(Executed(t, ops, n - 1), ops[n - 1])
  }

  /** The statement leaves the claim of `l` in force: its clock is before the expiry, it
      neither writes nor deletes the row unconditionally, and it is no new claim by the owner. */
  predicate Respects(op: Op, l: Lease) {
    match op
    case Claim(_, x, now) => now < l.expiresAt && !(SlotOf(x) == SlotOf(l) && x.client == l.client)
    case Put(_, x) => SlotOf(x) != SlotOf(l)
    case Delete(_, k) => k != SlotOf(l)
    case DeleteExpired(_, now) => now < l.expiresAt
    case DeleteScope(_, scope) => scope != l.scopeId
  }

  lemma {:induction false} ClaimRefused(t: Rows, l: Lease, x: Lease, now: UnixTime)
    requires SlotOf(l) in t && t[SlotOf(l)] == RowOf(l)
    requires SlotOf(x) == SlotOf(l) && x.client != l.client && now < l.expiresAt
    ensures SqlTryClaim(t, x, now) == (t, false)
  {
    ClientTextInjective(x.client, l.client);
  }

  lemma {:induction false} ClaimStands(t: Rows, ops: seq<Op>, l: Lease, n: nat)
    requires SlotOf(l) in t && t[SlotOf(l)] == RowOf(l) && n <= |ops|
    requires forall i :: 0 <= i < n ==> Respects(ops[i], l)
    ensures SlotOf(l) in Executed(t, ops, n) && Executed(t, ops, n)[SlotOf(l)] == RowOf(l)
  {
    hide Execute, RowOf, SlotOf, Respects;
    if n == 0 {
    } else {
      ClaimStands(t, ops, l, n - 1);
      ClaimSurvives(Executed(t, ops, n - 1), ops[n - 1], l);
    }
  }

  lemma {:induction false} ClaimSurvives(t: Rows, op: Op, l: Lease)
    requires SlotOf(l) in t && t[SlotOf(l)] == RowOf(l) && Respects(op, l)
    ensures SlotOf(l) in Execute(t, op) && Execute(t, op)[SlotOf(l)] == RowOf(l)
  {
    if op.Claim? && SlotOf(op.lease) == SlotOf(l) {
      ClaimRefused(t, l, op.lease, op.now);
    }
  }

  lemma {:induction false} ClaimWrites(t: Rows, op: Op)
    requires op.Claim? && SqlTryClaim(t, op.lease, op.now).1
    ensures SlotOf(op.lease) in Execute(t, op) && Execute(t, op)[SlotOf(op.lease)] == RowOf(op.lease)
  {
  }

  /** Claim safety. However the statements of any number of instances interleave, from
      the moment a client's claim succeeds until it expires the row stays that client's,
      unaltered, and every other client's claim of it fails and changes nothing, as long
      as nobody overwrites or deletes the row outright and the owner does not claim anew. */
  lemma {:induction false} ClaimsAreExclusive(t: Rows, ops: seq<Op>, i: nat, j: nat)
    requires i < j <= |ops| && ops[i].Claim?
    requires SqlTryClaim(Executed(t, ops, i), ops[i].lease, ops[i].now).1
    requires forall m :: i < m < |ops| ==> Respects(ops[m], ops[i].lease)
    ensures SlotOf(ops[i].lease) in Executed(t, ops, j)
    ensures Executed(t, ops, j)[SlotOf(ops[i].lease)] == RowOf(ops[i].lease)
    ensures j < |ops| && ops[j].Claim? && SlotOf(ops[j].lease) == SlotOf(ops[i].lease) ==>
      SqlTryClaim(Executed(t, ops, j), ops[j].lease, ops[j].now) == (Executed(t, ops, j), false)
  {
    hide SqlTryClaim, RowOf, SlotOf;
    ClaimWrites(Executed(t, ops, i), ops[i]);
    var l, start, rest := ops[i].lease, Executed(t, ops, i + 1), ops[i + 1..];
    ExecutedSplits(t, ops, i + 1, j);
    assert forall m :: 0 <= m < |rest| ==> rest[m] == ops[i + 1 + m];
    ClaimStands(start, rest, l, j - i - 1);
    if j < |ops| && ops[j].Claim? && SlotOf(ops[j].lease) == SlotOf(l) {
      assert Respects(ops[j], l);
      ClaimRefused(Executed(t, ops, j), l, ops[j].lease, ops[j].now);
    }
  }

  lemma {:induction false} ExecutedSplits(t: Rows, ops: seq<Op>, i: nat, j: nat)
    requires i <= j <= |ops|
    ensures Executed(t, ops, j) == Executed(Executed(t, ops, i), ops[i..], j - i)
  {
    hide Execute;
    if i < j {
      ExecutedSplits(t, ops, i, j - 1);
      assert ops[i..][j - i - 1] == ops[j - 1];
    }
  }

  // ----- Splitting the claim -----

  /** One half of a claim split in two by an instance: look, then write if the address
      looked usable to it. */
  datatype Half =
    | Look(instance: nat, lease: Lease, now: UnixTime)
    | Write(instance: nat, lease: Lease)

  /** The table, the leases each instance has found usable and not yet written, and those
      it has granted. */
  datatype SplitState = SplitState(rows: Rows, cleared: set<(nat, Lease)>, granted: set<(nat, Lease)>)

  function SplitStep(st: SplitState, h: Half): SplitState {
    match h
    case Look(i, l, now) =>
      if SqlUsableBy(st.rows, SlotOf(l), l.client, now) then st.(cleared := st.cleared + {(i, l)}) else st
    case Write(i, l) =>
      if (i, l) in st.cleared then
        SplitState(SqlInsert(st.rows, l), st.cleared - {(i, l)}, st.granted + {(i, l)})
      else st
  }

  function SplitAfter(st: SplitState, hs: seq<Half>, n: nat): SplitState
    requires n <= |hs|
  {
    if n == 0 then st else SplitStep(SplitAfter(st, hs, n - 1), hs[n - 1])
  }

  /** Splitting breaks exclusivity, whatever the table: for any free address, any two
      instances and any two clients, both are granted it and the first one's row is gone
      while its claim runs. */
  lemma {:induction false} SplitClaimsCollide(t: Rows, i: nat, a: Lease, j: nat, b: Lease, now: UnixTime)
    requires i != j
    requires SlotOf(a) == SlotOf(b) && a.client != b.client && SlotOf(a) !in t && now < a.expiresAt
    ensures var run := [Look(i, a, now), Look(j, b, now), Write(i, a), Write(j, b)];
      var end := SplitAfter(SplitState(t, {}, {}), run, 4);
      && (i, a) in end.granted && (j, b) in end.granted
      && SlotOf(a) in end.rows && end.rows[SlotOf(a)] == RowOf(b)
      && RowOf(b).client != RowOf(a).client
  {
    ClientTextInjective(a.client, b.client);
    var st, run := SplitState(t, {}, {}), [Look(i, a, now), Look(j, b, now), Write(i, a), Write(j, b)];
    assert SplitAfter(st, run, 1) == SplitState(t, {(i, a)}, {});
    assert SplitAfter(st, run, 2) == SplitState(t, {(i, a), (j, b)}, {});
    assert SplitAfter(st, run, 3).granted == {(i, a)} && (j, b) in SplitAfter(st, run, 3).cleared;
  }

  /** The row is the claimant's own Declined record, and the claim would change it. */
  predicate OwnDeclined(t: Rows, l: Lease) {
    var k := SlotOf(l);
    k in t && t[k].client == ClientText(l.client) && t[k].state == Declined && t[k] != RowOf(l)
  }

  /** With nothing in between, look-then-write leaves the table the atomic claim leaves,
      except where the row is the claimant's own Declined record: there the split form
      refuses and the SQL claim overwrites. */
  lemma {:induction false} LookThenWriteIsClaim(t: Rows, i: nat, l: Lease, now: UnixTime)
    ensures SplitAfter(SplitState(t, {}, {}), [Look(i, l, now), Write(i, l)], 2).rows == SqlTryClaim(t, l, now).0 <==>
      !OwnDeclined(t, l)
  {
    var st, run := SplitState(t, {}, {}), [Look(i, l, now), Write(i, l)];
    assert SplitAfter(st, run, 1) == SplitStep(st, Look(i, l, now));
    if SlotOf(l) in t && t[SlotOf(l)] == RowOf(l) {
      assert SqlInsert(t, l) == t;
    } else {
      assert SqlInsert(t, l)[SlotOf(l)] == RowOf(l);
    }
  }

  // ----- Against the in-memory store -----

  /** The table holds the same records as the store. */
  ghost predicate Mirrors(t: Rows, m: Tables.Table) {
    t.Keys == m.leases.Keys && forall k :: k in t ==> t[k] == RowOf(m.leases[k])
  }

  /** The unconditional write leaves what the store's leaves iff the client has no record
      at another address of the scope: the store drops that one, SQL does not. */
  lemma {:induction false} InsertMirrorsIff(t: Rows, m: Tables.Table, l: Lease)
    requires Mirrors(t, m) && Tables.Consistent(m)
    ensures Mirrors(SqlInsert(t, l), Tables.Insert(m, l)) <==>
      forall ip :: Tables.Holds(m, l.scopeId, l.client, ip) ==> ip == l.ip
  {
    hide RowOf, Tables.Insert;
    var t', m' := SqlInsert(t, l), Tables.Insert(m, l);
    forall k
      ensures k in t' && k !in m'.leases <==>
        k.scope == l.scopeId && k.ip != l.ip && Tables.Holds(m, k.scope, l.client, k.ip)
      ensures k in m'.leases ==> k in t' && t'[k] == RowOf(m'.leases[k])
    {
      Tables.AtInsert(m, l, k);
      if k in m.leases {
        assert SlotOf(m.leases[k]) == k;
      }
    }
    if ip :| Tables.Holds(m, l.scopeId, l.client, ip) && ip != l.ip {
      assert Slot(l.scopeId, ip) in t'.Keys && Slot(l.scopeId, ip) !in m'.leases.Keys;
    }
  }

  /** Clearing out expired records leaves what the store's leaves iff none of them is
      Declined: the store keeps those for good, SQL does not. */
  lemma {:induction false} ReapMirrorsIff(t: Rows, m: Tables.Table, now: UnixTime)
    requires Mirrors(t, m)
    ensures Mirrors(SqlReap(t, now), Tables.Reap(m, now)) <==>
      forall k :: k in m.leases && m.leases[k].state == Declined ==> !m.leases[k].IsExpired(now)
  {
    var t', m' := SqlReap(t, now), Tables.Reap(m, now);
    assert forall k :: k in t'.Keys <==> k in m.leases && !m.leases[k].IsExpired(now);
    assert forall k :: k in m'.leases.Keys <==> k in m.leases && !Tables.Stale(m.leases[k], now);
  }

  /** The two removals always agree. */
  lemma {:induction false} RemovalsMirror(t: Rows, m: Tables.Table, k: Slot, scope: ScopeId)
    requires Mirrors(t, m)
    ensures Mirrors(SqlRemove(t, k), Tables.Remove(m, k.scope, k.ip))
    ensures Mirrors(SqlClearScope(t, scope), Tables.ClearScope(m, scope))
  {
    assert Slot(k.scope, k.ip) == k;
  }

  /** Where no record is Free, both backends judge usability alike, and the SQL claim
      succeeds exactly where the store's would, except on the claimant's own Declined
      record, which only SQL lets it retake. */
  lemma {:induction false} BackendsAgree(t: Rows, m: Tables.Table, l: Lease, now: UnixTime)
    requires Mirrors(t, m) && forall k :: k in m.leases ==> m.leases[k].state != Free
    ensures SqlUsableBy(t, SlotOf(l), l.client, now) <==> Tables.UsableBy(m, l.scopeId, l.ip, l.client, now)
    ensures var own := SlotOf(l) in m.leases && m.leases[SlotOf(l)].client == l.client
                       && m.leases[SlotOf(l)].state == Declined;
      SqlTryClaim(t, l, now).1 <==> Tables.TryClaim(m, l, now).1 || own
  {
    var k := SlotOf(l);
    if k in m.leases {
      ClientTextInjective(m.leases[k].client, l.client);
    }
  }
}
