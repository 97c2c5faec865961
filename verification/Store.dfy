/** The in-memory lease store, updated in place. */
module Store {
  import opened Prelude
  import opened Scopes
  import opened Leases
  import opened Tables

  class MemoryStore {
    var leases: map<Slot, Lease>
    var index: map<Holder, Ip>

    ghost predicate Valid()
      reads this
    {
      Consistent(View())
    }

    function View(): Table
      reads this
    {
      Table(leases, index)
    }

    constructor ()
      ensures Valid() && View() == EMPTY
    {
      leases, index := map[], map[];
    }

    method Insert(l: Lease)
      requires Valid()
      modifies this
      ensures Valid() && View() == Tables.Insert(old(View()), l)
    {
      InsertConsistent(View(), l);
      var h := HolderOf(l);
      if h in index {
        var prevIp := index[h];
        if prevIp != l.ip {
          leases := leases - {Slot(l.scopeId, prevIp)};
        }
      }
      var k := SlotOf(l);
      if k in leases && leases[k].client != l.client {
        index := index - {Holder(l.scopeId, leases[k].client)};
      }
      index := index[h := l.ip];
      leases := leases[k := l];
    }

    method TryClaim(l: Lease, now: UnixTime) returns (claimed: bool)
      requires Valid()
      modifies this
      ensures Valid() && (View(), claimed) == Tables.TryClaim(old(View()), l, now)
    {
      if UsableBy(View(), l.scopeId, l.ip, l.client, now) {
        Insert(l);
        claimed := true;
      } else {
        claimed := false;
      }
    }

    method Remove(scope: ScopeId, ip: Ip) returns (removed: Option<Lease>)
      requires Valid()
      modifies this
      ensures Valid() && View() == Tables.Remove(old(View()), scope, ip)
      ensures removed == GetByIp(old(View()), scope, ip)
    {
      RemoveConsistent(View(), scope, ip);
      var k := Slot(scope, ip);
      if k !in leases {
        return None;
      }
      var l := leases[k];
      leases := leases - {k};
      var h := Holder(scope, l.client);
      if h in index && index[h] == ip {
        index := index - {h};
      }
      removed := Some(l);
    }

    method ClearScope(scope: ScopeId) returns (dropped: nat)
      requires Valid()
      modifies this
      ensures Valid() && View() == Tables.ClearScope(old(View()), scope)
      ensures dropped == |set k | k in old(leases) && k.scope == scope|
    {
      ClearScopeConsistent(View(), scope);
      ClearScopeCount(View(), scope);
      hide Consistent;
      var before := leases;
      leases := map k | k in leases && k.scope != scope :: leases[k];
      index := map h | h in index && h.scope != scope :: index[h];
      dropped := |before| - |leases|;
    }

    static lemma {:induction false} AllStaleGone(t: Table, now: UnixTime)
      ensures DropSlots(t, {}) == t
      ensures Tables.Reap(t, now) == DropSlots(t, StaleSlots(t, now))
    {
      assert t.leases - {} == t.leases;
      assert DropSlots(t, {}).index == t.index;
    }

    /** Collects the stale addresses, then removes them one at a time. */
    method Reap(now: UnixTime) returns (reaped: nat)
      requires Valid()
      modifies this
      ensures Valid() && View() == Tables.Reap(old(View()), now)
      ensures reaped == |StaleSlots(old(View()), now)|
    {
      hide Consistent, DropSlots, Tables.Remove;
      ghost var before := View();
      AllStaleGone(before, now);
      var stale := set k | k in leases && Stale(leases[k], now);
      var todo := stale;
      assert stale - todo == {};
      while todo != {}
        invariant todo <= stale
        invariant Valid()
        invariant View() == DropSlots(before, stale - todo)
        decreases |todo|
      {
        var k :| k in todo;
        ghost var gone := stale - todo;
        RemoveConsistent(View(), k.scope, k.ip);
        assert Slot(k.scope, k.ip) == k;
        DropSlotsExtend(before, gone, k);
        var _ := Remove(k.scope, k.ip);
        todo := todo - {k};
        assert gone + {k} == stale - todo;
      }
      assert stale - {} == stale;
      reaped := |stale|;
    }
  }
}
