/** A lease record and when it blocks its address. */
module Leases {
  import opened Prelude
  import opened Addr
  import opened Scopes

  datatype LeaseState = Offered | Bound | Free | Declined

  datatype Lease = Lease(
    ip: Ip,
    client: ClientId,
    scopeId: ScopeId,
    state: LeaseState,
    expiresAt: UnixTime,
    hostname: Option<string>,
    vendorClass: Option<string>,
    createdAt: UnixTime,
    lastSeen: UnixTime)
  {
    predicate IsExpired(now: UnixTime) {
      now >= expiresAt
    }

    predicate IsActive(now: UnixTime) {
      (state == Offered || state == Bound) && !IsExpired(now)
    }

    predicate IsAvailableForOthers(now: UnixTime) {
      match state
      case Free => true
      case Declined => IsExpired(now)
      case Offered => IsExpired(now)
      case Bound => IsExpired(now)
    }
  }

  /** The primary key of the lease table. */
  datatype Slot = Slot(scope: ScopeId, ip: Ip)

  /** The key of the reverse index. */
  datatype Holder = Holder(scope: ScopeId, client: ClientId)

  function SlotOf(l: Lease): Slot {
    Slot(l.scopeId, l.ip)
  }

  function HolderOf(l: Lease): Holder {
    Holder(l.scopeId, l.client)
  }
}
