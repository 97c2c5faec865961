/** The whole server: packets and administrative edits as atomic steps on one state. */
module Admin {
  import opened Prelude
  import opened Addr
  import opened Scopes
  import opened Tables
  import opened Server
  import opened Validation

  datatype Sys = Sys(scopes: seq<Scope>, listeners: seq<Ip>, table: Table)

  /** The editable part of a scope; `None` leaves a setting alone. */
  datatype ScopePatch = ScopePatch(
    name: Option<string>,
    enabled: Option<bool>,
    pool: Option<(Ip, Ip)>,
    router: Option<Option<Ip>>,
    dns: Option<seq<Ip>>,
    leaseSecs: Option<U32>)

  datatype Problem =
    | Invalid(error: ScopeError)
    | NoLocalAddress
    | ListenerClash(name: string)
    | NoSuchScope(id: ScopeId)
    | PoolInverted

  // ----- Looking things up -----

  predicate UniqueIds(scopes: seq<Scope>) {
    forall i, j :: 0 <= i < j < |scopes| ==> scopes[i].id != scopes[j].id
  }

  lemma {:induction false} SameIdSameScope(scopes: seq<Scope>, a: Scope, b: Scope)
    requires UniqueIds(scopes) && a in scopes && b in scopes && a.id == b.id
    ensures a == b
  {
    var i :| 0 <= i < |scopes| && scopes[i] == a;
    var j :| 0 <= j < |scopes| && scopes[j] == b;
  }

  /** The position of the first scope with this id; the length when there is none. */
  function FindScope(scopes: seq<Scope>, id: ScopeId): (i: nat)
    ensures i <= |scopes|
    ensures i < |scopes| ==> scopes[i].id == id
    ensures forall j :: 0 <= j < i ==> scopes[j].id != id
  {
    if scopes == [] then 0 else if scopes[0].id == id then 0 else 1 + FindScope(scopes[1..], id)
  }

  function FirstContained(s: Scope, addrs: seq<Ip>): (r: Option<Ip>)
    ensures r.None? <==> forall a :: a in addrs ==> !s.Contains(a)
    ensures r.Some? ==> r.value in addrs && s.Contains(r.value)
  {
    if addrs == [] then None
    else if s.Contains(addrs[0]) then Some(addrs[0])
    else FirstContained(s, addrs[1..])
  }

  /** The first existing scope that answers on a listener the new scope would answer on. */
  function FirstClash(scopes: seq<Scope>, s: Scope, listeners: seq<Ip>): (r: Option<Scope>)
    ensures r.None? <==>
      forall x, l :: x in scopes && l in listeners ==> !(x.Contains(l) && s.Contains(l))
  {
    if scopes == [] then None
    else if exists l :: l in listeners && scopes[0].Contains(l) && s.Contains(l) then Some(scopes[0])
    else FirstClash(scopes[1..], s, listeners)
  }

  function MaxId(scopes: seq<Scope>): (m: ScopeId)
    ensures forall s :: s in scopes ==> s.id <= m
    ensures scopes != [] ==> exists s :: s in scopes && s.id == m
  {
    if scopes == [] then 0
    else
      var m := MaxId(scopes[1..]);
      if scopes[0].id >= m then scopes[0].id else m
  }

  /** One more than the largest id, wrapping at 32 bits. */
  function NextId(scopes: seq<Scope>): ScopeId {
    (MaxId(scopes) + 1) % 0x1_0000_0000
  }

  function Lift(errs: seq<ScopeError>): (r: seq<Problem>)
    ensures r == [] <==> errs == []
  {
    seq(|errs|, i requires 0 <= i < |errs| => Invalid(errs[i]))
  }

  function WithoutScope(scopes: seq<Scope>, id: ScopeId): (r: seq<Scope>)
    ensures forall s :: s in r <==> s in scopes && s.id != id
    ensures |r| <= |scopes|
  {
    if scopes == [] then []
    else (if scopes[0].id == id then [] else [scopes[0]]) + WithoutScope(scopes[1..], id)
  }

  function WithoutClient(rs: seq<Reservation>, client: ClientId): (r: seq<Reservation>)
    ensures forall x :: x in r <==> x in rs && x.client != client
    ensures |r| <= |rs|
  {
    if rs == [] then []
    else (if rs[0].client == client then [] else [rs[0]]) + WithoutClient(rs[1..], client)
  }

  function Or<T>(choice: Option<T>, default: T): T {
    match choice case Some(x) => x case None => default
  }

  // ----- The edits, as functions on the state -----

  function AddScopeProblems(sys: Sys, s: Scope, local: seq<Ip>): seq<Problem> {
    var clash := FirstClash(sys.scopes, s, sys.listeners);
    Lift(ValidateErrors(s))
    + (if FirstContained(s, sys.listeners).None? && FirstContained(s, local).None? then [NoLocalAddress] else [])
    + (if clash.Some? then [ListenerClash(clash.value.name)] else [])
  }

  /** `local` lists this machine's serving addresses. */
  function AddScope(sys: Sys, s: Scope, local: seq<Ip>): (Sys, Result<ScopeId, seq<Problem>>) {
    var problems := AddScopeProblems(sys, s, local);
    if problems != [] then (sys, Failure(problems))
    else
      var id := NextId(sys.scopes);
      var extra := FirstContained(s, local);
      var listeners :=
        if FirstContained(s, sys.listeners).None? && extra.Some? then sys.listeners + [extra.value] else sys.listeners;
      (sys.(scopes := sys.scopes + [s.(id := id)], listeners := listeners), Success(id))
  }

  /** Applies every part of a patch; an inverted pool refuses the whole of it. */
  function Patched(s: Scope, p: ScopePatch): Result<Scope, seq<Problem>> {
    var pool := match p.pool case Some((start, end)) => Range.New(start, end) case None => None;
    if p.pool.Some? && pool.None? then Failure([PoolInverted])
    else
      var lease := Or(p.leaseSecs, s.leaseSecs);
      Success(s.(
        name := Or(p.name, s.name),
        enabled := Or(p.enabled, s.enabled),
        pools := if pool.Some? then [pool.value] else s.pools,
        router := Or(p.router, s.router),
        dns := Or(p.dns, s.dns),
        leaseSecs := lease,
        offerSecs := if p.leaseSecs.Some? && lease < s.offerSecs then lease else s.offerSecs))
  }

  /** A patch sets what it names and leaves the rest, and whatever is not editable, alone;
      it never lengthens an offer and shortens it only to fit the lease; applied twice it
      changes nothing more. An inverted pool alone refuses it. */
  lemma {:induction false} PatchSetsWhatItNames(s: Scope, p: ScopePatch)
    ensures Patched(s, p).Failure? <==> p.pool.Some? && p.pool.value.0 > p.pool.value.1
    ensures Patched(s, p).Failure? ==> Patched(s, p).error == [PoolInverted]
    ensures Patched(s, p).Success? ==>
      var next := Patched(s, p).value;
      && s == next.(name := s.name, enabled := s.enabled, pools := s.pools, router := s.router, dns := s.dns,
                    leaseSecs := s.leaseSecs, offerSecs := s.offerSecs)
      && (if p.name.None? then next.name == s.name else Some(next.name) == p.name)
      && (if p.enabled.None? then next.enabled == s.enabled else Some(next.enabled) == p.enabled)
      && (if p.pool.None? then next.pools == s.pools else next.pools == [Range(p.pool.value.0, p.pool.value.1)])
      && (if p.router.None? then next.router == s.router else Some(next.router) == p.router)
      && (if p.dns.None? then next.dns == s.dns else Some(next.dns) == p.dns)
      && (if p.leaseSecs.None? then next.leaseSecs == s.leaseSecs else Some(next.leaseSecs) == p.leaseSecs)
      && next.offerSecs <= s.offerSecs
      && (next.offerSecs < s.offerSecs ==> Some(next.offerSecs) == p.leaseSecs)
      && (s.offerSecs <= s.leaseSecs ==> next.offerSecs <= next.leaseSecs)
      && Patched(next, p) == Success(next)
  {
  }

  /** The scope's pools can be put back by a patch: they are the patch's own, or a single
      range in order. */
  predicate PoolsRestorable(s: Scope, p: ScopePatch) {
    || p.pool.None?
    || s.pools == [Range(p.pool.value.0, p.pool.value.1)]
    || (|s.pools| == 1 && s.pools[0].start <= s.pools[0].end)
  }

  /** Not every edit can be taken back. Some second patch restores a scope exactly when
      the first did not cut the lease below the length of an offer and did not replace
      several pools, or none, by one. */
  lemma {:induction false} PatchUndoneIff(s: Scope, p: ScopePatch)
    requires s.offerSecs <= s.leaseSecs && Patched(s, p).Success?
    ensures (exists q :: Patched(Patched(s, p).value, q) == Success(s)) <==>
      (p.leaseSecs.Some? ==> s.offerSecs <= p.leaseSecs.value) && PoolsRestorable(s, p)
  {
    var next := Patched(s, p).value;
    if (p.leaseSecs.Some? ==> s.offerSecs <= p.leaseSecs.value) && PoolsRestorable(s, p) {
      var pool := if next.pools == s.pools then None else Some((s.pools[0].start, s.pools[0].end));
      var undo := ScopePatch(Some(s.name), Some(s.enabled), pool, Some(s.router), Some(s.dns), Some(s.leaseSecs));
      assert pool.Some? ==> [Range(pool.value.0, pool.value.1)] == s.pools;
      assert Patched(next, undo) == Success(s);
    }
  }

  function PatchScope(sys: Sys, id: ScopeId, p: ScopePatch): (Sys, Result<(), seq<Problem>>) {
    var i := FindScope(sys.scopes, id);
    if i == |sys.scopes| then (sys, Failure([NoSuchScope(id)]))
    else
      match Patched(sys.scopes[i], p)
      case Failure(problems) => (sys, Failure(problems))
      case Success(next) =>
        if ValidateErrors(next) != [] then (sys, Failure(Lift(ValidateErrors(next))))
        else (sys.(scopes := sys.scopes[i := next]), Success(()))
  }

  /** Answers with the number of leases that go with the scope. */
  function RemoveScope(sys: Sys, id: ScopeId): (Sys, Result<nat, seq<Problem>>) {
    var rest := WithoutScope(sys.scopes, id);
    if |rest| == |sys.scopes| then (sys, Failure([NoSuchScope(id)]))
    else
      (sys.(scopes := rest, table := ClearScope(sys.table, id)),
       Success(|set k | k in sys.table.leases && k.scope == id|))
  }

  /** The scope with the client's reservation replaced. */
  function Reserving(s: Scope, r: Reservation): Scope {
    s.(reservations := WithoutClient(s.reservations, r.client) + [r])
  }

  /** Takes a stranger's record off a newly reserved address. */
  function Evict(t: Table, id: ScopeId, r: Reservation): Table {
    match GetByIp(t, id, r.ip)
    case Some(l) => if l.client != r.client then Remove(t, id, r.ip) else t
    case None => t
  }

  function AddReservation(sys: Sys, id: ScopeId, r: Reservation): (Sys, Result<(), seq<Problem>>) {
    var i := FindScope(sys.scopes, id);
    if i == |sys.scopes| then (sys, Failure([NoSuchScope(id)]))
    else
      var next := Reserving(sys.scopes[i], r);
      if ValidateErrors(next) != [] then (sys, Failure(Lift(ValidateErrors(next))))
      else (sys.(scopes := sys.scopes[i := next], table := Evict(sys.table, id, r)), Success(()))
  }

  function Unreserving(s: Scope, client: ClientId): Scope {
    s.(reservations := WithoutClient(s.reservations, client))
  }

  function RemoveReservation(sys: Sys, id: ScopeId, client: ClientId): (Sys, Result<bool, seq<Problem>>) {
    var i := FindScope(sys.scopes, id);
    if i == |sys.scopes| then (sys, Failure([NoSuchScope(id)]))
    else
      var next := Unreserving(sys.scopes[i], client);
      (sys.(scopes := sys.scopes[i := next]),
       Success(|next.reservations| != |sys.scopes[i].reservations|))
  }

  // ----- Steps and runs -----

  datatype Event =
    | Packet(msg: Message, serverIp: Ip, occupied: set<Ip>)
    | ReapTick
    | Revoke(scope: ScopeId, ip: Ip)
    | ScopeAdded(s: Scope, local: seq<Ip>)
    | ScopePatched(id: ScopeId, patch: ScopePatch)
    | ScopeRemoved(id: ScopeId)
    | ReservationAdded(id: ScopeId, r: Reservation)
    | ReservationRemoved(id: ScopeId, client: ClientId)

  /** An event and the clock reading it is handled with. */
  datatype Timed = Timed(now: UnixTime, event: Event)

  function CtxOf(e: Timed): Ctx
    requires e.event.Packet?
  {
    Ctx(e.now, e.event.serverIp, e.event.occupied)
  }

  function Step(sys: Sys, e: Timed): Sys {
    match e.event
    case Packet(msg, _, _) => sys.(table := Handle(sys.scopes, sys.table, msg, CtxOf(e)).0)
    case ReapTick => sys.(table := Reap(sys.table, e.now))
    case Revoke(scope, ip) => sys.(table := Remove(sys.table, scope, ip))
    case ScopeAdded(s, local) => AddScope(sys, s, local).0
    case ScopePatched(id, patch) => PatchScope(sys, id, patch).0
    case ScopeRemoved(id) => RemoveScope(sys, id).0
    case ReservationAdded(id, r) => AddReservation(sys, id, r).0
    case ReservationRemoved(id, client) => RemoveReservation(sys, id, client).0
  }

  /** What each kind of step does to the lease table: only packets, reaps, revocations,
      removing a scope and adding a reservation touch it. */
  lemma {:induction false} StepTable(sys: Sys, e: Timed)
    ensures match e.event
      case Packet(msg, _, _) => Step(sys, e).table == Handle(sys.scopes, sys.table, msg, CtxOf(e)).0
      case ReapTick => Step(sys, e).table == Reap(sys.table, e.now)
      case Revoke(scope, ip) => Step(sys, e).table == Remove(sys.table, scope, ip)
      case ScopeRemoved(id) =>
        Step(sys, e).table == sys.table || Step(sys, e).table == ClearScope(sys.table, id)
      case ReservationAdded(id, r) =>
        Step(sys, e).table == sys.table || Step(sys, e).table == Evict(sys.table, id, r)
      case _ => Step(sys, e).table == sys.table
  {
  }

  /** How a packet is answered in this state. */
  function Answer(sys: Sys, e: Timed): Outcome
    requires e.event.Packet?
  {
    Handle(sys.scopes, sys.table, e.event.msg, CtxOf(e)).1
  }

  /** The state after the first `n` events of a run. */
  function After(sys: Sys, es: seq<Timed>, n: nat): Sys
    requires n <= |es|
  {
    if n == 0 then sys else Step(After(sys, es, n - 1), es[n - 1])
  }
}
