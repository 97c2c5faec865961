/** The running server: each method is one administrative step or one packet,
    taken under the write lock. */
module State {
  import opened Prelude
  import opened Addr
  import opened Scopes
  import opened Tables
  import opened Store
  import opened Server
  import opened Validation
  import opened Admin

  /** Configuration and leases behind one write lock: each method is one atomic step. */
  class AppState {
    var scopes: seq<Scope>
    var listeners: seq<Ip>
    const store: MemoryStore

    ghost predicate Valid()
      reads this, store
    {
      store.Valid()
    }

    function View(): Sys
      reads this, store
    {
      Sys(scopes, listeners, store.View())
    }

    constructor (scopes: seq<Scope>, listeners: seq<Ip>)
      ensures Valid() && fresh(store)
      ensures View() == Sys(scopes, listeners, EMPTY)
    {
      this.scopes, this.listeners := scopes, listeners;
      store := new MemoryStore();
    }

    method OnPacket(msg: Message, ctx: Ctx) returns (o: Outcome)
      requires Valid()
      modifies store
      ensures Valid()
      ensures View() == Step(old(View()), Timed(ctx.now, Packet(msg, ctx.serverIp, ctx.occupied)))
      ensures o == Answer(old(View()), Timed(ctx.now, Packet(msg, ctx.serverIp, ctx.occupied)))
    {
      o := HandlePacket(scopes, store, msg, ctx);
    }

    method AddScope(s: Scope, local: seq<Ip>) returns (r: Result<ScopeId, seq<Problem>>)
      requires Valid()
      modifies this
      ensures Valid() && (View(), r) == Admin.AddScope(old(View()), s, local)
      ensures forall now :: View() == Step(old(View()), Timed(now, ScopeAdded(s, local)))
    {
      hide ValidateErrors, Scope.Contains, FirstContained, FirstClash, MaxId, Consistent;
      var errs := Validate(s);
      var unserved := FirstContained(s, listeners).None?;
      var found := FirstContained(s, local);
      var problems := Lift(errs) + if unserved && found.None? then [NoLocalAddress] else [];
      var clash := FirstClash(scopes, s, listeners);
      problems := problems + if clash.Some? then [ListenerClash(clash.value.name)] else [];
      if problems != [] {
        return Failure(problems);
      }
      var id := NextId(scopes);
      scopes := scopes + [s.(id := id)];
      if unserved {
        listeners := listeners + [found.value];
      }
      r := Success(id);
    }

    method PatchScope(id: ScopeId, p: ScopePatch) returns (r: Result<(), seq<Problem>>)
      requires Valid()
      modifies this
      ensures Valid() && (View(), r) == Admin.PatchScope(old(View()), id, p)
      ensures forall now :: View() == Step(old(View()), Timed(now, ScopePatched(id, p)))
    {
      var i := FindScope(scopes, id);
      if i == |scopes| {
        return Failure([NoSuchScope(id)]);
      }
      var edited := ApplyPatch(scopes[i], p);
      if edited.Failure? {
        return Failure(edited.error);
      }
      var next := edited.value;
      var errs := Validate(next);
      if errs != [] {
        return Failure(Lift(errs));
      }
      scopes := scopes[i := next];
      r := Success(());
    }

    method RemoveScope(id: ScopeId) returns (r: Result<nat, seq<Problem>>)
      requires Valid()
      modifies this, store
      ensures Valid() && (View(), r) == Admin.RemoveScope(old(View()), id)
      ensures forall now :: View() == Step(old(View()), Timed(now, ScopeRemoved(id)))
    {
      var before := |scopes|;
      var rest := WithoutScope(scopes, id);
      if |rest| == before {
        return Failure([NoSuchScope(id)]);
      }
      scopes := rest;
      var dropped := store.ClearScope(id);
      r := Success(dropped);
    }

    method AddReservation(id: ScopeId, r: Reservation) returns (res: Result<(), seq<Problem>>)
      requires Valid()
      modifies this, store
      ensures Valid() && (View(), res) == Admin.AddReservation(old(View()), id, r)
      ensures forall now :: View() == Step(old(View()), Timed(now, ReservationAdded(id, r)))
    {
      hide ValidateErrors, Consistent, Tables.Remove, FindScope, WithoutClient;
      var i := FindScope(scopes, id);
      if i == |scopes| {
        return Failure([NoSuchScope(id)]);
      }
      var next := scopes[i];
      next := next.(reservations := WithoutClient(next.reservations, r.client) + [r]);
      var errs := Validate(next);
      if errs != [] {
        return Failure(Lift(errs));
      }
      scopes := scopes[i := next];
      var squatter := GetByIp(store.View(), id, r.ip);
      if squatter.Some? && squatter.value.client != r.client {
        var _ := store.Remove(id, r.ip);
      }
      res := Success(());
    }

    method RemoveReservation(id: ScopeId, client: ClientId) returns (r: Result<bool, seq<Problem>>)
      requires Valid()
      modifies this
      ensures Valid() && (View(), r) == Admin.RemoveReservation(old(View()), id, client)
      ensures forall now :: View() == Step(old(View()), Timed(now, ReservationRemoved(id, client)))
    {
      var i := FindScope(scopes, id);
      if i == |scopes| {
        return Failure([NoSuchScope(id)]);
      }
      var before := |scopes[i].reservations|;
      scopes := scopes[i := Unreserving(scopes[i], client)];
      r := Success(|scopes[i].reservations| != before);
    }

    method Revoke(scope: ScopeId, ip: Ip, ghost now: UnixTime) returns (removed: bool)
      requires Valid()
      modifies store
      ensures Valid() && View() == Step(old(View()), Timed(now, Admin.Revoke(scope, ip)))
      ensures removed <==> GetByIp(old(View()).table, scope, ip).Some?
    {
      var l := store.Remove(scope, ip);
      removed := l.Some?;
    }

    method Reap(now: UnixTime) returns (n: nat)
      requires Valid()
      modifies store
      ensures Valid() && View() == Step(old(View()), Timed(now, ReapTick))
      ensures n == |StaleSlots(old(View()).table, now)|
    {
      n := store.Reap(now);
    }
  }

  /** Edits a copy of the scope. */
  method ApplyPatch(s: Scope, p: ScopePatch) returns (r: Result<Scope, seq<Problem>>)
    ensures r == Patched(s, p)
  {
    var next := s.(name := Or(p.name, s.name), enabled := Or(p.enabled, s.enabled));
    if p.pool.Some? {
      var range := Range.New(p.pool.value.0, p.pool.value.1);
      if range.None? {
        return Failure([PoolInverted]);
      }
      next := next.(pools := [range.value]);
    }
    next := next.(router := Or(p.router, s.router), dns := Or(p.dns, s.dns));
    if p.leaseSecs.Some? {
      var secs := p.leaseSecs.value;
      next := next.(leaseSecs := secs, offerSecs := if secs < next.offerSecs then secs else next.offerSecs);
    }
    r := Success(next);
  }
}
