/** What each administrative edit leaves behind when it succeeds, and that it leaves
    everything alone when it does not. */
module Edits {
  import opened Prelude
  import opened Addr
  import opened Scopes
  import opened Leases
  import opened Tables
  import opened Allocation
  import opened Server
  import opened Effects
  import opened Validation
  import opened Admin

  /** The position of the first scope with this id. */
  ghost predicate IsAt(scopes: seq<Scope>, id: ScopeId, i: nat) {
    i < |scopes| && scopes[i].id == id && forall j :: 0 <= j < i ==> scopes[j].id != id
  }

  lemma {:induction false} FoundIsAt(scopes: seq<Scope>, id: ScopeId, i: nat)
    ensures IsAt(scopes, id, i) <==> i < |scopes| && FindScope(scopes, id) == i
    ensures FindScope(scopes, id) == |scopes| <==> forall s :: s in scopes ==> s.id != id
  {
  }

  /** Only the scope at `i` differs. */
  predicate OnlyChanges(scopes: seq<Scope>, next: seq<Scope>, i: nat) {
    |next| == |scopes| && forall j :: 0 <= j < |scopes| && j != i ==> next[j] == scopes[j]
  }

  /** An edit of a scope that does not exist is refused and changes nothing. */
  lemma {:induction false} UnknownScopeIsRefused(
      sys: Sys, id: ScopeId, p: ScopePatch, r: Reservation, client: ClientId)
    requires forall s :: s in sys.scopes ==> s.id != id
    ensures PatchScope(sys, id, p) == (sys, Failure([NoSuchScope(id)]))
    ensures AddReservation(sys, id, r) == (sys, Failure([NoSuchScope(id)]))
    ensures RemoveReservation(sys, id, client) == (sys, Failure([NoSuchScope(id)]))
  {
    hide ValidateErrors, Patched;
    FoundIsAt(sys.scopes, id, 0);
  }

  // ----- Reservations -----

  /** Two scopes differ in nothing but one client's reservations. */
  ghost predicate SameButFor(was: Scope, now: Scope, client: ClientId) {
    && now == was.(reservations := now.reservations)
    && forall c :: c != client ==>
         && now.ReservationFor(c) == was.ReservationFor(c)
         && forall r: Reservation :: r.client == c ==> (r in now.reservations <==> r in was.reservations)
  }

  lemma {:induction false} WithoutClientFinds(rs: seq<Reservation>, client: ClientId, c: ClientId)
    ensures FindReservation(WithoutClient(rs, client), c) == if c == client then None else FindReservation(rs, c)
  {
    if rs == [] {
    } else {
      var rest := WithoutClient(rs[1..], client);
      WithoutClientFinds(rs[1..], client, c);
      assert WithoutClient(rs, client) == if rs[0].client == client then rest else [rs[0]] + rest;
      assert ([rs[0]] + rest)[1..] == rest;
    }
  }

  lemma {:induction false} AppendFinds(rs: seq<Reservation>, r: Reservation, c: ClientId)
    ensures FindReservation(rs + [r], c) ==
      if FindReservation(rs, c).Some? then FindReservation(rs, c) else if r.client == c then Some(r) else None
  {
    if rs == [] {
      assert rs + [r] == [r];
    } else {
      AppendFinds(rs[1..], r, c);
      assert (rs + [r])[1..] == rs[1..] + [r];
    }
  }

  lemma {:induction false} ReservingReplaces(s: Scope, r: Reservation)
    ensures var now := Reserving(s, r);
      && SameButFor(s, now, r.client)
      && now.ReservationFor(r.client) == Some(r)
      && forall x :: x in now.reservations && x.client == r.client ==> x == r
  {
    var rest, now := WithoutClient(s.reservations, r.client), Reserving(s, r);
    forall c: ClientId
      ensures now.ReservationFor(c) == if c == r.client then Some(r) else s.ReservationFor(c)
    {
      WithoutClientFinds(s.reservations, r.client, c);
      AppendFinds(rest, r, c);
    }
    assert forall x :: x in now.reservations <==> x in rest || x == r;
  }

  lemma {:induction false} UnreservingFrees(s: Scope, client: ClientId)
    ensures var now := Unreserving(s, client);
      SameButFor(s, now, client) && forall x :: x in now.reservations ==> x.client != client
  {
    forall c: ClientId
      ensures Unreserving(s, client).ReservationFor(c) == if c == client then None else s.ReservationFor(c)
    {
      WithoutClientFinds(s.reservations, client, c);
    }
  }

  /** An added reservation is in force, in place of any other of that client; everybody
      else's stay, and a stranger's record on the address is gone. It is refused, and
      changes nothing, exactly when the edited scope would not be well formed. */
  lemma {:induction false} AddedReservationIsInForce(sys: Sys, id: ScopeId, r: Reservation, i: nat)
    requires IsAt(sys.scopes, id, i)
    ensures var (next, res) := AddReservation(sys, id, r);
      && (res.Success? <==> WellFormed(sys.scopes[i].(
            reservations := WithoutClient(sys.scopes[i].reservations, r.client) + [r])))
      && (res.Failure? ==> next == sys)
      && (res.Success? ==>
            && OnlyChanges(sys.scopes, next.scopes, i) && next.listeners == sys.listeners
            && SameButFor(sys.scopes[i], next.scopes[i], r.client)
            && next.scopes[i].ReservationFor(r.client) == Some(r)
            && (forall x :: x in next.scopes[i].reservations && x.client == r.client ==> x == r)
            && WellFormed(next.scopes[i])
            && forall k :: At(next.table, k) ==
                 if k == Slot(id, r.ip) && At(sys.table, k).Some? && sys.table.leases[k].client != r.client
                 then None else At(sys.table, k))
  {
    hide ValidateErrors, WellFormed, Scope.ReservationFor;
    FoundIsAt(sys.scopes, id, i);
    ReservingReplaces(sys.scopes[i], r);
    ValidateIsExact(Reserving(sys.scopes[i], r));
    forall k
      ensures At(Evict(sys.table, id, r), k) ==
        if k == Slot(id, r.ip) && At(sys.table, k).Some? && sys.table.leases[k].client != r.client
        then None else At(sys.table, k)
    {
      AtRemove(sys.table, id, r.ip, k);
    }
  }

  /** From then on the client's DISCOVER in that scope is offered that address. */
  lemma {:induction false} NewReservationIsOffered(
      sys: Sys, id: ScopeId, r: Reservation, i: nat, discover: Timed)
    requires IsAt(sys.scopes, id, i) && AddReservation(sys, id, r).1.Success?
    requires discover.event.Packet? && discover.event.msg.kind == Some(Discover)
    requires var next := AddReservation(sys, id, r).0;
      Served(next.scopes, discover.event.msg, CtxOf(discover), next.scopes[i], r.client)
    ensures var o := Answer(AddReservation(sys, id, r).0, discover);
      && o.Answered? && o.reply.kind == Offer && o.reply.scopeId == id
      && o.reply.yiaddr == r.ip && o.reply.source == Some(Reserved)
  {
    hide ValidateErrors, SelectScope, WellFormed, AddReservation;
    AddedReservationIsInForce(sys, id, r, i);
  }

  /** A removed reservation is out of force, everybody else's stay, no lease is touched, and
      the answer says whether there was one. */
  lemma {:induction false} RemovedReservationIsGone(sys: Sys, id: ScopeId, client: ClientId, i: nat)
    requires IsAt(sys.scopes, id, i)
    ensures var (next, res) := RemoveReservation(sys, id, client);
      && OnlyChanges(sys.scopes, next.scopes, i) && next.listeners == sys.listeners && next.table == sys.table
      && SameButFor(sys.scopes[i], next.scopes[i], client)
      && (forall x :: x in next.scopes[i].reservations ==> x.client != client)
      && res == Success(exists x :: x in sys.scopes[i].reservations && x.client == client)
  {
    FoundIsAt(sys.scopes, id, i);
    UnreservingFrees(sys.scopes[i], client);
    ShorterIff(sys.scopes[i].reservations, client);
  }

  lemma {:induction false} ShorterIff(rs: seq<Reservation>, client: ClientId)
    ensures |WithoutClient(rs, client)| != |rs| <==> exists x :: x in rs && x.client == client
  {
    if rs == [] {
    } else {
      ShorterIff(rs[1..], client);
      assert rs == [rs[0]] + rs[1..];
    }
  }

  // ----- Scopes -----

  /** A patched scope is the one with this id, patched; nothing else changes, and the result
      is well formed. It is refused, and changes nothing, exactly when the patch is
      inverted or the result would not be well formed. */
  lemma {:induction false} PatchIsCommitted(sys: Sys, id: ScopeId, p: ScopePatch, i: nat)
    requires IsAt(sys.scopes, id, i)
    ensures var (next, res) := PatchScope(sys, id, p);
      && (res.Success? <==> Patched(sys.scopes[i], p).Success? && WellFormed(Patched(sys.scopes[i], p).value))
      && (res.Failure? ==> next == sys)
      && (res.Success? ==>
            && OnlyChanges(sys.scopes, next.scopes, i)
            && Patched(sys.scopes[i], p) == Success(next.scopes[i])
            && next.listeners == sys.listeners && next.table == sys.table)
  {
    hide ValidateErrors, WellFormed, Patched;
    FoundIsAt(sys.scopes, id, i);
    if Patched(sys.scopes[i], p).Success? {
      ValidateIsExact(Patched(sys.scopes[i], p).value);
    }
  }

  /** A removed scope is gone with every record in it; other scopes, their order, and their
      records stay; the answer is how many records went. */
  lemma {:induction false} RemovedScopeIsGone(sys: Sys, id: ScopeId)
    ensures var (next, res) := RemoveScope(sys, id);
      && (res.Success? <==> exists s :: s in sys.scopes && s.id == id)
      && (res.Failure? ==> next == sys)
      && (res.Success? ==>
            && next.listeners == sys.listeners
            && (forall s :: s in next.scopes ==> s.id != id)
            && (forall s: Scope :: s.id != id ==> multiset(next.scopes)[s] == multiset(sys.scopes)[s])
            && (forall k :: At(next.table, k) == if k.scope == id then None else At(sys.table, k))
            && res.value == |set k | k in sys.table.leases && k.scope == id|)
  {
    FewerWithoutIff(sys.scopes, id);
    forall s: Scope | s.id != id
      ensures multiset(WithoutScope(sys.scopes, id))[s] == multiset(sys.scopes)[s]
    {
      OthersStay(sys.scopes, id, s);
    }
    forall k
      ensures At(ClearScope(sys.table, id), k) == if k.scope == id then None else At(sys.table, k)
    {
      AtClearScope(sys.table, id, k);
    }
  }

  lemma {:induction false} FewerWithoutIff(scopes: seq<Scope>, id: ScopeId)
    ensures |WithoutScope(scopes, id)| != |scopes| <==> exists s :: s in scopes && s.id == id
  {
    if scopes == [] {
    } else {
      FewerWithoutIff(scopes[1..], id);
      assert scopes == [scopes[0]] + scopes[1..];
    }
  }

  lemma {:induction false} OthersStay(scopes: seq<Scope>, id: ScopeId, s: Scope)
    requires s.id != id
    ensures multiset(WithoutScope(scopes, id))[s] == multiset(scopes)[s]
  {
    if scopes == [] {
    } else {
      var rest := WithoutScope(scopes[1..], id);
      OthersStay(scopes[1..], id, s);
      CountFirst(scopes[0], scopes[1..], s);
      CountFirst(scopes[0], rest, s);
      assert scopes == [scopes[0]] + scopes[1..];
      assert WithoutScope(scopes, id) == if scopes[0].id == id then rest else [scopes[0]] + rest;
    }
  }

  lemma {:induction false} CountFirst<T>(x: T, xs: seq<T>, y: T)
    ensures multiset([x] + xs)[y] == (if x == y then 1 else 0) + multiset(xs)[y]
  {
  }

  /** The server already answers on an address that both a configured scope and the new
      one contain. */
  ghost predicate Clashes(sys: Sys, s: Scope) {
    exists x, l :: x in sys.scopes && l in sys.listeners && x.Contains(l) && s.Contains(l)
  }

  /** A scope is accepted exactly when it is well formed, the machine has an address in it,
      and it clashes with none; then it is appended under an id one above every other, and
      the server listens in it. Otherwise nothing changes. */
  lemma {:induction false} AddedScopeIsServed(sys: Sys, s: Scope, local: seq<Ip>)
    ensures var (next, res) := AddScope(sys, s, local);
      && (res.Success? <==>
            WellFormed(s) && (exists l :: l in sys.listeners + local && s.Contains(l)) && !Clashes(sys, s))
      && (res.Failure? ==> next == sys)
      && (res.Success? ==>
            && next.table == sys.table
            && next.scopes == sys.scopes + [s.(id := res.value)]
            && sys.listeners <= next.listeners && |next.listeners| <= |sys.listeners| + 1
            && (exists l :: l in next.listeners && s.Contains(l))
            && (next.listeners != sys.listeners ==> IsFirstIn(s, local, next.listeners[|sys.listeners|]))
            && (next.listeners == sys.listeners <==> exists l :: l in sys.listeners && s.Contains(l))
            && (MaxId(sys.scopes) < U32_MAX ==>
                  (forall x :: x in sys.scopes ==> x.id < res.value)
                  && (sys.scopes != [] ==> exists x :: x in sys.scopes && x.id == res.value - 1)))
  {
    hide ValidateErrors, WellFormed, Scope.Contains;
    ValidateIsExact(s);
    FirstContainedIsFirst(s, local);
  }

  /** The first of the addresses that the scope contains. */
  ghost predicate IsFirstIn(s: Scope, addrs: seq<Ip>, a: Ip) {
    exists i :: 0 <= i < |addrs| && addrs[i] == a && s.Contains(a) && forall j :: 0 <= j < i ==> !s.Contains(addrs[j])
  }

  lemma {:induction false} FirstContainedIsFirst(s: Scope, addrs: seq<Ip>)
    ensures FirstContained(s, addrs).Some? ==> IsFirstIn(s, addrs, FirstContained(s, addrs).value)
  {
    hide Scope.Contains;
    if addrs == [] || s.Contains(addrs[0]) {
    } else if FirstContained(s, addrs).Some? {
      FirstContainedIsFirst(s, addrs[1..]);
      var a := FirstContained(s, addrs).value;
      var i :| 0 <= i < |addrs[1..]| && addrs[1..][i] == a && forall j :: 0 <= j < i ==> !s.Contains(addrs[1..][j]);
      assert addrs[i + 1] == a;
      assert forall j :: 0 < j < i + 1 ==> addrs[j] == addrs[1..][j - 1];
    }
  }
}
