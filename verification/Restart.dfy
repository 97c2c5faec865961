/** Whether the configuration that is written back after an edit would be accepted when
    the server starts again. */
module Restart {
  import opened Prelude
  import opened Addr
  import opened Scopes
  import opened Validation
  import opened Server
  import opened Admin
  import opened Config
  import opened Integrity

  // ----- Adding a scope -----

  /** The new scope makes the server listen on an address some existing scope contains. */
  predicate AddsSharedListener(sys: Sys, s: Scope, local: seq<Ip>) {
    && FirstContained(s, sys.listeners).None?
    && FirstContained(s, local).Some?
    && exists x :: x in sys.scopes && x.Contains(FirstContained(s, local).value)
  }

  lemma {:induction false} AppendCoversIff(scopes: seq<Scope>, s: Scope, key: Ip)
    ensures AtMostOneCovers(scopes + [s], key) <==>
      AtMostOneCovers(scopes, key) && (s.Contains(key) ==> forall x :: x in scopes ==> !x.Contains(key))
  {
    hide Scope.Contains;
    var all := scopes + [s];
    if AtMostOneCovers(all, key) {
      forall i, j | 0 <= i < j < |scopes|
        ensures !(scopes[i].Contains(key) && scopes[j].Contains(key))
      {
        assert !(all[i].Contains(key) && all[j].Contains(key));
      }
      forall x | x in scopes && s.Contains(key)
        ensures !x.Contains(key)
      {
        var i :| 0 <= i < |scopes| && scopes[i] == x;
        assert all[i] == x && all[|scopes|] == s;
      }
    }
  }

  /** A new id changes nothing the checks look at. */
  lemma {:induction false} IdDoesNotMatter(s: Scope, next: Scope)
    requires next == s.(id := next.id)
    ensures forall ip :: next.Contains(ip) == s.Contains(ip)
    ensures WellFormed(s) ==> WellFormed(next)
  {
    if WellFormed(s) {
      SoundIgnoresId(s, next);
      hide Sound;
      if ip: Ip :| s.IsPoolable(ip) {
        assert next.IsPoolable(ip);
      }
    }
  }

  lemma {:induction false} ListenersAfter(sys: Sys, s: Scope, local: seq<Ip>)
    requires AddScopeProblems(sys, s, local) == []
    ensures FirstContained(s, sys.listeners).Some? || FirstContained(s, local).Some?
    ensures var next := AddScope(sys, s, local).0;
      && next.scopes == sys.scopes + [s.(id := NextId(sys.scopes))]
      && next.listeners == sys.listeners
           + (if FirstContained(s, sys.listeners).Some? then [] else [FirstContained(s, local).value])
      && (exists l :: l in next.listeners && s.Contains(l))
      && forall x, l :: x in sys.scopes && l in sys.listeners ==> !(x.Contains(l) && s.Contains(l))
  {
    hide Scope.Contains, ValidateErrors, NextId;
  }

  lemma {:induction false} MoreListenersHear(scopes: seq<Scope>, few: seq<Ip>, many: seq<Ip>)
    requires forall l :: l in few ==> l in many
    ensures forall s :: s in scopes && Listens(s, few) ==> Listens(s, many)
  {
  }

  lemma {:induction false} CoherentMeans(listeners: seq<Ip>, scopes: seq<Scope>)
    ensures Coherent(listeners, scopes) <==>
      && (listeners == [] ==> scopes == [])
      && (forall s :: s in scopes ==> WellFormed(s) && (s.viaRelay || Listens(s, listeners)))
      && (forall l :: l in listeners ==> AtMostOneCovers(scopes, l))
  {
  }

  /** Every scope is still well formed and heard. */
  lemma {:induction false} AllStillHeard(sys: Sys, s: Scope, local: seq<Ip>)
    requires Coherent(sys.listeners, sys.scopes) && AddScopeProblems(sys, s, local) == []
    ensures var next := AddScope(sys, s, local).0;
      && next.listeners != []
      && forall x :: x in next.scopes ==> WellFormed(x) && (x.viaRelay || Listens(x, next.listeners))
  {
    hide Scope.Contains, WellFormed, ValidateErrors, NextId, AtMostOneCovers, AddScope;
    ValidateIsExact(s);
    ListenersAfter(sys, s, local);
    IdDoesNotMatter(s, s.(id := NextId(sys.scopes)));
    MoreListenersHear(sys.scopes, sys.listeners, AddScope(sys, s, local).0.listeners);
  }

  /** One listener is shared by two scopes exactly when it is the new one. */
  lemma {:induction false} ListenersStillApart(sys: Sys, s: Scope, local: seq<Ip>)
    requires AddScopeProblems(sys, s, local) == []
    requires forall l :: l in sys.listeners ==> AtMostOneCovers(sys.scopes, l)
    ensures var next := AddScope(sys, s, local).0;
      (forall l :: l in next.listeners ==> AtMostOneCovers(next.scopes, l)) <==> !AddsSharedListener(sys, s, local)
  {
    hide Scope.Contains, ValidateErrors, NextId, AtMostOneCovers, AddScopeProblems, AddScope;
    ListenersAfter(sys, s, local);
    var added, next := s.(id := NextId(sys.scopes)), AddScope(sys, s, local).0;
    IdDoesNotMatter(s, added);
    forall l | l in next.listeners
      ensures AtMostOneCovers(next.scopes, l) <==> l in sys.listeners || forall x :: x in sys.scopes ==> !x.Contains(l)
    {
      AppendCoversIff(sys.scopes, added, l);
      if forall x :: x in sys.scopes ==> !x.Contains(l) {
        NobodyCovers(sys.scopes, l);
      }
    }
    if FirstContained(s, sys.listeners).None? {
      assert FirstContained(s, local).value in next.listeners;
    }
  }

  lemma {:induction false} NobodyCovers(scopes: seq<Scope>, key: Ip)
    requires forall x :: x in scopes ==> !x.Contains(key)
    ensures AtMostOneCovers(scopes, key)
  {
  }

  /** A scope that was accepted leaves a coherent configuration coherent exactly when it
      does not make the server listen on an address of an existing scope. */
  lemma {:induction false} AddScopeKeepsCoherentIff(sys: Sys, s: Scope, local: seq<Ip>)
    requires Coherent(sys.listeners, sys.scopes) && AddScopeProblems(sys, s, local) == []
    ensures var next := AddScope(sys, s, local).0;
      Coherent(next.listeners, next.scopes) <==> !AddsSharedListener(sys, s, local)
  {
    hide *;
    assert forall l :: l in sys.listeners ==> AtMostOneCovers(sys.scopes, l) by {
      CoherentMeans(sys.listeners, sys.scopes);
    }
    AllStillHeard(sys, s, local);
    ListenersStillApart(sys, s, local);
    CoherentMeans(AddScope(sys, s, local).0.listeners, AddScope(sys, s, local).0.scopes);
  }

  /** It happens whenever scopes nest: a scope inside an existing one, where the server
      does not listen yet, is accepted, and the resulting configuration is not. */
  lemma {:induction false} NestedScopeSpoils(sys: Sys, s: Scope, local: seq<Ip>, outer: Scope)
    requires Coherent(sys.listeners, sys.scopes) && AddScopeProblems(sys, s, local) == []
    requires FirstContained(s, sys.listeners).None?
    requires outer in sys.scopes && outer.prefix <= s.prefix && outer.Contains(s.subnet)
    ensures AddScope(sys, s, local).1.Success?
    ensures var next := AddScope(sys, s, local).0; CheckProblems(next.listeners, next.scopes) != []
  {
    hide WellFormed, ValidateErrors, CheckProblems;
    AddScopeKeepsCoherentIff(sys, s, local);
    ListenersAfter(sys, s, local);
    ValidateIsExact(s);
    assert s.prefix <= 32 by {
      assert WellFormed(s);
      WellFormedPrefix(s);
    }
    BlocksNestedOrDisjoint(outer, s, s.subnet, FirstContained(s, local).value);
    var next := AddScope(sys, s, local).0;
    CheckIsExact(next.listeners, next.scopes);
  }

  lemma {:induction false} WellFormedPrefix(s: Scope)
    requires WellFormed(s)
    ensures s.prefix <= 32
  {
  }

  // ----- The other edits -----

  lemma {:induction false} ReplaceKeepsCoherentIff(listeners: seq<Ip>, scopes: seq<Scope>, i: nat, next: Scope)
    requires Coherent(listeners, scopes) && i < |scopes|
    requires next.subnet == scopes[i].subnet && next.prefix == scopes[i].prefix && next.viaRelay == scopes[i].viaRelay
    ensures Coherent(listeners, scopes[i := next]) <==> WellFormed(next)
  {
    hide WellFormed;
    var after := scopes[i := next];
    assert forall ip :: next.Contains(ip) == scopes[i].Contains(ip);
    hide Scope.Contains;
    assert next.viaRelay || Listens(next, listeners) by {
      assert scopes[i] in scopes;
    }
    forall l | l in listeners
      ensures AtMostOneCovers(after, l)
    {
      assert AtMostOneCovers(scopes, l);
    }
    if Coherent(listeners, after) {
      assert after[i] == next;
    }
  }

  lemma {:induction false} FewerCover(scopes: seq<Scope>, id: ScopeId, key: Ip)
    ensures |Covering(WithoutScope(scopes, id), key)| <= |Covering(scopes, key)|
  {
    hide Scope.Contains;
    if scopes == [] {
    } else {
      FewerCover(scopes[1..], id, key);
      var rest := WithoutScope(scopes[1..], id);
      assert WithoutScope(scopes, id) == if scopes[0].id == id then rest else [scopes[0]] + rest;
      assert ([scopes[0]] + rest)[1..] == rest;
    }
  }

  lemma {:induction false} RemoveScopeKeepsCoherent(listeners: seq<Ip>, scopes: seq<Scope>, id: ScopeId)
    requires Coherent(listeners, scopes)
    ensures Coherent(listeners, WithoutScope(scopes, id))
  {
    hide WellFormed, Scope.Contains;
    var rest := WithoutScope(scopes, id);
    forall l | l in listeners
      ensures AtMostOneCovers(rest, l)
    {
      CoveringAtMostOne(scopes, l);
      CoveringAtMostOne(rest, l);
      FewerCover(scopes, id, l);
    }
  }

  /** The scope serves nobody once the client's reservations are gone. */
  predicate Strands(s: Scope, client: ClientId) {
    s.Capacity() == 0 && forall r :: r in s.reservations ==> r.client == client
  }

  /** The edit is carried out, and what it leaves would be refused at the next start. */
  predicate Spoils(sys: Sys, ev: Event) {
    match ev
    case ScopeAdded(s, local) => AddScopeProblems(sys, s, local) == [] && AddsSharedListener(sys, s, local)
    case ReservationRemoved(id, client) =>
      var i := FindScope(sys.scopes, id);
      i < |sys.scopes| && Strands(sys.scopes[i], client)
    case _ => false
  }

  lemma {:induction false} UnreservingWellFormedIff(s: Scope, client: ClientId)
    requires WellFormed(s)
    ensures WellFormed(Unreserving(s, client)) <==> !Strands(s, client)
  {
    hide WellFormed, ValidateErrors;
    ValidateIsExact(s);
    ValidateIsExact(Unreserving(s, client));
    RemoveReservationMayStrand(s, client);
  }

  /** Which single step spoils a configuration that would be accepted: adding a scope that
      shares its new listener, or removing the last reservation of a scope without pool
      addresses. No packet, no other edit, and no edit that is refused. */
  lemma {:induction false} StepSpoilsIff(sys: Sys, e: Timed)
    requires CheckProblems(sys.listeners, sys.scopes) == []
    ensures var next := Step(sys, e); CheckProblems(next.listeners, next.scopes) != [] <==> Spoils(sys, e.event)
  {
    hide CheckProblems, WellFormed, ValidateErrors, Handle, AddScope, Strands, AddsSharedListener, AtMostOneCovers;
    CheckIsExact(sys.listeners, sys.scopes);
    CheckIsExact(Step(sys, e).listeners, Step(sys, e).scopes);
    hide Coherent;
    match e.event {
      case ScopeAdded(s, local) =>
        if AddScopeProblems(sys, s, local) == [] {
          AddScopeKeepsCoherentIff(sys, s, local);
        } else {
          RefusedScope(sys, s, local);
        }
      case ScopePatched(id, p) => PatchKeepsCoherent(sys, id, p);
      case ScopeRemoved(id) => RemoveScopeKeepsCoherent(sys.listeners, sys.scopes, id);
      case ReservationAdded(id, r) => AddReservationKeepsCoherent(sys, id, r);
      case ReservationRemoved(id, client) => RemoveReservationKeepsCoherentIff(sys, id, client);
      case _ =>
    }
  }

  lemma {:induction false} RefusedScope(sys: Sys, s: Scope, local: seq<Ip>)
    requires AddScopeProblems(sys, s, local) != []
    ensures AddScope(sys, s, local).0 == sys
  {
  }

  lemma {:induction false} PatchKeepsCoherent(sys: Sys, id: ScopeId, p: ScopePatch)
    requires Coherent(sys.listeners, sys.scopes)
    ensures var next := PatchScope(sys, id, p).0; Coherent(next.listeners, next.scopes)
  {
    hide ValidateErrors, WellFormed;
    var i := FindScope(sys.scopes, id);
    if i < |sys.scopes| && Patched(sys.scopes[i], p).Success? {
      var next := Patched(sys.scopes[i], p).value;
      ValidateIsExact(next);
      if WellFormed(next) {
        ReplaceKeepsCoherentIff(sys.listeners, sys.scopes, i, next);
      }
    }
  }

  lemma {:induction false} AddReservationKeepsCoherent(sys: Sys, id: ScopeId, r: Reservation)
    requires Coherent(sys.listeners, sys.scopes)
    ensures var next := AddReservation(sys, id, r).0; Coherent(next.listeners, next.scopes)
  {
    hide ValidateErrors, WellFormed;
    var i := FindScope(sys.scopes, id);
    if i < |sys.scopes| {
      var next := Reserving(sys.scopes[i], r);
      ValidateIsExact(next);
      if WellFormed(next) {
        ReplaceKeepsCoherentIff(sys.listeners, sys.scopes, i, next);
      }
    }
  }

  lemma {:induction false} RemoveReservationKeepsCoherentIff(sys: Sys, id: ScopeId, client: ClientId)
    requires Coherent(sys.listeners, sys.scopes)
    ensures var next := RemoveReservation(sys, id, client).0;
      !Coherent(next.listeners, next.scopes) <==> Spoils(sys, ReservationRemoved(id, client))
  {
    hide WellFormed, Strands;
    var i := FindScope(sys.scopes, id);
    if i < |sys.scopes| {
      assert sys.scopes[i] in sys.scopes;
      ReplaceKeepsCoherentIff(sys.listeners, sys.scopes, i, Unreserving(sys.scopes[i], client));
      UnreservingWellFormedIff(sys.scopes[i], client);
    }
  }

  /** A server started from an accepted configuration can be restarted after any mix of
      packets, reaps, revocations and edits: what it wrote back is accepted again, unless
      one of the two spoiling edits was carried out. */
  lemma {:induction false} RestartIsAccepted(sys: Sys, es: seq<Timed>, n: nat)
    requires CheckProblems(sys.listeners, sys.scopes) == [] && n <= |es|
    requires forall i :: 0 <= i < n ==> !Spoils(After(sys, es, i), es[i].event)
    ensures CheckProblems(After(sys, es, n).listeners, After(sys, es, n).scopes) == []
    decreases n
  {
    hide Step, CheckProblems, Spoils;
    if n == 0 {
    } else {
      RestartIsAccepted(sys, es, n - 1);
      StepSpoilsIff(After(sys, es, n - 1), es[n - 1]);
    }
  }
}
