/** What a report of problems says: each entry is there exactly when what it names is wrong. */
module Reports {
  import opened Prelude
  import opened Bits
  import opened Addr
  import opened Scopes
  import opened Validation
  import opened Server
  import opened Admin
  import opened Config

  // ----- One scope -----

  ghost predicate OutsidePool(s: Scope, n: nat, r: Range)
    requires n <= |s.pools|
  {
    exists i :: 0 <= i < n && s.pools[i] == r && !(s.Contains(r.start) && s.Contains(r.end))
  }

  /** The pools at two positions, in configuration order, that overlap. */
  ghost predicate OverlapAt(pools: seq<Range>, i: nat, j: nat, a: Range, b: Range) {
    i < j < |pools| && pools[i] == a && pools[j] == b && a.start <= b.end && b.start <= a.end
  }

  ghost predicate OutsideReservation(s: Scope, n: nat, ip: Ip)
    requires n <= |s.reservations|
  {
    exists i :: 0 <= i < n && s.reservations[i].ip == ip && !s.Contains(ip)
  }

  /** What the entry says is wrong with the scope. */
  ghost predicate Warranted(s: Scope, e: ScopeError) {
    match e
    case BadPrefix(p) => p == s.prefix > 32
    case NotANetworkAddress(subnet, p) =>
      s.prefix <= 32 && subnet == s.subnet && p == s.prefix && s.subnet % BlockSize(s.prefix) != 0
    case PoolOutsideSubnet(r) => s.prefix <= 32 && OutsidePool(s, |s.pools|, r)
    case PoolsOverlap(a, b) => s.prefix <= 32 && exists i: nat, j: nat :: OverlapAt(s.pools, i, j, a, b)
    case ReservationOutsideSubnet(ip) => s.prefix <= 32 && OutsideReservation(s, |s.reservations|, ip)
    case DuplicateReservation(ip, n) =>
      s.prefix <= 32 && n > 1 && n == Multiplicity(s.reservations, |s.reservations|, ip)
    case GatewayOutsideSubnet(gw) => s.prefix <= 32 && s.router == Some(gw) && !s.Contains(gw)
    case ZeroLease => s.prefix <= 32 && s.leaseSecs == 0
    case OfferLongerThanLease(offer, lease) =>
      s.prefix <= 32 && offer == s.offerSecs && lease == s.leaseSecs && 0 < lease < offer
    case NoUsableAddresses =>
      s.prefix <= 32 && s.reservations == [] && forall ip: Ip :: !s.IsPoolable(ip)
  }

  lemma {:induction false} InPoolErrors(s: Scope, n: nat, e: ScopeError)
    requires n <= |s.pools|
    ensures e in PoolErrors(s, n) <==> e.PoolOutsideSubnet? && OutsidePool(s, n, e.range)
  {
    hide Scope.Contains;
    if n == 0 {
    } else {
      InPoolErrors(s, n - 1, e);
    }
  }

  lemma {:induction false} InOverlapsOf(pools: seq<Range>, i: nat, n: nat, e: ScopeError)
    requires i < n <= |pools|
    ensures e in OverlapsOf(pools, i, n) <==>
      e.PoolsOverlap? && exists j: nat :: j < n && OverlapAt(pools, i, j, e.a, e.b)
    decreases n
  {
    if n == i + 1 {
    } else {
      InOverlapsOf(pools, i, n - 1, e);
      assert pools[i].Overlaps(pools[n - 1]) <==> OverlapAt(pools, i, n - 1, pools[i], pools[n - 1]);
    }
  }

  lemma {:induction false} InOverlapErrors(pools: seq<Range>, n: nat, e: ScopeError)
    requires n <= |pools|
    ensures e in OverlapErrors(pools, n) <==>
      e.PoolsOverlap? && exists i: nat, j: nat :: i < n && OverlapAt(pools, i, j, e.a, e.b)
  {
    hide OverlapsOf;
    if n == 0 {
    } else {
      InOverlapErrors(pools, n - 1, e);
      InOverlapsOf(pools, n - 1, |pools|, e);
    }
  }

  lemma {:induction false} InReservationErrors(s: Scope, n: nat, e: ScopeError)
    requires n <= |s.reservations|
    ensures e in ReservationErrors(s, n) <==>
      e.ReservationOutsideSubnet? && OutsideReservation(s, n, e.ip)
  {
    hide Scope.Contains;
    if n == 0 {
    } else {
      InReservationErrors(s, n - 1, e);
    }
  }

  lemma {:induction false} InTallied(s: Scope, e: ScopeError)
    ensures e in Tallied(s) <==>
      e.DuplicateReservation? && e.count > 1 && e.count == Multiplicity(s.reservations, |s.reservations|, e.ip)
  {
    var seen := Tally(s.reservations, |s.reservations|);
    TallyCounts(s.reservations, |s.reservations|, UNSPECIFIED);
    DuplicateErrorsExact(seen, |seen|);
    if e.DuplicateReservation? {
      OverReserved(s.reservations, e.ip, e.count);
    }
  }

  lemma {:induction false} InNetworkErrors(s: Scope, e: ScopeError)
    requires s.prefix <= 32
    ensures e in NetworkErrors(s) <==> e.NotANetworkAddress? && Warranted(s, e)
  {
    hide BlockSize, BitAnd, BitNot, Scope.Mask, OutsidePool, OutsideReservation, Multiplicity, Scope.IsPoolable;
    NetworkAddressIsAligned(s);
  }

  lemma {:induction false} InUsableErrors(s: Scope, e: ScopeError)
    requires s.prefix <= 32
    ensures e in UsableErrors(s) <==> e.NoUsableAddresses? && Warranted(s, e)
  {
    hide BlockSize, Scope.Contains, Scope.IsPoolable, OutsidePool, OutsideReservation, Multiplicity;
    UsableRule(s);
    if s.reservations != [] {
      assert s.reservations[0] in s.reservations;
    }
  }

  lemma {:induction false} InSettingErrors(s: Scope, e: ScopeError)
    requires s.prefix <= 32
    ensures e in GatewayErrors(s) <==> e.GatewayOutsideSubnet? && Warranted(s, e)
    ensures e in LeaseErrors(s) <==> (e.ZeroLease? || e.OfferLongerThanLease?) && Warranted(s, e)
  {
    hide BlockSize, Scope.Contains, Scope.IsPoolable, OutsidePool, OutsideReservation, Multiplicity;
  }

  lemma {:induction false} InRangeErrors(s: Scope, e: ScopeError)
    requires s.prefix <= 32
    ensures e in RangeErrors(s) <==>
      (e.NotANetworkAddress? || e.PoolOutsideSubnet? || e.PoolsOverlap?) && Warranted(s, e)
  {
    hide NetworkErrors, PoolErrors, OverlapErrors, OutsidePool, OutsideReservation, Multiplicity;
    hide BlockSize, Scope.Contains, Scope.IsPoolable;
    InNetworkErrors(s, e);
    InPoolErrors(s, |s.pools|, e);
    InOverlapErrors(s.pools, |s.pools|, e);
  }

  lemma {:induction false} InReservedErrors(s: Scope, e: ScopeError)
    requires s.prefix <= 32
    ensures e in ReservedErrors(s) <==>
      (e.ReservationOutsideSubnet? || e.DuplicateReservation?) && Warranted(s, e)
  {
    hide ReservationErrors, DuplicateErrors, Tally, OutsideReservation, Multiplicity;
    InReservationErrors(s, |s.reservations|, e);
    InTallied(s, e);
  }

  lemma {:induction false} OnlyBadPrefix(s: Scope, e: ScopeError)
    requires s.prefix <= 32
    ensures e.BadPrefix? ==> !Warranted(s, e)
  {
  }

  /** The report on a scope contains an entry exactly when what it names is wrong. */
  lemma {:induction false} ReportIsExact(s: Scope, e: ScopeError)
    ensures e in ValidateErrors(s) <==> Warranted(s, e)
  {
    if s.prefix <= 32 {
      InSettingErrors(s, e);
      InUsableErrors(s, e);
      InRangeErrors(s, e);
      InReservedErrors(s, e);
      OnlyBadPrefix(s, e);
      hide Warranted, RangeErrors, ReservedErrors, GatewayErrors, LeaseErrors, UsableErrors;
    }
  }

  // ----- A whole configuration -----

  /** What the entry says is wrong with the configuration. */
  ghost predicate ConfigWarranted(listeners: seq<Ip>, scopes: seq<Scope>, p: ConfigProblem) {
    match p
    case NoListeners => listeners == [] && scopes != []
    case BadScope(id, e) =>
      (listeners != [] || scopes == []) && exists s :: s in scopes && s.id == id && Warranted(s, e)
    case ScopeWithoutListener(name) =>
      && listeners != []
      && exists s :: s in scopes && s.name == name && !s.viaRelay && forall l :: l in listeners ==> !s.Contains(l)
    case AmbiguousListener(ip) => ip in listeners && !AtMostOneCovers(scopes, ip)
  }

  lemma {:induction false} InTagged(id: ScopeId, errs: seq<ScopeError>, n: nat, p: ConfigProblem)
    requires n <= |errs|
    ensures p in Tagged(id, errs, n) <==> p.BadScope? && p.id == id && p.error in errs[..n]
  {
    if n == 0 {
    } else {
      InTagged(id, errs, n - 1, p);
      assert errs[..n] == errs[..n - 1] + [errs[n - 1]];
    }
  }

  lemma {:induction false} InScopeProblems(scopes: seq<Scope>, n: nat, p: ConfigProblem)
    requires n <= |scopes|
    ensures p in ScopeProblems(scopes, n) <==>
      p.BadScope? && exists i :: 0 <= i < n && scopes[i].id == p.id && Warranted(scopes[i], p.error)
  {
    hide ValidateErrors, Warranted, Tagged;
    if n == 0 {
    } else {
      InScopeProblems(scopes, n - 1, p);
      var errs := ValidateErrors(scopes[n - 1]);
      InTagged(scopes[n - 1].id, errs, |errs|, p);
      assert errs[..|errs|] == errs;
      if p.BadScope? {
        ReportIsExact(scopes[n - 1], p.error);
      }
    }
  }

  predicate Unheard(s: Scope, listeners: seq<Ip>, name: string) {
    s.name == name && !s.viaRelay && !Listens(s, listeners)
  }

  lemma {:induction false} InUnheardProblems(scopes: seq<Scope>, listeners: seq<Ip>, n: nat, p: ConfigProblem)
    requires n <= |scopes|
    ensures p in UnheardProblems(scopes, listeners, n) <==>
      p.ScopeWithoutListener? && exists i :: 0 <= i < n && Unheard(scopes[i], listeners, p.name)
  {
    hide Listens;
    if n == 0 {
    } else {
      InUnheardProblems(scopes, listeners, n - 1, p);
    }
  }

  lemma {:induction false} InAmbiguityProblems(scopes: seq<Scope>, listeners: seq<Ip>, n: nat, p: ConfigProblem)
    requires n <= |listeners|
    ensures p in AmbiguityProblems(scopes, listeners, n) <==>
      p.AmbiguousListener? && exists i :: 0 <= i < n && listeners[i] == p.ip && !AtMostOneCovers(scopes, p.ip)
  {
    hide Covering, AtMostOneCovers;
    if n == 0 {
    } else {
      InAmbiguityProblems(scopes, listeners, n - 1, p);
      CoveringAtMostOne(scopes, listeners[n - 1]);
    }
  }

  /** The report on a configuration contains an entry exactly when what it names is wrong;
      scopes are not looked at when there are some but no listener. */
  lemma {:induction false} ConfigReportIsExact(listeners: seq<Ip>, scopes: seq<Scope>, p: ConfigProblem)
    ensures p in CheckProblems(listeners, scopes) <==> ConfigWarranted(listeners, scopes, p)
  {
    InAnyScope(scopes, p);
    InAnyListener(listeners, scopes, p);
    hide Warranted, AtMostOneCovers, Listens, Scope.Contains, ScopeProblems, UnheardProblems, AmbiguityProblems;
    if p.ScopeWithoutListener? {
      NameUnheardIff(scopes, listeners, p.name);
    }
  }

  lemma {:induction false} InAnyScope(scopes: seq<Scope>, p: ConfigProblem)
    ensures p in ScopeProblems(scopes, |scopes|) <==>
      p.BadScope? && exists s :: s in scopes && s.id == p.id && Warranted(s, p.error)
  {
    hide Warranted, ScopeProblems;
    InScopeProblems(scopes, |scopes|, p);
  }

  lemma {:induction false} InAnyListener(listeners: seq<Ip>, scopes: seq<Scope>, p: ConfigProblem)
    ensures p in UnheardProblems(scopes, listeners, |scopes|) <==>
      p.ScopeWithoutListener? && exists s :: s in scopes && Unheard(s, listeners, p.name)
    ensures p in AmbiguityProblems(scopes, listeners, |listeners|) <==>
      p.AmbiguousListener? && p.ip in listeners && !AtMostOneCovers(scopes, p.ip)
  {
    hide Unheard, AtMostOneCovers, UnheardProblems, AmbiguityProblems;
    InUnheardProblems(scopes, listeners, |scopes|, p);
    InAmbiguityProblems(scopes, listeners, |listeners|, p);
  }

  lemma {:induction false} NameUnheardIff(scopes: seq<Scope>, listeners: seq<Ip>, name: string)
    ensures (exists s :: s in scopes && Unheard(s, listeners, name)) <==>
      exists s :: s in scopes && s.name == name && !s.viaRelay && forall l :: l in listeners ==> !s.Contains(l)
  {
    hide Scope.Contains;
    if s :| s in scopes && s.name == name && !s.viaRelay && forall l :: l in listeners ==> !s.Contains(l) {
      assert Unheard(s, listeners, name);
    }
  }

  // ----- A scope that is refused -----

  /** What the entry says is wrong with adding the scope. */
  ghost predicate AddWarranted(sys: Sys, s: Scope, local: seq<Ip>, p: Problem) {
    match p
    case Invalid(e) => Warranted(s, e)
    case NoLocalAddress => forall l :: l in sys.listeners + local ==> !s.Contains(l)
    case ListenerClash(name) =>
      exists i :: 0 <= i < |sys.scopes| && sys.scopes[i].name == name && ClashesAt(sys, s, i)
        && forall j :: 0 <= j < i ==> !ClashesAt(sys, s, j)
    case _ => false
  }

  /** The server answers on an address that both the new scope and the one at `i` contain. */
  ghost predicate ClashesAt(sys: Sys, s: Scope, i: nat)
    requires i < |sys.scopes|
  {
    exists l :: l in sys.listeners && sys.scopes[i].Contains(l) && s.Contains(l)
  }

  lemma {:induction false} FirstClashIsFirst(sys: Sys, s: Scope) returns (i: nat)
    ensures i <= |sys.scopes|
    ensures forall j :: 0 <= j < i ==> !ClashesAt(sys, s, j)
    ensures FirstClash(sys.scopes, s, sys.listeners) == if i < |sys.scopes| then Some(sys.scopes[i]) else None
    ensures i < |sys.scopes| ==> ClashesAt(sys, s, i)
    decreases |sys.scopes|
  {
    hide Scope.Contains;
    if sys.scopes == [] {
      i := 0;
    } else if ClashesAt(sys, s, 0) {
      i := 0;
    } else {
      var rest := sys.(scopes := sys.scopes[1..]);
      i := FirstClashIsFirst(rest, s);
      i := i + 1;
      forall j | 0 < j < i
        ensures !ClashesAt(sys, s, j)
      {
        assert !ClashesAt(rest, s, j - 1);
      }
      if i < |sys.scopes| {
        assert ClashesAt(rest, s, i - 1);
      }
    }
  }

  lemma {:induction false} InLifted(errs: seq<ScopeError>, p: Problem)
    ensures p in Lift(errs) <==> p.Invalid? && p.error in errs
  {
    forall e | e in errs
      ensures Invalid(e) in Lift(errs)
    {
      var i :| 0 <= i < |errs| && errs[i] == e;
      assert Lift(errs)[i] == Invalid(e);
    }
  }

  /** The reasons given for refusing a scope are exactly those that apply; of the scopes it
      clashes with the first is named. */
  lemma {:induction false} RefusalIsExact(sys: Sys, s: Scope, local: seq<Ip>, p: Problem)
    ensures var res := AddScope(sys, s, local).1;
      AddWarranted(sys, s, local, p) <==> res.Failure? && p in res.error
  {
    hide ValidateErrors, Warranted, ClashesAt, Scope.Contains, Lift;
    InLifted(ValidateErrors(s), p);
    if p.Invalid? {
      ReportIsExact(s, p.error);
    }
    var i := FirstClashIsFirst(sys, s);
  }
}
