/** Checking one scope's settings: the rules as the program runs them, and what
    passing them means. */
module Validation {
  import opened Prelude
  import opened Bits
  import opened Addr
  import opened Scopes

  datatype ScopeError =
    | BadPrefix(prefix: Byte)
    | NotANetworkAddress(subnet: Ip, prefix: Byte)
    | PoolOutsideSubnet(range: Range)
    | PoolsOverlap(a: Range, b: Range)
    | ReservationOutsideSubnet(ip: Ip)
    | DuplicateReservation(ip: Ip, count: nat)
    | GatewayOutsideSubnet(gw: Ip)
    | ZeroLease
    | OfferLongerThanLease(offer: U32, lease: U32)
    | NoUsableAddresses

  // ----- The rules, one by one -----

  function NetworkErrors(s: Scope): seq<ScopeError> {
    if BitAnd(s.subnet, BitNot(s.Mask())) != 0 then [NotANetworkAddress(s.subnet, s.prefix)] else []
  }

  /** Over the first `n` pools. */
  function PoolErrors(s: Scope, n: nat): seq<ScopeError>
    requires n <= |s.pools|
  {
    if n == 0 then []
    else
      var p := s.pools[n - 1];
      PoolErrors(s, n - 1) + if !s.Contains(p.start) || !s.Contains(p.end) then [PoolOutsideSubnet(p)] else []
  }

  /** Pool `i` against the pools after it and before `n`. */
  function OverlapsOf(pools: seq<Range>, i: nat, n: nat): seq<ScopeError>
    requires i < n <= |pools|
  {
    if n == i + 1 then []
    else
      OverlapsOf(pools, i, n - 1)
      + if pools[i].Overlaps(pools[n - 1]) then [PoolsOverlap(pools[i], pools[n - 1])] else []
  }

  function OverlapErrors(pools: seq<Range>, n: nat): seq<ScopeError>
    requires n <= |pools|
  {
    if n == 0 then [] else OverlapErrors(pools, n - 1) + OverlapsOf(pools, n - 1, |pools|)
  }

  function ReservationErrors(s: Scope, n: nat): seq<ScopeError>
    requires n <= |s.reservations|
  {
    if n == 0 then []
    else
      var r := s.reservations[n - 1];
      ReservationErrors(s, n - 1) + if !s.Contains(r.ip) then [ReservationOutsideSubnet(r.ip)] else []
  }

  /** An address and how many reservations name it. */
  datatype Seen = Seen(ip: Ip, count: nat)

  function Find(seen: seq<Seen>, ip: Ip): (i: nat)
    ensures i <= |seen|
    ensures i < |seen| ==> seen[i].ip == ip
    ensures forall j :: 0 <= j < i ==> seen[j].ip != ip
  {
    if seen == [] then 0 else if seen[0].ip == ip then 0 else 1 + Find(seen[1..], ip)
  }

  function Bump(seen: seq<Seen>, ip: Ip): seq<Seen> {
    var i := Find(seen, ip);
    if i < |seen| then seen[i := Seen(ip, seen[i].count + 1)] else seen + [Seen(ip, 1)]
  }

  function Tally(rs: seq<Reservation>, n: nat): seq<Seen>
    requires n <= |rs|
  {
    if n == 0 then [] else Bump(Tally(rs, n - 1), rs[n - 1].ip)
  }

  function DuplicateErrors(seen: seq<Seen>, n: nat): seq<ScopeError>
    requires n <= |seen|
  {
    if n == 0 then []
    else
      var e := seen[n - 1];
      DuplicateErrors(seen, n - 1) + if e.count > 1 then [DuplicateReservation(e.ip, e.count)] else []
  }

  function GatewayErrors(s: Scope): seq<ScopeError> {
    match s.router
    case Some(gw) => if !s.Contains(gw) then [GatewayOutsideSubnet(gw)] else []
    case None => []
  }

  function LeaseErrors(s: Scope): seq<ScopeError> {
    if s.leaseSecs == 0 then [ZeroLease]
    else if s.offerSecs > s.leaseSecs then [OfferLongerThanLease(s.offerSecs, s.leaseSecs)]
    else []
  }

  function UsableErrors(s: Scope): seq<ScopeError> {
    if s.Capacity() == 0 && s.reservations == [] then [NoUsableAddresses] else []
  }

  function RangeErrors(s: Scope): seq<ScopeError> {
    NetworkErrors(s) + PoolErrors(s, |s.pools|) + OverlapErrors(s.pools, |s.pools|)
  }

  function ReservedErrors(s: Scope): seq<ScopeError> {
    var seen := Tally(s.reservations, |s.reservations|);
    ReservationErrors(s, |s.reservations|) + DuplicateErrors(seen, |seen|)
  }

  /** Everything but the last rule. */
  function CoreErrors(s: Scope): seq<ScopeError> {
    RangeErrors(s) + ReservedErrors(s) + (GatewayErrors(s) + LeaseErrors(s))
  }

  function ValidateErrors(s: Scope): seq<ScopeError> {
    if s.prefix > 32 then [BadPrefix(s.prefix)] else CoreErrors(s) + UsableErrors(s)
  }

  // ----- The checking loops -----

  method Validate(s: Scope) returns (errs: seq<ScopeError>)
    ensures errs == ValidateErrors(s)
  {
    if s.prefix > 32 {
      return [BadPrefix(s.prefix)];
    }
    var ranges := CheckRanges(s);
    var reserved := CheckReservations(s);
    errs := ranges + reserved + (GatewayErrors(s) + LeaseErrors(s));
    if s.Capacity() == 0 && s.reservations == [] {
      errs := errs + [NoUsableAddresses];
    }
  }

  method CheckRanges(s: Scope) returns (errs: seq<ScopeError>)
    ensures errs == RangeErrors(s)
  {
    hide NetworkErrors, Scope.Contains, Range.Overlaps;
    errs := NetworkErrors(s);
    for i := 0 to |s.pools|
      invariant errs == NetworkErrors(s) + PoolErrors(s, i)
    {
      var p := s.pools[i];
      if !s.Contains(p.start) || !s.Contains(p.end) {
        errs := errs + [PoolOutsideSubnet(p)];
      }
    }
    ghost var before := errs;
    for i := 0 to |s.pools|
      invariant errs == before + OverlapErrors(s.pools, i)
    {
      for j := i + 1 to |s.pools|
        invariant errs == before + OverlapErrors(s.pools, i) + OverlapsOf(s.pools, i, j)
      {
        if s.pools[i].Overlaps(s.pools[j]) {
          errs := errs + [PoolsOverlap(s.pools[i], s.pools[j])];
        }
      }
    }
  }

  method CheckReservations(s: Scope) returns (errs: seq<ScopeError>)
    ensures errs == ReservedErrors(s)
  {
    errs := [];
    for i := 0 to |s.reservations|
      invariant errs == ReservationErrors(s, i)
    {
      if !s.Contains(s.reservations[i].ip) {
        errs := errs + [ReservationOutsideSubnet(s.reservations[i].ip)];
      }
    }
    var seen: seq<Seen> := [];
    for i := 0 to |s.reservations|
      invariant seen == Tally(s.reservations, i)
    {
      var j := Find(seen, s.reservations[i].ip);
      if j < |seen| {
        seen := seen[j := seen[j].(count := seen[j].count + 1)];
      } else {
        seen := seen + [Seen(s.reservations[i].ip, 1)];
      }
    }
    ghost var before := errs;
    for i := 0 to |seen|
      invariant errs == before + DuplicateErrors(seen, i)
    {
      if seen[i].count > 1 {
        errs := errs + [DuplicateReservation(seen[i].ip, seen[i].count)];
      }
    }
  }

  // ----- What it means to pass -----

  /** `ip` lies between the network address and the last address of the block. */
  predicate InBlock(s: Scope, ip: Ip)
    requires s.prefix <= 32
  {
    s.subnet <= ip <= s.subnet + BlockSize(s.prefix) - 1
  }

  /** Reservations name distinct addresses. */
  ghost predicate ReservedOnce(rs: seq<Reservation>) {
    forall i, j :: 0 <= i < j < |rs| ==> rs[i].ip != rs[j].ip
  }

  /** Network address, pools inside the subnet, pools disjoint. */
  ghost predicate RangesSound(s: Scope)
    requires s.prefix <= 32
  {
    && HostPart(s.subnet, s.prefix) == 0
    && (forall p :: p in s.pools ==> InBlock(s, p.start) && InBlock(s, p.end))
    && PoolsDisjoint(s.pools)
  }

  ghost predicate ReservationsSound(s: Scope)
    requires s.prefix <= 32
  {
    && (forall r :: r in s.reservations ==> InBlock(s, r.ip))
    && ReservedOnce(s.reservations)
  }

  /** The settings make sense, except perhaps that nobody can be served. */
  ghost predicate Sound(s: Scope) {
    && s.prefix <= 32
    && RangesSound(s)
    && ReservationsSound(s)
    && (s.router.Some? ==> InBlock(s, s.router.value))
    && 0 < s.leaseSecs
    && s.offerSecs <= s.leaseSecs
  }

  ghost predicate WellFormed(s: Scope) {
    Sound(s) && ((exists ip: Ip :: s.IsPoolable(ip)) || exists r :: r in s.reservations)
  }

  /** Validation reports nothing exactly when the settings are well formed. */
  lemma {:induction false} ValidateIsExact(s: Scope)
    ensures ValidateErrors(s) == [] <==> WellFormed(s)
    ensures s.prefix <= 32 ==> (CoreErrors(s) == [] <==> Sound(s))
  {
    if s.prefix <= 32 {
      CoreIsSound(s);
      UsableRule(s);
    }
  }

  lemma {:induction false} UsableRule(s: Scope)
    ensures UsableErrors(s) == [] <==>
      (exists ip: Ip :: s.IsPoolable(ip)) || exists r :: r in s.reservations
  {
    if s.Capacity() > 0 {
      assert s.IsPoolable(s.PoolableAddrs()[0]) by {
        assert s.PoolableAddrs()[0] in s.PoolableAddrs();
      }
    } else {
      assert forall ip: Ip :: ip !in s.PoolableAddrs();
    }
    if s.reservations != [] {
      assert s.reservations[0] in s.reservations;
    }
  }

  lemma {:induction false} CoreIsSound(s: Scope)
    requires s.prefix <= 32
    ensures CoreErrors(s) == [] <==> Sound(s)
  {
    RangesRule(s);
    if RangesSound(s) {
      ReservedRule(s);
      GatewayRule(s);
    }
  }

  lemma {:induction false} RangesRule(s: Scope)
    requires s.prefix <= 32
    ensures RangeErrors(s) == [] <==> RangesSound(s)
  {
    NetworkRule(s);
    OverlapRule(s.pools, |s.pools|);
    PoolsDisjointIsApart(s.pools);
    if HostPart(s.subnet, s.prefix) == 0 {
      PoolRule(s, |s.pools|);
      assert PoolErrors(s, |s.pools|) == [] <==>
        forall p :: p in s.pools ==> InBlock(s, p.start) && InBlock(s, p.end);
    }
  }

  lemma {:induction false} ReservedRule(s: Scope)
    requires s.prefix <= 32 && HostPart(s.subnet, s.prefix) == 0
    ensures ReservedErrors(s) == [] <==> ReservationsSound(s)
  {
    DuplicateRule(s.reservations);
    ReservationRule(s, |s.reservations|);
    assert ReservationErrors(s, |s.reservations|) == [] <==>
      forall r :: r in s.reservations ==> InBlock(s, r.ip);
  }

  lemma {:induction false} NetworkRule(s: Scope)
    requires s.prefix <= 32
    ensures NetworkErrors(s) == [] <==> HostPart(s.subnet, s.prefix) == 0
  {
    MaskedAddress(s.subnet, s.prefix);
  }

  /** The network rule, as plain arithmetic: the subnet address is a multiple of the number
      of addresses under its prefix. */
  lemma {:induction false} NetworkAddressIsAligned(s: Scope)
    requires s.prefix <= 32
    ensures NetworkErrors(s) == [] <==> s.subnet % BlockSize(s.prefix) == 0
  {
    NetworkRule(s);
    LowBitsIsRemainder(s.subnet, 32 - s.prefix);
  }

  lemma {:induction false} GatewayRule(s: Scope)
    requires s.prefix <= 32 && HostPart(s.subnet, s.prefix) == 0
    ensures GatewayErrors(s) == [] <==> s.router.Some? ==> InBlock(s, s.router.value)
  {
    if s.router.Some? {
      ContainsIsInterval(s, s.router.value);
    }
  }

  lemma {:induction false} PoolRule(s: Scope, n: nat)
    requires s.prefix <= 32 && HostPart(s.subnet, s.prefix) == 0 && n <= |s.pools|
    ensures PoolErrors(s, n) == [] <==>
      forall i :: 0 <= i < n ==> InBlock(s, s.pools[i].start) && InBlock(s, s.pools[i].end)
  {
    if n == 0 {
    } else {
      PoolRule(s, n - 1);
      ContainsIsInterval(s, s.pools[n - 1].start);
      ContainsIsInterval(s, s.pools[n - 1].end);
    }
  }

  lemma {:induction false} ReservationRule(s: Scope, n: nat)
    requires s.prefix <= 32 && HostPart(s.subnet, s.prefix) == 0 && n <= |s.reservations|
    ensures ReservationErrors(s, n) == [] <==>
      forall i :: 0 <= i < n ==> InBlock(s, s.reservations[i].ip)
  {
    if n == 0 {
    } else {
      ReservationRule(s, n - 1);
      ContainsIsInterval(s, s.reservations[n - 1].ip);
    }
  }

  /** Pool `i` meets none of the pools after it and before `n`. */
  ghost predicate Apart(pools: seq<Range>, i: nat, n: nat)
    requires i < n <= |pools|
  {
    forall j :: i < j < n ==> !pools[i].Overlaps(pools[j])
  }

  lemma {:induction false} PoolsDisjointIsApart(pools: seq<Range>)
    ensures PoolsDisjoint(pools) <==> forall i :: 0 <= i < |pools| ==> Apart(pools, i, |pools|)
  {
    if forall i :: 0 <= i < |pools| ==> Apart(pools, i, |pools|) {
      forall i, j | 0 <= i < j < |pools|
        ensures !pools[i].Overlaps(pools[j])
      {
        assert Apart(pools, i, |pools|);
      }
    }
  }

  lemma {:induction false} OverlapsOfRule(pools: seq<Range>, i: nat, n: nat)
    requires i < n <= |pools|
    ensures OverlapsOf(pools, i, n) == [] <==> Apart(pools, i, n)
  {
    if n > i + 1 { OverlapsOfRule(pools, i, n - 1); }
  }

  lemma {:induction false} OverlapRule(pools: seq<Range>, n: nat)
    requires n <= |pools|
    ensures OverlapErrors(pools, n) == [] <==> forall i :: 0 <= i < n ==> Apart(pools, i, |pools|)
  {
    hide OverlapsOf, Apart;
    if n == 0 {
    } else {
      OverlapRule(pools, n - 1);
      OverlapsOfRule(pools, n - 1, |pools|);
    }
  }

  // ----- Counting over-reserved addresses -----

  /** How many of the first `n` reservations name `ip`. */
  function Multiplicity(rs: seq<Reservation>, n: nat, ip: Ip): nat
    requires n <= |rs|
  {
    if n == 0 then 0 else Multiplicity(rs, n - 1, ip) + if rs[n - 1].ip == ip then 1 else 0
  }

  /** One entry per address, each counting at least one reservation. */
  ghost predicate IsTally(seen: seq<Seen>) {
    && (forall i, j :: 0 <= i < j < |seen| ==> seen[i].ip != seen[j].ip)
    && (forall i :: 0 <= i < |seen| ==> seen[i].count > 0)
  }

  function Weight(seen: seq<Seen>, ip: Ip): nat {
    var i := Find(seen, ip);
    if i < |seen| then seen[i].count else 0
  }

  lemma {:induction false} WeightIsMembership(seen: seq<Seen>, ip: Ip, c: nat)
    requires IsTally(seen)
    ensures Seen(ip, c) in seen <==> c > 0 && c == Weight(seen, ip)
  {
    if Seen(ip, c) in seen {
      var i :| 0 <= i < |seen| && seen[i] == Seen(ip, c);
      assert Find(seen, ip) == i;
    }
  }

  lemma {:induction false} BumpAddsOne(seen: seq<Seen>, ip: Ip, x: Ip)
    requires IsTally(seen)
    ensures IsTally(Bump(seen, ip))
    ensures Weight(Bump(seen, ip), x) == Weight(seen, x) + if x == ip then 1 else 0
  {
    var i, j, b := Find(seen, ip), Find(seen, x), Bump(seen, ip);
    var k := Find(b, x);
    if j < |seen| {
      assert b[j].ip == x;
      assert k == j;
    } else if x == ip {
      assert b[|seen|].ip == x;
      assert k == |seen|;
    } else {
      assert k == |b|;
    }
  }

  /** The tally gives every address its multiplicity. */
  lemma {:induction false} TallyCounts(rs: seq<Reservation>, n: nat, ip: Ip)
    requires n <= |rs|
    ensures IsTally(Tally(rs, n))
    ensures Weight(Tally(rs, n), ip) == Multiplicity(rs, n, ip)
  {
    if n == 0 {
    } else {
      TallyCounts(rs, n - 1, ip);
      BumpAddsOne(Tally(rs, n - 1), rs[n - 1].ip, ip);
    }
  }

  lemma {:induction false} DuplicateErrorsExact(seen: seq<Seen>, n: nat)
    requires n <= |seen|
    ensures forall ip, c :: DuplicateReservation(ip, c) in DuplicateErrors(seen, n) <==>
        c > 1 && exists i :: 0 <= i < n && seen[i] == Seen(ip, c)
    ensures forall e :: e in DuplicateErrors(seen, n) ==> e.DuplicateReservation?
  {
    if n == 0 {
    } else {
      DuplicateErrorsExact(seen, n - 1);
    }
  }

  /** The errors are over-reservations of different addresses. */
  ghost predicate DistinctAddresses(errs: seq<ScopeError>) {
    && (forall i :: 0 <= i < |errs| ==> errs[i].DuplicateReservation?)
    && (forall i, j :: 0 <= i < j < |errs| ==> errs[i].ip != errs[j].ip)
  }

  lemma {:induction false} DuplicatesDistinct(seen: seq<Seen>, n: nat)
    requires n <= |seen| && IsTally(seen)
    ensures DistinctAddresses(DuplicateErrors(seen, n))
  {
    if n == 0 {
    } else {
      DuplicatesDistinct(seen, n - 1);
      DuplicateErrorsExact(seen, n - 1);
      var d, last := DuplicateErrors(seen, n - 1), seen[n - 1];
      forall i | 0 <= i < |d|
        ensures d[i].ip != last.ip
      {
        assert d[i] in d && d[i] == DuplicateReservation(d[i].ip, d[i].count);
        var k :| 0 <= k < n - 1 && seen[k] == Seen(d[i].ip, d[i].count);
        assert seen[k].ip != last.ip;
      }
      AppendDistinct(d, DuplicateReservation(last.ip, last.count));
      assert d + [] == d;
    }
  }

  lemma {:induction false} AppendDistinct(d: seq<ScopeError>, e: ScopeError)
    requires DistinctAddresses(d) && e.DuplicateReservation?
    requires forall i :: 0 <= i < |d| ==> d[i].ip != e.ip
    ensures DistinctAddresses(d + [e])
  {
    var all := d + [e];
    forall i, j | 0 <= i < j < |all|
      ensures all[i].ip != all[j].ip
    {
      assert all[i] == d[i];
      assert all[j] == if j < |d| then d[j] else e;
    }
  }

  lemma {:induction false} MultiplicityMeaning(rs: seq<Reservation>, n: nat, ip: Ip)
    requires n <= |rs|
    ensures Multiplicity(rs, n, ip) > 0 <==> exists i :: 0 <= i < n && rs[i].ip == ip
    ensures Multiplicity(rs, n, ip) > 1 <==> exists i, j :: 0 <= i < j < n && rs[i].ip == rs[j].ip == ip
  {
    if n == 0 {
    } else {
      MultiplicityMeaning(rs, n - 1, ip);
    }
  }

  lemma {:induction false} DuplicateRule(rs: seq<Reservation>)
    ensures var seen := Tally(rs, |rs|); DuplicateErrors(seen, |seen|) == [] <==> ReservedOnce(rs)
  {
    var seen := Tally(rs, |rs|);
    TallyCounts(rs, |rs|, UNSPECIFIED);
    DuplicateErrorsExact(seen, |seen|);
    var errs := DuplicateErrors(seen, |seen|);
    if errs != [] {
      var e := errs[0];
      assert e in errs;
      OverReserved(rs, e.ip, e.count);
    }
    if !ReservedOnce(rs) {
      var i, j :| 0 <= i < j < |rs| && rs[i].ip == rs[j].ip;
      var ip := rs[i].ip;
      MultiplicityMeaning(rs, |rs|, ip);
      OverReserved(rs, ip, Multiplicity(rs, |rs|, ip));
    }
  }

  lemma {:induction false} OverReserved(rs: seq<Reservation>, ip: Ip, count: nat)
    ensures var seen := Tally(rs, |rs|);
      && (DuplicateReservation(ip, count) in DuplicateErrors(seen, |seen|) <==>
            count > 1 && count == Multiplicity(rs, |rs|, ip))
      && (count > 1 && count == Multiplicity(rs, |rs|, ip) ==> !ReservedOnce(rs))
  {
    var seen := Tally(rs, |rs|);
    TallyCounts(rs, |rs|, ip);
    DuplicateErrorsExact(seen, |seen|);
    WeightIsMembership(seen, ip, count);
    MultiplicityMeaning(rs, |rs|, ip);
    assert (exists i :: 0 <= i < |seen| && seen[i] == Seen(ip, count)) <==> Seen(ip, count) in seen;
  }

  /** No error in the list is about over-reservation. */
  ghost predicate Unrelated(errs: seq<ScopeError>) {
    forall e :: e in errs ==> !e.DuplicateReservation?
  }

  lemma {:induction false} PoolErrorsUnrelated(s: Scope, n: nat)
    requires n <= |s.pools|
    ensures Unrelated(PoolErrors(s, n))
  {
    if n == 0 {
    } else {
      PoolErrorsUnrelated(s, n - 1);
    }
  }

  lemma {:induction false} OverlapsOfUnrelated(pools: seq<Range>, i: nat, n: nat)
    requires i < n <= |pools|
    ensures Unrelated(OverlapsOf(pools, i, n))
  {
    if n > i + 1 { OverlapsOfUnrelated(pools, i, n - 1); }
  }

  lemma {:induction false} OverlapErrorsUnrelated(pools: seq<Range>, n: nat)
    requires n <= |pools|
    ensures Unrelated(OverlapErrors(pools, n))
  {
    hide OverlapsOf;
    if n == 0 {
    } else {
      OverlapErrorsUnrelated(pools, n - 1);
      OverlapsOfUnrelated(pools, n - 1, |pools|);
    }
  }

  lemma {:induction false} ReservationErrorsUnrelated(s: Scope, n: nat)
    requires n <= |s.reservations|
    ensures Unrelated(ReservationErrors(s, n))
  {
    if n == 0 {
    } else {
      ReservationErrorsUnrelated(s, n - 1);
    }
  }

  function Tallied(s: Scope): seq<ScopeError> {
    var seen := Tally(s.reservations, |s.reservations|);
    DuplicateErrors(seen, |seen|)
  }

  lemma {:induction false} NetworkErrorsUnrelated(s: Scope)
    ensures Unrelated(NetworkErrors(s))
  {
  }

  /** The report is the over-reservations between two unrelated parts. */
  lemma {:induction false} ReportShape(s: Scope) returns (pre: seq<ScopeError>, post: seq<ScopeError>)
    requires s.prefix <= 32
    ensures ValidateErrors(s) == pre + Tallied(s) + post
    ensures Unrelated(pre) && Unrelated(post)
  {
    hide NetworkErrors, PoolErrors, OverlapErrors, ReservationErrors, DuplicateErrors, Tally;
    hide Scope.Capacity, Scope.Contains;
    var r := ReservationErrors(s, |s.reservations|);
    NetworkErrorsUnrelated(s);
    PoolErrorsUnrelated(s, |s.pools|);
    OverlapErrorsUnrelated(s.pools, |s.pools|);
    ReservationErrorsUnrelated(s, |s.reservations|);
    pre := RangeErrors(s) + r;
    post := GatewayErrors(s) + LeaseErrors(s) + UsableErrors(s);
    Regroup(RangeErrors(s), r, Tallied(s), GatewayErrors(s) + LeaseErrors(s), UsableErrors(s));
  }

  lemma {:induction false} Regroup<T>(a: seq<T>, b: seq<T>, c: seq<T>, d: seq<T>, e: seq<T>)
    ensures a + (b + c) + d + e == (a + b) + c + (d + e)
  {
  }

  /** An address is reported as over-reserved exactly when several reservations name
      it, and with their exact number. */
  lemma {:induction false} OverReservationReported(s: Scope, ip: Ip, count: nat)
    requires s.prefix <= 32
    ensures DuplicateReservation(ip, count) in ValidateErrors(s) <==>
      count > 1 && count == Multiplicity(s.reservations, |s.reservations|, ip)
  {
    var pre, post := ReportShape(s);
    OverReserved(s.reservations, ip, count);
  }

  /** The whole report names an over-reserved address once. */
  lemma {:induction false} OverReservationReportedOnce(s: Scope, i: nat, j: nat)
    requires i < j < |ValidateErrors(s)|
    requires ValidateErrors(s)[i].DuplicateReservation? && ValidateErrors(s)[j].DuplicateReservation?
    ensures ValidateErrors(s)[i].ip != ValidateErrors(s)[j].ip
  {
    var pre, post := ReportShape(s);
    var dups := Tallied(s);
    var errs := pre + dups + post;
    TallyCounts(s.reservations, |s.reservations|, UNSPECIFIED);
    DuplicatesDistinct(Tally(s.reservations, |s.reservations|), |Tally(s.reservations, |s.reservations|)|);
    assert forall k :: 0 <= k < |pre| ==> errs[k] in pre;
    assert forall k :: |pre| + |dups| <= k < |errs| ==> errs[k] in post;
  }
}
