/** A managed subnet and the settings handed out in it. */
module Scopes {
  import opened Prelude
  import opened Bits
  import opened Addr

  type ScopeId = U32

  datatype Reservation = Reservation(client: ClientId, ip: Ip, hostname: Option<string>)

  datatype Scope = Scope(
    id: ScopeId,
    name: string,
    enabled: bool,
    subnet: Ip,
    prefix: Byte,
    pools: seq<Range>,
    exclusions: seq<Range>,
    reservations: seq<Reservation>,
    router: Option<Ip>,
    dns: seq<Ip>,
    viaRelay: bool,
    leaseSecs: U32,
    offerSecs: U32,
    declineQuarantineSecs: U32)
  {
    function Mask(): U32 {
      Netmask(prefix)
    }

    function Broadcast(): Ip {
      OrFits(subnet, BitNot(Mask()));
      BitOr(subnet, BitNot(Mask()))
    }

    predicate Contains(ip: Ip) {
      BitAnd(ip, Mask()) == BitAnd(subnet, Mask())
    }

    /** The address may be handed out dynamically. */
    predicate IsPoolable(ip: Ip) {
      && (exists p :: p in pools && p.Contains(ip))
      && !(exists e :: e in exclusions && e.Contains(ip))
      && ip != subnet
      && ip != Broadcast()
    }

    function ReservationFor(client: ClientId): Option<Reservation> {
      FindReservation(reservations, client)
    }

    /** Some other client holds a reservation on the address. */
    predicate IsReservedForOther(ip: Ip, client: ClientId) {
      exists r :: r in reservations && r.ip == ip && r.client != client
    }

    /** All poolable addresses, pool by pool. */
    function PoolableAddrs(): (r: seq<Ip>)
      ensures forall ip :: ip in r <==> IsPoolable(ip)
    {
      Filter(ip => IsPoolable(ip), PoolAddrs(pools))
    }

    function Capacity(): nat {
      |PoolableAddrs()|
    }
  }

  function Netmask(prefix: Byte): U32 {
    if prefix >= 32 then U32_MAX else ShlMax(32 - prefix)
  }

  /** The number of leading ones of a contiguous mask. */
  function NetmaskToPrefix(mask: U32): nat {
    CountOnes(mask)
  }

  /** The first reservation naming the client. */
  function FindReservation(rs: seq<Reservation>, client: ClientId): (r: Option<Reservation>)
    ensures r.Some? ==> r.value in rs && r.value.client == client
    ensures r.None? ==> forall x :: x in rs ==> x.client != client
  {
    if rs == [] then None
    else if rs[0].client == client then Some(rs[0])
    else FindReservation(rs[1..], client)
  }

  /** The addresses of all pools, in configuration order. */
  function PoolAddrs(pools: seq<Range>): (r: seq<Ip>)
    ensures forall ip :: ip in r <==> exists p :: p in pools && p.Contains(ip)
  {
    if pools == [] then []
    else
      assert pools == [pools[0]] + pools[1..];
      pools[0].Iter() + PoolAddrs(pools[1..])
  }

  ghost predicate PoolsDisjoint(pools: seq<Range>) {
    forall i, j :: 0 <= i < j < |pools| ==> !pools[i].Overlaps(pools[j])
  }

  /** Disjoint pools list no address twice, so `Capacity` is the number of poolable addresses. */
  lemma {:induction false} PoolableAddrsExact(s: Scope, poolable: set<Ip>)
    requires PoolsDisjoint(s.pools)
    requires forall ip :: ip in poolable <==> s.IsPoolable(ip)
    ensures NoDuplicates(s.PoolableAddrs())
    ensures s.Capacity() == |poolable|
  {
    PoolAddrsDistinct(s.pools);
    NoDuplicatesCardinality(s.PoolableAddrs());
    assert ToSet(s.PoolableAddrs()) == poolable;
  }

  lemma {:induction false} PoolAddrsDistinct(pools: seq<Range>)
    requires PoolsDisjoint(pools)
    ensures NoDuplicates(PoolAddrs(pools))
  {
    if pools == [] {
    } else {
      var head, tail := pools[0].Iter(), PoolAddrs(pools[1..]);
      PoolAddrsDistinct(pools[1..]);
      forall p | p in pools[1..]
        ensures !pools[0].Overlaps(p)
      {
        var j :| 0 <= j < |pools[1..]| && pools[1..][j] == p;
        assert pools[j + 1] == p;
      }
      assert PoolAddrs(pools) == head + tail;
      NoDuplicatesConcat(head, tail);
    }
  }

  /** `x` comes before `y` in the pools: in an earlier one, or lower in the same one. */
  ghost predicate Precedes(pools: seq<Range>, x: Ip, y: Ip) {
    forall i, j :: 0 <= i < |pools| && 0 <= j < |pools| && pools[i].Contains(x) && pools[j].Contains(y) ==>
      i < j || (i == j && x < y)
  }

  lemma {:induction false} OnlyInFirst(pools: seq<Range>, x: Ip)
    requires PoolsDisjoint(pools) && pools != [] && pools[0].Contains(x)
    ensures forall i :: 0 < i < |pools| ==> !pools[i].Contains(x)
  {
  }

  lemma {:induction false} NotInFirst(pools: seq<Range>, x: Ip)
    requires PoolsDisjoint(pools) && pools != [] && x in PoolAddrs(pools[1..])
    ensures !pools[0].Contains(x)
  {
    var p :| p in pools[1..] && p.Contains(x);
    var i :| 0 <= i < |pools[1..]| && pools[1..][i] == p;
    assert pools[i + 1].Contains(x);
    if pools[0].Contains(x) {
      OnlyInFirst(pools, x);
    }
  }

  /** An address of the first pool comes before the higher ones there and all in later pools. */
  lemma {:induction false} FirstPoolPrecedes(pools: seq<Range>, x: Ip, y: Ip)
    requires PoolsDisjoint(pools) && pools != [] && pools[0].Contains(x)
    requires pools[0].Contains(y) ==> x < y
    ensures Precedes(pools, x, y)
  {
    hide PoolsDisjoint, Range.Contains;
    OnlyInFirst(pools, x);
    if pools[0].Contains(y) {
      OnlyInFirst(pools, y);
    }
  }

  lemma {:induction false} LaterPoolsPrecede(pools: seq<Range>, x: Ip, y: Ip)
    requires pools != [] && !pools[0].Contains(x) && !pools[0].Contains(y)
    requires Precedes(pools[1..], x, y)
    ensures Precedes(pools, x, y)
  {
    hide Range.Contains;
    forall i, j | 0 <= i < |pools| && 0 <= j < |pools| && pools[i].Contains(x) && pools[j].Contains(y)
      ensures i < j || (i == j && x < y)
    {
      assert pools[1..][i - 1] == pools[i] && pools[1..][j - 1] == pools[j];
    }
  }

  lemma {:induction false} IterAscends(r: Range, m: nat, n: nat)
    requires m < |r.Iter()|
    ensures r.Contains(r.Iter()[m])
    ensures m < n < |r.Iter()| ==> r.Contains(r.Iter()[n]) && r.Iter()[m] < r.Iter()[n]
  {
    assert r.Iter()[m] in r.Iter();
    if n < |r.Iter()| {
      assert r.Iter()[n] in r.Iter();
    }
  }

  lemma {:induction false} PoolAddrsSplit(pools: seq<Range>)
    requires PoolsDisjoint(pools) && PoolAddrs(pools) != []
    ensures pools != [] && PoolAddrs(pools) == pools[0].Iter() + PoolAddrs(pools[1..])
    ensures PoolsDisjoint(pools[1..])
  {
    hide Range.Iter, Range.Contains;
  }

  lemma {:induction false} PoolAddrsInOrder(pools: seq<Range>, m: nat, n: nat)
    requires PoolsDisjoint(pools) && m < n < |PoolAddrs(pools)|
    ensures Precedes(pools, PoolAddrs(pools)[m], PoolAddrs(pools)[n])
    decreases |pools|
  {
    hide *;
    PoolAddrsSplit(pools);
    var head, tail, all := pools[0].Iter(), PoolAddrs(pools[1..]), PoolAddrs(pools);
    if n >= |head| {
      assert all[n] == tail[n - |head|] && all[n] in tail;
      NotInFirst(pools, all[n]);
    }
    if m < |head| {
      assert all[m] == head[m];
      IterAscends(pools[0], m, n);
      assert n < |head| ==> all[n] == head[n];
      FirstPoolPrecedes(pools, all[m], all[n]);
    } else {
      assert all[m] == tail[m - |head|] && all[m] in tail;
      NotInFirst(pools, all[m]);
      PoolAddrsInOrder(pools[1..], m - |head|, n - |head|);
      LaterPoolsPrecede(pools, all[m], all[n]);
    }
  }

  /** Disjoint pools are listed in configuration order, each from its lowest address up. */
  lemma {:induction false} PoolableAddrsInOrder(s: Scope, m: nat, n: nat)
    requires PoolsDisjoint(s.pools) && m < n < |s.PoolableAddrs()|
    ensures Precedes(s.pools, s.PoolableAddrs()[m], s.PoolableAddrs()[n])
  {
    hide Filter, PoolAddrs, Precedes, Scope.IsPoolable;
    var i, j := FilterKeepsOrder(ip => s.IsPoolable(ip), PoolAddrs(s.pools), m, n);
    PoolAddrsInOrder(s.pools, i, j);
  }

  // ----- CIDR arithmetic -----

  /** The number of addresses under a prefix. */
  function BlockSize(prefix: Byte): nat
    requires prefix <= 32
  {
    Pow2(32 - prefix)
  }

  lemma {:induction false} OrFits(a: U32, b: U32)
    ensures BitOr(a, b) <= U32_MAX
  {
    Pow2At32();
    OrBelow(a, b, 32);
  }

  lemma {:induction false} OrBelow(a: nat, b: nat, w: nat)
    requires a < Pow2(w) && b < Pow2(w)
    ensures BitOr(a, b) < Pow2(w)
  {
    if w == 0 {
    } else {
      OrBelow(a / 2, b / 2, w - 1);
    }
  }

  lemma {:induction false} NetmaskValue(prefix: Byte)
    requires prefix <= 32
    ensures BlockSize(prefix) <= 0x1_0000_0000
    ensures Netmask(prefix) == 0x1_0000_0000 - BlockSize(prefix)
  {
    ShlMaxValue(32 - prefix);
  }

  /** `count_ones` inverts `netmask` on every prefix. */
  lemma {:induction false} NetmaskRoundTrip(prefix: Byte)
    requires prefix <= 32
    ensures NetmaskToPrefix(Netmask(prefix)) == prefix
  {
    hide CountOnes, Netmask, Pow2;
    NetmaskValue(prefix);
    Pow2At32();
    OnesInMask(32, 32 - prefix);
  }

  /** Masking an address clears its host part, and the complement keeps only that. */
  lemma {:induction false} MaskedAddress(ip: Ip, prefix: Byte)
    requires prefix <= 32
    ensures BitAnd(ip, Netmask(prefix)) == Cleared(ip, 32 - prefix)
    ensures BitAnd(ip, BitNot(Netmask(prefix))) == HostPart(ip, prefix)
  {
    hide BitAnd, Netmask, Pow2, LowBits, Cleared;
    NetmaskValue(prefix);
    Pow2At32();
    AndWithMask(ip, 32, 32 - prefix);
    AndLowOnes(ip, 32 - prefix);
  }

  /** The bits below the prefix. */
  function HostPart(ip: Ip, prefix: Byte): nat
    requires prefix <= 32
  {
    LowBits(ip, 32 - prefix)
  }

  lemma {:induction false} BroadcastEndsBlock(s: Scope)
    requires s.prefix <= 32
    ensures s.Broadcast() == Cleared(s.subnet, 32 - s.prefix) + BlockSize(s.prefix) - 1
  {
    NetmaskValue(s.prefix);
    OrWithLowOnes(s.subnet, 32 - s.prefix);
  }

  /** The masked-equality test is the interval test between the network and the
      broadcast address, for every prefix and every network address; and the whole
      block fits in 32 bits. */
  lemma {:induction false} ContainsIsInterval(s: Scope, ip: Ip)
    requires s.prefix <= 32 && HostPart(s.subnet, s.prefix) == 0
    ensures s.Broadcast() == s.subnet + BlockSize(s.prefix) - 1
    ensures s.Contains(ip) <==> s.subnet <= ip <= s.Broadcast()
  {
    BroadcastEndsBlock(s);
    MaskedAddress(ip, s.prefix);
    MaskedAddress(s.subnet, s.prefix);
    ClearedIsBlockStart(ip, s.subnet, 32 - s.prefix);
  }

  /** Testing a range's endpoints places the whole range. */
  lemma {:induction false} EndpointsPlaceRange(s: Scope, r: Range, ip: Ip)
    requires s.prefix <= 32 && HostPart(s.subnet, s.prefix) == 0
    requires s.Contains(r.start) && s.Contains(r.end) && r.Contains(ip)
    ensures s.Contains(ip)
  {
    ContainsIsInterval(s, r.start);
    ContainsIsInterval(s, r.end);
    ContainsIsInterval(s, ip);
  }

  /** Two CIDR blocks are nested or disjoint, whatever their sizes. */
  lemma {:induction false} BlocksNestedOrDisjoint(a: Scope, b: Scope, shared: Ip, ip: Ip)
    requires a.prefix <= b.prefix <= 32
    requires a.Contains(shared) && b.Contains(shared) && b.Contains(ip)
    ensures a.Contains(ip)
  {
    MaskedAddress(shared, a.prefix);
    MaskedAddress(a.subnet, a.prefix);
    MaskedAddress(ip, a.prefix);
    MaskedAddress(shared, b.prefix);
    MaskedAddress(b.subnet, b.prefix);
    MaskedAddress(ip, b.prefix);
    ClearedCoarser(ip, shared, 32 - b.prefix, 32 - a.prefix);
  }
}
