/** The host addresses of a network, as the device scan enumerates them. */
module Discovery {
  import opened Prelude
  import opened Bits
  import opened Scopes

  function NetworkOf(addr: Ip, prefix: Byte): Ip {
    AndFits(addr, Netmask(prefix));
    BitAnd(addr, Netmask(prefix))
  }

  function BroadcastOf(addr: Ip, prefix: Byte): Ip {
    OrFits(NetworkOf(addr, prefix), BitNot(Netmask(prefix)));
    BitOr(NetworkOf(addr, prefix), BitNot(Netmask(prefix)))
  }

  lemma {:induction false} AndFits(a: nat, b: nat)
    ensures BitAnd(a, b) <= a
  {
    if a == 0 {
    } else {
      AndFits(a / 2, b / 2);
    }
  }

  /** The address after the network address, in 32-bit arithmetic. */
  function FirstHost(addr: Ip, prefix: Byte): Ip {
    (NetworkOf(addr, prefix) + 1) % 0x1_0000_0000
  }

  function Hosts(addr: Ip, prefix: Byte): seq<Ip> {
    var first, last := FirstHost(addr, prefix), BroadcastOf(addr, prefix);
    if last <= first then []
    else seq<Ip>(last - first, i requires 0 <= i < last - first => first + i)
  }

  /** Prefixes beyond 32 are read as 32. */
  function Effective(prefix: Byte): Byte {
    if prefix > 32 then 32 else prefix
  }

  lemma {:induction false} EffectiveSuffices(addr: Ip, prefix: Byte)
    ensures NetworkOf(addr, prefix) == NetworkOf(addr, Effective(prefix))
    ensures BroadcastOf(addr, prefix) == BroadcastOf(addr, Effective(prefix))
  {
  }

  /** The scan's network and broadcast addresses are those of the scope around the address. */
  lemma {:induction false} NetworkEnclosesAddress(addr: Ip, prefix: Byte)
    ensures NetworkOf(addr, prefix) <= addr <= BroadcastOf(addr, prefix)
    ensures BroadcastOf(addr, prefix) == NetworkOf(addr, prefix) + BlockSize(Effective(prefix)) - 1
    ensures HostPart(NetworkOf(addr, prefix), Effective(prefix)) == 0
  {
    EffectiveSuffices(addr, prefix);
    hide NetworkOf, BroadcastOf;
    BlockAround(addr, Effective(prefix));
  }

  lemma {:induction false} BlockAround(addr: Ip, prefix: Byte)
    requires prefix <= 32
    ensures NetworkOf(addr, prefix) <= addr <= BroadcastOf(addr, prefix)
    ensures BroadcastOf(addr, prefix) == NetworkOf(addr, prefix) + BlockSize(prefix) - 1
    ensures HostPart(NetworkOf(addr, prefix), prefix) == 0
  {
    var h := 32 - prefix;
    NetworkIsCleared(addr, prefix);
    NetmaskValue(prefix);
    ClearedIsAligned(addr, h);
    hide NetworkOf;
    OrWithLowOnes(NetworkOf(addr, prefix), h);
    ClearedIsBlockStart(addr, NetworkOf(addr, prefix), h);
  }

  lemma {:induction false} NetworkIsCleared(addr: Ip, prefix: Byte)
    requires prefix <= 32
    ensures NetworkOf(addr, prefix) == Cleared(addr, 32 - prefix)
  {
    MaskedAddress(addr, prefix);
  }

  lemma {:induction false} ClearedHalves(x: nat, h: nat)
    requires h > 0
    ensures Cleared(x, h) == 2 * Cleared(x / 2, h - 1)
  {
  }

  lemma {:induction false} ClearedIsAligned(x: nat, h: nat)
    ensures LowBits(Cleared(x, h), h) == 0
    decreases h
  {
    if h == 0 {
    } else {
      hide Cleared;
      var c := Cleared(x / 2, h - 1);
      ClearedIsAligned(x / 2, h - 1);
      ClearedHalves(x, h);
      assert LowBits(2 * c, h) == 2 * c % 2 + 2 * LowBits(2 * c / 2, h - 1);
      assert 2 * c / 2 == c;
    }
  }

  lemma {:induction false} HostsMembership(addr: Ip, prefix: Byte, ip: Ip)
    ensures ip in Hosts(addr, prefix) <==> FirstHost(addr, prefix) <= ip < BroadcastOf(addr, prefix)
  {
    hide FirstHost, BroadcastOf;
    var first, last := FirstHost(addr, prefix), BroadcastOf(addr, prefix);
    if first <= ip < last {
      assert Hosts(addr, prefix)[ip - first] == ip;
    }
  }

  /** The address lies strictly between the network and the broadcast address. */
  predicate IsInterior(addr: Ip, prefix: Byte, ip: Ip) {
    NetworkOf(addr, prefix) < ip < BroadcastOf(addr, prefix)
  }

  lemma {:induction false} HostsOrdinary(addr: Ip, prefix: Byte, ip: Ip)
    requires !(prefix >= 32 && addr == U32_MAX)
    ensures ip in Hosts(addr, prefix) <==> IsInterior(addr, prefix, ip)
  {
    hide Hosts, NetworkOf, BroadcastOf, BlockSize, HostPart;
    NetworkEnclosesAddress(addr, prefix);
    HostsMembership(addr, prefix, ip);
    SmallBlocks(prefix);
  }

  lemma {:induction false} SmallBlocks(prefix: Byte)
    ensures if prefix >= 32 then BlockSize(Effective(prefix)) == 1 else BlockSize(Effective(prefix)) >= 2
  {
  }

  lemma {:induction false} HostsOfLastAddress(prefix: Byte)
    requires prefix >= 32
    ensures 0 in Hosts(U32_MAX, prefix) && !IsInterior(U32_MAX, prefix, 0)
  {
    hide Hosts, NetworkOf, BroadcastOf, BlockSize, HostPart;
    NetworkEnclosesAddress(U32_MAX, prefix);
    HostsMembership(U32_MAX, prefix, 0);
    SmallBlocks(prefix);
  }

  /** The scan lists exactly the addresses strictly between the network and the broadcast
      address, unless it is asked about the single address 255.255.255.255: there the
      successor wraps to zero and it lists every other address there is. */
  lemma {:induction false} HostsAreInterior(addr: Ip, prefix: Byte)
    ensures (forall ip: Ip :: ip in Hosts(addr, prefix) <==> IsInterior(addr, prefix, ip)) <==>
      !(prefix >= 32 && addr == U32_MAX)
  {
    hide Hosts, IsInterior;
    if prefix >= 32 && addr == U32_MAX {
      HostsOfLastAddress(prefix);
    } else {
      forall ip: Ip
        ensures ip in Hosts(addr, prefix) <==> IsInterior(addr, prefix, ip)
      {
        HostsOrdinary(addr, prefix, ip);
      }
    }
  }
}
