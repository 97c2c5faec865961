/** Client identities and closed IPv4 ranges. */
module Addr {
  import opened Prelude

  type MacAddr = m: seq<Byte> | |m| == 6 witness [0, 0, 0, 0, 0, 0]

  const MAC_ZERO: MacAddr := [0, 0, 0, 0, 0, 0]

  const HTYPE_ETHERNET: Byte := 1

  datatype ClientId =
    | Opt61(raw: seq<Byte>)
    | Mac(mac: MacAddr)

  function MacFromSlice(bytes: seq<Byte>): Option<MacAddr> {
    if |bytes| < 6 then None else Some(bytes[..6])
  }

  /** Option 61 first, then the hardware address; the form `01` + MAC counts as that MAC. */
  function FromParts(opt61: Option<seq<Byte>>, mac: MacAddr): ClientId {
    match opt61
    case Some(raw) =>
      if |raw| == 7 && raw[0] == HTYPE_ETHERNET then Mac(raw[1..])
      else if raw != [] then Opt61(raw)
      else Mac(mac)
    case None => Mac(mac)
  }

  /** Two option 61 values name one client iff they are equal; a value names the
      client of hardware address `m` iff it is the Ethernet form of `m`. */
  lemma {:induction false} FromPartsSeparatesClients(a: seq<Byte>, b: seq<Byte>, m: MacAddr, n: MacAddr)
    requires a != [] && b != []
    ensures FromParts(Some(a), m) == FromParts(Some(b), n) <==> a == b
    ensures FromParts(Some(a), m) == FromParts(None, n) <==> a == [HTYPE_ETHERNET] + n
    ensures FromParts(Some([]), m) == FromParts(None, m)
  {
    assert |a| == 7 ==> a == [a[0]] + a[1..];
    assert |b| == 7 ==> b == [b[0]] + b[1..];
    assert ([HTYPE_ETHERNET] + n)[1..] == n;
  }

  /** A closed interval of addresses. Only `New` refuses an inverted one. */
  datatype Range = Range(start: Ip, end: Ip) {
    static function New(start: Ip, end: Ip): Option<Range> {
      if start <= end then Some(Range(start, end)) else None
    }

    predicate Contains(ip: Ip) {
      ip >= start && ip <= end
    }

    function Len(): nat
      requires start <= end
    {
      end - start + 1
    }

    predicate Overlaps(other: Range) {
      start <= other.end && other.start <= end
    }

    function Iter(): (r: seq<Ip>)
      ensures forall ip :: ip in r <==> Contains(ip)
      ensures NoDuplicates(r)
    {
      if start > end then []
      else
        var r := seq<Ip>(end - start + 1, i requires 0 <= i <= end - start => start + i);
        assert forall ip: Ip | Contains(ip) :: r[ip - start] == ip;
        r
    }
  }

  /** Two non-inverted ranges overlap iff they share an address, and the
      iterator yields exactly `Len` addresses in ascending order. */
  lemma {:induction false} RangeLaws(a: Range, b: Range)
    requires a.start <= a.end && b.start <= b.end
    ensures a.Overlaps(b) <==> exists ip: Ip :: a.Contains(ip) && b.Contains(ip)
    ensures |a.Iter()| == a.Len()
    ensures forall i, j :: 0 <= i < j < |a.Iter()| ==> a.Iter()[i] < a.Iter()[j]
  {
    if a.Overlaps(b) {
      var ip := if a.start <= b.start then b.start else a.start;
      assert a.Contains(ip) && b.Contains(ip);
    }
  }
}
