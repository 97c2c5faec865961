/** The two hand-written option walkers, against the grammars they are meant to read. */
module Walkers {
  import opened Prelude

  type Bytes = seq<Byte>

  // ----- Option 77: user classes (section 4 of RFC 3004) -----

  /** `iPXE` */
  const IPXE: Bytes := [105, 80, 88, 69]

  /** ASCII letters lose their case; every other byte stays. */
  function Lower(b: Byte): Byte {
    if 65 <= b <= 90 then b + 32 else b
  }

  predicate SameIgnoringCase(a: Bytes, b: Bytes) {
    |a| == |b| && forall i :: 0 <= i < |a| ==> Lower(a[i]) == Lower(b[i])
  }

  /** What counts as iPXE: those four letters in any case, and nothing else. */
  lemma {:induction false} IpxeInAnyCase(c: Bytes)
    ensures SameIgnoringCase(c, IPXE) <==>
      && |c| == 4
      && (c[0] == 'i' as int || c[0] == 'I' as int) && (c[1] == 'p' as int || c[1] == 'P' as int)
      && (c[2] == 'x' as int || c[2] == 'X' as int) && (c[3] == 'e' as int || c[3] == 'E' as int)
  {
    if |c| == 4 {
      assert SameIgnoringCase(c, IPXE) <==>
        Lower(c[0]) == 105 && Lower(c[1]) == 112 && Lower(c[2]) == 120 && Lower(c[3]) == 101;
    }
  }

  /** The walk over length-prefixed strings from position `i`. */
  predicate WalkClasses(raw: Bytes, i: nat)
    decreases |raw| - i
  {
    i < |raw| &&
    var n := raw[i];
    n != 0 && i + 1 + n <= |raw| &&
    (SameIgnoringCase(raw[i + 1..i + 1 + n], IPXE) || WalkClasses(raw, i + 1 + n))
  }

  method UserClassHasIpxe(raw: Bytes) returns (found: bool)
    ensures found <==> SameIgnoringCase(raw, IPXE) || WalkClasses(raw, 0)
  {
    if SameIgnoringCase(raw, IPXE) {
      return true;
    }
    var i := 0;
    while i < |raw|
      invariant 0 <= i <= |raw|
      invariant WalkClasses(raw, i) <==> WalkClasses(raw, 0)
    {
      var n := raw[i];
      if n == 0 || i + 1 + n > |raw| {
        return false;
      }
      if SameIgnoringCase(raw[i + 1..i + 1 + n], IPXE) {
        return true;
      }
      i := i + 1 + n;
    }
    found := false;
  }

  /** One user class: a non-empty string whose length fits its prefix byte. */
  type Class = c: Bytes | 0 < |c| <= 255 witness [0]

  function EncodeClasses(items: seq<Class>): Bytes {
    if items == [] then [] else [|items[0]|] + items[0] + EncodeClasses(items[1..])
  }

  ghost predicate MentionsIpxe(items: seq<Class>) {
    exists c :: c in items && SameIgnoringCase(c, IPXE)
  }

  /** One step of the walk reads one class. */
  lemma {:induction false} WalkReadsItem(before: Bytes, c: Class, rest: Bytes)
    ensures WalkClasses(before + ([|c|] + c) + rest, |before|) <==>
      SameIgnoringCase(c, IPXE) || WalkClasses(before + ([|c|] + c) + rest, |before| + 1 + |c|)
  {
    var raw, i := before + ([|c|] + c) + rest, |before|;
    assert raw[i] == |c| && raw[i + 1..i + 1 + |c|] == c;
  }

  lemma {:induction false} WalkReadsItems(before: Bytes, items: seq<Class>)
    ensures WalkClasses(before + EncodeClasses(items), |before|) <==> MentionsIpxe(items)
    decreases |items|
  {
    hide SameIgnoringCase, WalkClasses, MentionsIpxe;
    if items == [] {
      NothingToWalk(before);
    } else {
      EncodeFirstAndRest(before, items);
      WalkReadsItem(before, items[0], EncodeClasses(items[1..]));
      WalkReadsItems(before + ([|items[0]|] + items[0]), items[1..]);
      MentionsFirstOrRest(items);
    }
  }

  lemma {:induction false} NothingToWalk(before: Bytes)
    ensures !WalkClasses(before + EncodeClasses([]), |before|) && !MentionsIpxe([])
  {
  }

  lemma {:induction false} EncodeFirstAndRest(before: Bytes, items: seq<Class>)
    requires items != []
    ensures before + EncodeClasses(items) == before + ([|items[0]|] + items[0]) + EncodeClasses(items[1..])
  {
    Reassociate(before, [|items[0]|] + items[0], EncodeClasses(items[1..]), []);
  }

  lemma {:induction false} MentionsFirstOrRest(items: seq<Class>)
    requires items != []
    ensures MentionsIpxe(items) <==> SameIgnoringCase(items[0], IPXE) || MentionsIpxe(items[1..])
  {
    assert items == [items[0]] + items[1..];
  }

  /** On every encoded list of user classes the test finds iPXE exactly when some class
      is `iPXE` in any case; on a bare string it finds it when the string is. */
  lemma {:induction false} IpxeTestIsExact(items: seq<Class>)
    ensures var raw := EncodeClasses(items);
      (SameIgnoringCase(raw, IPXE) || WalkClasses(raw, 0)) <==> MentionsIpxe(items)
  {
    WalkReadsItems([], items);
    assert [] + EncodeClasses(items) == EncodeClasses(items);
    if items != [] {
      assert EncodeClasses(items)[0] == |items[0]|;
      assert |EncodeClasses(items)| >= 1 + |items[0]|;
    }
  }

  // ----- Option 53 in a reply (section 2 of RFC 2132) -----

  const COOKIE: Bytes := [0x63, 0x82, 0x53, 0x63]

  const HEADER: nat := 240

  function BigEndian32(b: Bytes): U32
    requires |b| == 4
  {
    (b[0] as int) * 0x100_0000 + (b[1] as int) * 0x1_0000 + (b[2] as int) * 0x100 + b[3]
  }

  function ToBigEndian32(x: U32): (b: Bytes)
    ensures |b| == 4 && BigEndian32(b) == x
  {
    var hi, lo := x / 0x1_0000, x % 0x1_0000;
    [hi / 0x100, hi % 0x100, lo / 0x100, lo % 0x100]
  }

  /** OFFER or ACK. */
  predicate IsReplyType(b: Byte) {
    b == 2 || b == 5
  }

  /** The walk over options from position `i`. */
  predicate WalkOptions(buf: Bytes, i: nat)
    decreases |buf| - i
  {
    if i >= |buf| || buf[i] == 0xff then false
    else if buf[i] == 0 then WalkOptions(buf, i + 1)
    else if i + 1 >= |buf| then false
    else if buf[i] == 53 then i + 2 < |buf| && IsReplyType(buf[i + 2])
    else WalkOptions(buf, i + 2 + buf[i + 1])
  }

  predicate IsReplyTo(buf: Bytes, xid: U32) {
    && |buf| >= HEADER + 1 && buf[0] == 2
    && BigEndian32(buf[4..8]) == xid
    && buf[236..240] == COOKIE
    && WalkOptions(buf, HEADER)
  }

  method CheckReply(buf: Bytes, xid: U32) returns (ok: bool)
    ensures ok <==> IsReplyTo(buf, xid)
  {
    if |buf| < 241 || buf[0] != 2 {
      return false;
    }
    if BigEndian32(buf[4..8]) != xid {
      return false;
    }
    if buf[236..240] != COOKIE {
      return false;
    }
    var i := 240;
    while i < |buf| && buf[i] != 0xff
      invariant 240 <= i
      invariant WalkOptions(buf, i) <==> WalkOptions(buf, HEADER)
      decreases |buf| - i
    {
      if buf[i] == 0 {
        i := i + 1;
        continue;
      }
      if i + 1 >= |buf| {
        break;
      }
      var len := buf[i + 1];
      if buf[i] == 53 {
        return i + 2 < |buf| && IsReplyType(buf[i + 2]);
      }
      i := i + 2 + len;
    }
    ok := false;
  }

  /** One entry of an option field. */
  datatype Entry = Pad | Opt(code: Byte, data: Bytes)

  predicate WellFormedEntry(e: Entry) {
    e.Opt? ==> e.code != 0 && e.code != 0xff && |e.data| <= 255
  }

  type Field = es: seq<Entry> | forall e :: e in es ==> WellFormedEntry(e)

  function EncodeEntry(e: Entry): Bytes
    requires WellFormedEntry(e)
  {
    match e
    case Pad => [0]
    case Opt(code, data) => [code, |data|] + data
  }

  function EncodeField(es: Field): Bytes {
    if es == [] then [] else EncodeEntry(es[0]) + EncodeField(es[1..])
  }

  predicate IsMessageType(e: Entry) {
    e.Opt? && e.code == 53
  }

  /** The value of the first option 53. */
  function FirstMessageType(es: Field): Option<Bytes> {
    if es == [] then None
    else if IsMessageType(es[0]) then Some(es[0].data)
    else FirstMessageType(es[1..])
  }

  /** The first message type is OFFER or ACK. */
  predicate NamesReply(es: Field) {
    var t := FirstMessageType(es);
    t.Some? && t.value != [] && IsReplyType(t.value[0])
  }

  /** The first option 53 is empty and an option whose code is 2 or 5 follows at once. */
  predicate Misleads(es: Field) {
    es != [] &&
    if IsMessageType(es[0]) then
      es[0].data == [] && |es| > 1 && es[1].Opt? && IsReplyType(es[1].code)
    else Misleads(es[1..])
  }

  /** What follows the field: nothing, or an END option and anything at all. */
  predicate IsTail(tail: Bytes) {
    tail == [] || tail[0] == 0xff
  }

  /** One step of the walk reads one entry; a message type is judged by the byte after
      its length, whosever that is. */
  lemma {:induction false} WalkReadsEntry(before: Bytes, e: Entry, rest: Bytes)
    requires WellFormedEntry(e)
    ensures var next := before + EncodeEntry(e);
      WalkOptions(next + rest, |before|) <==>
        if IsMessageType(e) then e.data + rest != [] && IsReplyType((e.data + rest)[0])
        else WalkOptions(next + rest, |next|)
  {
    hide IsReplyType;
    if e.Pad? {
      assert (before + EncodeEntry(e) + rest)[|before|] == 0;
    } else {
      OptionBytes(before, e.code, e.data, rest);
      hide EncodeEntry;
    }
  }

  lemma {:induction false} OptionBytes(before: Bytes, code: Byte, data: Bytes, rest: Bytes)
    requires |data| <= 255 && code != 0 && code != 0xff
    ensures var next, i := before + EncodeEntry(Opt(code, data)), |before|;
      var buf := next + rest;
      && |next| == i + 2 + |data| <= |buf|
      && buf[i] == code && buf[i + 1] == |data|
      && (i + 2 < |buf| <==> data + rest != [])
      && (i + 2 < |buf| ==> buf[i + 2] == (data + rest)[0])
  {
    var buf := before + EncodeEntry(Opt(code, data)) + rest;
    assert buf == before + [code, |data|] + (data + rest);
  }

  /** The byte after an empty message type is the code of the option that follows. */
  lemma {:induction false} ByteAfterEntry(es: Field, tail: Bytes)
    requires IsTail(tail)
    ensures var rest := EncodeField(es) + tail;
      rest != [] && IsReplyType(rest[0]) <==> es != [] && es[0].Opt? && IsReplyType(es[0].code)
  {
    assert es == [] ==> EncodeField(es) + tail == tail;
    assert es != [] ==> (EncodeField(es) + tail)[0] == EncodeEntry(es[0])[0];
  }

  lemma {:induction false} WalkReadsField(before: Bytes, es: Field, tail: Bytes)
    requires IsTail(tail)
    ensures WalkOptions(before + EncodeField(es) + tail, |before|) <==> NamesReply(es) || Misleads(es)
    decreases |es|
  {
    hide WalkOptions, EncodeEntry, IsReplyType, IsTail;
    if es == [] {
      WalkStopsAtTail(before, tail);
      assert before + [] == before;
    } else {
      var entry, field := EncodeEntry(es[0]), EncodeField(es[1..]);
      Reassociate(before, entry, field, tail);
      WalkReadsEntry(before, es[0], field + tail);
      WalkReadsField(before + entry, es[1..], tail);
      Reassociate(before, entry, field, tail);
      ByteAfterEntry(es[1..], tail);
    }
  }

  lemma {:induction false} Reassociate(a: Bytes, b: Bytes, c: Bytes, d: Bytes)
    ensures a + (b + c) + d == (a + b) + (c + d)
    ensures (a + b) + c + d == (a + b) + (c + d)
    ensures a + (b + c) == (a + b) + c
  {
  }

  lemma {:induction false} WalkStopsAtTail(before: Bytes, tail: Bytes)
    requires IsTail(tail)
    ensures !WalkOptions(before + tail, |before|)
  {
    assert tail != [] ==> (before + tail)[|before|] == tail[0];
  }

  /** A reply header: opcode, transaction id and cookie are the right ones. */
  predicate HeaderMatches(header: Bytes, xid: U32)
    requires |header| == HEADER
  {
    header[0] == 2 && BigEndian32(header[4..8]) == xid && header[236..240] == COOKIE
  }

  /** On every well-formed message the reply test says whether the opcode, the transaction
      id and the cookie match and the first message type is OFFER or ACK; it is wrong
      exactly when they match and the first message type has no value and is followed
      by an option with code 2 or 5. */
  lemma {:induction false} ReplyTestIsExact(header: Bytes, es: Field, tail: Bytes, xid: U32)
    requires |header| == HEADER && IsTail(tail)
    ensures (IsReplyTo(header + EncodeField(es) + tail, xid) <==> HeaderMatches(header, xid) && NamesReply(es))
      <==> !(HeaderMatches(header, xid) && Misleads(es))
  {
    var buf := header + EncodeField(es) + tail;
    WalkReadsField(header, es, tail);
    NotBoth(es);
    assert buf[4..8] == header[4..8] && buf[236..240] == header[236..240];
  }

  lemma {:induction false} NotBoth(es: Field)
    ensures !(NamesReply(es) && Misleads(es))
  {
    if es == [] {
    } else {
      NotBoth(es[1..]);
    }
  }

  /** Such messages exist: whatever comes before it, an option 53 without a value passes
      for an OFFER when option 2 follows and for an ACK when option 5 does, although
      the message has no message type at all. */
  lemma {:induction false} EmptyTypeIsMisread(
      header: Bytes, before: Field, kind: Byte, data: Bytes, after: Field, tail: Bytes, xid: U32)
    requires |header| == HEADER && HeaderMatches(header, xid) && IsTail(tail)
    requires FirstMessageType(before).None? && (kind == 2 || kind == 5) && |data| <= 255
    ensures var es := before + [Opt(53, []), Opt(kind, data)] + after;
      IsReplyTo(header + EncodeField(es) + tail, xid) && FirstMessageType(es) == Some([])
  {
    MisleadsAfter(before, [Opt(53, []), Opt(kind, data)] + after);
    assert before + [Opt(53, []), Opt(kind, data)] + after == before + ([Opt(53, []), Opt(kind, data)] + after);
    ReplyTestIsExact(header, before + [Opt(53, []), Opt(kind, data)] + after, tail, xid);
  }

  /** Options before the first message type do not matter. */
  lemma {:induction false} MisleadsAfter(before: Field, es: Field)
    requires FirstMessageType(before).None?
    ensures Misleads(before + es) <==> Misleads(es)
    ensures FirstMessageType(before + es) == FirstMessageType(es)
    decreases |before|
  {
    if before == [] {
      assert before + es == es;
    } else {
      MisleadsAfter(before[1..], es);
      assert (before + es)[1..] == before[1..] + es;
    }
  }

  // ----- Our own probe -----

  function Zeros(n: nat): (r: Bytes)
    ensures |r| == n
  {
    seq(n, _ => 0)
  }

  /** The fixed part of a probe with the given opcode. */
  function ProbeHeader(op: Byte, xid: U32, mac: Bytes): (h: Bytes)
    requires |mac| == 6
    ensures |h| == HEADER
  {
    [op, 1, 6, 0] + ToBigEndian32(xid) + [0, 0] + [0x80, 0] + Zeros(16) + mac + Zeros(10) + Zeros(192) + COOKIE
  }

  /** Where the fields of a probe are (section 2 of RFC 2131): an Ethernet address of six
      bytes at offset 28, the transaction at 4, the broadcast flag at 10, and zeros in every
      other field before the cookie. */
  lemma {:induction false} ProbeLayout(op: Byte, xid: U32, mac: Bytes, i: nat)
    requires |mac| == 6 && i < HEADER
    ensures var h := ProbeHeader(op, xid, mac);
      && h[..4] == [op, 1, 6, 0] && BigEndian32(h[4..8]) == xid
      && h[10] == 0x80 && h[28..34] == mac && h[236..] == [0x63, 0x82, 0x53, 0x63]
      && (8 <= i < 10 || 11 <= i < 28 || 34 <= i < 236 ==> h[i] == 0)
  {
    var h := ProbeHeader(op, xid, mac);
    assert h[4..8] == ToBigEndian32(xid);
  }

  method BuildDiscover(xid: U32, mac: Bytes) returns (p: Bytes)
    requires |mac| == 6
    ensures p == ProbeHeader(1, xid, mac) + EncodeField([Opt(53, [1])]) + [0xff]
  {
    p := [1];
    p := p + [1];
    p := p + [6];
    p := p + [0];
    p := p + ToBigEndian32(xid);
    p := p + [0, 0];
    p := p + [0x80, 0];
    p := p + Zeros(16);
    p := p + mac;
    p := p + Zeros(10);
    p := p + Zeros(192);
    p := p + COOKIE;
    assert p == ProbeHeader(1, xid, mac);
    p := p + [53, 1, 1];
    p := p + [0xff];
    assert EncodeField([Opt(53, [1])]) == [53, 1, 1];
  }

  /** The probe is never taken for a reply, to any transaction; the same message as a
      BOOTREPLY of type OFFER or ACK is taken for the reply to exactly its own transaction. */
  lemma {:induction false} ProbeAndItsReply(xid: U32, mac: Bytes, kind: Byte, asked: U32)
    requires |mac| == 6
    ensures !IsReplyTo(ProbeHeader(1, xid, mac) + EncodeField([Opt(53, [1])]) + [0xff], asked)
    ensures IsReplyTo(ProbeHeader(2, xid, mac) + EncodeField([Opt(53, [kind])]) + [0xff], asked) <==>
      asked == xid && (kind == 2 || kind == 5)
  {
    ReplyTestIsExact(ProbeHeader(1, xid, mac), [Opt(53, [1])], [0xff], asked);
    ReplyTestIsExact(ProbeHeader(2, xid, mac), [Opt(53, [kind])], [0xff], asked);
    assert ProbeHeader(2, xid, mac)[4..8] == ToBigEndian32(xid);
    assert ProbeHeader(2, xid, mac)[236..240] == COOKIE;
  }
}
