/** Text forms of hardware addresses and client identities, as UTF-8 bytes. */
module Text {
  import opened Prelude
  import opened Addr

  type Text = seq<Byte>

  const COLON: Byte := 58
  const PLUS: Byte := 43

  /** `id:` */
  const ID_PREFIX: Text := [105, 100, 58]

  /** `opt61:` */
  const OPT61_PREFIX: Text := [111, 112, 116, 54, 49, 58]

  // ----- Hexadecimal digits -----

  /** The lower-case digit for a value below 16. */
  function Digit(v: Byte): Byte
    requires v < 16
  {
    if v < 10 then 48 + v else 87 + v
  }

  predicate IsHexDigit(c: Byte) {
    48 <= c <= 57 || 65 <= c <= 70 || 97 <= c <= 102
  }

  /** The value of a digit in either case. */
  function DigitValue(c: Byte): (v: Byte)
    requires IsHexDigit(c)
    ensures v < 16
  {
    if c <= 57 then c - 48 else if c <= 70 then c - 55 else c - 87
  }

  function LowerDigit(c: Byte): Byte
    requires IsHexDigit(c)
  {
    Digit(DigitValue(c))
  }

  /** `{b:02x}` */
  function HexByte(b: Byte): (r: Text)
    ensures |r| == 2 && IsHexDigit(r[0]) && IsHexDigit(r[1])
    ensures r[0] != PLUS && 16 * DigitValue(r[0]) + DigitValue(r[1]) == b
  {
    [Digit(b / 16), Digit(b % 16)]
  }

  /** `u8::from_str_radix(pair, 16)` on two characters: a leading plus sign is accepted. */
  function ParsePair(a: Byte, b: Byte): Option<Byte> {
    if a == PLUS && IsHexDigit(b) then Some(DigitValue(b))
    else if IsHexDigit(a) && IsHexDigit(b) then Some(16 * DigitValue(a) + DigitValue(b))
    else None
  }

  // ----- Byte strings in hexadecimal -----

  function HexEncode(bytes: seq<Byte>): (r: Text)
    ensures |r| == 2 * |bytes|
    ensures forall i :: 0 <= i < |r| ==> IsHexDigit(r[i])
  {
    if bytes == [] then [] else HexEncode(bytes[..|bytes| - 1]) + HexByte(bytes[|bytes| - 1])
  }

  /** Pairs `0..n` of the text. */
  function DecodePairs(s: Text, n: nat): Option<seq<Byte>>
    requires 2 * n <= |s|
  {
    if n == 0 then Some([])
    else
      match DecodePairs(s, n - 1)
      case None => None
      case Some(head) =>
        match ParsePair(s[2 * n - 2], s[2 * n - 1])
        case None => None
        case Some(b) => Some(head + [b])
  }

  function HexDecode(s: Text): Option<seq<Byte>> {
    if |s| % 2 != 0 then None else DecodePairs(s, |s| / 2)
  }

  method PrintHex(bytes: seq<Byte>) returns (out: Text)
    ensures out == HexEncode(bytes)
  {
    out := [];
    for i := 0 to |bytes|
      invariant out == HexEncode(bytes[..i])
    {
      out := out + HexByte(bytes[i]);
      assert bytes[..i + 1][..i] == bytes[..i];
    }
    assert bytes[..|bytes|] == bytes;
  }

  /** Decoding undoes encoding on every byte string. */
  lemma {:induction false} HexRoundTrip(bytes: seq<Byte>)
    ensures HexDecode(HexEncode(bytes)) == Some(bytes)
  {
    PairsOfEncoding(bytes, [], |bytes|);
    assert HexEncode(bytes) + [] == HexEncode(bytes);
    assert bytes[..|bytes|] == bytes;
  }

  lemma {:induction false} PairOfByte(b: Byte)
    ensures ParsePair(HexByte(b)[0], HexByte(b)[1]) == Some(b)
  {
    hide HexByte;
  }

  lemma {:induction false} PairsOfEncoding(bytes: seq<Byte>, rest: Text, n: nat)
    requires n == |bytes|
    ensures DecodePairs(HexEncode(bytes) + rest, n) == Some(bytes)
    decreases n
  {
    hide ParsePair, HexByte, DigitValue, Digit, IsHexDigit;
    if n == 0 {
    } else {
      var head, last := bytes[..n - 1], bytes[n - 1];
      PairOfByte(last);
      PairsOfEncoding(head, HexByte(last) + rest, n - 1);
      assert HexEncode(bytes) + rest == HexEncode(head) + (HexByte(last) + rest);
      assert bytes == head + [last];
    }
  }

  lemma {:induction false} HexEncodeInjective(a: seq<Byte>, b: seq<Byte>)
    requires HexEncode(a) == HexEncode(b)
    ensures a == b
  {
    HexRoundTrip(a);
    HexRoundTrip(b);
  }

  // ----- Hardware addresses -----

  /** `aa:bb:cc:dd:ee:ff` */
  function PrintMac(m: MacAddr): Text {
    HexByte(m[0]) + [COLON] + HexByte(m[1]) + [COLON] + HexByte(m[2]) + [COLON]
    + HexByte(m[3]) + [COLON] + HexByte(m[4]) + [COLON] + HexByte(m[5])
  }

  /** The hexadecimal digits of a text, in order. */
  function HexOnly(s: Text): (r: Text)
    ensures forall i :: 0 <= i < |r| ==> IsHexDigit(r[i])
  {
    if s == [] then [] else (if IsHexDigit(s[0]) then [s[0]] else []) + HexOnly(s[1..])
  }

  function ParseMac(s: Text): Option<MacAddr> {
    var hex := HexOnly(s);
    if |hex| != 12 then None
    else
      match DecodePairs(hex, 6)
      case Some(bytes) => if |bytes| == 6 then Some(bytes) else None
      case None => None
  }

  /** Fills the six bytes pair by pair. */
  method ReadMac(s: Text) returns (r: Option<MacAddr>)
    ensures r == ParseMac(s)
  {
    var hex := HexOnly(s);
    if |hex| != 12 {
      return None;
    }
    var out := new Byte[6](_ => 0);
    for i := 0 to 6
      invariant DecodePairs(hex, i) == Some(out[..i])
    {
      var b := ParsePair(hex[2 * i], hex[2 * i + 1]);
      if b.None? {
        assert false;
      } else {
        out[i] := b.value;
        assert out[..i + 1] == out[..i] + [b.value];
      }
    }
    assert out[..6] == out[..];
    r := Some(out[..]);
  }

  lemma {:induction false} HexOnlyConcat(a: Text, b: Text)
    ensures HexOnly(a + b) == HexOnly(a) + HexOnly(b)
  {
    if a == [] {
      assert a + b == b;
    } else {
      assert (a + b)[1..] == a[1..] + b;
      HexOnlyConcat(a[1..], b);
    }
  }

  lemma {:induction false} HexOnlyKeepsDigits(a: Text)
    requires forall i :: 0 <= i < |a| ==> IsHexDigit(a[i])
    ensures HexOnly(a) == a
  {
    if a == [] {
    } else {
      HexOnlyKeepsDigits(a[1..]);
    }
  }

  function Lowered(s: Text): Text
    requires forall i :: 0 <= i < |s| ==> IsHexDigit(s[i])
  {
    seq(|s|, i requires 0 <= i < |s| => LowerDigit(s[i]))
  }

  /** Decoding digits of either case is undone by encoding, up to case. */
  lemma {:induction false} DecodeThenEncode(s: Text, n: nat)
    requires 2 * n <= |s| && forall i :: 0 <= i < |s| ==> IsHexDigit(s[i])
    ensures DecodePairs(s, n).Some? && |DecodePairs(s, n).value| == n
    ensures HexEncode(DecodePairs(s, n).value) == Lowered(s[..2 * n])
  {
    hide ParsePair, HexByte, DigitValue, Digit;
    if n == 0 {
    } else {
      DecodeThenEncode(s, n - 1);
      var a, b := s[2 * n - 2], s[2 * n - 1];
      PairThenByte(a, b);
      var head, last := DecodePairs(s, n - 1).value, ParsePair(a, b).value;
      EncodeSnoc(head, last);
      LoweredSnoc(s, 2 * n);
    }
  }

  lemma {:induction false} LoweredSnoc(s: Text, n: nat)
    requires 2 <= n <= |s| && forall i :: 0 <= i < |s| ==> IsHexDigit(s[i])
    ensures Lowered(s[..n]) == Lowered(s[..n - 2]) + [LowerDigit(s[n - 2]), LowerDigit(s[n - 1])]
  {
  }

  lemma {:induction false} PairThenByte(a: Byte, b: Byte)
    requires IsHexDigit(a) && IsHexDigit(b)
    ensures ParsePair(a, b).Some?
    ensures HexByte(ParsePair(a, b).value) == [LowerDigit(a), LowerDigit(b)]
  {
    hide Digit, DigitValue;
    assert ParsePair(a, b) == Some(16 * DigitValue(a) + DigitValue(b));
    QuotientAndRest(DigitValue(a), DigitValue(b));
  }

  lemma {:induction false} QuotientAndRest(hi: Byte, lo: Byte)
    requires hi < 16 && lo < 16
    ensures (16 * hi + lo) / 16 == hi && (16 * hi + lo) % 16 == lo
  {
  }

  lemma {:induction false} EncodeSnoc(head: seq<Byte>, last: Byte)
    ensures HexEncode(head + [last]) == HexEncode(head) + HexByte(last)
  {
    assert (head + [last])[..|head|] == head;
  }

  /** A text is read as a hardware address exactly when its hexadecimal digits, in
      either case and with anything in between, spell that address. */
  lemma {:induction false} ParseMacIsExact(s: Text, m: MacAddr)
    ensures ParseMac(s) == Some(m) <==> Lowered(HexOnly(s)) == HexEncode(m)
  {
    var hex := HexOnly(s);
    if |hex| == 12 {
      DecodeThenEncode(hex, 6);
      assert hex[..12] == hex;
      if Lowered(hex) == HexEncode(m) {
        HexEncodeInjective(DecodePairs(hex, 6).value, m);
      }
    }
  }

  lemma {:induction false} EncodeOfSix(m: MacAddr)
    ensures HexEncode(m) ==
      HexByte(m[0]) + HexByte(m[1]) + HexByte(m[2]) + HexByte(m[3]) + HexByte(m[4]) + HexByte(m[5])
  {
    assert m[..5][..4] == m[..4] && m[..4][..3] == m[..3] && m[..3][..2] == m[..2] && m[..2][..1] == m[..1];
    assert m[..1][..0] == [];
    assert HexEncode(m[..1]) == HexByte(m[0]);
    assert HexEncode(m[..2]) == HexEncode(m[..1]) + HexByte(m[1]);
    assert HexEncode(m[..3]) == HexEncode(m[..2]) + HexByte(m[2]);
    assert HexEncode(m[..4]) == HexEncode(m[..3]) + HexByte(m[3]);
    assert HexEncode(m[..5]) == HexEncode(m[..4]) + HexByte(m[4]);
  }

  lemma {:induction false} HexOnlyOfPrint(m: MacAddr)
    ensures HexOnly(PrintMac(m)) == HexEncode(m)
  {
    EncodeOfSix(m);
    var b0, b1, b2, b3, b4, b5 :=
      HexByte(m[0]), HexByte(m[1]), HexByte(m[2]), HexByte(m[3]), HexByte(m[4]), HexByte(m[5]);
    var t1 := b0 + [COLON] + b1;
    var t2 := t1 + [COLON] + b2;
    var t3 := t2 + [COLON] + b3;
    var t4 := t3 + [COLON] + b4;
    HexOnlyKeepsDigits(b0);
    AppendByte(b0, b1);
    AppendByte(t1, b2);
    AppendByte(t2, b3);
    AppendByte(t3, b4);
    AppendByte(t4, b5);
  }

  lemma {:induction false} AppendByte(t: Text, b: Text)
    requires |b| == 2 && IsHexDigit(b[0]) && IsHexDigit(b[1])
    ensures HexOnly(t + [COLON] + b) == HexOnly(t) + b
  {
    HexOnlyConcat(t + [COLON], b);
    HexOnlyConcat(t, [COLON]);
    HexOnlyKeepsDigits(b);
    assert HexOnly([COLON]) == [];
  }

  /** Reading undoes printing on every hardware address. */
  lemma {:induction false} MacRoundTrip(m: MacAddr)
    ensures ParseMac(PrintMac(m)) == Some(m)
  {
    HexOnlyOfPrint(m);
    HexRoundTrip(m);
  }

  // ----- What the texts look like -----

  /** The byte is the lower-case hexadecimal digit for the value, in ASCII. */
  predicate Spells(c: Byte, v: int) {
    (0 <= v < 10 && c == '0' as int + v) || (10 <= v < 16 && c == 'a' as int + v - 10)
  }

  /** Two lower-case digits a byte, the high one first. */
  lemma {:induction false} EncodingSpells(bytes: seq<Byte>, i: nat)
    requires i < |bytes|
    ensures |HexEncode(bytes)| == 2 * |bytes|
    ensures Spells(HexEncode(bytes)[2 * i], bytes[i] / 16) && Spells(HexEncode(bytes)[2 * i + 1], bytes[i] % 16)
    decreases |bytes|
  {
    var last := |bytes| - 1;
    assert HexEncode(bytes) == HexEncode(bytes[..last]) + HexByte(bytes[last]);
    if i < last {
      EncodingSpells(bytes[..last], i);
    }
  }

  /** A pair of characters that is read as a byte: two digits, or a plus sign and a digit. */
  predicate IsPair(a: Byte, b: Byte) {
    (IsHexDigit(a) || a == '+' as int) && IsHexDigit(b)
  }

  function InLowerCase(s: Text): (r: Text)
    ensures |r| == |s|
  {
    seq(|s|, i requires 0 <= i < |s| => if 65 <= s[i] <= 90 then s[i] + 32 else s[i])
  }

  lemma {:induction false} PairsDecodeIff(s: Text, n: nat)
    requires 2 * n <= |s|
    ensures DecodePairs(s, n).Some? <==> forall i :: 0 <= i < n ==> IsPair(s[2 * i], s[2 * i + 1])
  {
    hide DigitValue, IsHexDigit;
    if n == 0 {
    } else {
      PairsDecodeIff(s, n - 1);
      PairReadIff(s[2 * n - 2], s[2 * n - 1]);
      assert s[2 * (n - 1)] == s[2 * n - 2] && s[2 * (n - 1) + 1] == s[2 * n - 1];
    }
  }

  lemma {:induction false} PairReadIff(a: Byte, b: Byte)
    ensures ParsePair(a, b).Some? <==> IsPair(a, b)
  {
  }

  /** Which texts are decoded, and which of them encoding gives back, up to case: those
      made of pairs, and among them those without the plus signs the number parser lets
      through. */
  lemma {:induction false} DecodesIff(s: Text)
    ensures HexDecode(s).Some? <==>
      |s| % 2 == 0 && forall i :: 0 <= i < |s| / 2 ==> IsPair(s[2 * i], s[2 * i + 1])
    ensures HexDecode(s).Some? ==>
      (HexEncode(HexDecode(s).value) == InLowerCase(s) <==> '+' as int !in s)
  {
    hide DecodePairs, HexEncode, IsPair;
    if |s| % 2 == 0 {
      PairsDecodeIff(s, |s| / 2);
    }
    if HexDecode(s).Some? {
      if '+' as int in s {
        var i :| 0 <= i < |s| && s[i] == '+' as int;
        assert InLowerCase(s)[i] == PLUS && !IsHexDigit(PLUS);
      } else {
        forall i | 0 <= i < |s|
          ensures IsHexDigit(s[i])
        {
          assert IsPair(s[2 * (i / 2)], s[2 * (i / 2) + 1]);
          DigitsOfPair(s[2 * (i / 2)], s[2 * (i / 2) + 1]);
        }
        DecodeThenEncode(s, |s| / 2);
        assert s[..2 * (|s| / 2)] == s;
        LoweredIsLowerCase(s);
      }
    }
  }

  lemma {:induction false} DigitsOfPair(a: Byte, b: Byte)
    requires IsPair(a, b)
    ensures IsHexDigit(b) && (a == '+' as int || IsHexDigit(a))
  {
  }

  lemma {:induction false} LoweredIsLowerCase(s: Text)
    requires forall i :: 0 <= i < |s| ==> IsHexDigit(s[i])
    ensures Lowered(s) == InLowerCase(s)
  {
  }

  /** Six pairs of digits with colons between them. */
  lemma {:induction false} PrintedMacSpells(m: MacAddr, i: nat)
    requires i < 6
    ensures |PrintMac(m)| == 17
    ensures Spells(PrintMac(m)[3 * i], m[i] / 16) && Spells(PrintMac(m)[3 * i + 1], m[i] % 16)
    ensures i < 5 ==> PrintMac(m)[3 * i + 2] == ':' as int
  {
    hide HexByte, Spells;
    ByteSpells(m[i]);
    var t := PrintMac(m);
    assert t[3 * i] == HexByte(m[i])[0] && t[3 * i + 1] == HexByte(m[i])[1];
  }

  lemma {:induction false} ByteSpells(b: Byte)
    ensures Spells(HexByte(b)[0], b / 16) && Spells(HexByte(b)[1], b % 16)
  {
  }

  // ----- Client identities -----

  function ClientText(c: ClientId): Text {
    match c
    case Mac(m) => PrintMac(m)
    case Opt61(raw) => ID_PREFIX + HexEncode(raw)
  }

  predicate HasPrefix(s: Text, prefix: Text) {
    |prefix| <= |s| && s[..|prefix|] == prefix
  }

  function ParseClient(s: Text): ClientId {
    var stored :=
      if HasPrefix(s, OPT61_PREFIX) then
        match HexDecode(s[|OPT61_PREFIX|..])
        case Some(b) => if b == [] then None else Some(b)
        case None => None
      else None;
    match stored
    case Some(b) => Opt61(b)
    case None =>
      match ParseMac(s)
      case Some(m) => Mac(m)
      case None => Opt61(s)
  }

  /** Different identities have different texts, so comparing texts compares clients. */
  lemma {:induction false} ClientTextInjective(a: ClientId, b: ClientId)
    ensures ClientText(a) == ClientText(b) <==> a == b
  {
    FirstByte(a);
    FirstByte(b);
    if ClientText(a) == ClientText(b) {
      match (a, b) {
        case (Mac(m), Mac(n)) =>
          MacRoundTrip(m);
          MacRoundTrip(n);
        case (Opt61(x), Opt61(y)) =>
          assert (ID_PREFIX + HexEncode(x))[3..] == HexEncode(x);
          assert (ID_PREFIX + HexEncode(y))[3..] == HexEncode(y);
          HexEncodeInjective(x, y);
        case _ =>
      }
    }
  }

  /** An ASCII text as bytes. */
  function Ascii(s: string): (r: Text)
    requires forall i :: 0 <= i < |s| ==> s[i] as int < 128
    ensures |r| == |s| && forall i :: 0 <= i < |s| ==> r[i] == s[i] as int
  {
    if s == "" then [] else [s[0] as int] + Ascii(s[1..])
  }

  /** Option 61 is written after `id:`, but it is read, if there is any of it, after `opt61:`. */
  lemma {:induction false} Opt61IsWrittenAndRead(raw: seq<Byte>)
    ensures ClientText(Opt61(raw)) == Ascii("id:") + HexEncode(raw)
    ensures raw != [] ==> ParseClient(Ascii("opt61:") + HexEncode(raw)) == Opt61(raw)
  {
    assert ID_PREFIX == Ascii("id:") && OPT61_PREFIX == Ascii("opt61:");
    var s := OPT61_PREFIX + HexEncode(raw);
    assert s[..6] == OPT61_PREFIX && s[6..] == HexEncode(raw);
    HexRoundTrip(raw);
  }

  /** The first character tells the two kinds of identity apart. */
  lemma {:induction false} FirstByte(c: ClientId)
    ensures |ClientText(c)| > 0
    ensures c.Mac? <==> IsHexDigit(ClientText(c)[0])
    ensures c.Opt61? <==> ClientText(c)[0] == 105
  {
  }

  /** The stored text is read back as the same identity exactly for hardware addresses:
      the writer marks option 61 with `id:`, the reader looks for `opt61:`. */
  lemma {:induction false} OnlyMacsRoundTrip(c: ClientId)
    ensures ParseClient(ClientText(c)) == c <==> c.Mac?
  {
    match c {
      case Mac(m) =>
        MacRoundTrip(m);
        assert IsHexDigit(PrintMac(m)[0]);
        assert OPT61_PREFIX[0] == 111;
      case Opt61(raw) =>
        var s := ClientText(c);
        assert s[0] == 105 && OPT61_PREFIX[0] == 111;
        HexOnlyConcat(ID_PREFIX, HexEncode(raw));
        HexOnlyKeepsDigits(HexEncode(raw));
        assert HexOnly([105, 100, 58]) == [100] by {
          assert [105, 100, 58][1..] == [100, 58] && [100, 58][1..] == [58];
          assert HexOnly([58]) == [];
        }
        assert |HexOnly(s)| == 1 + 2 * |raw|;
    }
  }
}
