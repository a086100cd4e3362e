/**
 IP addresses as text: dotted quads (`ip_to_bytes` in src/mdns/packet_codec.rs,
 `ip` in src/mdns/service_info.rs) and `ipv6_to_string`, which compresses the
 longest zero run (sections 4.2.2 and 4.2.3 of RFC 5952). Text is ASCII bytes.
 */
module AddressText {
  import opened Bits
  import opened Text
  import opened DnsNames

  type Ascii = seq<Byte>

  const COLON: Byte := 58
  const PLUS: Byte := 43

  // ---- Numerals (`{}` and `{:x}`) -------------------------------------------------

  function Digit(d: nat): Byte
    requires d < 16
  {
    if d < 10 then 48 + d else 87 + d
  }

  function DigitValue(c: Byte, base: nat): (r: Option<nat>)
    ensures r.Some? ==> r.value < base
  {
    var d := if 48 <= c <= 57 then c - 48 else if 97 <= c <= 102 then c - 87 else base;
    if d < base then Some(d) else None
  }

  /** Most significant digit first, no leading zero. */
  function Numeral(n: nat, base: nat): (s: Ascii)
    requires 2 <= base <= 16
    ensures |s| > 0 && DOT !in s && COLON !in s && PLUS !in s
  {
    if n < base then [Digit(n)] else Numeral(n / base, base) + [Digit(n % base)]
  }

  /** The value of a digit string, if it is one. */
  function NumeralValue(s: Ascii, base: nat): Option<nat>
    requires 2 <= base <= 16
  {
    if s == [] then None
    else
      match DigitValue(s[|s| - 1], base)
      case None => None
      case Some(d) =>
        if |s| == 1 then Some(d)
        else
          match NumeralValue(s[..|s| - 1], base)
          case None => None
          case Some(v) => Some(base * v + d)
  }

  lemma {:induction false} NumeralValueStep(s: Ascii, v: nat, d: nat, base: nat)
    requires 2 <= base <= 16 && d < base
    requires |s| > 0 && NumeralValue(s, base) == Some(v)
    ensures NumeralValue(s + [Digit(d)], base) == Some(base * v + d)
  {
    assert (s + [Digit(d)])[..|s|] == s;
    assert DigitValue(Digit(d), base) == Some(d);
  }

  lemma {:induction false} NumeralUnfold(n: nat, base: nat) returns (q: nat, r: nat)
    requires 2 <= base <= 16 && n >= base
    ensures q < n && r < base && n == base * q + r
    ensures Numeral(n, base) == Numeral(q, base) + [Digit(r)]
  {
    q, r := n / base, n % base;
  }

  lemma {:induction false} NumeralReadBack(n: nat, base: nat)
    requires 2 <= base <= 16
    ensures NumeralValue(Numeral(n, base), base) == Some(n)
  {
    if n >= base {
      var q, r := NumeralUnfold(n, base);
      NumeralReadBack(q, base);
      NumeralValueStep(Numeral(q, base), q, r, base);
    }
  }

  // ---- IPv4 -------------------------------------------------------------------------

  /** `str::parse::<u8>`: an optional plus sign and decimal digits of a value up to 255. */
  function ParseU8(part: Ascii): Option<Byte>
  {
    var digits := if part != [] && part[0] == PLUS then part[1..] else part;
    match NumeralValue(digits, 10)
    case None => None
    case Some(v) => if v < 256 then Some(v) else None
  }

  /** The parts that parse; the others are dropped silently. */
  function ParsedParts(parts: seq<Ascii>): seq<Byte>
  {
    if parts == [] then []
    else
      match ParseU8(parts[0])
      case None => ParsedParts(parts[1..])
      case Some(b) => [b] + ParsedParts(parts[1..])
  }

  function IpToBytes(ip: Ascii): seq<Byte>
  {
    ParsedParts(Split(ip, DOT))
  }

  function Numerals(values: seq<nat>, base: nat): (r: seq<Ascii>)
    requires 2 <= base <= 16
    ensures |r| == |values| && forall i :: 0 <= i < |r| ==> r[i] == Numeral(values[i], base)
  {
    seq(|values|, i requires 0 <= i < |values| => Numeral(values[i], base))
  }

  function IpText(bytes: seq<Byte>): Ascii
  {
    Join(Numerals(bytes, 10), DOT)
  }

  lemma {:induction false} ParsedNumerals(bytes: seq<Byte>, parts: seq<Ascii>)
    requires parts == Numerals(bytes, 10)
    ensures ParsedParts(parts) == bytes
    decreases |parts|
  {
    if parts != [] {
      NumeralReadBack(bytes[0], 10);
      assert PLUS !in parts[0];
      assert parts[1..] == Numerals(bytes[1..], 10);
      ParsedNumerals(bytes[1..], parts[1..]);
    }
  }

  /** Printing the four bytes of an A record undoes `ip_to_bytes` on canonical text. */
  lemma {:induction false} IpReadBack(bytes: seq<Byte>)
    requires |bytes| > 0
    ensures IpToBytes(IpText(bytes)) == bytes
  {
    SplitJoin(Numerals(bytes, 10), DOT);
    ParsedNumerals(bytes, Numerals(bytes, 10));
  }

  // ---- IPv6 -------------------------------------------------------------------------

  type Hextets = h: seq<nat> | forall i :: 0 <= i < |h| ==> h[i] < 65536

  function HextetsOf(bytes: seq<Byte>): (h: Hextets)
    requires |bytes| % 2 == 0
    ensures |h| == |bytes| / 2
  {
    seq(|bytes| / 2, i requires 0 <= i < |bytes| / 2 => 256 * (bytes[2 * i] as int) + bytes[2 * i + 1] as int)
  }

  predicate ZeroRun(h: seq<nat>, s: nat, e: nat)
  {
    s < e <= |h| && forall k :: s <= k < e ==> h[k] == 0
  }

  /** `(start, length)` of the longest zero run, the leftmost one of that length. */
  ghost predicate LeftmostLongest(h: seq<nat>, best: Option<(nat, nat)>)
  {
    match best
    case None => forall k :: 0 <= k < |h| ==> h[k] != 0
    case Some((s, l)) =>
      && ZeroRun(h, s, s + l)
      && forall s': nat, e': nat :: ZeroRun(h, s', e') ==> e' - s' < l || (e' - s' == l && s <= s')
  }

  function RunEnd(h: seq<nat>, i: nat): (e: nat)
    requires i <= |h|
    ensures i <= e <= |h| && (forall k :: i <= k < e ==> h[k] == 0) && (e < |h| ==> h[e] != 0)
    decreases |h| - i
  {
    if i < |h| && h[i] == 0 then RunEnd(h, i + 1) else i
  }

  /** The scan of `ipv6_to_string` from `i` on. */
  function BestRun(h: seq<nat>, i: nat, best: Option<(nat, nat)>): Option<(nat, nat)>
    requires i <= |h|
    decreases |h| - i
  {
    if i == |h| then best
    else if h[i] == 0 then
      var e := RunEnd(h, i);
      BestRun(h, e, if best.None? || e - i > best.value.1 then Some((i, e - i)) else best)
    else BestRun(h, i + 1, best)
  }

  /** Best among the runs that start before `i`; no run crosses `i`. */
  ghost predicate BestBefore(h: seq<nat>, i: nat, best: Option<(nat, nat)>)
    requires i <= |h|
  {
    && (0 < i < |h| ==> h[i - 1] != 0 || h[i] != 0)
    && match best
       case None => forall k :: 0 <= k < i ==> h[k] != 0
       case Some((s, l)) =>
         && s < i && ZeroRun(h, s, s + l)
         && forall s': nat, e': nat :: ZeroRun(h, s', e') && s' < i ==> e' - s' < l || (e' - s' == l && s <= s')
  }

  lemma {:induction false} RunStep(h: seq<nat>, i: nat, best: Option<(nat, nat)>)
    requires i < |h| && h[i] == 0 && BestBefore(h, i, best)
    ensures var e := RunEnd(h, i);
            BestBefore(h, e, if best.None? || e - i > best.value.1 then Some((i, e - i)) else best)
  {
    var e := RunEnd(h, i);
    var next := if best.None? || e - i > best.value.1 then Some((i, e - i)) else best;
    assert ZeroRun(h, i, e);
    forall s': nat, e': nat | ZeroRun(h, s', e') && s' < e
      ensures e' - s' < next.value.1 || (e' - s' == next.value.1 && next.value.0 <= s')
    {
      if s' < i {
        assert best.Some? by {
          assert h[s'] == 0;
        }
      }
    }
  }

  lemma {:induction false} BestRunIsBest(h: seq<nat>, i: nat, best: Option<(nat, nat)>)
    requires i <= |h| && BestBefore(h, i, best)
    ensures LeftmostLongest(h, BestRun(h, i, best))
    decreases |h| - i
  {
    if i == |h| {
    } else if h[i] == 0 {
      var e := RunEnd(h, i);
      RunStep(h, i, best);
      BestRunIsBest(h, e, if best.None? || e - i > best.value.1 then Some((i, e - i)) else best);
    } else {
      forall s': nat, e': nat | ZeroRun(h, s', e') && s' < i + 1 ensures s' < i {
        assert h[s'] == 0;
      }
      BestRunIsBest(h, i + 1, best);
    }
  }

  function Hex(h: seq<nat>): Ascii
  {
    Join(Numerals(h, 16), COLON)
  }

  /** The text for hextets whose best run is `best`; a run of one is not compressed. */
  function Compressed(h: seq<nat>, best: Option<(nat, nat)>): Ascii
    requires best.Some? ==> best.value.0 + best.value.1 <= |h|
  {
    if best.Some? && best.value.1 >= 2 then
      var left, right := h[..best.value.0], h[best.value.0 + best.value.1..];
      if left == [] && right == [] then [COLON, COLON]
      else if left == [] then [COLON, COLON] + Hex(right)
      else if right == [] then Hex(left) + [COLON, COLON]
      else Hex(left) + [COLON, COLON] + Hex(right)
    else Hex(h)
  }

  function Ipv6Text(bytes: seq<Byte>): Option<Ascii>
  {
    if |bytes| != 16 then None
    else
      var h := HextetsOf(bytes);
      BestRunIsBest(h, 0, None);
      Some(Compressed(h, BestRun(h, 0, None)))
  }

  /** The scanning loops of `ipv6_to_string`. */
  method LongestZeroRun(hextets: seq<nat>) returns (best: Option<(nat, nat)>)
    ensures LeftmostLongest(hextets, best)
    ensures best == BestRun(hextets, 0, None)
  {
    best := None;
    var i: nat := 0;
    while i < |hextets|
      invariant i <= |hextets| && BestBefore(hextets, i, best)
      invariant BestRun(hextets, 0, None) == BestRun(hextets, i, best)
    {
      if hextets[i] == 0 {
        var start := i;
        while i < |hextets| && hextets[i] == 0
          invariant start <= i <= |hextets|
          invariant RunEnd(hextets, start) == RunEnd(hextets, i)
        {
          i := i + 1;
        }
        RunStep(hextets, start, best);
        var len := i - start;
        if best.None? || len > best.value.1 {
          best := Some((start, len));
        }
      } else {
        i := i + 1;
      }
    }
  }

  method Ipv6ToString(bytes: seq<Byte>) returns (r: Option<Ascii>)
    ensures r == Ipv6Text(bytes)
  {
    if |bytes| != 16 {
      return None;
    }
    var hextets := HextetsOf(bytes);
    var best := LongestZeroRun(hextets);
    return Some(Compressed(hextets, best));
  }

  // ---- Reading IPv6 text back -----------------------------------------------------

  function LeadingFull(parts: seq<Ascii>): seq<Ascii>
  {
    if parts == [] || parts[0] == [] then [] else [parts[0]] + LeadingFull(parts[1..])
  }

  function TrailingFull(parts: seq<Ascii>): seq<Ascii>
  {
    if parts == [] || parts[|parts| - 1] == [] then []
    else TrailingFull(parts[..|parts| - 1]) + [parts[|parts| - 1]]
  }

  function HexValues(parts: seq<Ascii>): seq<nat>
  {
    if parts == [] then []
    else [match NumeralValue(parts[0], 16) case None => 0 case Some(v) => v] + HexValues(parts[1..])
  }

  function Zeros(n: nat): (z: seq<nat>)
    ensures |z| == n
  {
    seq(n, _ => 0)
  }

  /** A reader of IPv6 text: an empty part stands for as many zeros as fill up to eight hextets. */
  function ReadIpv6(text: Ascii): seq<nat>
  {
    var parts := Split(text, COLON);
    if [] !in parts then HexValues(parts)
    else
      var left, right := HexValues(LeadingFull(parts)), HexValues(TrailingFull(parts));
      left + (if |left| + |right| <= 8 then Zeros(8 - |left| - |right|) else []) + right
  }

  lemma {:induction false} HexValuesOfNumerals(h: seq<nat>, parts: seq<Ascii>)
    requires parts == Numerals(h, 16)
    ensures HexValues(parts) == h
    decreases |parts|
  {
    if parts != [] {
      NumeralReadBack(h[0], 16);
      assert parts[1..] == Numerals(h[1..], 16);
      HexValuesOfNumerals(h[1..], parts[1..]);
    }
  }

  lemma {:induction false} LeadingFullOf(full: seq<Ascii>, rest: seq<Ascii>)
    requires forall i :: 0 <= i < |full| ==> full[i] != []
    ensures LeadingFull(full + [[]] + rest) == full
  {
    var parts := full + [[]] + rest;
    if full == [] {
      assert parts[0] == [];
    } else {
      assert parts[1..] == full[1..] + [[]] + rest;
      LeadingFullOf(full[1..], rest);
    }
  }

  lemma {:induction false} TrailingFullOf(rest: seq<Ascii>, full: seq<Ascii>)
    requires forall i :: 0 <= i < |full| ==> full[i] != []
    ensures TrailingFull(rest + [[]] + full) == full
  {
    var parts := rest + [[]] + full;
    if full == [] {
      assert parts[|parts| - 1] == [];
    } else {
      assert parts[..|parts| - 1] == rest + [[]] + full[..|full| - 1];
      TrailingFullOf(rest, full[..|full| - 1]);
    }
  }

  /** The parts of compressed text: an empty one in the middle, doubled at an end. */
  function CompressedParts(left: seq<nat>, right: seq<nat>): seq<Ascii>
  {
    (if left == [] then [[]] else Numerals(left, 16)) + [[]] + (if right == [] then [[]] else Numerals(right, 16))
  }

  lemma {:induction false} JoinAroundEmpty(l: seq<Ascii>, r: seq<Ascii>)
    requires |l| > 0 && |r| > 0
    ensures Join(l + [[]] + r, COLON) == Join(l, COLON) + [COLON, COLON] + Join(r, COLON)
  {
    hide Join;
    var e: seq<Ascii> := [[]];
    var jl, jr := Join(l, COLON), Join(r, COLON);
    assert l + e + r == l + (e + r);
    JoinConcat(l, e + r, COLON);
    JoinConcat(e, r, COLON);
    JoinOne([]);
    assert jl + [COLON] + ([] + [COLON] + jr) == jl + [COLON, COLON] + jr;
  }

  lemma {:induction false} JoinOne(part: Ascii)
    ensures Join([part], COLON) == part
  {
  }

  lemma {:induction false} CompressedIsJoin(left: seq<nat>, right: seq<nat>)
    ensures Join(CompressedParts(left, right), COLON)
         == (if left == [] then [] else Hex(left)) + [COLON, COLON] + (if right == [] then [] else Hex(right))
  {
    hide Join;
    JoinAroundEmpty(if left == [] then [[]] else Numerals(left, 16), if right == [] then [[]] else Numerals(right, 16));
    JoinOne([]);
  }

  lemma {:induction false} CompressedLeft(left: seq<nat>, right: seq<nat>)
    ensures HexValues(LeadingFull(CompressedParts(left, right))) == left
  {
    hide HexValues, LeadingFull;
    var l, after := Numerals(left, 16), if right == [] then [[]] else Numerals(right, 16);
    HexValuesOfNumerals(left, l);
    if left == [] {
      assert CompressedParts(left, right) == [] + [[]] + ([[]] + after);
      LeadingFullOf([], [[]] + after);
      assert l == [];
    } else {
      LeadingFullOf(l, after);
    }
  }

  lemma {:induction false} CompressedRight(left: seq<nat>, right: seq<nat>)
    ensures HexValues(TrailingFull(CompressedParts(left, right))) == right
  {
    hide HexValues, TrailingFull;
    var before, r := if left == [] then [[]] else Numerals(left, 16), Numerals(right, 16);
    HexValuesOfNumerals(right, r);
    if right == [] {
      assert CompressedParts(left, right) == (before + [[]]) + [[]] + [];
      TrailingFullOf(before + [[]], []);
      assert r == [];
    } else {
      TrailingFullOf(before, r);
    }
  }

  lemma {:induction false} CompressedReadBack(left: seq<nat>, right: seq<nat>)
    requires |left| + |right| <= 8
    ensures ReadIpv6(Join(CompressedParts(left, right), COLON)) == left + Zeros(8 - |left| - |right|) + right
  {
    hide HexValues, TrailingFull, LeadingFull, Join, Split;
    var parts := CompressedParts(left, right);
    SplitJoin(parts, COLON);
    assert parts[if left == [] then 0 else |left|] == [];
    CompressedLeft(left, right);
    CompressedRight(left, right);
  }

  /** The text determines the hextets: reading it back gives the address. */
  lemma {:induction false} Ipv6ReadBack(bytes: seq<Byte>)
    requires |bytes| == 16
    ensures Ipv6Text(bytes).Some? && ReadIpv6(Ipv6Text(bytes).value) == HextetsOf(bytes)
  {
    hide Join, Split, ReadIpv6, BestRun, HexValues, HextetsOf;
    var h := HextetsOf(bytes);
    var best := BestRun(h, 0, None);
    BestRunIsBest(h, 0, None);
    PlainReadBack(h);
    if best.Some? && best.value.1 >= 2 {
      var left, right := h[..best.value.0], h[best.value.0 + best.value.1..];
      CompressedIsJoin(left, right);
      assert Compressed(h, best) == (if left == [] then [] else Hex(left)) + [COLON, COLON] + (if right == [] then [] else Hex(right));
      CompressedReadBack(left, right);
      assert h == left + Zeros(8 - |left| - |right|) + right;
    }
  }

  lemma {:induction false} PlainReadBack(h: seq<nat>)
    requires |h| > 0
    ensures ReadIpv6(Hex(h)) == h
  {
    hide Join, Split, HexValues;
    SplitJoin(Numerals(h, 16), COLON);
    HexValuesOfNumerals(h, Numerals(h, 16));
  }

  /** Different addresses print differently. */
  lemma {:induction false} Ipv6Injective(a: seq<Byte>, b: seq<Byte>)
    requires |a| == |b| == 16 && Ipv6Text(a) == Ipv6Text(b)
    ensures a == b
  {
    hide Ipv6Text, ReadIpv6, HextetsOf;
    Ipv6ReadBack(a);
    Ipv6ReadBack(b);
    SameHextets(a, b);
  }

  lemma {:induction false} SameHextets(a: seq<Byte>, b: seq<Byte>)
    requires |a| == |b| == 16 && HextetsOf(a) == HextetsOf(b)
    ensures a == b
  {
    forall k | 0 <= k < 16 ensures a[k] == b[k] {
      assert HextetsOf(a)[k / 2] == HextetsOf(b)[k / 2];
    }
  }

  /** What is compressed is the leftmost longest zero run, and never a single hextet. */
  lemma {:induction false} Ipv6CompressesLeftmostLongest(bytes: seq<Byte>)
    requires |bytes| == 16
    ensures exists best :: LeftmostLongest(HextetsOf(bytes), best) && Ipv6Text(bytes) == Some(Compressed(HextetsOf(bytes), best))
  {
    BestRunIsBest(HextetsOf(bytes), 0, None);
  }

  /** Two colons side by side. */
  predicate DoubleColon(text: Ascii, i: nat)
  {
    i + 1 < |text| && text[i] == COLON && text[i + 1] == COLON
  }

  lemma {:induction false} HexHasNoDoubleColon(parts: seq<Ascii>)
    requires parts != [] && forall i :: 0 <= i < |parts| ==> parts[i] != [] && COLON !in parts[i]
    ensures var text := Join(parts, COLON); text != [] && text[0] != COLON && forall i: nat :: !DoubleColon(text, i)
    decreases |parts|
  {
    if |parts| > 1 {
      HexHasNoDoubleColon(parts[1..]);
      var first, rest := parts[0], Join(parts[1..], COLON);
      var text := first + [COLON] + rest;
      forall i: nat ensures !DoubleColon(text, i) {
        if DoubleColon(text, i) {
          if i > |first| {
            assert DoubleColon(rest, i - |first| - 1);
          }
        }
      }
    }
  }

  /** A text is compressed exactly when two zero groups stand side by side: a single zero group never is. */
  lemma {:induction false} Ipv6CompressedIff(bytes: seq<Byte>)
    requires |bytes| == 16
    ensures var h := HextetsOf(bytes);
            Ipv6Text(bytes).Some?
            && ((exists i: nat :: DoubleColon(Ipv6Text(bytes).value, i)) <==> exists k :: 0 <= k < 7 && h[k] == 0 == h[k + 1])
  {
    hide BestRun, Numeral, Join;
    var h := HextetsOf(bytes);
    BestRunIsBest(h, 0, None);
    var best := BestRun(h, 0, None);
    if best.Some? && best.value.1 >= 2 {
      var left := h[..best.value.0];
      assert DoubleColon(Ipv6Text(bytes).value, if left == [] then 0 else |Hex(left)|);
      assert ZeroRun(h, best.value.0, best.value.0 + best.value.1);
      assert h[best.value.0] == 0 == h[best.value.0 + 1];
    } else {
      HexHasNoDoubleColon(Numerals(h, 16));
      NoTwoZeros(h, best);
    }
  }

  lemma {:induction false} NoTwoZeros(h: seq<nat>, best: Option<(nat, nat)>)
    requires LeftmostLongest(h, best) && (best.Some? ==> best.value.1 < 2)
    ensures forall k :: 0 <= k < |h| - 1 ==> !(h[k] == 0 == h[k + 1])
  {
    forall k | 0 <= k < |h| - 1 ensures !(h[k] == 0 == h[k + 1]) {
      assert h[k] == 0 == h[k + 1] ==> ZeroRun(h, k, k + 2);
    }
  }

  /** "192.168.1.20" and "cc7:94ea": digits in order, hexadecimal ones in lower case. */
  lemma {:induction false} TextExamples()
    ensures IpText([192, 168, 1, 20]) == [49, 57, 50, 46, 49, 54, 56, 46, 49, 46, 50, 48]
    ensures Hex([0xcc7, 0x94ea]) == [99, 99, 55, 58, 57, 52, 101, 97]
  {
    hide Numeral, Join;
    NumeralExamples();
    var a: seq<Ascii>, b: seq<Ascii> := [[49, 57, 50], [49, 54, 56], [49], [50, 48]], [[99, 99, 55], [57, 52, 101, 97]];
    assert Numerals([192, 168, 1, 20], 10) == a && Numerals([0xcc7, 0x94ea], 16) == b;
    JoinTail(a, DOT);
    JoinTail(a[1..], DOT);
    JoinTail(a[1..][1..], DOT);
    JoinSingle([50, 48], DOT);
    assert a[1..][1..][1..] == [[50, 48]];
    JoinTail(b, COLON);
    JoinSingle([57, 52, 101, 97], COLON);
    assert b[1..] == [[57, 52, 101, 97]];
  }

  lemma {:induction false} NumeralExamples()
    ensures Numeral(192, 10) == [49, 57, 50] && Numeral(168, 10) == [49, 54, 56]
    ensures Numeral(1, 10) == [49] && Numeral(20, 10) == [50, 48]
    ensures Numeral(0xcc7, 16) == [99, 99, 55] && Numeral(0x94ea, 16) == [57, 52, 101, 97]
  {
    assert Numeral(19, 10) == [49, 57] && Numeral(16, 10) == [49, 54];
    assert Numeral(0xcc, 16) == [99, 99];
    assert Numeral(0x94, 16) == [57, 52];
    assert Numeral(0x94e, 16) == [57, 52, 101];
  }

  lemma {:induction false} JoinSingle(part: Ascii, sep: Byte)
    ensures Join([part], sep) == part
  {
  }

  lemma {:induction false} JoinTail(parts: seq<Ascii>, sep: Byte)
    requires |parts| > 1
    ensures Join(parts, sep) == parts[0] + [sep] + Join(parts[1..], sep)
  {
  }

  lemma {:induction false} LeftmostLongestUnique(h: seq<nat>, a: Option<(nat, nat)>, b: Option<(nat, nat)>)
    requires LeftmostLongest(h, a) && LeftmostLongest(h, b)
    ensures a == b
  {
    if a.Some? {
      assert h[a.value.0] == 0;
    }
    if b.Some? {
      assert h[b.value.0] == 0;
    }
  }
}
