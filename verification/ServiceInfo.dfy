/**
 The service model and the record accessors (src/mdns/service_info.rs).
 Record accessors read only inside the packet whenever the RDATA window does.
 */
module ServiceInfo {
  import opened Bits
  import opened Text
  import opened DnsNames
  import opened DnsMessages
  import opened AddressText

  /** "_plainapp", "_tcp" and "local", with dots between them. */
  const SERVICE_TYPE: Name := [95, 112, 108, 97, 105, 110, 97, 112, 112] + [46] + [95, 116, 99, 112] + [46] + [108, 111, 99, 97, 108]

  datatype Service = Service(
    instanceName: Name,
    serviceType: Name,
    targetHostname: Name,
    port: nat,
    txtRecords: seq<Bytes>,
    ips: seq<Ascii>)
  {
    function Fqdn(): Name
    {
      instanceName + [DOT] + serviceType
    }
  }

  // ---- The advertised service ------------------------------------------------------

  const EQUALS: Byte := 61
  /** "id", "dv", "ver", "pf" */
  const KEY_ID: Bytes := [105, 100]
  const KEY_DEVICE_TYPE: Bytes := [100, 118]
  const KEY_VERSION: Bytes := [118, 101, 114]
  const KEY_PLATFORM: Bytes := [112, 102]
  /** "aw=0", "ar=0" */
  const AWARE_FLAGS: seq<Bytes> := [[97, 119, 61, 48], [97, 114, 61, 48]]

  function Entry(key: Bytes, value: Bytes): Bytes
  {
    key + [EQUALS] + value
  }

  /** `build_service_info` */
  function BuildServiceInfo(instanceName: Name, hostname: Name, port: nat, id: Bytes, deviceType: Bytes, version: Bytes,
                            platform: Bytes, ips: seq<Ascii>): Service
  {
    Service(instanceName, SERVICE_TYPE, hostname, port,
            [Entry(KEY_ID, id), Entry(KEY_DEVICE_TYPE, deviceType), Entry(KEY_VERSION, version), Entry(KEY_PLATFORM, platform)]
            + AWARE_FLAGS,
            ips)
  }

  datatype Srv = Srv(port: nat, target: Name)

  // ---- Case-insensitive names ----------------------------------------------------

  function LowerByte(b: Byte): Byte
  {
    if 65 <= b <= 90 then b + 32 else b
  }

  function Lower(s: Name): (r: Name)
    ensures |r| == |s|
  {
    seq(|s|, i requires 0 <= i < |s| => LowerByte(s[i]))
  }

  predicate EqIgnoreCase(a: Name, b: Name)
  {
    Lower(a) == Lower(b)
  }

  /** The same byte, or the same letter in the other case. */
  predicate SameLetter(a: Byte, b: Byte)
  {
    a == b || (65 <= a <= 90 && b as int == a as int + 32) || (65 <= b <= 90 && a as int == b as int + 32)
  }

  lemma {:induction false} EqIgnoreCaseIff(a: Name, b: Name)
    ensures EqIgnoreCase(a, b) <==> |a| == |b| && forall i :: 0 <= i < |a| ==> SameLetter(a[i], b[i])
  {
    forall i | 0 <= i < |a| && |a| == |b| ensures Lower(a)[i] == Lower(b)[i] <==> SameLetter(a[i], b[i]) {
    }
  }

  // ---- Accessors --------------------------------------------------------------------

  function PtrTarget(rec: Record): Option<Name>
  {
    if rec.rtype != TYPE_PTR then None
    else
      match NameAt(rec.packet, rec.rdataStart, 0)
      case None => None
      case Some((name, _)) => Some(name)
  }

  function SrvOf(rec: Record): Option<Srv>
    requires rec.InPacket()
  {
    if rec.rtype != TYPE_SRV || rec.rdataLength < 6 then None
    else
      var target :=
        match NameAt(rec.packet, rec.rdataStart + 6, 0)
        case None => []
        case Some((name, _)) => name;
      Some(Srv(ReadU16(rec.packet, rec.rdataStart + 4), target))
  }

  function IpOf(rec: Record): Option<Ascii>
    requires rec.InPacket()
  {
    if rec.rtype == TYPE_A && rec.rdataLength == 4 then Some(IpText(rec.Rdata())) else None
  }

  function Ipv6Of(rec: Record): Option<Ascii>
    requires rec.InPacket()
  {
    if rec.rtype == TYPE_AAAA && rec.rdataLength == 16 then Ipv6Text(rec.Rdata()) else None
  }

  /** The strings from `off` up to `end`; one that overruns `end` stops the reading. */
  function TxtFrom(packet: Bytes, off: nat, end: nat): seq<Bytes>
    requires end <= |packet|
    decreases if off <= end then end - off else 0
  {
    if off >= end then []
    else
      var len := packet[off];
      if off + 1 + len > end then []
      else [packet[off + 1..off + 1 + len]] + TxtFrom(packet, off + 1 + len, end)
  }

  function TxtStrings(rec: Record): Option<seq<Bytes>>
    requires rec.InPacket()
  {
    if rec.rtype != TYPE_TXT then None
    else Some(TxtFrom(rec.packet, rec.rdataStart, rec.rdataStart + rec.rdataLength))
  }

  method ParseTxtStrings(rec: Record) returns (strings: seq<Bytes>)
    requires rec.InPacket()
    ensures strings == TxtFrom(rec.packet, rec.rdataStart, rec.rdataStart + rec.rdataLength)
  {
    strings := [];
    var offset: nat := rec.rdataStart;
    var end := rec.rdataStart + rec.rdataLength;
    while offset < end
      invariant offset <= end
      invariant TxtFrom(rec.packet, rec.rdataStart, end) == strings + TxtFrom(rec.packet, offset, end)
    {
      var len := rec.packet[offset];
      offset := offset + 1;
      if offset + len > end {
        break;
      }
      strings := strings + [rec.packet[offset..offset + len]];
      offset := offset + len;
    }
  }

  // ---- RDATA and its reading back ----------------------------------------------------

  function TxtRdata(values: seq<Bytes>): Bytes
  {
    if values == [] then [] else [|values[0]| % 256] + values[0] + TxtRdata(values[1..])
  }

  function SrvRdata(port: nat, target: Name): Bytes
  {
    U16Bytes(0) + U16Bytes(0) + U16Bytes(port) + NameBytes(target)
  }

  lemma {:induction false} TxtStep(packet: Bytes, off: nat, end: nat, v: Bytes)
    requires |v| < 256 && At(packet, off, [|v| % 256] + v) && off + 1 + |v| <= end <= |packet|
    ensures TxtFrom(packet, off, end) == [v] + TxtFrom(packet, off + 1 + |v|, end)
  {
    AtSplit(packet, off, [|v| % 256], v);
    AtIndex(packet, off, [|v| % 256], 0);
  }

  lemma {:induction false} TxtReadBack(packet: Bytes, off: nat, values: seq<Bytes>)
    requires At(packet, off, TxtRdata(values))
    requires forall i :: 0 <= i < |values| ==> |values[i]| < 256
    ensures TxtFrom(packet, off, off + |TxtRdata(values)|) == values
    decreases |values|
  {
    if values != [] {
      hide TxtFrom;
      var v, rest := values[0], TxtRdata(values[1..]);
      AtSplit(packet, off, [|v| % 256] + v, rest);
      TxtStep(packet, off, off + |TxtRdata(values)|, v);
      TxtReadBack(packet, off + 1 + |v|, values[1..]);
      assert values == [v] + values[1..];
    }
  }

  /** The strings read are the bytes of the window, up to one that would overrun it; that one is not read. */
  lemma {:induction false} TxtReadsWindow(packet: Bytes, off: nat, end: nat)
    requires off <= end <= |packet|
    ensures var rdata := TxtRdata(TxtFrom(packet, off, end));
            var stop := off + |rdata|;
            At(packet, off, rdata) && stop <= end && (stop == end || stop + 1 + packet[stop] as int > end)
    decreases end - off
  {
    hide At;
    assert At(packet, off, []) by { EmptyAt(packet, off); }
    if off < end && off + 1 + packet[off] as int <= end {
      var next := off + 1 + packet[off] as int;
      var v, rest := packet[off + 1..next], TxtFrom(packet, next, end);
      TxtReadsWindow(packet, next, end);
      assert [v] + rest == TxtFrom(packet, off, end) && ([v] + rest)[1..] == rest;
      OneTxtAt(packet, off, v);
      AtJoin(packet, off, [|v| % 256] + v, TxtRdata(rest));
    }
  }

  lemma {:induction false} EmptyAt(packet: Bytes, off: nat)
    requires off <= |packet|
    ensures At(packet, off, [])
  {
  }

  lemma {:induction false} OneTxtAt(packet: Bytes, off: nat, v: Bytes)
    requires off + 1 + |v| <= |packet| && packet[off] as int == |v| && packet[off + 1..off + 1 + |v|] == v
    ensures At(packet, off, [|v| % 256] + v)
  {
    assert packet[off..off + 1 + |v|] == [packet[off]] + packet[off + 1..off + 1 + |v|];
  }

  lemma {:induction false} SrvReadBack(rec: Record, port: nat, target: Name)
    requires rec.InPacket() && rec.rtype == TYPE_SRV && rec.rdataLength == |SrvRdata(port, target)|
    requires At(rec.packet, rec.rdataStart, SrvRdata(port, target))
    requires port < 65536 && ReadableName(target)
    ensures SrvOf(rec) == Some(Srv(port, Canonical(target)))
  {
    hide NameAt, NameBytes, ReadableName, Canonical;
    var p, o := rec.packet, rec.rdataStart;
    var h := U16Bytes(0) + U16Bytes(0);
    AtSplit(p, o, h + U16Bytes(port), NameBytes(target));
    AtSplit(p, o, h, U16Bytes(port));
    U16At(p, o + 4, port);
    NameReadBack(p, o + 6, 0, target);
  }

  lemma {:induction false} IpReadBackAt(rec: Record, bytes: seq<Byte>)
    requires rec.InPacket() && rec.rtype == TYPE_A && rec.rdataLength == 4 == |bytes|
    requires At(rec.packet, rec.rdataStart, bytes)
    ensures IpOf(rec) == Some(IpText(bytes))
  {
  }
}
