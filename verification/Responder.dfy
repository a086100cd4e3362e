/**
 The service responder (src/mdns/service_response_builder.rs): which records
 answer a query, which ride along as additional records, and the goodbye.
 */
module Responder {
  import opened Bits
  import opened Text
  import opened DnsNames
  import opened DnsMessages
  import opened AddressText
  import opened ServiceInfo

  // ---- Records of a service -----------------------------------------------------------

  function PtrRR(s: Service, ttl: nat): RR
  {
    RR(s.serviceType, TYPE_PTR, CLASS_IN, ttl, NameBytes(s.Fqdn()))
  }

  function SrvRR(s: Service, ttl: nat): RR
  {
    RR(s.Fqdn(), TYPE_SRV, CACHE_FLUSH_CLASS_IN, ttl, SrvRdata(s.port, s.targetHostname))
  }

  function TxtRR(s: Service, ttl: nat): RR
  {
    RR(s.Fqdn(), TYPE_TXT, CACHE_FLUSH_CLASS_IN, ttl, TxtRdata(s.txtRecords))
  }

  function ARR(s: Service, ip: Ascii): RR
  {
    RR(s.targetHostname, TYPE_A, CACHE_FLUSH_CLASS_IN, TTL_SECONDS, IpToBytes(ip))
  }

  function ARRs(s: Service, ips: seq<Ascii>): (r: seq<RR>)
    ensures |r| == |ips| && forall i :: 0 <= i < |r| ==> r[i] == ARR(s, ips[i])
  {
    seq(|ips|, i requires 0 <= i < |ips| => ARR(s, ips[i]))
  }

  // ---- What a query asks for ------------------------------------------------------------

  datatype Wants = Wants(ptr: bool, srv: bool, txt: bool, a: bool)

  const NO_WANTS := Wants(false, false, false, false)

  function AddWants(w: Wants, q: Question, s: Service): Wants
  {
    var matchesType := EqIgnoreCase(q.name, s.serviceType);
    var matchesInstance := EqIgnoreCase(q.name, s.Fqdn());
    var matchesHostname := EqIgnoreCase(q.name, s.targetHostname);
    if q.qclass != CLASS_IN then w
    else if q.qtype == TYPE_PTR && matchesType then w.(ptr := true)
    else if q.qtype == TYPE_SRV && matchesInstance then w.(srv := true)
    else if q.qtype == TYPE_TXT && matchesInstance then w.(txt := true)
    else if q.qtype == TYPE_A && matchesHostname then w.(a := true)
    else if q.qtype == TYPE_ANY then
      Wants(w.ptr || matchesType, w.srv || matchesInstance, w.txt || matchesInstance, w.a || matchesHostname)
    else w
  }

  function WantsOf(qs: seq<Question>, s: Service): Wants
  {
    if qs == [] then NO_WANTS else AddWants(WantsOf(qs[..|qs| - 1], s), qs[|qs| - 1], s)
  }

  /** Some question of class IN asks for `qtype` records of a matching name, by type or by ANY. */
  ghost predicate Asked(qs: seq<Question>, qtype: nat, name: Name)
  {
    exists i :: 0 <= i < |qs| && qs[i].qclass == CLASS_IN && (qs[i].qtype == qtype || qs[i].qtype == TYPE_ANY)
                && EqIgnoreCase(qs[i].name, name)
  }

  lemma {:induction false} AskedStep(qs: seq<Question>, qtype: nat, name: Name)
    requires qs != []
    ensures var q := qs[|qs| - 1];
            Asked(qs, qtype, name)
            <==> Asked(qs[..|qs| - 1], qtype, name)
                 || (q.qclass == CLASS_IN && (q.qtype == qtype || q.qtype == TYPE_ANY) && EqIgnoreCase(q.name, name))
  {
    hide EqIgnoreCase;
    var n := |qs| - 1;
    assert forall i :: 0 <= i < n ==> qs[..n][i] == qs[i];
    if Asked(qs[..n], qtype, name) {
      var i :| 0 <= i < n && qs[..n][i].qclass == CLASS_IN && (qs[..n][i].qtype == qtype || qs[..n][i].qtype == TYPE_ANY)
               && EqIgnoreCase(qs[..n][i].name, name);
      assert EqIgnoreCase(qs[i].name, name);
    }
  }

  /** A record is wanted exactly when a question asks for its type, or for ANY, at its own name. */
  lemma {:induction false} WantsMean(qs: seq<Question>, s: Service)
    ensures WantsOf(qs, s).ptr <==> Asked(qs, TYPE_PTR, s.serviceType)
    ensures WantsOf(qs, s).srv <==> Asked(qs, TYPE_SRV, s.Fqdn())
    ensures WantsOf(qs, s).txt <==> Asked(qs, TYPE_TXT, s.Fqdn())
    ensures WantsOf(qs, s).a <==> Asked(qs, TYPE_A, s.targetHostname)
    decreases |qs|
  {
    hide EqIgnoreCase, Asked;
    if qs == [] {
      NothingAsked(s);
    } else {
      WantsMean(qs[..|qs| - 1], s);
      AskedStep(qs, TYPE_PTR, s.serviceType);
      AskedStep(qs, TYPE_SRV, s.Fqdn());
      AskedStep(qs, TYPE_TXT, s.Fqdn());
      AskedStep(qs, TYPE_A, s.targetHostname);
    }
  }

  lemma {:induction false} NothingAsked(s: Service)
    ensures forall qtype: nat, name: Name :: !Asked([], qtype, name)
  {
  }

  // ---- What is answered -------------------------------------------------------------------

  function AnswerRRs(s: Service, w: Wants): seq<RR>
  {
    (if w.ptr then [PtrRR(s, TTL_SECONDS)] else [])
    + (if w.srv then [SrvRR(s, TTL_SECONDS)] else [])
    + (if w.txt then [TxtRR(s, TTL_SECONDS)] else [])
    + (if w.a then ARRs(s, s.ips) else [])
  }

  /** Section 12 of RFC 6763: SRV, TXT and addresses ride along with a PTR, addresses with SRV or TXT. */
  function AdditionalRRs(s: Service, w: Wants): seq<RR>
  {
    (if w.ptr && !w.srv then [SrvRR(s, TTL_SECONDS)] else [])
    + (if w.ptr && !w.txt then [TxtRR(s, TTL_SECONDS)] else [])
    + (if (w.ptr || w.srv || w.txt) && !w.a then ARRs(s, s.ips) else [])
  }

  function ResponseBytes(s: Service, w: Wants): Bytes
  {
    MessageBytes([], AnswerRRs(s, w), [], AdditionalRRs(s, w))
  }

  function Response(query: Bytes, s: Service): Option<Bytes>
  {
    if s.ips == [] then None
    else
      match Questions(query)
      case None => None
      case Some(qs) =>
        var w := WantsOf(qs, s);
        if w == NO_WANTS then None else Some(ResponseBytes(s, w))
  }

  function GoodbyeRRs(s: Service): seq<RR>
  {
    [PtrRR(s, 0), SrvRR(s, 0), TxtRR(s, 0)]
  }

  function GoodbyeBytes(s: Service): Bytes
  {
    MessageBytes([], GoodbyeRRs(s), [], [])
  }

  // ---- The builders ---------------------------------------------------------------------

  method PtrRecord(s: Service, ttl: nat) returns (record: Bytes)
    ensures record == RecordBytes(PtrRR(s, ttl))
  {
    var out := new PacketBuffer();
    var name := EncodeName(s.serviceType);
    var rdata := EncodeName(s.Fqdn());
    out.WriteRecord(name, RR(s.serviceType, TYPE_PTR, CLASS_IN, ttl, rdata));
    record := out.bytes;
  }

  method SrvRecord(s: Service, ttl: nat) returns (record: Bytes)
    ensures record == RecordBytes(SrvRR(s, ttl))
  {
    hide NameBytes, U16Bytes;
    var rdata := new PacketBuffer();
    rdata.WriteU16(0);
    rdata.WriteU16(0);
    rdata.WriteU16(s.port);
    var target := EncodeName(s.targetHostname);
    rdata.WriteBytes(target);
    assert rdata.bytes == SrvRdata(s.port, s.targetHostname);
    var out := new PacketBuffer();
    var name := EncodeName(s.Fqdn());
    out.WriteRecord(name, RR(s.Fqdn(), TYPE_SRV, CACHE_FLUSH_CLASS_IN, ttl, rdata.bytes));
    record := out.bytes;
  }

  method TxtPayload(values: seq<Bytes>) returns (rdata: Bytes)
    ensures rdata == TxtRdata(values)
  {
    hide TxtRdata;
    rdata := [];
    assert values[0..] == values;
    for i := 0 to |values|
      invariant TxtRdata(values) == rdata + TxtRdata(values[i..])
    {
      TxtRdataFirst(values[i..]);
      assert values[i..][1..] == values[i + 1..];
      rdata := rdata + ([|values[i]| % 256] + values[i]);
    }
    assert values[|values|..] == [];
    assert TxtRdata([]) == [] by { NoTxtRdata(); }
  }

  lemma {:induction false} TxtRdataFirst(values: seq<Bytes>)
    requires values != []
    ensures TxtRdata(values) == [|values[0]| % 256] + values[0] + TxtRdata(values[1..])
  {
  }

  lemma {:induction false} NoTxtRdata()
    ensures TxtRdata([]) == []
  {
  }

  method TxtRecord(s: Service, ttl: nat) returns (record: Bytes)
    ensures record == RecordBytes(TxtRR(s, ttl))
  {
    var rdata := TxtPayload(s.txtRecords);
    var out := new PacketBuffer();
    var name := EncodeName(s.Fqdn());
    out.WriteRecord(name, RR(s.Fqdn(), TYPE_TXT, CACHE_FLUSH_CLASS_IN, ttl, rdata));
    record := out.bytes;
  }

  method ARecords(s: Service) returns (records: Bytes)
    ensures records == RecordsBytes(ARRs(s, s.ips))
  {
    hide NameBytes, RecordBytes, IpToBytes;
    var name := EncodeName(s.targetHostname);
    var out := new PacketBuffer();
    var rrs := ARRs(s, s.ips);
    for i := 0 to |s.ips|
      invariant fresh(out)
      invariant RecordsBytes(rrs) == out.bytes + RecordsBytes(rrs[i..])
    {
      assert rrs[i..][1..] == rrs[i + 1..];
      out.WriteRecord(name, RR(s.targetHostname, TYPE_A, CACHE_FLUSH_CLASS_IN, TTL_SECONDS, IpToBytes(s.ips[i])));
    }
    records := out.bytes;
  }

  method CollectWants(questions: seq<Question>, s: Service) returns (w: Wants)
    ensures w == WantsOf(questions, s)
  {
    w := NO_WANTS;
    for i := 0 to |questions|
      invariant w == WantsOf(questions[..i], s)
    {
      assert questions[..i + 1][..i] == questions[..i];
      var q := questions[i];
      if q.qclass != CLASS_IN {
        continue;
      }
      var matchesType := EqIgnoreCase(q.name, s.serviceType);
      var matchesInstance := EqIgnoreCase(q.name, s.Fqdn());
      var matchesHostname := EqIgnoreCase(q.name, s.targetHostname);
      if q.qtype == TYPE_PTR && matchesType {
        w := w.(ptr := true);
      } else if q.qtype == TYPE_SRV && matchesInstance {
        w := w.(srv := true);
      } else if q.qtype == TYPE_TXT && matchesInstance {
        w := w.(txt := true);
      } else if q.qtype == TYPE_A && matchesHostname {
        w := w.(a := true);
      } else if q.qtype == TYPE_ANY && (matchesType || matchesInstance || matchesHostname) {
        w := w.(ptr := w.ptr || matchesType);
        w := w.(srv := w.srv || matchesInstance);
        w := w.(txt := w.txt || matchesInstance);
        w := w.(a := w.a || matchesHostname);
      }
    }
    assert questions[..|questions|] == questions;
  }

  lemma {:induction false} RecordsBytesAppend(a: seq<RR>, b: seq<RR>)
    ensures RecordsBytes(a + b) == RecordsBytes(a) + RecordsBytes(b)
  {
    hide RecordBytes;
    if a == [] {
      assert a + b == b;
    } else {
      RecordsBytesAppend(a[1..], b);
      assert (a + b)[1..] == a[1..] + b;
    }
  }

  lemma {:induction false} OneRecordBytes(rr: RR)
    ensures RecordsBytes([rr]) == RecordBytes(rr)
  {
    hide RecordBytes;
    assert RecordsBytes([rr][1..]) == [];
  }

  /** Pushes the wanted answers; the count is what the header announces. */
  method WriteAnswers(s: Service, w: Wants) returns (answers: Bytes, count: nat)
    ensures answers == RecordsBytes(AnswerRRs(s, w)) && count == |AnswerRRs(s, w)|
  {
    hide RecordBytes, RecordsBytes, PtrRR, SrvRR, TxtRR, ARRs;
    answers := [];
    ghost var rrs: seq<RR> := [];
    assert RecordsBytes([]) == [] by { NoRecordBytes(); }
    if w.ptr {
      var r := PtrRecord(s, TTL_SECONDS);
      PushRecord(rrs, PtrRR(s, TTL_SECONDS));
      answers, rrs := answers + r, rrs + [PtrRR(s, TTL_SECONDS)];
    }
    if w.srv {
      var r := SrvRecord(s, TTL_SECONDS);
      PushRecord(rrs, SrvRR(s, TTL_SECONDS));
      answers, rrs := answers + r, rrs + [SrvRR(s, TTL_SECONDS)];
    }
    if w.txt {
      var r := TxtRecord(s, TTL_SECONDS);
      PushRecord(rrs, TxtRR(s, TTL_SECONDS));
      answers, rrs := answers + r, rrs + [TxtRR(s, TTL_SECONDS)];
    }
    if w.a {
      var r := ARecords(s);
      RecordsBytesAppend(rrs, ARRs(s, s.ips));
      answers, rrs := answers + r, rrs + ARRs(s, s.ips);
    }
    assert rrs == AnswerRRs(s, w);
    count := (if w.ptr then 1 else 0) + (if w.srv then 1 else 0) + (if w.txt then 1 else 0) + (if w.a then |s.ips| else 0);
  }

  lemma {:induction false} NoRecordBytes()
    ensures RecordsBytes([]) == []
  {
  }

  lemma {:induction false} PushRecord(rrs: seq<RR>, rr: RR)
    ensures RecordsBytes(rrs + [rr]) == RecordsBytes(rrs) + RecordBytes(rr)
  {
    hide RecordBytes, RecordsBytes;
    RecordsBytesAppend(rrs, [rr]);
    OneRecordBytes(rr);
  }

  method WriteAdditional(s: Service, w: Wants) returns (additional: Bytes, count: nat)
    ensures additional == RecordsBytes(AdditionalRRs(s, w)) && count == |AdditionalRRs(s, w)|
  {
    hide RecordBytes, RecordsBytes, PtrRR, SrvRR, TxtRR, ARRs;
    additional, count := [], 0;
    ghost var rrs: seq<RR> := [];
    assert RecordsBytes([]) == [] by { NoRecordBytes(); }
    if w.ptr {
      if !w.srv {
        var r := SrvRecord(s, TTL_SECONDS);
        PushRecord(rrs, SrvRR(s, TTL_SECONDS));
        additional, count, rrs := additional + r, count + 1, rrs + [SrvRR(s, TTL_SECONDS)];
      }
      if !w.txt {
        var r := TxtRecord(s, TTL_SECONDS);
        PushRecord(rrs, TxtRR(s, TTL_SECONDS));
        additional, count, rrs := additional + r, count + 1, rrs + [TxtRR(s, TTL_SECONDS)];
      }
      if !w.a {
        var r := ARecords(s);
        RecordsBytesAppend(rrs, ARRs(s, s.ips));
        additional, count, rrs := additional + r, count + |s.ips|, rrs + ARRs(s, s.ips);
      }
    } else if (w.srv || w.txt) && !w.a {
      var r := ARecords(s);
      RecordsBytesAppend(rrs, ARRs(s, s.ips));
      additional, count, rrs := additional + r, count + |s.ips|, rrs + ARRs(s, s.ips);
    }
    assert rrs == AdditionalRRs(s, w);
  }

  /** `build_response_if_match` */
  method BuildResponseIfMatch(query: Bytes, s: Service) returns (r: Option<Bytes>)
    ensures r == Response(query, s)
  {
    hide RecordsBytes, AnswerRRs, AdditionalRRs, Questions, HeaderBytes, WantsOf;
    if s.ips == [] {
      return None;
    }
    var questions := ReadQuestions(query);
    if questions.None? {
      return None;
    }
    var w := CollectWants(questions.value, s);
    if !w.ptr && !w.srv && !w.txt && !w.a {
      return None;
    }
    var answers, answerCount := WriteAnswers(s, w);
    var additional, additionalCount := WriteAdditional(s, w);
    SomeAnswer(s, w);
    if answers == [] {
      return None;
    }
    NoQuestionBytes(AnswerRRs(s, w), AdditionalRRs(s, w));
    var out := new PacketBuffer();
    out.WriteHeader(answerCount, additionalCount);
    out.WriteBytes(answers);
    out.WriteBytes(additional);
    assert out.bytes == ResponseBytes(s, w);
    return Some(out.bytes);
  }

  lemma {:induction false} NoQuestionBytes(answers: seq<RR>, additional: seq<RR>)
    ensures MessageBytes([], answers, [], additional)
         == HeaderBytes(RESPONSE_FLAGS, 0, |answers|, 0, |additional|) + RecordsBytes(answers) + RecordsBytes(additional)
  {
    hide HeaderBytes;
    NoRecordBytes();
  }

  lemma {:induction false} SomeAnswer(s: Service, w: Wants)
    requires s.ips != [] && w != NO_WANTS
    ensures RecordsBytes(AnswerRRs(s, w)) != []
  {
    hide RecordBytes, PtrRR, SrvRR, TxtRR;
    var rrs := AnswerRRs(s, w);
    assert |rrs| > 0;
    SomeRecordBytes(rrs[0]);
  }

  lemma {:induction false} SomeRecordBytes(rr: RR)
    ensures |RecordBytes(rr)| > 0
  {
  }

  method BuildGoodbye(s: Service) returns (goodbye: Bytes)
    ensures goodbye == GoodbyeBytes(s)
  {
    hide RecordBytes, RecordsBytes, HeaderBytes, PtrRR, SrvRR, TxtRR;
    var out := new PacketBuffer();
    out.WriteHeader(3, 0);
    var ptr := PtrRecord(s, 0);
    out.WriteBytes(ptr);
    var srv := SrvRecord(s, 0);
    out.WriteBytes(srv);
    var txt := TxtRecord(s, 0);
    out.WriteBytes(txt);
    goodbye := out.bytes;
    NoQuestionBytes(GoodbyeRRs(s), []);
    NoRecordBytes();
    OneRecordBytes(PtrRR(s, 0));
    PushRecord([PtrRR(s, 0)], SrvRR(s, 0));
    PushRecord([PtrRR(s, 0), SrvRR(s, 0)], TxtRR(s, 0));
    assert [PtrRR(s, 0)] + [SrvRR(s, 0)] == [PtrRR(s, 0), SrvRR(s, 0)];
    assert [PtrRR(s, 0), SrvRR(s, 0)] + [TxtRR(s, 0)] == GoodbyeRRs(s);
  }

  // ---- The hostname responder (packet_codec.rs) -------------------------------------------

  /** `build_response_if_match` for a bare hostname: one A record per address. */
  function HostResponse(query: Bytes, hostname: Name, ips: seq<Ascii>): Option<Bytes>
  {
    if ips == [] then None
    else
      match Questions(query)
      case None => None
      case Some(qs) => if MatchingHost(qs, hostname) == [] then None else Some(HostBytes(hostname, ips))
  }

  /** The questions that ask for the hostname's addresses. */
  function MatchingHost(qs: seq<Question>, hostname: Name): seq<Question>
  {
    if qs == [] then []
    else
      var rest, q := MatchingHost(qs[..|qs| - 1], hostname), qs[|qs| - 1];
      if EqIgnoreCase(q.name, hostname) && q.qclass == CLASS_IN && (q.qtype == TYPE_A || q.qtype == TYPE_ANY) then rest + [q] else rest
  }

  function HostBytes(hostname: Name, ips: seq<Ascii>): Bytes
  {
    MessageBytes([], HostRRs(hostname, ips), [], [])
  }

  /** The address records depend on the hostname alone. */
  function HostRRs(hostname: Name, ips: seq<Ascii>): seq<RR>
  {
    var s := HostService(hostname, ips);
    ARRs(s, s.ips)
  }

  function HostService(hostname: Name, ips: seq<Ascii>): Service
  {
    Service([], [], hostname, 0, [], ips)
  }

  method BuildHostResponseIfMatch(query: Bytes, hostname: Name, ips: seq<Ascii>)
    returns (r: Option<Bytes>, matched: seq<Question>)
    ensures r == HostResponse(query, hostname, ips)
    ensures r.Some? ==> matched == MatchingHost(Questions(query).value, hostname)
  {
    hide RecordsBytes, Questions, HeaderBytes, MatchingHost, ARRs;
    matched := [];
    if ips == [] {
      return None, [];
    }
    var questions := ReadQuestions(query);
    if questions.None? {
      return None, [];
    }
    matched := MatchingHost(questions.value, hostname);
    if matched == [] {
      return None, [];
    }
    var records := ARecords(HostService(hostname, ips));
    AddressCount(HostService(hostname, ips));
    NoRecordBytes();
    NoQuestionBytes(HostRRs(hostname, ips), []);
    var out := new PacketBuffer();
    out.WriteHeader(|ips|, 0);
    out.WriteBytes(records);
    assert out.bytes == HostBytes(hostname, ips);
    return Some(out.bytes), matched;
  }

  /** A question is matched exactly when it asks for addresses of the hostname; their order is kept. */
  lemma {:induction false} MatchingHostIff(qs: seq<Question>, hostname: Name)
    ensures forall q :: q in MatchingHost(qs, hostname)
                   <==> q in qs && q.qclass == CLASS_IN && (q.qtype == TYPE_A || q.qtype == TYPE_ANY) && EqIgnoreCase(q.name, hostname)
    ensures (forall q :: q in qs ==> q in MatchingHost(qs, hostname)) ==> MatchingHost(qs, hostname) == qs
    decreases |qs|
  {
    hide EqIgnoreCase;
    if qs != [] {
      MatchingHostIff(qs[..|qs| - 1], hostname);
      assert qs == qs[..|qs| - 1] + [qs[|qs| - 1]];
    }
  }

  /** A hostname with addresses answers a query exactly when some question asks for them. */
  lemma {:induction false} HostAnsweredIff(qs: seq<Question>, hostname: Name, ips: seq<Ascii>)
    requires |qs| < 65536 && forall i :: 0 <= i < |qs| ==> PrintableQuestion(qs[i]) && NoEmptyLabel(qs[i].name)
    ensures HostResponse(QueryMessage(qs), hostname, ips)
         == if ips != [] && Asked(qs, TYPE_A, hostname) then Some(HostBytes(hostname, ips)) else None
  {
    hide EqIgnoreCase, PrintableQuestion, NoEmptyLabel, QueryMessage, Questions, HostBytes, MatchingHost;
    QueryMessageReadBack(qs);
    MatchingHostIff(qs, hostname);
    var matched := MatchingHost(qs, hostname);
    if matched != [] {
      assert matched[0] in matched;
      var i :| 0 <= i < |qs| && qs[i] == matched[0];
      assert EqIgnoreCase(qs[i].name, hostname);
    }
    if Asked(qs, TYPE_A, hostname) {
      var i :| 0 <= i < |qs| && qs[i].qclass == CLASS_IN && (qs[i].qtype == TYPE_A || qs[i].qtype == TYPE_ANY)
               && EqIgnoreCase(qs[i].name, hostname);
      assert qs[i] in matched;
    }
    if qs == [] {
      assert !Asked(qs, TYPE_A, hostname);
    }
  }

  // ---- Which record is sent where ---------------------------------------------------------

  /**
   A record is an answer exactly when it is wanted, and rides along exactly when
   a record that needs it is wanted and it is not an answer itself.
   */
  lemma {:induction false} AnswersMean(s: Service, w: Wants)
    ensures var answers, more := AnswerRRs(s, w), AdditionalRRs(s, w);
            && (PtrRR(s, TTL_SECONDS) in answers <==> w.ptr) && PtrRR(s, TTL_SECONDS) !in more
            && (SrvRR(s, TTL_SECONDS) in answers <==> w.srv) && (SrvRR(s, TTL_SECONDS) in more <==> w.ptr && !w.srv)
            && (TxtRR(s, TTL_SECONDS) in answers <==> w.txt) && (TxtRR(s, TTL_SECONDS) in more <==> w.ptr && !w.txt)
            && forall ip :: ip in s.ips ==> (ARR(s, ip) in answers <==> w.a)
                                            && (ARR(s, ip) in more <==> !w.a && (w.ptr || w.srv || w.txt))
  {
    hide NameBytes, SrvRdata, TxtRdata, IpToBytes;
    var addresses := ARRs(s, s.ips);
    forall rr | rr in addresses ensures rr.rtype == TYPE_A {
      var i :| 0 <= i < |s.ips| && rr == ARR(s, s.ips[i]);
    }
    forall ip | ip in s.ips ensures ARR(s, ip) in addresses {
      var i :| 0 <= i < |s.ips| && s.ips[i] == ip;
      assert addresses[i] == ARR(s, ip);
    }
  }

  /** Whatever is asked, the answers are exactly the records asked for, by type or by ANY, at their own names. */
  lemma {:induction false} QueryAnsweredIff(qs: seq<Question>, s: Service)
    requires |qs| < 65536 && forall i :: 0 <= i < |qs| ==> PrintableQuestion(qs[i]) && NoEmptyLabel(qs[i].name)
    ensures var w := Wants(Asked(qs, TYPE_PTR, s.serviceType), Asked(qs, TYPE_SRV, s.Fqdn()),
                           Asked(qs, TYPE_TXT, s.Fqdn()), Asked(qs, TYPE_A, s.targetHostname));
            Response(QueryMessage(qs), s) == if s.ips != [] && w != NO_WANTS then Some(ResponseBytes(s, w)) else None
  {
    hide PrintableQuestion, NoEmptyLabel, QueryMessage, Questions, ResponseBytes, Asked;
    QueryMessageReadBack(qs);
    WantsMean(qs, s);
  }

  /** A service record names no preference: priority and weight are zero. */
  lemma {:induction false} NoPreference(s: Service, ttl: nat)
    ensures |SrvRR(s, ttl).rdata| > 6 && SrvRR(s, ttl).rdata[..4] == [0, 0, 0, 0]
  {
    hide NameBytes;
  }

  /** Section 10.2 of RFC 6762: records of which there is one set carry the cache-flush bit, the shared PTR does not. */
  lemma {:induction false} OnlyPtrIsShared(s: Service, w: Wants)
    ensures forall rr :: rr in AnswerRRs(s, w) + AdditionalRRs(s, w)
                     ==> rr.ttl == TTL_SECONDS && rr.cls == if rr.rtype == TYPE_PTR then CLASS_IN else CACHE_FLUSH_CLASS_IN
  {
    hide NameBytes, SrvRdata, TxtRdata, IpToBytes;
    forall rr | rr in ARRs(s, s.ips) ensures rr.rtype == TYPE_A && rr.cls == CACHE_FLUSH_CLASS_IN && rr.ttl == TTL_SECONDS {
      var i :| 0 <= i < |s.ips| && rr == ARR(s, s.ips[i]);
    }
  }

  // ---- What a reader of the response sees -------------------------------------------------

  /** Canonical dotted-quad text. */
  ghost predicate CanonicalIp(ip: Ascii)
  {
    exists bytes: seq<Byte> :: |bytes| == 4 && ip == IpText(bytes)
  }

  lemma {:induction false} CanonicalIpBytes(ip: Ascii) returns (bytes: seq<Byte>)
    requires CanonicalIp(ip)
    ensures |bytes| == 4 && ip == IpText(bytes) && IpToBytes(ip) == bytes
  {
    bytes :| |bytes| == 4 && ip == IpText(bytes);
    IpReadBack(bytes);
  }

  /**
   The names are made of non-empty labels of at most 191 bytes (section 2.3.4
   of RFC 1035 allows 63), TXT strings have at most 255 bytes, addresses are
   canonical and every RDATA fits its 16-bit length.
   */
  ghost predicate Publishable(s: Service)
  {
    && ReadableName(s.serviceType) && NoEmptyLabel(s.serviceType)
    && ReadableName(s.Fqdn()) && NoEmptyLabel(s.Fqdn()) && |NameBytes(s.Fqdn())| < 65536
    && ReadableName(s.targetHostname) && NoEmptyLabel(s.targetHostname) && |NameBytes(s.targetHostname)| + 6 < 65536
    && s.port < 65536
    && (forall i :: 0 <= i < |s.txtRecords| ==> |s.txtRecords[i]| < 256) && |TxtRdata(s.txtRecords)| < 65536
    && (forall ip :: ip in s.ips ==> CanonicalIp(ip))
  }

  lemma {:induction false} ServiceRecordsPrintable(s: Service, ttl: nat)
    requires Publishable(s) && ttl < 0x1_0000_0000
    ensures Printable(PtrRR(s, ttl)) && Printable(SrvRR(s, ttl)) && Printable(TxtRR(s, ttl))
  {
    hide ReadableName, NoEmptyLabel, NameBytes, TxtRdata, CanonicalIp;
  }

  lemma {:induction false} AddressRecordsPrintable(s: Service)
    requires Publishable(s)
    ensures forall rr :: rr in ARRs(s, s.ips) ==> Printable(rr)
  {
    hide ReadableName, NoEmptyLabel, NameBytes, TxtRdata, IpToBytes;
    forall rr | rr in ARRs(s, s.ips) ensures Printable(rr) {
      var i :| 0 <= i < |s.ips| && rr == ARR(s, s.ips[i]);
      assert s.ips[i] in s.ips;
      var bytes := CanonicalIpBytes(s.ips[i]);
    }
  }

  /** The records of both sections fit their 16-bit counts. */
  predicate FitsCounts(s: Service, w: Wants)
  {
    |AnswerRRs(s, w)| < 65536 && |AdditionalRRs(s, w)| < 65536
  }

  /**
   For every combination of wanted records, a parser gets back exactly the
   answers and additional records, as soon as their numbers fit the counts.
   */
  lemma {:induction false} ResponseReadBack(s: Service, w: Wants)
    requires Publishable(s)
    ensures FitsCounts(s, w)
       <==> var p := Parse(ResponseBytes(s, w));
            p.Some? && p.value.flags == RESPONSE_FLAGS && AllCarry(p.value.answers, AnswerRRs(s, w))
            && AllCarry(p.value.additional, AdditionalRRs(s, w))
  {
    hide Publishable, PtrRR, SrvRR, TxtRR, ARRs, Printable, Carries, Parse, MessageBytes;
    ServiceRecordsPrintable(s, TTL_SECONDS);
    AddressRecordsPrintable(s);
    if FitsCounts(s, w) {
      MessageReadBack([], AnswerRRs(s, w), [], AdditionalRRs(s, w));
    }
  }

  lemma {:induction false} AddressCount(s: Service)
    ensures |ARRs(s, s.ips)| == |s.ips|
  {
  }

  lemma {:induction false} GoodbyeReadBack(s: Service)
    requires Publishable(s)
    ensures var p := Parse(GoodbyeBytes(s));
            p.Some? && p.value.flags == RESPONSE_FLAGS && AllCarry(p.value.answers, GoodbyeRRs(s)) && p.value.additional == []
  {
    hide Publishable, PtrRR, SrvRR, TxtRR, Printable, Parse, MessageBytes;
    ServiceRecordsPrintable(s, 0);
    MessageReadBack([], GoodbyeRRs(s), [], []);
  }

  /** A PTR question for the service type, by any casing, always gets an answer that carries PTR, SRV, TXT and addresses. */
  lemma {:induction false} PtrQueryAnswered(name: Name, unicast: bool, s: Service)
    requires s.ips != [] && ReadableName(name) && NoEmptyLabel(name) && EqIgnoreCase(name, s.serviceType)
    ensures Response(QueryBytes(name, TYPE_PTR, unicast), s) == Some(ResponseBytes(s, Wants(true, false, false, false)))
  {
    hide ReadableName, NoEmptyLabel, QueryBytes, Questions, ResponseBytes, EqIgnoreCase;
    QueryReadBack(name, TYPE_PTR, unicast);
    CanonicalId(name);
    var q := Question(name, TYPE_PTR, CLASS_IN, unicast);
    assert WantsOf([q][..0], s) == NO_WANTS;
    assert WantsOf([q], s) == AddWants(WantsOf([q][..0], s), q, s);
  }

  /** A hostname and addresses that can be announced. */
  ghost predicate PublishableHost(hostname: Name, ips: seq<Ascii>)
  {
    && ReadableName(hostname) && NoEmptyLabel(hostname)
    && (forall ip :: ip in ips ==> CanonicalIp(ip)) && |ips| < 65536
  }

  lemma {:induction false} HostResponseReadBack(hostname: Name, ips: seq<Ascii>)
    requires PublishableHost(hostname, ips)
    ensures var p := Parse(HostBytes(hostname, ips));
            p.Some? && p.value.flags == RESPONSE_FLAGS && AllCarry(p.value.answers, HostRRs(hostname, ips)) && p.value.additional == []
  {
    hide Parse, MessageBytes, ReadableName, NoEmptyLabel, IpToBytes, Printable;
    var rrs := HostRRs(hostname, ips);
    forall rr | rr in rrs ensures Printable(rr) {
      var i :| 0 <= i < |ips| && rr == ARR(HostService(hostname, ips), ips[i]);
      assert ips[i] in ips;
      var bytes := CanonicalIpBytes(ips[i]);
      HostRecordPrintable(rr, hostname, bytes);
    }
    MessageReadBack([], rrs, [], []);
  }

  lemma {:induction false} HostRecordPrintable(rr: RR, hostname: Name, bytes: seq<Byte>)
    requires ReadableName(hostname) && |bytes| == 4 && rr == RR(hostname, TYPE_A, CACHE_FLUSH_CLASS_IN, TTL_SECONDS, bytes)
    ensures Printable(rr)
  {
  }
}
