/**
 DNS/mDNS messages (src/mdns/packet_codec.rs): headers, questions and resource
 records. The functions say what the parsers compute on any packet; the lemmas
 show that parsing undoes printing, section by section.
 */
module DnsMessages {
  import opened Bits
  import opened Text
  import opened DnsNames

  const CLASS_IN: nat := 0x0001
  const CACHE_FLUSH_CLASS_IN: nat := 0x8001
  const TYPE_A: nat := 0x0001
  const TYPE_PTR: nat := 0x000C
  const TYPE_TXT: nat := 0x0010
  const TYPE_AAAA: nat := 0x001C
  const TYPE_SRV: nat := 0x0021
  const TYPE_ANY: nat := 0x00FF
  const RESPONSE_FLAGS: nat := 0x8400
  const TTL_SECONDS: nat := 120
  const HEADER_SIZE: nat := 12

  // ---- Parsed and printed entities ---------------------------------------------

  /** `MdnsRecord`: the fixed fields and the window of the RDATA in its packet. */
  datatype Record = Record(name: Name, rtype: nat, ttl: nat, packet: Bytes, rdataStart: nat, rdataLength: nat)
  {
    predicate InPacket()
    {
      rdataStart + rdataLength <= |packet|
    }

    function Rdata(): Bytes
      requires InPacket()
    {
      packet[rdataStart..rdataStart + rdataLength]
    }
  }

  datatype Parsed = Parsed(flags: nat, answers: seq<Record>, additional: seq<Record>)
  {
    /** Bit 15 of the flags. */
    predicate IsResponse()
    {
      flags / 32768 % 2 == 1
    }

    function AllRecords(): seq<Record>
    {
      answers + additional
    }
  }

  datatype Question = Question(name: Name, qtype: nat, qclass: nat, unicast: bool)

  /** A resource record handed to `write_record`. */
  datatype RR = RR(name: Name, rtype: nat, cls: nat, ttl: nat, rdata: Bytes)

  /** The fields fit their wire widths and the name its labels. */
  predicate Printable(rr: RR)
  {
    ReadableName(rr.name) && rr.rtype < 65536 && rr.cls < 65536 && rr.ttl < 0x1_0000_0000 && |rr.rdata| < 65536
  }

  function RecordBytes(rr: RR): Bytes
  {
    NameBytes(rr.name) + U16Bytes(rr.rtype) + U16Bytes(rr.cls) + U32Bytes(rr.ttl) + U16Bytes(|rr.rdata|) + rr.rdata
  }

  function RecordsBytes(rrs: seq<RR>): Bytes
  {
    if rrs == [] then [] else RecordBytes(rrs[0]) + RecordsBytes(rrs[1..])
  }

  function HeaderBytes(flags: nat, questions: nat, answers: nat, authority: nat, additional: nat): (b: Bytes)
    ensures |b| == HEADER_SIZE
  {
    U16Bytes(0) + U16Bytes(flags) + U16Bytes(questions) + U16Bytes(answers) + U16Bytes(authority) + U16Bytes(additional)
  }

  function QuestionBytes(q: Question): Bytes
  {
    NameBytes(q.name) + U16Bytes(q.qtype) + U16Bytes(q.qclass + if q.unicast then 0x8000 else 0)
  }

  function QuestionsBytes(qs: seq<Question>): Bytes
  {
    if qs == [] then [] else QuestionBytes(qs[0]) + QuestionsBytes(qs[1..])
  }

  // ---- What the parsers compute -------------------------------------------------

  /** One resource record at `off`, and the offset after it. */
  function RecordAt(data: Bytes, off: nat): (r: Option<(Record, nat)>)
    ensures r.Some? ==> r.value.0.InPacket() && r.value.0.packet == data && off < r.value.1 <= |data|
  {
    match NameAt(data, off, 0)
    case None => None
    case Some((name, next)) =>
      if next + 10 > |data| then None
      else
        var rdlen := ReadU16(data, next + 8);
        if next + 10 + rdlen > |data| then None
        else Some((Record(name, ReadU16(data, next), ReadU32(data, next + 4), data, next + 10, rdlen), next + 10 + rdlen))
  }

  /** `read_records`: `count` records from `off` on; every RDATA window lies in the packet. */
  function RecordsAt(data: Bytes, off: nat, count: nat): (r: Option<(seq<Record>, nat)>)
    ensures r.Some? ==> |r.value.0| == count && off <= r.value.1
    ensures r.Some? && off <= |data| ==> r.value.1 <= |data|
    ensures r.Some? ==> forall i :: 0 <= i < count ==> r.value.0[i].InPacket() && r.value.0[i].packet == data
    decreases count
  {
    if count == 0 then Some(([], off))
    else
      match RecordAt(data, off)
      case None => None
      case Some((first, next)) =>
        match RecordsAt(data, next, count - 1)
        case None => None
        case Some((rest, end)) => Some(([first] + rest, end))
  }

  function SkipQuestions(data: Bytes, off: nat, count: nat): (r: Option<nat>)
    ensures r.Some? && off <= |data| ==> off <= r.value <= |data|
    decreases count
  {
    if count == 0 then Some(off)
    else
      match NameAt(data, off, 0)
      case None => None
      case Some((_, next)) => if next + 4 > |data| then None else SkipQuestions(data, next + 4, count - 1)
  }

  /** `parse_response`: answers and additional records; questions and authority are skipped. */
  function Parse(data: Bytes): (r: Option<Parsed>)
    ensures r.Some? ==> r.value.flags < 65536 && |r.value.answers| < 65536 && |r.value.additional| < 65536
    ensures r.Some? ==> forall rec :: rec in r.value.AllRecords() ==> rec.InPacket() && rec.packet == data
  {
    if |data| < HEADER_SIZE then None
    else
      match SkipQuestions(data, HEADER_SIZE, ReadU16(data, 4))
      case None => None
      case Some(o1) =>
        match RecordsAt(data, o1, ReadU16(data, 6))
        case None => None
        case Some((answers, o2)) =>
          match RecordsAt(data, o2, ReadU16(data, 8))
          case None => None
          case Some((_, o3)) =>
            match RecordsAt(data, o3, ReadU16(data, 10))
            case None => None
            case Some((additional, _)) => Some(Parsed(ReadU16(data, 2), answers, additional))
  }

  function QuestionsAt(data: Bytes, off: nat, count: nat): (r: Option<seq<Question>>)
    ensures r.Some? ==> |r.value| == count
    decreases count
  {
    if count == 0 then Some([])
    else
      match NameAt(data, off, 0)
      case None => None
      case Some((name, next)) =>
        if next + 4 > |data| then None
        else
          match QuestionsAt(data, next + 4, count - 1)
          case None => None
          case Some(rest) => Some([RawQuestion(name, ReadU16(data, next), ReadU16(data, next + 2))] + rest)
  }

  /** The class field carries the unicast-response bit on top. */
  function RawQuestion(name: Name, qtype: nat, rawClass: nat): Question
  {
    Question(name, qtype, rawClass % 32768, rawClass / 32768 % 2 == 1)
  }

  /** Bit 15 and the 15 bits below it, as `& 0x8000 != 0` and `& 0x7FFF` read them. */
  lemma {:induction false} ClassByMasks(v: nat)
    requires v < 65536
    ensures And(v, 0x8000) != 0 <==> v / 32768 % 2 == 1
    ensures And(v, 0x7FFF) == v % 32768
  {
    TopBit16(v);
    assert Pow2(15) == 32768;
    AndMask(v, 15);
  }

  /** `read_questions`: none for a response, a short packet or no question at all. */
  function Questions(data: Bytes): (r: Option<seq<Question>>)
  {
    if |data| < HEADER_SIZE then None
    else if ReadU16(data, 2) / 32768 % 2 == 1 then None
    else if ReadU16(data, 4) == 0 then None
    else QuestionsAt(data, HEADER_SIZE, ReadU16(data, 4))
  }

  // ---- The parsers, as loops over the offset ------------------------------------

  method ReadRecords(data: Bytes, start: nat, count: nat) returns (r: Option<(seq<Record>, nat)>)
    ensures r == RecordsAt(data, start, count)
  {
    hide NameAt, NameFrom;
    var records: seq<Record> := [];
    var offset: nat := start;
    PrependNone(RecordsAt(data, start, count));
    for i := 0 to count
      invariant Prepend([], RecordsAt(data, start, count)) == Prepend(records, RecordsAt(data, offset, count - i))
    {
      var name := ReadName(data, offset, 0);
      if name.None? {
        return None;
      }
      var next := name.value.1;
      if next + 10 > |data| {
        return None;
      }
      var rtype := ReadU16(data, next);
      var ttl := ReadU32(data, next + 4);
      var rdlen := ReadU16(data, next + 8);
      if next + 10 + rdlen > |data| {
        return None;
      }
      var record := Record(name.value.0, rtype, ttl, data, next + 10, rdlen);
      PrependStep(records, record, RecordsAt(data, next + 10 + rdlen, count - i - 1));
      records := records + [record];
      offset := next + 10 + rdlen;
    }
    assert records + [] == records;
    return Some((records, offset));
  }

  function Prepend(records: seq<Record>, rest: Option<(seq<Record>, nat)>): Option<(seq<Record>, nat)>
  {
    match rest
    case None => None
    case Some((rs, end)) => Some((records + rs, end))
  }

  lemma {:induction false} PrependNone(rest: Option<(seq<Record>, nat)>)
    ensures Prepend([], rest) == rest
  {
    if rest.Some? {
      assert [] + rest.value.0 == rest.value.0;
    }
  }

  lemma {:induction false} PrependStep(records: seq<Record>, record: Record, rest: Option<(seq<Record>, nat)>)
    ensures Prepend(records, Prepend([record], rest)) == Prepend(records + [record], rest)
  {
    if rest.Some? {
      assert records + ([record] + rest.value.0) == records + [record] + rest.value.0;
    }
  }

  function PrependQuestions(questions: seq<Question>, rest: Option<seq<Question>>): Option<seq<Question>>
  {
    match rest
    case None => None
    case Some(qs) => Some(questions + qs)
  }

  lemma {:induction false} PrependQuestionsNone(rest: Option<seq<Question>>)
    ensures PrependQuestions([], rest) == rest
  {
    if rest.Some? {
      assert [] + rest.value == rest.value;
    }
  }

  lemma {:induction false} PrependQuestion(questions: seq<Question>, q: Question, rest: Option<seq<Question>>)
    ensures PrependQuestions(questions, PrependQuestions([q], rest)) == PrependQuestions(questions + [q], rest)
  {
    if rest.Some? {
      assert questions + ([q] + rest.value) == questions + [q] + rest.value;
    }
  }

  method ParseResponse(data: Bytes) returns (r: Option<Parsed>)
    ensures r == Parse(data)
  {
    if |data| < HEADER_SIZE {
      return None;
    }
    var flags := ReadU16(data, 2);
    var qdCount, anCount := ReadU16(data, 4), ReadU16(data, 6);
    var nsCount, arCount := ReadU16(data, 8), ReadU16(data, 10);
    var offset: nat := HEADER_SIZE;
    for i := 0 to qdCount
      invariant offset <= |data|
      invariant SkipQuestions(data, HEADER_SIZE, qdCount) == SkipQuestions(data, offset, qdCount - i)
    {
      var name := ReadName(data, offset, 0);
      if name.None? {
        return None;
      }
      if name.value.1 + 4 > |data| {
        return None;
      }
      offset := name.value.1 + 4;
    }
    var answers := ReadRecords(data, offset, anCount);
    if answers.None? {
      return None;
    }
    var authority := ReadRecords(data, answers.value.1, nsCount);
    if authority.None? {
      return None;
    }
    var additional := ReadRecords(data, authority.value.1, arCount);
    if additional.None? {
      return None;
    }
    return Some(Parsed(flags, answers.value.0, additional.value.0));
  }

  method ReadQuestions(data: Bytes) returns (r: Option<seq<Question>>)
    ensures r == Questions(data)
  {
    hide NameAt, And, ReadU16;
    if |data| < HEADER_SIZE {
      return None;
    }
    ClassByMasks(ReadU16(data, 2));
    if And(ReadU16(data, 2), 0x8000) != 0 {
      return None;
    }
    var qdCount := ReadU16(data, 4);
    if qdCount == 0 {
      return None;
    }
    var offset: nat := HEADER_SIZE;
    var questions: seq<Question> := [];
    ghost var all := QuestionsAt(data, HEADER_SIZE, qdCount);
    PrependQuestionsNone(all);
    for i := 0 to qdCount
      invariant all == PrependQuestions(questions, QuestionsAt(data, offset, qdCount - i))
    {
      var name := ReadName(data, offset, 0);
      if name.None? {
        return None;
      }
      offset := name.value.1;
      if offset + 4 > |data| {
        return None;
      }
      var qtype, rawClass := ReadU16(data, offset), ReadU16(data, offset + 2);
      ClassByMasks(rawClass);
      var q := Question(name.value.0, qtype, And(rawClass, 0x7FFF), And(rawClass, 0x8000) != 0);
      PrependQuestion(questions, q, QuestionsAt(data, offset + 4, qdCount - i - 1));
      questions := questions + [q];
      offset := offset + 4;
    }
    assert questions + [] == questions;
    return Some(questions);
  }

  // ---- The writers, as pushes onto a buffer --------------------------------------

  /** `out: &mut Vec<u8>`. */
  class PacketBuffer {
    var bytes: Bytes

    constructor ()
      ensures bytes == []
    {
      bytes := [];
    }

    method WriteBytes(b: Bytes)
      modifies this
      ensures bytes == old(bytes) + b
    {
      bytes := bytes + b;
    }

    method WriteU16(v: nat)
      modifies this
      ensures bytes == old(bytes) + U16Bytes(v)
    {
      bytes := bytes + [v / 256 % 256];
      bytes := bytes + [v % 256];
    }

    method WriteU32(v: nat)
      modifies this
      ensures bytes == old(bytes) + U32Bytes(v)
    {
      bytes := bytes + [v / 16777216 % 256];
      bytes := bytes + [v / 65536 % 256];
      bytes := bytes + [v / 256 % 256];
      bytes := bytes + [v % 256];
    }

    /** Counts are truncated as by `as u16`. */
    method WriteHeader(answers: nat, additional: nat)
      modifies this
      ensures bytes == old(bytes) + HeaderBytes(RESPONSE_FLAGS, 0, answers, 0, additional)
    {
      WriteU16(0);
      WriteU16(RESPONSE_FLAGS);
      WriteU16(0);
      WriteU16(answers);
      WriteU16(0);
      WriteU16(additional);
    }

    method WriteRecord(name: Bytes, rr: RR)
      requires name == NameBytes(rr.name)
      modifies this
      ensures bytes == old(bytes) + RecordBytes(rr)
    {
      WriteBytes(name);
      WriteU16(rr.rtype);
      WriteU16(rr.cls);
      WriteU32(rr.ttl);
      WriteU16(|rr.rdata|);
      WriteBytes(rr.rdata);
    }
  }

  /** `build_query`: one question and no record. */
  function QueryBytes(name: Name, qtype: nat, unicast: bool): Bytes
  {
    HeaderBytes(0, 1, 0, 0, 0) + QuestionBytes(Question(name, qtype, CLASS_IN, unicast))
  }

  method BuildQuery(name: Name, qtype: nat, unicast: bool) returns (query: Bytes)
    ensures query == QueryBytes(name, qtype, unicast)
  {
    hide NameBytes, U16Bytes;
    var out := new PacketBuffer();
    out.WriteU16(0);
    out.WriteU16(0);
    out.WriteU16(1);
    out.WriteU16(0);
    out.WriteU16(0);
    out.WriteU16(0);
    var encoded := EncodeName(name);
    out.WriteBytes(encoded);
    out.WriteU16(qtype);
    out.WriteU16(if unicast then 0x8001 else CLASS_IN);
    query := out.bytes;
  }

  // ---- Parsing undoes printing -----------------------------------------------------

  /** A parsed record carries what `rr` was printed from. */
  predicate Carries(rec: Record, rr: RR)
  {
    && rec.name == Canonical(rr.name) && rec.rtype == rr.rtype && rec.ttl == rr.ttl
    && rec.rdataLength == |rr.rdata| && At(rec.packet, rec.rdataStart, rr.rdata)
  }

  predicate AllCarry(recs: seq<Record>, rrs: seq<RR>)
  {
    |recs| == |rrs| && forall i :: 0 <= i < |recs| ==> Carries(recs[i], rrs[i])
  }

  lemma {:induction false} RecordReadBack(data: Bytes, off: nat, rr: RR)
    requires Printable(rr) && At(data, off, RecordBytes(rr))
    ensures RecordAt(data, off).Some?
    ensures RecordAt(data, off).value.1 == off + |RecordBytes(rr)|
    ensures Carries(RecordAt(data, off).value.0, rr)
  {
    hide NameAt, NameBytes, RecordBytes, U16Bytes, U32Bytes, ReadableName, Canonical, At;
    var name := NameBytes(rr.name);
    FixedFieldsAt(data, off, name, rr);
    NameReadBack(data, off, 0, rr.name);
    FieldsReadBack(data, off + |name|, rr);
  }

  lemma {:induction false} FieldsReadBack(data: Bytes, o: nat, rr: RR)
    requires Printable(rr) && o + 10 <= |data|
    requires At(data, o, U16Bytes(rr.rtype)) && At(data, o + 4, U32Bytes(rr.ttl)) && At(data, o + 8, U16Bytes(|rr.rdata|))
    ensures ReadU16(data, o) == rr.rtype && ReadU32(data, o + 4) == rr.ttl && ReadU16(data, o + 8) == |rr.rdata|
  {
    hide At, ReadU16, ReadU32, U16Bytes, U32Bytes, ReadableName;
    U16At(data, o, rr.rtype);
    U32At(data, o + 4, rr.ttl);
    U16At(data, o + 8, |rr.rdata|);
  }

  lemma {:induction false} FixedFieldsAt(data: Bytes, off: nat, name: Bytes, rr: RR)
    requires name == NameBytes(rr.name) && At(data, off, RecordBytes(rr))
    ensures var o := off + |name|;
            At(data, off, name) && At(data, o, U16Bytes(rr.rtype)) && At(data, o + 4, U32Bytes(rr.ttl))
            && At(data, o + 8, U16Bytes(|rr.rdata|)) && At(data, o + 10, rr.rdata)
            && off + |RecordBytes(rr)| == o + 10 + |rr.rdata| <= |data|
  {
    var a := name + U16Bytes(rr.rtype);
    var b := a + U16Bytes(rr.cls);
    var c := b + U32Bytes(rr.ttl);
    var d := c + U16Bytes(|rr.rdata|);
    AtSplit(data, off, d, rr.rdata);
    AtSplit(data, off, c, U16Bytes(|rr.rdata|));
    AtSplit(data, off, b, U32Bytes(rr.ttl));
    AtSplit(data, off, a, U16Bytes(rr.cls));
    AtSplit(data, off, name, U16Bytes(rr.rtype));
  }

  lemma {:induction false} RecordsReadBack(data: Bytes, off: nat, rrs: seq<RR>)
    requires forall i :: 0 <= i < |rrs| ==> Printable(rrs[i])
    requires At(data, off, RecordsBytes(rrs))
    ensures RecordsAt(data, off, |rrs|).Some?
    ensures RecordsAt(data, off, |rrs|).value.1 == off + |RecordsBytes(rrs)|
    ensures AllCarry(RecordsAt(data, off, |rrs|).value.0, rrs)
    decreases |rrs|
  {
    hide RecordAt, RecordBytes, At, Carries, Printable;
    if rrs != [] {
      AtSplit(data, off, RecordBytes(rrs[0]), RecordsBytes(rrs[1..]));
      RecordReadBack(data, off, rrs[0]);
      RecordsReadBack(data, off + |RecordBytes(rrs[0])|, rrs[1..]);
    }
  }

  predicate PrintableQuestion(q: Question)
  {
    ReadableName(q.name) && q.qtype < 65536 && q.qclass < 32768
  }

  lemma {:induction false} QuestionFieldsAt(data: Bytes, off: nat, q: Question)
    requires PrintableQuestion(q) && At(data, off, QuestionBytes(q))
    ensures var next := off + |NameBytes(q.name)|;
            && NameAt(data, off, 0) == Some((Canonical(q.name), next)) && next + 4 == off + |QuestionBytes(q)| <= |data|
            && RawQuestion(Canonical(q.name), ReadU16(data, next), ReadU16(data, next + 2)) == q.(name := Canonical(q.name))
  {
    hide NameAt, NameBytes, ReadableName, U16Bytes;
    var name := NameBytes(q.name);
    var cls := q.qclass + if q.unicast then 0x8000 else 0;
    AtSplit(data, off, name + U16Bytes(q.qtype), U16Bytes(cls));
    AtSplit(data, off, name, U16Bytes(q.qtype));
    NameReadBack(data, off, 0, q.name);
    U16At(data, off + |name|, q.qtype);
    U16At(data, off + |name| + 2, cls);
  }

  lemma {:induction false} QuestionsSkipped(data: Bytes, off: nat, qs: seq<Question>)
    requires forall i :: 0 <= i < |qs| ==> PrintableQuestion(qs[i])
    requires At(data, off, QuestionsBytes(qs))
    ensures SkipQuestions(data, off, |qs|) == Some(off + |QuestionsBytes(qs)|)
    decreases |qs|
  {
    hide QuestionBytes, At, PrintableQuestion, NameAt, Canonical;
    if qs != [] {
      AtSplit(data, off, QuestionBytes(qs[0]), QuestionsBytes(qs[1..]));
      QuestionFieldsAt(data, off, qs[0]);
      QuestionsSkipped(data, off + |QuestionBytes(qs[0])|, qs[1..]);
    }
  }

  function MessageBytes(qs: seq<Question>, answers: seq<RR>, authority: seq<RR>, additional: seq<RR>): Bytes
  {
    HeaderBytes(RESPONSE_FLAGS, |qs|, |answers|, |authority|, |additional|)
    + QuestionsBytes(qs) + RecordsBytes(answers) + RecordsBytes(authority) + RecordsBytes(additional)
  }

  lemma {:induction false} HeaderReadBack(data: Bytes, flags: nat, a: nat, b: nat, c: nat, d: nat)
    requires flags < 65536 && a < 65536 && b < 65536 && c < 65536 && d < 65536
    requires At(data, 0, HeaderBytes(flags, a, b, c, d))
    ensures ReadU16(data, 2) == flags && ReadU16(data, 4) == a && ReadU16(data, 6) == b
    ensures ReadU16(data, 8) == c && ReadU16(data, 10) == d
  {
    var h2 := U16Bytes(0) + U16Bytes(flags);
    var h3 := h2 + U16Bytes(a);
    var h4 := h3 + U16Bytes(b);
    var h5 := h4 + U16Bytes(c);
    AtSplit(data, 0, h5, U16Bytes(d));
    AtSplit(data, 0, h4, U16Bytes(c));
    AtSplit(data, 0, h3, U16Bytes(b));
    AtSplit(data, 0, h2, U16Bytes(a));
    AtSplit(data, 0, U16Bytes(0), U16Bytes(flags));
    U16At(data, 2, flags);
    U16At(data, 4, a);
    U16At(data, 6, b);
    U16At(data, 8, c);
    U16At(data, 10, d);
  }

  /**
   Whatever records a message is printed from, parsing returns its answers and
   its additional records: same names, types, TTLs and RDATA, in order.
   */
  lemma {:induction false} MessageReadBack(qs: seq<Question>, answers: seq<RR>, authority: seq<RR>, additional: seq<RR>)
    requires |qs| < 65536 && |answers| < 65536 && |authority| < 65536 && |additional| < 65536
    requires forall i :: 0 <= i < |qs| ==> PrintableQuestion(qs[i])
    requires forall rr :: rr in answers || rr in authority || rr in additional ==> Printable(rr)
    ensures var p := Parse(MessageBytes(qs, answers, authority, additional));
            p.Some? && p.value.flags == RESPONSE_FLAGS && AllCarry(p.value.answers, answers)
            && AllCarry(p.value.additional, additional)
  {
    hide At, HeaderBytes, SkipQuestions, RecordsAt, RecordsBytes, QuestionsBytes, AllCarry, Printable, PrintableQuestion;
    var data := MessageBytes(qs, answers, authority, additional);
    var h := HeaderBytes(RESPONSE_FLAGS, |qs|, |answers|, |authority|, |additional|);
    var q := h + QuestionsBytes(qs);
    var a := q + RecordsBytes(answers);
    var n := a + RecordsBytes(authority);
    AtWhole(data);
    AtSplit(data, 0, n, RecordsBytes(additional));
    AtSplit(data, 0, a, RecordsBytes(authority));
    AtSplit(data, 0, q, RecordsBytes(answers));
    AtSplit(data, 0, h, QuestionsBytes(qs));
    HeaderReadBack(data, RESPONSE_FLAGS, |qs|, |answers|, |authority|, |additional|);
    QuestionsSkipped(data, HEADER_SIZE, qs);
    RecordsReadBack(data, |q|, answers);
    RecordsReadBack(data, |a|, authority);
    RecordsReadBack(data, |n|, additional);
  }

  /** A query of any number of questions. */
  function QueryMessage(qs: seq<Question>): Bytes
  {
    HeaderBytes(0, |qs|, 0, 0, 0) + QuestionsBytes(qs)
  }

  lemma {:induction false} QuestionsReadBack(data: Bytes, off: nat, qs: seq<Question>)
    requires forall i :: 0 <= i < |qs| ==> PrintableQuestion(qs[i]) && NoEmptyLabel(qs[i].name)
    requires At(data, off, QuestionsBytes(qs))
    ensures QuestionsAt(data, off, |qs|) == Some(qs)
    decreases |qs|
  {
    hide NameAt, NameBytes, At, ReadableName, NoEmptyLabel, Canonical, QuestionBytes;
    if qs != [] {
      AtSplit(data, off, QuestionBytes(qs[0]), QuestionsBytes(qs[1..]));
      QuestionFieldsAt(data, off, qs[0]);
      CanonicalId(qs[0].name);
      QuestionsReadBack(data, off + |QuestionBytes(qs[0])|, qs[1..]);
      assert [qs[0]] + qs[1..] == qs;
    }
  }

  /** Printed questions are read back, all of them and in order; a message without questions is no query. */
  lemma {:induction false} QueryMessageReadBack(qs: seq<Question>)
    requires |qs| < 65536 && forall i :: 0 <= i < |qs| ==> PrintableQuestion(qs[i]) && NoEmptyLabel(qs[i].name)
    ensures Questions(QueryMessage(qs)) == if qs == [] then None else Some(qs)
    ensures Parse(QueryMessage(qs)).Some? ==> !Parse(QueryMessage(qs)).value.IsResponse()
  {
    hide NameAt, NameBytes, At, ReadableName, NoEmptyLabel, HeaderBytes, QuestionsBytes, QuestionsAt, PrintableQuestion;
    var data := QueryMessage(qs);
    AtWhole(data);
    AtSplit(data, 0, HeaderBytes(0, |qs|, 0, 0, 0), QuestionsBytes(qs));
    HeaderReadBack(data, 0, |qs|, 0, 0, 0);
    QuestionsReadBack(data, HEADER_SIZE, qs);
  }

  /** No response is taken for a query, whatever questions it repeats. */
  lemma {:induction false} ResponseIsNoQuery(qs: seq<Question>, answers: seq<RR>, authority: seq<RR>, additional: seq<RR>)
    requires |qs| < 65536 && |answers| < 65536 && |authority| < 65536 && |additional| < 65536
    ensures Questions(MessageBytes(qs, answers, authority, additional)) == None
  {
    hide At, HeaderBytes, QuestionsBytes, RecordsBytes, QuestionsAt;
    var data := MessageBytes(qs, answers, authority, additional);
    var h := HeaderBytes(RESPONSE_FLAGS, |qs|, |answers|, |authority|, |additional|);
    AtWhole(data);
    var tail := QuestionsBytes(qs) + RecordsBytes(answers) + RecordsBytes(authority) + RecordsBytes(additional);
    assert data == h + tail;
    AtSplit(data, 0, h, tail);
    HeaderReadBack(data, RESPONSE_FLAGS, |qs|, |answers|, |authority|, |additional|);
  }

  /** `read_questions` undoes `build_query`. */
  lemma {:induction false} QueryReadBack(name: Name, qtype: nat, unicast: bool)
    requires ReadableName(name) && qtype < 65536
    ensures Questions(QueryBytes(name, qtype, unicast)) == Some([Question(Canonical(name), qtype, CLASS_IN, unicast)])
  {
    hide NameAt, NameBytes, ReadableName, Canonical, U16Bytes;
    var data := QueryBytes(name, qtype, unicast);
    var q := Question(name, qtype, CLASS_IN, unicast);
    AtWhole(data);
    AtSplit(data, 0, HeaderBytes(0, 1, 0, 0, 0), QuestionBytes(q));
    HeaderReadBack(data, 0, 1, 0, 0, 0);
    QuestionFieldsAt(data, HEADER_SIZE, q);
    var next := HEADER_SIZE + |NameBytes(name)|;
    assert QuestionsAt(data, next + 4, 0) == Some([]);
    var read := RawQuestion(Canonical(name), ReadU16(data, next), ReadU16(data, next + 2));
    assert [read] + [] == [read];
  }
}
