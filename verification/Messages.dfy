/**
 DNS messages (include/dns/protocol.h), sections 4.1.1 to 4.1.3 of RFC 1035, as byte layout:
 what a message prints to, and what a byte sequence parses to.
 */
module Messages {
  import opened Common
  import opened Names

  const HEADER_SIZE: nat := 12
  const MAX_PACKET_SIZE: nat := 512

  const QTYPE_A: uint16 := 1
  const QTYPE_NS: uint16 := 2
  const QTYPE_CNAME: uint16 := 5
  const QTYPE_MX: uint16 := 15
  const QTYPE_AAAA: uint16 := 28

  datatype Header = Header(id: uint16, flags: uint16, qcount: uint16,
                           answers: uint16, authorities: uint16, additionals: uint16)
  {
    function RecordCount(): nat {
      var a: nat, n: nat, d: nat := answers, authorities, additionals;
      a + n + d
    }
  }

  datatype Question = Question(qname: seq<byte>, qtype: uint16, qclass: uint16)

  /** A resource record; `rdata_length` of the C structure is the length of `rdata`. */
  datatype Record = Record(name: seq<byte>, rtype: uint16, rclass: uint16, ttl: uint32, rdata: seq<byte>)

  datatype Packet = Packet(header: Header, questions: seq<Question>, records: seq<Record>)

  predicate NameValued(rtype: uint16) {
    rtype == QTYPE_CNAME || rtype == QTYPE_NS
  }

  // ---------- well-formed packets ----------

  predicate PlainRecord(r: Record) {
    && PlainName(r.name)
    && |r.rdata| < 0x1_0000
    && r.rtype != QTYPE_MX
    && (NameValued(r.rtype) ==>
          |r.rdata| > 0 && r.rdata[|r.rdata| - 1] == 0 && PlainName(r.rdata[..|r.rdata| - 1]))
  }

  predicate WellFormed(p: Packet) {
    && p.header.qcount == |p.questions|
    && p.header.RecordCount() == |p.records|
    && (forall q | q in p.questions :: 0 !in q.qname)
    && (forall r | r in p.records :: PlainRecord(r))
  }

  // ---------- big-endian integers ----------

  function U16(x: uint16): (s: seq<byte>)
    ensures |s| == 2
  {
    [x / 256, x % 256]
  }

  function U32(x: uint32): (s: seq<byte>)
    ensures |s| == 4
  {
    U16(x / 0x1_0000) + U16(x % 0x1_0000)
  }

  function GetU16(b: seq<byte>, at: nat): uint16
    requires at + 2 <= |b|
  {
    var hi: int, lo: int := b[at], b[at + 1];
    hi * 256 + lo
  }

  function GetU32(b: seq<byte>, at: nat): uint32
    requires at + 4 <= |b|
  {
    var hi: int, lo: int := GetU16(b, at), GetU16(b, at + 2);
    hi * 0x1_0000 + lo
  }

  // ---------- printing ----------

  /** The first position in `[lo, hi)` at which `b` holds `name`. */
  function FirstMatch(b: seq<byte>, lo: nat, hi: nat, name: seq<byte>): (r: Option<nat>)
    ensures r.Some? ==> lo <= r.value < hi && CopyAt(b, r.value, name)
    ensures forall j: nat :: lo <= j < (if r.Some? then r.value else hi) ==> !CopyAt(b, j, name)
    decreases hi - lo
  {
    if lo >= hi then None
    else if CopyAt(b, lo, name) then Some(lo)
    else FirstMatch(b, lo + 1, hi, name)
  }

  /**
   A name field printed after `pre`: a pointer to the first whole copy of the name that lies
   inside `pre` behind the header, otherwise the name itself.
   */
  function PrintName(pre: seq<byte>, name: seq<byte>): seq<byte> {
    var copy := FirstMatch(pre, HEADER_SIZE, |pre|, name);
    if name == [] || copy.None? then name + [0] else PointerBytes(copy.value)
  }

  function PrintHeader(h: Header): (s: seq<byte>)
    ensures |s| == HEADER_SIZE
  {
    U16(h.id) + U16(h.flags) + U16(h.qcount) + U16(h.answers) + U16(h.authorities) + U16(h.additionals)
  }

  function PrintQuestion(q: Question): seq<byte> {
    q.qname + [0] + U16(q.qtype) + U16(q.qclass)
  }

  function PrintQuestions(pre: seq<byte>, qs: seq<Question>): (s: seq<byte>)
    ensures pre <= s
  {
    if qs == [] then pre else PrintQuestions(pre, qs[..|qs| - 1]) + PrintQuestion(qs[|qs| - 1])
  }

  function PrintFixed(r: Record): (s: seq<byte>)
    ensures |s| == 10
  {
    U16(r.rtype) + U16(r.rclass) + U32(r.ttl) + U16(|r.rdata| % 0x1_0000)
  }

  function PrintRecord(pre: seq<byte>, r: Record): seq<byte>
  {
    PrintName(pre, r.name) + PrintFixed(r) + r.rdata
  }

  /** `pre` followed by the records, each printed against everything printed before it. */
  function PrintRecords(pre: seq<byte>, rs: seq<Record>): (s: seq<byte>)
    ensures pre <= s
  {
    if rs == [] then pre
    else
      var before := PrintRecords(pre, rs[..|rs| - 1]);
      before + PrintRecord(before, rs[|rs| - 1])
  }

  /** Header and question section. */
  function PrintFront(p: Packet): seq<byte> {
    PrintQuestions(PrintHeader(p.header), p.questions)
  }

  function PrintPacket(p: Packet): seq<byte>
  {
    PrintRecords(PrintFront(p), p.records)
  }

  // ---------- parsing ----------

  ghost function ParseHeader(b: seq<byte>): Header
    requires |b| >= HEADER_SIZE
  {
    Header(GetU16(b, 0), GetU16(b, 2), GetU16(b, 4), GetU16(b, 6), GetU16(b, 8), GetU16(b, 10))
  }

  /** A question: a C string, without labels or pointers being looked at, then type and class. */
  ghost function ParseQuestion(b: seq<byte>, at: nat): Option<(Question, nat)> {
    if at > |b| then None
    else
      var name := CStr(b[at..]);
      var rest: nat := at + |name| + 1;
      if rest + 4 > |b| then None
      else Some((Question(name, GetU16(b, rest), GetU16(b, rest + 2)), rest + 4))
  }

  ghost function ParseQuestions(b: seq<byte>, at: nat, count: nat): Option<(seq<Question>, nat)> {
    if count == 0 then Some(([], at))
    else
      match ParseQuestions(b, at, count - 1)
      case None => None
      case Some((qs, end)) =>
        match ParseQuestion(b, end)
        case None => None
        case Some((q, next)) => Some((qs + [q], next))
  }

  /** The rdata of a record: names are expanded, everything else is copied. MX is undefined. */
  ghost function ParseRdata(b: seq<byte>, at: nat, rtype: uint16, len: nat): Option<seq<byte>> {
    if NameValued(rtype) then
      match Decoded(b, at)
      case None => None
      case Some((name, _)) => Some(name + [0])
    else if rtype == QTYPE_MX || at + len > |b| then None
    else Some(b[at..at + len])
  }

  ghost function ParseRecord(b: seq<byte>, at: nat): Option<(Record, nat)> {
    match Decoded(b, at)
    case None => None
    case Some((name, len)) =>
      var fixed: nat := at + len;
      if fixed + 10 > |b| then None
      else
        var rlen: nat := GetU16(b, fixed + 8);
        match ParseRdata(b, fixed + 10, GetU16(b, fixed), rlen)
        case None => None
        case Some(rdata) =>
          Some((Record(name, GetU16(b, fixed), GetU16(b, fixed + 2), GetU32(b, fixed + 4), rdata),
                fixed + 10 + rlen))
  }

  ghost function ParseRecords(b: seq<byte>, at: nat, count: nat): Option<(seq<Record>, nat)> {
    if count == 0 then Some(([], at))
    else
      match ParseRecords(b, at, count - 1)
      case None => None
      case Some((rs, end)) =>
        match ParseRecord(b, end)
        case None => None
        case Some((r, next)) => Some((rs + [r], next))
  }

  /** The message a buffer holds; `None` when reading it would leave the buffer or is undefined. */
  ghost function ParsePacket(b: seq<byte>): Option<Packet> {
    if |b| < HEADER_SIZE then None
    else
      var h := ParseHeader(b);
      match ParseQuestions(b, HEADER_SIZE, h.qcount)
      case None => None
      case Some((qs, end)) =>
        match ParseRecords(b, end, h.RecordCount())
        case None => None
        case Some((rs, _)) => Some(Packet(h, qs, rs))
  }
}
