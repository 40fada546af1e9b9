/** Header flags (include/dns/protocol.h) and the builders of responses and relays in
    src/dns/dns_resolver.c. Flag arithmetic stands for the bit operations of the macros. */
module Responses {
  import opened Common
  import opened Messages

  const RCODE_NOERROR: nat := 0
  const RCODE_SERVFAIL: nat := 2
  const RCODE_NXDOMAIN: nat := 3
  const RCODE_NOTIMP: nat := 4

  predicate IsQuery(flags: uint16) {
    flags < 0x8000
  }

  /** `OPCODE_GET`: the four bits from bit 12 up. (Section 4.1.1 of RFC 1035 puts the opcode at 11.) */
  function OpcodeGet(flags: uint16): nat {
    flags / 0x1000 % 16
  }

  predicate RdGet(flags: uint16) {
    flags / 0x100 % 2 == 1
  }

  function Rcode(flags: uint16): nat {
    flags % 16
  }

  function QrSet(flags: uint16): uint16 {
    if flags >= 0x8000 then flags else flags + 0x8000
  }

  function RaSet(flags: uint16): (r: uint16)
    ensures r == flags || r == flags + 0x80
  {
    if flags / 0x80 % 2 == 1 then flags else flags + 0x80
  }

  function SetRcode(flags: uint16, rcode: nat): (r: uint16)
    requires rcode < 16
    ensures Rcode(r) == rcode && r / 16 == flags / 16
  {
    flags / 16 * 16 + rcode
  }

  /** The question echoed back, without records. */
  function MakeResponseEmpty(query: Packet): Packet {
    var flags := SetRcode(QrSet(RaSet(query.header.flags)), RCODE_NOERROR);
    Packet(query.header.(flags := flags, answers := 0, authorities := 0, additionals := 0), query.questions, [])
  }

  function MakeResponseFail(query: Packet, rcode: nat): Packet
    requires rcode < 16
  {
    var p := MakeResponseEmpty(query);
    p.(header := p.header.(flags := SetRcode(p.header.flags, rcode)))
  }

  function MakeInnerError(query: Packet): Packet {
    MakeResponseFail(query, RCODE_SERVFAIL)
  }

  function WithId(p: Packet, id: uint16): Packet {
    p.(header := p.header.(id := id))
  }

  lemma HighBitsKept(x: uint16, y: uint16)
    requires x / 16 == y / 16
    ensures x / 0x80 == y / 0x80 && x / 0x100 == y / 0x100 && (x < 0x8000 <==> y < 0x8000)
  {
    assert x / 0x80 == x / 16 / 8 && y / 0x80 == y / 16 / 8;
    assert x / 0x100 == x / 16 / 16 && y / 0x100 == y / 16 / 16;
  }

  /** A response to a query, bit by bit: same id and questions; QR and RA set; opcode, AA, TC, RD and the
      reserved bits as in the query; the given code. */
  ghost predicate Responds(r: Packet, query: Packet, code: nat) {
    var f, asked := r.header.flags, query.header.flags;
    && r.header.id == query.header.id
    && r.header.qcount == query.header.qcount && r.questions == query.questions
    && f >= 0x8000
    && f / 0x100 % 0x80 == asked / 0x100 % 0x80
    && f / 0x80 % 2 == 1
    && f / 0x10 % 8 == asked / 0x10 % 8
    && f % 0x10 == code
  }

  ghost predicate NoRecords(r: Packet) {
    r.header.answers == 0 && r.header.authorities == 0 && r.header.additionals == 0 && r.records == []
  }

  lemma MidBit(f: int)
    ensures (f + 0x80) / 0x80 == f / 0x80 + 1 && (f + 0x80) / 0x10 == f / 0x10 + 8
    ensures f / 0x100 == f / 0x80 / 2 && (f + 0x80) / 0x100 == (f + 0x80) / 0x80 / 2
  {
  }

  lemma RaSetBits(flags: uint16)
    ensures var r := RaSet(flags);
            r / 0x100 == flags / 0x100 && r / 0x80 % 2 == 1 && r / 0x10 % 8 == flags / 0x10 % 8
  {
    MidBit(flags);
    var mid, low: int := flags / 0x80, flags / 0x10;
    assert (low + 8) % 8 == low % 8;
    assert mid % 2 == 0 ==> (mid + 1) % 2 == 1 && (mid + 1) / 2 == mid / 2;
  }

  lemma TopBit(f: int)
    ensures (f + 0x8000) / 0x100 == f / 0x100 + 0x80
    ensures (f + 0x8000) / 0x80 == f / 0x80 + 0x100
    ensures (f + 0x8000) / 0x10 == f / 0x10 + 0x800
  {
  }

  lemma QrSetBits(flags: uint16)
    ensures var r := QrSet(flags);
            r >= 0x8000 && r / 0x100 % 0x80 == flags / 0x100 % 0x80 &&
            r / 0x80 % 2 == flags / 0x80 % 2 && r / 0x10 % 8 == flags / 0x10 % 8
  {
    var high, mid, low: int := flags / 0x100, flags / 0x80, flags / 0x10;
    TopBit(flags);
    assert (high + 0x80) % 0x80 == high % 0x80;
    assert (mid + 0x100) % 2 == mid % 2;
    assert (low + 0x800) % 8 == low % 8;
  }

  lemma SetRcodeBits(flags: uint16, rcode: nat)
    requires rcode < 16
    ensures var r := SetRcode(flags, rcode);
            r / 0x100 == flags / 0x100 && r / 0x80 == flags / 0x80 && r / 0x10 == flags / 0x10 && r % 0x10 == rcode &&
            (r >= 0x8000 <==> flags >= 0x8000)
  {
    HighBitsKept(SetRcode(flags, rcode), flags);
  }

  /** The empty response is an error-free response without records. */
  lemma EmptyResponds(query: Packet)
    ensures Responds(MakeResponseEmpty(query), query, 0) && NoRecords(MakeResponseEmpty(query))
  {
    hide SetRcode, QrSet, RaSet;
    var flags := query.header.flags;
    RaSetBits(flags);
    QrSetBits(RaSet(flags));
    SetRcodeBits(QrSet(RaSet(flags)), RCODE_NOERROR);
  }

  /** A failure response has the given code and no records; it is well-formed if the query is. */
  lemma FailureResponse(query: Packet, rcode: nat)
    requires rcode < 16
    ensures var r := MakeResponseFail(query, rcode);
            Responds(r, query, rcode) && NoRecords(r) && (WellFormed(query) ==> WellFormed(r))
    ensures !IsQuery(MakeResponseFail(query, rcode).header.flags) && Rcode(MakeResponseFail(query, rcode).header.flags) == rcode
  {
    EmptyResponds(query);
    hide MakeResponseEmpty, SetRcode;
    SetRcodeBits(MakeResponseEmpty(query).header.flags, rcode);
  }

  /** The internal failure is SERVFAIL, code 2. */
  lemma InnerErrorIsServfail(query: Packet)
    ensures Responds(MakeInnerError(query), query, 2) && NoRecords(MakeInnerError(query))
    ensures WellFormed(query) ==> WellFormed(MakeInnerError(query))
  {
    FailureResponse(query, 2);
  }

  /** Nothing but the id of a packet differs. */
  ghost predicate SameButId(p: Packet, q: Packet) {
    && p.header.flags == q.header.flags && p.header.qcount == q.header.qcount
    && p.header.answers == q.header.answers && p.header.authorities == q.header.authorities
    && p.header.additionals == q.header.additionals
    && p.questions == q.questions && p.records == q.records
  }

  /** A relayed packet, in either direction, is the one received with only its id changed. */
  lemma WithIdExact(p: Packet, id: uint16, q: Packet)
    ensures q == WithId(p, id) <==> q.header.id == id && SameButId(q, p)
  {
  }

  /** The macros in numbers. The opcode is the four bits from bit 12 up: on queries half the standard's, so
      that the standard query and the inverse query of RFC 1035, and nothing else, count as standard. */
  lemma OpcodeOneBitHigh(flags: uint16)
    ensures IsQuery(flags) <==> flags < 0x8000
    ensures RdGet(flags) <==> flags % 0x200 >= 0x100
    ensures OpcodeGet(flags) == flags / 0x1000 && Rcode(flags) == flags % 0x10
    ensures flags < 0x8000 ==> OpcodeGet(flags) == flags / 0x800 % 16 / 2
    ensures flags < 0x8000 ==> (OpcodeGet(flags) == 0 <==> flags / 0x800 % 16 <= 1)
  {
  }
}
