/** The deserializer of src/dns/dns_resolver.c: cursors moving over the receive buffer. */
module Deserializer {
  import opened Common
  import opened Names
  import opened Messages

  datatype ParseResult = Parsed(packet: Packet) | BadSize

  method ReadU16(buf: array<byte>, at: nat) returns (x: uint16)
    requires at + 2 <= buf.Length
    ensures x == GetU16(buf[..], at)
  {
    var hi: int, lo: int := buf[at], buf[at + 1];
    x := hi * 256 + lo;
  }

  method ReadU32(buf: array<byte>, at: nat) returns (x: uint32)
    requires at + 4 <= buf.Length
    ensures x == GetU32(buf[..], at)
  {
    var hi: int := ReadU16(buf, at);
    var lo: int := ReadU16(buf, at + 2);
    x := hi * 0x1_0000 + lo;
  }

  method QuestionDeserialize(buf: array<byte>, cur: nat) returns (q: Question, len: nat)
    requires ParseQuestion(buf[..], cur).Some?
    ensures ParseQuestion(buf[..], cur) == Some((q, cur + len))
  {
    hide CStr;
    assert buf[cur..] == buf[..][cur..];
    assert exists z :: cur <= z < buf.Length && buf[z] == 0 by {
      CStrEnds(buf[..][cur..]);
    }
    var name := StrDup(buf, cur);
    var cursor := cur + |name| + 1;
    var qtype := ReadU16(buf, cursor);
    var qclass := ReadU16(buf, cursor + 2);
    return Question(name, qtype, qclass), cursor + 4 - cur;
  }

  /** A C string shorter than what it is read from stops at a zero. */
  lemma {:induction false} CStrEnds(s: seq<byte>)
    requires |CStr(s)| < |s|
    ensures s[|CStr(s)|] == 0
  {
    if s[0] != 0 {
      CStrEnds(s[1..]);
    }
  }

  lemma {:induction false} QuestionsPrefixParses(b: seq<byte>, at: nat, count: nat, i: nat)
    requires ParseQuestions(b, at, count).Some? && i <= count
    ensures ParseQuestions(b, at, i).Some?
    ensures i < count ==> ParseQuestion(b, ParseQuestions(b, at, i).value.1).Some?
  {
    if i + 1 < count {
      QuestionsPrefixParses(b, at, count - 1, i);
    }
  }

  method QuestionsDeserialize(buf: array<byte>, cur: nat, count: nat) returns (qs: seq<Question>, len: nat)
    requires cur <= buf.Length && ParseQuestions(buf[..], cur, count).Some?
    ensures ParseQuestions(buf[..], cur, count) == Some((qs, cur + len))
  {
    hide ParseQuestion;
    var cursor := cur;
    qs := [];
    for i: nat := 0 to count
      invariant cur <= cursor && ParseQuestions(buf[..], cur, i) == Some((qs, cursor))
    {
      QuestionsPrefixParses(buf[..], cur, count, i);
      var q, n := QuestionDeserialize(buf, cursor);
      qs := qs + [q];
      cursor := cursor + n;
    }
    len := cursor - cur;
  }

  method RdataDeserialize(buf: array<byte>, cur: nat, rtype: uint16, rdataLength: nat) returns (rdata: seq<byte>)
    requires ParseRdata(buf[..], cur, rtype, rdataLength).Some?
    ensures ParseRdata(buf[..], cur, rtype, rdataLength) == Some(rdata)
    ensures rtype == 2 || rtype == 5 ==>
              Resolve(buf[..], cur, cur).Some? && rdata == CStr(Wire(Resolve(buf[..], cur, cur).value)) + [0]
    ensures rtype != 2 && rtype != 5 ==> cur + rdataLength <= buf.Length && rdata == buf[cur..cur + rdataLength]
  {
    if rtype == QTYPE_CNAME || rtype == QTYPE_NS {
      var name, _ := NameDeserialize(buf, cur);
      rdata := name + [0];
    } else {
      rdata := buf[cur..cur + rdataLength];
      assert buf[..][cur..cur + rdataLength] == rdata;
    }
  }

  method RecordDeserialize(buf: array<byte>, cur: nat) returns (r: Record, len: nat)
    requires ParseRecord(buf[..], cur).Some?
    ensures ParseRecord(buf[..], cur) == Some((r, cur + len))
  {
    hide CStr, Wire, Resolve, ParseRdata, EndsInPointer;
    var name, nameLen := NameDeserialize(buf, cur);
    assert Decoded(buf[..], cur) == Some((name, nameLen));
    var cursor: nat := cur + nameLen;
    var rtype := ReadU16(buf, cursor);
    var rclass := ReadU16(buf, cursor + 2);
    var ttl := ReadU32(buf, cursor + 4);
    var rlen := ReadU16(buf, cursor + 8);
    var rdata := RdataDeserialize(buf, cursor + 10, rtype, rlen);
    r := Record(name, rtype, rclass, ttl, rdata);
    len := nameLen + 10 + rlen;
  }

  lemma {:induction false} RecordsPrefixParses(b: seq<byte>, at: nat, count: nat, i: nat)
    requires ParseRecords(b, at, count).Some? && i <= count
    ensures ParseRecords(b, at, i).Some?
    ensures i < count ==> ParseRecord(b, ParseRecords(b, at, i).value.1).Some?
  {
    hide ParseRecord;
    if i + 1 < count {
      RecordsPrefixParses(b, at, count - 1, i);
    }
  }

  method RecordsDeserialize(buf: array<byte>, cur: nat, count: nat) returns (rs: seq<Record>, len: nat)
    requires ParseRecords(buf[..], cur, count).Some?
    ensures ParseRecords(buf[..], cur, count) == Some((rs, cur + len))
  {
    hide ParseRecord;
    var cursor := cur;
    rs := [];
    for i: nat := 0 to count
      invariant cur <= cursor && ParseRecords(buf[..], cur, i) == Some((rs, cursor))
    {
      RecordsPrefixParses(buf[..], cur, count, i);
      var r, n := RecordDeserialize(buf, cursor);
      rs := rs + [r];
      cursor := cursor + n;
    }
    len := cursor - cur;
  }

  /** The length is only checked against 12..512; what is read is decided by the counts alone. */
  method PackDeserialize(buf: array<byte>, len: int) returns (result: ParseResult)
    requires 12 <= len <= 512 ==> ParsePacket(buf[..]).Some?
    ensures if 12 <= len <= 512 then result == Parsed(ParsePacket(buf[..]).value)
            else result == BadSize
  {
    if len > MAX_PACKET_SIZE || len < HEADER_SIZE {
      return BadSize;
    }
    hide ParseQuestions, ParseRecords, GetU16;
    var id := ReadU16(buf, 0);
    var flags := ReadU16(buf, 2);
    var qcount := ReadU16(buf, 4);
    var answers := ReadU16(buf, 6);
    var authorities := ReadU16(buf, 8);
    var additionals := ReadU16(buf, 10);
    var header := Header(id, flags, qcount, answers, authorities, additionals);
    var qs, n := QuestionsDeserialize(buf, HEADER_SIZE, qcount);
    var rs, _ := RecordsDeserialize(buf, HEADER_SIZE + n, header.RecordCount());
    result := Parsed(Packet(header, qs, rs));
  }
}
