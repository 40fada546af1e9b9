/**
 The layout of messages in numbers, byte by byte: sections 4.1.1 to 4.1.4 of RFC 1035 against the parser
 and the printer, and two messages written out.
 */
module Layout {
  import opened Common
  import opened Names
  import opened Messages

  // ---------- numbers ----------

  /** Two bytes as a number, the first the more significant. */
  function Two(b: seq<byte>, at: nat): int
    requires at + 2 <= |b|
  {
    var hi: int, lo: int := b[at], b[at + 1];
    256 * hi + lo
  }

  function Four(b: seq<byte>, at: nat): int
    requires at + 4 <= |b|
  {
    0x1_0000 * Two(b, at) + Two(b, at + 2)
  }

  /** Numbers are written and read with the more significant bytes first. */
  lemma BigEndian(x: uint16, y: uint32, b: seq<byte>, at: nat)
    ensures Two(U16(x), 0) == x && Four(U32(y), 0) == y
    ensures at + 2 <= |b| ==> GetU16(b, at) == Two(b, at)
    ensures at + 4 <= |b| ==> GetU32(b, at) == Four(b, at)
  {
  }

  /** The two bytes of a pointer are 0xC000 plus the offset, both written and read. */
  lemma PointerInNumbers(t: nat, hi: byte, lo: byte)
    ensures t < 0x4000 ==> |PointerBytes(t)| == 2 && Two(PointerBytes(t), 0) == 0xC000 + t
    ensures hi >= 0xC0 ==> PointerTarget(hi, lo) == Two([hi, lo], 0) - 0xC000
  {
  }

  /** The header fields at their places. */
  lemma HeaderLayout(b: seq<byte>)
    requires |b| >= 12
    ensures ParseHeader(b) == Header(Two(b, 0), Two(b, 2), Two(b, 4), Two(b, 6), Two(b, 8), Two(b, 10))
  {
  }

  /** A question: the bytes up to the first zero, then type and class. */
  lemma QuestionLayout(b: seq<byte>, at: nat, q: Question, next: nat)
    ensures ParseQuestion(b, at) == Some((q, next)) <==>
              at <= |b| && q.qname == CStr(b[at..]) &&
              var f := at + |q.qname| + 1;
              f + 4 <= |b| && q.qtype == Two(b, f) && q.qclass == Two(b, f + 2) && next == f + 4
  {
    hide CStr;
  }

  // ---------- records ----------

  /** Types 2 and 5 (NS and CNAME) have their data decoded to the whole name with its zero, pointers and
      all; any other type but 15 (MX) has it copied. */
  ghost predicate DataRead(b: seq<byte>, at: nat, rtype: int, rlen: nat, rdata: seq<byte>) {
    if rtype == 2 || rtype == 5
    then Resolve(b, at, at).Some? && rdata == CStr(Wire(Resolve(b, at, at).value)) + [0]
    else rtype != 15 && at + rlen <= |b| && rdata == b[at..at + rlen]
  }

  /** Which record is read at a position, and where it ends. */
  lemma RecordLayout(b: seq<byte>, at: nat, r: Record, next: nat)
    ensures ParseRecord(b, at) == Some((r, next)) <==>
              Decoded(b, at).Some? &&
              var f := at + Decoded(b, at).value.1;
              && r.name == Decoded(b, at).value.0
              && f + 10 <= |b|
              && r.rtype == Two(b, f) && r.rclass == Two(b, f + 2) && r.ttl == Four(b, f + 4)
              && next == f + 10 + Two(b, f + 8)
              && DataRead(b, f + 10, r.rtype, Two(b, f + 8), r.rdata)
  {
    hide CStr, Wire, Resolve, Decoded;
    if Decoded(b, at).Some? {
      var f := at + Decoded(b, at).value.1;
      if f + 10 <= |b| {
        DataLayout(b, f + 10, GetU16(b, f), GetU16(b, f + 8), r.rdata);
      }
    }
  }

  lemma DataLayout(b: seq<byte>, at: nat, rtype: uint16, rlen: nat, rdata: seq<byte>)
    ensures ParseRdata(b, at, rtype, rlen) == Some(rdata) <==> DataRead(b, at, rtype, rlen, rdata)
  {
    hide CStr, Wire, Resolve;
  }

  // ---------- a message read ----------

  const WWW_A: seq<byte> := [3, 119, 119, 119, 1, 97]
  const B_A: seq<byte> := [1, 98, 1, 97]
  const MESSAGE := Packet(Header(0x1234, 0x8180, 1, 2, 0, 0), [Question(WWW_A, 5, 1)],
                          [Record(WWW_A, 5, 1, 300, B_A + [0]), Record(B_A, 1, 1, 300, [1, 2, 3, 4])])

  const FRONT: seq<byte> := [0x12, 0x34, 0x81, 0x80, 0, 1, 0, 2, 0, 0, 0, 0,
                             3, 119, 119, 119, 1, 97, 0, 0, 5, 0, 1]

  /** A response with a question for www.a, a CNAME b.a whose data ends in a pointer into the question, and
      an address of b.a, whose name is a pointer to that data. */
  const READ: seq<byte> := FRONT + [0xC0, 12, 0, 5, 0, 1, 0, 0, 1, 0x2C, 0, 4, 1, 98, 0xC0, 16]
                                 + [0xC0, 35, 0, 1, 0, 1, 0, 0, 1, 0x2C, 0, 4, 1, 2, 3, 4]

  lemma MessageRead()
    ensures ParsePacket(READ) == Some(MESSAGE)
  {
    hide ParseQuestions, ParseRecords, ParseRecord, ParseQuestion, ParseHeader;
    HeaderRead(READ);
    assert READ[12..19] == WWW_A + [0];
    QuestionRead(READ);
    FirstRead(READ);
    SecondRead(READ);
    OneQuestion(READ, 12);
    TwoRecords(READ, 23);
  }

  lemma HeaderRead(b: seq<byte>)
    requires b == READ
    ensures |b| == 55 && ParseHeader(b) == MESSAGE.header && MESSAGE.header.RecordCount() == 2
    ensures Two(b, 19) == 5 && Two(b, 21) == 1
  {
    hide ParseHeader;
    HeaderLayout(b);
  }

  lemma OneQuestion(b: seq<byte>, at: nat)
    requires ParseQuestion(b, at).Some?
    ensures ParseQuestions(b, at, 1) == Some(([ParseQuestion(b, at).value.0], ParseQuestion(b, at).value.1))
  {
    hide ParseQuestion;
    var (q, next) := ParseQuestion(b, at).value;
    assert ParseQuestions(b, at, 0) == Some(([], at));
    assert [] + [q] == [q];
  }

  lemma TwoRecords(b: seq<byte>, at: nat)
    requires ParseRecord(b, at).Some? && ParseRecord(b, ParseRecord(b, at).value.1).Some?
    ensures var (r, next) := ParseRecord(b, at).value;
            var (r', end) := ParseRecord(b, next).value;
            ParseRecords(b, at, 2) == Some(([r, r'], end))
  {
    hide ParseRecord;
    var (r, next) := ParseRecord(b, at).value;
    var (r', end) := ParseRecord(b, next).value;
    assert ParseRecords(b, at, 0) == Some(([], at));
    assert [] + [r] == [r] && [r] + [r'] == [r, r'];
    assert ParseRecords(b, at, 1) == Some(([r], next));
  }

  lemma QuestionRead(b: seq<byte>)
    requires |b| >= 23 && b[12..19] == WWW_A + [0] && Two(b, 19) == 5 && Two(b, 21) == 1
    ensures ParseQuestion(b, 12) == Some((Question(WWW_A, 5, 1), 23))
  {
    hide CStr;
    assert b[12..] == WWW_A + [0] + b[19..];
    CStrStops(WWW_A, b[19..]);
    CStrWhole(WWW_A);
  }

  const A: Label := [97]
  const B: Label := [98]
  const WWW: Label := [119, 119, 119]

  lemma NameBytes(b: seq<byte>)
    requires |b| >= 39 && b[12..19] == WWW_A + [0] && b[35..39] == [1, 98, 0xC0, 16]
    ensures b[12] == 3 && b[16] == 1 && b[18] == 0 && b[35] == 1 && b[37] == 0xC0 && b[38] == 16
    ensures b[13..16] == WWW && b[17..18] == A && b[36..37] == B
  {
    assert forall i | 12 <= i < 19 :: b[i] == b[12..19][i - 12] == (WWW_A + [0])[i - 12];
    assert forall i | 35 <= i < 39 :: b[i] == b[35..39][i - 35];
  }

  /** The names in a message: www.a at 12, with a at 16; b and a pointer to 16 at 35. */
  lemma NamesRead(b: seq<byte>)
    requires |b| >= 39 && b[12..19] == WWW_A + [0] && b[35..39] == [1, 98, 0xC0, 16]
    ensures Resolve(b, 12, 12) == Some([WWW, A]) && Stop(b, 12) == 18
    ensures Resolve(b, 35, 35) == Some([B, A]) && Stop(b, 35) == 37 && b[37] == 0xC0
  {
    hide Resolve, Stop;
    NameBytes(b);
    assert [A] + [] == [A] && [WWW] + [A] == [WWW, A] && [B] + [A] == [B, A];
    EndStep(b, 12, 18);
    EndStep(b, 16, 18);
    LabelStep(b, 12, 16, A, []);
    LabelStep(b, 16, 16, A, []);
    LabelStep(b, 12, 12, WWW, [A]);
    PointerStep(b, 35, 37, 16);
    LabelStep(b, 35, 35, B, [A]);
  }

  lemma EndStep(b: seq<byte>, start: nat, at: nat)
    requires at < |b| && b[at] == 0
    ensures Resolve(b, start, at) == Some([]) && Stop(b, at) == at
  {
  }

  lemma LabelStep(b: seq<byte>, start: nat, at: nat, l: Label, rest: seq<Label>)
    requires at + 1 + |l| <= |b| && b[at] == |l| && b[at + 1..at + 1 + |l|] == l
    requires Resolve(b, start, at + 1 + |l|) == Some(rest)
    ensures Resolve(b, start, at) == Some([l] + rest) && Stop(b, at) == Stop(b, at + 1 + |l|)
  {
  }

  lemma PointerStep(b: seq<byte>, start: nat, at: nat, t: nat)
    requires at + 2 <= |b| && b[at] == 0xC0 && b[at + 1] == t < start
    ensures Resolve(b, start, at) == Resolve(b, t, t) && Stop(b, at) == at
  {
  }

  lemma WiresRead()
    ensures CStr(Wire([WWW, A])) == WWW_A && CStr(Wire([B, A])) == B_A
  {
    hide CStr;
    assert [WWW, A][1..] == [A] && [B, A][1..] == [A] && [A][1..] == [];
    assert Wire([A]) == [1, 97];
    assert Wire([WWW, A]) == WWW_A && Wire([B, A]) == B_A;
    CStrWhole(WWW_A);
    CStrWhole(B_A);
  }

  /** The first record ends its CNAME data in a pointer; the data read is the whole name all the same. */
  lemma FirstRead(b: seq<byte>)
    requires b == READ
    ensures ParseRecord(b, 23) == Some((Record(WWW_A, 5, 1, 300, B_A + [0]), 39))
  {
    hide CStr, Wire, Resolve, Stop, ParseRecord;
    NamesRead(b);
    WiresRead();
    PointerStep(b, 23, 23, 12);
    assert Decoded(b, 23) == Some((WWW_A, 2));
    RecordLayout(b, 23, Record(WWW_A, 5, 1, 300, B_A + [0]), 39);
  }

  lemma SecondRead(b: seq<byte>)
    requires b == READ
    ensures ParseRecord(b, 39) == Some((Record(B_A, 1, 1, 300, [1, 2, 3, 4]), 55))
  {
    hide CStr, Wire, Resolve, Stop, ParseRecord;
    NamesRead(b);
    WiresRead();
    PointerStep(b, 39, 39, 35);
    assert Decoded(b, 39) == Some((B_A, 2));
    assert b[51..55] == [1, 2, 3, 4];
    RecordLayout(b, 39, Record(B_A, 1, 1, 300, [1, 2, 3, 4]), 55);
  }

  // ---------- a message written ----------

  const FIRST: seq<byte> := [0xC0, 12, 0, 5, 0, 1, 0, 0, 1, 0x2C, 0, 5, 1, 98, 1, 97, 0]
  const SECOND: seq<byte> := [0xC0, 35, 0, 1, 0, 1, 0, 0, 1, 0x2C, 0, 4, 1, 2, 3, 4]

  /** The same packet printed: names that stand before become pointers, the CNAME data is written out. */
  lemma MessageWritten()
    ensures PrintPacket(MESSAGE) == FRONT + FIRST + SECOND
  {
    hide PrintRecord, PrintFront;
    var rs := MESSAGE.records;
    FrontWritten(MESSAGE);
    FirstWritten(FRONT);
    SecondWritten(FRONT + FIRST);
    assert rs[..1] == [rs[0]] && rs[..1][..0] == [];
    assert PrintRecords(FRONT, []) == FRONT;
    assert PrintRecords(FRONT, rs[..1]) == FRONT + PrintRecord(FRONT, rs[0]);
  }

  lemma FrontWritten(p: Packet)
    requires p.header == Header(0x1234, 0x8180, 1, 2, 0, 0) && p.questions == [Question(WWW_A, 5, 1)]
    ensures PrintFront(p) == FRONT
  {
    hide PrintHeader, PrintQuestion;
    HeaderWritten(p.header);
    QuestionWritten(p.questions[0]);
    var header := PrintHeader(p.header);
    assert p.questions[..0] == [];
    assert PrintQuestions(header, []) == header;
    assert PrintQuestions(header, p.questions) == header + PrintQuestion(p.questions[0]);
  }

  lemma HeaderWritten(h: Header)
    requires h == Header(0x1234, 0x8180, 1, 2, 0, 0)
    ensures PrintHeader(h) == [0x12, 0x34, 0x81, 0x80, 0, 1, 0, 2, 0, 0, 0, 0]
  {
    hide U16;
    SomeNumbers(1);
    SomeNumbers(2);
    SomeNumbers(0);
  }

  lemma QuestionWritten(q: Question)
    requires q == Question(WWW_A, 5, 1)
    ensures PrintQuestion(q) == [3, 119, 119, 119, 1, 97, 0, 0, 5, 0, 1]
  {
    hide U16;
    SomeNumbers(1);
    SomeNumbers(5);
  }

  lemma SomeNumbers(n: nat)
    requires n < 256
    ensures U16(n) == [0, n] && U16(0x1234) == [0x12, 0x34] && U16(0x8180) == [0x81, 0x80] && U16(300) == [1, 0x2C]
  {
  }

  lemma FixedWritten(r: Record)
    requires r.rtype < 256 && r.rclass == 1 && r.ttl == 300 && |r.rdata| < 256
    ensures PrintFixed(r) == [0, r.rtype, 0, 1, 0, 0, 1, 0x2C, 0, |r.rdata|]
  {
    hide U16;
    SomeNumbers(r.rtype);
    SomeNumbers(1);
    SomeNumbers(0);
    SomeNumbers(|r.rdata|);
    assert U32(300) == U16(0) + U16(300);
  }

  lemma MatchIs(b: seq<byte>, lo: nat, hi: nat, name: seq<byte>, t: nat)
    requires lo <= t < hi && CopyAt(b, t, name) && forall j: nat | lo <= j < t :: !CopyAt(b, j, name)
    ensures FirstMatch(b, lo, hi, name) == Some(t)
  {
    hide CopyAt;
    var found := FirstMatch(b, lo, hi, name);
    assert found.None? || found.value > t ==> !CopyAt(b, t, name);
  }

  /** The name www.a stands in the question, right behind the header. */
  lemma FirstWritten(pre: seq<byte>)
    requires pre == FRONT
    ensures PrintRecord(pre, Record(WWW_A, 5, 1, 300, B_A + [0])) == FIRST
  {
    hide FirstMatch, PrintFixed;
    var r := Record(WWW_A, 5, 1, 300, B_A + [0]);
    assert pre[12..19] == WWW_A + [0];
    MatchIs(pre, 12, 23, WWW_A, 12);
    FixedWritten(r);
    assert PrintRecord(pre, r) == [0xC0, 12] + [0, 5, 0, 1, 0, 0, 1, 0x2C, 0, 5] + (B_A + [0]);
  }

  lemma CopyIs(b: seq<byte>, at: nat, name: seq<byte>)
    requires at + |name| + 1 <= |b| && b[at..at + |name| + 1] == name + [0]
    ensures CopyAt(b, at, name)
  {
  }

  lemma NoEarlierCopy(pre: seq<byte>)
    requires pre == FRONT + FIRST
    ensures forall j: nat | 12 <= j < 35 :: !CopyAt(pre, j, B_A)
  {
    forall j: nat | 12 <= j < 35
      ensures !CopyAt(pre, j, B_A)
    {
      assert pre[j + 1] != 98;
      assert j + 5 <= |pre| ==> pre[j..j + 5][1] != (B_A + [0])[1];
    }
  }

  /** The name b.a stands in the CNAME data. */
  lemma SecondWritten(pre: seq<byte>)
    requires pre == FRONT + FIRST
    ensures PrintRecord(pre, Record(B_A, 1, 1, 300, [1, 2, 3, 4])) == SECOND
  {
    hide FirstMatch, PrintFixed, CopyAt;
    var r := Record(B_A, 1, 1, 300, [1, 2, 3, 4]);
    assert CopyAt(pre, 35, B_A) by {
      assert pre[35..40] == B_A + [0];
      CopyIs(pre, 35, B_A);
    }
    NoEarlierCopy(pre);
    MatchIs(pre, 12, 40, B_A, 35);
    FixedWritten(r);
    assert PrintRecord(pre, r) == [0xC0, 35] + [0, 1, 0, 1, 0, 0, 1, 0x2C, 0, 4] + [1, 2, 3, 4];
  }
}
