/** Parsing undoes printing, through every compressed name. */
module RoundTrip {
  import opened Common
  import opened Names
  import opened Messages

  /** Pointers hold fourteen bits of offset. */
  const POINTER_REACH: nat := 0x4000

  lemma SliceOf(b: seq<byte>, whole: seq<byte>, lo: nat, hi: nat)
    requires whole <= b && lo <= hi <= |whole|
    ensures b[lo..hi] == whole[lo..hi]
  {
    assert whole == b[..|whole|];
  }

  /** The three parts of a printed piece, found again in any buffer that starts with it. */
  lemma Parts3(b: seq<byte>, pre: seq<byte>, x: seq<byte>, y: seq<byte>, z: seq<byte>)
    requires pre + (x + y + z) <= b
    ensures var i: nat := |pre| + |x|;
            pre + x <= b && i + |y| + |z| <= |b| &&
            b[i..i + |y|] == y && b[i + |y|..i + |y| + |z|] == z
  {
    var whole := pre + (x + y + z);
    assert whole == pre + x + y + z;
    assert whole == b[..|whole|];
    var i := |pre| + |x|;
    assert b[..i] == whole[..i] == pre + x;
    assert b[i..i + |y|] == whole[i..i + |y|] == y;
    assert b[i + |y|..|whole|] == whole[i + |y|..] == z;
  }

  lemma GetPrintedU16(b: seq<byte>, at: nat, x: uint16)
    requires at + 2 <= |b| && b[at..at + 2] == U16(x)
    ensures GetU16(b, at) == x
  {
    assert b[at] == b[at..at + 2][0] && b[at + 1] == b[at..at + 2][1];
  }

  lemma GetPrintedFixed(b: seq<byte>, at: nat, r: Record)
    requires |r.rdata| < 0x1_0000 && at + 10 <= |b| && b[at..at + 10] == PrintFixed(r)
    ensures GetU16(b, at) == r.rtype && GetU16(b, at + 2) == r.rclass
    ensures GetU32(b, at + 4) == r.ttl && GetU16(b, at + 8) == |r.rdata|
  {
    var s := b[at..at + 10];
    assert forall i | 0 <= i < 10 :: b[at + i] == s[i];
    var type', class', ttl, len := U16(r.rtype), U16(r.rclass), U32(r.ttl), U16(|r.rdata|);
    assert s[..4] == type' + class' && s[4..8] == ttl && s[8..] == len;
    assert s[4] == ttl[0] && s[5] == ttl[1] && s[6] == ttl[2] && s[7] == ttl[3];
  }

  /** The name field printed after `pre` decodes to the name and to its own length, whatever follows. */
  lemma DecodePrintedName(b: seq<byte>, pre: seq<byte>, name: seq<byte>)
    requires PlainName(name) && |pre| < POINTER_REACH
    requires pre + PrintName(pre, name) <= b
    ensures Decoded(b, |pre|) == Some((name, |PrintName(pre, name)|))
  {
    var field := PrintName(pre, name);
    SliceOf(b, pre + field, |pre|, |pre| + |field|);
    assert b[|pre|..|pre| + |field|] == field;
    var copy := FirstMatch(pre, HEADER_SIZE, |pre|, name);
    if name == [] || copy.None? {
      CopyDecodes(b, |pre|, name);
    } else {
      var t := copy.value;
      SliceOf(b, pre, t, t + |name| + 1);
      PointerDecodes(b, |pre|, t, name);
    }
  }

  lemma ParsePrintedRdata(b: seq<byte>, at: nat, r: Record)
    requires PlainRecord(r)
    requires at + |r.rdata| <= |b| && b[at..at + |r.rdata|] == r.rdata
    ensures ParseRdata(b, at, r.rtype, |r.rdata|) == Some(r.rdata)
  {
    if NameValued(r.rtype) {
      var name := r.rdata[..|r.rdata| - 1];
      assert r.rdata == name + [0];
      CopyDecodes(b, at, name);
    }
  }

  lemma ParsePrintedRecord(b: seq<byte>, pre: seq<byte>, r: Record)
    requires PlainRecord(r) && |pre| < POINTER_REACH
    requires pre + PrintRecord(pre, r) <= b
    ensures ParseRecord(b, |pre|) == Some((r, |pre| + |PrintRecord(pre, r)|))
  {
    hide PrintName, PrintFixed, Decoded, ParseRdata, PlainName, CStr;
    var name, rest := PrintName(pre, r.name), PrintFixed(r) + r.rdata;
    var fixed: nat := |pre| + |name|;
    Parts3(b, pre, name, PrintFixed(r), r.rdata);
    DecodePrintedName(b, pre, r.name);
    GetPrintedFixed(b, fixed, r);
    ParsePrintedRdata(b, fixed + 10, r);
  }

  lemma {:induction false} ParsePrintedRecords(b: seq<byte>, pre: seq<byte>, rs: seq<Record>)
    requires forall r | r in rs :: PlainRecord(r)
    requires PrintRecords(pre, rs) <= b && |PrintRecords(pre, rs)| < POINTER_REACH
    ensures ParseRecords(b, |pre|, |rs|) == Some((rs, |PrintRecords(pre, rs)|))
  {
    hide PrintRecord, ParseRecord, PlainRecord;
    if rs != [] {
      var most, r := rs[..|rs| - 1], rs[|rs| - 1];
      ParsePrintedRecords(b, pre, most);
      ParsePrintedRecord(b, PrintRecords(pre, most), r);
      assert rs == most + [r];
    }
  }

  lemma ParsePrintedQuestion(b: seq<byte>, pre: seq<byte>, q: Question)
    requires 0 !in q.qname && pre + PrintQuestion(q) <= b
    ensures ParseQuestion(b, |pre|) == Some((q, |pre| + |PrintQuestion(q)|))
  {
    hide CStr;
    var name := q.qname + [0];
    var rest: nat := |pre| + |name|;
    Parts3(b, pre, name, U16(q.qtype), U16(q.qclass));
    assert b[|pre|..] == q.qname + [0] + b[rest..] by {
      SliceOf(b, pre + name, |pre|, rest);
      assert b[|pre|..] == b[|pre|..rest] + b[rest..];
    }
    CStrStops(q.qname, b[rest..]);
    CStrWhole(q.qname);
    GetPrintedU16(b, rest, q.qtype);
    GetPrintedU16(b, rest + 2, q.qclass);
  }

  lemma {:induction false} ParsePrintedQuestions(b: seq<byte>, pre: seq<byte>, qs: seq<Question>)
    requires forall q | q in qs :: 0 !in q.qname
    requires PrintQuestions(pre, qs) <= b
    ensures ParseQuestions(b, |pre|, |qs|) == Some((qs, |PrintQuestions(pre, qs)|))
  {
    hide PrintQuestion, ParseQuestion;
    if qs != [] {
      var most, q := qs[..|qs| - 1], qs[|qs| - 1];
      ParsePrintedQuestions(b, pre, most);
      ParsePrintedQuestion(b, PrintQuestions(pre, most), q);
      assert qs == most + [q];
    }
  }

  lemma ParsePrintedHeader(b: seq<byte>, h: Header)
    requires PrintHeader(h) <= b
    ensures ParseHeader(b) == h
  {
    var s := PrintHeader(h);
    assert s == b[..12];
    assert b[0..2] == s[0..2] && b[2..4] == s[2..4] && b[4..6] == s[4..6];
    assert b[6..8] == s[6..8] && b[8..10] == s[8..10] && b[10..12] == s[10..12];
    GetPrintedU16(b, 0, h.id);
    GetPrintedU16(b, 2, h.flags);
    GetPrintedU16(b, 4, h.qcount);
    GetPrintedU16(b, 6, h.answers);
    GetPrintedU16(b, 8, h.authorities);
    GetPrintedU16(b, 10, h.additionals);
  }

  /** The round trip: a printed packet parses to itself, whatever lies behind it in the buffer. */
  lemma ParsePrintedPacket(p: Packet, behind: seq<byte>)
    requires WellFormed(p) && |PrintPacket(p)| < POINTER_REACH
    ensures ParsePacket(PrintPacket(p) + behind) == Some(p)
  {
    var b := PrintPacket(p) + behind;
    var header, front := PrintHeader(p.header), PrintFront(p);
    assert front <= PrintPacket(p) <= b;
    assert header <= front;
    ParsePrintedHeader(b, p.header);
    ParsePrintedQuestions(b, header, p.questions);
    ParsePrintedRecords(b, front, p.records);
  }

  lemma {:induction false} PrintedPrefix(pre: seq<byte>, rs: seq<Record>, k: nat)
    requires k <= |rs|
    ensures PrintRecords(pre, rs[..k]) <= PrintRecords(pre, rs)
    decreases |rs|
  {
    hide PrintRecord;
    if k == |rs| {
      assert rs[..k] == rs;
    } else {
      var most := rs[..|rs| - 1];
      PrintedPrefix(pre, most, k);
      assert most[..k] == rs[..k];
    }
  }

  lemma PrintedUpTo(pre: seq<byte>, rs: seq<Record>, k: nat)
    requires k < |rs|
    ensures var before := PrintRecords(pre, rs[..k]);
            PrintRecords(pre, rs[..k + 1]) == before + PrintRecord(before, rs[k]) &&
            before + PrintName(before, rs[k].name) <= PrintRecords(pre, rs)
  {
    hide PrintFixed, PrintName;
    var r, before := rs[k], PrintRecords(pre, rs[..k]);
    assert rs[..k + 1][..k] == rs[..k];
    PrintedPrefix(pre, rs, k + 1);
    assert before + PrintRecord(before, r) == before + PrintName(before, r.name) + (PrintFixed(r) + r.rdata);
  }

  /**
   The name field printed after `pre`, seen from the finished message: if it is a pointer, it leads
   to a whole copy of the name that contains no pointer, lies behind the header and before the
   field, and is still there; and the name stands in full only when no earlier copy exists.
   */
  ghost predicate GoodField(message: seq<byte>, pre: seq<byte>, name: seq<byte>) {
    var field := PrintName(pre, name);
    && pre + field <= message
    && (field != name + [0] ==>
          exists t: nat :: HEADER_SIZE <= t && t + |name| + 1 <= |pre| && field == PointerBytes(t) &&
                           CopyAt(message, t, name))
    && (field == name + [0] <==>
          name == [] || forall t: nat :: HEADER_SIZE <= t ==> !CopyAt(pre, t, name))
  }

  lemma PointersStayGood(p: Packet, k: nat)
    requires WellFormed(p) && k < |p.records|
    ensures GoodField(PrintPacket(p), PrintRecords(PrintFront(p), p.records[..k]), p.records[k].name)
  {
    hide PrintFront, PrintFixed, LabelChain, PrintRecord, GoodField;
    var rs := p.records;
    assert PlainRecord(rs[k]);
    PrintedUpTo(PrintFront(p), rs, k);
    PointerIsCopy(PrintPacket(p), PrintRecords(PrintFront(p), rs[..k]), rs[k].name);
  }

  lemma PointerIsCopy(message: seq<byte>, pre: seq<byte>, name: seq<byte>)
    requires PlainName(name) && pre + PrintName(pre, name) <= message
    ensures GoodField(message, pre, name)
  {
    var copy := FirstMatch(pre, HEADER_SIZE, |pre|, name);
    var field := PrintName(pre, name);
    if name != [] && copy.Some? {
      assert pre <= message;
      SliceOf(message, pre, copy.value, copy.value + |name| + 1);
      assert field[0] >= 192 > name[0] == (name + [0])[0];
    }
  }
}
