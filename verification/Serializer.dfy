/**
 The serializer of src/dns/dns_resolver.c as it runs: a byte buffer written in place behind a
 cursor, over whatever an earlier message left in it.
 */
module Serializer {
  import opened Common
  import opened Names
  import opened Messages
  import opened RoundTrip
  import opened Leftovers

  // ---------- writing into the buffer ----------

  method MemCpy(buf: array<byte>, at: nat, s: seq<byte>)
    requires at + |s| <= buf.Length
    modifies buf
    ensures buf[..] == Splice(old(buf[..]), at, s)
  {
    var i: nat := 0;
    while i < |s|
      invariant i <= |s|
      invariant forall k | 0 <= k < i :: buf[at + k] == s[k]
      invariant forall k | 0 <= k < at || at + i <= k < buf.Length :: buf[k] == old(buf[k])
    {
      buf[at + i] := s[i];
      i := i + 1;
    }
    assert buf[at..at + |s|] == s;
    assert buf[..] == buf[..at] + buf[at..at + |s|] + buf[at + |s|..];
  }

  // ---------- the search for an earlier copy ----------

  /** `strcmp(j, name) == 0`, reading no further than the first difference. */
  method StrEqual(buf: array<byte>, j: nat, name: seq<byte>) returns (equal: bool)
    requires j + |name| + 1 <= buf.Length && 0 !in name
    ensures equal <==> CopyAt(buf[..], j, name)
  {
    var i: nat := 0;
    while i < |name| && buf[j + i] == name[i]
      invariant i <= |name| && buf[j..j + i] == name[..i]
    {
      i := i + 1;
    }
    equal := i == |name| && buf[j + i] == 0;
    ghost var copy := buf[..][j..j + |name| + 1];
    assert copy[i] == buf[j + i];
    if equal {
      assert copy == buf[j..j + i] + [buf[j + i]];
    } else {
      assert copy[i] != (name + [0])[i];
    }
  }

  method FindPreviousName(buf: array<byte>, start: nat, end: nat, name: seq<byte>)
    returns (found: bool, offset: nat)
    requires start <= end && end + |name| + 1 <= buf.Length && 0 !in name
    ensures found <==> FirstMatch(buf[..], start, end, name).Some?
    ensures found ==> start + offset == FirstMatch(buf[..], start, end, name).value
  {
    hide CopyAt;
    ghost var b := buf[..];
    var j := start;
    var equal := StrEqual(buf, j, name);
    while !equal && j < end
      invariant start <= j <= end && (equal <==> CopyAt(b, j, name))
      invariant FirstMatch(b, start, end, name) == FirstMatch(b, j, end, name)
      decreases end - j
    {
      j := j + 1;
      equal := StrEqual(buf, j, name);
    }
    if j == end {
      return false, 0;
    }
    return true, j - start;
  }

  /** The loop looks for the whole name at every label, so it finds it at the first or never. */
  method NameSerialize(name: seq<byte>, buf: array<byte>, cur: nat) returns (len: nat)
    requires PlainName(name) && HEADER_SIZE <= cur && cur + |name| + 1 <= buf.Length
    modifies buf
    ensures len == |FieldAsWritten(old(buf[..]), cur, name)| <= |name| + 1
    ensures buf[..] == Splice(old(buf[..]), cur, FieldAsWritten(old(buf[..]), cur, name))
  {
    hide FirstMatch, CopyAt, PointerBytes, LabelChain, FieldAsWritten;
    ghost var b := buf[..];
    assert name[0..] == name;
    var i: nat := 0;
    var offset: nat := 0;
    while i < |name|
      invariant i <= |name| && LabelChain(name[i..])
      invariant i > 0 ==> FirstMatch(b, HEADER_SIZE, cur, name).None?
      invariant buf[..] == b
    {
      var found;
      found, offset := FindPreviousName(buf, HEADER_SIZE, cur, name);
      if found {
        break;
      }
      NextLabel(name, i);
      i := i + name[i] + 1;
    }
    FieldIs(b, cur, name);
    if i < |name| {
      assert i == 0 && name[..i] == [];
      MemCpy(buf, cur, name[..i]);
      assert buf[..] == b;
      MemCpy(buf, cur + i, PointerBytes(offset + HEADER_SIZE));
      return i + 2;
    }
    MemCpy(buf, cur, name + [0]);
    return |name| + 1;
  }

  lemma NextLabel(name: seq<byte>, i: nat)
    requires i < |name| && LabelChain(name[i..])
    ensures i + 1 + name[i] <= |name| && LabelChain(name[i + 1 + name[i]..])
  {
    assert name[i..][0] == name[i] && name[i..][1 + name[i]..] == name[i + 1 + name[i]..];
  }

  lemma FieldIs(b: seq<byte>, cur: nat, name: seq<byte>)
    ensures var copy := FirstMatch(b, HEADER_SIZE, cur, name);
            FieldAsWritten(b, cur, name) == (if name == [] || copy.None? then name + [0] else PointerBytes(copy.value)) &&
            (copy.Some? ==> |PointerBytes(copy.value)| == 2)
  {
  }

  // ---------- serializing records and packets ----------

  method PutAndAdvance(buf: array<byte>, at: nat, ghost b: seq<byte>, ghost from: nat, ghost done: seq<byte>, s: seq<byte>)
    returns (cursor: nat)
    requires from + |done| == at && at + |s| <= buf.Length == |b|
    requires buf[..] == Splice(b, from, done)
    modifies buf
    ensures cursor == at + |s|
    ensures buf[..] == Splice(b, from, done + s)
  {
    MemCpy(buf, at, s);
    SpliceTwice(b, from, done, s);
    cursor := at + |s|;
  }

  method RecordSerialize(buf: array<byte>, cur: nat, r: Record) returns (len: nat)
    requires PlainRecord(r) && HEADER_SIZE <= cur
    requires cur + FullSize(r) <= buf.Length
    modifies buf
    ensures var s := RecordAsWritten(old(buf[..]), cur, r);
            len == |s| && buf[..] == Splice(old(buf[..]), cur, s)
  {
    hide FieldAsWritten, PlainName, U16, U32;
    ghost var b := buf[..];
    var nameLen := NameSerialize(r.name, buf, cur);
    ghost var name := FieldAsWritten(b, cur, r.name);
    var cursor := PutAndAdvance(buf, cur + nameLen, b, cur, name, U16(r.rtype));
    ghost var done := name + U16(r.rtype);
    cursor := PutAndAdvance(buf, cursor, b, cur, done, U16(r.rclass));
    done := done + U16(r.rclass);
    cursor := PutAndAdvance(buf, cursor, b, cur, done, U32(r.ttl));
    done := done + U32(r.ttl);
    cursor := PutAndAdvance(buf, cursor, b, cur, done, U16(|r.rdata|));
    done := done + U16(|r.rdata|);
    cursor := PutAndAdvance(buf, cursor, b, cur, done, r.rdata);
    assert done + r.rdata == name + PrintFixed(r) + r.rdata;
    len := cursor - cur;
  }

  /** What one record may take: its name in full. */
  function FullSize(r: Record): nat {
    |r.name| + 11 + |r.rdata|
  }

  ghost function RecordAsWritten(b: seq<byte>, cursor: nat, r: Record): (s: seq<byte>)
    ensures |s| <= FullSize(r)
  {
    FieldAsWritten(b, cursor, r.name) + PrintFixed(r) + r.rdata
  }

  /** Wherever the loop comes within the limit, the next record fits with its name in full. */
  ghost predicate Room(b: seq<byte>, cursor: nat, rs: seq<Record>, bufSize: int)
    decreases |rs|
  {
    rs == [] || (
      && cursor + FullSize(rs[0]) <= |b|
      && var s := RecordAsWritten(b, cursor, rs[0]);
         cursor + |s| <= bufSize ==> Room(Splice(b, cursor, s), cursor + |s|, rs[1..], bufSize))
  }

  function PlainSize(rs: seq<Record>): nat {
    if rs == [] then 0 else FullSize(rs[0]) + PlainSize(rs[1..])
  }

  /** Space for all records with their names in full is room enough. */
  lemma {:induction false} PlainSizeIsRoom(b: seq<byte>, cursor: nat, rs: seq<Record>, bufSize: int)
    requires cursor + PlainSize(rs) <= |b|
    ensures Room(b, cursor, rs, bufSize)
    decreases |rs|
  {
    hide RecordAsWritten;
    if rs != [] {
      var s := RecordAsWritten(b, cursor, rs[0]);
      PlainSizeIsRoom(Splice(b, cursor, s), cursor + |s|, rs[1..], bufSize);
    }
  }

  /** For confined packets it is enough that every printed prefix leaves space for the next record. */
  lemma {:induction false} PrintedSizeIsRoom(pre: seq<byte>, rs: seq<Record>, i: nat, b0: seq<byte>, bufSize: int)
    requires i <= |rs| && HEADER_SIZE <= |pre| && ConfinedRecords(pre, rs, |rs|, b0)
    requires forall r | r in rs :: PlainRecord(r)
    requires forall k | 0 <= k < |rs| && (k == 0 || |PrintRecords(pre, rs[..k])| <= bufSize) ::
               |PrintRecords(pre, rs[..k])| + FullSize(rs[k]) <= |b0|
    requires i == 0 || |PrintRecords(pre, rs[..i])| <= bufSize
    ensures var before := PrintRecords(pre, rs[..i]); Room(Overlay(before, b0), |before|, rs[i..], bufSize)
    decreases |rs| - i
  {
    hide RecordAsWritten, PrintRecords, PrintRecord, PlainRecord, ConfinedSearch, ConfinedRecords, Splice, PrintName, FullSize, CopyAt, PointerBytes;
    if i < |rs| {
      var before, r := PrintRecords(pre, rs[..i]), rs[i];
      assert rs[i..][0] == r && rs[i..][1..] == rs[i + 1..] && r in rs;
      ConfinedAt(pre, rs, b0, i);
      RecordStep(before, b0, r);
      PrintedUpTo(pre, rs, i);
      if |PrintRecords(pre, rs[..i + 1])| <= bufSize {
        PrintedSizeIsRoom(pre, rs, i + 1, b0, bufSize);
      }
    }
  }

  lemma ConfinedAt(pre: seq<byte>, rs: seq<Record>, b0: seq<byte>, i: nat)
    requires i < |rs| && ConfinedRecords(pre, rs, |rs|, b0)
    ensures ConfinedSearch(PrintRecords(pre, rs[..i]), b0, rs[i].name)
  {
  }

  /** One record written behind `pre`: as the printer does, or astray. */
  lemma RecordStep(pre: seq<byte>, b0: seq<byte>, r: Record)
    requires PlainRecord(r) && HEADER_SIZE <= |pre|
    requires |pre| + FullSize(r) <= |b0|
    ensures var b := Overlay(pre, b0);
            var s := RecordAsWritten(b, |pre|, r);
            if ConfinedSearch(pre, b0, r.name)
            then Splice(b, |pre|, s) == Overlay(pre + PrintRecord(pre, r), b0) && s == PrintRecord(pre, r)
            else exists t: nat :: HEADER_SIZE <= t < |pre| < t + |r.name| + 1 && CopyAt(b, t, r.name) &&
                                  |s| >= 2 && s[..2] == PointerBytes(t)
  {
    hide ConfinedSearch, PlainName, FirstMatch, CopyAt;
    SearchExact(pre, b0, r.name);
    if !ConfinedSearch(pre, b0, r.name) {
      SearchAstray(pre, b0, r.name);
    }
  }

  /** How far the buffer agrees with the printer after `i` records: fully, or it has gone astray. */
  ghost predicate Tracks(pre: seq<byte>, rs: seq<Record>, i: nat, b0: seq<byte>, b: seq<byte>, cursor: nat)
    requires i <= |rs|
  {
    && |b| == |b0|
    && cursor <= |b|
    && if ConfinedRecords(pre, rs, i, b0)
       then cursor == |PrintRecords(pre, rs[..i])| && b == Overlay(PrintRecords(pre, rs[..i]), b0)
       else Astray(pre, rs, b0, b, cursor)
  }

  lemma TracksStep(pre: seq<byte>, rs: seq<Record>, i: nat, b0: seq<byte>, b: seq<byte>, cursor: nat)
    requires i < |rs| && HEADER_SIZE <= |pre| && HEADER_SIZE <= cursor && PlainRecord(rs[i])
    requires Tracks(pre, rs, i, b0, b, cursor)
    requires cursor + FullSize(rs[i]) <= |b|
    ensures var s := RecordAsWritten(b, cursor, rs[i]);
            Tracks(pre, rs, i + 1, b0, Splice(b, cursor, s), cursor + |s|)
  {
    hide PlainName, ConfinedSearch, PrintRecord, RecordAsWritten, PlainRecord, PrintRecords, AstrayAt, Astray, CopyAt, PointerBytes;
    var r, s := rs[i], RecordAsWritten(b, cursor, rs[i]);
    PrintedUpTo(pre, rs, i);
    if ConfinedRecords(pre, rs, i, b0) {
      var before := PrintRecords(pre, rs[..i]);
      RecordStep(before, b0, r);
      if !ConfinedSearch(before, b0, r.name) {
        var t: nat :| HEADER_SIZE <= t < |before| < t + |r.name| + 1 && CopyAt(b, t, r.name) &&
                      |s| >= 2 && s[..2] == PointerBytes(t);
        GoesAstray(pre, rs, i, b0, s, t);
      }
    } else {
      StaysAstray(pre, rs, b0, b, cursor, s);
    }
  }

  lemma GoesAstray(pre: seq<byte>, rs: seq<Record>, i: nat, b0: seq<byte>, s: seq<byte>, t: nat)
    requires i < |rs|
    requires var before, name := PrintRecords(pre, rs[..i]), rs[i].name;
             |before| + |s| <= |b0| && |s| >= 2 && s[..2] == PointerBytes(t) && !ConfinedSearch(before, b0, name) &&
             HEADER_SIZE <= t < |before| < t + |name| + 1 && CopyAt(Overlay(before, b0), t, name)
    ensures var before := PrintRecords(pre, rs[..i]);
            Astray(pre, rs, b0, Splice(Overlay(before, b0), |before|, s), |before| + |s|)
  {
    hide PrintRecords, ConfinedSearch, CopyAt, PointerBytes;
    var before := PrintRecords(pre, rs[..i]);
    var b := Splice(Overlay(before, b0), |before|, s);
    assert b[|before|..|before| + 2] == s[..2];
    assert AstrayAt(pre, rs, b0, b, |before| + |s|, i, t);
  }

  lemma StaysAstray(pre: seq<byte>, rs: seq<Record>, b0: seq<byte>, b: seq<byte>, cursor: nat, s: seq<byte>)
    requires cursor + |s| <= |b| && Astray(pre, rs, b0, b, cursor)
    ensures Astray(pre, rs, b0, Splice(b, cursor, s), cursor + |s|)
  {
    hide PrintRecords, ConfinedSearch, CopyAt, PointerBytes;
    var k: nat, t: nat :| k < |rs| && AstrayAt(pre, rs, b0, b, cursor, k, t);
    var c, b' := |PrintRecords(pre, rs[..k])|, Splice(b, cursor, s);
    assert b'[..c] == b[..c] && b'[c..c + 2] == b[c..c + 2];
    assert AstrayAt(pre, rs, b0, b', cursor + |s|, k, t);
  }

  lemma TracksStart(pre: seq<byte>, rs: seq<Record>, b: seq<byte>)
    requires pre <= b
    ensures Tracks(pre, rs, 0, b, b, |pre|)
  {
    assert rs[..0] == [] && b == Overlay(pre, b);
  }

  lemma TracksOver(pre: seq<byte>, rs: seq<Record>, i: nat, b0: seq<byte>, b: seq<byte>, cursor: nat)
    requires i <= |rs| && Tracks(pre, rs, i, b0, b, cursor)
    ensures ConfinedRecords(pre, rs, |rs|, b0) ==> cursor <= |PrintRecords(pre, rs)|
  {
    hide PrintRecords, ConfinedSearch;
    PrintedPrefix(pre, rs, i);
  }

  lemma TracksEnd(pre: seq<byte>, rs: seq<Record>, b0: seq<byte>, b: seq<byte>, cursor: nat)
    requires HEADER_SIZE <= |pre| && forall r | r in rs :: PlainRecord(r)
    requires Tracks(pre, rs, |rs|, b0, b, cursor)
    ensures b[..cursor] == PrintRecords(pre, rs) <==> ConfinedRecords(pre, rs, |rs|, b0)
    ensures !ConfinedRecords(pre, rs, |rs|, b0) ==> Astray(pre, rs, b0, b, cursor)
  {
    hide PrintRecords, ConfinedRecords, Astray, PlainRecord;
    assert rs[..|rs|] == rs;
    if !ConfinedRecords(pre, rs, |rs|, b0) {
      AstrayDiffers(pre, rs, b0, b, cursor);
    }
  }

  /**
   The record section over whatever the buffer held. While the searches are confined the octets
   are the printed records; the first unconfined search leads the message astray for good. When the
   buffer limit is crossed, the loop stops and the (excessive) length is returned.
   */
  method RecordsSerialize(rs: seq<Record>, buf: array<byte>, cur: nat, bufSize: int) returns (len: nat)
    requires forall r | r in rs :: PlainRecord(r)
    requires HEADER_SIZE <= cur <= buf.Length && Room(buf[..], cur, rs, bufSize)
    modifies buf
    ensures cur + len <= buf.Length
    ensures cur + len <= bufSize ==>
              (buf[..cur + len] == PrintRecords(old(buf[..cur]), rs) <==>
               ConfinedRecords(old(buf[..cur]), rs, |rs|, old(buf[..])))
    ensures cur + len <= bufSize && !ConfinedRecords(old(buf[..cur]), rs, |rs|, old(buf[..])) ==>
              Astray(old(buf[..cur]), rs, old(buf[..]), buf[..], cur + len)
    ensures ConfinedRecords(old(buf[..cur]), rs, |rs|, old(buf[..])) ==>
              (cur + len > bufSize <==> |PrintRecords(old(buf[..cur]), rs)| > bufSize)
  {
    hide PlainRecord, RecordAsWritten, Tracks, PrintRecords, ConfinedRecords, Astray;
    ghost var pre, b0 := buf[..cur], buf[..];
    var cursor := cur;
    var i: nat := 0;
    assert rs[0..] == rs;
    TracksStart(pre, rs, b0);
    while i < |rs|
      invariant i <= |rs| && cur <= cursor <= buf.Length && Room(buf[..], cursor, rs[i..], bufSize)
      invariant Tracks(pre, rs, i, b0, buf[..], cursor)
      invariant i > 0 ==> cursor <= bufSize
    {
      assert rs[i..][0] == rs[i] && rs[i..][1..] == rs[i + 1..] && rs[i] in rs;
      TracksStep(pre, rs, i, b0, buf[..], cursor);
      var n := RecordSerialize(buf, cursor, rs[i]);
      cursor := cursor + n;
      i := i + 1;
      if cursor > bufSize {
        TracksOver(pre, rs, i, b0, buf[..], cursor);
        return cursor - cur;
      }
    }
    TracksEnd(pre, rs, b0, buf[..], cursor);
    return cursor - cur;
  }

  method QuestionSerialize(q: Question, buf: array<byte>, cur: nat) returns (len: nat)
    requires cur + |PrintQuestion(q)| <= buf.Length
    modifies buf
    ensures len == |PrintQuestion(q)| && buf[..] == Splice(old(buf[..]), cur, PrintQuestion(q))
  {
    hide U16;
    ghost var b := buf[..];
    MemCpy(buf, cur, q.qname + [0]);
    var cursor := PutAndAdvance(buf, cur + |q.qname| + 1, b, cur, q.qname + [0], U16(q.qtype));
    cursor := PutAndAdvance(buf, cursor, b, cur, q.qname + [0] + U16(q.qtype), U16(q.qclass));
    len := cursor - cur;
  }

  method QuestionsSerialize(qs: seq<Question>, buf: array<byte>, cur: nat) returns (len: nat)
    requires cur <= buf.Length && |PrintQuestions(buf[..cur], qs)| <= buf.Length
    modifies buf
    ensures buf[..] == Overlay(PrintQuestions(old(buf[..cur]), qs), old(buf[..]))
    ensures cur + len == |PrintQuestions(old(buf[..cur]), qs)|
  {
    hide PrintQuestion, PrintQuestions;
    ghost var pre, b0 := buf[..cur], buf[..];
    NoQuestions(pre);
    var cursor := cur;
    assert qs[..0] == [];
    assert buf[..] == Overlay(pre, b0);
    for i: nat := 0 to |qs|
      invariant cur <= cursor == |PrintQuestions(pre, qs[..i])| && buf[..] == Overlay(PrintQuestions(pre, qs[..i]), b0)
    {
      QuestionsPrefix(pre, qs, i + 1);
      QuestionsNext(pre, qs, i);
      OverlayGrows(PrintQuestions(pre, qs[..i]), PrintQuestion(qs[i]), b0);
      var n := QuestionSerialize(qs[i], buf, cursor);
      cursor := cursor + n;
    }
    assert qs[..|qs|] == qs;
    len := cursor - cur;
  }

  lemma NoQuestions(pre: seq<byte>)
    ensures PrintQuestions(pre, []) == pre
  {
  }

  lemma QuestionsNext(pre: seq<byte>, qs: seq<Question>, i: nat)
    requires i < |qs|
    ensures PrintQuestions(pre, qs[..i + 1]) == PrintQuestions(pre, qs[..i]) + PrintQuestion(qs[i])
  {
    assert qs[..i + 1][..i] == qs[..i] && qs[..i + 1][i] == qs[i];
  }

  lemma OverlayGrows(pre: seq<byte>, s: seq<byte>, b0: seq<byte>)
    requires |pre| + |s| <= |b0|
    ensures Splice(Overlay(pre, b0), |pre|, s) == Overlay(pre + s, b0)
  {
  }

  lemma {:induction false} QuestionsPrefix(pre: seq<byte>, qs: seq<Question>, k: nat)
    requires k <= |qs|
    ensures PrintQuestions(pre, qs[..k]) <= PrintQuestions(pre, qs)
    decreases |qs|
  {
    hide PrintQuestion;
    if k == |qs| {
      assert qs[..k] == qs;
    } else {
      var most := qs[..|qs| - 1];
      QuestionsPrefix(pre, most, k);
      assert most[..k] == qs[..k];
    }
  }

  /**
   The whole message. `-1` comes back exactly when header and questions already exceed the limit.
   A length within the limit means: the buffer starts with the printed packet exactly when no
   search was completed by leftovers; and confined packets are reported too long exactly when
   their printed form is. The buffer then parses to the packet, whatever lies behind, if it was
   confined, and only if it was, unless some name has an octet of 192 or more.
   */
  method PackSerialize(p: Packet, buf: array<byte>, bufSize: int) returns (len: int)
    requires WellFormed(p) && |PrintFront(p)| <= buf.Length
    requires |PrintFront(p)| <= bufSize ==> Room(Overlay(PrintFront(p), buf[..]), |PrintFront(p)|, p.records, bufSize)
    modifies buf
    ensures len == -1 <==> |PrintFront(p)| > bufSize
    ensures -1 <= len <= buf.Length
    ensures 0 <= len <= bufSize ==> (buf[..len] == PrintPacket(p) <==> Confined(p, old(buf[..])))
    ensures Confined(p, old(buf[..])) && len >= 0 ==> (len > bufSize <==> |PrintPacket(p)| > bufSize)
    ensures 0 <= len <= bufSize && len < POINTER_REACH ==>
              (Confined(p, old(buf[..])) ==> ParsePacket(buf[..]) == Some(p)) &&
              (LowNames(p) ==> (ParsePacket(buf[..]) == Some(p) <==> Confined(p, old(buf[..]))))
  {
    hide PrintHeader, PrintQuestion, ParsePacket, ConfinedRecords, PrintRecords, WellFormed, Astray, Room, LowNames;
    RecordsPlain(p);
    ghost var b0, front := buf[..], PrintFront(p);
    MemCpy(buf, 0, PrintHeader(p.header));
    assert buf[..HEADER_SIZE] == PrintHeader(p.header);
    QuestionsPrefix(PrintHeader(p.header), p.questions, 0);
    if HEADER_SIZE > bufSize {
      return -1;
    }
    var n := QuestionsSerialize(p.questions, buf, HEADER_SIZE);
    var cursor := HEADER_SIZE + n;
    assert buf[..] == Overlay(front, b0);
    if cursor > bufSize {
      return -1;
    }
    ghost var b := buf[..];
    assert buf[..cursor] == front;
    var m := RecordsSerialize(p.records, buf, cursor, bufSize);
    ConfinedOverlay(p, b0, b);
    len := cursor + m;
    PrintedBufferParses(p, buf[..], len);
    AstrayBuffer(p, b, buf[..], len);
  }

  lemma AstrayBuffer(p: Packet, b0: seq<byte>, b: seq<byte>, len: nat)
    requires WellFormed(p) && len <= |b|
    ensures Astray(PrintFront(p), p.records, b0, b, len) && LowNames(p) && len < POINTER_REACH ==> ParsePacket(b) != Some(p)
  {
    hide WellFormed, Astray, LowNames, ParsePacket;
    if Astray(PrintFront(p), p.records, b0, b, len) && LowNames(p) && len < POINTER_REACH {
      AstrayNeverParses(p, b0, b, len);
    }
  }

  lemma RecordsPlain(p: Packet)
    requires WellFormed(p)
    ensures forall r | r in p.records :: PlainRecord(r)
  {
  }

  lemma PrintedBufferParses(p: Packet, b: seq<byte>, len: nat)
    requires WellFormed(p) && len <= |b|
    ensures b[..len] == PrintPacket(p) && len < POINTER_REACH ==> ParsePacket(b) == Some(p)
  {
    hide PrintPacket, WellFormed, ParsePacket;
    if b[..len] == PrintPacket(p) && len < POINTER_REACH {
      ParsePrintedPacket(p, b[len..]);
      assert b == PrintPacket(p) + b[len..];
    }
  }
}
