/**
 What an earlier message left in the buffer, and what the search for earlier names makes of it: when
 the message written is the printed one, and what an astray pointer does to it.
 */
module Leftovers {
  import opened Common
  import opened Names
  import opened Messages
  import opened RoundTrip

  ghost function Splice(b: seq<byte>, at: nat, s: seq<byte>): seq<byte>
    requires at + |s| <= |b|
  {
    b[..at] + s + b[at + |s|..]
  }

  lemma SpliceTwice(b: seq<byte>, at: nat, x: seq<byte>, y: seq<byte>)
    requires at + |x| + |y| <= |b|
    ensures Splice(Splice(b, at, x), at + |x|, y) == Splice(b, at, x + y)
  {
  }

  /** The field the search produces on a buffer: it also looks behind the cursor. */
  ghost function FieldAsWritten(b: seq<byte>, cur: nat, name: seq<byte>): seq<byte> {
    var copy := FirstMatch(b, HEADER_SIZE, cur, name);
    if name == [] || copy.None? then name + [0] else PointerBytes(copy.value)
  }

  // ---------- when the search stays inside the message ----------

  /** `pre` written over the front of the buffer `b0`. */
  ghost function Overlay(pre: seq<byte>, b0: seq<byte>): seq<byte> {
    if |pre| <= |b0| then pre + b0[|pre|..] else pre
  }

  /** The search of `name` behind `pre` meets no text that starts in the message and ends in the
      leftovers, or it meets a whole copy inside the message before. */
  ghost predicate ConfinedSearch(pre: seq<byte>, b0: seq<byte>, name: seq<byte>) {
    || name == []
    || (exists t: nat :: HEADER_SIZE <= t && CopyAt(pre, t, name))
    || (forall j: nat :: HEADER_SIZE <= j < |pre| && |pre| < j + |name| + 1 ==> !CopyAt(Overlay(pre, b0), j, name))
  }

  ghost predicate ConfinedRecords(pre: seq<byte>, rs: seq<Record>, count: nat, b0: seq<byte>)
    requires count <= |rs|
  {
    forall k | 0 <= k < count :: ConfinedSearch(PrintRecords(pre, rs[..k]), b0, rs[k].name)
  }

  ghost predicate Confined(p: Packet, b0: seq<byte>) {
    ConfinedRecords(PrintFront(p), p.records, |p.records|, b0)
  }

  lemma CopyInside(pre: seq<byte>, b0: seq<byte>, j: nat, name: seq<byte>)
    requires |pre| <= |b0| && j + |name| + 1 <= |pre|
    ensures CopyAt(Overlay(pre, b0), j, name) <==> CopyAt(pre, j, name)
  {
    assert Overlay(pre, b0)[j..j + |name| + 1] == pre[j..j + |name| + 1];
  }

  /** The search behaves as the printer says exactly when it is confined; otherwise it emits a
      pointer where the printer emits the name. */
  lemma SearchExact(pre: seq<byte>, b0: seq<byte>, name: seq<byte>)
    requires PlainName(name) && HEADER_SIZE <= |pre| <= |b0|
    ensures var field := FieldAsWritten(Overlay(pre, b0), |pre|, name);
            (ConfinedSearch(pre, b0, name) <==> field == PrintName(pre, name)) &&
            (field != PrintName(pre, name) ==> field[0] != PrintName(pre, name)[0])
  {
    assert name != [] ==> name[0] <= 63;
    hide LabelChain;
    var b := Overlay(pre, b0);
    var inBuffer, inside := FirstMatch(b, HEADER_SIZE, |pre|, name), FirstMatch(pre, HEADER_SIZE, |pre|, name);
    if inside.Some? {
      CopyInside(pre, b0, inside.value, name);
      CopyInside(pre, b0, inBuffer.value, name);
      assert inBuffer == inside;
    } else if inBuffer.Some? && inBuffer.value + |name| + 1 <= |pre| {
      CopyInside(pre, b0, inBuffer.value, name);
      assert false;
    }
  }

  /** Octets left behind the cursor that hold no zero cannot complete a name. */
  lemma ZeroFreeConfinesSearch(pre: seq<byte>, b0: seq<byte>, name: seq<byte>)
    requires HEADER_SIZE <= |pre| <= |b0|
    requires forall i: nat :: HEADER_SIZE <= i < |b0| ==> b0[i] != 0
    ensures ConfinedSearch(pre, b0, name)
  {
    forall j: nat | HEADER_SIZE <= j < |pre| && |pre| < j + |name| + 1
      ensures !CopyAt(Overlay(pre, b0), j, name)
    {
      var b, end := Overlay(pre, b0), j + |name|;
      assert end < |b| ==> b[end] == b0[end] != 0;
      assert end < |b| ==> b[j..end + 1][|name|] != (name + [0])[|name|];
    }
  }

  lemma ZeroFreeLeftoversConfine(p: Packet, b0: seq<byte>)
    requires forall i: nat :: HEADER_SIZE <= i < |b0| ==> b0[i] != 0
    requires |PrintPacket(p)| <= |b0|
    ensures Confined(p, b0)
  {
    forall k | 0 <= k < |p.records|
      ensures ConfinedSearch(PrintRecords(PrintFront(p), p.records[..k]), b0, p.records[k].name)
    {
      PrintedPrefix(PrintFront(p), p.records, k);
      ZeroFreeConfinesSearch(PrintRecords(PrintFront(p), p.records[..k]), b0, p.records[k].name);
    }
  }

  /** Only the leftovers behind the written part matter to the searches. */
  lemma ConfinedOverlay(p: Packet, b0: seq<byte>, b: seq<byte>)
    requires |PrintFront(p)| <= |b0| && b == Overlay(PrintFront(p), b0)
    ensures ConfinedRecords(PrintFront(p), p.records, |p.records|, b) <==> Confined(p, b0)
  {
    hide CopyAt, PrintFront, PrintRecord;
    var front, rs := PrintFront(p), p.records;
    forall k | 0 <= k < |rs|
      ensures ConfinedSearch(PrintRecords(front, rs[..k]), b, rs[k].name) <==>
              ConfinedSearch(PrintRecords(front, rs[..k]), b0, rs[k].name)
    {
      var pre := PrintRecords(front, rs[..k]);
      assert Overlay(pre, b) == Overlay(pre, b0);
    }
  }

  // ---------- when it does not ----------

  /** The k-th name, which the printer writes in full, was taken for a text at `t` that begins in the
      message and ends in the leftovers; `b` holds the message up to there and then the pointer. */
  ghost predicate AstrayAt(pre: seq<byte>, rs: seq<Record>, b0: seq<byte>, b: seq<byte>, cursor: nat, k: nat, t: nat)
    requires k < |rs| && cursor <= |b|
  {
    var before, name := PrintRecords(pre, rs[..k]), rs[k].name;
    && !ConfinedSearch(before, b0, name)
    && |before| <= |b0| && |before| + 2 <= cursor && before <= b
    && b[|before|..|before| + 2] == PointerBytes(t)
    && HEADER_SIZE <= t < |before| < t + |name| + 1
    && CopyAt(Overlay(before, b0), t, name)
  }

  ghost predicate Astray(pre: seq<byte>, rs: seq<Record>, b0: seq<byte>, b: seq<byte>, cursor: nat)
    requires cursor <= |b|
  {
    exists k: nat, t: nat :: k < |rs| && AstrayAt(pre, rs, b0, b, cursor, k, t)
  }

  /** What an unconfined search finds. */
  lemma SearchAstray(pre: seq<byte>, b0: seq<byte>, name: seq<byte>)
    requires HEADER_SIZE <= |pre| <= |b0| && !ConfinedSearch(pre, b0, name)
    ensures name != [] && PrintName(pre, name) == name + [0]
    ensures exists t: nat :: HEADER_SIZE <= t < |pre| < t + |name| + 1 && CopyAt(Overlay(pre, b0), t, name) &&
                             FieldAsWritten(Overlay(pre, b0), |pre|, name) == PointerBytes(t)
  {
    var b := Overlay(pre, b0);
    var copy := FirstMatch(b, HEADER_SIZE, |pre|, name);
    assert copy.Some?;
    if copy.value + |name| + 1 <= |pre| {
      CopyInside(pre, b0, copy.value, name);
    }
  }

  lemma FirstOctet(r: Record)
    requires PlainRecord(r) && r.name != []
    ensures r.name[0] < 64
  {
  }

  /** An astray message is not the printed one. */
  lemma AstrayDiffers(pre: seq<byte>, rs: seq<Record>, b0: seq<byte>, b: seq<byte>, cursor: nat)
    requires HEADER_SIZE <= |pre| && cursor <= |b| && Astray(pre, rs, b0, b, cursor)
    requires forall r | r in rs :: PlainRecord(r)
    ensures b[..cursor] != PrintRecords(pre, rs)
  {
    hide PrintRecords, ConfinedSearch, CopyAt, PrintName, PrintRecord, LabelChain, FieldAsWritten;
    var k: nat, t: nat :| k < |rs| && AstrayAt(pre, rs, b0, b, cursor, k, t);
    var before, name := PrintRecords(pre, rs[..k]), rs[k].name;
    SearchAstray(before, b0, name);
    PrintedUpTo(pre, rs, k);
    FirstOctet(rs[k]);
    assert (before + (name + [0]))[|before|] == name[0] < 64;
    assert b[..cursor][|before|] == b[|before|..|before| + 2][0] >= 192;
  }

  /**
   Walking the labels of a name whose copy at `t` is cut off at `c` by a pointer back to `t`: the walk
   ends in a pointer that does not lead below, or the pointer lands inside a label.
   */
  lemma {:induction false} OverlappedWalk(b: seq<byte>, t: nat, c: nat, name: seq<byte>, o: nat)
    requires t + o <= c && c + 2 <= |b| && t < POINTER_REACH && b[c..c + 2] == PointerBytes(t)
    requires c - t <= |name| && b[t..c] == name[..c - t] && LabelChain(name[o..])
    ensures Resolve(b, t, t + o).Some? ==>
              var w, d := Wire(Resolve(b, t, t + o).value), c - t - o;
              d < |w| && w[..d] == b[t + o..c] && w[d] == b[c] && c - t < |name|
    decreases c - t - o
  {
    hide Wire, Resolve, PointerBytes, LabelChain, Stop;
    var at := t + o;
    if at == c {
      PointerToStart(b, t, c);
    } else {
      LabelAhead(b, t, c, name, o);
      var next := at + 1 + b[at];
      if next <= c {
        OverlappedWalk(b, t, c, name, o + 1 + name[o]);
      }
      if Resolve(b, t, at).Some? {
        ResolveLabel(b, t, at);
        JoinAround(b, at, next, c, Wire(Resolve(b, t, next).value));
      }
    }
  }

  /** A label and the rest of a name, seen up to a position in either. */
  lemma JoinAround(b: seq<byte>, at: nat, next: nat, c: nat, rest: seq<byte>)
    requires at <= next <= |b| && at <= c < |b| && (next <= c ==> c - next < |rest|)
    ensures var w := b[at..next] + rest;
            if next <= c then w[..c - at] == b[at..next] + rest[..c - next] && w[c - at] == rest[c - next] &&
                              b[at..c] == b[at..next] + b[next..c]
            else w[..c - at] == b[at..c] && w[c - at] == b[c]
  {
  }

  lemma PointerToStart(b: seq<byte>, t: nat, c: nat)
    requires c + 2 <= |b| && t < POINTER_REACH && b[c..c + 2] == PointerBytes(t)
    ensures Resolve(b, t, c) == None && b[c] >= 192 && PointerTarget(b[c], b[c + 1]) == t
  {
    assert b[c] == b[c..c + 2][0] && b[c + 1] == b[c..c + 2][1];
  }

  lemma LabelAhead(b: seq<byte>, t: nat, c: nat, name: seq<byte>, o: nat)
    requires t + o < c < |b| && c - t <= |name| && b[t..c] == name[..c - t] && LabelChain(name[o..])
    ensures b[t + o] == name[o] && 0 < name[o] < 64 && o + 1 + name[o] <= |name|
    ensures LabelChain(name[o + 1 + name[o]..])
  {
    assert b[t + o] == b[t..c][o] == name[o] == name[o..][0];
    assert name[o..][1 + name[o]..] == name[o + 1 + name[o]..];
  }

  ghost predicate Low(name: seq<byte>) {
    forall x | x in name :: x < 192
  }

  /** Such a pointer never reads as a name without octets of 192 or more. */
  lemma OverlapMisreads(b: seq<byte>, t: nat, c: nat, name: seq<byte>)
    requires t < c && c + 2 <= |b| && t < POINTER_REACH && b[c..c + 2] == PointerBytes(t)
    requires PlainName(name) && Low(name) && c - t <= |name| && b[t..c] == name[..c - t]
    ensures Decoded(b, c).Some? ==> Decoded(b, c).value.0 != name
  {
    hide CStr, Wire, PointerBytes;
    assert name[0..] == name;
    OverlappedWalk(b, t, c, name, 0);
    PointerToStart(b, t, c);
    assert Resolve(b, c, c) == Resolve(b, t, t);
    if Resolve(b, t, t).Some? {
      var w, d := Wire(Resolve(b, t, t).value), c - t;
      assert forall i | 0 <= i < d :: w[..d][i] == name[..d][i] && name[i] in name;
      CStrPrefix(w, d + 1);
      assert CStr(w)[d] == w[..d + 1][d] == b[c] >= 192;
      assert name[d] in name;
    }
  }

  /** A record that does not read back spoils the whole. */
  lemma {:induction false} SpoiltRecord(b: seq<byte>, at: nat, rs: seq<Record>, k: nat, count: nat, end: nat)
    requires k < count <= |rs| && ParseRecords(b, at, k) == Some((rs[..k], end))
    requires ParseRecord(b, end).Some? ==> ParseRecord(b, end).value.0 != rs[k]
    ensures ParseRecords(b, at, count).Some? ==> ParseRecords(b, at, count).value.0 != rs[..count]
    decreases count
  {
    hide ParseRecord;
    var most := rs[..count - 1];
    assert rs[..count] == most + [rs[count - 1]];
    if k + 1 < count {
      SpoiltRecord(b, at, rs, k, count - 1, end);
    }
  }

  ghost predicate LowNames(p: Packet) {
    forall r | r in p.records :: Low(r.name)
  }

  /** An astray message never parses to the packet, if no name has an octet of 192 or more. */
  lemma AstrayNeverParses(p: Packet, b0: seq<byte>, b: seq<byte>, cursor: nat)
    requires WellFormed(p) && LowNames(p) && cursor <= |b| && cursor < POINTER_REACH
    requires Astray(PrintFront(p), p.records, b0, b, cursor)
    ensures ParsePacket(b) != Some(p)
  {
    hide PrintRecord, ParseRecord, ParseRecords, ParseQuestions, PrintRecords, ConfinedSearch, PlainRecord, PointerBytes, CopyAt;
    var front, rs, header := PrintFront(p), p.records, PrintHeader(p.header);
    var k: nat, t: nat :| k < |rs| && AstrayAt(front, rs, b0, b, cursor, k, t);
    var c := |PrintRecords(front, rs[..k])|;
    assert rs[k] in rs && rs[..|rs|] == rs;
    AstrayRecord(front, rs, b0, b, cursor, k, t);
    ParsePrintedHeader(b, p.header);
    assert header <= front <= b;
    ParsePrintedQuestions(b, header, p.questions);
    assert forall r | r in rs[..k] :: r in rs;
    ParsePrintedRecords(b, front, rs[..k]);
    SpoiltRecord(b, |front|, rs, k, |rs|, c);
  }

  lemma AstrayRecord(pre: seq<byte>, rs: seq<Record>, b0: seq<byte>, b: seq<byte>, cursor: nat, k: nat, t: nat)
    requires k < |rs| && cursor <= |b| && cursor < POINTER_REACH && AstrayAt(pre, rs, b0, b, cursor, k, t)
    requires PlainRecord(rs[k]) && Low(rs[k].name)
    ensures var c := |PrintRecords(pre, rs[..k])|;
            ParseRecord(b, c).Some? ==> ParseRecord(b, c).value.0 != rs[k]
  {
    hide PrintRecords, ConfinedSearch, PointerBytes, Decoded, ParseRdata, PlainName, CopyAt;
    var before, name := PrintRecords(pre, rs[..k]), rs[k].name;
    CutCopy(before, b0, b, t, name);
    OverlapMisreads(b, t, |before|, name);
  }

  lemma CutCopy(pre: seq<byte>, b0: seq<byte>, b: seq<byte>, t: nat, name: seq<byte>)
    requires pre <= b && |pre| <= |b0| && t < |pre| < t + |name| + 1 && CopyAt(Overlay(pre, b0), t, name)
    ensures b[t..|pre|] == name[..|pre| - t]
  {
    var o, d := Overlay(pre, b0), |pre| - t;
    assert b[t..|pre|] == pre[t..] == o[t..t + |name| + 1][..d] == (name + [0])[..d];
  }

  // ---------- an unconfined message ----------

  /** Two records; the address of the first spells the name of the second up to its final zero. */
  const TRAP := Packet(Header(0, 0, 0, 2, 0, 0), [],
                       [Record([], QTYPE_A, 1, 0, [3, 119, 119, 119]),
                        Record([3, 119, 119, 119], QTYPE_A, 1, 0, [9, 9, 9, 9])])

  /** What is written when the second name comes up, over a buffer of zeros. */
  const TRAP_WRITTEN: seq<byte> := [0, 0, 0, 0, 0, 0, 0, 2, 0, 0, 0, 0,
                                    0, 0, 1, 0, 1, 0, 0, 0, 0, 0, 4, 3, 119, 119, 119]

  /** On a zeroed buffer the leftover zero completes the name, the pointer overwrites that zero, and
      the field it forms leads into itself: it has no meaning. */
  lemma LeftoversBreakCompression()
    ensures WellFormed(TRAP)
    ensures var b0 := seq(64, i => 0);
            var pre := PrintRecords(PrintFront(TRAP), TRAP.records[..1]);
            var name := TRAP.records[1].name;
            var field := FieldAsWritten(Overlay(pre, b0), |pre|, name);
            !Confined(TRAP, b0) && field == PointerBytes(23) &&
            Decoded(Splice(Overlay(pre, b0), |pre|, field), |pre|) == None
  {
    hide Resolve, PlainName, FirstMatch, PrintRecord, PrintFront;
    var b0: seq<byte> := seq(64, i => 0);
    var name := TRAP.records[1].name;
    TrapIsPlain();
    TrapPrefix();
    var b := Overlay(TRAP_WRITTEN, b0);
    TrapSearch(b0, name);
    var after := Splice(b, 27, PointerBytes(23));
    SelfPointerHasNoMeaning(after);
  }

  lemma TrapSearch(b0: seq<byte>, name: seq<byte>)
    requires |b0| == 64 && b0[27] == 0 && name == [3, 119, 119, 119]
    ensures FirstMatch(Overlay(TRAP_WRITTEN, b0), HEADER_SIZE, 27, name) == Some(23)
    ensures !ConfinedSearch(TRAP_WRITTEN, b0, name)
  {
    var pre, b := TRAP_WRITTEN, Overlay(TRAP_WRITTEN, b0);
    assert b[23..28] == name + [0];
    forall j: nat | HEADER_SIZE <= j && j != 23
      ensures j < 27 ==> !CopyAt(b, j, name)
      ensures !CopyAt(pre, j, name)
    {
      if j < 27 {
        assert b[j] == pre[j] != 3;
        assert b[j..j + 5][0] != (name + [0])[0];
        assert j + 5 <= 27 ==> pre[j..j + 5][0] != (name + [0])[0];
      }
    }
  }

  lemma SelfPointerHasNoMeaning(b: seq<byte>)
    requires |b| == 64 && b[23] == 3 && b[27] == 192 && b[28] == 23
    ensures Decoded(b, 27) == None
  {
    assert Resolve(b, 23, 27).None?;
    assert Resolve(b, 23, 23).None?;
    assert Resolve(b, 27, 27).None?;
  }

  lemma TrapIsPlain()
    ensures WellFormed(TRAP)
  {
    var n: seq<byte> := [3, 119, 119, 119];
    assert n[4..] == [];
    assert PlainName(n);
  }

  lemma TwoRecordsHeader(p: Packet)
    requires p.header == Header(0, 0, 0, 2, 0, 0) && p.questions == []
    ensures PrintFront(p) == PrintHeader(p.header) == [0, 0, 0, 0, 0, 0, 0, 2, 0, 0, 0, 0]
  {
  }

  /** An address record of the root. */
  lemma RootRecord(pre: seq<byte>, rdata: seq<byte>)
    requires |rdata| < 256
    ensures PrintRecord(pre, Record([], QTYPE_A, 1, 0, rdata)) == [0, 0, 1, 0, 1, 0, 0, 0, 0, 0, |rdata|] + rdata
  {
    hide FirstMatch, U16, U32;
    var r := Record([], QTYPE_A, 1, 0, rdata);
    SmallNumber(1);
    SmallNumber(|rdata|);
    assert PrintName(pre, []) == [0];
    assert PrintFixed(r) == [0, 1] + [0, 1] + [0, 0, 0, 0] + [0, |rdata|];
  }

  lemma SmallNumber(n: nat)
    requires n < 256
    ensures U16(n) == [0, n] && U32(0) == [0, 0, 0, 0]
  {
  }

  lemma FirstRecord(pre: seq<byte>, rs: seq<Record>)
    requires rs != []
    ensures PrintRecords(pre, rs[..1]) == pre + PrintRecord(pre, rs[0])
  {
    assert rs[..1][..0] == [] && rs[..1][0] == rs[0];
  }

  lemma TrapPrefix()
    ensures PrintRecords(PrintFront(TRAP), TRAP.records[..1]) == TRAP_WRITTEN
  {
    hide PrintRecords, PrintRecord, PrintHeader;
    FirstRecord(PrintFront(TRAP), TRAP.records);
    TwoRecordsHeader(TRAP);
    RootRecord(PrintFront(TRAP), TRAP.records[0].rdata);
  }

  // ---------- an astray message that parses all the same ----------

  /** The one octet of address spells the length of the second name, whose label is a pointer to it. */
  const LUCK := Packet(Header(0, 0, 0, 2, 0, 0), [],
                       [Record([], QTYPE_A, 1, 0, [2]), Record([2, 192, 23], QTYPE_A, 1, 0, [])])

  const LUCK_WRITTEN: seq<byte> := [0, 0, 0, 0, 0, 0, 0, 2, 0, 0, 0, 0,
                                    0, 0, 1, 0, 1, 0, 0, 0, 0, 0, 1, 2]

  /** Over leftovers that hold the rest of the name, the pointer equals what it overwrites, and the zero
      of the record type ends it: the message is not the printed one, but it parses to the packet. */
  lemma AstrayMayParse()
    ensures WellFormed(LUCK) && !LowNames(LUCK)
    ensures var b0 := seq(64, i => if i == 24 then 192 else if i == 25 then 23 else 0);
            var pre, r := PrintRecords(PrintFront(LUCK), LUCK.records[..1]), LUCK.records[1];
            var field := FieldAsWritten(Overlay(pre, b0), |pre|, r.name);
            !Confined(LUCK, b0) && field == PointerBytes(23) &&
            ParsePacket(Splice(Overlay(pre, b0), |pre|, field + PrintFixed(r) + r.rdata)) == Some(LUCK)
  {
    hide Resolve, PlainName, FirstMatch, PrintRecord, PrintFront, ParsePacket, PrintFixed;
    var b0: seq<byte> := seq(64, i => if i == 24 then 192 else if i == 25 then 23 else 0);
    var r := LUCK.records[1];
    LuckIsPlain();
    LuckPrefix();
    LuckSearch(b0, r.name);
    var b := Overlay(LUCK_WRITTEN, b0);
    var after := Splice(b, 24, PointerBytes(23) + PrintFixed(r) + r.rdata);
    LuckParses(b0, after);
  }

  lemma LuckIsPlain()
    ensures WellFormed(LUCK) && !LowNames(LUCK)
  {
    var n: seq<byte> := [2, 192, 23];
    assert n[3..] == [];
    assert PlainName(n);
    assert 192 in n && LUCK.records[1].name == n && LUCK.records[1] in LUCK.records;
  }

  lemma LuckPrefix()
    ensures PrintRecords(PrintFront(LUCK), LUCK.records[..1]) == LUCK_WRITTEN
    ensures PrintFront(LUCK) == LUCK_WRITTEN[..12] == PrintHeader(LUCK.header)
  {
    hide PrintRecords, PrintRecord, PrintHeader;
    FirstRecord(PrintFront(LUCK), LUCK.records);
    TwoRecordsHeader(LUCK);
    RootRecord(PrintFront(LUCK), LUCK.records[0].rdata);
  }

  lemma LuckSearch(b0: seq<byte>, name: seq<byte>)
    requires |b0| == 64 && b0[24] == 192 && b0[25] == 23 && b0[26] == 0 && name == [2, 192, 23]
    ensures FirstMatch(Overlay(LUCK_WRITTEN, b0), HEADER_SIZE, 24, name) == Some(23)
    ensures !ConfinedSearch(LUCK_WRITTEN, b0, name)
  {
    var pre, b := LUCK_WRITTEN, Overlay(LUCK_WRITTEN, b0);
    assert b[23..27] == name + [0];
    forall j: nat | HEADER_SIZE <= j && j != 23
      ensures j < 24 ==> !CopyAt(b, j, name)
      ensures !CopyAt(pre, j, name)
    {
      if j < 24 {
        assert b[j] == pre[j] != 2;
        assert b[j..j + 4][0] != (name + [0])[0];
        assert j + 4 <= 24 ==> pre[j..j + 4][0] != (name + [0])[0];
      }
    }
  }

  lemma LuckParses(b0: seq<byte>, after: seq<byte>)
    requires |b0| == 64
    requires var r := LUCK.records[1];
             after == Splice(Overlay(LUCK_WRITTEN, b0), 24, PointerBytes(23) + PrintFixed(r) + r.rdata)
    ensures ParsePacket(after) == Some(LUCK)
  {
    hide ParseRecord, ParseRecords, ParseQuestions, PrintRecords, PrintRecord, PrintHeader, PrintFixed, PointerBytes, PlainRecord, ParseHeader;
    var header, r, rs := PrintHeader(LUCK.header), LUCK.records[1], LUCK.records;
    LuckIsPlain();
    LuckPrefix();
    LuckField(b0, after);
    assert LUCK_WRITTEN <= after && header <= after;
    ParsePrintedHeader(after, LUCK.header);
    NoQuestionsParse(after);
    assert forall x | x in rs[..1] :: x in rs && PlainRecord(x);
    ParsePrintedRecords(after, PrintFront(LUCK), rs[..1]);
    LuckRecord(after);
    OneMoreRecord(after, 12, 1);
    assert rs == rs[..1] + [r];
  }

  lemma LuckField(b0: seq<byte>, after: seq<byte>)
    requires |b0| == 64
    requires var r := LUCK.records[1];
             after == Splice(Overlay(LUCK_WRITTEN, b0), 24, PointerBytes(23) + PrintFixed(r) + r.rdata)
    ensures |after| == 64 && after[23] == 2 && LUCK_WRITTEN <= after
    ensures after[24..36] == PointerBytes(23) + PrintFixed(LUCK.records[1])
  {
    hide PrintFixed;
    var field := PointerBytes(23) + PrintFixed(LUCK.records[1]);
    assert field + LUCK.records[1].rdata == field && |field| == 12;
    assert after[24..36] == field;
  }

  lemma NoQuestionsParse(b: seq<byte>)
    ensures ParseQuestions(b, HEADER_SIZE, 0) == Some(([], HEADER_SIZE))
  {
  }

  lemma OneMoreRecord(b: seq<byte>, at: nat, n: nat)
    requires ParseRecords(b, at, n).Some? && ParseRecord(b, ParseRecords(b, at, n).value.1).Some?
    ensures var (rs, end) := ParseRecords(b, at, n).value;
            var (r, next) := ParseRecord(b, end).value;
            ParseRecords(b, at, n + 1) == Some((rs + [r], next))
  {
  }

  lemma LuckRecord(b: seq<byte>)
    requires var r := LUCK.records[1];
             |b| == 64 && b[23] == 2 && b[24..36] == PointerBytes(23) + PrintFixed(r)
    ensures ParseRecord(b, 24) == Some((LUCK.records[1], 36))
  {
    hide Resolve, Wire, CStr, PrintFixed;
    var r := LUCK.records[1];
    assert b[24] == b[24..36][0] == 192 && b[25] == b[24..36][1] == 23;
    assert b[26..36] == b[24..36][2..] == PrintFixed(r);
    GetPrintedFixed(b, 26, r);
    LuckName(b);
    assert b[36..36] == [];
  }

  lemma LuckName(b: seq<byte>)
    requires |b| == 64 && b[23] == 2 && b[24] == 192 && b[25] == 23 && GetU16(b, 26) == 1
    ensures Decoded(b, 24) == Some(([2, 192, 23], 2))
  {
    assert b[26] == 0;
    assert Resolve(b, 23, 26) == Some([]);
    var name: Label := b[24..26];
    assert name == [192, 23] && [name] + [] == [name];
    assert Resolve(b, 23, 23) == Some([name]);
    assert Resolve(b, 24, 24) == Resolve(b, 23, 23);
    var w: seq<byte> := [2, 192, 23];
    assert [name][1..] == [] && Wire([name]) == w;
    CStrWhole(w);
    assert Stop(b, 24) == 24;
  }
}
