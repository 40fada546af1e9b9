/** Dotted names and their wire form: `encode_name` and `decode_name` of src/dns/dns_resolver.c. */
module TextNames {
  import opened Common
  import opened Names
  import opened Serializer

  const DOT: byte := 46

  // ---------- dotted text as parts ----------

  function Split(s: seq<byte>): (parts: seq<seq<byte>>)
    ensures parts != []
  {
    if s == [] then [[]]
    else
      var rest := Split(s[1..]);
      if s[0] == DOT then [[]] + rest else [[s[0]] + rest[0]] + rest[1..]
  }

  function Join(parts: seq<seq<byte>>): seq<byte> {
    if parts == [] then [] else if |parts| == 1 then parts[0] else parts[0] + [DOT] + Join(parts[1..])
  }

  lemma {:induction false} SplitAt(s: seq<byte>, k: nat)
    requires k <= |s| && DOT !in s[..k] && (k < |s| ==> s[k] == DOT)
    ensures Split(s) == if k < |s| then [s[..k]] + Split(s[k + 1..]) else [s]
  {
    if k > 0 {
      assert s[1..][..k - 1] == s[..k][1..] && s[..k] == [s[0]] + s[1..][..k - 1] && s[0] == s[..k][0];
      assert k < |s| ==> s[1..][k..] == s[k + 1..];
      SplitAt(s[1..], k - 1);
      assert s == [s[0]] + s[1..];
    }
  }

  lemma {:induction false} JoinOfSplit(s: seq<byte>)
    ensures Join(Split(s)) == s
  {
    if s != [] {
      JoinOfSplit(s[1..]);
      var rest := Split(s[1..]);
      assert s == [s[0]] + s[1..];
      if s[0] == DOT {
        assert ([[]] + rest)[1..] == rest;
        assert Join([[]] + rest) == [] + [DOT] + Join(rest);
      } else {
        assert Split(s)[1..] == rest[1..];
      }
    }
  }

  ghost predicate DotFree(parts: seq<seq<byte>>) {
    forall p | p in parts :: DOT !in p
  }

  lemma {:induction false} SplitOfJoin(parts: seq<seq<byte>>)
    requires parts != [] && DotFree(parts)
    ensures Split(Join(parts)) == parts
  {
    var s, k := Join(parts), |parts[0]|;
    if |parts| > 1 {
      SplitOfJoin(parts[1..]);
      assert s[..k] == parts[0] && s[k + 1..] == Join(parts[1..]);
      assert parts == [parts[0]] + parts[1..];
    } else {
      assert s[..k] == s == parts[0];
    }
    SplitAt(s, k);
  }

  // ---------- parts on the wire ----------

  predicate Short(parts: seq<seq<byte>>) {
    forall p | p in parts :: |p| <= 63
  }

  /** Length-prefixed parts; on labels it is `Wire`, but text can have empty parts too. */
  function Pack(parts: seq<seq<byte>>): seq<byte>
    requires Short(parts)
  {
    if parts == [] then [] else [|parts[0]|] + parts[0] + Pack(parts[1..])
  }

  lemma {:induction false} PackIsWire(labels: seq<Label>)
    ensures Short(labels) && Pack(labels) == Wire(labels)
  {
    if labels != [] {
      PackIsWire(labels[1..]);
    }
  }

  lemma PackFirst(parts: seq<seq<byte>>)
    requires Short(parts) && parts != []
    ensures Short(parts[1..]) && Pack(parts) == [|parts[0]|] + parts[0] + Pack(parts[1..]) && Pack([]) == []
  {
  }

  lemma {:induction false} PackAppend(parts: seq<seq<byte>>, p: seq<byte>)
    requires Short(parts) && |p| <= 63
    ensures Short(parts + [p]) && Pack(parts + [p]) == Pack(parts) + [|p|] + p
  {
    hide Pack;
    PackFirst([p]);
    assert [p][1..] == [];
    if parts == [] {
      assert parts + [p] == [p];
    } else {
      PackAppend(parts[1..], p);
      assert (parts + [p])[1..] == parts[1..] + [p];
      PackFirst(parts);
      PackFirst(parts + [p]);
    }
  }

  // ---------- encode_name ----------

  /** `memcpy` behind what is written. */
  method AppendTo(text: array<byte>, write: nat, s: seq<byte>)
    requires write + |s| <= text.Length
    modifies text
    ensures text[..write + |s|] == old(text[..write]) + s
  {
    MemCpy(text, write, s);
  }

  /** The length byte and the copy of one label. */
  method WriteLabel(encoded: array<byte>, write: nat, label': seq<byte>)
    requires write + 1 + |label'| <= encoded.Length && |label'| <= 63
    modifies encoded
    ensures encoded[..write + 1 + |label'|] == old(encoded[..write]) + [|label'|] + label'
  {
    encoded[write] := |label'|;
    assert encoded[..write + 1] == old(encoded[..write]) + [|label'|];
    AppendTo(encoded, write + 1, label');
  }

  /** `done` are the parts of the text before position `from`. */
  ghost predicate SplitSoFar(s: seq<byte>, from: nat, done: seq<seq<byte>>) {
    from <= |s| && Short(done) && Split(s) == done + Split(s[from..])
  }

  predicate NoDot(s: seq<byte>, from: nat, k: nat) {
    from <= k <= |s| && forall i | from <= i < k :: s[i] != DOT
  }

  lemma ShortMeans(parts: seq<seq<byte>>)
    ensures !Short(parts) <==> exists p :: p in parts && |p| > 63
  {
  }

  lemma NothingSplit(s: seq<byte>)
    ensures SplitSoFar(s, 0, []) && Short([]) && Pack([]) == []
  {
    assert s[0..] == s;
  }

  /** The next part ends at `k`: a part too long is found in the whole; a dot leads on; the end ends. */
  lemma SplitGoesOn(s: seq<byte>, from: nat, k: nat, done: seq<seq<byte>>)
    requires SplitSoFar(s, from, done) && Short(done)
    requires NoDot(s, from, k) && (k < |s| ==> s[k] == DOT)
    ensures |s[from..k]| > 63 ==> !Short(Split(s))
    ensures |s[from..k]| <= 63 ==>
              var done' := done + [s[from..k]];
              Short(done') && Pack(done') == Pack(done) + [|s[from..k]|] + s[from..k] &&
              if k < |s| then SplitSoFar(s, k + 1, done') else Split(s) == done'
  {
    hide Split, Pack;
    var part, tail := s[from..k], if k < |s| then Split(s[k + 1..]) else [];
    assert s[from..][..k - from] == part;
    assert k < |s| ==> s[from..][k - from + 1..] == s[k + 1..];
    assert k == |s| ==> s[from..] == part;
    SplitAt(s[from..], k - from);
    assert Split(s) == done + [part] + tail;
    assert (done + [part] + tail)[|done|] == part;
    if |part| <= 63 {
      PackAppend(done, part);
    }
  }

  /** `encode_name`: no result for the empty text or a part over 63 bytes; otherwise exactly its
      allocation of strlen + 2 bytes is written. */
  method EncodeName(domain: seq<byte>) returns (encoded: array?<byte>)
    ensures encoded == null <==> domain == [] || exists p :: p in Split(domain) && |p| > 63
    ensures encoded != null ==> fresh(encoded) && encoded.Length == |domain| + 2
    ensures encoded != null ==> encoded[..] == Pack(Split(domain)) + [0]
  {
    hide Split, Pack, Short, SplitSoFar;
    NothingSplit(domain);
    ShortMeans(Split(domain));
    if domain == [] {
      return null;
    }
    encoded := new byte[|domain| + 2];
    var read, write, labelStart := 0, 0, 0;
    ghost var done: seq<seq<byte>> := [];
    while true
      invariant write == labelStart <= read <= |domain| && fresh(encoded)
      invariant NoDot(domain, labelStart, read)
      invariant SplitSoFar(domain, labelStart, done) && Short(done) && encoded[..write] == Pack(done)
      decreases |domain| - read
    {
      if read == |domain| || domain[read] == DOT {
        var labelLen := read - labelStart;
        SplitGoesOn(domain, labelStart, read, done);
        if labelLen > 63 {
          return null;
        }
        WriteLabel(encoded, write, domain[labelStart..read]);
        write := write + 1 + labelLen;
        done := done + [domain[labelStart..read]];
        if read == |domain| {
          AppendTo(encoded, write, [0]);
          write := write + 1;
          assert encoded[..] == encoded[..write];
          break;
        }
        labelStart := read + 1;
      }
      read := read + 1;
    }
  }

  // ---------- decode_name ----------

  /** Walking length bytes from `at` stays inside `b` until a zero or a pointer mark. */
  predicate Ends(b: seq<byte>, at: nat)
    decreases |b| - at
  {
    at < |b| && (b[at] == 0 || b[at] >= 192 || Ends(b, at + 1 + b[at]))
  }

  /** The parts read on that walk; none if it meets a pointer mark. */
  function Parts(b: seq<byte>, at: nat): Option<seq<seq<byte>>>
    requires Ends(b, at)
    decreases |b| - at
  {
    if b[at] == 0 then Some([])
    else if b[at] >= 192 then None
    else
      var next := at + 1 + b[at];
      var rest := Parts(b, next);
      if rest.None? then None else Some([b[at + 1..next]] + rest.value)
  }

  /** The bytes the parts take on the wire. */
  function Size(parts: seq<seq<byte>>): nat {
    if parts == [] then 0 else |parts[0]| + 1 + Size(parts[1..])
  }

  lemma {:induction false} JoinLength(parts: seq<seq<byte>>)
    ensures |Join(parts)| == if parts == [] then 0 else Size(parts) - 1
  {
    if parts != [] {
      JoinLength(parts[1..]);
    }
  }

  lemma PartsHere(b: seq<byte>, at: nat)
    requires Ends(b, at) && Parts(b, at).Some?
    ensures at < |b| && b[at] < 192
    ensures Parts(b, at).value == [] <==> b[at] == 0
    ensures b[at] == 0 ==> Join(Parts(b, at).value) == []
  {
  }

  lemma PartsStep(b: seq<byte>, at: nat)
    requires Ends(b, at) && 0 < b[at] < 192
    ensures var next := at + 1 + b[at];
            Ends(b, next) && next < |b| &&
            (Parts(b, at).Some? <==> Parts(b, next).Some?) &&
            (Parts(b, at).Some? ==>
               var part, rest := b[at + 1..next], Parts(b, next).value;
               Size(Parts(b, at).value) == |part| + 1 + Size(rest) &&
               (rest == [] <==> b[next] == 0) &&
               Join(Parts(b, at).value) == part + (if rest == [] then [] else [DOT]) + Join(rest))
  {
    var next := at + 1 + b[at];
    if Parts(b, next).Some? {
      var part, rest := b[at + 1..next], Parts(b, next).value;
      assert Parts(b, at).value == [part] + rest;
      assert ([part] + rest)[1..] == rest;
    }
  }

  /** The first loop of `decode_name`: the size of the text, unless a pointer mark is met. */
  method DecodedSize(encoded: seq<byte>) returns (total: Option<nat>)
    requires Ends(encoded, 0)
    ensures total == match Parts(encoded, 0) case None => None case Some(parts) => Some(Size(parts) + 1)
  {
    var p: nat, sum: nat := 0, 0;
    while encoded[p] != 0
      invariant Ends(encoded, p) && (Parts(encoded, p).Some? <==> Parts(encoded, 0).Some?)
      invariant Parts(encoded, 0).Some? ==> sum + Size(Parts(encoded, p).value) == Size(Parts(encoded, 0).value)
      decreases |encoded| - p
    {
      if encoded[p] >= 192 {
        return None;
      }
      PartsStep(encoded, p);
      var labelLen: nat := encoded[p];
      sum := sum + labelLen + 1;
      p := p + labelLen + 1;
    }
    return Some(sum + 1);
  }

  /** What is still to be read at `at` completes `done` to the whole text. */
  ghost predicate Completes(b: seq<byte>, at: nat, done: seq<byte>, text: seq<byte>) {
    Ends(b, at) && Parts(b, at).Some? && done + Join(Parts(b, at).value) == text
  }

  lemma CompletesOn(b: seq<byte>, at: nat, done: seq<byte>, text: seq<byte>)
    requires Completes(b, at, done, text)
    ensures at < |b| && b[at] < 192
    ensures b[at] == 0 ==> done == text
    ensures b[at] != 0 ==>
              var next := at + 1 + b[at];
              next < |b| &&
              var done' := done + b[at + 1..next] + if b[next] != 0 then [DOT] else [];
              |done'| <= |text| && Completes(b, next, done', text)
  {
    PartsHere(b, at);
    if b[at] != 0 {
      PartsStep(b, at);
    }
  }

  /** `decode_name`: no result on a pointer mark, otherwise the parts joined by dots and a zero. */
  method DecodeName(encoded: seq<byte>) returns (decoded: array?<byte>)
    requires Ends(encoded, 0)
    ensures decoded == null <==> Parts(encoded, 0).None?
    ensures decoded != null ==> fresh(decoded) && decoded.Length == Size(Parts(encoded, 0).value) + 1
    ensures decoded != null ==>
              var text := Join(Parts(encoded, 0).value);
              |text| < decoded.Length && decoded[..|text| + 1] == text + [0]
  {
    hide Join, Size, Parts, Ends, Completes;
    var total := DecodedSize(encoded);
    if total.None? {
      return null;
    }
    decoded := new byte[total.value];
    ghost var text, done := Join(Parts(encoded, 0).value), [];
    JoinLength(Parts(encoded, 0).value);
    CompletesAtStart(encoded);
    var p: nat, write: nat := 0, 0;
    while encoded[p] != 0
      invariant p < |encoded| && write < decoded.Length && done == decoded[..write]
      invariant Completes(encoded, p, done, text)
      decreases |encoded| - p
    {
      CompletesOn(encoded, p, done, text);
      var next: nat := p + 1 + encoded[p];
      AppendTo(decoded, write, encoded[p + 1..next]);
      write := write + (next - p - 1);
      if encoded[next] != 0 {
        AppendTo(decoded, write, [DOT]);
        write := write + 1;
        done := done + encoded[p + 1..next] + [DOT];
      } else {
        done := done + encoded[p + 1..next];
        assert done + [] == done;
      }
      p := next;
    }
    CompletesOn(encoded, p, done, text);
    decoded[write] := 0;
  }

  lemma CompletesAtStart(b: seq<byte>)
    requires Ends(b, 0) && Parts(b, 0).Some?
    ensures Completes(b, 0, [], Join(Parts(b, 0).value)) && b != []
  {
  }

  // ---------- the two undo each other ----------

  function UpToEmpty(parts: seq<seq<byte>>): seq<seq<byte>> {
    if parts == [] || parts[0] == [] then [] else [parts[0]] + UpToEmpty(parts[1..])
  }

  lemma {:induction false} SizeOfPack(parts: seq<seq<byte>>)
    requires Short(parts)
    ensures |Pack(parts)| == Size(parts)
  {
    if parts != [] {
      SizeOfPack(parts[1..]);
    }
  }

  /** The decoder reads packed parts up to the first empty one, whose length byte is a zero. */
  lemma {:induction false} PackReads(parts: seq<seq<byte>>, b: seq<byte>, at: nat)
    requires Short(parts) && at <= |b| && b[at..] == Pack(parts) + [0]
    ensures Ends(b, at) && Parts(b, at) == Some(UpToEmpty(parts))
    decreases |parts|
  {
    hide Pack, Ends, Parts;
    PackHere(parts, b, at);
    if parts != [] {
      PackReads(parts[1..], b, at + 1 + |parts[0]|);
      PartHere(parts, b, at);
    }
  }

  /** Where packed parts stand, their end or their first part does. */
  lemma PackHere(parts: seq<seq<byte>>, b: seq<byte>, at: nat)
    requires Short(parts) && at <= |b| && b[at..] == Pack(parts) + [0]
    ensures at < |b|
    ensures parts == [] ==> Ends(b, at) && Parts(b, at) == Some([])
    ensures parts != [] ==>
              var part, next := parts[0], at + 1 + |parts[0]|;
              next <= |b| && b[at] == |part| && b[at + 1..next] == part &&
              Short(parts[1..]) && b[next..] == Pack(parts[1..]) + [0]
  {
    if parts == [] {
      assert b[at] == b[at..][0] == 0;
    } else {
      var part, rest, n := parts[0], Pack(parts[1..]) + [0], |parts[0]|;
      var whole := [n] + (part + rest);
      assert b[at..] == whole;
      assert b[at] == b[at..][0] == n;
      assert b[at + 1..] == b[at..][1..] == part + rest;
      assert b[at + 1..at + 1 + n] == b[at + 1..][..n] == part;
      assert b[at + 1 + n..] == b[at + 1..][n..] == rest;
    }
  }

  lemma PartHere(parts: seq<seq<byte>>, b: seq<byte>, at: nat)
    requires parts != [] && at < |b| && at + 1 + |parts[0]| <= |b| && |parts[0]| <= 63
    requires b[at] == |parts[0]| && b[at + 1..at + 1 + |parts[0]|] == parts[0]
    requires Ends(b, at + 1 + |parts[0]|) && Parts(b, at + 1 + |parts[0]|) == Some(UpToEmpty(parts[1..]))
    ensures Ends(b, at) && Parts(b, at) == Some(UpToEmpty(parts))
  {
  }

  lemma {:induction false} UpToEmptySize(parts: seq<seq<byte>>)
    ensures if [] in parts then Size(UpToEmpty(parts)) < Size(parts) else UpToEmpty(parts) == parts
  {
    if parts != [] && parts[0] != [] {
      UpToEmptySize(parts[1..]);
      assert parts == [parts[0]] + parts[1..];
      assert UpToEmpty(parts)[1..] == UpToEmpty(parts[1..]);
    }
  }

  lemma {:induction false} SizeAtLeast(parts: seq<seq<byte>>)
    ensures Size(parts) >= |parts|
  {
    if parts != [] {
      SizeAtLeast(parts[1..]);
    }
  }

  /** What encoding a text and decoding the bytes gives. */
  ghost function Redecoded(s: seq<byte>): Option<seq<byte>>
    requires Short(Split(s))
  {
    var b := Pack(Split(s)) + [0];
    assert b[0..] == b;
    PackReads(Split(s), b, 0);
    Some(Join(Parts(b, 0).value))
  }

  /** Where encoding and decoding give the text back: exactly on text without a leading or trailing dot
      and without two dots in a row. */
  lemma DecodeOfEncode(s: seq<byte>)
    requires s != [] && Short(Split(s))
    ensures Redecoded(s) == Some(s) <==> !HasEmptyPart(s)
    ensures |Pack(Split(s)) + [0]| == |s| + 2
  {
    hide Pack;
    var parts := Split(s);
    var b := Pack(parts) + [0];
    assert b[0..] == b;
    PackReads(parts, b, 0);
    UpToEmptySize(parts);
    EmptyParts(s);
    JoinOfSplit(s);
    JoinLength(parts);
    JoinLength(UpToEmpty(parts));
    SizeOfPack(parts);
    if UpToEmpty(parts) == [] && [] in parts {
      assert |s| > 0;
    }
  }

  predicate HasEmptyPart(s: seq<byte>) {
    s == [] || s[0] == DOT || s[|s| - 1] == DOT || exists i :: 0 <= i < |s| - 1 && s[i] == s[i + 1] == DOT
  }

  lemma {:induction false} EmptyParts(s: seq<byte>)
    ensures (s == [] || s[0] == DOT) <==> Split(s)[0] == []
    ensures [] in Split(s) <==> HasEmptyPart(s)
    ensures [] in Split(s)[1..] <==> (s != [] && s[|s| - 1] == DOT) || exists i :: 0 <= i < |s| - 1 && s[i] == s[i + 1] == DOT
  {
    var parts := Split(s);
    assert parts == [parts[0]] + parts[1..];
    if s != [] {
      var t := s[1..];
      EmptyParts(t);
      var rest := Split(t);
      assert parts[1..] == if s[0] == DOT then rest else rest[1..];
      assert t != [] ==> t[|t| - 1] == s[|s| - 1] && t[0] == s[1];
      if i :| 0 <= i < |t| - 1 && t[i] == t[i + 1] == DOT {
        assert s[i + 1] == s[i + 2] == DOT;
      }
      if i :| 0 <= i < |s| - 1 && s[i] == s[i + 1] == DOT {
        assert i > 0 ==> t[i - 1] == t[i] == DOT;
      }
    }
  }

  lemma {:induction false} SplitIsDotFree(s: seq<byte>)
    ensures DotFree(Split(s))
  {
    if s != [] {
      SplitIsDotFree(s[1..]);
      var rest := Split(s[1..]);
      assert rest[0] in rest && forall p | p in rest[1..] :: p in rest;
    }
  }

  /** Where decoding and encoding give the wire name back: exactly on labels without a dot. */
  lemma EncodeOfDecode(labels: seq<Label>)
    requires labels != []
    ensures var b := Wire(labels) + [0];
            Ends(b, 0) && Parts(b, 0) == Some(labels) &&
            var text := Join(labels);
            (Short(Split(text)) && Pack(Split(text)) + [0] == b) <==> DotFree(labels)
  {
    hide Pack, Split, Wire, Parts, Ends, Join, Size, UpToEmpty;
    var b := Wire(labels) + [0];
    var text := Join(labels);
    var parts := Split(text);
    assert b[0..] == b;
    PackIsWire(labels);
    PackReads(labels, b, 0);
    UpToEmptySize(labels);
    if DotFree(labels) {
      SplitOfJoin(labels);
    }
    if Short(parts) && Pack(parts) + [0] == b {
      PackReads(parts, b, 0);
      UpToEmptySize(parts);
      SizeOfPack(parts);
      SizeOfPack(labels);
      assert |Pack(parts) + [0]| == |b|;
      SplitIsDotFree(text);
    }
  }

  /** The text "www.foo" and its wire form. */
  lemma TextExample()
    ensures Split([119, 119, 119, 46, 102, 111, 111]) == [[119, 119, 119], [102, 111, 111]]
    ensures Pack([[119, 119, 119], [102, 111, 111]]) == [3, 119, 119, 119, 3, 102, 111, 111]
  {
    hide Split, Pack;
    var s: seq<byte> := [119, 119, 119, 46, 102, 111, 111];
    var www: seq<byte>, foo: seq<byte> := [119, 119, 119], [102, 111, 111];
    assert s[..3] == www && s[4..] == foo && foo[..3] == foo;
    SplitAt(s, 3);
    SplitAt(foo, 3);
    assert [www] + [foo] == [www, foo] && [www, foo][1..] == [foo] && [foo][1..] == [];
    PackFirst([foo]);
    PackFirst([www, foo]);
  }
}
