/**
 Compressed domain names, section 4.1.4 of RFC 1035, and the recursive decoder of
 src/dns/dns_resolver.c. `Resolve` is the meaning of a name field; `NameDeserialize`
 is the C routine, with its scanning loop and its recursion through pointers.
 */
module Names {
  import opened Common

  /** A label of section 2.3.4: one to sixty-three octets, any octet values. */
  type Label = l: seq<byte> | 1 <= |l| <= 63 witness [0]

  /** The uncompressed wire form of a name, without the final zero octet. */
  function Wire(labels: seq<Label>): seq<byte> {
    if labels == [] then [] else [|labels[0]|] + labels[0] + Wire(labels[1..])
  }

  function PointerTarget(hi: byte, lo: byte): nat
    requires hi >= 192
  {
    var high: int, low: int := hi - 192, lo;
    high * 256 + low
  }

  /**
   The labels that section 4.1.4 assigns to the field at `at`: labels, then either a zero octet
   or a pointer to a prior occurrence. `start` is where the name holding position `at` began; a
   pointer must lead strictly below it.
   */
  function Resolve(b: seq<byte>, start: nat, at: nat): Option<seq<Label>>
    decreases start, |b| - at
  {
    if at >= |b| then None
    else if b[at] == 0 then Some([])
    else if b[at] < 64 then
      if at + 1 + b[at] > |b| then None
      else
        match Resolve(b, start, at + 1 + b[at])
        case None => None
        case Some(rest) => Some([b[at + 1..at + 1 + b[at]]] + rest)
    else if b[at] < 192 || at + 1 >= |b| then None
    else
      var target := PointerTarget(b[at], b[at + 1]);
      if target < start then Resolve(b, target, target) else None
  }

  /** Where the labels of the field at `at` stop: at its zero octet or at its pointer. */
  function Stop(b: seq<byte>, at: nat): (i: nat)
    ensures at <= i
    decreases |b| - at
  {
    if at >= |b| || b[at] == 0 || b[at] >= 64 then at else Stop(b, at + 1 + b[at])
  }

  ghost predicate EndsInPointer(b: seq<byte>, at: nat) {
    Stop(b, at) < |b| && b[Stop(b, at)] >= 192
  }

  /** The number of octets the field at `at` occupies on the wire. */
  ghost function FieldLength(b: seq<byte>, at: nat): nat {
    Stop(b, at) - at + if EndsInPointer(b, at) then 2 else 1
  }

  /** What C string functions see of a byte sequence: everything before the first zero. */
  function CStr(s: seq<byte>): seq<byte> {
    if s == [] || s[0] == 0 then [] else [s[0]] + CStr(s[1..])
  }

  lemma {:induction false} CStrPrefix(s: seq<byte>, k: nat)
    requires k <= |s| && forall i | 0 <= i < k :: s[i] != 0
    ensures CStr(s) == s[..k] + CStr(s[k..])
  {
    if k > 0 {
      CStrPrefix(s[1..], k - 1);
      assert s[1..][k - 1..] == s[k..];
      assert s[..k] == [s[0]] + s[1..][..k - 1];
    } else {
      assert s[0..] == s;
    }
  }

  lemma {:induction false} CStrAppend(x: seq<byte>, y: seq<byte>)
    ensures CStr(x + CStr(y)) == CStr(x + y)
  {
    if x == [] {
      CStrIdempotent(y);
      assert x + CStr(y) == CStr(y) && x + y == y;
    } else {
      CStrAppend(x[1..], y);
      assert (x + CStr(y))[1..] == x[1..] + CStr(y);
      assert (x + y)[1..] == x[1..] + y;
    }
  }

  lemma {:induction false} CStrStops(x: seq<byte>, y: seq<byte>)
    ensures CStr(x + [0] + y) == CStr(x)
  {
    if x == [] {
      assert x + [0] + y == [0] + y;
    } else {
      CStrStops(x[1..], y);
      assert (x + [0] + y)[1..] == x[1..] + [0] + y;
    }
  }

  lemma {:induction false} CStrIdempotent(y: seq<byte>)
    ensures CStr(CStr(y)) == CStr(y) && 0 !in CStr(y) && CStr(y) <= y
  {
    if y != [] && y[0] != 0 {
      CStrIdempotent(y[1..]);
      assert CStr(y)[1..] == CStr(y[1..]);
      assert y == [y[0]] + y[1..];
    }
  }

  lemma {:induction false} CStrWhole(y: seq<byte>)
    ensures CStr(y) == y <==> 0 !in y
  {
    if 0 in y {
      CStrIdempotent(y);
    } else {
      CStrPrefix(y, |y|);
      assert y[..|y|] == y;
    }
  }

  lemma ResolveLabel(b: seq<byte>, start: nat, at: nat)
    requires Resolve(b, start, at).Some? && 0 < b[at] < 64
    ensures var next := at + 1 + b[at];
            next <= |b| && Resolve(b, start, next).Some? && Stop(b, at) == Stop(b, next) &&
            Wire(Resolve(b, start, at).value) == b[at..next] + Wire(Resolve(b, start, next).value)
  {
    var next := at + 1 + b[at];
    var rest := Resolve(b, start, next).value;
    var labels := Resolve(b, start, at).value;
    assert labels == [b[at + 1..next]] + rest;
    assert labels[1..] == rest;
    assert b[at..next] == [b[at]] + b[at + 1..next];
  }

  /** What stands where the labels of a field stop: the final zero, or a pointer to a named rest. */
  ghost predicate Terminator(b: seq<byte>, start: nat, i: nat) {
    && i < |b|
    && (b[i] == 0 || (
          && b[i] >= 192 && i + 1 < |b|
          && var t := PointerTarget(b[i], b[i + 1]);
          t < start && Resolve(b, t, t).Some?))
  }

  ghost function RestOfName(b: seq<byte>, start: nat, i: nat): seq<byte>
    requires Terminator(b, start, i)
  {
    if b[i] == 0 then [] else
      var t := PointerTarget(b[i], b[i + 1]);
      Wire(Resolve(b, t, t).value)
  }

  lemma FieldEnds(b: seq<byte>, start: nat, at: nat)
    requires Resolve(b, start, at).Some?
    ensures at < |b|
    ensures !(0 < b[at] < 64) ==>
              Stop(b, at) == at && Terminator(b, start, at) &&
              Wire(Resolve(b, start, at).value) == RestOfName(b, start, at)
  {
  }

  /** A resolved field spells its labels up to `Stop`, then a zero or a pointer to the rest. */
  lemma {:induction false} FieldSpellsName(b: seq<byte>, start: nat, at: nat)
    requires Resolve(b, start, at).Some?
    ensures Terminator(b, start, Stop(b, at))
    ensures Wire(Resolve(b, start, at).value) == b[at..Stop(b, at)] + RestOfName(b, start, Stop(b, at))
    decreases |b| - at
  {
    hide Resolve, Wire, Stop, RestOfName;
    FieldEnds(b, start, at);
    var i := Stop(b, at);
    if 0 < b[at] < 64 {
      var next := at + 1 + b[at];
      ResolveLabel(b, start, at);
      FieldSpellsName(b, start, next);
      JoinSlices(b, at, next, i, RestOfName(b, start, i));
    } else {
      assert b[at..at] == [];
    }
  }

  lemma JoinSlices(b: seq<byte>, at: nat, next: nat, i: nat, rest: seq<byte>)
    requires at <= next <= i <= |b|
    ensures b[at..next] + (b[next..i] + rest) == b[at..i] + rest
  {
    assert b[at..next] + b[next..i] == b[at..i];
  }

  /** A field without pointer read as a C string. */
  lemma PlainField(b: seq<byte>, at: nat)
    requires Resolve(b, at, at).Some? && !EndsInPointer(b, at)
    ensures CStr(b[at..]) == CStr(Wire(Resolve(b, at, at).value))
  {
    hide Resolve, Wire, Stop, CStr;
    FieldSpellsName(b, at, at);
    var i := Stop(b, at);
    assert b[at..] == b[at..i] + [0] + b[i + 1..];
    CStrStops(b[at..i], b[i + 1..]);
    assert b[at..i] + [] == b[at..i];
  }

  /** A field that ends in a pointer read as its own labels followed by the pointed-to string. */
  lemma PointedField(b: seq<byte>, at: nat)
    requires Resolve(b, at, at).Some? && EndsInPointer(b, at)
    ensures var i := Stop(b, at);
            i + 1 < |b| &&
            var t := PointerTarget(b[i], b[i + 1]);
            t < at && Resolve(b, t, t).Some? &&
            CStr(b[at..i] + CStr(Wire(Resolve(b, t, t).value))) == CStr(Wire(Resolve(b, at, at).value))
  {
    hide Resolve, Wire, Stop, CStr;
    FieldSpellsName(b, at, at);
    var i := Stop(b, at);
    CStrAppend(b[at..i], RestOfName(b, at, i));
  }

  /**
   The decoder. On every field the standard gives a meaning, it terminates and yields what C
   string functions see of the name's wire form. It reports the wire length of the field, except
   that on a field without pointer it reports the C string length plus one.
   */
  method NameDeserialize(buf: array<byte>, cur: nat) returns (name: seq<byte>, len: nat)
    requires Resolve(buf[..], cur, cur).Some?
    ensures name == CStr(Wire(Resolve(buf[..], cur, cur).value))
    ensures len == if EndsInPointer(buf[..], cur) then FieldLength(buf[..], cur) else |name| + 1
    decreases cur
  {
    hide CStr; hide Wire; hide Resolve;
    ghost var b := buf[..];
    FieldSpellsName(b, cur, cur);
    var i: nat := 0;
    ghost var at: nat := cur;
    while buf[cur + i] != 0 && buf[cur + i] < 192
      invariant at == cur + i && Stop(b, at) == Stop(b, cur)
      decreases |b| - i
    {
      i := i + buf[cur + i] + 1;
      at := at + 1 + b[at];
    }
    assert Stop(b, cur) == at;
    if buf[cur + i] == 0 {
      PlainField(b, cur);
      name := StrDup(buf, cur);
      return name, |name| + 1;
    }
    PointedField(b, cur);
    assert b[at] == buf[cur + i] && b[at + 1] == buf[cur + i + 1];
    var suffix, _ := NameDeserialize(buf, PointerTarget(buf[cur + i], buf[cur + i + 1]));
    assert buf[cur..cur + i] == b[cur..at];
    name := CStr(buf[cur..cur + i] + suffix);
    len := i + 2;
  }

  /** `strdup`: the string that starts at `cur` and runs to the first zero. */
  method StrDup(buf: array<byte>, cur: nat) returns (s: seq<byte>)
    requires exists z :: cur <= z < buf.Length && buf[z] == 0
    ensures s == CStr(buf[cur..])
    ensures cur + |s| < buf.Length && buf[cur + |s|] == 0
  {
    var i := cur;
    while buf[i] != 0
      invariant cur <= i < buf.Length && forall j | cur <= j < i :: buf[j] != 0
      invariant exists z :: i <= z < buf.Length && buf[z] == 0
      decreases buf.Length - i
    {
      i := i + 1;
    }
    s := buf[cur..i];
    CStrPrefix(buf[cur..], i - cur);
    assert buf[cur..][..i - cur] == s && buf[cur..][i - cur..] == buf[i..];
    assert CStr(buf[i..]) == [];
  }

  /** No octet of any label is zero: the only names a NUL-terminated string can carry. */
  ghost predicate ZeroFree(labels: seq<Label>) {
    forall l | l in labels :: 0 !in l
  }

  lemma {:induction false} ZeroFreeWire(labels: seq<Label>)
    ensures ZeroFree(labels) <==> 0 !in Wire(labels)
  {
    if labels != [] {
      ZeroFreeWire(labels[1..]);
      assert labels == [labels[0]] + labels[1..];
      assert forall x :: x in Wire(labels) <==> x == |labels[0]| || x in labels[0] || x in Wire(labels[1..]);
    }
  }

  /** The decoded string is the name of the standard, and the reported length the wire length,
      exactly when no label holds a zero octet. */
  lemma DecodedNameExact(b: seq<byte>, at: nat)
    requires Resolve(b, at, at).Some?
    ensures var labels := Resolve(b, at, at).value;
            (CStr(Wire(labels)) == Wire(labels) <==> ZeroFree(labels)) &&
            (!EndsInPointer(b, at) ==>
               (|CStr(Wire(labels))| + 1 == FieldLength(b, at) <==> ZeroFree(labels)))
  {
    var labels := Resolve(b, at, at).value;
    ZeroFreeWire(labels);
    CStrWhole(Wire(labels));
    FieldSpellsName(b, at, at);
    CStrIdempotent(Wire(labels));
  }

  /** Octets appended after everything the field reaches do not change its meaning or its length. */
  lemma {:induction false} AppendKeepsName(b: seq<byte>, more: seq<byte>, start: nat, at: nat)
    requires Resolve(b, start, at).Some?
    ensures Resolve(b + more, start, at) == Resolve(b, start, at)
    ensures Stop(b + more, at) == Stop(b, at)
    decreases start, |b| - at
  {
    var c := b + more;
    if b[at] != 0 {
      if b[at] < 64 {
        var next := at + 1 + b[at];
        AppendKeepsName(b, more, start, next);
        assert c[at + 1..next] == b[at + 1..next];
      } else {
        var t := PointerTarget(b[at], b[at + 1]);
        AppendKeepsName(b, more, t, t);
      }
    }
  }

  // ---------- names held by the program: NUL-terminated wire forms ----------

  /** A name as the program holds it, its final zero left off: labels of 1..63 octets, none zero. */
  predicate PlainName(n: seq<byte>) {
    0 !in n && LabelChain(n)
  }

  predicate LabelChain(n: seq<byte>) {
    n == [] || (1 <= n[0] <= 63 && n[0] < |n| && LabelChain(n[1 + n[0]..]))
  }

  function LabelsOf(n: seq<byte>): seq<Label>
    requires LabelChain(n)
  {
    if n == [] then [] else [n[1..1 + n[0]]] + LabelsOf(n[1 + n[0]..])
  }

  lemma {:induction false} WireOfLabelsOf(n: seq<byte>)
    requires LabelChain(n)
    ensures Wire(LabelsOf(n)) == n
  {
    if n != [] {
      var k := 1 + n[0];
      var first: Label := n[1..k];
      WireOfLabelsOf(n[k..]);
      assert LabelsOf(n) == [first] + LabelsOf(n[k..]);
      assert ([first] + LabelsOf(n[k..]))[1..] == LabelsOf(n[k..]);
      assert n == [n[0]] + first + n[k..];
    }
  }

  /** Whether `b` holds the name with its final zero at `at`: the string comparison of the search. */
  predicate CopyAt(b: seq<byte>, at: nat, n: seq<byte>) {
    at + |n| + 1 <= |b| && b[at..at + |n| + 1] == n + [0]
  }

  lemma CopySuffix(b: seq<byte>, at: nat, n: seq<byte>, k: nat)
    requires CopyAt(b, at, n) && k <= |n|
    ensures b[at..at + k] == n[..k] && CopyAt(b, at + k, n[k..])
  {
    var copy := b[at..at + |n| + 1];
    assert copy[..k] == b[at..at + k] && (n + [0])[..k] == n[..k];
    assert copy[k..] == b[at + k..at + |n| + 1] && (n + [0])[k..] == n[k..] + [0];
  }

  /** A full copy of a name, wherever it lies, has that name as its meaning. */
  lemma {:induction false} CopyResolves(b: seq<byte>, start: nat, at: nat, n: seq<byte>)
    requires PlainName(n) && CopyAt(b, at, n)
    ensures Resolve(b, start, at) == Some(LabelsOf(n)) && Stop(b, at) == at + |n|
    decreases |n|
  {
    hide CopyAt;
    CopyStart(b, at, n);
    if n != [] {
      var k: nat := 1 + n[0];
      CopySuffix(b, at, n, k);
      CopyResolves(b, start, at + k, n[k..]);
      OneLabel(b, start, at, n);
    }
  }

  lemma CopyStart(b: seq<byte>, at: nat, n: seq<byte>)
    requires CopyAt(b, at, n)
    ensures at + |n| < |b| && b[at] == if n == [] then 0 else n[0]
  {
    assert b[at] == b[at..at + |n| + 1][0];
  }

  lemma OneLabel(b: seq<byte>, start: nat, at: nat, n: seq<byte>)
    requires n != [] && LabelChain(n) && at + |n| < |b| && b[at..at + 1 + n[0]] == n[..1 + n[0]]
    requires Resolve(b, start, at + 1 + n[0]) == Some(LabelsOf(n[1 + n[0]..]))
    ensures Resolve(b, start, at) == Some(LabelsOf(n)) && Stop(b, at) == Stop(b, at + 1 + n[0])
  {
    var k: nat := 1 + n[0];
    assert b[at] == b[at..at + k][0] == n[..k][0];
    assert b[at + 1..at + k] == b[at..at + k][1..] == n[..k][1..] == n[1..k];
  }

  /** What the decoder makes of the field at `at`: the string and the reported length. */
  ghost function Decoded(b: seq<byte>, at: nat): Option<(seq<byte>, nat)> {
    if Resolve(b, at, at).None? then None
    else
      var name := CStr(Wire(Resolve(b, at, at).value));
      Some((name, if EndsInPointer(b, at) then FieldLength(b, at) else |name| + 1))
  }

  lemma CopyDecodes(b: seq<byte>, at: nat, n: seq<byte>)
    requires PlainName(n) && CopyAt(b, at, n)
    ensures Decoded(b, at) == Some((n, |n| + 1))
  {
    hide Resolve, Wire, CStr, LabelsOf, LabelChain;
    CopyResolves(b, at, at, n);
    WireOfLabelsOf(n);
    CStrWhole(n);
    assert b[at..at + |n| + 1][|n|] == 0;
  }

  /** The two octets of a pointer: the two high bits set over the low fourteen of the offset. */
  function PointerBytes(t: nat): seq<byte> {
    [192 + t / 256 % 64, t % 256]
  }

  lemma PointerDecodes(b: seq<byte>, at: nat, t: nat, n: seq<byte>)
    requires PlainName(n) && CopyAt(b, t, n) && t < at && t < 16384
    requires at + 2 <= |b| && b[at..at + 2] == PointerBytes(t)
    ensures Decoded(b, at) == Some((n, 2))
  {
    hide Wire, CStr, LabelsOf, LabelChain, Resolve;
    CopyResolves(b, t, t, n);
    WireOfLabelsOf(n);
    CStrWhole(n);
    PointerLeads(b, at, t);
  }

  lemma PointerLeads(b: seq<byte>, at: nat, t: nat)
    requires t < at && t < 16384 && at + 2 <= |b| && b[at..at + 2] == PointerBytes(t)
    ensures Resolve(b, at, at) == Resolve(b, t, t) && Stop(b, at) == at && b[at] >= 192
  {
    assert b[at] == b[at..at + 2][0] && b[at + 1] == b[at..at + 2][1];
    assert PointerTarget(b[at], b[at + 1]) == t;
  }

  /** Why "appended after the field" needs the reach and not just the field: here the pointer at 3
      leads to a label at 0 that runs over the field and past its end. */
  lemma PointedLabelMayOverrunField()
    ensures var b := [4, 7, 7, 192, 0];
            FieldLength(b, 3) == 2 &&
            Resolve(b, 3, 3) == None &&
            Resolve(b + [0], 3, 3) == Some([[7, 7, 192, 0]])
  {
    var b: seq<byte> := [4, 7, 7, 192, 0];
    var c := b + [0];
    assert Resolve(b, 0, 5) == None;
    assert Resolve(c, 0, 5) == Some([]);
    var long: Label := c[1..5];
    assert long == [7, 7, 192, 0];
    assert [long] + [] == [long];
    assert Resolve(c, 0, 0) == Some([long]);
    assert Resolve(c, 3, 3) == Resolve(c, 0, 0);
  }
}
