/** The printed cache key "class|type|name" of src/dns/dns_cache.c, and reading numbers back. */
module CacheKey {
  import opened Common

  const BAR: byte := 124

  predicate IsDigit(c: byte) {
    48 <= c <= 57
  }

  function Digit(c: byte): nat
    requires IsDigit(c)
  {
    var x: int := c;
    x - 48
  }

  /** `%u`. */
  function Decimal(n: nat): (s: seq<byte>)
    ensures s != [] && forall c | c in s :: IsDigit(c)
  {
    if n < 10 then [48 + n] else Decimal(n / 10) + [48 + n % 10]
  }

  /** `atoi`: digits up to the first other character. */
  function Atoi(s: seq<byte>): nat {
    AtoiFrom(0, s)
  }

  function AtoiFrom(n: nat, s: seq<byte>): nat
    decreases |s|
  {
    if s == [] || !IsDigit(s[0]) then n else AtoiFrom(10 * n + Digit(s[0]), s[1..])
  }

  lemma {:induction false} AtoiAppend(n: nat, a: seq<byte>, b: seq<byte>)
    requires forall c | c in a :: IsDigit(c)
    ensures AtoiFrom(n, a + b) == AtoiFrom(AtoiFrom(n, a), b)
    decreases |a|
  {
    if a == [] {
      assert a + b == b;
    } else {
      assert (a + b)[1..] == a[1..] + b && (a + b)[0] == a[0];
      AtoiAppend(10 * n + Digit(a[0]), a[1..], b);
    }
  }

  /** A printed number reads back, up to whatever non-digit follows. */
  lemma {:induction false} AtoiOfDecimal(n: nat, rest: seq<byte>)
    requires rest == [] || !IsDigit(rest[0])
    ensures Atoi(Decimal(n) + rest) == n
  {
    ReadDecimal(n);
    AtoiAppend(0, Decimal(n), rest);
  }

  lemma {:induction false} ReadDecimal(n: nat)
    ensures AtoiFrom(0, Decimal(n)) == n
  {
    if n >= 10 {
      ReadDecimal(n / 10);
      AtoiAppend(0, Decimal(n / 10), [48 + n % 10]);
      assert [48 + n % 10][1..] == [];
    } else {
      assert [48 + n][1..] == [];
    }
  }

  /** `strchr(s, '|')`: the position of the first bar, or the length. */
  function FindBar(s: seq<byte>): (i: nat)
    ensures i <= |s| && (forall j | 0 <= j < i :: s[j] != BAR) && (i < |s| ==> s[i] == BAR)
  {
    if s == [] || s[0] == BAR then 0 else 1 + FindBar(s[1..])
  }

  lemma {:induction false} FindBarAfter(a: seq<byte>, b: seq<byte>)
    requires BAR !in a
    ensures FindBar(a + [BAR] + b) == |a|
  {
    var s := a + [BAR] + b;
    assert s[|a|] == BAR && forall j | 0 <= j < |a| :: s[j] == a[j];
  }

  function Print(qclass: uint16, qtype: uint16, qname: seq<byte>): seq<byte> {
    Decimal(qclass) + [BAR] + (Decimal(qtype) + [BAR] + qname)
  }

  /** A number and what follows its bar are recovered from the printed text. */
  lemma NumberField(n: nat, rest: seq<byte>)
    ensures var s := Decimal(n) + [BAR] + rest;
            Atoi(s) == n && FindBar(s) == |Decimal(n)| && s[FindBar(s) + 1..] == rest
  {
    FindBarAfter(Decimal(n), rest);
    AtoiOfDecimal(n, [BAR] + rest);
    assert Decimal(n) + ([BAR] + rest) == Decimal(n) + [BAR] + rest;
  }

  /** The printed key is injective, whatever bytes the name holds. */
  lemma PrintInjective(c1: uint16, t1: uint16, n1: seq<byte>, c2: uint16, t2: uint16, n2: seq<byte>)
    ensures Print(c1, t1, n1) == Print(c2, t2, n2) <==> c1 == c2 && t1 == t2 && n1 == n2
  {
    NumberField(c1, Decimal(t1) + [BAR] + n1);
    NumberField(c2, Decimal(t2) + [BAR] + n2);
    NumberField(t1, n1);
    NumberField(t2, n2);
  }

  /** The key of class IN and type AAAA: the text 1|28| before the name. */
  lemma PrintedKey(qname: seq<byte>)
    ensures Print(1, 28, qname) == [49, 124, 50, 56, 124] + qname
    ensures Print(1, 1, qname) == [49, 124, 49, 124] + qname
  {
    assert Decimal(1) == [49] && Decimal(2) == [50] && Decimal(28) == Decimal(2) + [56];
  }
}
