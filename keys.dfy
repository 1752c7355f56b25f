/** Identity keys of the visit ledger: a declaration name followed by the
    decimal form of a source position (`fmt.Sprintf("%s%d", name, pos)`). */
module Keys {

  predicate IsDigit(c: char) {
    '0' <= c <= '9'
  }

  predicate AllDigits(s: string) {
    forall i :: 0 <= i < |s| ==> IsDigit(s[i])
  }

  function DigitChar(d: nat): (c: char)
    requires d < 10
    ensures IsDigit(c) && c as int - '0' as int == d
  {
    ('0' as int + d) as char
  }

  /** The `%d` rendering of a non-negative position. */
  function NatToString(n: nat): (s: string)
    ensures |s| > 0 && AllDigits(s)
    ensures n >= 10 ==> |s| > 1 && s[0] != '0'
  {
    if n < 10 then [DigitChar(n)] else NatToString(n / 10) + [DigitChar(n % 10)]
  }

  /** The value of a string of decimal digits; the inverse of NatToString. */
  function ParseNat(s: string): nat
    requires AllDigits(s)
  {
    if s == [] then 0 else ParseNat(s[..|s| - 1]) * 10 + (s[|s| - 1] as int - '0' as int)
  }

  lemma {:induction false} ParseNatRoundTrip(n: nat)
    ensures ParseNat(NatToString(n)) == n
  {
    if n >= 10 {
      var s := NatToString(n);
      assert s[..|s| - 1] == NatToString(n / 10);
      ParseNatRoundTrip(n / 10);
    }
  }

  /** The ledger key of a declaration called `name` at position `pos`: the
      name, then the decimal digits of the position. */
  function Key(name: string, pos: nat): (k: string)
    ensures |k| > |name| && k[..|name|] == name && AllDigits(k[|name|..])
  {
    var k := name + NatToString(pos);
    assert k[|name|..] == NatToString(pos);
    k
  }

  /** A key is the name followed by digits that spell the position; it
      always ends in a digit. */
  lemma KeyParts(name: string, pos: nat)
    ensures var k := Key(name, pos);
      && |k| > |name| && k[..|name|] == name
      && AllDigits(k[|name|..]) && ParseNat(k[|name|..]) == pos
      && IsDigit(k[|k| - 1])
  {
    var k := Key(name, pos);
    assert k[|name|..] == NatToString(pos);
    ParseNatRoundTrip(pos);
  }

  /** Two different (name, position) pairs can share a key: the concatenation
      does not mark where the name ends. */
  lemma KeyCollision()
    ensures Key("a1", 23) == Key("a", 123)
    ensures ("a1", 23) != ("a", 123)
  {
    assert NatToString(23) == NatToString(2) + [DigitChar(3)];
    assert NatToString(12) == NatToString(1) + [DigitChar(2)];
    assert NatToString(123) == NatToString(12) + [DigitChar(3)];
  }

  /** A name that does not end in a digit, as Go identifiers that end in a
      letter or an underscore. */
  predicate PlainName(name: string) {
    name == [] || !IsDigit(name[|name| - 1])
  }

  /** Keys are unique when no name ends in a digit. */
  lemma {:induction false} KeyInjective(a: string, p: nat, b: string, q: nat)
    requires PlainName(a) && PlainName(b)
    requires Key(a, p) == Key(b, q)
    ensures a == b && p == q
  {
    var k := Key(a, p);
    var s, r := NatToString(p), NatToString(q);
    assert k == a + s && k == b + r;
    KeyParts(a, p);
    KeyParts(b, q);
    // a name's last character is not a digit, so the digits of the two
    // positions must start at the same index
    assert |a| == |b|;
    assert a == k[..|a|] == b;
    assert s == k[|a|..] == r;
    ParseNatRoundTrip(p);
    ParseNatRoundTrip(q);
  }
}
