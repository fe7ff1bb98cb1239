/** IPv4 addresses: four octets, their number, and the text `to_string` prints. */
module Ipv4 {
  import opened Words

  datatype Ipv4Addr = Ipv4Addr(a: byte, b: byte, c: byte, d: byte)

  // The address as a 32-bit number.
  function Num(x: Ipv4Addr): u32 {
    Word(x.a, x.b, x.c, x.d)
  }

  // A network interface and its addresses.
  datatype Interface = Interface(name: string, ipv4: seq<Ipv4Addr>)

  //---------------------------------------------------------------------------
  // Decimal printing
  //---------------------------------------------------------------------------

  function Digit(d: nat): char
    requires d < 10
  {
    "0123456789"[d]
  }

  function Decimal(n: nat): (s: string)
    ensures s != []
  {
    if n < 10 then [Digit(n)] else Decimal(n / 10) + [Digit(n % 10)]
  }

  function ToString(x: Ipv4Addr): string {
    Decimal(x.a) + "." + (Decimal(x.b) + "." + (Decimal(x.c) + "." + Decimal(x.d)))
  }

  predicate NoDot(s: string) {
    forall i :: 0 <= i < |s| ==> s[i] != '.'
  }

  lemma {:induction false} DecimalNoDot(n: nat)
    ensures NoDot(Decimal(n))
  {
    if n >= 10 {
      DecimalNoDot(n / 10);
    }
  }

  // Equal texts come from equal numbers.
  lemma {:induction false} DecimalInjective(m: nat, n: nat)
    requires Decimal(m) == Decimal(n)
    ensures m == n
    decreases m
  {
    var s, k := Decimal(m), |Decimal(m)| - 1;
    assert s[k] == Digit(m % 10) == Digit(n % 10);
    if m >= 10 && n >= 10 {
      assert Decimal(m / 10) == s[..k] == Decimal(n / 10);
      DecimalInjective(m / 10, n / 10);
    }
  }

  // No leading zeros.
  lemma {:induction false} DecimalFirst(n: nat)
    ensures Decimal(n)[0] == '0' <==> n == 0
  {
    if n >= 10 {
      DecimalFirst(n / 10);
    }
  }

  predicate AllDigits(s: string) {
    forall i :: 0 <= i < |s| ==> '0' <= s[i] <= '9'
  }

  // The number a text of digits reads as.
  function Value(s: string): nat
    requires AllDigits(s)
  {
    if s == [] then 0 else 10 * Value(s[..|s| - 1]) + (s[|s| - 1] as int - '0' as int)
  }

  // A decimal numeral: digits only, no leading zero, and the value they read as.
  predicate Numeral(s: string, n: nat) {
    s != [] && AllDigits(s) && (s[0] == '0' ==> |s| == 1) && Value(s) == n
  }

  lemma DigitRead(c: char, d: nat)
    requires d < 10
    ensures c == Digit(d) <==> '0' <= c <= '9' && c as int - '0' as int == d
  {
  }

  lemma {:induction false} DecimalReads(n: nat)
    ensures Numeral(Decimal(n), n)
  {
    var s := Decimal(n);
    if n < 10 {
      DigitRead(s[0], n);
      assert s[..0] == [];
    } else {
      DecimalReads(n / 10);
      DecimalFirst(n / 10);
      DigitRead(s[|s| - 1], n % 10);
      assert s[..|s| - 1] == Decimal(n / 10);
    }
  }

  // A value above zero has a digit above zero.
  lemma {:induction false} FirstDigitCounts(s: string)
    requires s != [] && AllDigits(s) && s[0] != '0'
    ensures Value(s) > 0
    decreases |s|
  {
    if |s| > 1 {
      FirstDigitCounts(s[..|s| - 1]);
    }
  }

  // What is printed for a number is its decimal numeral, and nothing else is.
  lemma {:induction false} DecimalExact(s: string, n: nat)
    ensures s == Decimal(n) <==> Numeral(s, n)
    decreases |s|
  {
    DecimalReads(n);
    if Numeral(s, n) {
      var k := |s| - 1;
      if k == 0 {
        assert Value(s[..0]) == 0;
        DigitRead(s[0], n);
      } else {
        FirstDigitCounts(s[..k]);
        assert n / 10 == Value(s[..k]);
        DecimalExact(s[..k], n / 10);
        DigitRead(s[k], n % 10);
        assert s == s[..k] + [s[k]];
      }
    }
  }

  // Four fields with dots between them.
  function Dotted(a: string, b: string, c: string, d: string): string {
    a + "." + b + "." + c + "." + d
  }

  // An address prints as the numerals of its octets, first octet first, with dots between them.
  lemma ToStringExact(x: Ipv4Addr, s: string)
    ensures s == ToString(x) <==>
      exists a, b, c, d ::
        Numeral(a, x.a) && Numeral(b, x.b) && Numeral(c, x.c) && Numeral(d, x.d) && s == Dotted(a, b, c, d)
  {
    forall a, b, c, d ensures Dotted(a, b, c, d) == a + "." + (b + "." + (c + "." + d)) {
    }
    DecimalReads(x.a);
    DecimalReads(x.b);
    DecimalReads(x.c);
    DecimalReads(x.d);
    assert ToString(x) == Dotted(Decimal(x.a), Decimal(x.b), Decimal(x.c), Decimal(x.d));
    forall a, b, c, d
      | Numeral(a, x.a) && Numeral(b, x.b) && Numeral(c, x.c) && Numeral(d, x.d)
      ensures Dotted(a, b, c, d) == ToString(x)
    {
      DecimalExact(a, x.a);
      DecimalExact(b, x.b);
      DecimalExact(c, x.c);
      DecimalExact(d, x.d);
    }
  }

  // Texts up to a dot compare field by field.
  lemma FieldPrefix(u: string, v: string, s: string, t: string)
    requires NoDot(u) && NoDot(v)
    ensures u + "." + s <= v + "." + t <==> u == v && s <= t
  {
    var x, y := u + "." + s, v + "." + t;
    if x <= y {
      assert x[|u|] == '.' && y[|v|] == '.';
      assert |u| == |v|;
      assert u == x[..|u|] == y[..|u|] == v;
      assert s == x[|u| + 1..] && t == y[|u| + 1..];
    }
    if u == v && s <= t {
      assert y == x + t[|s|..];
    }
  }

  lemma NumberPrefix(m: nat, n: nat, s: string, t: string)
    ensures Decimal(m) + "." + s <= Decimal(n) + "." + t <==> m == n && s <= t
  {
    DecimalNoDot(m);
    DecimalNoDot(n);
    FieldPrefix(Decimal(m), Decimal(n), s, t);
    if Decimal(m) == Decimal(n) {
      DecimalInjective(m, n);
    }
  }

  // Different addresses print differently, so a printed address names one address.
  lemma ToStringInjective(x: Ipv4Addr, y: Ipv4Addr)
    requires ToString(x) == ToString(y)
    ensures x == y
  {
    NumberPrefix(x.a, y.a, Decimal(x.b) + "." + (Decimal(x.c) + "." + Decimal(x.d)),
                 Decimal(y.b) + "." + (Decimal(y.c) + "." + Decimal(y.d)));
    NumberPrefix(x.b, y.b, Decimal(x.c) + "." + Decimal(x.d), Decimal(y.c) + "." + Decimal(y.d));
    NumberPrefix(x.c, y.c, Decimal(x.d), Decimal(y.d));
    assert |Decimal(x.d)| == |Decimal(y.d)|;
    DecimalInjective(x.d, y.d);
  }
}
