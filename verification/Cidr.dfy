/**
 CIDR blocks (section 3.1 of RFC 4632): blocks are nested or disjoint, the
 source's overlap test is true overlap, and what its validation accepts.
 */
module Cidr {
  import opened Words
  import opened Ipv4

  type Prefix = p: int | 0 <= p <= 32

  // `Ipv4Net`: the address keeps its host bits.
  datatype Net = Net(addr: Ipv4Addr, prefix: Prefix)

  function Size(n: Net): nat {
    Pow2(32 - n.prefix)
  }

  // `network()` and `broadcast()`: the host bits cleared and set.
  function First(n: Net): int {
    Num(n.addr) / Size(n) * Size(n)
  }

  function Last(n: Net): int {
    First(n) + Size(n) - 1
  }

  // `contains` tests the masked range.
  predicate Contains(n: Net, x: int) {
    First(n) <= x <= Last(n)
  }

  predicate ContainsAddr(n: Net, x: Ipv4Addr) {
    Contains(n, Num(x))
  }

  //---------------------------------------------------------------------------
  // Dyadic arithmetic
  //---------------------------------------------------------------------------

  lemma DivTwice(a: int, k: nat)
    requires k > 0
    ensures a / (2 * k) == a / k / 2
  {
    var q := a / k;
    var h := q / 2;
    DivRange(a, k, q);
    assert h * (2 * k) == (2 * h) * k;
    if q == 2 * h + 1 {
      assert q * k == (2 * h) * k + k;
    }
    DivRange(a, 2 * k, h);
  }

  // Agreeing above some bit is agreeing above every higher one.
  lemma {:induction false} CoarserAgrees(a: int, b: int, m: nat, n: nat)
    requires m <= n && a / Pow2(m) == b / Pow2(m)
    ensures a / Pow2(n) == b / Pow2(n)
    decreases n
  {
    if m < n {
      CoarserAgrees(a, b, m, n - 1);
      DivTwice(a, Pow2(n - 1));
      DivTwice(b, Pow2(n - 1));
    }
  }

  // Containment is agreement above the host bits.
  lemma ContainsExact(n: Net, x: int)
    ensures Contains(n, x) <==> x / Size(n) == Num(n.addr) / Size(n)
  {
    var k: nat, q: int := Size(n), Num(n.addr) / Size(n);
    assert Contains(n, x) <==> q * k <= x < q * k + k;
    DivRange(x, k, q);
  }

  lemma OwnAddress(n: Net)
    ensures ContainsAddr(n, n.addr)
  {
    ContainsExact(n, Num(n.addr));
  }

  //---------------------------------------------------------------------------
  // Containment, bit by bit
  //---------------------------------------------------------------------------

  function Octet(x: Ipv4Addr, i: nat): byte
    requires i < 4
  {
    [x.a, x.b, x.c, x.d][i]
  }

  // Bit k of an address as it is written, the most significant bit of the first octet first.
  predicate AddrBit(x: Ipv4Addr, k: nat)
    requires k < 32
  {
    Octet(x, k / 8) / Pow2(7 - k % 8) % 2 == 1
  }

  // The address agrees with a network in every bit of its prefix.
  predicate SharesPrefix(n: Net, x: Ipv4Addr) {
    forall k :: 0 <= k < n.prefix ==> (AddrBit(x, k) <==> AddrBit(n.addr, k))
  }

  // Two numbers agree in bit k, counted from the most significant of 32.
  predicate SameBit(a: u32, b: u32, k: nat)
    requires k < 32
  {
    HasBit(a, Pow2(31 - k)) <==> HasBit(b, Pow2(31 - k))
  }

  // Numbers agree above some bit exactly when they agree in each of the higher bits.
  lemma {:induction false} AgreeBitwise(a: u32, b: u32, p: nat)
    requires p <= 32
    ensures a / Pow2(32 - p) == b / Pow2(32 - p) <==> forall k :: 0 <= k < p ==> SameBit(a, b, k)
  {
    if p == 0 {
      NothingAbove(a);
      NothingAbove(b);
    } else {
      AgreeBitwise(a, b, p - 1);
      AgreeOneMore(a, b, p - 1);
    }
  }

  lemma NothingAbove(a: u32)
    ensures a / Pow2(32) == 0
  {
    Powers();
    DivRange(a, Pow2(32), 0);
  }

  lemma AgreeOneMore(a: u32, b: u32, k: nat)
    requires k < 32
    ensures a / Pow2(31 - k) == b / Pow2(31 - k) <==> a / Pow2(32 - k) == b / Pow2(32 - k) && SameBit(a, b, k)
  {
    DivTwice(a, Pow2(31 - k));
    DivTwice(b, Pow2(31 - k));
    HalvesAgree(a / Pow2(31 - k), b / Pow2(31 - k));
  }

  lemma HalvesAgree(x: int, y: int)
    ensures x == y <==> x / 2 == y / 2 && (x % 2 == 1 <==> y % 2 == 1)
  {
  }

  // A bit below the eighth is one of the last octet.
  lemma LowBit(u: nat, octet: nat, i: nat)
    requires i < 8 && octet == u % 0x100
    ensures HasBit(u, Pow2(i)) <==> HasBit(octet, Pow2(i))
  {
    ModBit(u, i, 8);
    assert Pow2(8) == 0x100;
  }

  lemma {:induction false} ModBit(u: nat, i: nat, n: nat)
    requires i < n
    ensures HasBit(u, Pow2(i)) <==> HasBit(u % Pow2(n), Pow2(i))
  {
    var r := u % Pow2(n);
    HalfOfMod(u, Pow2(n - 1), r);
    if i == 0 {
      FirstBit(u);
      FirstBit(r);
    } else {
      HigherBit(u, i);
      HigherBit(r, i);
      ModBit(u / 2, i - 1, n - 1);
    }
  }

  lemma FirstBit(u: nat)
    ensures HasBit(u, Pow2(0)) <==> u % 2 == 1
  {
  }

  lemma HalfOfMod(u: nat, p: nat, r: nat)
    requires p > 0 && r == u % (2 * p)
    ensures r / 2 == u / 2 % p && r % 2 == u % 2
  {
    var q := u / (2 * p);
    assert u == 2 * (p * q) + r;
    assert u / 2 == p * q + r / 2;
    assert u / 2 / p == q by {
      DivRange(u / 2, p, q);
    }
  }

  // A bit reached by halving.
  predicate BitAt(x: nat, k: nat) {
    if k == 0 then x % 2 == 1 else BitAt(x / 2, k - 1)
  }

  lemma {:induction false} BitAtExact(x: nat, k: nat)
    ensures BitAt(x, k) <==> HasBit(x, Pow2(k))
  {
    if k == 0 {
      FirstBit(x);
    } else {
      HigherBit(x, k);
      BitAtExact(x / 2, k - 1);
    }
  }

  // A bit above the last octet is one of what stands before it.
  lemma OctetUp(u: nat, low: nat, k: nat)
    requires low < 0x100
    ensures BitAt(0x100 * u + low, k + 8) <==> BitAt(u, k)
  {
    var x := 0x100 * u + low;
    assert BitAt(x, k + 8) == BitAt(x / 2, k + 7) == BitAt(x / 4, k + 6) == BitAt(x / 8, k + 5);
    assert BitAt(x / 8, k + 5) == BitAt(x / 16, k + 4) == BitAt(x / 32, k + 3);
    assert BitAt(x / 32, k + 3) == BitAt(x / 64, k + 2) == BitAt(x / 128, k + 1) == BitAt(x / 256, k);
  }

  lemma OctetLow(u: nat, low: nat, k: nat)
    requires low < 0x100 && k < 8
    ensures BitAt(0x100 * u + low, k) <==> BitAt(low, k)
  {
    LowBit(0x100 * u + low, low, k);
    BitAtExact(0x100 * u + low, k);
    BitAtExact(low, k);
  }

  // The bits of the number are those of the octets.
  lemma NumBit(x: Ipv4Addr, k: nat)
    requires k < 32
    ensures HasBit(Num(x), Pow2(31 - k)) <==> AddrBit(x, k)
  {
    BitAtExact(Num(x), 31 - k);
    BitAtExact(Octet(x, k / 8), 7 - k % 8);
    var ab, abc := 0x100 * x.a + x.b, 0x100 * (0x100 * x.a + x.b) + x.c;
    assert Num(x) == 0x100 * abc + x.d;
    if k >= 24 {
      OctetLow(abc, x.d, 31 - k);
    } else {
      OctetUp(abc, x.d, 23 - k);
      if k >= 16 {
        OctetLow(ab, x.c, 23 - k);
      } else {
        OctetUp(ab, x.c, 15 - k);
        if k >= 8 {
          OctetLow(x.a, x.b, 15 - k);
        } else {
          OctetUp(x.a, x.b, 7 - k);
        }
      }
    }
  }

  lemma SameBitExact(x: Ipv4Addr, y: Ipv4Addr, k: nat)
    requires k < 32
    ensures SameBit(Num(x), Num(y), k) <==> (AddrBit(x, k) <==> AddrBit(y, k))
  {
    NumBit(x, k);
    NumBit(y, k);
  }

  // A network contains an address exactly when the first `prefix` bits of the two agree.
  lemma ContainsBits(n: Net, x: Ipv4Addr)
    ensures ContainsAddr(n, x) <==> SharesPrefix(n, x)
  {
    ContainsExact(n, Num(x));
    AgreeBitwise(Num(x), Num(n.addr), n.prefix);
    forall k | 0 <= k < n.prefix
      ensures SameBit(Num(x), Num(n.addr), k) <==> (AddrBit(x, k) <==> AddrBit(n.addr, k))
    {
      SameBitExact(x, n.addr, k);
    }
  }

  //---------------------------------------------------------------------------
  // Overlap
  //---------------------------------------------------------------------------

  ghost predicate Overlap(m: Net, n: Net) {
    exists x: int :: Contains(m, x) && Contains(n, x)
  }

  ghost predicate Inside(m: Net, n: Net) {
    forall x: int :: Contains(m, x) ==> Contains(n, x)
  }

  // The test the source uses: either contains the other's address.
  predicate EitherContains(m: Net, n: Net) {
    ContainsAddr(m, n.addr) || ContainsAddr(n, m.addr)
  }

  // Blocks are disjoint or nested, the longer prefix inside, and one address tells which.
  lemma OverlapIsNesting(m: Net, n: Net)
    requires m.prefix >= n.prefix
    ensures Overlap(m, n) <==> Inside(m, n)
    ensures Overlap(m, n) <==> ContainsAddr(n, m.addr)
  {
    OwnAddress(m);
    if x: int :| Contains(m, x) && Contains(n, x) {
      forall y: int | Contains(m, y) ensures Contains(n, y) {
        ContainsExact(m, x);
        ContainsExact(m, y);
        ContainsExact(n, x);
        ContainsExact(n, y);
        CoarserAgrees(x, y, 32 - m.prefix, 32 - n.prefix);
      }
    }
  }

  // The test is true intersection of the address ranges, host bits or not.
  lemma EitherContainsExact(m: Net, n: Net)
    ensures EitherContains(m, n) <==> Overlap(m, n)
  {
    OwnAddress(m);
    OwnAddress(n);
    if Overlap(m, n) {
      if m.prefix >= n.prefix {
        OverlapIsNesting(m, n);
      } else {
        var x: int :| Contains(m, x) && Contains(n, x);
        assert Overlap(n, m);
        OverlapIsNesting(n, m);
      }
    }
  }

  // A block that excludes another's address is disjoint from it or strictly nested in it.
  lemma ExcludedAddress(older: Net, newer: Net)
    requires !ContainsAddr(newer, older.addr)
    ensures !Overlap(newer, older) || (Inside(newer, older) && newer.prefix > older.prefix)
  {
    if Overlap(newer, older) {
      if newer.prefix > older.prefix {
        OverlapIsNesting(newer, older);
      } else {
        var x: int :| Contains(newer, x) && Contains(older, x);
        assert Overlap(older, newer);
        OverlapIsNesting(older, newer);
      }
    }
  }

  //---------------------------------------------------------------------------
  // Validation
  //---------------------------------------------------------------------------

  const ALLOWED := Net(Ipv4Addr(10, 0, 0, 0), 8)
  const LOCALHOST := Net(Ipv4Addr(127, 0, 0, 0), 8)
  const LINK_LOCAL := Net(Ipv4Addr(169, 254, 0, 0), 16)
  const PROTECTED: seq<Net> := [LOCALHOST, LINK_LOCAL]

  // What validation accepts, in one line.
  predicate Acceptable(n: Net) {
    n.addr.a == 10 && n.prefix >= 2
  }

  lemma Powers()
    ensures Pow2(16) == 0x1_0000 && Pow2(24) == 0x100_0000
    ensures Pow2(30) == 0x4000_0000 && Pow2(31) == 0x8000_0000 && Pow2(32) == 0x1_0000_0000
  {
    assert Pow2(8) == 0x100;
    assert Pow2(16) == 0x1_0000;
    assert Pow2(24) == 0x100_0000;
    assert Pow2(30) == 0x4000_0000;
  }

  lemma FixedRanges()
    ensures First(ALLOWED) == 0xA00_0000 && Last(ALLOWED) == 0xAFF_FFFF
    ensures First(LOCALHOST) == 0x7F00_0000 && Last(LOCALHOST) == 0x7FFF_FFFF
    ensures First(LINK_LOCAL) == 0xA9FE_0000 && Last(LINK_LOCAL) == 0xA9FE_FFFF
  {
    Powers();
    assert Size(ALLOWED) == Size(LOCALHOST) == 0x100_0000 && Size(LINK_LOCAL) == 0x1_0000;
  }

  lemma FixedBlocks(x: Ipv4Addr)
    ensures ContainsAddr(ALLOWED, x) <==> x.a == 10
    ensures ContainsAddr(LOCALHOST, x) <==> x.a == 127
    ensures ContainsAddr(LINK_LOCAL, x) <==> x.a == 169 && x.b == 254
  {
    FixedRanges();
  }

  // A block in 10.0.0.0/8 reaches the protected networks exactly when its prefix is shorter than two bits.
  lemma ReachesProtected(n: Net)
    requires n.addr.a == 10
    ensures ContainsAddr(n, LOCALHOST.addr) <==> n.prefix < 2
    ensures ContainsAddr(n, LINK_LOCAL.addr) ==> n.prefix < 2
  {
    Powers();
    var x, y, z := Num(n.addr), Num(LOCALHOST.addr), Num(LINK_LOCAL.addr);
    ContainsExact(n, y);
    ContainsExact(n, z);
    if n.prefix >= 2 {
      if ContainsAddr(n, LOCALHOST.addr) {
        CoarserAgrees(y, x, 32 - n.prefix, 30);
      }
      if ContainsAddr(n, LINK_LOCAL.addr) {
        CoarserAgrees(z, x, 32 - n.prefix, 30);
      }
    } else {
      ShortestBlocks(n);
    }
  }

  lemma ShortestBlocks(n: Net)
    requires n.addr.a == 10 && n.prefix < 2
    ensures ContainsAddr(n, LOCALHOST.addr)
  {
    Powers();
    if n.prefix == 1 {
      assert Size(n) == Pow2(31) && First(n) == 0;
    } else {
      assert Size(n) == Pow2(32) && First(n) == 0;
    }
  }

  method ValidateNetwork(network: Net) returns (ok: bool)
    ensures ok <==> network.addr.a == 10 && network.prefix >= 2
  {
    FixedBlocks(network.addr);
    if !ContainsAddr(ALLOWED, network.addr) {
      return false;
    }
    ReachesProtected(network);
    for i := 0 to |PROTECTED|
      invariant forall j :: 0 <= j < i ==> !EitherContains(PROTECTED[j], network)
    {
      if ContainsAddr(PROTECTED[i], network.addr) || ContainsAddr(network, PROTECTED[i].addr) {
        assert EitherContains(PROTECTED[i], network);
        return false;
      }
    }
    assert !EitherContains(PROTECTED[0], network);
    return true;
  }

  // What is accepted never meets a protected network.
  lemma AcceptableAvoidsProtected(n: Net)
    requires Acceptable(n)
    ensures !Overlap(n, Net(Ipv4Addr(127, 0, 0, 0), 8)) && !Overlap(n, Net(Ipv4Addr(169, 254, 0, 0), 16))
  {
    FixedBlocks(n.addr);
    ReachesProtected(n);
    EitherContainsExact(n, LOCALHOST);
    EitherContainsExact(n, LINK_LOCAL);
  }

  // An accepted network lies inside 10.0.0.0/8 exactly when its prefix has at least eight bits:
  // shorter ones pass the check on their address alone.
  lemma AcceptableInsideExact(n: Net)
    requires Acceptable(n)
    ensures Inside(n, Net(Ipv4Addr(10, 0, 0, 0), 8)) <==> n.prefix >= 8
  {
    FixedBlocks(n.addr);
    OwnAddress(n);
    if n.prefix >= 8 {
      assert Contains(ALLOWED, Num(n.addr));
      OverlapIsNesting(n, ALLOWED);
    } else {
      ShortBlock(n);
    }
  }

  // A block shorter than eight bits holds 2^25 addresses or more, and 10.0.0.0/8 only 2^24.
  lemma ShortBlock(n: Net)
    requires n.prefix < 8
    ensures !Inside(n, ALLOWED)
  {
    Powers();
    Pow2Grows(25, 32 - n.prefix);
    assert Pow2(25) == 0x200_0000;
    assert Contains(n, First(n)) && Contains(n, Last(n));
    FixedRanges();
    assert !Contains(ALLOWED, First(n)) || !Contains(ALLOWED, Last(n));
  }
}
