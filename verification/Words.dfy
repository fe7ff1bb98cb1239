/** Bytes and machine words, with their big-endian byte order. */
module Words {
  type byte = x: int | 0 <= x < 0x100
  type u32 = x: int | 0 <= x < 0x1_0000_0000
  type u64 = x: int | 0 <= x < 0x1_0000_0000_0000_0000

  // `to_be_bytes` of a u32.
  function Be32(x: u32): (b: seq<byte>)
    ensures |b| == 4
  {
    [x / 0x100 / 0x100 / 0x100, x / 0x100 / 0x100 % 0x100, x / 0x100 % 0x100, x % 0x100]
  }

  // The big-endian value of four bytes.
  function Word(a: int, b: int, c: int, d: int): int {
    ((a * 0x100 + b) * 0x100 + c) * 0x100 + d
  }

  // `from_be_bytes` of the first four bytes.
  function FromBe32(b: seq<byte>): u32
    requires |b| >= 4
  {
    Word(b[0], b[1], b[2], b[3])
  }

  // The source's `as u32` on a length: truncation to 32 bits.
  function Truncate32(n: nat): u32 {
    n % 0x1_0000_0000
  }

  //---------------------------------------------------------------------------
  // Bits
  //---------------------------------------------------------------------------

  function Pow2(n: nat): (p: nat)
    ensures p > 0
  {
    if n == 0 then 1 else 2 * Pow2(n - 1)
  }

  lemma {:induction false} Pow2Grows(m: nat, n: nat)
    requires m <= n
    ensures Pow2(m) <= Pow2(n)
    decreases n
  {
    if m < n {
      Pow2Grows(m, n - 1);
    }
  }

  // A test of one bit, given by its weight.
  predicate HasBit(x: nat, bit: nat)
    requires bit > 0
  {
    x / bit % 2 == 1
  }

  // Bitwise and.
  function BitAnd(x: nat, y: nat): (r: nat)
    ensures r <= x && r <= y
  {
    if x == 0 || y == 0 then 0
    else 2 * BitAnd(x / 2, y / 2) + (if x % 2 == 1 && y % 2 == 1 then 1 else 0)
  }

  lemma TimesGrows(m: int, n: int, k: nat)
    requires m <= n
    ensures m * k <= n * k
  {
    assert n * k == m * k + (n - m) * k;
  }

  // Division is the multiple of k that a number reaches.
  lemma DivRange(a: int, k: nat, q: int)
    requires k > 0
    ensures q * k <= a < q * k + k <==> a / k == q
  {
    var d, r := a / k, a % k;
    assert a == d * k + r;
    if q < d {
      TimesGrows(q + 1, d, k);
      assert (q + 1) * k == q * k + k;
    } else if d < q {
      TimesGrows(d + 1, q, k);
      assert (d + 1) * k == d * k + k;
    }
  }

  lemma HalfDivides(x: nat, p: nat)
    requires p > 0
    ensures x / (2 * p) == x / 2 / p
  {
    var h := x / 2;
    var q := h / p;
    DivRange(h, p, q);
    assert q * (2 * p) == 2 * (q * p);
    DivRange(x, 2 * p, q);
  }

  lemma HigherBit(x: nat, k: nat)
    requires k > 0
    ensures HasBit(x, Pow2(k)) <==> HasBit(x / 2, Pow2(k - 1))
  {
    HalfDivides(x, Pow2(k - 1));
  }

  // A bit is in both numbers exactly when it is in their and.
  lemma {:induction false} BitAndExact(x: nat, y: nat, k: nat)
    ensures HasBit(BitAnd(x, y), Pow2(k)) <==> HasBit(x, Pow2(k)) && HasBit(y, Pow2(k))
    decreases k
  {
    if x == 0 || y == 0 {
      ZeroHasNoBit(Pow2(k));
    } else if k > 0 {
      BitAndExact(x / 2, y / 2, k - 1);
      HigherBit(x, k);
      HigherBit(y, k);
      HigherBit(BitAnd(x, y), k);
      assert BitAnd(x, y) / 2 == BitAnd(x / 2, y / 2);
    }
  }

  lemma ZeroHasNoBit(p: nat)
    requires p > 0
    ensures !HasBit(0, p)
  {
    DivRange(0, p, 0);
  }

  lemma Be32RoundTrip(x: u32)
    ensures FromBe32(Be32(x)) == x
  {
  }

  lemma FromBe32RoundTrip(b: seq<byte>)
    requires |b| >= 4
    ensures Be32(FromBe32(b)) == b[..4]
  {
    var x := FromBe32(b);
    assert x / 0x100 == Word(0, b[0], b[1], b[2]);
    assert x / 0x100 / 0x100 == Word(0, 0, b[0], b[1]);
  }

  lemma Be32Inverse(b: seq<byte>, x: u32)
    requires |b| == 4
    ensures b == Be32(x) <==> FromBe32(b) == x
  {
    if b == Be32(x) {
      Be32RoundTrip(x);
    } else {
      FromBe32RoundTrip(b);
      assert b[..4] == b;
    }
  }

  lemma WordSum(a: int, b: int, c: int, d: int)
    ensures Word(a, b, c, d) == a * 0x100_0000 + b * 0x1_0000 + c * 0x100 + d
  {
  }

  // Four bytes stand for a number with the first one the most significant, in both directions.
  lemma BigEndian(b: seq<byte>, x: u32)
    requires |b| == 4
    ensures b == Be32(x) <==>
      x == (b[0] as int) * 0x100_0000 + (b[1] as int) * 0x1_0000 + (b[2] as int) * 0x100 + b[3]
    ensures FromBe32(b) == x <==> b == Be32(x)
  {
    Be32Inverse(b, x);
    WordSum(b[0], b[1], b[2], b[3]);
  }
}
