/**
 A concrete codec for the types the source hands to `serde_xdr`, built from the
 constructions of RFC 4506: unsigned integers (section 4.2), hypers (4.5),
 strings (4.11), fixed and variable arrays (4.12, 4.13), structures (4.14),
 unions (4.15) and optional data (4.19).

 A codec is lawful when its decoder accepts exactly the encodings of valid
 values, whatever bytes follow, and every encoding fills whole four-byte units
 (section 3 of RFC 4506).
 */
module Xdr {
  import opened Wrappers
  import opened Words

  datatype Codec<!T> = Codec(
    valid: T -> bool,
    enc: T -> seq<byte>,
    dec: seq<byte> -> Option<(T, seq<byte>)>)

  ghost predicate Reads<T(!new)>(c: Codec<T>) {
    forall v: T, rest: seq<byte> {:trigger c.enc(v) + rest} ::
      c.valid(v) ==> c.dec(c.enc(v) + rest) == Some((v, rest))
  }

  ghost predicate Canonical<T(!new)>(c: Codec<T>) {
    forall b: seq<byte> {:trigger c.dec(b)} ::
      c.dec(b).Some? ==> c.valid(c.dec(b).value.0) && c.enc(c.dec(b).value.0) + c.dec(b).value.1 == b
  }

  ghost predicate Aligned<T(!new)>(c: Codec<T>) {
    forall v: T :: c.valid(v) ==> |c.enc(v)| % 4 == 0
  }

  ghost predicate Lawful<T(!new)>(c: Codec<T>) {
    Reads(c) && Canonical(c) && Aligned(c)
  }

  // The laws as one statement about a byte string.
  lemma DecodesExactly<T(!new)>(c: Codec<T>, b: seq<byte>, v: T, rest: seq<byte>)
    requires Lawful(c)
    ensures c.dec(b) == Some((v, rest)) <==> c.valid(v) && b == c.enc(v) + rest
  {
    if c.valid(v) && b == c.enc(v) + rest {
      assert c.dec(c.enc(v) + rest) == Some((v, rest));
    }
  }

  // No valid encoding is a prefix of another, so encoding is injective too.
  lemma PrefixFree<T(!new)>(c: Codec<T>, v: T, w: T)
    requires Lawful(c) && c.valid(v) && c.valid(w)
    requires c.enc(v) <= c.enc(w)
    ensures v == w
  {
    var rest := c.enc(w)[|c.enc(v)|..];
    assert c.enc(v) + rest == c.enc(w) + [];
    assert c.dec(c.enc(w) + []) == Some((w, []));
    assert c.dec(c.enc(v) + rest) == Some((v, rest));
  }

  // A proper prefix of a valid encoding decodes to nothing.
  lemma CutEncodingRejected<T(!new)>(c: Codec<T>, v: T, n: nat)
    requires Lawful(c) && c.valid(v) && n < |c.enc(v)|
    ensures c.dec(c.enc(v)[..n]) == None
  {
    var cut := c.enc(v)[..n];
    if c.dec(cut).Some? {
      var w := c.dec(cut).value.0;
      assert c.enc(w) + c.dec(cut).value.1 == cut;
      assert c.enc(w) <= cut <= c.enc(v);
      PrefixFree(c, w, v);
    }
  }

  // `to_writer` and `to_bytes`: an error when some length does not fit its count.
  function Encode<T>(c: Codec<T>, v: T): Result<seq<byte>> {
    if c.valid(v) then Ok(c.enc(v)) else Err
  }

  // `from_bytes`: bytes after the value are ignored.
  function Decode<T>(c: Codec<T>, b: seq<byte>): Result<T> {
    match c.dec(b)
    case None => Err
    case Some((v, _)) => Ok(v)
  }

  // Decoding succeeds with a value exactly on the byte strings that start with its encoding.
  lemma DecodeExact<T(!new)>(c: Codec<T>, b: seq<byte>, v: T)
    requires Lawful(c)
    ensures Decode(c, b) == Ok(v) <==> Encode(c, v).Ok? && Encode(c, v).value <= b
  {
    if Decode(c, b) == Ok(v) {
      assert c.enc(v) + c.dec(b).value.1 == b;
    }
    if Encode(c, v).Ok? && Encode(c, v).value <= b {
      var rest := b[|c.enc(v)|..];
      assert c.enc(v) + rest == b;
      assert c.dec(c.enc(v) + rest) == Some((v, rest));
    }
  }

  //---------------------------------------------------------------------------
  // Basic types
  //---------------------------------------------------------------------------

  function U32(): Codec<u32> {
    Codec(
      (v: u32) => true,
      (v: u32) => Be32(v),
      (b: seq<byte>) => if |b| < 4 then None else Some((FromBe32(b), b[4..])))
  }

  lemma U32Lawful()
    ensures Lawful(U32())
  {
    var c := U32();
    forall v: u32, rest: seq<byte> ensures c.dec(c.enc(v) + rest) == Some((v, rest)) {
      Be32RoundTrip(v);
      assert (Be32(v) + rest)[4..] == rest;
      assert FromBe32(Be32(v) + rest) == FromBe32(Be32(v));
    }
    forall b: seq<byte> | c.dec(b).Some?
      ensures c.enc(c.dec(b).value.0) + c.dec(b).value.1 == b
    {
      FromBe32RoundTrip(b);
    }
  }

  // No bytes at all: a unit structure or the body of a unit variant.
  function Void(): Codec<()> {
    Codec((v: ()) => true, (v: ()) => [], (b: seq<byte>) => Some(((), b)))
  }

  lemma VoidLawful()
    ensures Lawful(Void())
  {
    var c := Void();
    forall v: (), rest: seq<byte> ensures c.dec(c.enc(v) + rest) == Some((v, rest)) {
      assert v == ();
      assert c.enc(v) + rest == rest;
    }
  }

  //---------------------------------------------------------------------------
  // Structures, and values seen through another representation
  //---------------------------------------------------------------------------

  function Pair<A, B>(a: Codec<A>, b: Codec<B>): Codec<(A, B)> {
    Codec(
      (v: (A, B)) => a.valid(v.0) && b.valid(v.1),
      (v: (A, B)) => a.enc(v.0) + b.enc(v.1),
      (s: seq<byte>) =>
        match a.dec(s)
        case None => None
        case Some((x, s')) =>
          match b.dec(s')
          case None => None
          case Some((y, s'')) => Some(((x, y), s'')))
  }

  lemma PairLawful<A(!new), B(!new)>(a: Codec<A>, b: Codec<B>)
    requires Lawful(a) && Lawful(b)
    ensures Lawful(Pair(a, b))
  {
    var c := Pair(a, b);
    forall v: (A, B), rest: seq<byte> | c.valid(v) ensures c.dec(c.enc(v) + rest) == Some((v, rest)) {
      assert c.enc(v) + rest == a.enc(v.0) + (b.enc(v.1) + rest);
    }
    forall s: seq<byte> | c.dec(s).Some?
      ensures c.valid(c.dec(s).value.0) && c.enc(c.dec(s).value.0) + c.dec(s).value.1 == s
    {
      var (x, s') := a.dec(s).value;
      var (y, s'') := b.dec(s').value;
      assert a.enc(x) + (b.enc(y) + s'') == (a.enc(x) + b.enc(y)) + s'';
    }
    forall v: (A, B) | c.valid(v) ensures |c.enc(v)| % 4 == 0 {
      assert |a.enc(v.0)| % 4 == 0 && |b.enc(v.1)| % 4 == 0;
    }
  }

  // Values of T encoded as values of U: `view` is None on the values of T this codec does not cover.
  function Via<T, U>(c: Codec<U>, view: T -> Option<U>, build: U -> T): Codec<T> {
    Codec(
      (v: T) => view(v).Some? && c.valid(view(v).value),
      (v: T) => if view(v).Some? then c.enc(view(v).value) else [],
      (b: seq<byte>) =>
        match c.dec(b)
        case None => None
        case Some((u, rest)) => Some((build(u), rest)))
  }

  ghost predicate Inverse<T(!new), U(!new)>(c: Codec<U>, view: T -> Option<U>, build: U -> T) {
    && (forall v: T {:trigger view(v)} :: view(v).Some? ==> build(view(v).value) == v)
    && (forall u: U {:trigger build(u)} :: c.valid(u) ==> view(build(u)) == Some(u))
  }

  lemma ViaLawful<T(!new), U(!new)>(c: Codec<U>, view: T -> Option<U>, build: U -> T)
    requires Lawful(c) && Inverse(c, view, build)
    ensures Lawful(Via(c, view, build))
  {
    var d := Via(c, view, build);
    forall v: T, rest: seq<byte> | d.valid(v) ensures d.dec(d.enc(v) + rest) == Some((v, rest)) {
      assert c.dec(c.enc(view(v).value) + rest) == Some((view(v).value, rest));
    }
    forall b: seq<byte> | d.dec(b).Some?
      ensures d.valid(d.dec(b).value.0) && d.enc(d.dec(b).value.0) + d.dec(b).value.1 == b
    {
      var (u, rest) := c.dec(b).value;
      assert view(build(u)) == Some(u);
    }
  }

  //---------------------------------------------------------------------------
  // Discriminated unions: a declaration-order tag, then the arm it selects
  //---------------------------------------------------------------------------

  function Union<T>(tag: T -> u32, arm: u32 -> Option<Codec<T>>): Codec<T> {
    Codec(
      (v: T) => arm(tag(v)).Some? && arm(tag(v)).value.valid(v),
      (v: T) => Be32(tag(v)) + (if arm(tag(v)).Some? then arm(tag(v)).value.enc(v) else []),
      (b: seq<byte>) =>
        if |b| < 4 || arm(FromBe32(b)).None? then None
        else arm(FromBe32(b)).value.dec(b[4..]))
  }

  ghost predicate GoodArm<T(!new)>(tag: T -> u32, t: u32, c: Codec<T>) {
    Lawful(c) && forall v: T :: c.valid(v) ==> tag(v) == t
  }

  lemma ArmLawful<T(!new), U(!new)>(
    tag: T -> u32, t: u32, c: Codec<U>, view: T -> Option<U>, build: U -> T)
    requires Lawful(c) && Inverse(c, view, build)
    requires forall v: T {:trigger view(v)} :: view(v).Some? ==> tag(v) == t
    ensures GoodArm(tag, t, Via(c, view, build))
  {
    ViaLawful(c, view, build);
  }

  lemma UnionReads<T(!new)>(tag: T -> u32, arm: u32 -> Option<Codec<T>>, v: T, rest: seq<byte>)
    requires Union(tag, arm).valid(v) && Lawful(arm(tag(v)).value)
    ensures Union(tag, arm).dec(Union(tag, arm).enc(v) + rest) == Some((v, rest))
  {
    var t, a := tag(v), arm(tag(v)).value;
    var b := Union(tag, arm).enc(v) + rest;
    Be32RoundTrip(t);
    assert b[..4] == Be32(t);
    assert FromBe32(b) == FromBe32(Be32(t));
    assert b[4..] == a.enc(v) + rest;
  }

  lemma UnionCanonical<T(!new)>(tag: T -> u32, arm: u32 -> Option<Codec<T>>, b: seq<byte>)
    requires Union(tag, arm).dec(b).Some? && GoodArm(tag, FromBe32(b), arm(FromBe32(b)).value)
    ensures var c := Union(tag, arm);
      c.valid(c.dec(b).value.0) && c.enc(c.dec(b).value.0) + c.dec(b).value.1 == b
  {
    var t := FromBe32(b);
    var a := arm(t).value;
    var (v, rest) := a.dec(b[4..]).value;
    assert a.valid(v) && a.enc(v) + rest == b[4..];
    FromBe32RoundTrip(b);
    assert b == b[..4] + b[4..];
    assert Be32(t) + (a.enc(v) + rest) == Be32(t) + a.enc(v) + rest;
  }

  lemma UnionLawful<T(!new)>(tag: T -> u32, arm: u32 -> Option<Codec<T>>)
    requires forall t: u32 :: arm(t).Some? ==> GoodArm(tag, t, arm(t).value)
    ensures Lawful(Union(tag, arm))
  {
    var c := Union(tag, arm);
    forall v: T, rest: seq<byte> | c.valid(v) ensures c.dec(c.enc(v) + rest) == Some((v, rest)) {
      assert GoodArm(tag, tag(v), arm(tag(v)).value);
      UnionReads(tag, arm, v, rest);
    }
    forall b: seq<byte> | c.dec(b).Some?
      ensures c.valid(c.dec(b).value.0) && c.enc(c.dec(b).value.0) + c.dec(b).value.1 == b
    {
      assert GoodArm(tag, FromBe32(b), arm(FromBe32(b)).value);
      UnionCanonical(tag, arm, b);
    }
    forall v: T | c.valid(v) ensures |c.enc(v)| % 4 == 0 {
      assert GoodArm(tag, tag(v), arm(tag(v)).value);
    }
  }

  lemma ArmLayout<T, U>(
    tag: T -> u32, arm: u32 -> Option<Codec<T>>, c: Codec<U>, view: T -> Option<U>, build: U -> T, v: T)
    requires arm(tag(v)) == Some(Via(c, view, build)) && view(v).Some?
    ensures Union(tag, arm).enc(v) == Be32(tag(v)) + c.enc(view(v).value)
  {
  }

  //---------------------------------------------------------------------------
  // Arrays
  //---------------------------------------------------------------------------

  function EncMany<T>(c: Codec<T>, s: seq<T>): seq<byte> {
    if s == [] then [] else c.enc(s[0]) + EncMany(c, s[1..])
  }

  function DecMany<T>(c: Codec<T>, n: nat, b: seq<byte>): Option<(seq<T>, seq<byte>)> {
    if n == 0 then Some(([], b))
    else
      match c.dec(b)
      case None => None
      case Some((x, b')) =>
        match DecMany(c, n - 1, b')
        case None => None
        case Some((xs, b'')) => Some(([x] + xs, b''))
  }

  predicate AllValid<T>(c: Codec<T>, s: seq<T>) {
    forall i :: 0 <= i < |s| ==> c.valid(s[i])
  }

  lemma {:induction false} ManyReads<T(!new)>(c: Codec<T>, s: seq<T>, rest: seq<byte>)
    requires Lawful(c) && AllValid(c, s)
    ensures DecMany(c, |s|, EncMany(c, s) + rest) == Some((s, rest))
    ensures |EncMany(c, s)| % 4 == 0
  {
    if s == [] {
      assert EncMany(c, s) + rest == rest;
    } else {
      var tail := EncMany(c, s[1..]);
      assert EncMany(c, s) + rest == c.enc(s[0]) + (tail + rest);
      ManyReads(c, s[1..], rest);
      assert [s[0]] + s[1..] == s;
    }
  }

  lemma {:induction false} ManyCanonical<T(!new)>(c: Codec<T>, n: nat, b: seq<byte>)
    requires Lawful(c) && DecMany(c, n, b).Some?
    ensures var (s, rest) := DecMany(c, n, b).value;
      |s| == n && AllValid(c, s) && EncMany(c, s) + rest == b
  {
    if n > 0 {
      var (x, b') := c.dec(b).value;
      ManyCanonical(c, n - 1, b');
      var (xs, rest) := DecMany(c, n - 1, b').value;
      assert ([x] + xs)[1..] == xs;
      assert c.enc(x) + (EncMany(c, xs) + rest) == EncMany(c, [x] + xs) + rest;
    }
  }

  // A fixed-length array (`[T; n]`): the elements alone.
  function Fixed<T>(c: Codec<T>, n: nat): Codec<seq<T>> {
    Codec(
      (s: seq<T>) => |s| == n && AllValid(c, s),
      (s: seq<T>) => EncMany(c, s),
      (b: seq<byte>) => DecMany(c, n, b))
  }

  lemma FixedLawful<T(!new)>(c: Codec<T>, n: nat)
    requires Lawful(c)
    ensures Lawful(Fixed(c, n))
  {
    var a := Fixed(c, n);
    forall s: seq<T>, rest: seq<byte> | a.valid(s) ensures a.dec(a.enc(s) + rest) == Some((s, rest)) {
      ManyReads(c, s, rest);
    }
    forall b: seq<byte> | a.dec(b).Some?
      ensures a.valid(a.dec(b).value.0) && a.enc(a.dec(b).value.0) + a.dec(b).value.1 == b
    {
      ManyCanonical(c, n, b);
    }
    forall s: seq<T> | a.valid(s) ensures |a.enc(s)| % 4 == 0 {
      ManyReads(c, s, []);
    }
  }

  // The length of a sequence, as the source writes it.
  function Count<T>(): seq<T> -> u32 {
    (s: seq<T>) => Truncate32(|s|)
  }

  function ArrayBody<T>(c: Codec<T>): u32 -> Option<Codec<seq<T>>> {
    (n: u32) => Some(Fixed(c, n))
  }

  // A variable-length array (`Vec<T>`): a count, then that many elements.
  function Array<T>(c: Codec<T>): Codec<seq<T>> {
    Union(Count(), ArrayBody(c))
  }

  lemma ArrayLawful<T(!new)>(c: Codec<T>)
    requires Lawful(c)
    ensures Lawful(Array(c))
  {
    forall n: u32 ensures GoodArm(Count<T>(), n, Fixed(c, n)) {
      FixedLawful(c, n);
    }
    UnionLawful(Count(), ArrayBody(c));
  }

  //---------------------------------------------------------------------------
  // Strings: a byte count, the bytes, then zero bytes up to a four-byte unit
  //---------------------------------------------------------------------------

  function Padding(n: nat): seq<byte> {
    seq((4 - n % 4) % 4, _ => 0)
  }

  function Padded(n: nat): Codec<seq<byte>> {
    Codec(
      (s: seq<byte>) => |s| == n,
      (s: seq<byte>) => s + Padding(n),
      (b: seq<byte>) =>
        var m := n + |Padding(n)|;
        if |b| < m || b[n..m] != Padding(n) then None else Some((b[..n], b[m..])))
  }

  function TextBody(): u32 -> Option<Codec<seq<byte>>> {
    (n: u32) => Some(Padded(n))
  }

  function Text(): Codec<seq<byte>> {
    Union(Count(), TextBody())
  }

  lemma PaddedReads(n: nat, s: seq<byte>, rest: seq<byte>)
    requires |s| == n
    ensures Padded(n).dec(Padded(n).enc(s) + rest) == Some((s, rest))
  {
    var b, m := Padded(n).enc(s) + rest, n + |Padding(n)|;
    assert b[..n] == s && b[n..m] == Padding(n) && b[m..] == rest;
  }

  lemma PaddedLawful(n: nat)
    ensures Lawful(Padded(n))
  {
    var c, m := Padded(n), n + |Padding(n)|;
    forall s: seq<byte>, rest: seq<byte> | c.valid(s) ensures c.dec(c.enc(s) + rest) == Some((s, rest)) {
      PaddedReads(n, s, rest);
    }
    forall b: seq<byte> | c.dec(b).Some?
      ensures c.valid(c.dec(b).value.0) && c.enc(c.dec(b).value.0) + c.dec(b).value.1 == b
    {
      assert b[..n] + b[n..m] + b[m..] == b;
    }
  }

  lemma TextLawful()
    ensures Lawful(Text())
  {
    forall n: u32 ensures GoodArm(Count<byte>(), n, Padded(n)) {
      PaddedLawful(n);
    }
    UnionLawful(Count(), TextBody());
  }

  //---------------------------------------------------------------------------
  // Optional data and the types built from the above
  //---------------------------------------------------------------------------

  function Present<T>(): Option<T> -> u32 {
    (v: Option<T>) => if v.None? then 0 else 1
  }

  function Absent<T>(): Codec<Option<T>> {
    Codec((v: Option<T>) => v.None?, (v: Option<T>) => [], (b: seq<byte>) => Some((None, b)))
  }

  function SomeView<T>(): Option<T> -> Option<T> {
    (v: Option<T>) => v
  }

  function SomeBuild<T>(): T -> Option<T> {
    (v: T) => Some(v)
  }

  function OptionalBody<T>(c: Codec<T>): u32 -> Option<Codec<Option<T>>> {
    (t: u32) => if t == 0 then Some(Absent()) else if t == 1 then Some(Via(c, SomeView(), SomeBuild())) else None
  }

  // `Option<T>`: a zero or one flag, then the value when there is one.
  function Optional<T>(c: Codec<T>): Codec<Option<T>> {
    Union(Present(), OptionalBody(c))
  }

  lemma OptionalLawful<T(!new)>(c: Codec<T>)
    requires Lawful(c)
    ensures Lawful(Optional(c))
  {
    var a := Absent<T>();
    forall v: Option<T>, rest: seq<byte> | a.valid(v) ensures a.dec(a.enc(v) + rest) == Some((v, rest)) {
      assert a.enc(v) + rest == rest;
    }
    ViaLawful(c, SomeView(), SomeBuild());
    UnionLawful(Present<T>(), OptionalBody(c));
  }

  // A u64: the high word, then the low word.
  function U64View(x: u64): Option<(u32, u32)> { Some((x / 0x1_0000_0000, x % 0x1_0000_0000)) }
  function U64Build(w: (u32, u32)): u64 { w.0 * 0x1_0000_0000 + w.1 }

  function U64(): Codec<u64> {
    Via(Pair(U32(), U32()), U64View, U64Build)
  }

  lemma U64Inverse(x: u64, w: (u32, u32))
    ensures U64Build(U64View(x).value) == x && U64View(U64Build(w)) == Some(w)
  {
  }

  lemma U64Lawful()
    ensures Lawful(U64())
  {
    U32Lawful();
    PairLawful(U32(), U32());
    forall w: (u32, u32) ensures U64View(U64Build(w)) == Some(w) {
      U64Inverse(0, w);
    }
    ViaLawful(Pair(U32(), U32()), U64View, U64Build);
  }

  // An unsigned integer below a bound: the numbering of an enumeration.
  function Below(n: u32): Codec<u32> {
    Codec(
      (v: u32) => v < n,
      (v: u32) => Be32(v),
      (b: seq<byte>) => if |b| < 4 || FromBe32(b) >= n then None else Some((FromBe32(b), b[4..])))
  }

  lemma BelowLawful(n: u32)
    ensures Lawful(Below(n))
  {
    U32Lawful();
    var c, w := Below(n), U32();
    forall v: u32, rest: seq<byte> | c.valid(v) ensures c.dec(c.enc(v) + rest) == Some((v, rest)) {
      assert w.dec(w.enc(v) + rest) == Some((v, rest));
    }
    forall b: seq<byte> | c.dec(b).Some?
      ensures c.enc(c.dec(b).value.0) + c.dec(b).value.1 == b
    {
      FromBe32RoundTrip(b);
    }
  }

  function OctetView(v: byte): Option<u32> { Some(v) }
  function OctetBuild(w: u32): byte { if w < 0x100 then w else 0 }

  // A u8 travels widened to an unsigned integer.
  function Octet(): Codec<byte> {
    Via(Below(0x100), OctetView, OctetBuild)
  }

  lemma OctetLawful()
    ensures Lawful(Octet())
  {
    BelowLawful(0x100);
    ViaLawful(Below(0x100), OctetView, OctetBuild);
  }

  // `Vec<u8>`
  function Octets(): Codec<seq<byte>> {
    Array(Octet())
  }

  lemma OctetsLawful()
    ensures Lawful(Octets())
  {
    OctetLawful();
    ArrayLawful(Octet());
  }

  //---------------------------------------------------------------------------
  // Which values are valid
  //---------------------------------------------------------------------------

  // The length of a sequence fits the count in front of it.
  predicate Fits<T>(s: seq<T>) {
    |s| < 0x1_0000_0000
  }

  lemma ValidArm<T, U>(
    tag: T -> u32, arm: u32 -> Option<Codec<T>>, c: Codec<U>, view: T -> Option<U>, build: U -> T, v: T)
    requires arm(tag(v)) == Some(Via(c, view, build)) && view(v).Some?
    ensures Union(tag, arm).valid(v) <==> c.valid(view(v).value)
  {
  }

  lemma ValidArray<T>(c: Codec<T>, s: seq<T>)
    ensures Array(c).valid(s) <==> Fits(s) && AllValid(c, s)
  {
    assert Fits(s) <==> Truncate32(|s|) == |s|;
  }

  lemma ValidOctets(s: seq<byte>)
    ensures Octets().valid(s) <==> Fits(s)
  {
    ValidArray(Octet(), s);
    forall b: byte ensures Octet().valid(b) {
      assert OctetView(b) == Some(b);
    }
  }

  lemma ValidText(s: seq<byte>)
    ensures Text().valid(s) <==> Fits(s)
  {
    assert Fits(s) <==> Truncate32(|s|) == |s|;
  }

  lemma ValidOptional<T>(c: Codec<T>, v: Option<T>)
    ensures Optional(c).valid(v) <==> v.None? || c.valid(v.value)
  {
    if v.Some? {
      ValidArm(Present<T>(), OptionalBody(c), c, SomeView<T>(), SomeBuild<T>(), v);
    } else {
      assert OptionalBody(c)(0) == Some(Absent<T>());
    }
  }

  lemma ArrayLayout<T>(c: Codec<T>, s: seq<T>)
    requires Fits(s)
    ensures Array(c).enc(s) == Be32(|s|) + EncMany(c, s)
  {
    assert Count<T>()(s) == |s|;
    assert ArrayBody(c)(|s|) == Some(Fixed(c, |s|));
  }

  // A byte list travels as its count and four bytes for each byte.
  lemma OctetsSize(s: seq<byte>)
    requires Fits(s)
    ensures |Octets().enc(s)| == 4 + 4 * |s|
  {
    ArrayLayout(Octet(), s);
    OctetsLength(s);
  }

  lemma {:induction false} OctetsLength(s: seq<byte>)
    ensures |EncMany(Octet(), s)| == 4 * |s|
  {
    if s != [] {
      assert OctetView(s[0]) == Some(s[0]);
      assert Octet().enc(s[0]) == Below(0x100).enc(s[0]);
      OctetsLength(s[1..]);
    }
  }
}
