/** CRC-32 as both boards compute it (src/spi_link/protocol.rs), bit for bit.

    The 32-bit register is the string of its bits, least significant first, so `crc & 1` is the
    first bit and `crc >> 1` drops it. The laws are proved for any generator whose last bit is
    set; `Poly` is the source's. */
module Crc {
  import opened Words
  import opened Gf2

  type Register = r: bits | |r| == 32 witness Zeros(32)

  const POLY: u32 := 0xEDB8_8320

  const WIDTH: nat := 32

  const BYTE: nat := 8

  const CRC_LEN: nat := 4

  function Poly(): Register {
    Bits(POLY, WIDTH)
  }

  function Ones(): Register {
    Not(Zeros(32))
  }

  function ShiftRight(r: Register): Register {
    r[1..] + [false]
  }

  /** One turn of the inner loop. */
  function Shift(r: Register, g: Register): Register {
    if r[0] then Xor(ShiftRight(r), g) else ShiftRight(r)
  }

  function Shifts(r: Register, g: Register, k: nat): Register
    decreases k
  {
    if k == 0 then r else Shifts(Shift(r, g), g, k - 1)
  }

  /** One turn of the outer loop. */
  function Absorb(r: Register, g: Register, b: byte): Register {
    Shifts(Xor(r, Bits(b, WIDTH)), g, BYTE)
  }

  function Feed(r: Register, g: Register, data: seq<byte>): Register
    decreases |data|
  {
    if data == [] then r else Feed(Absorb(r, g, data[0]), g, data[1..])
  }

  lemma Pow2At32()
    ensures Pow2(32) == U32
  {
    assert Pow2(4) == 16 && Pow2(8) == 256;
    assert Pow2(12) == 0x1000 && Pow2(16) == 0x1_0000 && Pow2(20) == 0x10_0000;
    assert Pow2(24) == 0x100_0000 && Pow2(28) == 0x1000_0000;
  }

  lemma WordFits(r: Register)
    ensures Value(r) < U32
  {
    BitsOfValue(r);
    Pow2At32();
  }

  function Crc32(data: seq<byte>): u32 {
    var r := Not(Feed(Ones(), Poly(), data));
    WordFits(r);
    Value(r)
  }

  /** The body of the outer loop of `spi_crc32`: eight turns of the inner one. */
  method AbsorbInPlace(r: Register, g: Register, b: byte) returns (crc: Register)
    ensures crc == Absorb(r, g, b)
  {
    crc := Xor(r, Bits(b, WIDTH));
    for j := 0 to BYTE
      invariant Shifts(crc, g, BYTE - j) == Absorb(r, g, b)
    {
      ghost var turned := Shift(crc, g);
      if crc[0] {
        crc := Xor(ShiftRight(crc), g);
      } else {
        crc := ShiftRight(crc);
      }
      assert crc == turned;
    }
  }

  /** `spi_crc32`. */
  method SpiCrc32(data: seq<byte>) returns (c: u32)
    ensures c == Crc32(data)
  {
    var crc: Register := Ones();
    var g: Register := Poly();
    for i := 0 to |data|
      invariant Feed(crc, g, data[i..]) == Feed(Ones(), g, data)
    {
      assert data[i..][0] == data[i] && data[i..][1..] == data[i + 1..];
      crc := AbsorbInPlace(crc, g, data[i]);
    }
    WordFits(Not(crc));
    c := Value(Not(crc));
  }

  // ----- The same register fed one message bit at a time -----

  function MessageBits(data: seq<byte>): (m: bits)
    ensures |m| == 8 * |data|
  {
    if data == [] then [] else Bits(data[0], 8) + MessageBits(data[1..])
  }

  function Flip(r: Register, bit: bool): Register {
    [r[0] != bit] + r[1..]
  }

  function FeedBits(r: Register, g: Register, m: bits): Register
    decreases |m|
  {
    if m == [] then r else FeedBits(Shift(Flip(r, m[0]), g), g, m[1..])
  }

  lemma {:induction false} FeedBitsConcat(r: Register, g: Register, a: bits, b: bits)
    ensures FeedBits(r, g, a + b) == FeedBits(FeedBits(r, g, a), g, b)
    decreases |a|
  {
    if a == [] {
      assert a + b == b;
    } else {
      assert (a + b)[1..] == a[1..] + b;
      FeedBitsConcat(Shift(Flip(r, a[0]), g), g, a[1..], b);
    }
  }

  lemma ShiftAfterXor(r: Register, g: Register, m: bits)
    requires 0 < |m| <= 32
    ensures Shift(Xor(r, m + Zeros(32 - |m|)), g) == Xor(Shift(Flip(r, m[0]), g), m[1..] + Zeros(33 - |m|))
  {
    var x: Register := Xor(r, m + Zeros(32 - |m|));
    var shifted := ShiftRight(x);
    var expected := Xor(ShiftRight(Flip(r, m[0])), m[1..] + Zeros(33 - |m|));
    assert x[0] == Flip(r, m[0])[0];
    forall i | 0 <= i < 32 ensures shifted[i] == expected[i] {
      if i < 31 {
        assert (m + Zeros(32 - |m|))[i + 1] == (m[1..] + Zeros(33 - |m|))[i];
      }
    }
  }

  /** Up to 32 message bits can be added to the register at once and then shifted out. */
  lemma {:induction false} FeedBitsAtOnce(r: Register, g: Register, m: bits)
    requires |m| <= 32
    ensures FeedBits(r, g, m) == Shifts(Xor(r, m + Zeros(32 - |m|)), g, |m|)
    decreases |m|
  {
    if m == [] {
      assert Xor(r, Zeros(32)) == r;
      assert m + Zeros(32) == Zeros(32);
    } else {
      FeedBitsAtOnce(Shift(Flip(r, m[0]), g), g, m[1..]);
      ShiftAfterXor(r, g, m);
    }
  }

  function Halve(n: nat, k: nat): nat {
    if k == 0 then n else Halve(n / 2, k - 1)
  }

  lemma {:induction false} BitsSplit(n: nat, a: nat, b: nat)
    ensures Bits(n, a + b) == Bits(n, a) + Bits(Halve(n, a), b)
    decreases a
  {
    if a > 0 {
      BitsSplit(n / 2, a - 1, b);
    }
  }

  lemma HalveFour(n: nat, k: nat)
    ensures Halve(n, k + 4) == Halve(n / 16, k)
  {
    HalveTwice(n, k + 2);
    HalveTwice(n / 4, k);
    assert n / 4 / 4 == n / 16;
  }

  lemma HalveTwice(n: nat, k: nat)
    ensures Halve(n, k + 2) == Halve(n / 4, k)
  {
    assert Halve(n, k + 2) == Halve(n / 2, k + 1);
    assert n / 2 / 2 == n / 4;
  }

  lemma HalveByte(n: nat)
    ensures Halve(n, 8) == n / 256
  {
    HalveFour(n, 4);
    HalveFour(n / 16, 0);
    assert n / 16 / 16 == n / 256;
  }

  lemma ByteWidens(b: byte)
    ensures Bits(b, WIDTH) == Bits(b, 8) + Zeros(24)
  {
    BitsSplit(b, 8, 24);
    HalveByte(b);
    BitsOfZero(24);
  }

  lemma AbsorbIsFeedBits(r: Register, g: Register, b: byte)
    ensures Absorb(r, g, b) == FeedBits(r, g, Bits(b, 8))
  {
    FeedBitsAtOnce(r, g, Bits(b, 8));
    ByteWidens(b);
  }

  lemma {:induction false} FeedIsFeedBits(r: Register, g: Register, data: seq<byte>)
    ensures Feed(r, g, data) == FeedBits(r, g, MessageBits(data))
    decreases |data|
  {
    if data != [] {
      AbsorbIsFeedBits(r, g, data[0]);
      FeedIsFeedBits(Absorb(r, g, data[0]), g, data[1..]);
      FeedBitsConcat(r, g, Bits(data[0], 8), MessageBits(data[1..]));
    }
  }

  // ----- The checksum is the remainder of a polynomial division -----

  lemma {:induction false} FeedBitsIsRemainder(r: Register, g: Register, m: bits)
    ensures FeedBits(r, g, m) == Remainder(Xor(r + Zeros(|m|), m + Zeros(32)), g)
    decreases |m|
  {
    var p := Xor(r + Zeros(|m|), m + Zeros(32));
    if m == [] {
      assert p == r;
    } else {
      var next := Shift(Flip(r, m[0]), g);
      FeedBitsIsRemainder(next, g, m[1..]);
      ReduceIsShift(r, g, m);
    }
  }

  lemma ReduceIsShift(r: Register, g: Register, m: bits)
    requires m != []
    ensures Reduce(Xor(r + Zeros(|m|), m + Zeros(32)), g)
         == Xor(Shift(Flip(r, m[0]), g) + Zeros(|m| - 1), m[1..] + Zeros(32))
  {
    var p := Xor(r + Zeros(|m|), m + Zeros(32));
    var next := Shift(Flip(r, m[0]), g);
    var reduced := Reduce(p, g);
    var expected := Xor(next + Zeros(|m| - 1), m[1..] + Zeros(32));
    assert p[0] == Flip(r, m[0])[0];
    forall i | 0 <= i < |reduced| ensures reduced[i] == expected[i] {
      assert (m + Zeros(32))[i + 1] == (m[1..] + Zeros(32))[i];
      assert p[1..][i] == ((r + Zeros(|m|))[i + 1] != (m + Zeros(32))[i + 1]);
    }
  }

  /** The powers below x^32 in the generator of section 3.2.9 of IEEE 802.3. */
  predicate IsPower(k: int) {
    || k == 26 || k == 23 || k == 22 || k == 16 || k == 12 || k == 11 || k == 10
    || k == 8 || k == 7 || k == 5 || k == 4 || k == 2 || k == 1 || k == 0
  }

  lemma {:induction false} BitAt(n: nat, k: nat, i: nat)
    requires i < k
    ensures Bits(n, k)[i] == (Halve(n, i) % 2 == 1)
  {
    if i > 0 {
      BitAt(n / 2, k - 1, i - 1);
    }
  }

  /** The bits of `n` are, in order, the coefficients of x^k, x^(k-1), ..., 1. */
  predicate Matches(n: nat, k: int)
    decreases k + 1
  {
    k < 0 || ((n % 2 == 1) == IsPower(k) && Matches(n / 2, k - 1))
  }

  lemma {:induction false} MatchesAt(n: nat, k: int, i: nat)
    requires Matches(n, k) && i <= k
    ensures (Halve(n, i) % 2 == 1) == IsPower(k - i)
    decreases i
  {
    if i > 0 {
      MatchesAt(n / 2, k - 1, i - 1);
    }
  }

  lemma HighPowersMatch()
    ensures Matches(0xEDB8, 15)
  {
    assert Matches(0xED, 7);
  }

  lemma PolyMatches()
    ensures Matches(POLY, 31)
  {
    HighPowersMatch();
    assert Matches(0xEDB8_83, 23);
  }

  lemma PolyIsIeee802()
    ensures forall i :: 0 <= i < 32 ==> Poly()[i] == IsPower(31 - i)
  {
    PolyMatches();
    forall i: nat | i < 32 ensures Poly()[i] == IsPower(31 - i) {
      BitAt(POLY, WIDTH, i);
      MatchesAt(POLY, 31, i);
    }
  }

  lemma PolyEndsInOne()
    ensures Poly()[31]
  {
    PolyIsIeee802();
  }

  /** The message with its first 32 bits complemented, times x^32. */
  function Dividend(data: seq<byte>): (p: bits)
    ensures |p| == 8 * |data| + 32
  {
    Xor(Ones() + Zeros(8 * |data|), MessageBits(data) + Zeros(32))
  }

  lemma CrcIsRemainder(data: seq<byte>)
    ensures Not(Bits(Crc32(data), 32))
         == Remainder(Dividend(data), Poly())
  {
    var r := Feed(Ones(), Poly(), data);
    BitsOfValue(Not(r));
    assert Not(Not(r)) == r;
    FeedIsFeedBits(Ones(), Poly(), data);
    FeedBitsIsRemainder(Ones(), Poly(), MessageBits(data));
  }

  /** The checksum, complemented back, is the one and only remainder of the dividend on division by
      the generator. */
  lemma CrcDivision(data: seq<byte>, q: bits, r: bits)
    requires |r| == 32 && |q| == 8 * |data|
    ensures Divides(Dividend(data), Poly(), q, r)
       <==> (r == Not(Bits(Crc32(data), 32)) && q == Quotient(Dividend(data), Poly()))
  {
    var p := Dividend(data);
    CrcIsRemainder(data);
    DivisionExists(p, Poly());
    if Divides(p, Poly(), q, r) {
      DivisionUnique(p, Poly(), q, r);
    }
  }

  // ----- Linearity -----

  lemma ShiftLinear(a: Register, b: Register, g: Register)
    ensures Shift(Xor(a, b), g) == Xor(Shift(a, g), Shift(b, g))
  {
    assert ShiftRight(Xor(a, b)) == Xor(ShiftRight(a), ShiftRight(b));
  }

  lemma {:induction false} FeedBitsLinear(a: Register, b: Register, g: Register, x: bits, y: bits)
    requires |x| == |y|
    ensures FeedBits(Xor(a, b), g, Xor(x, y)) == Xor(FeedBits(a, g, x), FeedBits(b, g, y))
    decreases |x|
  {
    if x != [] {
      assert Xor(x, y)[1..] == Xor(x[1..], y[1..]);
      assert Flip(Xor(a, b), Xor(x, y)[0]) == Xor(Flip(a, x[0]), Flip(b, y[0]));
      ShiftLinear(Flip(a, x[0]), Flip(b, y[0]), g);
      FeedBitsLinear(Shift(Flip(a, x[0]), g), Shift(Flip(b, y[0]), g), g, x[1..], y[1..]);
    }
  }

  lemma AffineBits(x: bits, y: bits, z: bits)
    requires |x| == |y| == |z|
    ensures Not(FeedBits(Ones(), Poly(), Xor(Xor(x, y), z)))
         == Xor(Xor(Not(FeedBits(Ones(), Poly(), x)), Not(FeedBits(Ones(), Poly(), y))),
                Not(FeedBits(Ones(), Poly(), z)))
  {
    var g: Register := Poly();
    var two: Register := Xor(Ones(), Ones());
    FeedBitsLinear(Ones(), Ones(), g, x, y);
    FeedBitsLinear(two, Ones(), g, Xor(x, y), z);
    assert Xor(two, Ones()) == Ones();
    NotOfThree(FeedBits(Ones(), g, x), FeedBits(Ones(), g, y), FeedBits(Ones(), g, z));
  }

  lemma NotOfThree(a: Register, b: Register, c: Register)
    ensures Not(Xor(Xor(a, b), c)) == Xor(Xor(Not(a), Not(b)), Not(c))
  {
  }

  /** Affine linearity over messages of one length. */
  lemma CrcAffine(a: seq<byte>, b: seq<byte>, c: seq<byte>, d: seq<byte>)
    requires |a| == |b| == |c| == |d|
    requires MessageBits(d) == Xor(Xor(MessageBits(a), MessageBits(b)), MessageBits(c))
    ensures Bits(Crc32(d), 32) == Xor(Xor(Bits(Crc32(a), 32), Bits(Crc32(b), 32)), Bits(Crc32(c), 32))
  {
    CrcBits(a);
    CrcBits(b);
    CrcBits(c);
    CrcBits(d);
    AffineBits(MessageBits(a), MessageBits(b), MessageBits(c));
  }

  lemma CrcBits(data: seq<byte>)
    ensures Bits(Crc32(data), 32) == Not(FeedBits(Ones(), Poly(), MessageBits(data)))
  {
    BitsOfValue(Not(Feed(Ones(), Poly(), data)));
    FeedIsFeedBits(Ones(), Poly(), data);
  }

  // ----- Burst errors -----

  lemma ShiftInjective(a: Register, b: Register, g: Register)
    requires g[31] && Shift(a, g) == Shift(b, g)
    ensures a == b
  {
    assert Shift(a, g)[31] == a[0] && Shift(b, g)[31] == b[0];
    forall i | 1 <= i < 32 ensures a[i] == b[i] {
      assert Shift(a, g)[i - 1] == (a[i] != (a[0] && g[i - 1]));
      assert Shift(b, g)[i - 1] == (b[i] != (b[0] && g[i - 1]));
    }
  }

  lemma {:induction false} ShiftsInjective(a: Register, b: Register, g: Register, k: nat)
    requires g[31] && Shifts(a, g, k) == Shifts(b, g, k)
    ensures a == b
    decreases k
  {
    if k > 0 {
      ShiftsInjective(Shift(a, g), Shift(b, g), g, k - 1);
      ShiftInjective(a, b, g);
    }
  }

  /** Different registers stay different whatever message both are then fed. */
  lemma {:induction false} FeedBitsInjective(a: Register, b: Register, g: Register, m: bits)
    requires g[31] && FeedBits(a, g, m) == FeedBits(b, g, m)
    ensures a == b
    decreases |m|
  {
    if m != [] {
      FeedBitsInjective(Shift(Flip(a, m[0]), g), Shift(Flip(b, m[0]), g), g, m[1..]);
      ShiftInjective(Flip(a, m[0]), Flip(b, m[0]), g);
      assert a == Flip(Flip(a, m[0]), m[0]) && b == Flip(Flip(b, m[0]), m[0]);
    }
  }

  /** Different messages of at most 32 bits drive one register to different registers. */
  lemma WindowInjective(r: Register, g: Register, x: bits, y: bits)
    requires g[31] && |x| == |y| <= 32 && FeedBits(r, g, x) == FeedBits(r, g, y)
    ensures x == y
  {
    FeedBitsAtOnce(r, g, x);
    FeedBitsAtOnce(r, g, y);
    var px, py := x + Zeros(32 - |x|), y + Zeros(32 - |y|);
    ShiftsInjective(Xor(r, px), Xor(r, py), g, |x|);
    forall i | 0 <= i < |x| ensures x[i] == y[i] {
      assert px[i] == x[i] && py[i] == y[i];
      assert Xor(r, px)[i] == Xor(r, py)[i];
    }
  }

  /** The two strings differ at most inside the 32 bits that start at `i`. */
  ghost predicate DifferWithin(x: bits, y: bits, i: nat) {
    |x| == |y| && forall k :: 0 <= k < |x| && !(i <= k < i + 32) ==> x[k] == y[k]
  }

  lemma FeedThree(r: Register, g: Register, x: bits, lo: nat, hi: nat)
    requires lo <= hi <= |x|
    ensures FeedBits(r, g, x) == FeedBits(FeedBits(FeedBits(r, g, x[..lo]), g, x[lo..hi]), g, x[hi..])
  {
    assert x == x[..hi] + x[hi..];
    assert x[..hi] == x[..lo] + x[lo..hi];
    FeedBitsConcat(r, g, x[..hi], x[hi..]);
    FeedBitsConcat(r, g, x[..lo], x[lo..hi]);
  }

  lemma BurstChangesRegister(r: Register, g: Register, x: bits, y: bits, i: nat)
    requires g[31] && DifferWithin(x, y, i) && FeedBits(r, g, x) == FeedBits(r, g, y)
    ensures x == y
  {
    var lo, hi := Min(i, |x|), Min(i + 32, |x|);
    assert x[..lo] == y[..lo] && x[hi..] == y[hi..];
    var s := FeedBits(r, g, x[..lo]);
    FeedThree(r, g, x, lo, hi);
    FeedThree(r, g, y, lo, hi);
    FeedBitsInjective(FeedBits(s, g, x[lo..hi]), FeedBits(s, g, y[lo..hi]), g, x[hi..]);
    WindowInjective(s, g, x[lo..hi], y[lo..hi]);
    SameParts(x, y, lo, hi);
  }

  lemma SameParts(x: bits, y: bits, lo: nat, hi: nat)
    requires lo <= hi <= |x| == |y|
    requires x[..lo] == y[..lo] && x[lo..hi] == y[lo..hi] && x[hi..] == y[hi..]
    ensures x == y
  {
    assert x == x[..lo] + x[lo..hi] + x[hi..];
    assert y == y[..lo] + y[lo..hi] + y[hi..];
  }

  // ----- Frames: a payload and its little-endian trailer -----

  function Trailer(payload: seq<byte>): (t: seq<byte>)
    ensures |t| == CRC_LEN
  {
    Le32(Crc32(payload))
  }

  /** The check the slave makes on a Write payload. */
  predicate Accepts(frame: seq<byte>) {
    && |frame| >= CRC_LEN
    && FromLe32(frame[|frame| - CRC_LEN..]) == Crc32(frame[..|frame| - CRC_LEN])
  }

  lemma IntactFrameAccepted(payload: seq<byte>)
    ensures Accepts(payload + Trailer(payload))
  {
    var f := payload + Trailer(payload);
    assert f[..|f| - CRC_LEN] == payload && f[|f| - CRC_LEN..] == Trailer(payload);
    Le32RoundTrip(Crc32(payload));
  }

  lemma {:induction false} MessageBitsConcat(a: seq<byte>, b: seq<byte>)
    ensures MessageBits(a + b) == MessageBits(a) + MessageBits(b)
    decreases |a|
  {
    if a == [] {
      assert a + b == b;
    } else {
      assert (a + b)[1..] == a[1..] + b;
      MessageBitsConcat(a[1..], b);
    }
  }

  lemma {:induction false} ValueConcat(a: bits, b: bits)
    ensures Value(a + b) == Value(a) + Pow2(|a|) * Value(b)
    decreases |a|
  {
    if a == [] {
      assert a + b == b;
    } else {
      assert (a + b)[1..] == a[1..] + b;
      ValueConcat(a[1..], b);
      var p, v, w := Pow2(|a| - 1), Value(b), Value(a[1..]);
      assert Value(a + b) == (if a[0] then 1 else 0) + 2 * (w + p * v);
      Doubled(p, v);
    }
  }

  lemma Doubled(p: nat, v: nat)
    ensures 2 * (p * v) == (2 * p) * v
  {
  }

  lemma {:induction false} ValueOfBits(n: nat, k: nat)
    requires Halve(n, k) == 0
    ensures Value(Bits(n, k)) == n
    decreases k
  {
    if k > 0 {
      ValueOfBits(n / 2, k - 1);
    }
  }

  lemma ValueOfByte(b: byte)
    ensures Value(Bits(b, 8)) == b
  {
    HalveByte(b);
    ValueOfBits(b, 8);
  }

  /** Four bytes carry the bits of the word they encode, in order. */
  lemma BitsOfWord(t: seq<byte>)
    requires |t| == 4
    ensures MessageBits(t) == Bits(FromLe32(t), 32)
  {
    assert t == [t[0]] + ([t[1]] + ([t[2]] + [t[3]]));
    ValueOfMessage(t);
    BitsOfValue(MessageBits(t));
  }

  lemma ValueOfMessage(t: seq<byte>)
    requires |t| == 4
    ensures Value(MessageBits(t)) == FromLe32(t)
  {
    ValueStep(t);
    ValueStep(t[1..]);
    ValueStep(t[2..]);
    ValueStep(t[3..]);
    assert MessageBits(t[4..]) == [];
  }

  lemma ValueStep(t: seq<byte>)
    requires t != []
    ensures Value(MessageBits(t)) == t[0] + 256 * Value(MessageBits(t[1..]))
  {
    ValueConcat(Bits(t[0], 8), MessageBits(t[1..]));
    ValueOfByte(t[0]);
    assert Pow2(4) == 16 && Pow2(8) == 256;
  }

  function Residue(): Register {
    Shifts(Ones(), Poly(), WIDTH)
  }

  /** Feeding a word leaves the residue exactly when the word is the register's complement. */
  lemma ResidueIffComplement(s: Register, word: Register)
    ensures FeedBits(s, Poly(), word) == Residue() <==> word == Not(s)
  {
    var g: Register := Poly();
    FeedWord(s, g, word);
    XorIsOnes(s, word);
    if FeedBits(s, g, word) == Residue() {
      PolyEndsInOne();
      ShiftsInjective(Xor(s, word), Ones(), g, WIDTH);
    }
  }

  lemma FeedWord(s: Register, g: Register, word: Register)
    ensures FeedBits(s, g, word) == Shifts(Xor(s, word), g, WIDTH)
  {
    FeedBitsAtOnce(s, g, word);
    assert word + Zeros(0) == word;
  }

  lemma XorIsOnes(s: Register, word: Register)
    ensures Xor(s, word) == Ones() <==> word == Not(s)
  {
    if Xor(s, word) == Ones() {
      forall i | 0 <= i < 32 ensures word[i] == Not(s)[i] {
        assert Xor(s, word)[i] == Ones()[i];
      }
    }
  }

  /** A frame is accepted exactly when feeding all of it, trailer included, leaves one fixed
      register. */
  lemma AcceptedIffResidue(frame: seq<byte>)
    requires |frame| >= CRC_LEN
    ensures Accepts(frame) <==> FeedBits(Ones(), Poly(), MessageBits(frame)) == Residue()
  {
    var payload, t := frame[..|frame| - CRC_LEN], frame[|frame| - CRC_LEN..];
    assert frame == payload + t;
    AcceptsParts(frame, payload, t);
    TrailerIffResidue(frame, payload, t);
  }

  lemma AcceptsParts(frame: seq<byte>, payload: seq<byte>, t: seq<byte>)
    requires |t| == CRC_LEN && frame == payload + t
    ensures Accepts(frame) <==> FromLe32(t) == Crc32(payload)
  {
    assert frame[..|frame| - CRC_LEN] == payload && frame[|frame| - CRC_LEN..] == t;
  }

  lemma TrailerIffResidue(frame: seq<byte>, payload: seq<byte>, t: seq<byte>)
    requires |t| == 4 && frame == payload + t
    ensures FromLe32(t) == Crc32(payload) <==> FeedBits(Ones(), Poly(), MessageBits(frame)) == Residue()
  {
    var s := FeedBits(Ones(), Poly(), MessageBits(payload));
    MessageBitsConcat(payload, t);
    FeedBitsConcat(Ones(), Poly(), MessageBits(payload), MessageBits(t));
    BitsOfWord(t);
    CrcBits(payload);
    ResidueIffComplement(s, Bits(FromLe32(t), WIDTH));
    if Bits(FromLe32(t), 32) == Not(s) {
      WordOfBits(FromLe32(t), Crc32(payload));
    }
  }

  lemma WordOfBits(m: u32, n: u32)
    requires Bits(m, 32) == Bits(n, 32)
    ensures m == n
  {
    Le32RoundTrip(m);
    Le32RoundTrip(n);
    BitsOfWord(Le32(m));
    BitsOfWord(Le32(n));
    ValueOfMessage(Le32(m));
    ValueOfMessage(Le32(n));
  }

  /** Appending a payload's own checksum always gives the same checksum. */
  lemma CrcOfFrameIsConstant(payload: seq<byte>)
    ensures Crc32(payload + Trailer(payload)) == Crc32(Trailer([]))
  {
    var f, e := payload + Trailer(payload), [] + Trailer([]);
    assert e == Trailer([]);
    IntactFrameAccepted(payload);
    IntactFrameAccepted([]);
    AcceptedIffResidue(f);
    AcceptedIffResidue(e);
    CrcBits(f);
    CrcBits(e);
    WordOfBits(Crc32(f), Crc32(e));
  }

  lemma {:induction false} MessageBitsInjective(a: seq<byte>, b: seq<byte>)
    requires |a| == |b| && MessageBits(a) == MessageBits(b)
    ensures a == b
    decreases |a|
  {
    if a != [] {
      assert MessageBits(a)[..8] == Bits(a[0], 8) && MessageBits(b)[..8] == Bits(b[0], 8);
      assert MessageBits(a)[8..] == MessageBits(a[1..]) && MessageBits(b)[8..] == MessageBits(b[1..]);
      ValueOfByte(a[0]);
      ValueOfByte(b[0]);
      MessageBitsInjective(a[1..], b[1..]);
      assert a == [a[0]] + a[1..] && b == [b[0]] + b[1..];
    }
  }

  /** Any corruption of a frame confined to 32 consecutive bits, wherever the window lies and
      whether or not it straddles payload and trailer, is caught. */
  lemma BurstDetected(sent: seq<byte>, received: seq<byte>, i: nat)
    requires Accepts(sent) && |received| == |sent| && received != sent
    requires DifferWithin(MessageBits(sent), MessageBits(received), i)
    ensures !Accepts(received)
  {
    AcceptedIffResidue(sent);
    AcceptedIffResidue(received);
    PolyEndsInOne();
    if Accepts(received) {
      BurstChangesRegister(Ones(), Poly(), MessageBits(sent), MessageBits(received), i);
      MessageBitsInjective(sent, received);
    }
  }

  lemma BurstOrSame(sent: seq<byte>, received: seq<byte>, i: nat)
    requires Accepts(sent) && |received| == |sent|
    requires DifferWithin(MessageBits(sent), MessageBits(received), i)
    ensures received == sent || !Accepts(received)
  {
    if received != sent {
      BurstDetected(sent, received, i);
    }
  }

  /** The special case of four consecutive bytes. */
  lemma FourByteBurstDetected(sent: seq<byte>, received: seq<byte>, i: nat)
    requires Accepts(sent) && |received| == |sent| && received != sent
    requires forall k :: 0 <= k < |sent| && !(i <= k < i + 4) ==> sent[k] == received[k]
    ensures !Accepts(received)
  {
    forall k | 0 <= k < 8 * |sent| && !(8 * i <= k < 8 * i + 32)
      ensures MessageBits(sent)[k] == MessageBits(received)[k]
    {
      BitOfByte(sent, k);
      BitOfByte(received, k);
    }
    BurstDetected(sent, received, 8 * i);
  }

  lemma {:induction false} BitOfByte(data: seq<byte>, k: nat)
    requires k < 8 * |data|
    ensures MessageBits(data)[k] == Bits(data[k / 8], 8)[k % 8]
    decreases |data|
  {
    var first := Bits(data[0], 8);
    if k >= 8 {
      BitOfByte(data[1..], k - 8);
      assert (k - 8) / 8 == k / 8 - 1 && (k - 8) % 8 == k % 8;
      assert (first + MessageBits(data[1..]))[k] == MessageBits(data[1..])[k - 8];
    } else {
      assert k / 8 == 0 && k % 8 == k;
      assert (first + MessageBits(data[1..]))[k] == first[k];
    }
  }
}
