/** Bit strings, and polynomials over the two-element field written as bit strings.

    As a polynomial, the first bit of a string is the coefficient of the highest power. */
module Gf2 {
  type bits = seq<bool>

  /** The low `k` bits of an integer, least significant first. */
  function Bits(n: nat, k: nat): (r: bits)
    ensures |r| == k
  {
    if k == 0 then [] else [n % 2 == 1] + Bits(n / 2, k - 1)
  }

  /** The integer whose bits, least significant first, are `b`. */
  function Value(b: bits): nat {
    if b == [] then 0 else (if b[0] then 1 else 0) + 2 * Value(b[1..])
  }

  function Zeros(k: nat): (r: bits)
    ensures |r| == k
  {
    seq(k, i => false)
  }

  function Xor(a: bits, b: bits): (r: bits)
    requires |a| == |b|
    ensures |r| == |a|
    ensures forall i :: 0 <= i < |a| ==> r[i] == (a[i] != b[i])
  {
    seq(|a|, i requires 0 <= i < |a| => a[i] != b[i])
  }

  function Not(a: bits): (r: bits)
    ensures |r| == |a|
    ensures forall i :: 0 <= i < |a| ==> r[i] == !a[i]
  {
    seq(|a|, i requires 0 <= i < |a| => !a[i])
  }

  function Pow2(k: nat): (p: nat)
    ensures p >= 1
  {
    if k == 0 then 1 else 2 * Pow2(k - 1)
  }

  lemma {:induction false} BitsOfValue(b: bits)
    ensures Bits(Value(b), |b|) == b
    ensures Value(b) < Pow2(|b|)
  {
    if b != [] {
      BitsOfValue(b[1..]);
      assert Value(b) / 2 == Value(b[1..]);
    }
  }

  lemma {:induction false} BitsOfZero(k: nat)
    ensures Bits(0, k) == Zeros(k)
  {
    if k > 0 {
      BitsOfZero(k - 1);
    }
  }

  // ----- Division by the monic polynomial [true] + g -----

  /** One step of long division: drop the leading coefficient, cancelling it when it is set. */
  function Reduce(p: bits, g: bits): (r: bits)
    requires |p| > |g|
    ensures |r| == |p| - 1
  {
    Xor(p[1..], (if p[0] then g else Zeros(|g|)) + Zeros(|p| - 1 - |g|))
  }

  function Remainder(p: bits, g: bits): (r: bits)
    requires |p| >= |g|
    ensures |r| == |g|
    decreases |p|
  {
    if |p| == |g| then p else Remainder(Reduce(p, g), g)
  }

  function Quotient(p: bits, g: bits): (q: bits)
    requires |p| >= |g|
    ensures |q| == |p| - |g|
    decreases |p|
  {
    if |p| == |g| then [] else [p[0]] + Quotient(Reduce(p, g), g)
  }

  /** The product of `q` and [true] + g, by shifting and adding. */
  function Times(q: bits, g: bits): (r: bits)
    ensures |r| == |q| + |g|
  {
    if q == [] then Zeros(|g|)
    else Xor((if q[0] then [true] + g else Zeros(1 + |g|)) + Zeros(|q| - 1), [false] + Times(q[1..], g))
  }

  ghost predicate Divides(p: bits, g: bits, q: bits, r: bits) {
    && |r| == |g| && |p| == |q| + |g|
    && p == Xor(Times(q, g), Zeros(|q|) + r)
  }

  /** The multiple of the divisor that cancels a leading coefficient, and what it does to the others. */
  lemma Cancels(lead: bool, g: bits, k: nat)
    ensures (if lead then [true] + g else Zeros(1 + |g|)) + Zeros(k)
         == [lead] + ((if lead then g else Zeros(|g|)) + Zeros(k))
  {
  }

  /** Undoing one step of long division. */
  lemma DivisionStep(p: bits, g: bits, q: bits, r: bits)
    requires |p| > |g| == |r| && |q| == |p| - |g| && q[0] == p[0]
    requires Divides(Reduce(p, g), g, q[1..], r)
    ensures Divides(p, g, q, r)
  {
    var product := Xor(Times(q, g), Zeros(|q|) + r);
    forall i | 0 <= i < |p| ensures p[i] == product[i] {
      if i > 0 {
        assert Reduce(p, g)[i - 1] == (Times(q[1..], g)[i - 1] != (Zeros(|q| - 1) + r)[i - 1]);
      }
    }
  }

  lemma {:induction false} DivisionExists(p: bits, g: bits)
    requires |p| >= |g|
    ensures Divides(p, g, Quotient(p, g), Remainder(p, g))
    decreases |p|
  {
    if |p| > |g| {
      DivisionExists(Reduce(p, g), g);
      var q := Quotient(p, g);
      assert q[0] == p[0] && q[1..] == Quotient(Reduce(p, g), g);
      DivisionStep(p, g, q, Remainder(p, g));
    }
  }

  /** Doing one step of long division. */
  lemma DivisionStepDown(p: bits, g: bits, q: bits, r: bits)
    requires q != [] && Divides(p, g, q, r)
    ensures q[0] == p[0] && Divides(Reduce(p, g), g, q[1..], r)
  {
    var multiple := (if q[0] then g else Zeros(|g|)) + Zeros(|q| - 1);
    var low, tail := Times(q[1..], g), Zeros(|q| - 1) + r;
    Cancels(q[0], g, |q| - 1);
    assert Zeros(|q|) + r == [false] + tail;
    assert Times(q, g) == Xor([q[0]] + multiple, [false] + low);
    ReducedAt(p, q[0], multiple, low, tail);
    assert p[0] == q[0];
    assert Reduce(p, g) == Xor(low, tail);
  }

  lemma ReducedAt(p: bits, lead: bool, multiple: bits, low: bits, tail: bits)
    requires |multiple| == |low| == |tail|
    requires p == Xor(Xor([lead] + multiple, [false] + low), [false] + tail)
    ensures p[0] == lead && Xor(p[1..], multiple) == Xor(low, tail)
  {
  }

  lemma NothingDivided(p: bits, g: bits, r: bits)
    requires Divides(p, g, [], r)
    ensures p == r
  {
    assert forall i :: 0 <= i < |p| ==> p[i] == (Zeros(0) + r)[i];
  }

  lemma {:induction false} DivisionUnique(p: bits, g: bits, q: bits, r: bits)
    requires Divides(p, g, q, r)
    ensures q == Quotient(p, g) && r == Remainder(p, g)
    decreases |q|
  {
    if q == [] {
      NothingDivided(p, g, r);
    } else {
      DivisionStepDown(p, g, q, r);
      DivisionUnique(Reduce(p, g), g, q[1..], r);
      assert Quotient(p, g) == [p[0]] + Quotient(Reduce(p, g), g);
      assert q == [q[0]] + q[1..];
    }
  }
}
