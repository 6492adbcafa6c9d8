/**
 * The key arithmetic of optimized/taproot_optimized_vanitygen.c (BIP 341, "Constructing and spending Taproot outputs").
 */
module TaprootKeys {
  import opened Arithmetic
  import opened Bech32
  import opened Options
  import opened SegwitAddr

  // A scalar and a point are stepped side by side, tweaked, and put together from the two halves of a split key. The
  // curve is any group of prime order whose points have an x coordinate of 32 bytes and a parity of y; negation
  // keeps the one and flips the other. The tagged hash of an x coordinate is any number.

  datatype Curve<!P> = Curve(
    order: nat, g: P, zero: P, add: (P, P) -> P, neg: P -> P,
    x: P -> seq<nat>, odd: P -> bool, tweak: seq<nat> -> nat)

  /** k times p. */
  function Mul<P>(c: Curve<P>, k: nat, p: P): P {
    if k == 0 then c.zero else c.add(Mul(c, k - 1, p), p)
  }

  ghost predicate AssocAt<P>(c: Curve<P>, p: P, q: P, r: P) {
    c.add(c.add(p, q), r) == c.add(p, c.add(q, r))
  }

  ghost predicate CommAt<P>(c: Curve<P>, p: P, q: P) {
    c.add(p, q) == c.add(q, p)
  }

  /** Negation is what it is on the curve: the inverse, with the same x and the other y. */
  ghost predicate NegAt<P>(c: Curve<P>, p: P) {
    && c.add(p, c.zero) == p && c.add(p, c.neg(p)) == c.zero
    && (p != c.zero ==> c.x(c.neg(p)) == c.x(p) && c.odd(c.neg(p)) == !c.odd(p))
    && |c.x(p)| == 32 && IsBytes(c.x(p))
  }

  ghost predicate IsGroup<P(!new)>(c: Curve<P>) {
    (forall p, q, r :: AssocAt(c, p, q, r)) && (forall p, q :: CommAt(c, p, q)) && (forall p :: NegAt(c, p))
  }

  /** The generator has the order of the group. */
  ghost predicate Generated<P(!new)>(c: Curve<P>) {
    c.order > 1 && Mul(c, c.order, c.g) == c.zero && forall k :: 0 < k < c.order ==> Mul(c, k, c.g) != c.zero
  }

  ghost predicate IsCurve<P(!new)>(c: Curve<P>) {
    IsGroup(c) && Generated(c)
  }

  /** The smallest curve there is: the laws do not contradict each other. */
  datatype Three = Nought | One | Two

  function Sum(a: Three, b: Three): Three {
    if a.Nought? then b else if b.Nought? then a else if a.One? && b.One? then Two else if a.Two? && b.Two? then One else Nought
  }

  function Minus(a: Three): Three {
    match a
    case Nought => Nought
    case One => Two
    case Two => One
  }

  lemma ZeroBytes(xs: seq<nat>)
    requires forall i :: 0 <= i < |xs| ==> xs[i] == 0
    ensures IsBytes(xs)
  {
  }

  lemma CurvesExist() returns (c: Curve<Three>)
    ensures IsCurve(c)
  {
    var xs := seq(32, _ => 0);
    c := Curve(3, One, Nought, Sum, Minus, _ => xs, (a: Three) => a.Two?, _ => 0);
    var g := c.g;
    assert Mul(c, 0, g) == Nought;
    assert Mul(c, 1, g) == c.add(Mul(c, 0, g), g) == One;
    assert Mul(c, 2, g) == c.add(Mul(c, 1, g), g) == Two;
    assert Mul(c, 3, g) == c.add(Mul(c, 2, g), g) == Nought;
    ZeroBytes(xs);
  }

  // ---- The laws, one at a time

  lemma Assoc<P(!new)>(c: Curve<P>, p: P, q: P, r: P)
    requires IsCurve(c)
    ensures c.add(c.add(p, q), r) == c.add(p, c.add(q, r))
  {
    assert AssocAt(c, p, q, r);
  }

  lemma Comm<P(!new)>(c: Curve<P>, p: P, q: P)
    requires IsCurve(c)
    ensures c.add(p, q) == c.add(q, p)
  {
    assert CommAt(c, p, q);
  }

  lemma Neutral<P(!new)>(c: Curve<P>, p: P)
    requires IsCurve(c)
    ensures c.add(p, c.zero) == p && c.add(c.zero, p) == p
  {
    assert NegAt(c, p);
    Comm(c, c.zero, p);
  }

  lemma Inverse<P(!new)>(c: Curve<P>, p: P)
    requires IsCurve(c)
    ensures c.add(p, c.neg(p)) == c.zero && c.add(c.neg(p), p) == c.zero
  {
    assert NegAt(c, p);
    Comm(c, c.neg(p), p);
  }

  lemma Mirror<P(!new)>(c: Curve<P>, p: P)
    requires IsCurve(c) && p != c.zero
    ensures c.x(c.neg(p)) == c.x(p) && c.odd(c.neg(p)) == !c.odd(p)
  {
    assert NegAt(c, p);
  }

  lemma GeneratorOrder<P(!new)>(c: Curve<P>)
    requires IsCurve(c)
    ensures c.order > 1 && Mul(c, c.order, c.g) == c.zero
  {
  }

  lemma NotYetZero<P(!new)>(c: Curve<P>, k: nat)
    requires IsCurve(c) && 0 < k < c.order
    ensures Mul(c, k, c.g) != c.zero
  {
  }

  /** What adds up to zero is the negative. */
  lemma NegIsUnique<P(!new)>(c: Curve<P>, p: P, q: P)
    requires IsCurve(c) && c.add(p, q) == c.zero
    ensures q == c.neg(p)
  {
    hide IsCurve;
    calc {
      q;
      { Neutral(c, q); }
      c.add(q, c.zero);
      { Inverse(c, p); }
      c.add(q, c.add(p, c.neg(p)));
      { Assoc(c, q, p, c.neg(p)); }
      c.add(c.add(q, p), c.neg(p));
      { Comm(c, q, p); }
      c.add(c.zero, c.neg(p));
      { Neutral(c, c.neg(p)); }
      c.neg(p);
    }
  }

  // ---- Multiples

  lemma {:induction false} MulAdds<P(!new)>(c: Curve<P>, j: nat, k: nat, p: P)
    requires IsCurve(c)
    ensures Mul(c, j + k, p) == c.add(Mul(c, j, p), Mul(c, k, p))
  {
    hide IsCurve;
    if k == 0 {
      Neutral(c, Mul(c, j, p));
    } else {
      MulAdds(c, j, k - 1, p);
      Assoc(c, Mul(c, j, p), Mul(c, k - 1, p), p);
    }
  }

  lemma {:induction false} OrderTimes<P(!new)>(c: Curve<P>, m: nat)
    requires IsCurve(c)
    ensures Mul(c, m * c.order, c.g) == c.zero
  {
    hide IsCurve;
    if m > 0 {
      OrderTimes(c, m - 1);
      assert m * c.order == (m - 1) * c.order + c.order;
      MulAdds(c, (m - 1) * c.order, c.order, c.g);
      GeneratorOrder(c);
      Neutral(c, c.zero);
    }
  }

  /** Whole multiples of the order do not count. */
  lemma MulMod<P(!new)>(c: Curve<P>, k: nat)
    requires IsCurve(c)
    ensures c.order > 0 && Mul(c, k % c.order, c.g) == Mul(c, k, c.g)
    ensures Mul(c, k, c.g) == c.zero <==> k % c.order == 0
  {
    hide IsCurve;
    GeneratorOrder(c);
    var m, r := k / c.order, k % c.order;
    DivMod(k, c.order);
    OrderTimes(c, m);
    MulAdds(c, m * c.order, r, c.g);
    Neutral(c, Mul(c, r, c.g));
    if r > 0 {
      NotYetZero(c, r);
    } else {
      assert Mul(c, 0, c.g) == c.zero;
    }
  }

  /** The negated scalar gives the mirrored point. */
  lemma MulNegated<P(!new)>(c: Curve<P>, s: nat)
    requires IsCurve(c) && 0 < s < c.order
    ensures Mul(c, c.order - s, c.g) == c.neg(Mul(c, s, c.g)) && Mul(c, s, c.g) != c.zero
    ensures c.odd(Mul(c, c.order - s, c.g)) == !c.odd(Mul(c, s, c.g))
    ensures c.x(Mul(c, c.order - s, c.g)) == c.x(Mul(c, s, c.g))
  {
    hide IsCurve, Mul;
    MulAdds(c, s, c.order - s, c.g);
    GeneratorOrder(c);
    NegIsUnique(c, Mul(c, s, c.g), Mul(c, c.order - s, c.g));
    NotYetZero(c, s);
    Mirror(c, Mul(c, s, c.g));
  }

  // ---- The output of an internal point

  /** segwit_addr_encode for version 1. */
  function Address(hrp: string, xonly: seq<nat>): Option<string> {
    if Legal(1, xonly) && Encodable(hrp, Program(1, xonly)) then Some(Text(hrp, Program(1, xonly), Modified)) else None
  }

  /** The text is a version 1 address, of this x coordinate and of nothing else. */
  lemma AddressStands(hrp: string, xonly: seq<nat>)
    requires IsBytes(xonly) && hrp != "" && Address(hrp, xonly).Some?
    ensures StandsFor(Address(hrp, xonly).value, hrp, 1, xonly)
    ensures forall h, v, p :: StandsFor(Address(hrp, xonly).value, h, v, p) ==> h == hrp && v == 1 && p == xonly
  {
    hide Encodable, Text, Program, StandsFor;
    SegwitAddr.DecodeEncode(hrp, 1, xonly);
  }

  /** An x coordinate has an address unless the human-readable part is no good or too long. */
  lemma AddressExists(hrp: string, xonly: seq<nat>)
    requires IsBytes(xonly) && |xonly| == 32
    ensures Address(hrp, xonly).Some? <==> ValidHrp(hrp) && |hrp| <= 30
  {
    hide ValidHrp, Text;
    ProgramLength(1, xonly);
  }

  function Even<P>(c: Curve<P>, p: P): P {
    if c.odd(p) then c.neg(p) else p
  }

  function OutputPoint<P>(c: Curve<P>, internal: P): P {
    c.add(Even(c, internal), Mul(c, c.tweak(c.x(internal)), c.g))
  }

  /** compute_taproot_output_from_internal_point; it fails on the point at infinity. */
  function OutputAddress<P(==)>(c: Curve<P>, internal: P, hrp: string): Option<string> {
    if internal == c.zero || OutputPoint(c, internal) == c.zero then None else Address(hrp, c.x(OutputPoint(c, internal)))
  }

  /** The address is that of the output point, which has one unless it is the point at infinity. */
  lemma OutputStands<P(!new)>(c: Curve<P>, internal: P, hrp: string)
    requires IsCurve(c) && hrp != "" && internal != c.zero
    ensures var output, a := OutputPoint(c, internal), OutputAddress(c, internal, hrp);
      && (a.Some? <==> output != c.zero && ValidHrp(hrp) && |hrp| <= 30)
      && (a.Some? ==> StandsFor(a.value, hrp, 1, c.x(output)))
  {
    hide IsCurve, Address, OutputPoint, StandsFor, ValidHrp;
    var x := c.x(OutputPoint(c, internal));
    CoordinateIsBytes(c, OutputPoint(c, internal));
    AddressExists(hrp, x);
    if Address(hrp, x).Some? {
      AddressStands(hrp, x);
    }
  }

  lemma CoordinateIsBytes<P(!new)>(c: Curve<P>, p: P)
    requires IsCurve(c)
    ensures |c.x(p)| == 32 && IsBytes(c.x(p))
  {
    assert NegAt(c, p);
  }

  /** The mirrored point has the same address. */
  lemma SameOutput<P(!new)>(c: Curve<P>, p: P, hrp: string)
    requires IsCurve(c)
    ensures OutputAddress(c, c.neg(p), hrp) == OutputAddress(c, p, hrp)
    ensures p != c.zero ==> c.neg(p) != c.zero && OutputPoint(c, c.neg(p)) == OutputPoint(c, p)
  {
    hide IsCurve, Mul, Address;
    Inverse(c, p);
    NegIsUnique(c, c.neg(p), p);
    Neutral(c, p);
    Neutral(c, c.neg(p));
    if p != c.zero {
      Mirror(c, p);
    }
  }

  /** The scalar whose point has even y. */
  function EvenScalar<P>(c: Curve<P>, s: nat): nat
    requires s <= c.order
  {
    if c.odd(Mul(c, s, c.g)) then c.order - s else s
  }

  function Tweaked<P>(c: Curve<P>, s: nat): nat
    requires s <= c.order && c.order > 0
  {
    (EvenScalar(c, s) + c.tweak(c.x(Mul(c, EvenScalar(c, s), c.g)))) % c.order
  }

  lemma EvenScalarIsEven<P(!new)>(c: Curve<P>, s: nat)
    requires IsCurve(c) && 0 < s < c.order
    ensures 0 < EvenScalar(c, s) < c.order && Mul(c, EvenScalar(c, s), c.g) == Even(c, Mul(c, s, c.g))
    ensures !c.odd(Mul(c, EvenScalar(c, s), c.g)) && c.x(Mul(c, EvenScalar(c, s), c.g)) == c.x(Mul(c, s, c.g))
  {
    hide IsCurve, Mul;
    MulNegated(c, s);
  }

  /** The tweaked scalar is the key of the output point. */
  lemma TweakedIsKey<P(!new)>(c: Curve<P>, s: nat)
    requires IsCurve(c) && 0 < s < c.order
    ensures Mul(c, Tweaked(c, s), c.g) == OutputPoint(c, Mul(c, s, c.g))
    ensures Tweaked(c, s) == 0 <==> OutputPoint(c, Mul(c, s, c.g)) == c.zero
  {
    hide IsCurve, Mul;
    EvenScalarIsEven(c, s);
    var e := EvenScalar(c, s);
    var t := c.tweak(c.x(Mul(c, e, c.g)));
    MulMod(c, e + t);
    MulAdds(c, e, t, c.g);
  }

  /** The address of a scalar is that of the point of the tweaked scalar. */
  lemma ScalarStands<P(!new)>(c: Curve<P>, s: nat, hrp: string)
    requires IsCurve(c) && 0 < s < c.order
    ensures var a := OutputAddress(c, Mul(c, s, c.g), hrp);
      a.Some? && hrp != "" ==> StandsFor(a.value, hrp, 1, c.x(Mul(c, Tweaked(c, s), c.g)))
  {
    hide IsCurve, Mul, OutputAddress, Tweaked, StandsFor, OutputPoint;
    MulNegated(c, s);
    TweakedIsKey(c, s);
    if hrp != "" {
      OutputStands(c, Mul(c, s, c.g), hrp);
    }
  }

  /** derive_from_internal_private */
  method Derive<P(==,!new)>(c: Curve<P>, priv: nat, hrp: string) returns (address: Option<string>)
    requires IsCurve(c)
    ensures address == if 0 < priv < c.order then OutputAddress(c, Mul(c, priv, c.g), hrp) else None
    ensures address.Some? && hrp != "" ==> StandsFor(address.value, hrp, 1, c.x(Mul(c, Tweaked(c, priv), c.g)))
  {
    hide IsCurve, Mul, Address, StandsFor;
    if priv == 0 || priv >= c.order {
      return None;
    }
    EvenScalarIsEven(c, priv);
    TweakedIsKey(c, priv);
    SameOutput(c, Mul(c, priv, c.g), hrp);
    ScalarStands(c, priv, hrp);
    var adj := priv;
    var internal := Mul(c, adj, c.g);
    if c.odd(internal) {
      adj := c.order - adj;
      internal := Mul(c, adj, c.g);
    }
    address := OutputAddress(c, internal, hrp);
    if address == None {
      return None;
    }
    var tweaked := (adj + c.tweak(c.x(internal))) % c.order;
    if tweaked == 0 {
      return None;
    }
  }

  /** A key and its negative have the same address. */
  lemma DeriveIsSymmetric<P(!new)>(c: Curve<P>, s: nat, hrp: string)
    requires IsCurve(c) && 0 < s < c.order
    ensures OutputAddress(c, Mul(c, s, c.g), hrp) == OutputAddress(c, Mul(c, c.order - s, c.g), hrp)
  {
    hide IsCurve, Mul, OutputAddress;
    MulNegated(c, s);
    SameOutput(c, Mul(c, s, c.g), hrp);
  }

  // ---- Split keys

  /** What run_combine_and_verify prints, and whether it succeeds. */
  datatype Combined = Combined(internal: nat, tweaked: nat, address: string, verified: bool, ok: bool)

  /** run_combine_and_verify; None stands for the failures before anything is printed. */
  method Combine<P(==,!new)>(c: Curve<P>, alice: nat, bob: nat, expected: string, hrp: string)
      returns (r: Option<Combined>)
    requires IsCurve(c)
    ensures var s := (alice + bob) % c.order;
      var good := 0 < alice < c.order && 0 < bob < c.order && s != 0;
      && (r.Some? <==> good && OutputAddress(c, Mul(c, s, c.g), hrp).Some?)
      && (r.Some? ==>
        && OutputAddress(c, Mul(c, s, c.g), hrp) == Some(r.value.address) && r.value.verified
        && r.value.internal == EvenScalar(c, s) && r.value.tweaked == Tweaked(c, s)
        && (r.value.ok <==> expected == "" || expected == r.value.address)
        && (hrp != "" ==> StandsFor(r.value.address, hrp, 1, c.x(Mul(c, r.value.tweaked, c.g)))))
  {
    hide IsCurve, Mul, Address, StandsFor;
    GeneratorOrder(c);
    if alice == 0 || alice >= c.order || bob == 0 || bob >= c.order {
      return None;
    }
    var internal_scalar := (alice + bob) % c.order;
    if internal_scalar == 0 {
      return None;
    }
    var internal_point := Mul(c, internal_scalar, c.g);
    EvenScalarIsEven(c, internal_scalar);
    TweakedIsKey(c, internal_scalar);
    SameOutput(c, internal_point, hrp);
    ScalarStands(c, internal_scalar, hrp);
    if c.odd(internal_point) {
      internal_scalar := c.order - internal_scalar;
      internal_point := Mul(c, internal_scalar, c.g);
    }
    var address := OutputAddress(c, internal_point, hrp);
    if address == None {
      return None;
    }
    var tweaked_scalar := (internal_scalar + c.tweak(c.x(internal_point))) % c.order;
    if tweaked_scalar == 0 {
      return None;
    }
    var output_point := Mul(c, tweaked_scalar, c.g);
    var verify_address := Address(hrp, c.x(output_point));
    if verify_address == None {
      return None;
    }
    var ok := (expected == "" || address.value == expected) && address == verify_address;
    r := Some(Combined(internal_scalar, tweaked_scalar, address.value, address == verify_address, ok));
  }

  /** Alice's point plus b times the generator is the point of the combined scalar. */
  lemma PartsAdd<P(!new)>(c: Curve<P>, a: nat, b: nat)
    requires IsCurve(c)
    ensures c.order > 0 && c.add(Mul(c, a, c.g), Mul(c, b, c.g)) == Mul(c, (a + b) % c.order, c.g)
  {
    hide IsCurve, Mul;
    MulAdds(c, a, b, c.g);
    MulMod(c, a + b);
  }

  /** Combining lands on the address that was found for the sum of the two points, whatever the parity of its y. */
  lemma CombineFindsAddress<P(!new)>(c: Curve<P>, alice: nat, bob: nat, hrp: string)
    requires IsCurve(c)
    ensures c.order > 0
    ensures OutputAddress(c, Mul(c, (alice + bob) % c.order, c.g), hrp)
      == OutputAddress(c, c.add(Mul(c, alice, c.g), Mul(c, bob, c.g)), hrp)
  {
    hide IsCurve, Mul, OutputAddress;
    PartsAdd(c, alice, bob);
  }

  // ---- The miner

  /** increment_scalar_mod_order: zero is stepped over. */
  function Increment(scalar: nat, order: nat, delta: nat): nat
    requires order > 0
  {
    if (scalar + delta) % order == 0 then 1 else (scalar + delta) % order
  }

  lemma SubtractOnce(k: nat, n: nat)
    requires n > 0 && k >= n
    ensures (k - n) % n == k % n
  {
    DivMod(k, n);
    assert (k / n) * n - n == (k / n - 1) * n;
    ModIs(k - n, n, k / n - 1, k % n);
  }

  method IncrementScalar(scalar0: nat, order: nat, delta: nat) returns (scalar: nat)
    requires order > 0
    ensures scalar == Increment(scalar0, order, delta)
  {
    scalar := scalar0 + delta;
    while scalar >= order
      invariant scalar % order == (scalar0 + delta) % order
    {
      SubtractOnce(scalar, order);
      scalar := scalar - order;
    }
    SmallMod(scalar, order);
    if scalar == 0 {
      scalar := 1;
    }
  }

  /** internal is base plus (scalar - skipped) times the generator, written without negative numbers. */
  ghost predicate InStep<P(!new)>(c: Curve<P>, internal: P, base: P, scalar: nat, skipped: nat) {
    c.add(internal, Mul(c, skipped, c.g)) == c.add(base, Mul(c, scalar, c.g))
  }

  lemma Swap<P(!new)>(c: Curve<P>, p: P, q: P, r: P)
    requires IsCurve(c)
    ensures c.add(c.add(p, q), r) == c.add(c.add(p, r), q)
  {
    Assoc(c, p, q, r);
    Assoc(c, p, r, q);
    Comm(c, q, r);
  }

  /** One step of the scalar and of the point keeps them together; stepping over zero puts the scalar one ahead. */
  lemma StepTogether<P(!new)>(c: Curve<P>, internal: P, base: P, scalar: nat, skipped: nat, delta: nat)
    requires IsCurve(c) && InStep(c, internal, base, scalar, skipped)
    ensures c.order > 0
    ensures InStep(c, c.add(internal, Mul(c, delta, c.g)), base, Increment(scalar, c.order, delta),
                   skipped + if (scalar + delta) % c.order == 0 then 1 else 0)
  {
    hide IsCurve, Mul;
    GeneratorOrder(c);
    var d := Mul(c, delta, c.g);
    var f := Mul(c, skipped, c.g);
    Swap(c, internal, d, f);
    Assoc(c, base, Mul(c, scalar, c.g), d);
    MulAdds(c, scalar, delta, c.g);
    MulMod(c, scalar + delta);
    assert c.add(c.add(internal, d), f) == c.add(base, Mul(c, (scalar + delta) % c.order, c.g));
    if (scalar + delta) % c.order == 0 {
      Assoc(c, c.add(internal, d), f, c.g);
      Assoc(c, base, Mul(c, 0, c.g), c.g);
      OneMore(c, c.add(internal, d), base, skipped);
    }
  }

  lemma OneMore<P(!new)>(c: Curve<P>, p: P, base: P, k: nat)
    requires c.add(p, Mul(c, k, c.g)) == c.add(base, Mul(c, 0, c.g))
    requires c.add(c.add(p, Mul(c, k, c.g)), c.g) == c.add(p, c.add(Mul(c, k, c.g), c.g))
    requires c.add(c.add(base, Mul(c, 0, c.g)), c.g) == c.add(base, c.add(Mul(c, 0, c.g), c.g))
    ensures c.add(p, Mul(c, k + 1, c.g)) == c.add(base, Mul(c, 1, c.g))
  {
    assert Mul(c, k + 1, c.g) == c.add(Mul(c, k, c.g), c.g);
    assert Mul(c, 1, c.g) == c.add(Mul(c, 0, c.g), c.g);
  }

  /** Taking the same away on both sides. */
  lemma CancelRight<P(!new)>(c: Curve<P>, p: P, q: P, r: P)
    requires IsCurve(c) && c.add(p, r) == c.add(q, r)
    ensures p == q
  {
    hide IsCurve;
    Inverse(c, r);
    Assoc(c, p, r, c.neg(r));
    Assoc(c, q, r, c.neg(r));
    Neutral(c, p);
    Neutral(c, q);
  }

  // ---- Recording matches

  /** What is printed for a match: the key, or Bob's part and the combined internal point. */
  datatype Record<P> = Key(address: string, scalar: nat) | Part(address: string, scalar: nat, point: P)

  /** starts_with */
  predicate StartsWith(s: string, prefix: string) { prefix <= s }

  /** search_ctx_t; printed is everything that was printed so far. */
  class SearchContext<P(==,!new)> {
    const split: bool
    const target: nat
    var found: nat
    var stop: bool
    ghost var printed: seq<Record<P>>

    constructor (split: bool, target: nat)
      ensures this.split == split && this.target == target && found == 0 && !stop && printed == []
    {
      this.split, this.target, found, stop, printed := split, target, 0, false, [];
    }

    ghost predicate Valid()
      reads this
    {
      found <= target && |printed| == found && (stop <== 0 < target == found)
    }

    /** maybe_record_match, with the lock held. */
    method MaybeRecord(c: Curve<P>, scalar: nat, internal: P, address: string)
      requires Valid() && scalar < c.order
      modifies this
      ensures Valid() && stop == (old(stop) || 0 < target == found)
      ensures printed == old(printed)
        + if old(stop) || old(found) >= target then [] else [RecordOf(c, split, scalar, internal, address)]
    {
      if !stop && found < target {
        var display := if !split && c.odd(internal) then c.order - scalar else scalar;
        printed := printed + [if split then Part(address, display, Even(c, internal)) else Key(address, display)];
        found := found + 1;
        if found >= target {
          stop := true;
        }
      }
    }
  }

  function RecordOf<P>(c: Curve<P>, split: bool, scalar: nat, internal: P, address: string): Record<P>
    requires scalar <= c.order
  {
    if split then Part(address, scalar, Even(c, internal))
    else Key(address, if c.odd(internal) then c.order - scalar else scalar)
  }

  /** The record is right: the key, or the two parts together, give the address. */
  ghost predicate Right<P(!new)>(c: Curve<P>, alicePoint: P, hrp: string, r: Record<P>) {
    match r
    case Key(address, scalar) => 0 < scalar < c.order && OutputAddress(c, Mul(c, scalar, c.g), hrp) == Some(address)
    case Part(address, scalar, point) =>
      && 0 < scalar < c.order && OutputAddress(c, c.add(alicePoint, Mul(c, scalar, c.g)), hrp) == Some(address)
      && point == Even(c, c.add(alicePoint, Mul(c, scalar, c.g)))
  }

  /** In step, what is recorded is right. */
  lemma RecordIsRight<P(!new)>(c: Curve<P>, split: bool, scalar: nat, internal: P, address: string, alicePoint: P,
      hrp: string)
    requires IsCurve(c) && 0 < scalar < c.order && OutputAddress(c, internal, hrp) == Some(address)
    requires internal == if split then c.add(alicePoint, Mul(c, scalar, c.g)) else Mul(c, scalar, c.g)
    ensures c.order > 0 && Right(c, alicePoint, hrp, RecordOf(c, split, scalar, internal, address))
  {
    hide IsCurve, Mul, OutputAddress;
    MulNegated(c, scalar);
    SameOutput(c, Mul(c, scalar, c.g), hrp);
  }

  /** The address of a right record is that of the point of its key, or of the two parts together, tweaked. */
  lemma RecordStands<P(!new)>(c: Curve<P>, alice: nat, hrp: string, r: Record<P>)
    requires IsCurve(c) && Right(c, Mul(c, alice, c.g), hrp, r) && hrp != ""
    ensures c.order > 0
    ensures var s := (r.scalar + if r.Part? then alice else 0) % c.order;
      0 < s && StandsFor(r.address, hrp, 1, c.x(Mul(c, Tweaked(c, s), c.g)))
  {
    hide IsCurve, Mul, OutputAddress, Tweaked, StandsFor;
    GeneratorOrder(c);
    if r.Part? {
      PartCombines(c, alice, r, hrp);
      PartsAdd(c, alice, r.scalar);
      ScalarStands(c, (alice + r.scalar) % c.order, hrp);
    } else {
      SmallMod(r.scalar, c.order);
      ScalarStands(c, r.scalar, hrp);
    }
  }

  // ---- The worker

  /**
   * Whether the scalar is still the one that belongs to the point: as long as it was never put one ahead, or order
   * times.
   */
  lemma InStepExactly<P(!new)>(c: Curve<P>, internal: P, base: P, scalar: nat, skipped: nat)
    requires IsCurve(c) && InStep(c, internal, base, scalar, skipped)
    ensures c.order > 0 && (internal == c.add(base, Mul(c, scalar, c.g)) <==> skipped % c.order == 0)
  {
    hide IsCurve, Mul;
    var m := Mul(c, skipped, c.g);
    MulMod(c, skipped);
    Neutral(c, internal);
    if internal == c.add(base, Mul(c, scalar, c.g)) {
      Comm(c, internal, m);
      Comm(c, internal, c.zero);
      CancelRight(c, m, c.zero, internal);
    }
  }

  lemma StartsInStep<P(!new)>(c: Curve<P>, base: P, scalar: nat)
    requires IsCurve(c)
    ensures InStep(c, c.add(base, Mul(c, scalar, c.g)), base, scalar, 0)
  {
    hide IsCurve;
    Neutral(c, c.add(base, Mul(c, scalar, c.g)));
  }

  lemma IncrementInRange(scalar: nat, order: nat, delta: nat)
    requires order > 1
    ensures 0 < Increment(scalar, order, delta) < order
  {
  }

  /** The scalar after some steps. */
  function Steps(scalar: nat, order: nat, stride: nat, rounds: nat): nat
    requires order > 0
  {
    if rounds == 0 then scalar else Increment(Steps(scalar, order, stride, rounds - 1), order, stride)
  }

  /** The point after some steps. */
  function Walk<P>(c: Curve<P>, internal: P, stride: nat, rounds: nat): P {
    if rounds == 0 then internal else c.add(Walk(c, internal, stride, rounds - 1), Mul(c, stride, c.g))
  }

  /** How many of these steps went over zero. */
  function Skips(scalar: nat, order: nat, stride: nat, rounds: nat): nat
    requires order > 0
  {
    if rounds == 0 then 0
    else
      Skips(scalar, order, stride, rounds - 1)
      + if (Steps(scalar, order, stride, rounds - 1) + stride) % order == 0 then 1 else 0
  }

  lemma OneMoreStep(scalar: nat, order: nat, stride: nat, rounds: nat)
    requires order > 0
    ensures Steps(scalar, order, stride, 0) == scalar && Skips(scalar, order, stride, 0) == 0
    ensures rounds > 0 ==>
      Steps(scalar, order, stride, rounds) == Increment(Steps(scalar, order, stride, rounds - 1), order, stride)
    ensures rounds > 0 ==>
      Skips(scalar, order, stride, rounds) == Skips(scalar, order, stride, rounds - 1)
        + (if (Steps(scalar, order, stride, rounds - 1) + stride) % order == 0 then 1 else 0)
  {
  }

  lemma StepsInRange(scalar: nat, order: nat, stride: nat, rounds: nat)
    requires 0 < scalar < order
    ensures 0 < Steps(scalar, order, stride, rounds) < order
  {
    if rounds > 0 {
      IncrementInRange(Steps(scalar, order, stride, rounds - 1), order, stride);
    }
  }

  /** The scalar after some steps, had it not been reduced. */
  function Unreduced(scalar: nat, stride: nat, rounds: nat): nat { scalar + rounds * stride }

  lemma OneMoreStride(scalar: nat, stride: nat, rounds: nat)
    ensures Unreduced(scalar, stride, 0) == scalar
    ensures rounds > 0 ==> Unreduced(scalar, stride, rounds) == Unreduced(scalar, stride, rounds - 1) + stride
  {
  }

  /** Each step over zero puts the scalar one ahead of what adding up the strides gives. */
  lemma {:induction false} StepsMod(scalar: nat, order: nat, stride: nat, rounds: nat)
    requires 0 < scalar < order
    ensures Steps(scalar, order, stride, rounds)
      == (Unreduced(scalar, stride, rounds) + Skips(scalar, order, stride, rounds)) % order
  {
    hide Increment, Unreduced, Steps, Skips;
    OneMoreStride(scalar, stride, rounds);
    OneMoreStep(scalar, order, stride, rounds);
    if rounds == 0 {
      SmallMod(scalar, order);
    } else {
      StepsMod(scalar, order, stride, rounds - 1);
      NextMod(Steps(scalar, order, stride, rounds - 1), Unreduced(scalar, stride, rounds - 1),
              Skips(scalar, order, stride, rounds - 1),
              order, stride, Unreduced(scalar, stride, rounds), Skips(scalar, order, stride, rounds));
    }
  }

  lemma NextMod(s: nat, u: nat, q: nat, order: nat, stride: nat, u': nat, q': nat)
    requires order > 1 && s == (u + q) % order
    requires u' == u + stride && q' == q + if (s + stride) % order == 0 then 1 else 0
    ensures Increment(s, order, stride) == (u' + q') % order
  {
    hide Increment;
    IncrementMod(u + q, order, stride);
  }

  lemma IncrementMod(k: nat, order: nat, delta: nat)
    requires order > 1
    ensures Increment(k % order, order, delta) == (k + delta + if (k % order + delta) % order == 0 then 1 else 0) % order
  {
    AddMod(k, delta, order);
    if (k % order + delta) % order == 0 {
      AddMod(k + delta, 1, order);
      SmallMod(1, order);
    }
  }

  /** Zero is never stepped over exactly when the strides never add up to a multiple of the order. */
  lemma {:induction false} NoSkips(scalar: nat, order: nat, stride: nat, rounds: nat)
    requires 0 < scalar < order
    ensures Skips(scalar, order, stride, rounds) == 0
      <==> forall i :: 1 <= i <= rounds ==> Unreduced(scalar, stride, i) % order != 0
  {
    hide Steps, Unreduced;
    if rounds > 0 {
      NoSkips(scalar, order, stride, rounds - 1);
      StepsMod(scalar, order, stride, rounds - 1);
      OneMoreStride(scalar, stride, rounds);
      AddMod(Unreduced(scalar, stride, rounds - 1), stride, order);
    }
  }

  /**
   * At every loop head, in every run: scalar and point differ by the steps over zero, and the scalar is the one that
   * belongs to the point exactly when these are a multiple of the order.
   */
  lemma {:induction false} LoopHead<P(!new)>(c: Curve<P>, internal: P, base: P, scalar: nat, skipped: nat, stride: nat,
      rounds: nat)
    requires IsCurve(c) && InStep(c, internal, base, scalar, skipped)
    ensures c.order > 0
    ensures var n, s, q :=
        Walk(c, internal, stride, rounds), Steps(scalar, c.order, stride, rounds), Skips(scalar, c.order, stride, rounds);
      InStep(c, n, base, s, skipped + q) && (n == c.add(base, Mul(c, s, c.g)) <==> (skipped + q) % c.order == 0)
  {
    hide IsCurve, Mul, Increment, InStep, Steps, Skips;
    GeneratorOrder(c);
    OneMoreStep(scalar, c.order, stride, rounds);
    if rounds > 0 {
      LoopHead(c, internal, base, scalar, skipped, stride, rounds - 1);
      StepTogether(c, Walk(c, internal, stride, rounds - 1), base, Steps(scalar, c.order, stride, rounds - 1),
                   skipped + Skips(scalar, c.order, stride, rounds - 1), stride);
    }
    InStepExactly(c, Walk(c, internal, stride, rounds), base, Steps(scalar, c.order, stride, rounds),
                  skipped + Skips(scalar, c.order, stride, rounds));
  }

  /** From the last scalar, with a stride of one: the point becomes the point at infinity, the scalar becomes one. */
  lemma OutOfStep<P(!new)>(c: Curve<P>)
    requires IsCurve(c)
    ensures c.order > 1
    ensures var s, p := c.order - 1, Mul(c, c.order - 1, c.g);
      && InStep(c, p, c.zero, s, 0) && Steps(s, c.order, 1, 1) == 1
      && Walk(c, p, 1, 1) == c.zero != c.add(c.zero, Mul(c, Steps(s, c.order, 1, 1), c.g))
  {
    hide IsCurve;
    GeneratorOrder(c);
    var s := c.order - 1;
    Neutral(c, Mul(c, s, c.g));
    StartsInStep(c, c.zero, s);
    NotYetZero(c, 1);
    Neutral(c, c.g);
    Neutral(c, Mul(c, 1, c.g));
    assert Mul(c, s + 1, c.g) == c.add(Mul(c, s, c.g), c.g);
    ModIs(s + 1, c.order, 1, 0);
  }

  ghost predicate AllRight<P(!new)>(c: Curve<P>, alicePoint: P, hrp: string, rs: seq<Record<P>>) {
    forall i :: 0 <= i < |rs| ==> Right(c, alicePoint, hrp, rs[i])
  }

  // ---- What is printed

  /** What one round records: the key or part, if the address of the point starts with the pattern. */
  function Matches<P(==)>(c: Curve<P>, split: bool, hrp: string, pattern: string, scalar: nat,
      internal: P): seq<Record<P>>
    requires scalar <= c.order
  {
    var address := OutputAddress(c, internal, hrp);
    if address.Some? && StartsWith(address.value, pattern) then [RecordOf(c, split, scalar, internal, address.value)] else []
  }

  /**
   * What is recorded in as many rounds as there are entries in others: what the other workers record before each round.
   */
  function Log<P(==)>(c: Curve<P>, split: bool, hrp: string, pattern: string, stride: nat, scalar: nat, internal: P,
      others: seq<seq<Record<P>>>): seq<Record<P>>
    requires 0 < scalar < c.order
  {
    if others == [] then []
    else
      var n := |others| - 1;
      StepsInRange(scalar, c.order, stride, n);
      Log(c, split, hrp, pattern, stride, scalar, internal, others[..n]) + others[n]
      + Matches(c, split, hrp, pattern, Steps(scalar, c.order, stride, n), Walk(c, internal, stride, n))
  }

  /** Whatever the worker records itself has an address that starts with the pattern. */
  lemma {:induction false} LogStartsWith<P>(c: Curve<P>, split: bool, hrp: string, pattern: string, stride: nat,
      scalar: nat, internal: P, others: seq<seq<Record<P>>>)
    requires 0 < scalar < c.order
    ensures forall r :: r in Log(c, split, hrp, pattern, stride, scalar, internal, others) ==>
      pattern <= r.address || exists i :: 0 <= i < |others| && r in others[i]
    decreases |others|
  {
    hide OutputAddress, Steps, Walk;
    if others != [] {
      var n := |others| - 1;
      LogStartsWith(c, split, hrp, pattern, stride, scalar, internal, others[..n]);
      forall r | r in Log(c, split, hrp, pattern, stride, scalar, internal, others[..n]) && !(pattern <= r.address)
        ensures exists i :: 0 <= i < |others| && r in others[i]
      {
        var i :| 0 <= i < n && r in others[..n][i];
        assert r in others[i];
      }
      StepsInRange(scalar, c.order, stride, n);
    }
  }

  /** No point whose address starts with the pattern is missed. */
  lemma LogMissesNone<P>(c: Curve<P>, split: bool, hrp: string, pattern: string, stride: nat, scalar: nat, internal: P,
      others: seq<seq<Record<P>>>, n: nat)
    requires 0 < scalar < c.order && n < |others|
    ensures Steps(scalar, c.order, stride, n) < c.order
    ensures var a := OutputAddress(c, Walk(c, internal, stride, n), hrp);
      a.Some? && pattern <= a.value ==>
        RecordOf(c, split, Steps(scalar, c.order, stride, n), Walk(c, internal, stride, n), a.value)
        in Log(c, split, hrp, pattern, stride, scalar, internal, others)
  {
    hide OutputAddress, Steps, Walk, RecordOf;
    StepsInRange(scalar, c.order, stride, n);
    LogGrows(c, split, hrp, pattern, stride, scalar, internal, others, n + 1);
    LogNext(c, split, hrp, pattern, stride, scalar, internal, others, n);
  }

  /** No more than the target is printed. */
  function Clip<T>(s: seq<T>, target: nat): seq<T> {
    if |s| <= target then s else s[..target]
  }

  lemma ClipOne<T>(s: seq<T>, t: seq<T>, target: nat)
    requires |s| <= target && |t| <= 1
    ensures Clip(s + t, target) == if |s| < target then s + t else s
    ensures |Clip(s + t, target)| <= target && (|s| == target ==> |Clip(s + t, target)| == target)
  {
  }

  lemma ClipMore<T>(s: seq<T>, t: seq<T>, target: nat)
    ensures Clip(Clip(s, target) + t, target) == Clip(s + t, target)
    ensures |Clip(s, target)| == target ==> Clip(s + t, target) == Clip(s, target)
  {
  }

  lemma {:induction false} LogGrows<P>(c: Curve<P>, split: bool, hrp: string, pattern: string, stride: nat, scalar: nat,
      internal: P,
      others: seq<seq<Record<P>>>, i: nat)
    requires 0 < scalar < c.order && i <= |others|
    ensures Log(c, split, hrp, pattern, stride, scalar, internal, others[..i])
      <= Log(c, split, hrp, pattern, stride, scalar, internal, others)
    decreases |others|
  {
    hide Matches, Steps, Walk;
    if i == |others| {
      assert others[..i] == others;
    } else {
      var n := |others| - 1;
      LogGrows(c, split, hrp, pattern, stride, scalar, internal, others[..n], i);
      assert others[..n][..i] == others[..i];
    }
  }

  lemma MatchIsRight<P(!new)>(c: Curve<P>, split: bool, scalar: nat, internal: P, address: string, alicePoint: P,
      hrp: string)
    requires IsCurve(c) && 0 < scalar < c.order && internal == c.add(alicePoint, Mul(c, scalar, c.g))
    requires OutputAddress(c, internal, hrp) == Some(address) && (!split ==> alicePoint == c.zero)
    ensures c.order > 0 && Right(c, alicePoint, hrp, RecordOf(c, split, scalar, internal, address))
  {
    hide IsCurve, Mul, OutputAddress, Right, RecordOf;
    Neutral(c, Mul(c, scalar, c.g));
    RecordIsRight(c, split, scalar, internal, address, alicePoint, hrp);
  }

  /**
   * Everything recorded is right, in every run from a scalar that belongs to the point, as long as the strides have not
   * added up to a multiple of the order and the other workers record what is right.
   */
  lemma {:induction false} LogIsRight<P(!new)>(c: Curve<P>, split: bool, hrp: string, pattern: string, stride: nat,
      scalar: nat, internal: P,
      others: seq<seq<Record<P>>>, alicePoint: P)
    requires IsCurve(c) && 0 < scalar < c.order
    requires InStep(c, internal, alicePoint, scalar, 0) && (!split ==> alicePoint == c.zero)
    requires forall i :: 1 <= i < |others| ==> Unreduced(scalar, stride, i) % c.order != 0
    requires forall i :: 0 <= i < |others| ==> AllRight(c, alicePoint, hrp, others[i])
    ensures AllRight(c, alicePoint, hrp, Log(c, split, hrp, pattern, stride, scalar, internal, others))
    decreases |others|
  {
    hide IsCurve, Mul, InStep, Right, OutputAddress, Steps, Walk, Skips, Unreduced;
    if others != [] {
      var n := |others| - 1;
      LogIsRight(c, split, hrp, pattern, stride, scalar, internal, others[..n], alicePoint);
      var s, p := Steps(scalar, c.order, stride, n), Walk(c, internal, stride, n);
      StepsInRange(scalar, c.order, stride, n);
      NoSkips(scalar, c.order, stride, n);
      LoopHead(c, internal, alicePoint, scalar, 0, stride, n);
      SmallMod(0, c.order);
      if OutputAddress(c, p, hrp).Some? {
        MatchIsRight(c, split, s, p, OutputAddress(c, p, hrp).value, alicePoint, hrp);
      }
    }
  }

  /** What the other workers record in the meantime, as far as there is room. */
  method Interfere<P(==,!new)>(ctx: SearchContext<P>, records: seq<Record<P>>)
    requires ctx.Valid()
    modifies ctx
    ensures ctx.Valid() && ctx.stop == (old(ctx.stop) || 0 < ctx.target == ctx.found)
    ensures ctx.printed == Clip(old(ctx.printed) + records, ctx.target)
  {
    var n := if |records| <= ctx.target - ctx.found then |records| else ctx.target - ctx.found;
    ctx.printed := ctx.printed + records[..n];
    ctx.found := ctx.found + n;
    if 0 < ctx.target == ctx.found {
      ctx.stop := true;
    }
  }

  /**
   * Where a worker starts: from the base of the split search, or from a random scalar; skipped counts the zeros stepped
   * over.
   */
  method StartWorker<P(==,!new)>(c: Curve<P>, split: bool, tid: nat, baseScalar: nat, baseInternal: P, random: nat,
      ghost alicePoint: P)
    returns (scalar: nat, internal: P, ghost skipped: nat)
    requires IsCurve(c) && 0 < random < c.order && 0 < baseScalar < c.order
    requires baseInternal == c.add(alicePoint, Mul(c, baseScalar, c.g)) && (!split ==> alicePoint == c.zero)
    ensures 0 < scalar < c.order && InStep(c, internal, alicePoint, scalar, skipped)
    ensures scalar == Increment(if split then baseScalar else random, c.order, tid)
    ensures skipped == if split && (baseScalar + tid) % c.order == 0 then 1 else 0
  {
    hide IsCurve, Mul, Increment, InStep;
    GeneratorOrder(c);
    skipped := 0;
    if split {
      scalar := IncrementScalar(baseScalar, c.order, tid);
      IncrementInRange(baseScalar, c.order, tid);
      internal := baseInternal;
      StartsInStep(c, alicePoint, baseScalar);
      StepTogether(c, internal, alicePoint, baseScalar, 0, tid);
      skipped := if (baseScalar + tid) % c.order == 0 then 1 else 0;
      if tid > 0 {
        internal := c.add(internal, Mul(c, tid, c.g));
      } else {
        MulNone(c, internal);
      }
    } else {
      scalar := IncrementScalar(random, c.order, tid);
      IncrementInRange(random, c.order, tid);
      internal := Mul(c, scalar, c.g);
      Neutral(c, internal);
      StartsInStep(c, alicePoint, scalar);
    }
  }

  lemma MulNone<P(!new)>(c: Curve<P>, p: P)
    requires IsCurve(c)
    ensures c.add(p, Mul(c, 0, c.g)) == p
  {
    Neutral(c, p);
  }

  /** What worker_loop does with one point. */
  method TryPoint<P(==,!new)>(c: Curve<P>, ctx: SearchContext<P>, hrp: string, pattern: string, scalar: nat,
      internal: P)
    requires ctx.Valid() && scalar < c.order && (ctx.stop ==> ctx.found == ctx.target)
    modifies ctx
    ensures ctx.Valid() && ctx.stop == (old(ctx.stop) || 0 < ctx.target == ctx.found)
    ensures ctx.printed == Clip(old(ctx.printed) + Matches(c, ctx.split, hrp, pattern, scalar, internal), ctx.target)
  {
    hide OutputAddress, RecordOf, Clip;
    ClipOne(ctx.printed, Matches(c, ctx.split, hrp, pattern, scalar, internal), ctx.target);
    var address := OutputAddress(c, internal, hrp);
    if address.Some? && StartsWith(address.value, pattern) {
      ctx.MaybeRecord(c, scalar, internal, address.value);
    }
  }

  /**
   * worker_loop, for at most as many rounds as there are entries in others: what the other workers record before each
   * round. Printed is what all record, in order and up to the target; a worker ends early only when that is reached.
   */
  method Worker<P(==,!new)>(c: Curve<P>, ctx: SearchContext<P>, hrp: string, pattern: string, stride: nat, scalar0: nat,
      internal0: P,
      others: seq<seq<Record<P>>>)
    returns (scalar: nat, internal: P, round: nat)
    requires ctx.Valid() && 1 < c.order && 0 < scalar0 < c.order
    modifies ctx
    ensures ctx.Valid() && round <= |others| && (round < |others| ==> ctx.stop)
    ensures scalar == Steps(scalar0, c.order, stride, round) && internal == Walk(c, internal0, stride, round)
    ensures ctx.printed ==
      if old(ctx.stop) then old(ctx.printed)
      else Clip(old(ctx.printed) + Log(c, ctx.split, hrp, pattern, stride, scalar0, internal0, others), ctx.target)
  {
    hide Mul, Increment, Matches, Log, Clip;
    scalar, internal, round := scalar0, internal0, 0;
    if ctx.stop {
      return;
    }
    ghost var before := ctx.printed;
    LogStarts(c, ctx.split, hrp, pattern, stride, scalar0, internal0, others, before, ctx.target);
    var stride_point := Mul(c, stride, c.g);
    while round < |others| && !ctx.stop
      invariant round <= |others| && ctx.Valid() && (ctx.stop ==> ctx.found == ctx.target)
      invariant scalar == Steps(scalar0, c.order, stride, round) && internal == Walk(c, internal0, stride, round)
      invariant ctx.printed ==
        Clip(before + Log(c, ctx.split, hrp, pattern, stride, scalar0, internal0, others[..round]), ctx.target)
    {
      ghost var sofar := before + Log(c, ctx.split, hrp, pattern, stride, scalar0, internal0, others[..round]);
      StepsInRange(scalar0, c.order, stride, round);
      Interfere(ctx, others[round]);
      ClipMore(sofar, others[round], ctx.target);
      ghost var found := Matches(c, ctx.split, hrp, pattern, scalar, internal);
      TryPoint(c, ctx, hrp, pattern, scalar, internal);
      ClipMore(sofar + others[round], found, ctx.target);
      LogNext(c, ctx.split, hrp, pattern, stride, scalar0, internal0, others, round);
      assert sofar + others[round] + found ==
        before + Log(c, ctx.split, hrp, pattern, stride, scalar0, internal0, others[..round + 1]);
      if ctx.stop {
        ClipLog(c, ctx.split, hrp, pattern, stride, scalar0, internal0, others, round + 1, before, ctx.target);
        return;
      }
      scalar := IncrementScalar(scalar, c.order, stride);
      internal := c.add(internal, stride_point);
      round := round + 1;
    }
    assert others[..|others|] == others;
    if round < |others| {
      ClipLog(c, ctx.split, hrp, pattern, stride, scalar0, internal0, others, round, before, ctx.target);
    }
  }

  lemma LogStarts<P>(c: Curve<P>, split: bool, hrp: string, pattern: string, stride: nat, scalar: nat, internal: P,
      others: seq<seq<Record<P>>>, before: seq<Record<P>>, target: nat)
    requires 0 < scalar < c.order && |before| <= target
    ensures Clip(before + Log(c, split, hrp, pattern, stride, scalar, internal, others[..0]), target) == before
  {
  }

  lemma LogNext<P>(c: Curve<P>, split: bool, hrp: string, pattern: string, stride: nat, scalar: nat, internal: P,
      others: seq<seq<Record<P>>>, i: nat)
    requires 0 < scalar < c.order && i < |others|
    ensures Steps(scalar, c.order, stride, i) < c.order
    ensures Log(c, split, hrp, pattern, stride, scalar, internal, others[..i + 1]) ==
      Log(c, split, hrp, pattern, stride, scalar, internal, others[..i]) + others[i]
      + Matches(c, split, hrp, pattern, Steps(scalar, c.order, stride, i), Walk(c, internal, stride, i))
  {
    hide Matches, Steps, Walk;
    StepsInRange(scalar, c.order, stride, i);
    assert others[..i + 1][..i] == others[..i];
  }

  /** Once the target is reached, further rounds add nothing. */
  lemma ClipLog<P>(c: Curve<P>, split: bool, hrp: string, pattern: string, stride: nat, scalar: nat, internal: P,
      others: seq<seq<Record<P>>>, i: nat, before: seq<Record<P>>, target: nat)
    requires 0 < scalar < c.order && i <= |others|
    requires |Clip(before + Log(c, split, hrp, pattern, stride, scalar, internal, others[..i]), target)| == target
    ensures Clip(before + Log(c, split, hrp, pattern, stride, scalar, internal, others[..i]), target) ==
      Clip(before + Log(c, split, hrp, pattern, stride, scalar, internal, others), target)
  {
    hide Log, Clip;
    LogGrows(c, split, hrp, pattern, stride, scalar, internal, others, i);
    var part := Log(c, split, hrp, pattern, stride, scalar, internal, others[..i]);
    var all := Log(c, split, hrp, pattern, stride, scalar, internal, others);
    ClipMore(before + part, all[|part|..], target);
    assert before + part + all[|part|..] == before + all;
  }

  // ---- The scalars of different workers

  /** The scalar of worker tid in some round. */
  function ScalarAt(base: nat, order: nat, tid: nat, stride: nat, round: nat): nat
    requires order > 0
  {
    Steps(Increment(base, order, tid), order, stride, round)
  }

  /** Before it wraps around, nothing is stepped over. */
  lemma {:induction false} BeforeWrap(base: nat, order: nat, tid: nat, stride: nat, round: nat)
    requires 0 < base && base + tid + round * stride < order
    ensures ScalarAt(base, order, tid, stride, round) == base + tid + round * stride
    ensures Skips(Increment(base, order, tid), order, stride, round) == 0
  {
    hide Steps, Skips;
    OneMoreStep(Increment(base, order, tid), order, stride, round);
    if round == 0 {
      SmallMod(base + tid, order);
    } else {
      OneMoreStride(base + tid, stride, round);
      BeforeWrap(base, order, tid, stride, round - 1);
      SmallMod(base + tid + round * stride, order);
    }
  }

  /** Different workers of a split search do not try the same scalar before one of them wraps around. */
  lemma WorkersDisjoint(base: nat, order: nat, stride: nat, s: nat, i: nat, t: nat, j: nat)
    requires 0 < base && s < t < stride && base + s + i * stride < order && base + t + j * stride < order
    ensures ScalarAt(base, order, s, stride, i) != ScalarAt(base, order, t, stride, j)
  {
    BeforeWrap(base, order, s, stride, i);
    BeforeWrap(base, order, t, stride, j);
    assert (i - j) * stride == i * stride - j * stride;
    MultipleIsLarge(i - j, stride);
  }

  /** Alice's key and the part that Bob found give the address that was printed with it. */
  lemma PartCombines<P(!new)>(c: Curve<P>, alice: nat, r: Record<P>, hrp: string)
    requires IsCurve(c) && r.Part? && Right(c, Mul(c, alice, c.g), hrp, r)
    ensures c.order > 0 && (alice + r.scalar) % c.order != 0
    ensures OutputAddress(c, Mul(c, (alice + r.scalar) % c.order, c.g), hrp) == Some(r.address)
  {
    hide IsCurve, Address, OutputPoint;
    PartsAdd(c, alice, r.scalar);
  }
}
