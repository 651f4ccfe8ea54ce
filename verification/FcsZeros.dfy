/** What the check sequence is: known answers, and how many octets of zero in front of a frame it does not see. */
module FcsZeros {
  import opened Octets
  import opened Folds
  import opened Fcs16

  // ----- Known answers -----

  lemma UpdateIs(f: bv16, o: Octet, b: bv8, g: bv16)
    requires FromBits(b) == o && Shift8(Mix(f, b)) == g
    ensures Update(f, o) == g
  {
    BitsRoundTrip(b);
    EightShifts(Mix(f, b));
  }

  lemma FoldNext(f: bv16, front: Bytes, o: Octet)
    ensures Fold(Update, f, front + [o]) == Update(Fold(Update, f, front), o)
  {
    FoldAppend(Update, f, front, [o]);
    FoldOne(Update, Fold(Update, f, front), o);
  }

  /** The empty Configure-Request behind its address, control and protocol octets. */
  const EMPTY_REQUEST: Bytes := [0xff, 0x03, 0xc0, 0x21, 0x01, 0x01, 0x00, 0x04]

  lemma AddressUpdates()
    ensures Update(0xffff, 0xff) == 0x00ff && Update(0x00ff, 0x03) == 0x3de3
    ensures Update(0x3de3, 0xc0) == 0x13a4 && Update(0x13a4, 0x21) == 0xd3b6
  {
    UpdateIs(0xffff, 0xff, 0xff, 0x00ff);
    UpdateIs(0x00ff, 0x03, 0x03, 0x3de3);
    UpdateIs(0x3de3, 0xc0, 0xc0, 0x13a4);
    UpdateIs(0x13a4, 0x21, 0x21, 0xd3b6);
  }

  lemma PacketUpdates()
    ensures Update(0xd3b6, 0x01) == 0xc1e7 && Update(0xc1e7, 0x01) == 0x82f9
    ensures Update(0x82f9, 0x00) == 0x6acc && Update(0x6acc, 0x04) == 0x4a2e
  {
    UpdateIs(0xd3b6, 0x01, 0x01, 0xc1e7);
    UpdateIs(0xc1e7, 0x01, 0x01, 0x82f9);
    UpdateIs(0x82f9, 0x00, 0x00, 0x6acc);
    UpdateIs(0x6acc, 0x04, 0x04, 0x4a2e);
  }

  lemma FoldFour(f: bv16, a: Octet, b: Octet, c: Octet, d: Octet)
    ensures Fold(Update, f, [a, b, c, d]) == Update(Update(Update(Update(f, a), b), c), d)
  {
    FoldTwo(Update, f, a, b);
    FoldTwo(Update, Fold(Update, f, [a, b]), c, d);
    FoldAppend(Update, f, [a, b], [c, d]);
    assert [a, b] + [c, d] == [a, b, c, d];
  }

  lemma RequestRegister(a: Bytes, b: Bytes)
    requires a == [0xff, 0x03, 0xc0, 0x21] && b == [0x01, 0x01, 0x00, 0x04]
    ensures Fcs(a + b) == 0x4a2e
  {
    FoldFour(INITIAL, 0xff, 0x03, 0xc0, 0x21);
    FoldFour(Fcs(a), 0x01, 0x01, 0x00, 0x04);
    FoldAppend(Update, INITIAL, a, b);
    AddressUpdates();
    PacketUpdates();
  }

  lemma RequestComplement()
    ensures Complement(0x4a2e) == [0xd1, 0xb5]
  {
    assert LowBits(0x4a2e ^ 0xffff) == 0xd1 && HighBits(0x4a2e ^ 0xffff) == 0xb5;
    assert FromBits(0xd1) == 0xd1 && FromBits(0xb5) == 0xb5;
  }

  /** The trailer of that frame; it fixes start value, polynomial, complement and order. */
  lemma RequestTrailer()
    ensures Append(EMPTY_REQUEST) == [0xff, 0x03, 0xc0, 0x21, 0x01, 0x01, 0x00, 0x04, 0xd1, 0xb5]
  {
    RequestRegister([0xff, 0x03, 0xc0, 0x21], [0x01, 0x01, 0x00, 0x04]);
    RequestComplement();
    assert EMPTY_REQUEST == [0xff, 0x03, 0xc0, 0x21] + [0x01, 0x01, 0x00, 0x04];
  }

  // ----- Registers as polynomials: shifting multiplies by x -----

  /** The polynomial one, reflected as the register is. */
  const ONE: bv16 := 0x8000

  function Carry(w: bv16, x: bv16, mask: bv16, r: bv16): bv16 { Xor(if w & mask != 0 then x else 0, Shift(r)) }

  /** Eight coefficients of w, the highest power first, times x. */
  function Eight(w: bv16, x: bv16, r: bv16): bv16 {
    Carry(w, x, 0x80, Carry(w, x, 0x40, Carry(w, x, 0x20, Carry(w, x, 0x10,
    Carry(w, x, 0x08, Carry(w, x, 0x04, Carry(w, x, 0x02, Carry(w, x, 0x01, r))))))))
  }

  function Product(w: bv16, x: bv16): bv16 { Eight(w >> 8, x, Eight(w, x, 0)) }

  function Power(k: nat): bv16 { Iterate(Shift, ONE, k) }

  lemma TopBit(v: bv16)
    ensures v & 0x8000 != 0 ==> Xor(0x8000, v & 0x7fff) == v
    ensures v & 0x8000 == 0 ==> Xor(0, v & 0x7fff) == v
  {
  }

  lemma UnitCarry(w: bv16, mask: bv16, r: bv16, v: bv16)
    requires Shift(r) == v & 0x7fff && (w & mask != 0 <==> v & 0x8000 != 0)
    ensures Carry(w, ONE, mask, r) == v
  {
    TopBit(v);
  }

  lemma LowUnit(w: bv16)
    ensures Eight(w, ONE, 0) == w << 8
  {
    UnitCarry(w, 0x01, 0, w << 15);
    UnitCarry(w, 0x02, w << 15, w << 14);
    UnitCarry(w, 0x04, w << 14, w << 13);
    UnitCarry(w, 0x08, w << 13, w << 12);
    UnitCarry(w, 0x10, w << 12, w << 11);
    UnitCarry(w, 0x20, w << 11, w << 10);
    UnitCarry(w, 0x40, w << 10, w << 9);
    UnitCarry(w, 0x80, w << 9, w << 8);
  }

  lemma HighUnit(w: bv16)
    ensures Eight(w >> 8, ONE, w << 8) == w
  {
    UnitCarry(w >> 8, 0x01, w << 8, w << 7);
    UnitCarry(w >> 8, 0x02, w << 7, w << 6);
    UnitCarry(w >> 8, 0x04, w << 6, w << 5);
    UnitCarry(w >> 8, 0x08, w << 5, w << 4);
    UnitCarry(w >> 8, 0x10, w << 4, w << 3);
    UnitCarry(w >> 8, 0x20, w << 3, w << 2);
    UnitCarry(w >> 8, 0x40, w << 2, w << 1);
    UnitCarry(w >> 8, 0x80, w << 1, w);
  }

  /** Times one is the polynomial itself. */
  lemma ProductWithOne(w: bv16)
    ensures Product(w, ONE) == w
  {
    LowUnit(w);
    HighUnit(w);
  }

  lemma CarryShifts(w: bv16, x: bv16, mask: bv16, r: bv16)
    ensures Shift(Carry(w, x, mask, r)) == Carry(w, Shift(x), mask, Shift(r))
  {
    var (y, s) := (if w & mask != 0 then x else 0, Shift(r));
    if y & 1 == 0 {
      ShiftIsAdditiveWhenEven(y, s);
    } else if s & 1 != 0 {
      ShiftOfBothOdd(y, s);
    } else {
      ShiftIsAdditiveWhenEven(s, y);
      XorCommutes(y, s);
      XorCommutes(Shift(y), Shift(s));
    }
  }

  lemma EightShiftsOver(w: bv16, x: bv16, r: bv16)
    ensures Shift(Eight(w, x, r)) == Eight(w, Shift(x), Shift(r))
  {
    var a := Carry(w, x, 0x01, r);
    var b := Carry(w, x, 0x02, a);
    var c := Carry(w, x, 0x04, b);
    var d := Carry(w, x, 0x08, c);
    var e := Carry(w, x, 0x10, d);
    var f := Carry(w, x, 0x20, e);
    var g := Carry(w, x, 0x40, f);
    CarryShifts(w, x, 0x01, r);
    CarryShifts(w, x, 0x02, a);
    CarryShifts(w, x, 0x04, b);
    CarryShifts(w, x, 0x08, c);
    CarryShifts(w, x, 0x10, d);
    CarryShifts(w, x, 0x20, e);
    CarryShifts(w, x, 0x40, f);
    CarryShifts(w, x, 0x80, g);
  }

  lemma {:induction false} ShiftsPassOver(w: bv16, x: bv16, k: nat)
    ensures Iterate(Shift, Product(w, x), k) == Product(w, Iterate(Shift, x, k))
  {
    if k > 0 {
      ShiftsPassOver(w, x, k - 1);
      ShiftPassesOver(w, Iterate(Shift, x, k - 1));
    }
  }

  lemma ShiftPassesOver(w: bv16, x: bv16)
    ensures Shift(Product(w, x)) == Product(w, Shift(x))
  {
    EightShiftsOver(w, x, 0);
    EightShiftsOver(w >> 8, x, Eight(w, x, 0));
    assert Shift(0) == 0;
  }

  /** So k shifts of any register multiply it by the k-th power of x. */
  lemma ShiftsMultiply(f: bv16, k: nat)
    ensures Iterate(Shift, f, k) == Product(f, Power(k))
  {
    ProductWithOne(f);
    ShiftsPassOver(f, ONE, k);
  }

  lemma PowerOfSum(j: nat, k: nat, u: bv16, v: bv16, w: bv16)
    requires Power(j) == u && Power(k) == v && Product(u, v) == w
    ensures Power(j + k) == w
  {
    IterateAppend(Shift, ONE, j, k);
    ShiftsMultiply(u, k);
  }

  lemma FirstPowers()
    ensures Power(1) == 0x4000 && Power(8) == 0x0080 && Power(16) == 0x8408 && Power(32) == 0x0cec
  {
    IterateOnce(Shift, ONE);
    PowerOfSum(1, 1, 0x4000, 0x4000, 0x2000);
    PowerOfSum(2, 2, 0x2000, 0x2000, 0x0800);
    PowerOfSum(4, 4, 0x0800, 0x0800, 0x0080);
    PowerOfSum(8, 8, 0x0080, 0x0080, 0x8408);
    PowerOfSum(16, 16, 0x8408, 0x8408, 0x0cec);
  }

  lemma MorePowers()
    ensures Power(64) == 0x861d && Power(128) == 0x3f75 && Power(512) == 0x3fc8 && Power(1024) == 0x236c
  {
    FirstPowers();
    PowerOfSum(32, 32, 0x0cec, 0x0cec, 0x861d);
    PowerOfSum(64, 64, 0x861d, 0x861d, 0x3f75);
    PowerOfSum(128, 128, 0x3f75, 0x3f75, 0x9471);
    PowerOfSum(256, 256, 0x9471, 0x9471, 0x3fc8);
    PowerOfSum(512, 512, 0x3fc8, 0x3fc8, 0x236c);
  }

  lemma LargePowers()
    ensures Power(4096) == 0x7955 && Power(32768) == 0x4000
  {
    MorePowers();
    PowerOfSum(1024, 1024, 0x236c, 0x236c, 0x0abf);
    PowerOfSum(2048, 2048, 0x0abf, 0x0abf, 0x7955);
    PowerOfSum(4096, 4096, 0x7955, 0x7955, 0x3811);
    PowerOfSum(8192, 8192, 0x3811, 0x3811, 0x1a22);
    PowerOfSum(16384, 16384, 0x1a22, 0x1a22, 0x4000);
  }

  // ----- How often the initial register comes back -----

  predicate Returns(k: nat) { Iterate(Shift, INITIAL, k) == INITIAL }

  lemma ReturnsOfSum(a: nat, b: nat)
    requires Returns(a)
    ensures Returns(a + b) <==> Returns(b)
  {
    IterateAppend(Shift, INITIAL, a, b);
  }

  lemma {:induction false} ReturnsOfMultiple(m: nat, a: nat)
    requires Returns(a)
    ensures Returns(m * a)
  {
    if m > 0 {
      ReturnsOfMultiple(m - 1, a);
      ReturnsOfSum(a, (m - 1) * a);
      assert a + (m - 1) * a == m * a;
    }
  }

  const PERIOD := 32767

  lemma PeriodReturns()
    ensures Returns(PERIOD)
  {
    FirstPowers();
    LargePowers();
    ShiftsMultiply(INITIAL, PERIOD + 1);
    ShiftsMultiply(INITIAL, 1);
    IterateOnce(Shift, INITIAL);
    UnshiftUndoes(Iterate(Shift, INITIAL, PERIOD));
    UnshiftUndoes(INITIAL);
  }

  lemma NoSeventh()
    ensures !Returns(4681)
  {
    FirstPowers();
    MorePowers();
    LargePowers();
    PowerOfSum(4096, 512, 0x7955, 0x3fc8, 0x052a);
    PowerOfSum(4608, 64, 0x052a, 0x861d, 0x6080);
    PowerOfSum(4672, 8, 0x6080, 0x0080, 0x8468);
    PowerOfSum(4680, 1, 0x8468, 0x4000, 0x4234);
    ShiftsMultiply(INITIAL, 4681);
  }

  lemma NoThirtyFirst()
    ensures !Returns(1057)
  {
    FirstPowers();
    MorePowers();
    PowerOfSum(1024, 32, 0x236c, 0x0cec, 0xe28f);
    PowerOfSum(1056, 1, 0xe28f, 0x4000, 0xf54f);
    ShiftsMultiply(INITIAL, 1057);
  }

  lemma NoLast()
    ensures !Returns(217)
  {
    FirstPowers();
    MorePowers();
    PowerOfSum(128, 64, 0x3f75, 0x861d, 0xd0a6);
    PowerOfSum(192, 16, 0xd0a6, 0x8408, 0x2da2);
    PowerOfSum(208, 8, 0x2da2, 0x0080, 0x8635);
    PowerOfSum(216, 1, 0x8635, 0x4000, 0xc712);
    ShiftsMultiply(INITIAL, 217);
  }

  predicate Prime(p: nat) { forall r | 1 < r < p :: p % r != 0 }

  /** With a prime p, a remainder that returns leads down to one. */
  lemma {:induction false} Descend(q: nat, p: nat, r: nat)
    requires Returns(q * p) && Returns(q * r) && 0 < r < p && Prime(p)
    ensures Returns(q)
    decreases r
  {
    if r > 1 {
      ReturnsOfMultiple(p / r, q * r);
      Split(q, p, r);
      ReturnsOfSum(p / r * (q * r), q * (p % r));
      Descend(q, p, p % r);
    } else {
      assert q * r == q;
    }
  }

  lemma Split(q: nat, n: nat, r: nat)
    requires r > 0
    ensures n / r * (q * r) + q * (n % r) == q * n
  {
    assert n == n / r * r + n % r;
    assert q * (n / r * r + n % r) == q * (n / r * r) + q * (n % r);
    assert n / r * (q * r) == q * (n / r * r);
  }

  lemma PrimeDivides(k: nat, p: nat, q: nat)
    requires Returns(k) && p > 1 && q * p == PERIOD && Prime(p) && !Returns(q)
    ensures k % p == 0
  {
    if k % p != 0 {
      PeriodReturns();
      ReturnsOfMultiple(q, k);
      ReturnsOfMultiple(k / p, PERIOD);
      Split(q, k, p);
      ReturnsOfSum(k / p * PERIOD, q * (k % p));
      Descend(q, p, k % p);
    }
  }

  /** None of the numbers from two to twelve divides 31 or 151. */
  lemma SmallFactor(r: nat, h: nat)
    requires 1 < r <= 12
    ensures r * h != 31 && r * h != 151
  {
    if r == 2 {
      assert r * h == 2 * h;
    } else if r == 3 {
      assert r * h == 3 * h;
    } else if r == 4 {
      assert r * h == 4 * h;
    } else if r == 5 {
      assert r * h == 5 * h;
    } else if r == 6 {
      assert r * h == 6 * h;
    } else if r == 7 {
      assert r * h == 7 * h;
    } else if r == 8 {
      assert r * h == 8 * h;
    } else if r == 9 {
      assert r * h == 9 * h;
    } else if r == 10 {
      assert r * h == 10 * h;
    } else if r == 11 {
      assert r * h == 11 * h;
    } else {
      assert r * h == 12 * h;
    }
  }

  lemma LargeFactors(r: nat, h: nat)
    requires r > 12 && h > 12
    ensures r * h >= 169
  {
    assert r * h >= 13 * h;
  }

  lemma Quotient(p: nat, r: nat)
    requires 1 < r < p && p % r == 0
    ensures p == r * (p / r) && p / r > 1
  {
  }

  lemma NoProduct(r: nat, h: nat)
    requires r > 1 && h > 1
    ensures r * h != 31 && r * h != 151
  {
    if r <= 12 {
      SmallFactor(r, h);
    } else if h <= 12 {
      SmallFactor(h, r);
      assert r * h == h * r;
    } else {
      LargeFactors(r, h);
    }
  }

  lemma NoFactor(p: nat, r: nat)
    requires (p == 31 || p == 151) && 1 < r < p
    ensures p % r != 0
  {
    if p % r == 0 {
      Quotient(p, r);
      NoProduct(r, p / r);
    }
  }

  lemma Primes()
    ensures Prime(7) && Prime(31) && Prime(151)
  {
    forall r | 1 < r < 31 ensures 31 % r != 0 {
      NoFactor(31, r);
    }
    forall r | 1 < r < 151 ensures 151 % r != 0 {
      NoFactor(151, r);
    }
  }

  lemma Common(k: nat, a: int, b: int)
    requires k == 7 * a && k == 31 * b
    ensures k == 217 * (9 * b - 2 * a)
  {
  }

  lemma CommonToAll(k: nat, c: int, e: int)
    requires k == 217 * c && k == 151 * e
    ensures k == PERIOD * (23 * c - 16 * e)
  {
  }

  lemma DividedByAll(k: nat)
    requires k % 7 == 0 && k % 31 == 0 && k % 151 == 0
    ensures k % PERIOD == 0
  {
    var c := 9 * (k / 31) - 2 * (k / 7);
    Common(k, k / 7, k / 31);
    CommonToAll(k, c, k / 151);
    IsMultiple(k, 23 * c - 16 * (k / 151));
  }

  lemma IsMultiple(k: nat, t: int)
    requires k == PERIOD * t
    ensures k % PERIOD == 0
  {
  }

  /** The initial register comes back after 32767 shifts and never between. */
  lemma ReturnsExactly(k: nat)
    ensures Returns(k) <==> k % PERIOD == 0
  {
    if Returns(k) {
      Primes();
      NoSeventh();
      NoThirtyFirst();
      NoLast();
      PrimeDivides(k, 7, 4681);
      PrimeDivides(k, 31, 1057);
      PrimeDivides(k, 151, 217);
      DividedByAll(k);
    } else if k % PERIOD == 0 {
      PeriodReturns();
      ReturnsOfMultiple(k / PERIOD, PERIOD);
    }
  }

  // ----- Zeros in front of a frame -----

  function Zeros(n: nat): Bytes { seq(n, _ => 0) }

  lemma ZeroUpdate(f: bv16)
    ensures Update(f, 0) == Iterate(Shift, f, 8)
  {
    assert ToBits(0) == 0;
    assert Mix(f, 0) == f;
  }

  lemma {:induction false} ZerosShift(n: nat)
    ensures Fold(Update, INITIAL, Zeros(n)) == Iterate(Shift, INITIAL, 8 * n)
  {
    if n > 0 {
      ZerosShift(n - 1);
      assert Zeros(n) == Zeros(n - 1) + [0];
      FoldNext(INITIAL, Zeros(n - 1), 0);
      ZeroUpdate(Fold(Update, INITIAL, Zeros(n - 1)));
      IterateAppend(Shift, INITIAL, 8 * (n - 1), 8);
    } else {
      assert Zeros(0) == [];
    }
  }

  lemma Halves(f: bv16, g: bv16)
    requires LowBits(f ^ 0xffff) == LowBits(g ^ 0xffff) && HighBits(f ^ 0xffff) == HighBits(g ^ 0xffff)
    ensures f == g
  {
  }

  lemma ComplementTells(f: bv16, g: bv16)
    requires Complement(f) == Complement(g)
    ensures f == g
  {
    assert Complement(f)[0] == Complement(g)[0] && Complement(f)[1] == Complement(g)[1];
    SameNumber(LowBits(f ^ 0xffff), LowBits(g ^ 0xffff));
    SameNumber(HighBits(f ^ 0xffff), HighBits(g ^ 0xffff));
    Halves(f, g);
  }

  /** Zeros in front of a frame change its trailer unless there are a multiple of 32767 of them. */
  lemma LeadingZerosAreSeen(n: nat, frame: Bytes)
    ensures Trailer(Zeros(n) + frame) == Trailer(frame) <==> n % PERIOD == 0
  {
    var register := Fold(Update, INITIAL, Zeros(n));
    FoldAppend(Update, INITIAL, Zeros(n), frame);
    ZerosShift(n);
    ReturnsExactly(8 * n);
    EightTimes(n);
    if register != INITIAL {
      SuffixKeepsDifference(register, INITIAL, frame);
      if Trailer(Zeros(n) + frame) == Trailer(frame) {
        ComplementTells(Fcs(Zeros(n) + frame), Fcs(frame));
      }
    }
  }

  lemma EightTimes(n: nat)
    ensures 8 * n % PERIOD == 0 <==> n % PERIOD == 0
  {
    if 8 * n % PERIOD == 0 {
      IsMultiple(n, 4096 * (8 * n / PERIOD) - n);
    }
  }
}
