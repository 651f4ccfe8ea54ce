/** The 16-bit frame check sequence (Appendix C.2 of RFC 1662), computed bit by bit, and the
    errors it detects. */
module Fcs16 {
  import opened Octets
  import opened Folds

  const INITIAL: bv16 := 0xffff
  const GOOD: bv16 := 0xf0b8
  const POLYNOMIAL_REVERSED: bv16 := 0x8408

  /** Octets as bit vectors, counted up one by one. */
  function ToBits(o: Octet): bv8 { if o == 0 then 0 else ToBits(o - 1) + 1 }

  function FromBits(b: bv8): Octet { b as int }

  lemma NextBits(b: bv8)
    requires b != 0xff
    ensures FromBits(b + 1) == FromBits(b) + 1
  {
  }

  lemma {:induction false} OctetRoundTrip(o: Octet)
    ensures FromBits(ToBits(o)) == o
  {
    if o > 0 {
      OctetRoundTrip(o - 1);
      assert FromBits(0xff) == 255;
      NextBits(ToBits(o - 1));
    }
  }

  lemma SameNumber(a: bv8, b: bv8)
    requires FromBits(a) == FromBits(b)
    ensures a == b
  {
  }

  lemma BitsRoundTrip(b: bv8)
    ensures ToBits(FromBits(b)) == b
  {
    OctetRoundTrip(FromBits(b));
    SameNumber(ToBits(FromBits(b)), b);
  }

  function Shift(fcs: bv16): bv16 {
    if fcs & 1 != 0 then (fcs >> 1) ^ POLYNOMIAL_REVERSED else fcs >> 1
  }

  function Mix(fcs: bv16, b: bv8): bv16 { fcs ^ (b as bv16) }

  /** One octet: mixed into the low bits, then shifted out. */
  function Update(fcs: bv16, octet: Octet): bv16 { Iterate(Shift, Mix(fcs, ToBits(octet)), 8) }

  /** The loop over the eight bits of an octet. */
  method UpdateFcs16(fcs: bv16, octet: Octet) returns (r: bv16)
    ensures r == Update(fcs, octet)
  {
    ghost var mixed := Mix(fcs, ToBits(octet));
    r := Mix(fcs, ToBits(octet));
    for n := 0 to 8
      invariant r == Iterate(Shift, mixed, n)
    {
      r := if r & 1 != 0 then (r >> 1) ^ POLYNOMIAL_REVERSED else r >> 1;
    }
  }

  function Fcs(octets: Bytes): bv16 { Fold(Update, INITIAL, octets) }

  predicate Valid(octets: Bytes) { Fcs(octets) == GOOD }

  function LowBits(w: bv16): bv8 { (w & 0xff) as bv8 }

  function HighBits(w: bv16): bv8 { (w >> 8) as bv8 }

  /** The complement of a register as octets, low one first. */
  function Complement(fcs: bv16): (octets: Bytes)
    ensures |octets| == 2
  {
    [FromBits(LowBits(fcs ^ 0xffff)), FromBits(HighBits(fcs ^ 0xffff))]
  }

  /** The two octets transmitted behind a frame. */
  function Trailer(frame: Bytes): Bytes { Complement(Fcs(frame)) }

  function Append(frame: Bytes): Bytes { frame + Trailer(frame) }

  // ----- Appending the sequence makes a frame good -----

  function Shift8(x: bv16): bv16 { Shift(Shift(Shift(Shift(Shift(Shift(Shift(Shift(x)))))))) }

  lemma {:induction false} IterateMore(x: bv16, n: nat)
    ensures Iterate(Shift, x, n + 1) == Shift(Iterate(Shift, x, n))
  {
  }

  lemma EightShifts(x: bv16)
    ensures Iterate(Shift, x, 8) == Shift8(x)
  {
    assert Iterate(Shift, x, 0) == x;
    IterateMore(x, 0);
    IterateMore(x, 1);
    IterateMore(x, 2);
    IterateMore(x, 3);
    IterateMore(x, 4);
    IterateMore(x, 5);
    IterateMore(x, 6);
    IterateMore(x, 7);
  }

  lemma GoodBits(f: bv16)
    ensures Shift8(Mix(Shift8(Mix(f, LowBits(f ^ 0xffff))), HighBits(f ^ 0xffff))) == GOOD
  {
  }

  lemma GoodOctets(f: bv16, low: Octet, high: Octet)
    requires ToBits(low) == LowBits(f ^ 0xffff) && ToBits(high) == HighBits(f ^ 0xffff)
    ensures Update(Update(f, low), high) == GOOD
  {
    EightShifts(Mix(f, ToBits(low)));
    EightShifts(Mix(Update(f, low), ToBits(high)));
    GoodBits(f);
  }

  lemma ComplementIsGood(f: bv16)
    ensures Update(Update(f, Complement(f)[0]), Complement(f)[1]) == GOOD
  {
    BitsRoundTrip(LowBits(f ^ 0xffff));
    BitsRoundTrip(HighBits(f ^ 0xffff));
    GoodOctets(f, Complement(f)[0], Complement(f)[1]);
  }

  lemma FoldPair(f: bv16, pair: Bytes)
    requires |pair| == 2
    ensures Fold(Update, f, pair) == Update(Update(f, pair[0]), pair[1])
  {
    assert pair == [pair[0], pair[1]];
    FoldTwo(Update, f, pair[0], pair[1]);
  }

  /** Every frame, the empty one included, is good with its own check sequence behind it. */
  lemma AppendedFcsIsGood(frame: Bytes)
    ensures Valid(Append(frame))
  {
    FoldAppend(Update, INITIAL, frame, Trailer(frame));
    FoldPair(Fcs(frame), Trailer(frame));
    ComplementIsGood(Fcs(frame));
  }

  // ----- Linearity: which errors go unnoticed -----

  function Xor(x: bv16, y: bv16): bv16 { x ^ y }

  function XorOctets(a: Octet, b: Octet): Octet { FromBits(ToBits(a) ^ ToBits(b)) }

  function Difference(a: Bytes, b: Bytes): Bytes
    requires |a| == |b|
  {
    Combine(XorOctets, a, b)
  }

  lemma BothOdd(x: bv16, y: bv16)
    requires x & 1 != 0 && y & 1 != 0
    ensures (x ^ y) & 1 == 0 && (x ^ y) >> 1 == ((x >> 1) ^ 0x8408) ^ ((y >> 1) ^ 0x8408)
  {
  }

  lemma NeitherOdd(x: bv16, y: bv16)
    requires x & 1 == 0 && y & 1 == 0
    ensures (x ^ y) & 1 == 0 && (x ^ y) >> 1 == (x >> 1) ^ (y >> 1)
  {
  }

  lemma ShiftOfBothOdd(x: bv16, y: bv16)
    requires x & 1 != 0 && y & 1 != 0
    ensures Shift(Xor(x, y)) == Xor(Shift(x), Shift(y))
  {
    BothOdd(x, y);
  }

  lemma XorCommutes(x: bv16, y: bv16)
    ensures Xor(x, y) == Xor(y, x)
  {
  }

  lemma ShiftOfSecondOdd(x: bv16, y: bv16)
    requires x & 1 == 0 && y & 1 != 0
    ensures Shift(Xor(x, y)) == Xor(Shift(x), Shift(y))
  {
  }

  lemma ShiftOfNeitherOdd(x: bv16, y: bv16)
    requires x & 1 == 0 && y & 1 == 0
    ensures Shift(Xor(x, y)) == Xor(Shift(x), Shift(y))
  {
    NeitherOdd(x, y);
  }

  lemma ShiftIsAdditiveWhenEven(x: bv16, y: bv16)
    requires x & 1 == 0
    ensures Shift(Xor(x, y)) == Xor(Shift(x), Shift(y))
  {
    if y & 1 != 0 { ShiftOfSecondOdd(x, y); } else { ShiftOfNeitherOdd(x, y); }
  }

  lemma ShiftsAreAdditive(x: bv16, y: bv16)
    ensures Iterate(Shift, Xor(x, y), 8) == Xor(Iterate(Shift, x, 8), Iterate(Shift, y, 8))
  {
    assert Additive(Shift, Xor) by {
      forall x, y ensures Shift(Xor(x, y)) == Xor(Shift(x), Shift(y)) {
        if x & 1 == 0 { ShiftIsAdditiveWhenEven(x, y); }
        else if y & 1 != 0 { ShiftOfBothOdd(x, y); }
        else { ShiftIsAdditiveWhenEven(y, x); XorCommutes(x, y); XorCommutes(Shift(x), Shift(y)); }
      }
    }
    IterateAdditive(Shift, Xor, x, y, 8);
  }

  lemma MixIsAdditive(f: bv16, g: bv16, a: bv8, b: bv8)
    ensures Mix(Xor(f, g), a ^ b) == Xor(Mix(f, a), Mix(g, b))
  {
  }

  lemma UpdateIsAdditive(f: bv16, g: bv16, a: Octet, b: Octet)
    ensures Update(Xor(f, g), XorOctets(a, b)) == Xor(Update(f, a), Update(g, b))
  {
    MixOctetsIsAdditive(f, g, a, b);
    ShiftsAreAdditive(Mix(f, ToBits(a)), Mix(g, ToBits(b)));
  }

  lemma XorOfBits(a: Octet, b: Octet)
    ensures ToBits(XorOctets(a, b)) == ToBits(a) ^ ToBits(b)
  {
    BitsRoundTrip(ToBits(a) ^ ToBits(b));
  }

  lemma MixOctetsIsAdditive(f: bv16, g: bv16, a: Octet, b: Octet)
    ensures Mix(Xor(f, g), ToBits(XorOctets(a, b))) == Xor(Mix(f, ToBits(a)), Mix(g, ToBits(b)))
  {
    XorOfBits(a, b);
    MixIsAdditive(f, g, ToBits(a), ToBits(b));
  }

  lemma XorIsZero(x: bv16, y: bv16)
    ensures Xor(x, y) == 0 <==> x == y
  {
  }

  /** A changed sequence of the same length passes exactly when the change alone, folded from zero,
      leaves no residue. */
  lemma ResidueDecides(sent: Bytes, received: Bytes)
    requires |sent| == |received| && Valid(sent)
    ensures Valid(received) <==> Fold(Update, 0, Difference(sent, received)) == 0
  {
    assert AdditiveUpdate(Update, Xor, XorOctets) by {
      forall f, g, a, b ensures Update(Xor(f, g), XorOctets(a, b)) == Xor(Update(f, a), Update(g, b)) {
        UpdateIsAdditive(f, g, a, b);
      }
    }
    FoldAdditive(Update, Xor, XorOctets, INITIAL, INITIAL, sent, received);
    XorIsZero(INITIAL, INITIAL);
    XorIsZero(Fcs(sent), Fcs(received));
  }

  // ----- Invertibility: errors in one octet or two neighbours -----

  function Unshift(fcs: bv16): bv16 {
    if fcs & 0x8000 != 0 then ((fcs ^ POLYNOMIAL_REVERSED) << 1) | 1 else fcs << 1
  }

  lemma UnshiftUndoes(fcs: bv16)
    ensures Unshift(Shift(fcs)) == fcs
  {
  }

  lemma ShiftsAreInjective(x: bv16, y: bv16)
    requires x != y
    ensures Iterate(Shift, x, 8) != Iterate(Shift, y, 8)
  {
    assert Injective(Shift) by {
      forall a, b | a != b ensures Shift(a) != Shift(b) { UnshiftUndoes(a); UnshiftUndoes(b); }
    }
    IterateInjective(Shift, x, y, 8);
  }

  lemma MixKeepsRegisters(f: bv16, g: bv16, a: bv8)
    requires f != g
    ensures Mix(f, a) != Mix(g, a)
  {
  }

  lemma MixKeepsOctets(f: bv16, a: bv8, b: bv8)
    requires a != b
    ensures Mix(f, a) != Mix(f, b)
  {
  }

  lemma UpdateIsInjective(f: bv16, g: bv16, octet: Octet)
    requires f != g
    ensures Update(f, octet) != Update(g, octet)
  {
    MixKeepsRegisters(f, g, ToBits(octet));
    ShiftsAreInjective(Mix(f, ToBits(octet)), Mix(g, ToBits(octet)));
  }

  lemma SuffixKeepsDifference(f: bv16, g: bv16, octets: Bytes)
    requires f != g
    ensures Fold(Update, f, octets) != Fold(Update, g, octets)
  {
    assert InjectiveUpdate(Update) by {
      forall x, y, o | x != y ensures Update(x, o) != Update(y, o) { UpdateIsInjective(x, y, o); }
    }
    FoldInjective(Update, f, g, octets);
  }

  /** A change of one octet reaches the high half of the register, where the next octet cannot undo it. */
  lemma ChangeReachesHighHalf(e: bv8)
    requires e != 0
    ensures Shift8(e as bv16) & 0xff00 != 0
  {
  }

  lemma OctetCannotReachHighHalf(x: bv16, y: bv16, b: bv8, d: bv8)
    requires Xor(x, y) & 0xff00 != 0
    ensures Mix(x, b) != Mix(y, d)
  {
  }

  lemma MixDifference(f: bv16, a: bv8, c: bv8)
    ensures Xor(Mix(f, a), Mix(f, c)) == (a ^ c) as bv16
  {
  }

  lemma FirstOctetReachesHighHalf(f: bv16, a: Octet, c: Octet)
    requires ToBits(a) != ToBits(c)
    ensures Xor(Update(f, a), Update(f, c)) & 0xff00 != 0
  {
    ShiftsAreAdditive(Mix(f, ToBits(a)), Mix(f, ToBits(c)));
    ShiftedDifference(f, ToBits(a), ToBits(c));
  }

  lemma ShiftedDifference(f: bv16, a: bv8, c: bv8)
    requires a != c
    ensures Iterate(Shift, Xor(Mix(f, a), Mix(f, c)), 8) & 0xff00 != 0
  {
    MixDifference(f, a, c);
    ByteXorIsZero(a, c);
    EightShifts((a ^ c) as bv16);
    ChangeReachesHighHalf(a ^ c);
  }

  lemma ByteXorIsZero(a: bv8, b: bv8)
    ensures a ^ b == 0 <==> a == b
  {
  }

  lemma MixesDiffer(f: bv16, a: Octet, b: Octet, c: Octet, d: Octet)
    requires a != c || b != d
    ensures Mix(Update(f, a), ToBits(b)) != Mix(Update(f, c), ToBits(d))
  {
    if a == c {
      OctetRoundTrip(b);
      OctetRoundTrip(d);
      MixKeepsOctets(Update(f, a), ToBits(b), ToBits(d));
    } else {
      OctetRoundTrip(a);
      OctetRoundTrip(c);
      FirstOctetReachesHighHalf(f, a, c);
      OctetCannotReachHighHalf(Update(f, a), Update(f, c), ToBits(b), ToBits(d));
    }
  }

  lemma PairsDiffer(f: bv16, a: Octet, b: Octet, c: Octet, d: Octet)
    requires a != c || b != d
    ensures Update(Update(f, a), b) != Update(Update(f, c), d)
  {
    MixesDiffer(f, a, b, c, d);
    ShiftsAreInjective(Mix(Update(f, a), ToBits(b)), Mix(Update(f, c), ToBits(d)));
  }

  /** Changing two neighbouring octets in any way always spoils a good sequence. */
  lemma AdjacentErrorsAreDetected(before: Bytes, a: Octet, b: Octet, c: Octet, d: Octet, behind: Bytes)
    requires Valid(before + [a, b] + behind) && (a != c || b != d)
    ensures !Valid(before + [c, d] + behind)
  {
    FoldAppend(Update, INITIAL, before + [a, b], behind);
    FoldAppend(Update, INITIAL, before + [c, d], behind);
    FoldAppend(Update, INITIAL, before, [a, b]);
    FoldAppend(Update, INITIAL, before, [c, d]);
    FoldTwo(Update, Fcs(before), a, b);
    FoldTwo(Update, Fcs(before), c, d);
    PairsDiffer(Fcs(before), a, b, c, d);
    SuffixKeepsDifference(Fcs(before + [a, b]), Fcs(before + [c, d]), behind);
  }

  /** So does changing one octet. */
  lemma SingleErrorIsDetected(before: Bytes, a: Octet, c: Octet, behind: Bytes)
    requires Valid(before + [a] + behind) && a != c
    ensures !Valid(before + [c] + behind)
  {
    FoldAppend(Update, INITIAL, before + [a], behind);
    FoldAppend(Update, INITIAL, before + [c], behind);
    FoldAppend(Update, INITIAL, before, [a]);
    FoldAppend(Update, INITIAL, before, [c]);
    FoldOne(Update, Fcs(before), a);
    FoldOne(Update, Fcs(before), c);
    OctetRoundTrip(a);
    OctetRoundTrip(c);
    MixKeepsOctets(Fcs(before), ToBits(a), ToBits(c));
    ShiftsAreInjective(Mix(Fcs(before), ToBits(a)), Mix(Fcs(before), ToBits(c)));
    SuffixKeepsDifference(Fcs(before + [a]), Fcs(before + [c]), behind);
  }
}
