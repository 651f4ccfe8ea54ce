/** What is put on the wire, octet by octet: the bit escaping flips, the controls a map names, and one frame in full. */
module AsyncWire {
  import opened Octets
  import opened Fcs16
  import opened FcsZeros
  import opened AsyncFraming

  /** Escaping flips the bit of value 32 and no other. */
  lemma ToggleFlipsOneBit(o: Octet)
    ensures Toggle(o) % 32 == o % 32 && Toggle(o) / 64 == o / 64 && Toggle(o) / 32 != o / 32
  {
  }

  // ----- The bits of a map -----

  /** The map that names the controls below n which `accm` names. */
  function Named(accm: Word32, n: nat): nat
    requires n <= 32
  {
    if n == 0 then 0 else Named(accm, n - 1) + if Contains(accm, n - 1) then PowerOfTwo(n - 1) else 0
  }

  lemma NextBit(accm: nat, power: nat)
    requires power > 0
    ensures accm % (2 * power) == accm % power + if accm / power % 2 == 1 then power else 0
  {
    var (q, r) := (accm / power, accm % power);
    assert accm == q * power + r;
    if q % 2 == 1 {
      assert accm == q / 2 * (2 * power) + (power + r);
      RemainderIs(accm, 2 * power, q / 2, power + r);
    } else {
      assert accm == q / 2 * (2 * power) + r;
      RemainderIs(accm, 2 * power, q / 2, r);
    }
  }

  lemma NoMultipleBetween(k: int, d: int, x: int)
    requires k * d == x && d > 0 && -d < x < d
    ensures k == 0
  {
  }

  lemma Distance(n: nat, d: nat, q: nat, a: nat, r: nat, s: nat)
    requires n == q * d + r && n == a * d + s
    ensures (a - q) * d == r - s
  {
  }

  lemma RemainderIs(n: nat, d: nat, q: nat, r: nat)
    requires n == q * d + r && r < d
    ensures n % d == r
  {
    var (a, s) := (n / d, n % d);
    assert n == a * d + s;
    Distance(n, d, q, a, r, s);
    NoMultipleBetween(a - q, d, r - s);
  }

  lemma {:induction false} NamedIsRemainder(accm: Word32, n: nat)
    requires n <= 32
    ensures Named(accm, n) == accm % PowerOfTwo(n)
  {
    if n > 0 {
      NamedIsRemainder(accm, n - 1);
      NextBit(accm, PowerOfTwo(n - 1));
    }
  }

  lemma ThirtyTwoBits()
    ensures PowerOfTwo(32) == 0x1_0000_0000
  {
    assert PowerOfTwo(8) == 0x100;
    assert PowerOfTwo(16) == 0x1_0000;
    assert PowerOfTwo(24) == 0x100_0000;
  }

  /** The controls a map names are its binary digits: their powers of two add up to it. */
  lemma MapIsItsBits(accm: Word32)
    ensures Named(accm, 32) == accm
  {
    NamedIsRemainder(accm, 32);
    ThirtyTwoBits();
  }

  // ----- A frame in full -----

  lemma FourControls()
    ensures Contains(0xffff_ffff, 0x00) && Contains(0xffff_ffff, 0x01)
    ensures Contains(0xffff_ffff, 0x03) && Contains(0xffff_ffff, 0x04)
  {
    assert PowerOfTwo(1) == 2 && PowerOfTwo(3) == 8 && PowerOfTwo(4) == 16;
  }

  lemma EscapedFour(a: Octet, b: Octet, c: Octet, d: Octet, accm: Word32)
    ensures Escaped([a, b, c, d], accm)
            == EscapeOctet(a, accm) + EscapeOctet(b, accm) + EscapeOctet(c, accm) + EscapeOctet(d, accm)
  {
    EscapedTwo(a, b, accm);
    EscapedTwo(c, d, accm);
    EscapedAppend([a, b], [c, d], accm);
    assert [a, b] + [c, d] == [a, b, c, d];
  }

  lemma EscapedTwo(a: Octet, b: Octet, accm: Word32)
    ensures Escaped([a, b], accm) == EscapeOctet(a, accm) + EscapeOctet(b, accm)
  {
    EscapedOne(a, accm);
    EscapedOne(b, accm);
    EscapedAppend([a], [b], accm);
    assert [a] + [b] == [a, b];
  }

  lemma FramePartsOnTheWire(all: Word32)
    requires all == 0xffff_ffff
    ensures Escaped([0xff, 0x03, 0xc0, 0x21], all) == [0xff, 0x7d, 0x23, 0xc0, 0x21]
    ensures Escaped([0x01, 0x01, 0x00, 0x04], all) == [0x7d, 0x21, 0x7d, 0x21, 0x7d, 0x20, 0x7d, 0x24]
    ensures Escaped([0xd1, 0xb5], all) == [0xd1, 0xb5]
  {
    FourControls();
    EscapedFour(0xff, 0x03, 0xc0, 0x21, all);
    EscapedFour(0x01, 0x01, 0x00, 0x04, all);
    EscapedTwo(0xd1, 0xb5, all);
  }

  lemma EscapedThree(a: Bytes, b: Bytes, c: Bytes, accm: Word32)
    ensures Escaped(a + b + c, accm) == Escaped(a, accm) + Escaped(b, accm) + Escaped(c, accm)
  {
    EscapedAppend(a + b, c, accm);
    EscapedAppend(a, b, accm);
  }

  lemma PartsOnTheWire(frame: Bytes, a: Bytes, b: Bytes, c: Bytes, all: Word32)
    requires all == 0xffff_ffff && Append(frame) == a + b + c
    requires a == [0xff, 0x03, 0xc0, 0x21] && b == [0x01, 0x01, 0x00, 0x04] && c == [0xd1, 0xb5]
    ensures EncodeAsync(frame, all) == [0x7e] + ([0xff, 0x7d, 0x23, 0xc0, 0x21]
            + [0x7d, 0x21, 0x7d, 0x21, 0x7d, 0x20, 0x7d, 0x24] + [0xd1, 0xb5]) + [0x7e]
  {
    EscapedThree(a, b, c, all);
    FramePartsOnTheWire(all);
  }

  lemma FrameInParts()
    ensures [0xff, 0x03, 0xc0, 0x21, 0x01, 0x01, 0x00, 0x04, 0xd1, 0xb5]
            == [0xff, 0x03, 0xc0, 0x21] + [0x01, 0x01, 0x00, 0x04] + [0xd1, 0xb5]
  {
  }

  lemma WireInParts()
    ensures [0x7e, 0xff, 0x7d, 0x23, 0xc0, 0x21, 0x7d, 0x21, 0x7d, 0x21, 0x7d, 0x20, 0x7d, 0x24, 0xd1, 0xb5, 0x7e]
            == [0x7e] + ([0xff, 0x7d, 0x23, 0xc0, 0x21] + [0x7d, 0x21, 0x7d, 0x21, 0x7d, 0x20, 0x7d, 0x24]
                + [0xd1, 0xb5]) + [0x7e]
  {
  }

  lemma WireOf(frame: Bytes, whole: Bytes)
    requires Append(frame) == whole && whole == [0xff, 0x03, 0xc0, 0x21, 0x01, 0x01, 0x00, 0x04, 0xd1, 0xb5]
    ensures EncodeAsync(frame, 0xffff_ffff) == [0x7e] + ([0xff, 0x7d, 0x23, 0xc0, 0x21]
            + [0x7d, 0x21, 0x7d, 0x21, 0x7d, 0x20, 0x7d, 0x24] + [0xd1, 0xb5]) + [0x7e]
  {
    FrameInParts();
    PartsOnTheWire(frame, [0xff, 0x03, 0xc0, 0x21], [0x01, 0x01, 0x00, 0x04], [0xd1, 0xb5], 0xffff_ffff);
  }

  /** The empty Configure-Request under the map of all controls. */
  lemma RequestOnTheWire(frame: Bytes)
    requires frame == EMPTY_REQUEST
    ensures EncodeAsync(frame, 0xffff_ffff)
            == [0x7e, 0xff, 0x7d, 0x23, 0xc0, 0x21, 0x7d, 0x21, 0x7d, 0x21, 0x7d, 0x20, 0x7d, 0x24, 0xd1, 0xb5, 0x7e]
  {
    RequestTrailer();
    WireOf(frame, Append(frame));
    WireInParts();
  }
}
