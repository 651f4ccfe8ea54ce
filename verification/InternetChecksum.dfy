/** The one's-complement sum of IPv4, ICMP and UDP (RFC 1071). */
module InternetChecksum {
  import opened Octets

  /** Big-endian words added up; an odd last octet is the high one of its word. */
  function WordSum(octets: Bytes): nat {
    if octets == [] then 0
    else if |octets| == 1 then octets[0] * 0x100
    else ReadBigEndian16(octets[0], octets[1]) + WordSum(octets[2..])
  }

  /** Carries are added back in until the sum fits a word. */
  function FoldSum(sum: nat): Word16 {
    if sum < 0x1_0000 then sum else FoldSum(sum % 0x1_0000 + sum / 0x1_0000)
  }

  function Complement(w: Word16): Word16 { 0xffff - w }

  function Checksum(octets: Bytes): Word16 { Complement(FoldSum(WordSum(octets))) }

  lemma SplitSum(sum: nat, high: nat, low: nat)
    requires sum == high * 0x1_0000 + low && sum > 0
    ensures (sum - 1) % 0xffff == (high + low - 1) % 0xffff
  {
    assert sum - 1 == high * 0xffff + (high + low - 1);
    ModuloShift(high + low - 1, high);
  }

  lemma {:induction false} ModuloShift(n: nat, times: nat)
    ensures (times * 0xffff + n) % 0xffff == n % 0xffff
  {
    if times > 0 {
      ModuloShift(n, times - 1);
      assert times * 0xffff + n == ((times - 1) * 0xffff + n) + 0xffff;
    }
  }

  /** Folding is the remainder modulo 0xffff, with 0xffff in place of zero except for an empty sum. */
  lemma {:induction false} FoldIsRemainder(sum: nat)
    ensures FoldSum(sum) == if sum == 0 then 0 else 1 + (sum - 1) % 0xffff
  {
    if sum >= 0x1_0000 {
      FoldIsRemainder(sum % 0x1_0000 + sum / 0x1_0000);
      SplitSum(sum, sum / 0x1_0000, sum % 0x1_0000);
    }
  }

  lemma {:induction false} WordSumAppend(a: Bytes, b: Bytes)
    requires |a| % 2 == 0
    ensures WordSum(a + b) == WordSum(a) + WordSum(b)
    decreases |a|
  {
    if a == [] {
      assert a + b == b;
    } else {
      WordSumAppend(a[2..], b);
      assert (a + b)[2..] == a[2..] + b;
    }
  }

  lemma WordSumOfWord(high: Octet, low: Octet)
    ensures WordSum([high, low]) == ReadBigEndian16(high, low)
  {
    assert [high, low][2..] == [];
  }

  lemma WordSumAround(before: Bytes, high: Octet, low: Octet, behind: Bytes)
    requires |before| % 2 == 0
    ensures WordSum(before + [high, low] + behind) == WordSum(before) + ReadBigEndian16(high, low) + WordSum(behind)
  {
    WordSumAppend(before + [high, low], behind);
    WordSumAppend(before, [high, low]);
    WordSumOfWord(high, low);
  }

  /** The complement of a folded sum, added to that sum, folds to all ones. */
  lemma ComplementCancels(sum: nat)
    ensures FoldSum(sum + Complement(FoldSum(sum))) == 0xffff
  {
    FoldIsRemainder(sum);
    var total := sum + Complement(FoldSum(sum));
    FoldIsRemainder(total);
    if sum > 0 {
      var q := (sum - 1) / 0xffff;
      assert sum - 1 == q * 0xffff + (sum - 1) % 0xffff;
      assert total - 1 == q * 0xffff + 0xfffe;
      ModuloShift(0xfffe, q);
    }
  }

  /** A checksum of zero may be sent as all ones: it adds nothing to a sum that is not empty. */
  lemma AllOnesStandForZero(sum: nat)
    requires FoldSum(sum) == 0xffff
    ensures FoldSum(sum + 0xffff) == 0xffff
  {
    FoldIsRemainder(sum);
    FoldIsRemainder(sum + 0xffff);
    assert (sum - 1) + 0xffff == sum + 0xffff - 1;
    ModuloShift(sum - 1, 1);
  }

  /** A valid sum stays valid when one word of it changes exactly if the two words are the two
      zeros of one's complement, or the same. */
  lemma ChangedWord(rest: nat, sent: Word16, received: Word16)
    requires FoldSum(rest + sent) == 0xffff
    ensures FoldSum(rest + received) == 0xffff
            <==> sent == received || (rest > 0 && sent == 0xffff && received == 0) || (sent == 0 && received == 0xffff)
  {
    FoldIsRemainder(rest + sent);
    FoldIsRemainder(rest + received);
    if rest + received > 0 {
      CloseMultiples(rest + sent - 1, rest + received - 1);
    }
  }

  lemma CloseMultiples(m: nat, n: nat)
    requires m % 0xffff == 0xfffe && -0xffff <= m - n <= 0xffff
    ensures n % 0xffff == 0xfffe <==> m == n || m - n == 0xffff || n - m == 0xffff
  {
  }

  /** Which changes of one word a checked buffer survives. */
  lemma ChangedWordIsDetected(before: Bytes, a: Octet, b: Octet, c: Octet, d: Octet, behind: Bytes)
    requires |before| % 2 == 0 && Checksum(before + [a, b] + behind) == 0
    ensures var (sent, received) := (ReadBigEndian16(a, b), ReadBigEndian16(c, d));
            Checksum(before + [c, d] + behind) == 0
            <==> || sent == received
                 || (sent == 0 && received == 0xffff)
                 || (sent == 0xffff && received == 0 && WordSum(before) + WordSum(behind) > 0)
  {
    WordSumAround(before, a, b, behind);
    WordSumAround(before, c, d, behind);
    ChangedWord(WordSum(before) + WordSum(behind), ReadBigEndian16(a, b), ReadBigEndian16(c, d));
  }

  /** Inserted where the octets were zero, the checksum makes a buffer check; the length may be odd. */
  lemma InsertedChecksumVerifies(before: Bytes, behind: Bytes)
    requires |before| % 2 == 0
    ensures var sum := Checksum(before + [0, 0] + behind);
            Checksum(before + BigEndian16(sum) + behind) == 0
  {
    var sum := Checksum(before + [0, 0] + behind);
    WordSumAround(before, 0, 0, behind);
    WordSumAround(before, sum / 0x100, sum % 0x100, behind);
    ComplementCancels(WordSum(before) + WordSum(behind));
  }

  // ----- The loops -----

  lemma {:induction false} WordSumIsBounded(octets: Bytes)
    ensures WordSum(octets) <= 0xffff * ((|octets| + 1) / 2)
    decreases |octets|
  {
    if |octets| > 1 {
      WordSumIsBounded(octets[2..]);
    }
  }

  lemma WordSumAt(octets: Bytes, n: nat)
    requires n <= |octets| && n % 2 == 0
    ensures WordSum(octets) == WordSum(octets[..n]) + WordSum(octets[n..])
  {
    WordSumAppend(octets[..n], octets[n..]);
    assert octets == octets[..n] + octets[n..];
  }

  lemma NextWord(octets: Bytes, n: nat)
    requires n + 1 < |octets| && n % 2 == 0
    ensures WordSum(octets[..n + 2]) == WordSum(octets[..n]) + ReadBigEndian16(octets[n], octets[n + 1])
  {
    var word := [octets[n], octets[n + 1]];
    WordSumAppend(octets[..n], word);
    WordSumOfWord(octets[n], octets[n + 1]);
    assert octets[..n + 2] == octets[..n] + word;
  }

  /** 32 bits hold the sum of every buffer that can be summed at all. */
  method AddBytes(initial: Word32, octets: Bytes) returns (sum: Word32)
    requires initial + 0xffff * ((|octets| + 1) / 2) < 0x1_0000_0000
    ensures sum == initial + WordSum(octets)
  {
    sum := initial;
    var n := 0;
    WordSumIsBounded(octets);
    while n + 1 < |octets|
      invariant n % 2 == 0 && n <= |octets| && sum == initial + WordSum(octets[..n])
    {
      NextWord(octets, n);
      assert WordSum(octets[..n + 2]) <= WordSum(octets) by { WordSumAt(octets, n + 2); }
      sum := sum + ReadBigEndian16(octets[n], octets[n + 1]);
      n := n + 2;
    }
    WordSumAt(octets, n);
    if n < |octets| {
      assert octets[n..] == [octets[n]];
      sum := sum + ReadBigEndian16(octets[n], 0);
    }
  }

  method FoldCarries(initial: Word32) returns (r: Word16)
    ensures r == FoldSum(initial)
  {
    var sum := initial;
    while sum > 0xffff
      invariant FoldSum(sum) == FoldSum(initial)
    {
      sum := sum % 0x1_0000 + sum / 0x1_0000;
    }
    r := sum;
  }

  method ComputeChecksum(octets: Bytes) returns (r: Word16)
    requires |octets| <= 0x2_0000
    ensures r == Checksum(octets)
  {
    var sum := AddBytes(0, octets);
    var folded := FoldCarries(sum);
    r := Complement(folded);
  }
}
