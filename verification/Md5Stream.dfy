/** The streaming MD5 of the CHAP responder (RFC 1321) for any compression function: updates in any
    pieces are one message, padded and compressed block by block. */
module Md5Stream {
  import opened Octets

  const BLOCK := 64
  const LENGTH_MODULUS := 0x1_0000_0000_0000_0000

  type Word64 = x: int | 0 <= x < 0x1_0000_0000_0000_0000

  datatype Words = Words(a: Word32, b: Word32, c: Word32, d: Word32)

  type Compression = (Words, Bytes) -> Words

  const INITIAL := Words(0x67452301, 0xefcdab89, 0x98badcfe, 0x10325476)

  /** The whole blocks of a message, compressed in order (section 3.4). */
  function CompressAll(compress: Compression, message: Bytes): Words {
    if |message| < BLOCK then INITIAL
    else compress(CompressAll(compress, message[..|message| - BLOCK]), message[|message| - BLOCK..])
  }

  function LittleEndian(n: nat, octets: nat): (r: Bytes)
    ensures |r| == octets
  {
    if octets == 0 then [] else [n % 0x100] + LittleEndian(n / 0x100, octets - 1)
  }

  function Zeros(n: nat): (r: Bytes)
    ensures |r| == n
  {
    seq(n, _ => 0)
  }

  /** A one bit and zeros up to 56 octets past a block boundary, then the length in bits
      (sections 3.1 and 3.2). */
  function Padded(message: Bytes): Bytes {
    message + ([0x80] + Zeros(ZerosBehind(|message|))) + LittleEndian(BitLength(|message|), 8)
  }

  function ZerosBehind(length: nat): nat { (55 - length) % BLOCK }

  function BitLength(length: nat): Word64 { length * 8 % LENGTH_MODULUS }

  function DigestOctets(w: Words): Bytes {
    LittleEndian(w.a, 4) + LittleEndian(w.b, 4) + LittleEndian(w.c, 4) + LittleEndian(w.d, 4)
  }

  function Digest(compress: Compression, message: Bytes): Bytes {
    DigestOctets(CompressAll(compress, Padded(message)))
  }

  // ----- Padding -----

  lemma PaddedFillsBlocks(message: Bytes)
    ensures |Padded(message)| % BLOCK == 0 && |Padded(message)| >= |message| + 9
  {
    FillsBlock(|message|);
  }

  lemma FillsBlock(length: nat)
    ensures (length + 1 + ZerosBehind(length) + 8) % BLOCK == 0
  {
  }

  lemma {:induction false} LittleEndianIsInjective(m: nat, n: nat, octets: nat)
    requires LittleEndian(m, octets) == LittleEndian(n, octets)
    ensures octets == 8 && m < LENGTH_MODULUS && n < LENGTH_MODULUS ==> m == n
    ensures octets < 8 && m < Power(octets) && n < Power(octets) ==> m == n
    decreases octets
  {
    if octets > 0 {
      var (a, b) := (LittleEndian(m, octets), LittleEndian(n, octets));
      assert a[0] == m % 0x100 && b[0] == n % 0x100;
      assert a[1..] == LittleEndian(m / 0x100, octets - 1) && b[1..] == LittleEndian(n / 0x100, octets - 1);
      LittleEndianIsInjective(m / 0x100, n / 0x100, octets - 1);
      if octets == 8 { assert Power(7) == 0x100_0000_0000_0000 by { PowerOfSeven(); } }
    }
  }

  function Power(octets: nat): nat { if octets == 0 then 1 else 0x100 * Power(octets - 1) }

  lemma PowerOfSeven()
    ensures Power(7) == 0x100_0000_0000_0000
  {
    assert Power(3) == 0x100_0000;
    assert Power(5) == 0x100_0000_0000;
  }

  lemma ShortBitLength(length: nat)
    requires length < 0x2000_0000_0000_0000
    ensures BitLength(length) == length * 8
  {
  }

  lemma FirstAndLast(first: Bytes, mid: Bytes, last: Bytes)
    ensures var p := first + mid + last; p[..|first|] == first && p[|p| - |last|..] == last
  {
  }

  /** Different messages of less than 2^61 octets stay different when they are padded. */
  lemma PaddingIsInjective(m: Bytes, n: Bytes)
    requires |m| < 0x2000_0000_0000_0000 && |n| < 0x2000_0000_0000_0000
    requires Padded(m) == Padded(n)
    ensures m == n
  {
    FirstAndLast(m, [0x80] + Zeros(ZerosBehind(|m|)), LittleEndian(BitLength(|m|), 8));
    FirstAndLast(n, [0x80] + Zeros(ZerosBehind(|n|)), LittleEndian(BitLength(|n|), 8));
    ShortBitLength(|m|);
    ShortBitLength(|n|);
    LittleEndianIsInjective(|m| * 8, |n| * 8, 8);
  }

  // ----- Padding and digest as the standard describes them -----

  /** Octets as a number, least significant one first. */
  function ReadLittle(octets: Bytes): nat {
    if octets == [] then 0 else octets[0] + 0x100 * ReadLittle(octets[1..])
  }

  /** `p` is `m`, an octet with its highest bit alone, zeros, and the length of `m` in bits, modulo 2^64, in
      eight octets; it is the shortest such string of whole 64-octet blocks. */
  predicate IsPadding(m: Bytes, p: Bytes) {
    && |p| % 64 == 0 && |m| + 9 <= |p| < |m| + 9 + 64
    && p[..|m|] == m && p[|m|] == 128
    && (forall k | |m| < k < |p| - 8 :: p[k] == 0)
    && ReadLittle(p[|p| - 8..]) == 8 * |m| % 0x1_0000_0000_0000_0000
  }

  lemma {:induction false} LittleEndianIsRead(octets: Bytes)
    ensures LittleEndian(ReadLittle(octets), |octets|) == octets
  {
    if octets != [] {
      var rest := ReadLittle(octets[1..]);
      DigitsOf(octets[0], rest);
      LittleEndianIsRead(octets[1..]);
    }
  }

  lemma DigitsOf(low: Octet, rest: nat)
    ensures (low + 0x100 * rest) % 0x100 == low && (low + 0x100 * rest) / 0x100 == rest
  {
  }

  lemma {:induction false} ReadWritten(n: nat, octets: nat)
    requires n < Power(octets)
    ensures ReadLittle(LittleEndian(n, octets)) == n
  {
    if octets > 0 {
      ReadWritten(n / 0x100, octets - 1);
      assert LittleEndian(n, octets)[1..] == LittleEndian(n / 0x100, octets - 1);
    }
  }

  lemma PowersUsed()
    ensures Power(4) == 0x1_0000_0000 && Power(8) == LENGTH_MODULUS
  {
    PowerOfSeven();
    assert Power(3) == 0x100_0000;
  }

  lemma PaddingParts(m: Bytes, zeros: Bytes, length: Bytes)
    requires |length| == 8 && forall k | 0 <= k < |zeros| :: zeros[k] == 0
    ensures var p := m + ([0x80] + zeros) + length;
            && p[..|m|] == m && p[|m|] == 128 && p[|p| - 8..] == length
            && forall k | |m| < k < |p| - 8 :: p[k] == 0
  {
  }

  lemma PaddedIsPadding(m: Bytes)
    ensures IsPadding(m, Padded(m))
  {
    FillsBlock(|m|);
    PaddingParts(m, Zeros(ZerosBehind(|m|)), LittleEndian(BitLength(|m|), 8));
    PowersUsed();
    ReadWritten(BitLength(|m|), 8);
  }

  lemma SameMultiple(a: nat, b: nat, low: nat)
    requires a % 64 == 0 && b % 64 == 0 && low <= a < low + 64 && low <= b < low + 64
    ensures a == b
  {
  }

  lemma PaddingIsUnique(m: Bytes, p: Bytes, q: Bytes)
    requires IsPadding(m, p) && IsPadding(m, q)
    ensures p == q
  {
    SameMultiple(|p|, |q|, |m| + 9);
    LittleEndianIsRead(p[|p| - 8..]);
    LittleEndianIsRead(q[|q| - 8..]);
    assert p[|p| - 8..] == q[|q| - 8..];
    forall k | 0 <= k < |p|
      ensures p[k] == q[k]
    {
      if k < |m| {
        assert p[k] == p[..|m|][k] && q[k] == q[..|m|][k];
      } else if k >= |p| - 8 {
        assert p[k] == p[|p| - 8..][k - (|p| - 8)] && q[k] == q[|q| - 8..][k - (|q| - 8)];
      }
    }
  }

  /** What is appended to a message is exactly its padding. */
  lemma PaddingIsExact(m: Bytes, p: Bytes)
    ensures p == Padded(m) <==> IsPadding(m, p)
  {
    PaddedIsPadding(m);
    if IsPadding(m, p) { PaddingIsUnique(m, p, Padded(m)); }
  }

  /** Four words, each least significant octet first. */
  function ReadWords(octets: Bytes): (nat, nat, nat, nat)
    requires |octets| == 16
  {
    (ReadLittle(octets[..4]), ReadLittle(octets[4..8]), ReadLittle(octets[8..12]), ReadLittle(octets[12..]))
  }

  function WordsOf(w: Words): (nat, nat, nat, nat) { (w.a, w.b, w.c, w.d) }

  /** The initial buffer as section 3.3 prints it. */
  function InitialOctets(): Bytes {
    [0x01, 0x23, 0x45, 0x67] + [0x89, 0xab, 0xcd, 0xef] + [0xfe, 0xdc, 0xba, 0x98] + [0x76, 0x54, 0x32, 0x10]
  }

  /** The buffer before and after every block: the four initial words, then one compression a block. */
  ghost predicate IsChain(compress: Compression, p: Bytes, states: seq<Words>) {
    && |p| % 64 == 0 && |states| == |p| / 64 + 1
    && WordsOf(states[0]) == ReadWords(InitialOctets())
    && forall k | 0 <= k < |p| / 64 :: states[k + 1] == compress(states[k], p[64 * k..64 * k + 64])
  }

  /** The digest is the last buffer of the padded message, written as the initial one is read. */
  ghost predicate IsDigest(compress: Compression, message: Bytes, digest: Bytes) {
    exists p, states: seq<Words> ::
      && IsPadding(message, p) && IsChain(compress, p, states)
      && |digest| == 16 && ReadWords(digest) == WordsOf(states[|states| - 1])
  }

  lemma ReadFour(a: Octet, b: Octet, c: Octet, d: Octet)
    ensures ReadLittle([a, b, c, d]) == a + 0x100 * (b + 0x100 * (c + 0x100 * d))
  {
    assert [a, b, c, d][1..] == [b, c, d] && [b, c, d][1..] == [c, d] && [c, d][1..] == [d] && [d][1..] == [];
    assert ReadLittle([d]) == d && ReadLittle([c, d]) == c + 0x100 * d;
    assert ReadLittle([b, c, d]) == b + 0x100 * (c + 0x100 * d);
  }

  lemma FourWords(a: Bytes, b: Bytes, c: Bytes, d: Bytes)
    requires |a| == 4 && |b| == 4 && |c| == 4 && |d| == 4
    ensures ReadWords(a + b + c + d) == (ReadLittle(a), ReadLittle(b), ReadLittle(c), ReadLittle(d))
  {
    FourParts(a, b, c, d);
  }

  lemma FourParts(a: Bytes, b: Bytes, c: Bytes, d: Bytes)
    requires |a| == 4 && |b| == 4 && |c| == 4
    ensures var octets := a + b + c + d;
            octets[..4] == a && octets[4..8] == b && octets[8..12] == c && octets[12..] == d
  {
  }

  lemma InitialWords()
    ensures |InitialOctets()| == 16 && ReadWords(InitialOctets()) == WordsOf(INITIAL)
  {
    ReadFour(0x01, 0x23, 0x45, 0x67);
    ReadFour(0x89, 0xab, 0xcd, 0xef);
    ReadFour(0xfe, 0xdc, 0xba, 0x98);
    ReadFour(0x76, 0x54, 0x32, 0x10);
    FourWords([0x01, 0x23, 0x45, 0x67], [0x89, 0xab, 0xcd, 0xef], [0xfe, 0xdc, 0xba, 0x98], [0x76, 0x54, 0x32, 0x10]);
  }

  /** The buffers of the successive fronts of whole blocks. */
  lemma ChainOf(compress: Compression, p: Bytes) returns (states: seq<Words>)
    requires |p| % 64 == 0
    ensures IsChain(compress, p, states) && states[|states| - 1] == CompressAll(compress, p)
  {
    states := seq(|p| / 64 + 1, k requires 0 <= k <= |p| / 64 => CompressAll(compress, p[..64 * k]));
    InitialWords();
    assert p[..0] == [];
    forall k | 0 <= k < |p| / 64
      ensures states[k + 1] == compress(states[k], p[64 * k..64 * k + 64])
    {
      CompressBlock(compress, p[..64 * k], p[64 * k..64 * k + 64]);
      assert p[..64 * k] + p[64 * k..64 * k + 64] == p[..64 * (k + 1)];
    }
    assert 64 * (|p| / 64) == |p| && p[..|p|] == p;
  }

  lemma DigestReads(w: Words)
    ensures |DigestOctets(w)| == 16 && ReadWords(DigestOctets(w)) == WordsOf(w)
  {
    var (a, b, c, d) := (LittleEndian(w.a, 4), LittleEndian(w.b, 4), LittleEndian(w.c, 4), LittleEndian(w.d, 4));
    PowersUsed();
    ReadWritten(w.a, 4);
    ReadWritten(w.b, 4);
    ReadWritten(w.c, 4);
    ReadWritten(w.d, 4);
    FourWords(a, b, c, d);
  }

  /** The digest is the one the standard describes. */
  lemma DigestIsStandard(compress: Compression, message: Bytes)
    ensures IsDigest(compress, message, Digest(compress, message))
  {
    var p := Padded(message);
    PaddedIsPadding(message);
    var states := ChainOf(compress, p);
    DigestReads(CompressAll(compress, p));
    assert IsPadding(message, p) && IsChain(compress, p, states);
  }

  /** Zeros counted from the octets in the buffer, as the code counts them. */
  function ZerosToAdd(buffered: nat): nat
    requires buffered < BLOCK
  {
    if buffered < 56 then 55 - buffered else 119 - buffered
  }

  lemma ZerosAgree(length: nat, buffered: nat)
    requires buffered < BLOCK && (length - buffered) % BLOCK == 0
    ensures ZerosBehind(length) == ZerosToAdd(buffered)
  {
  }

  lemma BitLengthsAgree(length: nat)
    ensures BitLength(WrapLength(length)) == BitLength(length)
  {
  }

  // ----- The stream -----

  /** One whole block more. */
  lemma CompressBlock(compress: Compression, message: Bytes, block: Bytes)
    requires |block| == BLOCK
    ensures CompressAll(compress, message + block) == compress(CompressAll(compress, message), block)
    ensures IsBlocks(message) ==> IsBlocks(message + block)
  {
    assert (message + block)[..|message|] == message && (message + block)[|message|..] == block;
  }

  lemma WholeBlocks(length: nat, whole: nat, buffered: nat)
    requires buffered < BLOCK && whole % BLOCK == 0 && length == whole + buffered && length % BLOCK == 0
    ensures buffered == 0
  {
  }

  /** A whole number of blocks. */
  predicate IsBlocks(octets: Bytes) {
    octets == [] || (|octets| >= BLOCK && IsBlocks(octets[..|octets| - BLOCK]))
  }

  lemma {:induction false} BlocksHaveTheirSize(octets: Bytes)
    requires IsBlocks(octets)
    ensures |octets| % BLOCK == 0
  {
    if octets != [] {
      BlocksHaveTheirSize(octets[..|octets| - BLOCK]);
    }
  }

  function WrapLength(length: nat): Word64 { length % LENGTH_MODULUS }

  lemma LengthsAddUp(length: nat, more: nat)
    ensures WrapLength(WrapLength(length) + more) == WrapLength(length + more)
  {
  }

  class Md5 {
    const compress: Compression
    const buffer: array<Octet>
    var state: Words
    var lengthBytes: Word64
    var buffered: nat
    ghost var whole: Bytes

    /** The whole blocks of the message are in the state, the rest of it is in the buffer. */
    ghost predicate Absorbed()
      reads this, buffer
    {
      buffer.Length == BLOCK && buffered <= BLOCK && IsBlocks(whole) && state == CompressAll(compress, whole)
    }

    ghost predicate Valid()
      reads this, buffer
    {
      Absorbed() && buffered < BLOCK && lengthBytes == WrapLength(|Message()|)
    }

    /** Everything the updates have brought. */
    ghost function Message(): Bytes
      requires Absorbed()
      reads this, buffer
    {
      whole + buffer[..buffered]
    }

    constructor (compress: Compression)
      ensures Valid() && Message() == [] && this.compress == compress && fresh(buffer)
    {
      this.compress := compress;
      buffer := new Octet[BLOCK](_ => 0);
      state, lengthBytes, buffered, whole := INITIAL, 0, 0, [];
    }

    method Store(octets: Bytes)
      requires Absorbed() && buffered + |octets| <= BLOCK
      modifies buffer, this`buffered
      ensures Absorbed() && buffered == old(buffered) + |octets| && Message() == old(Message()) + octets
    {
      var start := buffered;
      for n := 0 to |octets|
        invariant buffered == start && buffer[..start + n] == old(buffer[..start]) + octets[..n]
      {
        buffer[start + n] := octets[n];
      }
      buffered := start + |octets|;
      assert buffer[..buffered] == old(buffer[..start]) + octets;
    }

    method CompressBuffer()
      requires Absorbed() && buffered == BLOCK
      modifies this`state, this`buffered, this`whole
      ensures Absorbed() && buffered == 0 && Message() == old(Message())
    {
      var block := buffer[..];
      CompressBlock(compress, whole, block);
      state := compress(state, block);
      buffered := 0;
      whole := whole + block;
    }

    /** The buffer is filled up as far as the input goes, and compressed once it is full. */
    method FillBuffer(input: Bytes) returns (rest: Bytes)
      requires Absorbed() && 0 < buffered < BLOCK
      modifies this`state, this`buffered, this`whole, buffer
      ensures Absorbed() && buffered < BLOCK && Message() + rest == old(Message()) + input
      ensures buffered == 0 || rest == []
    {
      var count := Min(BLOCK - buffered, |input|);
      Store(input[..count]);
      rest := input[count..];
      assert input[..count] + rest == input;
      if buffered == BLOCK {
        CompressBuffer();
      }
    }

    method CompressInput(input: Bytes) returns (rest: Bytes)
      requires Absorbed() && buffered == 0
      modifies this`state, this`whole
      ensures Absorbed() && |rest| < BLOCK && Message() + rest == old(Message()) + input
    {
      assert Message() == whole;
      rest := input;
      while |rest| >= BLOCK
        invariant buffered == 0 && Absorbed() && whole + rest == old(whole) + input
      {
        CompressBlock(compress, whole, rest[..BLOCK]);
        state := compress(state, rest[..BLOCK]);
        whole := whole + rest[..BLOCK];
        rest := rest[BLOCK..];
      }
      assert Message() == whole;
    }

    method Absorb(input: Bytes)
      requires Absorbed() && buffered < BLOCK
      modifies this`state, this`buffered, this`whole, buffer
      ensures Absorbed() && buffered < BLOCK && Message() == old(Message()) + input
    {
      var rest := input;
      if buffered != 0 {
        rest := FillBuffer(input);
        if rest == [] {
          return;
        }
      }
      rest := CompressInput(rest);
      Store(rest);
    }

    method Update(input: Bytes)
      requires Valid()
      modifies this`state, this`lengthBytes, this`buffered, this`whole, buffer
      ensures Valid() && Message() == old(Message()) + input
    {
      LengthsAddUp(|Message()|, |input|);
      lengthBytes := WrapLength(lengthBytes + |input|);
      Absorb(input);
    }

    method Pad()
      requires Valid()
      modifies this`state, this`lengthBytes, this`buffered, this`whole, buffer
      ensures Valid() && Message() == Padded(old(Message()))
    {
      BlocksHaveTheirSize(whole);
      ZerosAgree(|Message()|, buffered);
      BitLengthsAgree(|Message()|);
      var bitLength := BitLength(lengthBytes);
      Update([0x80] + Zeros(ZerosToAdd(buffered)));
      Update(LittleEndian(bitLength, 8));
    }

    method Finalize() returns (digest: Bytes)
      requires Valid()
      modifies this`state, this`lengthBytes, this`buffered, this`whole, buffer
      ensures digest == Digest(compress, old(Message())) && buffered == 0
      ensures IsDigest(compress, old(Message()), digest)
    {
      DigestIsStandard(compress, Message());
      PaddedFillsBlocks(Message());
      Pad();
      BlocksHaveTheirSize(whole);
      WholeBlocks(|Message()|, |whole|, buffered);
      assert whole == Message();
      digest := DigestOctets(state);
    }
  }

  function Concatenated(pieces: seq<Bytes>): Bytes {
    if pieces == [] then [] else Concatenated(pieces[..|pieces| - 1]) + pieces[|pieces| - 1]
  }

  /** However a message is divided into updates, its digest is the digest of the whole. */
  method DigestOfPieces(compress: Compression, pieces: seq<Bytes>) returns (digest: Bytes)
    ensures digest == Digest(compress, Concatenated(pieces)) && IsDigest(compress, Concatenated(pieces), digest)
  {
    var md5 := new Md5(compress);
    for n := 0 to |pieces|
      invariant md5.Valid() && md5.Message() == Concatenated(pieces[..n]) && md5.compress == compress
      invariant fresh(md5) && fresh(md5.buffer)
    {
      assert pieces[..n + 1][..n] == pieces[..n];
      md5.Update(pieces[n]);
    }
    assert pieces[..|pieces|] == pieces;
    digest := md5.Finalize();
  }

  lemma NothingBefore(octets: Bytes)
    ensures [] + octets == octets
  {
  }

  method DigestOfThree(compress: Compression, a: Bytes, b: Bytes, c: Bytes) returns (digest: Bytes)
    ensures digest == Digest(compress, a + b + c) && IsDigest(compress, a + b + c, digest)
  {
    var md5 := new Md5(compress);
    NothingBefore(a);
    md5.Update(a);
    md5.Update(b);
    md5.Update(c);
    digest := md5.Finalize();
  }

  /** The response value of section 4.1 of RFC 1994: the digest of identifier, secret and challenge. */
  method ResponseDigest(compress: Compression, identifier: Octet, secret: Bytes, challenge: Bytes)
    returns (digest: Bytes)
    ensures IsDigest(compress, [identifier] + secret + challenge, digest)
    ensures digest == Digest(compress, [identifier] + secret + challenge)
  {
    digest := DigestOfThree(compress, [identifier], secret, challenge);
  }
}
