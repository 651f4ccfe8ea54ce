/** Octet-stuffed asynchronous framing (section 4 of RFC 1662): what is put on the wire for a
    frame, and what a stream means when it is cut at its flags. */
module AsyncFraming {
  import opened Octets
  import opened Fcs16

  const FLAG: Octet := 0x7e
  const ESCAPE: Octet := 0x7d
  const FCS_LENGTH := 2
  const MINIMUM_LENGTH := 4

  /** The bit that escaping flips is 0x20. */
  function Toggle(o: Octet): (r: Octet)
    ensures r != o && o < 0x20 ==> r >= 0x20
  {
    if o / 0x20 % 2 == 1 then o - 0x20 else o + 0x20
  }

  function PowerOfTwo(n: nat): (r: nat)
    ensures r > 0
  {
    if n == 0 then 1 else 2 * PowerOfTwo(n - 1)
  }

  /** Bit `o` of a control character map. */
  predicate Contains(accm: Word32, o: Octet) { o < 0x20 && accm / PowerOfTwo(o) % 2 == 1 }

  predicate SubMap(receive: Word32, send: Word32) { forall o: Octet | Contains(receive, o) :: Contains(send, o) }

  predicate MustEscape(o: Octet, accm: Word32) { o == FLAG || o == ESCAPE || Contains(accm, o) }

  function EscapeOctet(o: Octet, accm: Word32): Bytes {
    if MustEscape(o, accm) then [ESCAPE, Toggle(o)] else [o]
  }

  function Escaped(octets: Bytes, accm: Word32): Bytes {
    if octets == [] then [] else EscapeOctet(octets[0], accm) + Escaped(octets[1..], accm)
  }

  function EncodeAsync(frame: Bytes, accm: Word32): Bytes {
    [FLAG] + Escaped(Append(frame), accm) + [FLAG]
  }

  lemma Associate(a: Bytes, b: Bytes, c: Bytes)
    ensures a + (b + c) == a + b + c
  {
  }

  lemma {:induction false} EscapedAppend(a: Bytes, b: Bytes, accm: Word32)
    ensures Escaped(a + b, accm) == Escaped(a, accm) + Escaped(b, accm)
  {
    if a == [] {
      assert a + b == b;
    } else {
      var (first, rest) := (EscapeOctet(a[0], accm), Escaped(a[1..], accm));
      EscapedAppend(a[1..], b, accm);
      assert (a + b)[0] == a[0] && (a + b)[1..] == a[1..] + b;
      Associate(first, rest, Escaped(b, accm));
    }
  }

  lemma EscapedOne(o: Octet, accm: Word32)
    ensures Escaped([o], accm) == EscapeOctet(o, accm)
  {
    assert EscapeOctet(o, accm) + [] == EscapeOctet(o, accm);
  }

  lemma EscapedNext(octets: Bytes, n: nat, accm: Word32)
    requires n < |octets|
    ensures Escaped(octets[..n + 1], accm) == Escaped(octets[..n], accm) + EscapeOctet(octets[n], accm)
  {
    EscapedAppend(octets[..n], [octets[n]], accm);
    EscapedOne(octets[n], accm);
    assert octets[..n + 1] == octets[..n] + [octets[n]];
  }

  lemma EncodedNext(octets: Bytes, n: nat, accm: Word32, encoded: Bytes)
    requires n < |octets| && encoded == [FLAG] + Escaped(octets[..n], accm)
    ensures encoded + EscapeOctet(octets[n], accm) == [FLAG] + Escaped(octets[..n + 1], accm)
  {
    EscapedNext(octets, n, accm);
    Associate([FLAG], Escaped(octets[..n], accm), EscapeOctet(octets[n], accm));
  }

  /** The loop that encodes a frame into a fresh buffer. */
  method EncodeFrame(frame: Bytes, accm: Word32) returns (encoded: Bytes)
    ensures encoded == EncodeAsync(frame, accm)
  {
    var unescaped := Append(frame);
    encoded := [FLAG];
    for n := 0 to |unescaped|
      invariant encoded == [FLAG] + Escaped(unescaped[..n], accm)
    {
      var octet := unescaped[n];
      EncodedNext(unescaped, n, accm, encoded);
      if MustEscape(octet, accm) {
        assert encoded + [ESCAPE] + [Toggle(octet)] == encoded + [ESCAPE, Toggle(octet)];
        encoded := encoded + [ESCAPE] + [Toggle(octet)];
      } else {
        encoded := encoded + [octet];
      }
    }
    assert unescaped[..|unescaped|] == unescaped;
    encoded := encoded + [FLAG];
  }

  // ----- The meaning of a segment between two flags -----

  datatype InvalidReason = TooShort | EscapeBeforeFlag

  datatype Event =
    | Frame(octets: Bytes)
    | FcsError(unescapedLength: nat)
    | InvalidFrame(reason: InvalidReason)
    | Overflow(maximumLength: nat)

  /** Unescaped receive-ACCM controls are not part of the data. */
  function Kept(segment: Bytes, accm: Word32): Bytes {
    if segment == [] then []
    else
      var (front, last) := (segment[..|segment| - 1], segment[|segment| - 1]);
      Kept(front, accm) + if Contains(accm, last) then [] else [last]
  }

  /** An odd run of escapes at the end leaves one waiting for its octet. */
  predicate Dangling(kept: Bytes) {
    kept != [] && kept[|kept| - 1] == ESCAPE && !Dangling(kept[..|kept| - 1])
  }

  function Unescaped(kept: Bytes): Bytes {
    if kept == [] then []
    else
      var (front, last) := (kept[..|kept| - 1], kept[|kept| - 1]);
      Unescaped(front) + if Dangling(front) then [Toggle(last)] else if last == ESCAPE then [] else [last]
  }

  function Classify(segment: Bytes, accm: Word32, max: nat): Option<Event> {
    var kept := Kept(segment, accm);
    var octets := Unescaped(kept);
    if |octets| > max then Some(Overflow(max))
    else if Dangling(kept) then Some(InvalidFrame(EscapeBeforeFlag))
    else if octets == [] then None
    else if |octets| < MINIMUM_LENGTH then Some(InvalidFrame(TooShort))
    else if !Valid(octets) then Some(FcsError(|octets|))
    else Some(Frame(octets[..|octets| - FCS_LENGTH]))
  }

  // ----- Cutting a stream at its flags -----

  /** What follows the last flag; the whole stream if there is none. */
  function OpenSegment(stream: Bytes): Bytes {
    if stream == [] || stream[|stream| - 1] == FLAG then []
    else OpenSegment(stream[..|stream| - 1]) + [stream[|stream| - 1]]
  }

  /** The segments with a flag on either side, in order. */
  function Segments(stream: Bytes): seq<Bytes> {
    if stream == [] then []
    else
      var (front, last) := (stream[..|stream| - 1], stream[|stream| - 1]);
      if last == FLAG && FLAG in front then Segments(front) + [OpenSegment(front)] else Segments(front)
  }

  /** What comes before the first flag. */
  function Noise(stream: Bytes): Bytes {
    if stream == [] || stream[0] == FLAG then [] else [stream[0]] + Noise(stream[1..])
  }

  function Joined(segments: seq<Bytes>): Bytes {
    if segments == [] then [] else Joined(segments[..|segments| - 1]) + [FLAG] + segments[|segments| - 1]
  }

  lemma {:induction false} NoiseAppend(stream: Bytes, o: Octet)
    ensures Noise(stream + [o]) == if FLAG in stream || o == FLAG then Noise(stream) else stream + [o]
    ensures FLAG !in stream ==> Noise(stream) == stream
  {
    if stream == [] {
      assert stream + [o] == [o];
    } else {
      NoiseAppend(stream[1..], o);
      assert (stream + [o])[1..] == stream[1..] + [o];
      assert stream == [stream[0]] + stream[1..];
    }
  }

  lemma {:induction false} OpenSegmentHasNoFlag(stream: Bytes)
    ensures FLAG !in OpenSegment(stream)
    ensures FLAG !in stream ==> OpenSegment(stream) == stream && Segments(stream) == []
  {
    if stream != [] && stream[|stream| - 1] != FLAG {
      OpenSegmentHasNoFlag(stream[..|stream| - 1]);
      assert stream == stream[..|stream| - 1] + [stream[|stream| - 1]];
    }
  }

  lemma Regroup(noise: Bytes, joined: Bytes, open: Bytes, o: Octet)
    ensures noise + joined + [FLAG] + open + [FLAG] == noise + (joined + [FLAG] + open) + [FLAG] + []
    ensures noise + joined + [FLAG] + open + [o] == noise + joined + [FLAG] + (open + [o])
  {
  }

  /** Cutting loses nothing: noise, segments and the open end, with their flags, are the stream. */
  lemma {:induction false} CutsRejoin(stream: Bytes)
    requires FLAG in stream
    ensures stream == Noise(stream) + Joined(Segments(stream)) + [FLAG] + OpenSegment(stream)
  {
    var (front, last) := (stream[..|stream| - 1], stream[|stream| - 1]);
    assert stream == front + [last];
    NoiseAppend(front, last);
    if FLAG in front {
      CutsRejoin(front);
      JoinedAppend(Segments(front), OpenSegment(front));
      Regroup(Noise(front), Joined(Segments(front)), OpenSegment(front), last);
    } else {
      OpenSegmentHasNoFlag(front);
    }
  }

  lemma JoinedAppend(segments: seq<Bytes>, segment: Bytes)
    ensures Joined(segments + [segment]) == Joined(segments) + [FLAG] + segment
  {
    assert (segments + [segment])[..|segments|] == segments;
  }

  lemma {:induction false} SegmentsHaveNoFlag(stream: Bytes)
    ensures forall k | 0 <= k < |Segments(stream)| :: FLAG !in Segments(stream)[k]
  {
    if stream != [] {
      SegmentsHaveNoFlag(stream[..|stream| - 1]);
      OpenSegmentHasNoFlag(stream[..|stream| - 1]);
    }
  }

  function Events(segments: seq<Bytes>, accm: Word32, max: nat): seq<Event> {
    if segments == [] then []
    else
      var event := Classify(segments[|segments| - 1], accm, max);
      Events(segments[..|segments| - 1], accm, max) + if event.Some? then [event.value] else []
  }

  // ----- A segment that is an encoded frame -----

  lemma ToggleTwice(o: Octet)
    ensures Toggle(Toggle(o)) == o
  {
  }

  lemma KeptAppend(segment: Bytes, o: Octet, accm: Word32)
    ensures Kept(segment + [o], accm) == Kept(segment, accm) + if Contains(accm, o) then [] else [o]
  {
    assert (segment + [o])[..|segment|] == segment;
  }

  lemma UnescapedAppend(kept: Bytes, o: Octet)
    ensures Dangling(kept + [o]) <==> o == ESCAPE && !Dangling(kept)
    ensures Unescaped(kept + [o])
            == Unescaped(kept) + if Dangling(kept) then [Toggle(o)] else if o == ESCAPE then [] else [o]
  {
    assert (kept + [o])[..|kept|] == kept;
  }

  /** `wire` survives flags and control removal and stands for `octets`. */
  predicate Carries(wire: Bytes, octets: Bytes, receive: Word32) {
    FLAG !in wire && Kept(wire, receive) == wire && !Dangling(wire) && Unescaped(wire) == octets
  }

  lemma PlainOctetIsCarried(wire: Bytes, octets: Bytes, o: Octet, receive: Word32)
    requires Carries(wire, octets, receive) && o != FLAG && o != ESCAPE && !Contains(receive, o)
    ensures Carries(wire + [o], octets + [o], receive)
  {
    KeptAppend(wire, o, receive);
    UnescapedAppend(wire, o);
  }

  lemma EscapedOctetIsCarried(wire: Bytes, octets: Bytes, o: Octet, receive: Word32)
    requires Carries(wire, octets, receive) && Toggle(o) != FLAG && !Contains(receive, Toggle(o))
    ensures Carries(wire + [ESCAPE] + [Toggle(o)], octets + [o], receive)
  {
    KeptAppend(wire, ESCAPE, receive);
    KeptAppend(wire + [ESCAPE], Toggle(o), receive);
    UnescapedAppend(wire, ESCAPE);
    UnescapedAppend(wire + [ESCAPE], Toggle(o));
    ToggleTwice(o);
  }

  lemma CarriedNext(wire: Bytes, octets: Bytes, o: Octet, send: Word32, receive: Word32)
    requires Carries(wire, octets, receive) && SubMap(receive, send)
    ensures Carries(wire + EscapeOctet(o, send), octets + [o], receive)
  {
    if MustEscape(o, send) {
      EscapedOctetIsCarried(wire, octets, o, receive);
      assert wire + [ESCAPE, Toggle(o)] == wire + [ESCAPE] + [Toggle(o)];
    } else {
      PlainOctetIsCarried(wire, octets, o, receive);
    }
  }

  /** Escaping hides flags and controls, and unescaping gives the octets back. */
  lemma {:induction false} EscapingIsUndone(octets: Bytes, send: Word32, receive: Word32)
    requires SubMap(receive, send)
    ensures Carries(Escaped(octets, send), octets, receive)
    decreases |octets|
  {
    if octets != [] {
      var n := |octets| - 1;
      EscapingIsUndone(octets[..n], send, receive);
      CarriedNext(Escaped(octets[..n], send), octets[..n], octets[n], send, receive);
      EscapedNext(octets, n, send);
      assert octets[..n + 1] == octets == octets[..n] + [octets[n]];
    }
  }

  /** The event an encoded frame causes, for every length. */
  function EventFor(frame: Bytes, max: nat): Event {
    if |frame| + FCS_LENGTH > max then Overflow(max)
    else if |frame| + FCS_LENGTH < MINIMUM_LENGTH then InvalidFrame(TooShort)
    else Frame(frame)
  }

  lemma EncodedFrameIsClassified(frame: Bytes, send: Word32, receive: Word32, max: nat)
    requires SubMap(receive, send)
    ensures Classify(Escaped(Append(frame), send), receive, max) == Some(EventFor(frame, max))
  {
    EscapingIsUndone(Append(frame), send, receive);
    AppendedFcsIsGood(frame);
    assert Append(frame)[..|frame|] == frame;
  }

  /** The octet behind an escape is never a control, so a pair is never broken. */
  lemma PairLeavesOne(wire: Bytes, o: Octet, send: Word32, receive: Word32)
    requires !Dangling(Kept(wire, receive)) && MustEscape(o, send)
    ensures Kept(wire + [ESCAPE] + [Toggle(o)], receive) == Kept(wire, receive) + [ESCAPE] + [Toggle(o)]
    ensures var kept := Kept(wire, receive) + [ESCAPE] + [Toggle(o)];
            !Dangling(kept) && |Unescaped(kept)| == |Unescaped(Kept(wire, receive))| + 1
  {
    KeptAppend(wire, ESCAPE, receive);
    KeptAppend(wire + [ESCAPE], Toggle(o), receive);
    UnescapedAppend(Kept(wire, receive), ESCAPE);
    UnescapedAppend(Kept(wire, receive) + [ESCAPE], Toggle(o));
  }

  lemma PlainLeavesOne(wire: Bytes, o: Octet, send: Word32, receive: Word32)
    requires !Dangling(Kept(wire, receive)) && !MustEscape(o, send)
    ensures var kept := Kept(wire + [o], receive);
            !Dangling(kept) && |Unescaped(kept)| <= |Unescaped(Kept(wire, receive))| + 1
  {
    KeptAppend(wire, o, receive);
    UnescapedAppend(Kept(wire, receive), o);
    if Contains(receive, o) { assert Kept(wire, receive) + [] == Kept(wire, receive); }
  }

  /** One octet of the sender leaves at most one octet and no open escape. */
  lemma OctetLeavesOne(wire: Bytes, o: Octet, send: Word32, receive: Word32)
    requires !Dangling(Kept(wire, receive))
    ensures var kept := Kept(wire + EscapeOctet(o, send), receive);
            !Dangling(kept) && |Unescaped(kept)| <= |Unescaped(Kept(wire, receive))| + 1
  {
    if MustEscape(o, send) {
      PairLeavesOne(wire, o, send, receive);
      Associate(wire, [ESCAPE], [Toggle(o)]);
      assert [ESCAPE] + [Toggle(o)] == [ESCAPE, Toggle(o)];
    } else {
      PlainLeavesOne(wire, o, send, receive);
    }
  }

  lemma {:induction false} OneOctetEach(octets: Bytes, send: Word32, receive: Word32)
    ensures var kept := Kept(Escaped(octets, send), receive); !Dangling(kept) && |Unescaped(kept)| <= |octets|
  {
    if octets != [] {
      var n := |octets| - 1;
      OneOctetEach(octets[..n], send, receive);
      OctetLeavesOne(Escaped(octets[..n], send), octets[n], send, receive);
      EscapedNext(octets, n, send);
      assert octets[..n + 1] == octets;
    }
  }

  lemma DroppedPair(o: Octet, send: Word32, receive: Word32)
    requires Contains(receive, o) && !Contains(send, o)
    ensures Kept(Escaped([o, o], send), receive) == []
  {
    EscapedAppend([o], [o], send);
    EscapedOne(o, send);
    assert [o] + [o] == [o, o];
    KeptAppend([], o, receive);
    KeptAppend([o], o, receive);
    assert [] + [o] == [o];
  }

  lemma LittleIsLeft(frame: Bytes, trailer: Bytes, send: Word32, receive: Word32)
    requires Kept(Escaped(frame, send), receive) == []
    ensures |Unescaped(Kept(Escaped(frame + trailer, send), receive))| <= |trailer|
  {
    var tail := Escaped(trailer, send);
    EscapedAppend(frame, trailer, send);
    KeptPrefix(Escaped(frame, send), tail, receive);
    OneOctetEach(trailer, send, receive);
    assert [] + Kept(tail, receive) == Kept(tail, receive);
  }

  lemma ShorterDataIsAnother(segment: Bytes, frame: Bytes, receive: Word32, max: nat)
    requires |Unescaped(Kept(segment, receive))| < |frame| + FCS_LENGTH
    ensures Classify(segment, receive, max) != Some(Frame(frame))
  {
  }

  /** Where the receiver drops a control the sender does not escape, the frame of two of them is lost. */
  lemma UnescapedControlIsLost(o: Octet, send: Word32, receive: Word32, max: nat)
    requires Contains(receive, o) && !Contains(send, o)
    ensures Classify(Escaped(Append([o, o]), send), receive, max) != Some(Frame([o, o]))
  {
    DroppedPair(o, send, receive);
    LittleIsLeft([o, o], Trailer([o, o]), send, receive);
    ShorterDataIsAnother(Escaped(Append([o, o]), send), [o, o], receive, max);
  }

  lemma {:induction false} UnescapedShrinks(kept: Bytes)
    ensures |Unescaped(kept)| <= |kept|
  {
    if kept != [] {
      UnescapedShrinks(kept[..|kept| - 1]);
    }
  }

  lemma {:induction false} KeptPrefix(a: Bytes, b: Bytes, accm: Word32)
    ensures Kept(a + b, accm) == Kept(a, accm) + Kept(b, accm)
  {
    if b == [] {
      assert a + b == a;
    } else {
      KeptPrefix(a, b[..|b| - 1], accm);
      assert (a + b)[..|a + b| - 1] == a + b[..|b| - 1];
    }
  }
}
