/** The restartable encoder and the incremental decoder, octet by octet, against the meaning
    `AsyncFraming` gives to frames and streams. */
module AsyncCodec {
  import opened Octets
  import Fcs16
  import opened AsyncFraming

  datatype Stage = OpeningFlag | FrameOctets | FcsLow | FcsHigh | ClosingFlag | Complete

  /** The octets before escaping that a stage of the encoder has in front of it. */
  function PendingAt(frame: Bytes, position: nat, stage: Stage): Bytes {
    match stage
    case OpeningFlag => Fcs16.Append(frame)
    case FrameOctets => if position <= |frame| then frame[position..] + Fcs16.Trailer(frame) else []
    case FcsLow => Fcs16.Trailer(frame)
    case FcsHigh => Fcs16.Trailer(frame)[1..]
    case ClosingFlag | Complete => []
  }

  /** The stage behind one more octet of the frame. */
  function NextStage(frame: Bytes, position: nat): Stage {
    if position == |frame| then FcsLow else FrameOctets
  }

  lemma PendingNext(frame: Bytes, position: nat)
    requires position < |frame|
    ensures PendingAt(frame, position + 1, NextStage(frame, position + 1))
            == PendingAt(frame, position, FrameOctets)[1..]
  {
    TailOf(frame, position, Fcs16.Trailer(frame));
  }

  class AsyncEncoder {
    const frame: Bytes
    const sendAccm: Word32
    var position: nat
    var fcs: bv16
    var stage: Stage
    var escapeSecond: bool

    /** The octets before escaping that are still to go out. */
    function Pending(): Bytes
      reads this
    {
      PendingAt(frame, position, stage)
    }

    predicate Valid()
      reads this
    {
      && position <= |frame|
      && (stage == OpeningFlag ==> position == 0 && !escapeSecond)
      && (stage == ClosingFlag || stage == Complete ==> !escapeSecond)
      && (stage == FrameOctets ==> position < |frame|)
      && (stage == FcsLow || stage == FcsHigh ==> position == |frame|)
      && fcs == Fcs16.Fcs(frame[..position])
      && (escapeSecond ==> Pending() != [] && MustEscape(Pending()[0], sendAccm))
    }

    /** The octets still to go out on the wire. */
    function Remaining(): Bytes
      requires Valid()
      reads this
    {
      match stage
      case OpeningFlag => EncodeAsync(frame, sendAccm)
      case ClosingFlag => [FLAG]
      case Complete => []
      case _ =>
        var wire := Escaped(Pending(), sendAccm) + [FLAG];
        if escapeSecond then wire[1..] else wire
    }

    constructor (frame: Bytes, sendAccm: Word32)
      ensures Valid() && Remaining() == EncodeAsync(frame, sendAccm)
      ensures this.frame == frame && this.sendAccm == sendAccm
    {
      this.frame := frame;
      this.sendAccm := sendAccm;
      position, fcs, stage, escapeSecond := 0, Fcs16.INITIAL, OpeningFlag, false;
    }

    method LogicalOctet() returns (octet: Octet)
      requires Valid() && (stage == FrameOctets || stage == FcsLow || stage == FcsHigh)
      ensures Pending() != [] && octet == Pending()[0]
    {
      assert frame[..|frame|] == frame;
      if stage == FrameOctets {
        octet := frame[position];
      } else if stage == FcsLow {
        octet := Fcs16.Complement(fcs)[0];
      } else {
        octet := Fcs16.Complement(fcs)[1];
      }
    }

    /** The next wire octet; looking at it changes nothing. */
    method Peek() returns (r: Option<Octet>)
      requires Valid()
      ensures r == if Remaining() == [] then None else Some(Remaining()[0])
    {
      if stage == Complete {
        return None;
      }
      if stage == OpeningFlag || stage == ClosingFlag {
        return Some(FLAG);
      }
      var octet := LogicalOctet();
      EscapedHead(Pending(), sendAccm);
      if MustEscape(octet, sendAccm) {
        return Some(if escapeSecond then Toggle(octet) else ESCAPE);
      }
      return Some(octet);
    }

    method ConsumeFrameOctet(octet: Octet)
      requires Valid() && !escapeSecond && stage == FrameOctets && octet == frame[position]
      modifies this`position, this`fcs, this`stage
      ensures Valid() && (stage == FrameOctets || stage == FcsLow)
      ensures Pending() == old(Pending())[1..]
    {
      var updated := ExtendFcs(frame, position, fcs);
      PendingNext(frame, position);
      fcs := updated;
      position := position + 1;
      stage := NextStage(frame, position);
    }

    method FinishLogicalOctet(octet: Octet)
      requires Valid() && !escapeSecond && (stage == FrameOctets || stage == FcsLow || stage == FcsHigh)
      requires Pending() != [] && octet == Pending()[0]
      modifies this`position, this`fcs, this`stage
      ensures Valid() && stage != OpeningFlag && stage != Complete
      ensures Pending() == old(Pending())[1..]
    {
      if stage == FrameOctets {
        ConsumeFrameOctet(octet);
      } else {
        stage := if stage == FcsLow then FcsHigh else ClosingFlag;
      }
    }

    method OpenFrame()
      requires Valid() && stage == OpeningFlag
      modifies this`stage
      ensures Valid() && Remaining() == old(Remaining())[1..]
    {
      BehindOpeningFlag(frame, sendAccm);
      stage := if frame == [] then FcsLow else FrameOctets;
      assert Pending() == Fcs16.Append(frame);
    }

    /** A logical octet whose last wire octet goes out. */
    method CompleteOctet(octet: Octet)
      requires Valid() && (stage == FrameOctets || stage == FcsLow || stage == FcsHigh)
      requires Pending() != [] && octet == Pending()[0] && (escapeSecond || !MustEscape(octet, sendAccm))
      modifies this`position, this`fcs, this`stage, this`escapeSecond
      ensures Valid() && old(Remaining()) != [] && Remaining() == old(Remaining())[1..]
    {
      EscapedHead(Pending(), sendAccm);
      ghost var rest := Escaped(Pending()[1..], sendAccm) + [FLAG];
      escapeSecond := false;
      FinishLogicalOctet(octet);
      EscapedNothing(sendAccm);
      assert Remaining() == rest;
    }

    /** The escape of a logical octet goes out. */
    method BeginEscape()
      requires Valid() && (stage == FrameOctets || stage == FcsLow || stage == FcsHigh)
      requires !escapeSecond && Pending() != [] && MustEscape(Pending()[0], sendAccm)
      modifies this`escapeSecond
      ensures Valid() && old(Remaining()) != [] && Remaining() == old(Remaining())[1..]
    {
      EscapedHead(Pending(), sendAccm);
      escapeSecond := true;
    }

    /** An octet that must be escaped takes two steps. */
    method AdvanceOctet()
      requires Valid() && (stage == FrameOctets || stage == FcsLow || stage == FcsHigh)
      modifies this`position, this`fcs, this`stage, this`escapeSecond
      ensures Valid() && old(Remaining()) != [] && Remaining() == old(Remaining())[1..]
    {
      var octet := LogicalOctet();
      if MustEscape(octet, sendAccm) && !escapeSecond {
        BeginEscape();
      } else {
        CompleteOctet(octet);
      }
    }

    /** Commits the octet that was peeked at. */
    method Advance()
      requires Valid()
      modifies this`position, this`fcs, this`stage, this`escapeSecond
      ensures Valid()
      ensures Remaining() == if old(Remaining()) == [] then [] else old(Remaining())[1..]
    {
      if stage == OpeningFlag {
        OpenFrame();
      } else if stage == ClosingFlag {
        stage := Complete;
      } else if stage != Complete {
        AdvanceOctet();
      }
    }

    /** Offers the next octet; a refusal leaves it pending. */
    method Offer(accepted: bool) returns (taken: Bytes)
      requires Valid()
      modifies this`position, this`fcs, this`stage, this`escapeSecond
      ensures Valid() && taken + Remaining() == old(Remaining())
      ensures |taken| == if accepted && old(Remaining()) != [] then 1 else 0
    {
      var octet := Peek();
      taken := [];
      if octet.Some? && accepted {
        HeadAndTail(Remaining());
        Advance();
        taken := [octet.value];
      }
    }
  }

  lemma HeadAndTail(octets: Bytes)
    ensures octets != [] ==> [octets[0]] + octets[1..] == octets
  {
  }

  /** One accepted offer behind the octets already taken. */
  method Take(encoder: AsyncEncoder, taken: Bytes, ghost whole: Bytes) returns (more: Bytes, busy: bool)
    requires encoder.Valid() && taken + encoder.Remaining() == whole
    modifies encoder`position, encoder`fcs, encoder`stage, encoder`escapeSecond
    ensures encoder.Valid() && more + encoder.Remaining() == whole
    ensures if busy then |more| == |taken| + 1 else more == taken && encoder.Remaining() == []
  {
    var one := encoder.Offer(true);
    Associate(taken, one, encoder.Remaining());
    more, busy := taken + one, one != [];
  }

  /** How many offers a sink takes, from offer `n` on, before it first refuses. */
  function WillingFrom(accept: seq<bool>, n: nat): nat
    decreases |accept| - n
  {
    if n < |accept| && accept[n] then 1 + WillingFrom(accept, n + 1) else 0
  }

  function Willing(accept: seq<bool>): nat { WillingFrom(accept, 0) }

  /** Offers octets to a sink that accepts as `accept` says, until it refuses or the frame is done. */
  method Pump(encoder: AsyncEncoder, accept: seq<bool>) returns (taken: Bytes)
    requires encoder.Valid()
    modifies encoder`position, encoder`fcs, encoder`stage, encoder`escapeSecond
    ensures encoder.Valid() && taken + encoder.Remaining() == old(encoder.Remaining())
    ensures |taken| == Min(Willing(accept), |old(encoder.Remaining())|)
  {
    taken := [];
    ghost var whole := encoder.Remaining();
    var busy := true;
    while busy && |taken| < |accept| && accept[|taken|]
      invariant encoder.Valid() && taken + encoder.Remaining() == whole
      invariant |taken| <= |accept| && |taken| + WillingFrom(accept, |taken|) == Willing(accept)
      invariant busy || encoder.Remaining() == []
      decreases |accept| - |taken|, busy
    {
      taken, busy := Take(encoder, taken, whole);
    }
  }

  lemma BehindOpeningFlag(frame: Bytes, accm: Word32)
    ensures EncodeAsync(frame, accm)[1..] == Escaped(Fcs16.Append(frame), accm) + [FLAG]
  {
  }

  lemma EscapedNothing(accm: Word32)
    ensures Escaped([], accm) + [FLAG] == [FLAG]
  {
  }

  /** The register over one more octet of the frame. */
  method ExtendFcs(frame: Bytes, n: nat, fcs: bv16) returns (r: bv16)
    requires n < |frame| && fcs == Fcs16.Fcs(frame[..n])
    ensures r == Fcs16.Fcs(frame[..n + 1])
  {
    assert frame[..n + 1][..n] == frame[..n];
    r := Fcs16.UpdateFcs16(fcs, frame[n]);
  }

  lemma TailOf(frame: Bytes, n: nat, trailer: Bytes)
    requires n < |frame|
    ensures (frame[n..] + trailer)[1..] == frame[n + 1..] + trailer && (frame[n..] + trailer)[0] == frame[n]
    ensures n + 1 == |frame| ==> frame[n + 1..] + trailer == trailer
  {
  }

  lemma OneInFront(o: Octet, tail: Bytes, behind: Bytes)
    ensures var wire := [o] + tail + behind; wire[0] == o && wire[1..] == tail + behind
  {
    Associate([o], tail, behind);
  }

  lemma TwoInFront(o: Octet, p: Octet, tail: Bytes, behind: Bytes)
    ensures var wire := [o, p] + tail + behind;
            && |wire| >= 2 && wire[0] == o && wire[1..] == [p] + (tail + behind) && wire[1..][1..] == tail + behind
  {
    OneInFront(o, [p] + tail, behind);
    OneInFront(p, tail, behind);
    Associate([o], [p], tail);
    Associate([p], tail, behind);
    assert [o] + [p] == [o, p];
  }

  lemma EscapedHead(pending: Bytes, accm: Word32)
    requires pending != []
    ensures var wire := Escaped(pending, accm) + [FLAG];
            var rest := Escaped(pending[1..], accm) + [FLAG];
            if MustEscape(pending[0], accm)
            then && |wire| >= 2 && wire[0] == ESCAPE
                 && wire[1..] == [Toggle(pending[0])] + rest && wire[1..][1..] == rest
            else wire[0] == pending[0] && wire[1..] == rest
  {
    if MustEscape(pending[0], accm) {
      TwoInFront(ESCAPE, Toggle(pending[0]), Escaped(pending[1..], accm), [FLAG]);
    } else {
      OneInFront(pending[0], Escaped(pending[1..], accm), [FLAG]);
    }
  }

  /** Any number of pumps, whatever they accept, puts a prefix of the encoded frame on the wire and
      keeps the rest. */
  method PumpAll(encoder: AsyncEncoder, patterns: seq<seq<bool>>) returns (sent: Bytes)
    requires encoder.Valid()
    modifies encoder`position, encoder`fcs, encoder`stage, encoder`escapeSecond
    ensures encoder.Valid() && sent + encoder.Remaining() == old(encoder.Remaining())
  {
    sent := [];
    for n := 0 to |patterns|
      invariant encoder.Valid() && sent + encoder.Remaining() == old(encoder.Remaining())
    {
      var taken := Pump(encoder, patterns[n]);
      Associate(sent, taken, encoder.Remaining());
      sent := sent + taken;
    }
  }

  // ----- The decoder -----

  datatype Decoder = Decoder(frame: Bytes, synchronized: bool, escaped: bool, overflowed: bool)

  const RESET := Decoder([], false, false, false)

  function FinishAtFlag(d: Decoder, max: nat): (Decoder, Option<Event>) {
    if !d.synchronized then (Decoder([], true, false, false), None)
    else if d.escaped then (Decoder([], true, false, false), Some(InvalidFrame(EscapeBeforeFlag)))
    else if d.overflowed then (d.(frame := [], overflowed := false), Some(Overflow(max)))
    else if d.frame == [] then (d, None)
    else if |d.frame| < MINIMUM_LENGTH then (d.(frame := []), Some(InvalidFrame(TooShort)))
    else if !Fcs16.Valid(d.frame) then (d.(frame := []), Some(FcsError(|d.frame|)))
    else (d.(frame := []), Some(Frame(d.frame[..|d.frame| - FCS_LENGTH])))
  }

  function PushOctet(d: Decoder, o: Octet, accm: Word32, max: nat): (Decoder, Option<Event>) {
    if o == FLAG then FinishAtFlag(d, max)
    else if !d.synchronized || d.overflowed then (d, None)
    else if Contains(accm, o) then (d, None)
    else if !d.escaped && o == ESCAPE then (d.(escaped := true), None)
    else
      var decoded := if d.escaped then Toggle(o) else o;
      if |d.frame| == max then (d.(frame := [], escaped := false, overflowed := true), None)
      else (d.(frame := d.frame + [decoded], escaped := false), None)
  }

  class AsyncDecoder {
    const receiveAccm: Word32
    const maximumUnescapedLength: nat
    var frame: Bytes
    var synchronized: bool
    var escaped: bool
    var overflowed: bool

    function View(): Decoder
      reads this
    {
      Decoder(frame, synchronized, escaped, overflowed)
    }

    constructor (receiveAccm: Word32, maximumUnescapedLength: nat)
      ensures View() == RESET
      ensures this.receiveAccm == receiveAccm && this.maximumUnescapedLength == maximumUnescapedLength
    {
      this.receiveAccm, this.maximumUnescapedLength := receiveAccm, maximumUnescapedLength;
      frame, synchronized, escaped, overflowed := [], false, false, false;
    }

    method Reset()
      modifies this`frame, this`synchronized, this`escaped, this`overflowed
      ensures View() == RESET
    {
      frame, synchronized, escaped, overflowed := [], false, false, false;
    }

    method Push(octet: Octet) returns (event: Option<Event>)
      modifies this`frame, this`synchronized, this`escaped, this`overflowed
      ensures (View(), event) == PushOctet(old(View()), octet, receiveAccm, maximumUnescapedLength)
    {
      if octet == FLAG {
        event := FinishSegment();
        return;
      }
      if !synchronized || overflowed {
        return None;
      }
      if Contains(receiveAccm, octet) {
        return None;
      }
      var decoded := octet;
      if escaped {
        escaped := false;
        decoded := Toggle(octet);
      } else if octet == ESCAPE {
        escaped := true;
        return None;
      }
      if |frame| == maximumUnescapedLength {
        frame := [];
        overflowed := true;
        return None;
      }
      frame := frame + [decoded];
      return None;
    }

    method FinishSegment() returns (event: Option<Event>)
      modifies this`frame, this`synchronized, this`escaped, this`overflowed
      ensures (View(), event) == FinishAtFlag(old(View()), maximumUnescapedLength)
    {
      if !synchronized {
        synchronized, frame, escaped, overflowed := true, [], false, false;
        return None;
      }
      if escaped {
        frame, escaped, overflowed := [], false, false;
        return Some(InvalidFrame(EscapeBeforeFlag));
      }
      if overflowed {
        frame, overflowed := [], false;
        return Some(Overflow(maximumUnescapedLength));
      }
      if frame == [] {
        return None;
      }
      if |frame| < MINIMUM_LENGTH {
        frame := [];
        return Some(InvalidFrame(TooShort));
      }
      if !Fcs16.Valid(frame) {
        event := Some(FcsError(|frame|));
        frame := [];
        return;
      }
      event := Some(Frame(frame[..|frame| - FCS_LENGTH]));
      frame := [];
    }
  }

  /** The decoder after a stream, and the events on the way. */
  function Decode(d: Decoder, stream: Bytes, accm: Word32, max: nat): (Decoder, seq<Event>) {
    if stream == [] then (d, [])
    else
      var (before, events) := Decode(d, stream[..|stream| - 1], accm, max);
      var (after, event) := PushOctet(before, stream[|stream| - 1], accm, max);
      (after, events + if event.Some? then [event.value] else [])
  }

  /** The decoder holds these octets, perhaps with an escape behind them, or knows that they were too many. */
  predicate Holds(d: Decoder, octets: Bytes, dangling: bool, max: nat) {
    && d.synchronized
    && (d.overflowed <==> |octets| > max)
    && (if d.overflowed then d.frame == [] && !d.escaped else d.frame == octets && d.escaped == dangling)
  }

  /** The decoder shows what it has kept of a segment. */
  predicate Shows(d: Decoder, kept: Bytes, max: nat) { Holds(d, Unescaped(kept), Dangling(kept), max) }

  /** The decoder's state is its view of the open segment, once a flag has been seen. */
  predicate Reflects(d: Decoder, stream: Bytes, accm: Word32, max: nat) {
    if FLAG !in stream then d == RESET else Shows(d, Kept(OpenSegment(stream), accm), max)
  }

  /** An octet that is not dropped escapes the next one or is decoded, or comes too late. */
  lemma HoldsNext(d: Decoder, octets: Bytes, dangling: bool, o: Octet, accm: Word32, max: nat)
    requires Holds(d, octets, dangling, max) && o != FLAG && !Contains(accm, o)
    ensures var more := if dangling then [Toggle(o)] else if o == ESCAPE then [] else [o];
            Holds(PushOctet(d, o, accm, max).0, octets + more, o == ESCAPE && !dangling, max)
    ensures PushOctet(d, o, accm, max).1 == None
  {
    if !dangling && o == ESCAPE { assert octets + [] == octets; }
  }

  lemma ShowsNext(d: Decoder, kept: Bytes, o: Octet, accm: Word32, max: nat)
    requires Shows(d, kept, max) && o != FLAG && !Contains(accm, o)
    ensures Shows(PushOctet(d, o, accm, max).0, kept + [o], max) && PushOctet(d, o, accm, max).1 == None
  {
    UnescapedAppend(kept, o);
    HoldsNext(d, Unescaped(kept), Dangling(kept), o, accm, max);
  }

  lemma SegmentGoesOn(stream: Bytes, o: Octet)
    requires o != FLAG
    ensures FLAG in stream + [o] <==> FLAG in stream
    ensures OpenSegment(stream + [o]) == OpenSegment(stream) + [o]
  {
    assert (stream + [o])[..|stream|] == stream;
  }

  /** One octet inside a segment, dropped, escaping or decoded. */
  lemma OctetReflects(d: Decoder, stream: Bytes, o: Octet, accm: Word32, max: nat)
    requires Reflects(d, stream, accm, max) && o != FLAG
    ensures Reflects(PushOctet(d, o, accm, max).0, stream + [o], accm, max)
    ensures PushOctet(d, o, accm, max).1 == None
  {
    SegmentGoesOn(stream, o);
    if FLAG in stream {
      var kept := Kept(OpenSegment(stream), accm);
      KeptAppend(OpenSegment(stream), o, accm);
      if Contains(accm, o) {
        assert kept + [] == kept;
      } else {
        ShowsNext(d, kept, o, accm, max);
      }
    }
  }

  lemma FlagOpens(stream: Bytes)
    ensures FLAG in stream + [FLAG] && OpenSegment(stream + [FLAG]) == []
  {
    assert (stream + [FLAG])[|stream|] == FLAG;
  }

  /** What a flag makes of the decoder's view of the open segment. */
  lemma FlagClassifies(d: Decoder, segment: Bytes, accm: Word32, max: nat)
    requires Shows(d, Kept(segment, accm), max)
    ensures FinishAtFlag(d, max) == (Decoder([], true, false, false), Classify(segment, accm, max))
  {
  }

  lemma FlagReflects(d: Decoder, stream: Bytes, accm: Word32, max: nat)
    requires Reflects(d, stream, accm, max)
    ensures Reflects(PushOctet(d, FLAG, accm, max).0, stream + [FLAG], accm, max)
    ensures PushOctet(d, FLAG, accm, max).1
            == if FLAG in stream then Classify(OpenSegment(stream), accm, max) else None
  {
    FlagOpens(stream);
    if FLAG in stream { FlagClassifies(d, OpenSegment(stream), accm, max); }
  }

  /** From the start, every stream causes the events of its segments, in order. */
  lemma {:induction false} DecoderFollowsSegments(stream: Bytes, accm: Word32, max: nat)
    ensures Reflects(Decode(RESET, stream, accm, max).0, stream, accm, max)
    ensures Decode(RESET, stream, accm, max).1 == Events(Segments(stream), accm, max)
  {
    if stream != [] {
      var (front, o) := (stream[..|stream| - 1], stream[|stream| - 1]);
      var d := Decode(RESET, front, accm, max).0;
      assert stream == front + [o];
      DecoderFollowsSegments(front, accm, max);
      if o == FLAG {
        FlagReflects(d, front, accm, max);
        EventsAppend(Segments(front), OpenSegment(front), accm, max);
      } else {
        OctetReflects(d, front, o, accm, max);
      }
    }
  }

  lemma EventsAppend(segments: seq<Bytes>, segment: Bytes, accm: Word32, max: nat)
    ensures Events(segments + [segment], accm, max)
            == Events(segments, accm, max)
               + if Classify(segment, accm, max).Some? then [Classify(segment, accm, max).value] else []
  {
    assert (segments + [segment])[..|segments|] == segments;
  }

  /** Feeding a stream in two pieces is feeding it whole. */
  lemma {:induction false} DecodeAppend(d: Decoder, a: Bytes, b: Bytes, accm: Word32, max: nat)
    ensures var (middle, events) := Decode(d, a, accm, max);
            var (end, more) := Decode(middle, b, accm, max);
            Decode(d, a + b, accm, max) == (end, events + more)
  {
    if b == [] {
      assert a + b == a;
      assert Decode(d, a, accm, max).1 + [] == Decode(d, a, accm, max).1;
    } else {
      var (front, last) := (b[..|b| - 1], b[|b| - 1]);
      DecodeAppend(d, a, front, accm, max);
      assert (a + b)[..|a + b| - 1] == a + front && (a + b)[|a + b| - 1] == last;
      var (middle, events) := Decode(d, a, accm, max);
      var (end, more) := Decode(middle, front, accm, max);
      var event := PushOctet(end, last, accm, max).1;
      var one := if event.Some? then [event.value] else [];
      assert events + more + one == events + (more + one);
    }
  }

  function Concatenated(pieces: seq<Bytes>): Bytes {
    if pieces == [] then [] else Concatenated(pieces[..|pieces| - 1]) + pieces[|pieces| - 1]
  }

  function DecodePieces(d: Decoder, pieces: seq<Bytes>, accm: Word32, max: nat): (Decoder, seq<Event>) {
    if pieces == [] then (d, [])
    else
      var (before, events) := DecodePieces(d, pieces[..|pieces| - 1], accm, max);
      var (after, more) := Decode(before, pieces[|pieces| - 1], accm, max);
      (after, events + more)
  }

  /** However a stream is divided, from any state. */
  lemma {:induction false} PiecesDoNotMatter(d: Decoder, pieces: seq<Bytes>, accm: Word32, max: nat)
    ensures DecodePieces(d, pieces, accm, max) == Decode(d, Concatenated(pieces), accm, max)
  {
    if pieces != [] {
      PiecesDoNotMatter(d, pieces[..|pieces| - 1], accm, max);
      DecodeAppend(d, Concatenated(pieces[..|pieces| - 1]), pieces[|pieces| - 1], accm, max);
    }
  }

  // ----- Round trip and resynchronisation -----

  lemma {:induction false} FlaglessTail(stream: Bytes, tail: Bytes)
    requires FLAG !in tail
    ensures OpenSegment(stream + tail) == OpenSegment(stream) + tail && Segments(stream + tail) == Segments(stream)
  {
    if tail == [] {
      assert stream + tail == stream;
    } else {
      FlaglessTail(stream, tail[..|tail| - 1]);
      assert (stream + tail)[..|stream + tail| - 1] == stream + tail[..|tail| - 1];
      assert tail == tail[..|tail| - 1] + [tail[|tail| - 1]];
    }
  }

  lemma FlagCuts(stream: Bytes)
    requires FLAG in stream
    ensures Segments(stream + [FLAG]) == Segments(stream) + [OpenSegment(stream)]
  {
    assert (stream + [FLAG])[..|stream|] == stream;
  }

  lemma FlagStays(stream: Bytes, tail: Bytes)
    requires FLAG in stream
    ensures FLAG in stream + tail
  {
    var k :| 0 <= k < |stream| && stream[k] == FLAG;
    assert (stream + tail)[k] == FLAG;
  }

  lemma NothingInFront(segment: Bytes)
    ensures [] + segment == segment
  {
  }

  /** Behind any stream, an enclosed flagless segment is the last one cut. */
  lemma EnclosedSegment(stream: Bytes, segment: Bytes)
    requires FLAG !in segment
    ensures Segments(stream + ([FLAG] + segment + [FLAG])) == Segments(stream + [FLAG]) + [segment]
  {
    var flagged := stream + [FLAG];
    FlagOpens(stream);
    FlaglessTail(flagged, segment);
    NothingInFront(segment);
    FlagStays(flagged, segment);
    FlagCuts(flagged + segment);
    Associate(stream, [FLAG] + segment, [FLAG]);
    Associate(stream, [FLAG], segment);
  }

  /** The event for the segment that a flag ends behind the stream, if there is one. */
  function Interrupted(before: Bytes, accm: Word32, max: nat): seq<Event> {
    var event := Classify(OpenSegment(before), accm, max);
    if FLAG in before && event.Some? then [event.value] else []
  }

  /** The events before a flag, and the one the flag itself may cause. */
  lemma EventsAtFlag(before: Bytes, accm: Word32, max: nat)
    ensures var known := Events(Segments(before), accm, max);
            var all := Events(Segments(before + [FLAG]), accm, max);
            all == known + Interrupted(before, accm, max)
  {
    if FLAG in before {
      FlagCuts(before);
      EventsAppend(Segments(before), OpenSegment(before), accm, max);
    } else {
      assert (before + [FLAG])[..|before|] == before;
    }
  }

  lemma EventsOfEnclosed(before: Bytes, wire: Bytes, receive: Word32, max: nat, event: Event)
    requires FLAG !in wire && Classify(wire, receive, max) == Some(event)
    ensures Events(Segments(before + ([FLAG] + wire + [FLAG])), receive, max)
            == Events(Segments(before), receive, max) + Interrupted(before, receive, max) + [event]
  {
    EnclosedSegment(before, wire);
    EventsAppend(Segments(before + [FLAG]), wire, receive, max);
    EventsAtFlag(before, receive, max);
  }

  lemma GroupEvents(a: seq<Event>, b: seq<Event>, c: seq<Event>)
    ensures a + b + c == a + (b + c)
  {
  }

  lemma SameBehind(known: seq<Event>, a: seq<Event>, b: seq<Event>)
    requires known + a == known + b
    ensures a == b
  {
    assert a == (known + a)[|known|..] && b == (known + b)[|known|..];
  }

  /** Behind any stream, an enclosed segment ends in its own event. */
  lemma EnclosedEvents(before: Bytes, wire: Bytes, receive: Word32, max: nat, event: Event)
    requires FLAG !in wire && Classify(wire, receive, max) == Some(event)
    ensures Decode(Decode(RESET, before, receive, max).0, [FLAG] + wire + [FLAG], receive, max).1
            == Interrupted(before, receive, max) + [event]
  {
    var enclosed := [FLAG] + wire + [FLAG];
    var known := Events(Segments(before), receive, max);
    var (interrupted, last) := (Interrupted(before, receive, max), [event]);
    var (middle, first) := Decode(RESET, before, receive, max);
    var more := Decode(middle, enclosed, receive, max).1;
    DecodeAppend(RESET, before, enclosed, receive, max);
    DecoderFollowsSegments(before, receive, max);
    DecoderFollowsSegments(before + enclosed, receive, max);
    EventsOfEnclosed(before, wire, receive, max, event);
    assert first == known && known + more == known + interrupted + last;
    GroupEvents(known, interrupted, last);
    SameBehind(known, more, interrupted + last);
  }

  lemma FrameEvents(before: Bytes, frame: Bytes, send: Word32, receive: Word32, max: nat)
    requires SubMap(receive, send)
    ensures Decode(Decode(RESET, before, receive, max).0, EncodeAsync(frame, send), receive, max).1
            == Interrupted(before, receive, max) + [EventFor(frame, max)]
  {
    EscapingIsUndone(Fcs16.Append(frame), send, receive);
    EncodedFrameIsClassified(frame, send, receive, max);
    EnclosedEvents(before, Escaped(Fcs16.Append(frame), send), receive, max, EventFor(frame, max));
  }

  /** Whatever was received before, an encoded frame ends in its own event, with at most one event
      for what it interrupted. The event is the frame itself exactly when its length fits. */
  lemma FrameIsReceived(before: Bytes, frame: Bytes, send: Word32, receive: Word32, max: nat)
    requires SubMap(receive, send)
    ensures var start := Decode(RESET, before, receive, max).0;
            var events := Decode(start, EncodeAsync(frame, send), receive, max).1;
            && 1 <= |events| <= 2 && events[|events| - 1] == EventFor(frame, max)
            && (|events| == 2 ==> FLAG in before && Some(events[0]) == Classify(OpenSegment(before), receive, max))
            && (EventFor(frame, max) == Frame(frame) <==> MINIMUM_LENGTH <= |frame| + FCS_LENGTH <= max)
  {
    FrameEvents(before, frame, send, receive, max);
  }

  /** Every frame that fits gets through exactly when the sender escapes all the controls the
      receiver drops, or when no frame fits at all. */
  lemma MapsDecideTransparency(send: Word32, receive: Word32, max: nat)
    ensures SubMap(receive, send) || max < MINIMUM_LENGTH <==>
              forall frame: Bytes | MINIMUM_LENGTH <= |frame| + FCS_LENGTH <= max ::
                Classify(Escaped(Fcs16.Append(frame), send), receive, max) == Some(Frame(frame))
  {
    if SubMap(receive, send) {
      forall frame: Bytes | MINIMUM_LENGTH <= |frame| + FCS_LENGTH <= max
        ensures Classify(Escaped(Fcs16.Append(frame), send), receive, max) == Some(Frame(frame))
      {
        EncodedFrameIsClassified(frame, send, receive, max);
      }
    } else if max >= MINIMUM_LENGTH {
      var o: Octet :| Contains(receive, o) && !Contains(send, o);
      var lost: Bytes := [o, o];
      UnescapedControlIsLost(o, send, receive, max);
      assert MINIMUM_LENGTH <= |lost| + FCS_LENGTH <= max;
    }
  }
}
