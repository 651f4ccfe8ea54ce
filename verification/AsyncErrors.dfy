/** What the events of the decoder say about the octets received, and that a spoiled frame is never taken for
    a good one. */
module AsyncErrors {
  import opened Octets
  import Folds
  import opened Fcs16
  import opened AsyncFraming
  import opened AsyncCodec

  // ----- A good sequence is a frame and its trailer -----

  lemma EqualPairs(f: bv16, p: Bytes, q: Bytes)
    requires |p| == 2 && |q| == 2 && Folds.Fold(Update, f, p) == Folds.Fold(Update, f, q)
    ensures p == q
  {
    FoldPair(f, p);
    FoldPair(f, q);
    if p[0] != q[0] || p[1] != q[1] { PairsDiffer(f, p[0], p[1], q[0], q[1]); }
  }

  lemma TrailerIsUnique(frame: Bytes, pair: Bytes)
    requires |pair| == 2 && Valid(frame + pair)
    ensures pair == Trailer(frame)
  {
    AppendedFcsIsGood(frame);
    FoldsAppend(frame, pair);
    FoldsAppend(frame, Trailer(frame));
    EqualPairs(Fcs(frame), pair, Trailer(frame));
  }

  lemma FoldsAppend(frame: Bytes, pair: Bytes)
    ensures Fcs(frame + pair) == Folds.Fold(Update, Fcs(frame), pair)
  {
    Folds.FoldAppend(Update, INITIAL, frame, pair);
  }

  /** Octets are good exactly if they are their own front with its check sequence behind it. */
  lemma GoodIsAppended(octets: Bytes)
    requires |octets| >= 2
    ensures Valid(octets) <==> octets == Append(octets[..|octets| - 2])
  {
    var (frame, pair) := (octets[..|octets| - 2], octets[|octets| - 2..]);
    assert octets == frame + pair;
    AppendedFcsIsGood(frame);
    if Valid(octets) { TrailerIsUnique(frame, pair); }
  }

  lemma AppendedFront(octets: Bytes, frame: Bytes)
    requires octets == Append(frame)
    ensures |octets| == |frame| + 2 && octets[..|octets| - 2] == frame
  {
  }

  // ----- What a flag reports -----

  /** The octets between the last flag and the next one, when dropped controls and escapes are gone. */
  function Received(stream: Bytes, accm: Word32): Bytes { Unescaped(Kept(OpenSegment(stream), accm)) }

  predicate EndsEscaped(stream: Bytes, accm: Word32) { Dangling(Kept(OpenSegment(stream), accm)) }

  /** What is said of the octets of a segment. */
  predicate Tells(event: Option<Event>, octets: Bytes, dangling: bool, max: nat) {
    match event
    case Some(Frame(f)) => !dangling && octets == Append(f) && 4 <= |octets| <= max
    case Some(FcsError(n)) =>
      !dangling && n == |octets| && 4 <= n <= max && octets != Append(octets[..n - 2])
    case Some(InvalidFrame(TooShort)) => !dangling && 0 < |octets| < 4 && |octets| <= max
    case Some(InvalidFrame(EscapeBeforeFlag)) => dangling && |octets| <= max
    case Some(Overflow(n)) => n == max && |octets| > max
    case None => !dangling && octets == []
  }

  lemma ClassifyTells(segment: Bytes, accm: Word32, max: nat)
    ensures var kept := Kept(segment, accm); Tells(Classify(segment, accm, max), Unescaped(kept), Dangling(kept), max)
  {
    var octets := Unescaped(Kept(segment, accm));
    if |octets| >= 4 { GoodIsAppended(octets); }
  }

  /** Two events cannot be told of the same octets. */
  lemma TellsOnce(a: Option<Event>, b: Option<Event>, octets: Bytes, dangling: bool, max: nat)
    requires Tells(a, octets, dangling, max) && Tells(b, octets, dangling, max)
    ensures a == b
  {
    if a.Some? && a.value.Frame? { AppendedFront(octets, a.value.octets); }
    if b.Some? && b.value.Frame? { AppendedFront(octets, b.value.octets); }
  }

  /** What pushing one more octet reports, whatever came before. */
  function Next(stream: Bytes, o: Octet, accm: Word32, max: nat): Option<Event> {
    PushOctet(Decode(RESET, stream, accm, max).0, o, accm, max).1
  }

  /** Only a flag behind a flag reports anything, and it reports exactly what is so: a frame if the octets
      between the two are that frame with its own check sequence, an error of the sequence if they are not
      their front with its sequence, and the other errors likewise. */
  lemma EventsAreExact(stream: Bytes, o: Octet, accm: Word32, max: nat, event: Option<Event>)
    ensures o != FLAG || FLAG !in stream ==> Next(stream, o, accm, max) == None
    ensures o == FLAG && FLAG in stream ==>
              (Next(stream, o, accm, max) == event
               <==> Tells(event, Received(stream, accm), EndsEscaped(stream, accm), max))
  {
    var d := Decode(RESET, stream, accm, max).0;
    DecoderFollowsSegments(stream, accm, max);
    if o == FLAG {
      FlagReflects(d, stream, accm, max);
      if FLAG in stream {
        ClassifyTells(OpenSegment(stream), accm, max);
        if Tells(event, Received(stream, accm), EndsEscaped(stream, accm), max) {
          TellsOnce(event, Next(stream, o, accm, max), Received(stream, accm), EndsEscaped(stream, accm), max);
        }
      }
    } else {
      OctetReflects(d, stream, o, accm, max);
    }
  }

  /** A segment carries the frame. */
  predicate CarriesFrame(segment: Bytes, frame: Bytes, accm: Word32, max: nat) {
    Tells(Some(Frame(frame)), Unescaped(Kept(segment, accm)), Dangling(Kept(segment, accm)), max)
  }

  lemma ClassifiedAsFrame(segment: Bytes, frame: Bytes, accm: Word32, max: nat)
    ensures Classify(segment, accm, max) == Some(Frame(frame)) <==> CarriesFrame(segment, frame, accm, max)
  {
    var kept := Kept(segment, accm);
    ClassifyTells(segment, accm, max);
    if CarriesFrame(segment, frame, accm, max) {
      TellsOnce(Classify(segment, accm, max), Some(Frame(frame)), Unescaped(kept), Dangling(kept), max);
    }
  }

  predicate SomeCarries(segments: seq<Bytes>, frame: Bytes, accm: Word32, max: nat) {
    exists k | 0 <= k < |segments| :: CarriesFrame(segments[k], frame, accm, max)
  }

  lemma SomeCarriesNext(segments: seq<Bytes>, frame: Bytes, accm: Word32, max: nat)
    requires segments != []
    ensures SomeCarries(segments, frame, accm, max)
            <==> SomeCarries(segments[..|segments| - 1], frame, accm, max)
                 || CarriesFrame(segments[|segments| - 1], frame, accm, max)
  {
    var front := segments[..|segments| - 1];
    if k :| 0 <= k < |front| && CarriesFrame(front[k], frame, accm, max) {
      assert CarriesFrame(segments[k], frame, accm, max);
    }
    if k :| 0 <= k < |segments| && CarriesFrame(segments[k], frame, accm, max) {
      assert k < |front| ==> CarriesFrame(front[k], frame, accm, max);
    }
  }

  /** Frames are received exactly from the segments that carry them. */
  lemma {:induction false} FramesComeFromSegments(segments: seq<Bytes>, frame: Bytes, accm: Word32, max: nat)
    ensures Frame(frame) in Events(segments, accm, max) <==> SomeCarries(segments, frame, accm, max)
  {
    if segments != [] {
      FramesComeFromSegments(segments[..|segments| - 1], frame, accm, max);
      ClassifiedAsFrame(segments[|segments| - 1], frame, accm, max);
      SomeCarriesNext(segments, frame, accm, max);
    }
  }

  /** A frame is among the events of a stream exactly if some segment of the stream, between two of its flags,
      is that frame with its check sequence, escaped somehow, and fits. */
  lemma ReceivedFramesAreGood(stream: Bytes, frame: Bytes, accm: Word32, max: nat)
    ensures Frame(frame) in Decode(RESET, stream, accm, max).1
            <==> exists k | 0 <= k < |Segments(stream)| :: CarriesFrame(Segments(stream)[k], frame, accm, max)
  {
    DecoderFollowsSegments(stream, accm, max);
    FramesComeFromSegments(Segments(stream), frame, accm, max);
  }

  // ----- Spoiled frames -----

  /** One octet of a frame or its trailer, or two neighbours, changed before escaping. */
  predicate Spoils(sent: Bytes, received: Bytes) {
    exists i, j | 0 <= i < j <= |sent| && j <= i + 2 ::
      && |received| == |sent| && received != sent
      && received[..i] == sent[..i] && received[j..] == sent[j..]
  }

  lemma ParedDown(octets: Bytes, i: nat, j: nat)
    requires i < j <= |octets|
    ensures octets == octets[..i] + octets[i..j] + octets[j..]
    ensures j == i + 1 ==> octets[i..j] == [octets[i]]
    ensures j == i + 2 ==> octets[i..j] == [octets[i], octets[i + 1]]
  {
  }

  lemma SpoiledIsNotGood(sent: Bytes, received: Bytes)
    requires Valid(sent) && Spoils(sent, received)
    ensures !Valid(received) && |received| == |sent|
  {
    var i, j :| 0 <= i < j <= |sent| && j <= i + 2 && |received| == |sent| && received != sent
        && received[..i] == sent[..i] && received[j..] == sent[j..];
    ParedDown(sent, i, j);
    ParedDown(received, i, j);
    if j == i + 1 {
      SingleErrorIsDetected(sent[..i], sent[i], received[i], sent[j..]);
    } else {
      AdjacentErrorsAreDetected(sent[..i], sent[i], sent[i + 1], received[i], received[i + 1], sent[j..]);
    }
  }

  function Enclosed(octets: Bytes, send: Word32): Bytes { [FLAG] + Escaped(octets, send) + [FLAG] }

  lemma EnclosedTells(octets: Bytes, send: Word32, receive: Word32, max: nat, event: Event)
    requires SubMap(receive, send) && Tells(Some(event), octets, false, max)
    ensures FLAG !in Escaped(octets, send) && Classify(Escaped(octets, send), receive, max) == Some(event)
  {
    EscapingIsUndone(octets, send, receive);
    ClassifyTells(Escaped(octets, send), receive, max);
    TellsOnce(Classify(Escaped(octets, send), receive, max), Some(event), octets, false, max);
  }

  /** Whatever was received before, a frame with one octet or two neighbours changed ends in an error of its
      check sequence; at most one event comes before that, for what it interrupted. */
  lemma SpoiledFrameIsReported(before: Bytes, frame: Bytes, spoiled: Bytes, send: Word32, receive: Word32, max: nat)
    requires SubMap(receive, send) && Spoils(Append(frame), spoiled) && 4 <= |spoiled| <= max
    ensures var events := Decode(Decode(RESET, before, receive, max).0, Enclosed(spoiled, send), receive, max).1;
            && events == Interrupted(before, receive, max) + [FcsError(|spoiled|)]
            && |Interrupted(before, receive, max)| <= 1
  {
    AppendedFcsIsGood(frame);
    SpoiledIsNotGood(Append(frame), spoiled);
    GoodIsAppended(spoiled);
    EnclosedTells(spoiled, send, receive, max, FcsError(|spoiled|));
    EnclosedEvents(before, Escaped(spoiled, send), receive, max, FcsError(|spoiled|));
  }
}
