/** The negotiation part of the option-negotiation automaton (section 4.1 of RFC 1661), which
    the byte-level LCP and IPCP machines both implement. */
module Rfc1661 {
  import opened Octets

  datatype State = Closed | RequestSent | AckReceived | AckSent | Opened | Closing | Stopped

  /** Receive-Configure-Request good and bad, Receive-Configure-Ack, Receive-Configure-Nak/Rej,
      timeout with the restart counter above zero and timeout with it expired. */
  datatype Event = RcrPlus | RcrMinus | Rca | Rcn | TimeoutPlus | TimeoutMinus

  /** This-Layer-Down, -Up and -Finished and the Configure packets. */
  datatype Act = Tld | Tlu | Tlf | Scr | Sca | Scn

  /** The next state, whether the restart count is initialized first, and the actions in order. */
  datatype Entry = Entry(next: State, initialize: bool, acts: seq<Act>)

  predicate Negotiating(s: State) { s == RequestSent || s == AckReceived || s == AckSent || s == Opened }

  predicate Timed(e: Event) { e == TimeoutPlus || e == TimeoutMinus }

  /** The transition table. A request received in Opened also initializes the restart count, which
      the table of the RFC leaves open. */
  function Table(s: State, e: Event): Entry
    requires Negotiating(s) && (s == Opened ==> !Timed(e))
  {
    match (s, e)
    case (RequestSent, RcrPlus) => Entry(AckSent, false, [Sca])
    case (RequestSent, RcrMinus) => Entry(RequestSent, false, [Scn])
    case (RequestSent, Rca) => Entry(AckReceived, true, [])
    case (RequestSent, Rcn) => Entry(RequestSent, true, [Scr])
    case (AckReceived, RcrPlus) => Entry(Opened, false, [Sca, Tlu])
    case (AckReceived, RcrMinus) => Entry(AckReceived, false, [Scn])
    case (AckReceived, Rca) => Entry(RequestSent, false, [Scr])
    case (AckReceived, Rcn) => Entry(RequestSent, false, [Scr])
    case (AckSent, RcrPlus) => Entry(AckSent, false, [Sca])
    case (AckSent, RcrMinus) => Entry(RequestSent, false, [Scn])
    case (AckSent, Rca) => Entry(Opened, true, [Tlu])
    case (AckSent, Rcn) => Entry(AckSent, true, [Scr])
    case (Opened, RcrPlus) => Entry(AckSent, true, [Tld, Scr, Sca])
    case (Opened, RcrMinus) => Entry(RequestSent, true, [Tld, Scr, Scn])
    case (Opened, _) => Entry(RequestSent, false, [Tld, Scr])
    case (AckReceived, TimeoutPlus) => Entry(RequestSent, false, [Scr])
    case (_, TimeoutPlus) => Entry(s, false, [Scr])
    case (_, _) => Entry(Stopped, false, [Tlf])
  }

  /** What the outside sees of an automaton: its state, restart counter and restart timer. */
  datatype View = View(state: State, counter: Octet, running: bool)

  /** Every request sent counts down; initializing comes first. */
  function CounterAfter(entry: Entry, counter: Octet, max: Octet): Octet {
    var start := if entry.initialize then max else counter;
    if Scr in entry.acts && start > 0 then start - 1 else start
  }

  /** A request starts the timer; going up or finishing stops it. */
  predicate RunningAfter(entry: Entry, running: bool) {
    Tlu !in entry.acts && Tlf !in entry.acts && (Scr in entry.acts || running)
  }

  /** The automaton went from `before` to `after` and did `acts`, in order, as the table says. */
  predicate Follows(before: View, e: Event, after: View, acts: seq<Act>, max: Octet) {
    && Negotiating(before.state)
    && (before.state == Opened ==> !Timed(e))
    && var entry := Table(before.state, e);
       && after.state == entry.next
       && acts == entry.acts
       && after.counter == CounterAfter(entry, before.counter, max)
       && after.running == RunningAfter(entry, before.running)
  }

  /** The layer above after some actions: it goes up only when down and down only when up. */
  function LayerAfter(up: bool, acts: seq<Act>): Option<bool> {
    if acts == [] then Some(up)
    else
      match LayerAfter(up, acts[..|acts| - 1])
      case None => None
      case Some(before) =>
        match acts[|acts| - 1]
        case Tlu => if before then None else Some(true)
        case Tld => if before then Some(false) else None
        case _ => Some(before)
  }

  lemma {:induction false} LayerAfterAppend(up: bool, a: seq<Act>, b: seq<Act>)
    ensures LayerAfter(up, a + b) == match LayerAfter(up, a) case None => None case Some(mid) => LayerAfter(mid, b)
  {
    if b == [] {
      assert a + b == a;
    } else {
      LayerAfterAppend(up, a, b[..|b| - 1]);
      assert (a + b)[..|a + b| - 1] == a + b[..|b| - 1];
    }
  }

  predicate TimerFits(v: View) { v.running <==> v.state == RequestSent || v.state == AckReceived || v.state == AckSent }

  lemma LayerOfOne(up: bool, a: Act)
    ensures LayerAfter(up, [a]) == if a == Tlu then (if up then None else Some(true))
                                   else if a == Tld then (if up then Some(false) else None) else Some(up)
  {
    assert [a][..0] == [];
    assert LayerAfter(up, []) == Some(up);
  }

  lemma LayerOfTwo(up: bool, a: Act, b: Act)
    ensures LayerAfter(up, [a, b]) == match LayerAfter(up, [a]) case None => None case Some(mid) => LayerAfter(mid, [b])
  {
    LayerAfterAppend(up, [a], [b]);
    assert [a] + [b] == [a, b];
  }

  lemma LayerOfThree(up: bool, a: Act, b: Act, c: Act)
    ensures LayerAfter(up, [a, b, c])
            == match LayerAfter(up, [a, b]) case None => None case Some(mid) => LayerAfter(mid, [c])
  {
    LayerAfterAppend(up, [a, b], [c]);
    assert [a, b] + [c] == [a, b, c];
  }

  lemma LayerOfEntry(s: State, e: Event)
    requires Negotiating(s) && (s == Opened ==> !Timed(e))
    ensures LayerAfter(s == Opened, Table(s, e).acts) == Some(Table(s, e).next == Opened)
  {
    var (acts, up) := (Table(s, e).acts, s == Opened);
    if |acts| > 0 { LayerOfOne(up, acts[0]); }
    if |acts| > 1 {
      LayerOfTwo(up, acts[0], acts[1]);
      LayerOfOne(false, acts[1]);
    }
    if |acts| > 2 {
      LayerOfThree(up, acts[0], acts[1], acts[2]);
      LayerOfOne(false, acts[2]);
    }
  }

  /** Every transition keeps the layer above in step with Opened, and the timer with the waiting states. */
  lemma TransitionKeepsLayer(before: View, e: Event, after: View, acts: seq<Act>, max: Octet)
    requires Follows(before, e, after, acts, max)
    ensures LayerAfter(before.state == Opened, acts) == Some(after.state == Opened)
    ensures TimerFits(before) ==> TimerFits(after)
  {
    LayerOfEntry(before.state, e);
  }
}
