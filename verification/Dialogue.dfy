/**
 * The conversation and its pipe together: in every exchange the peer puts together exactly what the
 * TLS engine wrote in answer to the flight it was given, and over a whole handshake everything.
 */
module Dialogue {
  import opened Wire
  import opened Radius
  import opened Conversation
  import opened Runs
  import opened Delivery
  import opened Interleaving
  import MemConn

  /**
   * A stretch of a server run in which the peer of one conversation sends a flight in fragments and
   * then acknowledges the answer, and what the engine thread did in that time.
   */
  datatype Episode = Episode(run: seq<Event>, inbound: seq<Event>, acks: seq<Event>, sch: MemConn.Schedule)

  /** The requests of an exchange: fragments, the last of them with data, then as many as the answer has pieces. */
  ghost predicate WellFormed(x: Episode, token: bytes) {
    && Own(x.run, token) == x.inbound + x.acks
    && Fragmented(x.inbound, token)
    && Fragments(x.inbound, token)[|x.inbound| - 1] != []
    && ValidRun(x.acks)
    && Fetches([x.inbound[|x.inbound| - 1]] + x.acks, token)
    && 1 + |x.acks| == FragmentCount(|x.inbound[|x.inbound| - 1].env.engine.output|)
  }

  ghost function PeerFlight(x: Episode, token: bytes): bytes
    requires Fragmented(x.inbound, token)
  {
    Flatten(Fragments(x.inbound, token))
  }

  /** The report the server acts on is what it finds on the pipe, and the wait for it did not time out. */
  ghost predicate Coupled(x: Episode, token: bytes, pipe: MemConn.Pipe)
    requires WellFormed(x, token)
  {
    var flight := PeerFlight(x, token);
    && MemConn.InTime(pipe, flight, x.sch)
    && x.inbound[|x.inbound| - 1].env.engine == ReportOf(pipe, flight, x.sch)
  }

  /**
   * The report is true: its output is exactly what the engine wrote in answer to the flight, it says
   * done exactly when the engine has finished, and failed exactly when it finished with an error.
   */
  lemma ReportIsTrue(pipe: MemConn.Pipe, flight: bytes, sch: MemConn.Schedule)
    requires MemConn.Idle(pipe) && MemConn.Conserved(pipe) && MemConn.InTime(pipe, flight, sch)
    ensures var report, t := ReportOf(pipe, flight, sch), MemConn.Answered(pipe, flight, sch);
            && t.written == pipe.written + report.output
            && (report.done <==> t.engine.Finished?)
            && (report.failed <==> t.engine.Finished? && t.engine.failed)
  {
    hide MemConn.Answering, MemConn.Answered;
    MemConn.AnswerComplete(pipe, flight, sch);
  }

  ghost predicate Ready(s: Sessions, token: bytes) {
    token in s && 0 < |token| <= MAX_VALUE && s[token].reassembly == []
  }

  ghost predicate Takes(x: Episode, s: Sessions, token: bytes, pipe: MemConn.Pipe): (r: bool)
    ensures r ==> ValidRun(x.run) && WellFormed(x, token)
  {
    Ready(s, token) && Among(x.run, token, s[token].created) && WellFormed(x, token) && Coupled(x, token, pipe)
  }

  ghost function PipeAfterExchange(x: Episode, token: bytes, pipe: MemConn.Pipe): MemConn.Pipe
    requires WellFormed(x, token)
  {
    MemConn.Answered(pipe, PeerFlight(x, token), x.sch)
  }

  /** What the peer has put together from the answers to its last fragment and its acknowledgements. */
  ghost function Heard(c: Crypto, s: Sessions, token: bytes, x: Episode): Option<bytes>
    requires ValidRun(x.run)
  {
    var replies := Answers(c, s, x.run, token);
    if 1 <= |x.inbound| <= |replies| then Assembled(replies[|x.inbound| - 1..]) else None
  }

  /**
   * One exchange: the engine is fed exactly the peer's flight; what the peer has put together is
   * exactly what the engine wrote in answer; and unless that was the end of the handshake the engine
   * has consumed the whole flight, nothing is left in the pipe, and the conversation is ready again.
   */
  lemma ExchangeComplete(c: Crypto, s: Sessions, token: bytes, x: Episode, pipe: MemConn.Pipe)
    requires Takes(x, s, token, pipe) && MemConn.Idle(pipe) && MemConn.Conserved(pipe)
    ensures var t, heard := PipeAfterExchange(x, token, pipe), Heard(c, s, token, x);
            && FedTo(c, s, x.run, token) == [PeerFlight(x, token)]
            && heard.Some? && t.written == pipe.written + heard.value
            && t.consumed + t.inbound == pipe.consumed + PeerFlight(x, token)
            && MemConn.Conserved(t)
            && (!t.engine.Finished? ==> MemConn.Idle(t) && t.consumed == pipe.consumed + PeerFlight(x, token))
            && Ready(After(c, s, x.run), token)
  {
    hide Among, Own, Answers, FedTo, Fragmented, Fetches, Assembled, After, Fragments, MemConn.Answering,
         MemConn.Answered;
    ExchangeAmong(c, s, token, x.run, x.inbound, x.acks);
    MemConn.AnswerComplete(pipe, PeerFlight(x, token), x.sch);
    assert |x.inbound| >= 1 by { FragmentedValid(x.inbound, token); }
  }

  // --------------------------------------------------------- whole handshakes

  /** Exchanges one after the other; the handshake finishes in the last, if it does. */
  ghost predicate Talk(c: Crypto, s: Sessions, token: bytes, pipe: MemConn.Pipe, xs: seq<Episode>)
    decreases |xs|
  {
    xs == [] ||
    (&& Takes(xs[0], s, token, pipe)
     && var t := PipeAfterExchange(xs[0], token, pipe);
        && (|xs| > 1 ==> !t.engine.Finished?)
        && Talk(c, After(c, s, xs[0].run), token, t, xs[1..]))
  }

  ghost function PipeAfterTalk(c: Crypto, s: Sessions, token: bytes, pipe: MemConn.Pipe,
                               xs: seq<Episode>): MemConn.Pipe
    requires Talk(c, s, token, pipe, xs)
    decreases |xs|
  {
    if xs == [] then pipe
    else PipeAfterTalk(c, After(c, s, xs[0].run), token, PipeAfterExchange(xs[0], token, pipe), xs[1..])
  }

  /** What the peer sent, flight by flight. */
  ghost function SentOver(c: Crypto, s: Sessions, token: bytes, pipe: MemConn.Pipe, xs: seq<Episode>): seq<bytes>
    requires Talk(c, s, token, pipe, xs)
    decreases |xs|
  {
    if xs == [] then []
    else
      [PeerFlight(xs[0], token)]
      + SentOver(c, After(c, s, xs[0].run), token, PipeAfterExchange(xs[0], token, pipe), xs[1..])
  }

  /** What the peer put together, answer by answer. */
  ghost function ReceivedOver(c: Crypto, s: Sessions, token: bytes, pipe: MemConn.Pipe, xs: seq<Episode>): seq<bytes>
    requires Talk(c, s, token, pipe, xs)
    decreases |xs|
  {
    if xs == [] then []
    else
      var heard := Heard(c, s, token, xs[0]);
      (if heard.Some? then [heard.value] else [])
      + ReceivedOver(c, After(c, s, xs[0].run), token, PipeAfterExchange(xs[0], token, pipe), xs[1..])
  }

  /** Every flight fed to the engine of the conversation over all exchanges. */
  ghost function FedOver(c: Crypto, s: Sessions, token: bytes, pipe: MemConn.Pipe, xs: seq<Episode>): seq<bytes>
    requires Talk(c, s, token, pipe, xs)
    decreases |xs|
  {
    if xs == [] then []
    else
      FedTo(c, s, xs[0].run, token)
      + FedOver(c, After(c, s, xs[0].run), token, PipeAfterExchange(xs[0], token, pipe), xs[1..])
  }

  /**
   * Any number of exchanges, among the events of any other conversations: the peer receives one
   * answer per flight, and its answers are exactly what the engine wrote; the engine was fed exactly
   * the peer's flights, in order, and has consumed them but for what it left when it finished.
   */
  lemma {:induction false} TalkComplete(c: Crypto, s: Sessions, token: bytes, pipe: MemConn.Pipe, xs: seq<Episode>)
    requires Talk(c, s, token, pipe, xs) && MemConn.Idle(pipe) && MemConn.Conserved(pipe)
    ensures var t := PipeAfterTalk(c, s, token, pipe, xs);
            var sent, received := SentOver(c, s, token, pipe, xs), ReceivedOver(c, s, token, pipe, xs);
            && |received| == |sent| == |xs|
            && FedOver(c, s, token, pipe, xs) == sent
            && t.written == pipe.written + Flatten(received)
            && t.consumed + t.inbound == pipe.consumed + Flatten(sent)
    decreases |xs|
  {
    hide Takes, PipeAfterExchange, Heard, PeerFlight, FedTo, After;
    if xs == [] {
      assert pipe.consumed + [] == pipe.consumed && pipe.written + [] == pipe.written;
    } else {
      var x, next := xs[0], After(c, s, xs[0].run);
      var t := PipeAfterExchange(x, token, pipe);
      ExchangeComplete(c, s, token, x, pipe);
      if |xs| == 1 {
        LastExchange(c, s, token, pipe, xs);
      } else {
        TalkComplete(c, next, token, t, xs[1..]);
        TalkStep(c, s, token, pipe, xs);
      }
    }
  }

  lemma LastExchange(c: Crypto, s: Sessions, token: bytes, pipe: MemConn.Pipe, xs: seq<Episode>)
    requires |xs| == 1 && Talk(c, s, token, pipe, xs) && Heard(c, s, token, xs[0]).Some?
    ensures PipeAfterTalk(c, s, token, pipe, xs) == PipeAfterExchange(xs[0], token, pipe)
    ensures SentOver(c, s, token, pipe, xs) == [PeerFlight(xs[0], token)]
    ensures ReceivedOver(c, s, token, pipe, xs) == [Heard(c, s, token, xs[0]).value]
    ensures FedOver(c, s, token, pipe, xs) == FedTo(c, s, xs[0].run, token)
    ensures Flatten(SentOver(c, s, token, pipe, xs)) == PeerFlight(xs[0], token)
    ensures Flatten(ReceivedOver(c, s, token, pipe, xs)) == Heard(c, s, token, xs[0]).value
  {
    hide Takes, PipeAfterExchange, Heard, PeerFlight, FedTo, After;
    assert xs[1..] == [];
  }

  /** The totals of a talk from those of its first exchange and of the rest. */
  lemma TalkStep(c: Crypto, s: Sessions, token: bytes, pipe: MemConn.Pipe, xs: seq<Episode>)
    requires xs != [] && Talk(c, s, token, pipe, xs) && Heard(c, s, token, xs[0]).Some?
    ensures var x, next := xs[0], After(c, s, xs[0].run);
            var m, heard := PipeAfterExchange(x, token, pipe), Heard(c, s, token, x).value;
            && pipe.written + Flatten(ReceivedOver(c, s, token, pipe, xs))
               == (pipe.written + heard) + Flatten(ReceivedOver(c, next, token, m, xs[1..]))
            && pipe.consumed + Flatten(SentOver(c, s, token, pipe, xs))
               == (pipe.consumed + PeerFlight(x, token)) + Flatten(SentOver(c, next, token, m, xs[1..]))
  {
    hide Takes, PipeAfterExchange, Heard, PeerFlight, FedTo, After;
    var x, next := xs[0], After(c, s, xs[0].run);
    var m, heard := PipeAfterExchange(x, token, pipe), Heard(c, s, token, x).value;
    var received, sent := ReceivedOver(c, next, token, m, xs[1..]), SentOver(c, next, token, m, xs[1..]);
    assert ([heard] + received)[1..] == received && ([PeerFlight(x, token)] + sent)[1..] == sent;
    Assoc(pipe.written, heard, Flatten(received));
    Assoc(pipe.consumed, PeerFlight(x, token), Flatten(sent));
  }

  /** A handshake on a new pipe: the peer has received everything the engine ever wrote. */
  lemma HandshakeHeard(c: Crypto, s: Sessions, token: bytes, xs: seq<Episode>)
    requires Talk(c, s, token, MemConn.NEW_PIPE, xs)
    ensures var t := PipeAfterTalk(c, s, token, MemConn.NEW_PIPE, xs);
            && t.written == Flatten(ReceivedOver(c, s, token, MemConn.NEW_PIPE, xs))
            && t.consumed + t.inbound == Flatten(SentOver(c, s, token, MemConn.NEW_PIPE, xs))
            && FedOver(c, s, token, MemConn.NEW_PIPE, xs) == SentOver(c, s, token, MemConn.NEW_PIPE, xs)
  {
    hide Talk, SentOver, ReceivedOver, FedOver, PipeAfterTalk;
    TalkComplete(c, s, token, MemConn.NEW_PIPE, xs);
    var sent, received := SentOver(c, s, token, MemConn.NEW_PIPE, xs), ReceivedOver(c, s, token, MemConn.NEW_PIPE, xs);
    assert [] + Flatten(sent) == Flatten(sent) && [] + Flatten(received) == Flatten(received);
  }
}
