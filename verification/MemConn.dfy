/**
 * The in-memory connection between the RADIUS loop and the TLS engine: a monitor used by two
 * threads. Every stretch of code between two waits is one atomic step; a run is any interleaving.
 */
module MemConn {
  import opened Wire

  /**
   * The engine thread is running its own code, waits inside Read with a buffer of n octets, or has
   * finished its handshake and signalled that it is done.
   */
  datatype Engine = Running | InRead(n: nat) | Finished(failed: bool)

  /** The monitor's fields, the engine's position, and what has passed through so far. */
  datatype Pipe = Pipe(
    inbound: bytes,
    outbound: bytes,
    readWaiting: bool,
    closed: bool,
    deadline: Option<int>,
    engine: Engine,
    pushed: bytes,
    consumed: bytes,
    written: bytes,
    collected: seq<bytes>)

  const NEW_PIPE := Pipe([], [], false, false, None, Running, [], [], [], [])

  datatype Action =
    | Read(n: nat, now: int)
    | Wake(now: int)
    | Write(b: bytes)
    | Finish(failed: bool)
    | Push(b: bytes)
    | Collect(expired: bool)
    | Close
    | SetDeadline(at: Option<int>)

  /** The engine is one thread: it reads, writes and finishes when it runs, and wakes when it waits. */
  predicate Enabled(s: Pipe, a: Action) {
    match a
    case Read(_, _) => s.engine.Running?
    case Write(_) => s.engine.Running?
    case Finish(_) => s.engine.Running?
    case Wake(_) => s.engine.InRead?
    case _ => true
  }

  /** The body of Read from its lock, or from a wake-up, to its return or its next wait. */
  function ReadSegment(s: Pipe, n: nat, now: int): Pipe {
    if s.inbound != [] then
      var k := if n < |s.inbound| then n else |s.inbound|;
      s.(readWaiting := false, inbound := s.inbound[k..], consumed := s.consumed + s.inbound[..k], engine := Running)
    else if s.closed || (s.deadline.Some? && now >= s.deadline.value) then s.(engine := Running)
    else s.(readWaiting := true, engine := InRead(n))
  }

  function Drained(s: Pipe): Pipe { s.(outbound := [], collected := s.collected + [s.outbound]) }

  /** The branch of collectOutbound that takes the flight as finished. */
  predicate FlightReady(s: Pipe) { s.outbound != [] && s.readWaiting }

  /** Whether one round of collectOutbound returns. */
  predicate Returns(s: Pipe, expired: bool) {
    s.engine.Finished? || FlightReady(s) || s.closed || expired
  }

  function Next(s: Pipe, a: Action): Pipe {
    match a
    case Read(n, now) => ReadSegment(s, n, now)
    case Wake(now) => if s.engine.InRead? then ReadSegment(s, s.engine.n, now) else s
    case Write(b) => if s.closed then s else s.(outbound := s.outbound + b, written := s.written + b)
    case Finish(failed) => s.(engine := Finished(failed))
    case Push(b) => s.(inbound := s.inbound + b, pushed := s.pushed + b)
    case Collect(expired) => if Returns(s, expired) then Drained(s) else s
    case Close => s.(closed := true)
    case SetDeadline(at) => s.(deadline := at)
  }

  function Run(s: Pipe, acts: seq<Action>): Pipe
    decreases |acts|
  {
    if acts == [] then s else Run(Next(s, acts[0]), acts[1..])
  }

  predicate Legal(s: Pipe, acts: seq<Action>)
    decreases |acts|
  {
    acts == [] || (Enabled(s, acts[0]) && Legal(Next(s, acts[0]), acts[1..]))
  }

  // ----------------------------------------------------------- conservation

  predicate Conserved(s: Pipe) {
    s.pushed == s.consumed + s.inbound && s.written == Flatten(s.collected) + s.outbound
  }

  lemma NextConserves(s: Pipe, a: Action)
    requires Conserved(s)
    ensures Conserved(Next(s, a))
  {
    hide Flatten;
    match a {
      case Read(n, now) => ReadConserves(s, n, now);
      case Wake(now) =>
        if s.engine.InRead? {
          ReadConserves(s, s.engine.n, now);
        }
      case Push(b) => Assoc(s.consumed, s.inbound, b);
      case Write(b) => Assoc(Flatten(s.collected), s.outbound, b);
      case Collect(_) => DrainConserves(s);
      case _ =>
    }
  }

  lemma ReadConserves(s: Pipe, n: nat, now: int)
    requires Conserved(s)
    ensures Conserved(ReadSegment(s, n, now))
  {
    hide Flatten;
    if s.inbound != [] {
      var k := if n < |s.inbound| then n else |s.inbound|;
      assert s.inbound == s.inbound[..k] + s.inbound[k..];
      Assoc(s.consumed, s.inbound[..k], s.inbound[k..]);
    }
  }

  lemma DrainConserves(s: Pipe)
    requires Conserved(s)
    ensures Conserved(Drained(s))
  {
    hide Flatten;
    FlattenSnoc(s.collected, s.outbound);
    assert Flatten(s.collected + [s.outbound]) + [] == Flatten(s.collected + [s.outbound]);
  }

  /** No octet is lost, duplicated or reordered in either direction, in any interleaving. */
  lemma {:induction false} RunConserves(s: Pipe, acts: seq<Action>)
    requires Conserved(s)
    ensures Conserved(Run(s, acts))
    decreases |acts|
  {
    if acts == [] {
    } else {
      NextConserves(s, acts[0]);
      RunConserves(Next(s, acts[0]), acts[1..]);
    }
  }

  // -------------------------------------------------------- complete flights

  /** An action of the engine thread, or a round of collectOutbound that keeps waiting. */
  predicate EngineOrWait(s: Pipe, a: Action) {
    a.Read? || a.Wake? || a.Write? || a.Finish? || (a.Collect? && !Returns(s, a.expired))
  }

  /** A stretch of a run in which only the engine moves. */
  predicate EngineOnly(s: Pipe, acts: seq<Action>)
    decreases |acts|
  {
    acts == [] ||
    (Enabled(s, acts[0]) && EngineOrWait(s, acts[0]) && EngineOnly(Next(s, acts[0]), acts[1..]))
  }

  /** Open, without a read deadline, and marked as waiting only while the engine waits. */
  predicate Open(s: Pipe) {
    !s.closed && s.deadline.None? && (s.readWaiting ==> s.engine.InRead?)
  }

  /** Unread input while marked as waiting is input the engine has not yet woken up for. */
  predicate Awaiting(s: Pipe) { s.readWaiting && s.inbound != [] ==> s.outbound == [] }

  lemma {:induction false} EngineKeeps(s: Pipe, acts: seq<Action>)
    requires Open(s) && Awaiting(s) && EngineOnly(s, acts)
    ensures Open(Run(s, acts)) && Awaiting(Run(s, acts))
    ensures Run(s, acts).collected == s.collected && Run(s, acts).pushed == s.pushed
    decreases |acts|
  {
    if acts == [] {
    } else {
      EngineKeeps(Next(s, acts[0]), acts[1..]);
    }
  }

  /** The state in which a push lets an earlier wait mark pass for the answer to it. */
  predicate Premature(s: Pipe, b: bytes) { s.readWaiting && s.outbound != [] && s.inbound + b != [] }

  /**
   * Exactly when collectOutbound never takes a flight as finished too early: after a push, and
   * whatever the engine does, the readWaiting branch returns only when every pushed octet has been
   * consumed, if and only if the push did not find unsent output behind a standing wait mark.
   */
  lemma CompleteFlightIff(s: Pipe, b: bytes)
    requires Open(s)
    ensures (forall acts :: EngineOnly(Next(s, Push(b)), acts) && FlightReady(Run(Next(s, Push(b)), acts))
                            ==> Run(Next(s, Push(b)), acts).inbound == [])
            <==> !Premature(s, b)
  {
    var s' := Next(s, Push(b));
    if Premature(s, b) {
      assert Run(s', []) == s' && EngineOnly(s', []);
    } else {
      forall acts | EngineOnly(s', acts) && FlightReady(Run(s', acts))
        ensures Run(s', acts).inbound == []
      {
        if s.readWaiting && s.outbound != [] {
          StillQuiet(s', acts);
        } else {
          EngineKeeps(s', acts);
        }
      }
    }
  }

  /** With nothing to read the engine stays in its wait. */
  lemma {:induction false} StillQuiet(s: Pipe, acts: seq<Action>)
    requires Open(s) && s.readWaiting && s.inbound == [] && EngineOnly(s, acts)
    ensures var t := Run(s, acts);
            Open(t) && t.readWaiting && t.inbound == [] && t.outbound == s.outbound
            && t.written == s.written && t.consumed == s.consumed && t.pushed == s.pushed && t.collected == s.collected
    decreases |acts|
  {
    if acts == [] {
    } else {
      StillQuiet(Next(s, acts[0]), acts[1..]);
    }
  }

  /** A push onto unsent output is answered at once with that old output, the new input unread. */
  lemma PrematureFlight(b: bytes, stale: bytes)
    requires b != [] && stale != []
    ensures var acts := [Write(stale), Read(1, 0), Push(b), Collect(false)];
            && Legal(NEW_PIPE, acts)
            && Run(NEW_PIPE, acts).collected == [stale]
            && Run(NEW_PIPE, acts).inbound == b
  {
    var s1 := Next(NEW_PIPE, Write(stale));
    var s2 := Next(s1, Read(1, 0));
    var s3 := Next(s2, Push(b));
    var s4 := Next(s3, Collect(false));
    assert s1.outbound == stale;
    assert s3.inbound == b && FlightReady(s3);
    var acts := [Write(stale), Read(1, 0), Push(b), Collect(false)];
    assert acts[1..] == [Read(1, 0), Push(b), Collect(false)];
    assert acts[1..][1..] == [Push(b), Collect(false)];
    assert acts[1..][1..][1..] == [Collect(false)];
    assert acts[1..][1..][1..][1..] == [];
    assert Run(NEW_PIPE, acts) == Run(s1, acts[1..]) == Run(s2, acts[1..][1..]) == Run(s3, [Collect(false)]) == s4;
    assert Legal(s3, [Collect(false)]);
    assert Legal(s2, acts[1..][1..]);
    assert Legal(s1, acts[1..]);
  }

  // ------------------------------------------------------- whole conversations

  /** Between flights: open and nothing buffered. A new pipe is like this, and so is one after each flight. */
  predicate Idle(s: Pipe) {
    Open(s) && s.inbound == [] && s.outbound == []
  }

  /** A peer flight, what the engine did before it came, and what it did with it. */
  datatype Round = Round(idle: seq<Action>, flight: bytes, acts: seq<Action>)

  function AfterRound(s: Pipe, r: Round): Pipe {
    Next(Run(Next(Run(s, r.idle), Push(r.flight)), r.acts), Collect(false))
  }

  /** The engine does not speak first, and the collection returns through the readWaiting branch. */
  predicate IsRound(s: Pipe, r: Round) {
    var pushed := Next(Run(s, r.idle), Push(r.flight));
    && EngineOnly(s, r.idle)
    && (forall i :: 0 <= i < |r.idle| ==> !r.idle[i].Write?)
    && EngineOnly(pushed, r.acts)
    && FlightReady(Run(pushed, r.acts))
  }

  lemma {:induction false} StillIdle(s: Pipe, acts: seq<Action>)
    requires Idle(s) && EngineOnly(s, acts) && forall i :: 0 <= i < |acts| ==> !acts[i].Write?
    ensures var t := Run(s, acts);
            Idle(t) && t.written == s.written && t.consumed == s.consumed && t.pushed == s.pushed
              && t.collected == s.collected
    decreases |acts|
  {
    if acts == [] {
    } else {
      StillIdle(Next(s, acts[0]), acts[1..]);
    }
  }

  /** Once a flight was collected as finished the engine cannot speak before the next one comes. */
  lemma NothingWrittenUnasked(s: Pipe, r: Round, acts: seq<Action>)
    requires Idle(s) && IsRound(s, r) && EngineOnly(AfterRound(s, r), acts)
    ensures Run(AfterRound(s, r), acts).written == AfterRound(s, r).written
  {
    StillIdle(s, r.idle);
    EngineKeeps(Next(Run(s, r.idle), Push(r.flight)), r.acts);
    StillQuiet(AfterRound(s, r), acts);
  }

  /** One round: everything pushed was consumed, and the flight is all the engine wrote in it. */
  lemma RoundComplete(s: Pipe, r: Round)
    requires Idle(s) && Conserved(s) && IsRound(s, r)
    ensures var t := AfterRound(s, r);
            && Idle(t) && Conserved(t)
            && t.consumed == s.consumed + r.flight
            && |t.collected| == |s.collected| + 1
            && t.written == s.written + t.collected[|s.collected|]
            && t.collected[..|s.collected|] == s.collected
  {
    StillIdle(s, r.idle);
    var idle := Run(s, r.idle);
    var pushed := Next(idle, Push(r.flight));
    RunConserves(s, r.idle);
    NextConserves(idle, Push(r.flight));
    EngineKeeps(pushed, r.acts);
    var ready := Run(pushed, r.acts);
    RunConserves(pushed, r.acts);
    NextConserves(ready, Collect(false));
    assert ready.inbound == [];
    assert ready.consumed + [] == ready.consumed;
    assert s.consumed + [] == s.consumed;
    assert Flatten(s.collected) + [] == Flatten(s.collected);
  }

  /** The collection returns because the handshake has finished. */
  predicate IsLastRound(s: Pipe, r: Round) {
    var pushed := Next(Run(s, r.idle), Push(r.flight));
    && EngineOnly(s, r.idle)
    && (forall i :: 0 <= i < |r.idle| ==> !r.idle[i].Write?)
    && EngineOnly(pushed, r.acts)
    && Run(pushed, r.acts).engine.Finished?
  }

  /** A finished engine neither reads nor writes again, whatever else happens. */
  lemma {:induction false} FinishedIsSilent(s: Pipe, acts: seq<Action>)
    requires s.engine.Finished? && Legal(s, acts)
    ensures var t := Run(s, acts); t.engine == s.engine && t.written == s.written && t.consumed == s.consumed
    decreases |acts|
  {
    if acts == [] {
    } else {
      FinishedIsSilent(Next(s, acts[0]), acts[1..]);
    }
  }

  /**
   * The round in which the handshake finishes: the flight is all the engine wrote in it, and there
   * will never be more; what it was given but did not read is still there.
   */
  lemma LastRoundComplete(s: Pipe, r: Round, later: seq<Action>)
    requires Idle(s) && Conserved(s) && IsLastRound(s, r) && Legal(AfterRound(s, r), later)
    ensures var t := AfterRound(s, r);
            && Conserved(t) && t.outbound == [] && t.engine.Finished?
            && t.consumed + t.inbound == s.consumed + r.flight
            && |t.collected| == |s.collected| + 1
            && t.written == s.written + t.collected[|s.collected|]
            && t.collected[..|s.collected|] == s.collected
            && Run(t, later).written == t.written && Run(t, later).consumed == t.consumed
  {
    StillIdle(s, r.idle);
    var idle := Run(s, r.idle);
    var pushed := Next(idle, Push(r.flight));
    RunConserves(s, r.idle);
    NextConserves(idle, Push(r.flight));
    EngineKeeps(pushed, r.acts);
    var ready := Run(pushed, r.acts);
    RunConserves(pushed, r.acts);
    NextConserves(ready, Collect(false));
    assert s.consumed + [] == s.consumed;
    assert Flatten(s.collected) + [] == Flatten(s.collected);
    FinishedIsSilent(AfterRound(s, r), later);
  }

  function Rounds(s: Pipe, rs: seq<Round>): Pipe
    decreases |rs|
  {
    if rs == [] then s else Rounds(AfterRound(s, rs[0]), rs[1..])
  }

  predicate AreRounds(s: Pipe, rs: seq<Round>)
    decreases |rs|
  {
    rs == [] || (IsRound(s, rs[0]) && AreRounds(AfterRound(s, rs[0]), rs[1..]))
  }

  function Flights(rs: seq<Round>): seq<bytes> { seq(|rs|, i requires 0 <= i < |rs| => rs[i].flight) }

  /**
   * A conversation of any number of rounds: the engine has consumed exactly the peer's flights in
   * order, one flight was collected per round, and together they are exactly what it wrote.
   */
  lemma {:induction false} ConversationComplete(s: Pipe, rs: seq<Round>)
    requires Idle(s) && Conserved(s) && AreRounds(s, rs)
    ensures var t := Rounds(s, rs);
            && Idle(t)
            && t.consumed == s.consumed + Flatten(Flights(rs))
            && |t.collected| == |s.collected| + |rs|
            && t.collected[..|s.collected|] == s.collected
            && t.written == s.written + Flatten(t.collected[|s.collected|..])
    decreases |rs|
  {
    if rs == [] {
      assert s.consumed + [] == s.consumed && s.written + [] == s.written;
      assert s.collected[|s.collected|..] == [];
    } else {
      hide AfterRound, IsRound;
      var m := AfterRound(s, rs[0]);
      RoundComplete(s, rs[0]);
      ConversationComplete(m, rs[1..]);
      var t, n := Rounds(s, rs), |s.collected|;
      assert Flights(rs)[1..] == Flights(rs[1..]);
      Assoc(s.consumed, rs[0].flight, Flatten(Flights(rs[1..])));
      assert t.collected[n] == m.collected[n];
      assert t.collected[n..] == [m.collected[n]] + t.collected[n + 1..];
      Assoc(s.written, m.collected[n], Flatten(t.collected[n + 1..]));
      assert t.collected[..n] == m.collected[..n];
    }
  }

  /** From a new pipe on: what was consumed and what was collected over a whole conversation. */
  lemma NewConversationComplete(rs: seq<Round>)
    requires AreRounds(NEW_PIPE, rs)
    ensures var t := Rounds(NEW_PIPE, rs);
            && t.consumed == Flatten(Flights(rs))
            && |t.collected| == |rs|
            && t.written == Flatten(t.collected)
  {
    ConversationComplete(NEW_PIPE, rs);
    var t := Rounds(NEW_PIPE, rs);
    assert t.collected[0..] == t.collected;
    assert [] + Flatten(Flights(rs)) == Flatten(Flights(rs)) && [] + Flatten(t.collected) == Flatten(t.collected);
  }

  /**
   * A whole handshake on a new pipe, the last round included: one flight was collected per round,
   * together they are all the engine ever writes, and it read the peer's flights in order, all but
   * what was left of the last when it finished.
   */
  lemma HandshakeComplete(rs: seq<Round>, last: Round, later: seq<Action>)
    requires AreRounds(NEW_PIPE, rs) && IsLastRound(Rounds(NEW_PIPE, rs), last)
    requires Legal(AfterRound(Rounds(NEW_PIPE, rs), last), later)
    ensures var t := AfterRound(Rounds(NEW_PIPE, rs), last);
            && t.consumed + t.inbound == Flatten(Flights(rs)) + last.flight
            && |t.collected| == |rs| + 1
            && Run(t, later).written == Flatten(t.collected)
            && Run(t, later).consumed == t.consumed
  {
    hide AfterRound, IsLastRound, AreRounds;
    var m := Rounds(NEW_PIPE, rs);
    NewConversationComplete(rs);
    ConversationComplete(NEW_PIPE, rs);
    RoundsConserve(NEW_PIPE, rs);
    LastRoundComplete(m, last, later);
    var t := AfterRound(m, last);
    assert t.collected == m.collected + [t.collected[|m.collected|]];
    FlattenSnoc(m.collected, t.collected[|m.collected|]);
  }

  lemma {:induction false} RoundsConserve(s: Pipe, rs: seq<Round>)
    requires Idle(s) && Conserved(s) && AreRounds(s, rs)
    ensures Conserved(Rounds(s, rs))
    decreases |rs|
  {
    hide AfterRound, IsRound;
    if rs == [] {
    } else {
      RoundComplete(s, rs[0]);
      RoundsConserve(AfterRound(s, rs[0]), rs[1..]);
    }
  }

  /** Closing a pipe ends the wait of the engine; a closed pipe makes it wait no more and takes no output. */
  lemma CloseEndsWait(s: Pipe, n: nat, now: int, b: bytes)
    requires s.engine.InRead? && s.inbound == []
    ensures var t := Next(Next(s, Close), Wake(now));
            && t.engine.Running? && t.consumed == s.consumed && Next(t, Read(n, now)).engine.Running?
            && Next(t, Write(b)).written == s.written
  {
  }

  // --------------------------------------------- one request as the pipe sees it

  /** What the engine thread does before a push, until the collection, and until its state is looked at. */
  datatype Schedule = Schedule(idle: seq<Action>, moves: seq<Action>, late: seq<Action>)

  predicate EngineMove(a: Action) { a.Read? || a.Wake? || a.Write? || a.Finish? }

  /** The moves that come at a point where the engine thread can make them. */
  function Possible(s: Pipe, acts: seq<Action>): (r: seq<Action>)
    ensures EngineOnly(s, r)
    decreases |acts|
  {
    if acts == [] then []
    else if EngineMove(acts[0]) && Enabled(s, acts[0]) then [acts[0]] + Possible(Next(s, acts[0]), acts[1..])
    else Possible(s, acts[1..])
  }

  function Moves(s: Pipe, acts: seq<Action>): Pipe { Run(s, Possible(s, acts)) }

  lemma MovesStep(s: Pipe, acts: seq<Action>)
    requires acts != []
    ensures Moves(s, acts) ==
            Moves(if EngineMove(acts[0]) && Enabled(s, acts[0]) then Next(s, acts[0]) else s, acts[1..])
  {
  }

  /** The pipe when the answer to a flight is collected. */
  function Answering(s: Pipe, flight: bytes, sch: Schedule): Pipe {
    Moves(Next(Moves(s, sch.idle), Push(flight)), sch.moves)
  }

  /** The pipe when the server has looked whether the handshake is done; its wait for a flight has a time limit. */
  function Answered(s: Pipe, flight: bytes, sch: Schedule): Pipe {
    Moves(Next(Answering(s, flight, sch), Collect(true)), sch.late)
  }

  function ScheduledRound(s: Pipe, flight: bytes, sch: Schedule): Round {
    Round(Possible(s, sch.idle), flight, Possible(Next(Moves(s, sch.idle), Push(flight)), sch.moves))
  }

  /** The collection did not run out of time, and the engine did not speak before the flight came. */
  ghost predicate InTime(s: Pipe, flight: bytes, sch: Schedule) {
    var t := Answering(s, flight, sch);
    && (forall i :: 0 <= i < |sch.idle| ==> !sch.idle[i].Write?)
    && (FlightReady(t) || t.engine.Finished?)
  }

  lemma {:induction false} PossibleAreGiven(s: Pipe, acts: seq<Action>)
    requires forall i :: 0 <= i < |acts| ==> !acts[i].Write?
    ensures forall i :: 0 <= i < |Possible(s, acts)| ==> !Possible(s, acts)[i].Write?
    decreases |acts|
  {
    if acts == [] {
    } else if EngineMove(acts[0]) && Enabled(s, acts[0]) {
      PossibleAreGiven(Next(s, acts[0]), acts[1..]);
    } else {
      PossibleAreGiven(s, acts[1..]);
    }
  }

  lemma {:induction false} EngineOnlyIsLegal(s: Pipe, acts: seq<Action>)
    requires EngineOnly(s, acts)
    ensures Legal(s, acts)
    decreases |acts|
  {
    if acts == [] {
    } else {
      EngineOnlyIsLegal(Next(s, acts[0]), acts[1..]);
    }
  }

  /**
   * One answered flight, through either branch: what was collected is exactly what the engine wrote
   * in answer to it, and unless the handshake finished the engine has consumed the whole flight and
   * waits for the next. Moves after the collection change nothing of this.
   */
  lemma AnswerComplete(s: Pipe, flight: bytes, sch: Schedule)
    requires Idle(s) && Conserved(s) && InTime(s, flight, sch)
    ensures var output, t := Answering(s, flight, sch).outbound, Answered(s, flight, sch);
            && Conserved(t) && t.outbound == []
            && t.engine.Finished? == Answering(s, flight, sch).engine.Finished?
            && t.written == s.written + output
            && t.consumed + t.inbound == s.consumed + flight
            && (!t.engine.Finished? ==> Idle(t) && t.consumed == s.consumed + flight)
  {
    var r, ready := ScheduledRound(s, flight, sch), Answering(s, flight, sch);
    PossibleAreGiven(s, sch.idle);
    var mid := AfterRound(s, r);
    assert mid == Next(ready, Collect(true));
    var late := Possible(mid, sch.late);
    EngineOnlyIsLegal(mid, late);
    RunConserves(mid, late) by { RoundConserves(s, r); }
    if ready.engine.Finished? {
      LastRoundComplete(s, r, late);
      FinishedIsSilent(mid, late);
      FinishedKeeps(mid, late);
    } else {
      RoundComplete(s, r);
      StillQuiet(mid, late);
      assert s.consumed + flight + [] == s.consumed + flight;
    }
  }

  lemma RoundConserves(s: Pipe, r: Round)
    requires Conserved(s)
    ensures Conserved(AfterRound(s, r))
  {
    RunConserves(s, r.idle);
    var idle := Run(s, r.idle);
    NextConserves(idle, Push(r.flight));
    RunConserves(Next(idle, Push(r.flight)), r.acts);
    NextConserves(Run(Next(idle, Push(r.flight)), r.acts), Collect(false));
  }

  /** A finished engine makes no further move. */
  lemma FinishedKeeps(s: Pipe, acts: seq<Action>)
    requires s.engine.Finished? && EngineOnly(s, acts)
    ensures acts == []
  {
  }

  // ------------------------------------------------------------- the monitor

  datatype ReadResult = Blocked | Data(b: bytes) | ConnClosed | TimedOut

  class Conn {
    var inbound: bytes
    var outbound: bytes
    var readWaiting: bool
    var closed: bool
    var deadline: Option<int>
    /** Where the engine thread is; the collecting side sees only whether it has finished. */
    var engine: Engine
    ghost var pushed: bytes
    ghost var consumed: bytes
    ghost var written: bytes
    ghost var collected: seq<bytes>

    ghost function View(): Pipe
      reads this
    {
      Pipe(inbound, outbound, readWaiting, closed, deadline, engine, pushed, consumed, written, collected)
    }

    constructor ()
      ensures View() == NEW_PIPE
    {
      inbound, outbound, readWaiting, closed, deadline := [], [], false, false, None;
      engine, pushed, consumed, written, collected := Running, [], [], [], [];
    }

    /** Read up to its return or its wait; after a wake-up it is entered again with the same n. */
    method ReadStep(n: nat, now: int) returns (r: ReadResult)
      requires engine.Running? || engine == InRead(n)
      modifies this
      ensures View() == Next(old(View()), if old(engine).Running? then Read(n, now) else Wake(now))
      ensures r.Blocked? <==> engine.InRead?
      ensures old(inbound) != [] <==> r.Data?
      ensures r.Data? ==> r.b <= old(inbound) && |r.b| == if n < |old(inbound)| then n else |old(inbound)|
      ensures r.ConnClosed? <==> old(inbound) == [] && closed
      ensures r.TimedOut? <==> old(inbound) == [] && !closed && deadline.Some? && now >= deadline.value
      ensures readWaiting == if r.Data? then false else if r.Blocked? then true else old(readWaiting)
      ensures r.Data? ==> consumed == old(consumed) + r.b
      ensures !r.Data? ==> consumed == old(consumed)
    {
      if |inbound| == 0 {
        engine := Running;
        if closed {
          return ConnClosed;
        }
        if deadline.Some? && now >= deadline.value {
          return TimedOut;
        }
        readWaiting := true;
        engine := InRead(n);
        return Blocked;
      }
      readWaiting := false;
      var k := if n < |inbound| then n else |inbound|;
      r := Data(inbound[..k]);
      consumed := consumed + inbound[..k];
      inbound := inbound[k..];
      engine := Running;
    }

    method WriteAll(b: bytes) returns (ok: bool)
      requires engine.Running?
      modifies this`outbound, this`written
      ensures View() == Next(old(View()), Write(b))
      ensures ok <==> !closed
    {
      ok := !closed;
      if ok {
        outbound := outbound + b;
        written := written + b;
      }
    }

    /** The handshake returned and the engine signalled that it is done. */
    method FinishHandshake(failed: bool)
      requires engine.Running?
      modifies this`engine
      ensures View() == Next(old(View()), Finish(failed))
    {
      engine := Finished(failed);
    }

    method PushInbound(b: bytes)
      modifies this`inbound, this`pushed
      ensures View() == Next(old(View()), Push(b))
    {
      inbound := inbound + b;
      pushed := pushed + b;
    }

    /** One round of the collecting loop: a flight, or None for another wait. */
    method CollectStep(expired: bool) returns (r: Option<bytes>)
      modifies this`outbound, this`collected
      ensures View() == Next(old(View()), Collect(expired))
      ensures r.Some? <==> engine.Finished? || (old(outbound) != [] && readWaiting) || closed || expired
      ensures r.Some? ==> r.value == old(outbound) && outbound == []
      ensures r.None? ==> outbound == old(outbound)
    {
      if engine.Finished? || (|outbound| > 0 && readWaiting) || closed || expired {
        r := Some(outbound);
        collected := collected + [outbound];
        outbound := [];
      } else {
        r := None;
      }
    }

    /** One move of the engine thread, when it is at a point where it can make it. */
    method EngineStep(a: Action)
      modifies this
      ensures View() == if EngineMove(a) && Enabled(old(View()), a) then Next(old(View()), a) else old(View())
    {
      match a {
        case Read(n, now) =>
          if engine.Running? {
            var _ := ReadStep(n, now);
          }
        case Wake(now) =>
          if engine.InRead? {
            var _ := ReadStep(engine.n, now);
          }
        case Write(b) =>
          if engine.Running? {
            var _ := WriteAll(b);
          }
        case Finish(failed) =>
          if engine.Running? {
            FinishHandshake(failed);
          }
        case _ =>
      }
    }

    method EngineSteps(acts: seq<Action>)
      modifies this
      ensures View() == Moves(old(View()), acts)
    {
      assert acts[0..] == acts;
      for i := 0 to |acts|
        invariant Moves(View(), acts[i..]) == Moves(old(View()), acts)
      {
        MovesStep(View(), acts[i..]);
        assert acts[i..][1..] == acts[i + 1..];
        EngineStep(acts[i]);
      }
    }

    /** Pushes a flight and collects what the engine has written when the wait ends. */
    method Exchange(flight: bytes, sch: Schedule) returns (output: bytes)
      modifies this
      ensures output == Answering(old(View()), flight, sch).outbound
      ensures View() == Answered(old(View()), flight, sch)
    {
      EngineSteps(sch.idle);
      PushInbound(flight);
      EngineSteps(sch.moves);
      var r := CollectStep(true);
      output := r.value;
      EngineSteps(sch.late);
    }

    method CloseConn()
      modifies this`closed
      ensures View() == Next(old(View()), Close) && closed
    {
      closed := true;
    }

    method SetReadDeadline(at: Option<int>)
      modifies this`deadline
      ensures View() == Next(old(View()), SetDeadline(at))
    {
      deadline := at;
    }
  }
}
