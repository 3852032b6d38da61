/**
 * One conversation among others: requests of other conversations, and reaper ticks that come in time,
 * leave it alone, so what holds of its own requests holds wherever they stand in a run.
 */
module Interleaving {
  import opened Wire
  import opened Radius
  import opened Signature
  import opened Eap
  import opened Conversation
  import opened Runs
  import opened Delivery
  import opened AcceptSafety

  /** A request that carries the State of the conversation. */
  predicate Concerns(ev: Event, token: bytes) { ev.Request? && First(ev.p.attrs, STATE) == token }

  /** A tick within two minutes of the opening, or a request of another conversation under another token. */
  predicate Foreign(ev: Event, token: bytes, created: int) {
    match ev
    case Tick(now) => !(created < now - STALE_AFTER)
    case Request(p, env) => First(p.attrs, STATE) != token && (Opens(ev) ==> env.token != token)
  }

  /** A run in which the requests of one conversation stand among other events. */
  ghost predicate Among(evs: seq<Event>, token: bytes, created: int) {
    && ValidRun(evs)
    && token != []
    && forall i :: 0 <= i < |evs| ==> Concerns(evs[i], token) || Foreign(evs[i], token, created)
  }

  /** The requests of the conversation, in order. */
  function Own(evs: seq<Event>, token: bytes): (r: seq<Event>)
    ensures |r| <= |evs|
    decreases |evs|
  {
    if evs == [] then []
    else
      var k := |evs| - 1;
      if Concerns(evs[k], token) then Own(evs[..k], token) + [evs[k]] else Own(evs[..k], token)
  }

  /** The replies to them. */
  ghost function Answers(c: Crypto, s: Sessions, evs: seq<Event>, token: bytes): (r: seq<bytes>)
    requires ValidRun(evs)
    decreases |evs|
  {
    if evs == [] then []
    else
      var k := |evs| - 1;
      var front := Answers(c, s, evs[..k], token);
      if Concerns(evs[k], token) then front + [OutcomeAt(c, s, evs, k).reply] else front
  }

  /** The flights handed to the engine of the conversation. */
  ghost function FedTo(c: Crypto, s: Sessions, evs: seq<Event>, token: bytes): (r: seq<bytes>)
    requires ValidRun(evs)
    decreases |evs|
  {
    if evs == [] then []
    else
      var k := |evs| - 1;
      var front, o := FedTo(c, s, evs[..k], token), OutcomeAt(c, s, evs, k);
      if Concerns(evs[k], token) && o.fed.Some? then front + [o.fed.value] else front
  }

  function Entry(s: Sessions, token: bytes): Option<Conv> { if token in s then Some(s[token]) else None }

  // ------------------------------------------------------------ single steps

  /** Nothing but the conversation's own entry matters to its requests. */
  lemma OwnStep(c: Crypto, s: Sessions, s': Sessions, ev: Event, token: bytes)
    requires ev.Valid() && token != [] && Concerns(ev, token) && Entry(s, token) == Entry(s', token)
    ensures Step(c, s, ev).reply == Step(c, s', ev).reply && Step(c, s, ev).fed == Step(c, s', ev).fed
    ensures Entry(Step(c, s, ev).sessions, token) == Entry(Step(c, s', ev).sessions, token)
  {
    hide AdvanceTurn, Reject;
  }

  lemma OwnStepOrigin(c: Crypto, s: Sessions, ev: Event, token: bytes)
    requires ev.Valid() && token != [] && Concerns(ev, token) && token in Step(c, s, ev).sessions
    ensures token in s && Step(c, s, ev).sessions[token].created == s[token].created
  {
    hide Step;
    StepOrigin(c, s, ev, token);
  }

  /** A foreign event leaves the entry alone. */
  lemma ForeignStep(c: Crypto, s: Sessions, ev: Event, token: bytes, created: int)
    requires ev.Valid() && token != [] && Foreign(ev, token, created)
    requires token in s ==> s[token].created == created
    ensures Entry(Step(c, s, ev).sessions, token) == Entry(s, token)
  {
    hide AdvanceTurn, Reject, Challenge;
  }

  // -------------------------------------------------------------- whole runs

  lemma {:induction false} OwnValid(evs: seq<Event>, token: bytes)
    requires ValidRun(evs)
    ensures ValidRun(Own(evs, token))
    ensures forall i :: 0 <= i < |Own(evs, token)| ==> Concerns(Own(evs, token)[i], token)
    decreases |evs|
  {
    if evs == [] {
    } else {
      OwnValid(evs[..|evs| - 1], token);
    }
  }

  /** The run as its conversation sees it: entry, replies and flights are those of its own requests alone. */
  ghost predicate SeenAlike(c: Crypto, s: Sessions, evs: seq<Event>, own: seq<Event>, token: bytes)
    requires ValidRun(evs) && ValidRun(own)
  {
    && Entry(After(c, s, evs), token) == Entry(After(c, s, own), token)
    && Answers(c, s, evs, token) == Replies(c, s, own)
    && FedTo(c, s, evs, token) == FedTo(c, s, own, token)
  }

  lemma {:induction false} OwnRun(c: Crypto, s: Sessions, evs: seq<Event>, token: bytes)
    requires token in s && Among(evs, token, s[token].created)
    ensures ValidRun(Own(evs, token)) && SeenAlike(c, s, evs, Own(evs, token), token)
    ensures token in After(c, s, evs) ==> After(c, s, evs)[token].created == s[token].created
    decreases |evs|
  {
    hide Step, Foreign, Concerns, Opens, SeenAlike, Answers, FedTo;
    OwnValid(evs, token);
    if evs == [] {
      SeenNothing(c, s, token);
    } else {
      var k := |evs| - 1;
      var front, ev := evs[..k], evs[k];
      OwnRun(c, s, front, token);
      assert evs == front + [ev];
      if Concerns(ev, token) {
        SeenOwn(c, s, front, Own(front, token), ev, token, s[token].created);
      } else {
        SeenForeign(c, s, front, Own(front, token), ev, token, s[token].created);
      }
    }
  }

  lemma SeenNothing(c: Crypto, s: Sessions, token: bytes)
    ensures SeenAlike(c, s, [], [], token)
  {
  }

  lemma SeenOwn(c: Crypto, s: Sessions, evs: seq<Event>, own: seq<Event>, ev: Event, token: bytes, created: int)
    requires ValidRun(evs) && ValidRun(own) && ev.Valid() && token != [] && Concerns(ev, token)
    requires SeenAlike(c, s, evs, own, token)
    requires token in After(c, s, evs) ==> After(c, s, evs)[token].created == created
    ensures SeenAlike(c, s, evs + [ev], own + [ev], token)
    ensures token in After(c, s, evs + [ev]) ==> After(c, s, evs + [ev])[token].created == created
  {
    hide Step, Concerns;
    var all, now := evs + [ev], After(c, s, evs);
    assert all[..|evs|] == evs && all[|evs|] == ev;
    OwnStep(c, now, After(c, s, own), ev, token);
    if token in Step(c, now, ev).sessions {
      OwnStepOrigin(c, now, ev, token);
    }
    OwnSnoc(c, s, own, ev, token);
  }

  lemma SeenForeign(c: Crypto, s: Sessions, evs: seq<Event>, own: seq<Event>, ev: Event, token: bytes, created: int)
    requires ValidRun(evs) && ValidRun(own) && ev.Valid() && token != [] && !Concerns(ev, token)
             && Foreign(ev, token, created)
    requires SeenAlike(c, s, evs, own, token)
    requires token in After(c, s, evs) ==> After(c, s, evs)[token].created == created
    ensures SeenAlike(c, s, evs + [ev], own, token)
    ensures token in After(c, s, evs + [ev]) ==> After(c, s, evs + [ev])[token].created == created
  {
    hide Step, Concerns, Foreign, Replies;
    var all := evs + [ev];
    assert all[..|evs|] == evs && all[|evs|] == ev;
    ForeignStep(c, After(c, s, evs), ev, token, created);
  }

  /** One more request of the conversation at the end of its run. */
  lemma OwnSnoc(c: Crypto, s: Sessions, own: seq<Event>, ev: Event, token: bytes)
    requires ValidRun(own) && ev.Valid() && Concerns(ev, token)
    ensures ValidRun(own + [ev])
    ensures var o := Step(c, After(c, s, own), ev);
            && After(c, s, own + [ev]) == o.sessions
            && Replies(c, s, own + [ev]) == Replies(c, s, own) + [o.reply]
            && FedTo(c, s, own + [ev], token) ==
               (if o.fed.Some? then FedTo(c, s, own, token) + [o.fed.value] else FedTo(c, s, own, token))
  {
    hide Step, Concerns;
    var all := own + [ev];
    assert all[..|own|] == own && all[|own|] == ev;
    forall k | 0 <= k < |own|
      ensures OutcomeAt(c, s, all, k) == OutcomeAt(c, s, own, k)
    {
      assert all[..k] == own[..k];
    }
  }

  // ------------------------------------------- delivery among other events

  /** Every flight of the engine reaches the peer, whatever happens in between: see FlightDelivered. */
  lemma DeliveredAmong(c: Crypto, s: Sessions, token: bytes, evs: seq<Event>)
    requires token in s && |token| <= MAX_VALUE && Among(evs, token, s[token].created)
    requires Fetches(Own(evs, token), token)
    requires |Own(evs, token)| == FragmentCount(|Own(evs, token)[0].env.engine.output|)
    ensures var own, replies := Own(evs, token), Answers(c, s, evs, token);
            var flight := own[0].env.engine.output;
            && |replies| == |own|
            && (forall k :: 0 <= k < |own| ==>
                  && Receive(replies[k]) == Some(ExpectedAt(flight, 0, k, own[k].p.id, token, s[token].eapId))
                  && Authentic(c, own[k].p, replies[k]))
            && Assembled(replies) == Some(flight)
    ensures Entry(After(c, s, evs), token) ==
            Some(s[token].(eapId := (s[token].eapId + |Own(evs, token)|) % 256, reassembly := [],
                           hsComplete := s[token].hsComplete || Own(evs, token)[0].env.engine.done,
                           outFrags := [], outOffset := 0))
  {
    hide Step, Receive, Authentic, ExpectedAt, Assembled, Fetches, Answers, After, OutcomeAt, Own, FedTo;
    OwnRun(c, s, evs, token);
    FlightDelivered(c, s, token, Own(evs, token));
  }

  lemma {:induction false} FedNothing(c: Crypto, s: Sessions, evs: seq<Event>, token: bytes)
    requires ValidRun(evs) && forall k :: 0 <= k < |evs| ==> OutcomeAt(c, s, evs, k).fed.None?
    ensures FedTo(c, s, evs, token) == []
    decreases |evs|
  {
    hide Step, Concerns, OutcomeAt;
    if evs == [] {
    } else {
      var k := |evs| - 1;
      SameOutcomes(c, s, evs, k);
      FedNothing(c, s, evs[..k], token);
    }
  }

  lemma SameOutcomes(c: Crypto, s: Sessions, evs: seq<Event>, n: nat)
    requires ValidRun(evs) && n <= |evs|
    ensures forall k :: 0 <= k < n ==> OutcomeAt(c, s, evs[..n], k) == OutcomeAt(c, s, evs, k)
  {
    hide Step, After;
    forall k | 0 <= k < n
      ensures OutcomeAt(c, s, evs[..n], k) == OutcomeAt(c, s, evs, k)
    {
      assert evs[..n][..k] == evs[..k];
    }
  }

  /** A run in which only one request feeds the engine. */
  lemma {:induction false} FedOnce(c: Crypto, s: Sessions, evs: seq<Event>, token: bytes, last: nat)
    requires ValidRun(evs) && last < |evs| && Concerns(evs[last], token)
    requires forall k :: 0 <= k < |evs| && k != last ==> OutcomeAt(c, s, evs, k).fed.None?
    ensures FedTo(c, s, evs, token) ==
            if OutcomeAt(c, s, evs, last).fed.Some? then [OutcomeAt(c, s, evs, last).fed.value] else []
    decreases |evs|
  {
    hide Step, Concerns, OutcomeAt;
    var k := |evs| - 1;
    SameOutcomes(c, s, evs, k);
    if k == last {
      FedNothing(c, s, evs[..k], token);
    } else {
      FedOnce(c, s, evs[..k], token, last);
    }
  }

  /**
   * However a peer flight is cut and whatever happens in between, the engine of the conversation is
   * fed the whole flight, once; or nothing, when the last fragment carries no data.
   */
  lemma ReassembledAmong(c: Crypto, s: Sessions, token: bytes, evs: seq<Event>)
    requires token in s && |token| <= MAX_VALUE && Among(evs, token, s[token].created)
    requires Fragmented(Own(evs, token), token)
    ensures var fragments := Fragments(Own(evs, token), token);
            FedTo(c, s, evs, token) ==
            if fragments[|fragments| - 1] == [] then [] else [s[token].reassembly + Flatten(fragments)]
  {
    hide Step, Receive, Carrying, Answers, After, OutcomeAt, Own, FedTo;
    OwnRun(c, s, evs, token);
    OwnValid(evs, token);
    var own := Own(evs, token);
    Reassembled(c, s, token, own);
    FedOnce(c, s, own, token, |own| - 1);
  }

  /** A whole exchange, among other events: see FlightExchange. */
  lemma ExchangeAmong(c: Crypto, s: Sessions, token: bytes, evs: seq<Event>, inbound: seq<Event>, acks: seq<Event>)
    requires token in s && |token| <= MAX_VALUE && s[token].reassembly == [] && Among(evs, token, s[token].created)
    requires Own(evs, token) == inbound + acks
    requires Fragmented(inbound, token) && Fragments(inbound, token)[|inbound| - 1] != []
    requires ValidRun(acks) && Fetches([inbound[|inbound| - 1]] + acks, token)
    requires 1 + |acks| == FragmentCount(|inbound[|inbound| - 1].env.engine.output|)
    ensures FedTo(c, s, evs, token) == [Flatten(Fragments(inbound, token))]
    ensures |Answers(c, s, evs, token)| == |inbound| + |acks|
    ensures Assembled(Answers(c, s, evs, token)[|inbound| - 1..]) == Some(inbound[|inbound| - 1].env.engine.output)
    ensures token in After(c, s, evs) && After(c, s, evs)[token].reassembly == []
    ensures After(c, s, evs)[token].created == s[token].created
  {
    hide Step, Receive, Carrying, Answers, After, OutcomeAt, Own, FedTo, Fetches, Assembled, Concerns;
    OwnRun(c, s, evs, token);
    OwnValid(evs, token);
    FlightExchange(c, s, token, inbound, acks);
    FedOnce(c, s, inbound + acks, token, |inbound| - 1);
  }
}
