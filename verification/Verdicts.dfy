/**
 * Which requests are accepted, rejected and challenged, told from the table and the request: every
 * step, and the end of every handshake wherever it stands in a run.
 */
module Verdicts {
  import opened Wire
  import opened Radius
  import opened Eap
  import opened Conversation
  import opened Runs
  import opened Delivery
  import opened AcceptSafety
  import opened Interleaving
  import opened Receipts

  predicate IsChallenge(reply: bytes) { reply != [] && reply[0] == 11 }

  /** The request ends its handshake: the final acknowledgement, or a last flight the engine has no answer to. */
  predicate EndsHandshake(ev: Event, token: bytes, conv: Conv) {
    && ev.Request?
    && (|| (IsAck(ev.p, token) && conv.outOffset >= |conv.outFrags| && conv.hsComplete)
        || (&& Completes(ev.p, token) && ev.env.engine.output == []
            && !(ev.env.engine.done && ev.env.engine.failed) && (conv.hsComplete || ev.env.engine.done)))
  }

  /** The conversation goes on: a fragment is due, more is to come from the peer, or the engine has answered. */
  predicate GoesOn(ev: Event, token: bytes, conv: Conv) {
    && ev.Request? && Carrying(ev.p, token)
    && (|| Payload(ev.p, token).more
        || (IsAck(ev.p, token) && conv.outOffset < |conv.outFrags|)
        || (Completes(ev.p, token) && EngineAnswers(ev.env)))
  }

  /** The request carries an EAP-TLS packet, well-formed or not. */
  predicate CarriesTls(ev: Event) {
    && ev.Request?
    && var e := ParseEap(EapMessage(ev.p.attrs)); e.Ok? && e.value.typ == 13
  }

  lemma VerdictsDiffer(reply: bytes)
    ensures !(IsAccept(reply) && IsReject(reply)) && !(IsAccept(reply) && IsChallenge(reply))
    ensures !(IsReject(reply) && IsChallenge(reply))
  {
  }

  /** The decision taken when a handshake ends. */
  function DecisionFor(env: Env, conv: Conv): Decision
    requires env.certs != []
  {
    env.decide(env.certs[0], conv.nas, conv.calling, Tenant(env.certs[0]))
  }

  /** The reply at the end of a handshake. */
  function EndReply(c: Crypto, p: Packet, env: Env, conv: Conv): bytes
    requires env.Valid()
  {
    if env.certs == [] then Reject(c, p)
    else FinishReply(c, p, env, DecisionFor(env, conv), env.certs[0], (conv.eapId + 1) % 256)
  }

  lemma TurnVerdict(c: Crypto, s: Sessions, ev: Event, token: bytes)
    requires ev.Valid() && ev.Request? && token != [] && First(ev.p.attrs, STATE) == token && token in s
    ensures var conv, o := s[token], Step(c, s, ev);
            && (EndsHandshake(ev, token, conv) ==>
                  o.reply == EndReply(c, ev.p, ev.env, conv) && o.sessions == s - {token})
            && (GoesOn(ev, token, conv) ==> IsChallenge(o.reply) && token in o.sessions)
            && (!EndsHandshake(ev, token, conv) && !GoesOn(ev, token, conv) ==>
                  o.reply == Reject(c, ev.p) && o.sessions == if CarriesTls(ev) then s - {token} else s)
  {
    hide Respond, ReadTlsData, ParseEap, FinishReply;
  }

  /**
   * The verdict on a request of a known conversation. It is accepted if and only if its handshake ends
   * and the policy engine accepts; it is challenged if and only if the conversation goes on; all else
   * is rejected. The conversation survives exactly a challenge or a request that is not EAP-TLS.
   */
  lemma VerdictIff(c: Crypto, s: Sessions, ev: Event, token: bytes)
    requires ev.Valid() && ev.Request? && token != [] && First(ev.p.attrs, STATE) == token && token in s
    ensures var conv, o := s[token], Step(c, s, ev);
            && (IsAccept(o.reply) <==>
                  EndsHandshake(ev, token, conv) && PolicyAccepts(ev.env, conv.nas, conv.calling))
            && (IsChallenge(o.reply) <==> GoesOn(ev, token, conv))
            && (IsReject(o.reply) <==> !IsAccept(o.reply) && !IsChallenge(o.reply))
            && (token in o.sessions <==> IsChallenge(o.reply) || !CarriesTls(ev))
            && (forall t :: t != token ==> (t in o.sessions <==> t in s) && (t in s ==> o.sessions[t] == s[t]))
  {
    hide Step, EndsHandshake, GoesOn, CarriesTls, Respond, Tenant;
    TurnVerdict(c, s, ev, token);
    VerdictsDiffer(Step(c, s, ev).reply);
    OthersStay(c, s, ev, token);
    if EndsHandshake(ev, token, s[token]) {
      EndsCarryTls(ev, token, s[token]);
    }
  }

  lemma EndsCarryTls(ev: Event, token: bytes, conv: Conv)
    requires EndsHandshake(ev, token, conv)
    ensures CarriesTls(ev) && !GoesOn(ev, token, conv)
  {
  }

  lemma OthersStay(c: Crypto, s: Sessions, ev: Event, token: bytes)
    requires ev.Valid() && ev.Request? && token != [] && First(ev.p.attrs, STATE) == token && token in s
    ensures forall t :: t != token ==>
              && (t in Step(c, s, ev).sessions <==> t in s)
              && (t in s ==> Step(c, s, ev).sessions[t] == s[t])
  {
    hide AdvanceTurn, Reject;
  }

  /**
   * A request without a State opens a conversation if it carries an EAP-Response/Identity: one new
   * entry, and a first challenge with the S flag. Any other is rejected and changes nothing.
   */
  lemma OpeningVerdict(c: Crypto, s: Sessions, ev: Event)
    requires ev.Valid() && ev.Request? && First(ev.p.attrs, STATE) == []
    ensures Opens(ev) ==>
              var e, o := ParseEap(EapMessage(ev.p.attrs)).value, Step(c, s, ev);
              && o.sessions == s[ev.env.token := Conv((e.id + 1) % 256, [], [], 0, false, First(ev.p.attrs, 32),
                                                      First(ev.p.attrs, 31), ev.env.now)]
              && Receive(o.reply) == Some(Received(ev.p.id, ev.env.token, (e.id + 1) % 256, None, true, false, []))
              && Authentic(c, ev.p, o.reply)
              && o.fed.None?
    ensures !Opens(ev) ==> Step(c, s, ev) == Outcome(s, Reject(c, ev.p), None)
  {
    hide Challenge, Reject, Receive, Authentic, ParseEap;
    if Opens(ev) {
      StartReceived(c, ev.p, ev.env.token, (ParseEap(EapMessage(ev.p.attrs)).value.id + 1) % 256);
    }
  }

  // -------------------------------------------------------- what the end says

  /** What a receiver reads at the end of a handshake: the grant, the refusal, or a plain reject. */
  predicate EndReceived(c: Crypto, p: Packet, env: Env, conv: Conv, reply: bytes) {
    if env.certs == [] then reply == Reject(c, p)
    else
      var d, id := DecisionFor(env, conv), (conv.eapId + 1) % 256;
      && (d.accept && ValuesFit(d, env.certs[0]) ==> Granting(c, p, env, d, env.certs[0], id, reply))
      && (!d.accept && |d.message| <= MAX_VALUE ==> Refusing(c, p, d.message, id, reply))
  }

  lemma EndIsReceived(c: Crypto, p: Packet, env: Env, conv: Conv)
    requires env.Valid()
    ensures EndReceived(c, p, env, conv, EndReply(c, p, env, conv))
  {
    hide FinishReply, Granting, Refusing, ValuesFit, Reject, Tenant;
    if env.certs != [] {
      var d, id := DecisionFor(env, conv), (conv.eapId + 1) % 256;
      if d.accept {
        if ValuesFit(d, env.certs[0]) {
          AcceptReceived(c, p, env, d, env.certs[0], id);
        }
      } else if |d.message| <= MAX_VALUE {
        RefusalReceived(c, p, env, d, env.certs[0], id);
      }
    }
  }

  // ------------------------------------------------------ the end of a handshake

  /** The engine finished its handshake without error and gave a last flight. */
  predicate LastFlight(env: Env) { env.engine.done && !env.engine.failed && env.engine.output != [] }

  /**
   * A handshake whose last flight has been delivered: the acknowledgement of its last piece is
   * answered with Access-Accept if and only if the policy engine accepts, else with a reject, the
   * receiver reads what was decided, and the conversation is over.
   */
  lemma FinalAck(c: Crypto, s: Sessions, token: bytes, evs: seq<Event>, ack: Event)
    requires token in s && |token| <= MAX_VALUE && Fetches(evs, token) && LastFlight(evs[0].env)
    requires |evs| == FragmentCount(|evs[0].env.engine.output|)
    requires ack.Valid() && ack.Request? && IsAck(ack.p, token)
    ensures var conv, o := s[token].(eapId := (s[token].eapId + |evs|) % 256), Step(c, After(c, s, evs), ack);
            && (IsAccept(o.reply) <==> PolicyAccepts(ack.env, conv.nas, conv.calling))
            && (IsReject(o.reply) <==> !PolicyAccepts(ack.env, conv.nas, conv.calling))
            && EndReceived(c, ack.p, ack.env, conv, o.reply)
            && token !in o.sessions
  {
    hide Step, Fetches, After, Receive, Authentic, ExpectedAt, Assembled, OutcomeAt, EndReply, Tenant;
    FetchesValid(evs, token);
    FlightDelivered(c, s, token, evs);
    var now := After(c, s, evs);
    TurnVerdict(c, now, ack, token);
    VerdictIff(c, now, ack, token);
    EndIsReceived(c, ack.p, ack.env, now[token]);
    SameEnd(c, ack.p, ack.env, now[token], s[token].(eapId := (s[token].eapId + |evs|) % 256),
            Step(c, now, ack).reply);
  }

  lemma SameEnd(c: Crypto, p: Packet, env: Env, x: Conv, y: Conv, reply: bytes)
    requires EndReceived(c, p, env, x, reply) && x.nas == y.nas && x.calling == y.calling && x.eapId == y.eapId
    ensures EndReceived(c, p, env, y, reply)
  {
    hide Granting, Refusing, ValuesFit, Reject;
  }

  /** The same among the events of other conversations and timely reaper ticks. */
  lemma FinalAckAmong(c: Crypto, s: Sessions, token: bytes, run: seq<Event>, evs: seq<Event>, ack: Event)
    requires token in s && |token| <= MAX_VALUE && Among(run, token, s[token].created)
    requires Own(run, token) == evs + [ack] && ack.Valid() && ack.Request? && IsAck(ack.p, token)
    requires Fetches(evs, token) && LastFlight(evs[0].env) && |evs| == FragmentCount(|evs[0].env.engine.output|)
    ensures var conv, replies := s[token].(eapId := (s[token].eapId + |evs|) % 256), Answers(c, s, run, token);
            && |replies| == |evs| + 1
            && (IsAccept(replies[|evs|]) <==> PolicyAccepts(ack.env, conv.nas, conv.calling))
            && (IsReject(replies[|evs|]) <==> !PolicyAccepts(ack.env, conv.nas, conv.calling))
            && EndReceived(c, ack.p, ack.env, conv, replies[|evs|])
            && token !in After(c, s, run)
  {
    hide Step, Fetches, After, Answers, FedTo, Own, IsAck, EndReceived, OutcomeAt, Tenant;
    FetchesValid(evs, token);
    OwnRun(c, s, run, token);
    FinalAck(c, s, token, evs, ack);
    LastOfRun(c, s, evs, ack);
  }

  lemma FetchesValid(evs: seq<Event>, token: bytes)
    requires Fetches(evs, token)
    ensures ValidRun(evs)
  {
  }

  lemma LastOfRun(c: Crypto, s: Sessions, evs: seq<Event>, ev: Event)
    requires ValidRun(evs) && ev.Valid()
    ensures ValidRun(evs + [ev])
    ensures After(c, s, evs + [ev]) == Step(c, After(c, s, evs), ev).sessions
    ensures Replies(c, s, evs + [ev])[|evs|] == Step(c, After(c, s, evs), ev).reply
  {
    hide Step;
    var all := evs + [ev];
    assert all[..|evs|] == evs && all[|evs|] == ev;
  }

  // ------------------------------------------------------------------ the reaper

  /** A tick keeps exactly the conversations of the last two minutes, as they are. */
  lemma TickKeeps(c: Crypto, s: Sessions, now: int, token: bytes)
    ensures var o := Step(c, s, Tick(now));
            && (token in o.sessions <==> token in s && s[token].created + 120 >= now)
            && (token in o.sessions ==> o.sessions[token] == s[token])
  {
  }

  /**
   * A conversation that was not finished within two minutes is over: after any tick that finds it
   * older, every request with its State is rejected and changes nothing.
   */
  lemma StaleIsRejected(c: Crypto, evs: seq<Event>, k: nat, i: nat, j: nat)
    requires ValidRun(evs) && FreshTokens(evs) && k < i < j < |evs|
    requires Opens(evs[k]) && evs[i].Tick? && evs[i].now > evs[k].env.now + 120
    requires evs[j].Request? && First(evs[j].p.attrs, STATE) == evs[k].env.token
    ensures IsReject(OutcomeAt(c, map[], evs, j).reply)
    ensures OutcomeAt(c, map[], evs, j).sessions == After(c, map[], evs[..j])
  {
    hide Step, Opens;
    OpensIsRequest();
    var token, now := evs[k].env.token, After(c, map[], evs[..i]);
    if token in now {
      OnlyOpening(c, evs, k, i);
    }
    TickKeeps(c, now, evs[i].now, token);
    AfterPrefix(c, map[], evs, i);
    StaysOut(c, evs, token, i + 1, j);
    assert token != [] by { assert evs[k].Valid(); }
    StepUnknown(c, After(c, map[], evs[..j]), evs[j]);
  }

  /** With fresh tokens, a conversation in the table was created by the one event that opened its token. */
  lemma OnlyOpening(c: Crypto, evs: seq<Event>, k: nat, i: nat)
    requires ValidRun(evs) && FreshTokens(evs) && k < i <= |evs| && Opens(evs[k])
    requires evs[k].env.token in After(c, map[], evs[..i])
    ensures After(c, map[], evs[..i])[evs[k].env.token].created == evs[k].env.now
  {
    hide Step, Opens, HandshakeDone;
    OpensIsRequest();
    var token, front := evs[k].env.token, evs[..i];
    RunJustified(c, front);
    var conv := After(c, map[], front)[token];
    assert Justified(front, token, conv);
    var o :| 0 <= o < |front| && OpenedBy(front[o], token, conv);
    assert front[o] == evs[o];
    assert o == k;
  }
}
