/** What holds in every run of the server from an empty table: safety of Access-Accept and of the session table. */
module AcceptSafety {
  import opened Wire
  import opened Radius
  import opened Signature
  import opened Eap
  import opened Mppe
  import opened Conversation
  import opened Runs
  import opened Delivery

  predicate IsAccept(reply: bytes) { reply != [] && reply[0] == ACCESS_ACCEPT }

  predicate IsReject(reply: bytes) { reply != [] && reply[0] == ACCESS_REJECT }

  /** An event at which the engine, fed a complete flight, reports the handshake finished without error. */
  predicate HandshakeDone(ev: Event, token: bytes) {
    ev.Request? && Completes(ev.p, token) && ev.env.engine.done && !ev.env.engine.failed
  }

  /** The policy engine accepts the peer certificate for the network access server that opened the conversation. */
  predicate PolicyAccepts(env: Env, nas: bytes, calling: bytes) {
    env.certs != [] && env.decide(env.certs[0], nas, calling, Tenant(env.certs[0])).accept
  }

  /** The tenant a certificate names: its first organisation, if it has one. */
  function Tenant(cert: Cert): bytes { if cert.organizations == [] then [] else cert.organizations[0] }

  ghost predicate OpenedBy(ev: Event, token: bytes, conv: Conv) {
    && Opens(ev)
    && ev.env.token == token
    && conv.nas == First(ev.p.attrs, NAS_IDENTIFIER)
    && conv.calling == First(ev.p.attrs, CALLING_STATION_ID)
    && conv.created == ev.env.now
  }

  /** A conversation and the events it came from. */
  ghost predicate Justified(evs: seq<Event>, token: bytes, conv: Conv) {
    exists k :: 0 <= k < |evs| && OpenedBy(evs[k], token, conv) &&
                (conv.hsComplete ==> exists j :: k < j < |evs| && HandshakeDone(evs[j], token))
  }

  // ------------------------------------------------------------ single steps

  predicate SameOrigin(x: Conv, y: Conv) {
    x.nas == y.nas && x.calling == y.calling && x.created == y.created
  }

  /** How one request changes its conversation. */
  lemma TurnOrigin(c: Crypto, p: Packet, env: Env, token: bytes, conv: Conv, e: EapPacket)
    requires env.Valid()
    ensures var t := AdvanceTurn(c, p, env, token, conv, e);
            && (t.verdict.Keep? ==>
                  && SameOrigin(t.verdict.conv, conv)
                  && (t.verdict.conv.hsComplete ==>
                        conv.hsComplete ||
                        (&& ReadTlsData(e.data).Ok? && ReadTlsData(e.data).value.tls != []
                         && !ReadTlsData(e.data).value.more && env.engine.done && !env.engine.failed)))
            && (IsAccept(t.reply) ==>
                  && t.verdict.Drop?
                  && PolicyAccepts(env, conv.nas, conv.calling)
                  && (conv.hsComplete ||
                      (&& ReadTlsData(e.data).Ok? && ReadTlsData(e.data).value.tls != []
                       && !ReadTlsData(e.data).value.more && env.engine.done && !env.engine.failed)))
  {
    hide Challenge, Reject, FinishReply;
  }

  /** Where a conversation of the next table comes from. */
  lemma StepOrigin(c: Crypto, s: Sessions, ev: Event, token: bytes)
    requires ev.Valid() && token in Step(c, s, ev).sessions
    ensures var conv := Step(c, s, ev).sessions[token];
            || (OpenedBy(ev, token, conv) && !conv.hsComplete)
            || (token in s && SameOrigin(conv, s[token])
                && (conv.hsComplete ==> s[token].hsComplete || HandshakeDone(ev, token)))
  {
    hide AdvanceTurn, Challenge, Reject;
    if ev.Request? {
      var eap, t := ParseEap(EapMessage(ev.p.attrs)), First(ev.p.attrs, STATE);
      if eap.Ok? && t != [] && t in s {
        TurnOrigin(c, ev.p, ev.env, t, s[t], eap.value);
      }
    }
  }

  /** What an Access-Accept implies about the table it was issued from. */
  lemma StepAccept(c: Crypto, s: Sessions, ev: Event)
    requires ev.Valid() && IsAccept(Step(c, s, ev).reply)
    ensures ev.Request?
    ensures var token := First(ev.p.attrs, STATE);
            && token in s && token !in Step(c, s, ev).sessions
            && PolicyAccepts(ev.env, s[token].nas, s[token].calling)
            && (s[token].hsComplete || HandshakeDone(ev, token))
  {
    hide AdvanceTurn, Challenge, Reject;
    var eap, t := ParseEap(EapMessage(ev.p.attrs)), First(ev.p.attrs, STATE);
    if eap.Ok? && t != [] && t in s {
      TurnOrigin(c, ev.p, ev.env, t, s[t], eap.value);
    }
  }

  /** A request for a token that is not in the table is rejected and changes nothing. */
  lemma StepUnknown(c: Crypto, s: Sessions, ev: Event)
    requires ev.Valid() && ev.Request?
    requires First(ev.p.attrs, STATE) != [] && First(ev.p.attrs, STATE) !in s
    ensures IsReject(Step(c, s, ev).reply) && Step(c, s, ev).sessions == s && Step(c, s, ev).fed.None?
  {
  }

  // --------------------------------------------------------------- whole runs

  ghost predicate TableJustified(evs: seq<Event>, s: Sessions) {
    forall t :: t in s ==> Justified(evs, t, s[t])
  }

  lemma JustifiedLater(evs: seq<Event>, ev: Event, token: bytes, old': Conv, conv: Conv)
    requires Justified(evs, token, old') && SameOrigin(conv, old')
    requires conv.hsComplete ==> old'.hsComplete || HandshakeDone(ev, token)
    ensures Justified(evs + [ev], token, conv)
  {
    var all := evs + [ev];
    var k :| 0 <= k < |evs| && OpenedBy(evs[k], token, old') &&
             (old'.hsComplete ==> exists j :: k < j < |evs| && HandshakeDone(evs[j], token));
    assert OpenedBy(all[k], token, conv);
    if conv.hsComplete {
      if old'.hsComplete {
        var j :| k < j < |evs| && HandshakeDone(evs[j], token);
        assert HandshakeDone(all[j], token);
      } else {
        assert HandshakeDone(all[|evs|], token);
      }
    }
  }

  /** Every conversation in the table was opened, and marked complete, by events of the run. */
  lemma {:induction false} RunJustified(c: Crypto, evs: seq<Event>)
    requires ValidRun(evs)
    ensures TableJustified(evs, After(c, map[], evs))
    decreases |evs|
  {
    hide Step, Opens, HandshakeDone;
    if evs == [] {
    } else {
      var k := |evs| - 1;
      var before, ev := evs[..k], evs[k];
      var s := After(c, map[], before);
      RunJustified(c, before);
      assert evs == before + [ev];
      forall t | t in Step(c, s, ev).sessions ensures Justified(evs, t, Step(c, s, ev).sessions[t]) {
        StepOrigin(c, s, ev, t);
        var conv := Step(c, s, ev).sessions[t];
        if OpenedBy(ev, t, conv) && !conv.hsComplete {
          assert OpenedBy(evs[k], t, conv);
        } else {
          JustifiedLater(before, ev, t, s[t], conv);
        }
      }
    }
  }

  /**
   * An Access-Accept for a token: an earlier event opened that conversation, a later one (or this
   * one) saw its TLS handshake finish without error, a peer certificate was present, and the policy
   * engine accepted it with the NAS-Identifier and Calling-Station-Id of the opening request.
   */
  lemma AcceptSafe(c: Crypto, evs: seq<Event>, i: nat)
    requires ValidRun(evs) && i < |evs| && IsAccept(OutcomeAt(c, map[], evs, i).reply)
    ensures evs[i].Request?
    ensures var token := First(evs[i].p.attrs, STATE);
            exists k, j ::
              && 0 <= k < j <= i
              && Opens(evs[k]) && evs[k].env.token == token
              && HandshakeDone(evs[j], token)
              && PolicyAccepts(evs[i].env, First(evs[k].p.attrs, NAS_IDENTIFIER),
                               First(evs[k].p.attrs, CALLING_STATION_ID))
  {
    hide Step, Opens, HandshakeDone, PolicyAccepts, After;
    var before := evs[..i];
    var s := After(c, map[], before);
    StepAccept(c, s, evs[i]);
    var token := First(evs[i].p.attrs, STATE);
    RunJustified(c, before);
    assert Justified(before, token, s[token]);
    var k :| 0 <= k < |before| && OpenedBy(before[k], token, s[token]) &&
             (s[token].hsComplete ==> exists j :: k < j < |before| && HandshakeDone(before[j], token));
    assert Opens(evs[k]);
    if s[token].hsComplete {
      var j :| k < j < |before| && HandshakeDone(before[j], token);
      assert HandshakeDone(evs[j], token);
    } else {
      assert HandshakeDone(evs[i], token);
    }
  }

  /** No State token is handed out twice. */
  ghost predicate FreshTokens(evs: seq<Event>) {
    forall i, j :: 0 <= i < j < |evs| && Opens(evs[i]) && Opens(evs[j]) ==> evs[i].env.token != evs[j].env.token
  }

  /** A token that has left the table, and is not handed out again, stays out. */
  lemma {:induction false} StaysOut(c: Crypto, evs: seq<Event>, token: bytes, i: nat, j: nat)
    requires ValidRun(evs) && i <= j <= |evs| && token !in After(c, map[], evs[..i])
    requires forall k :: i <= k < |evs| && Opens(evs[k]) ==> evs[k].env.token != token
    ensures token !in After(c, map[], evs[..j])
    decreases j - i
  {
    hide Step, Opens, HandshakeDone;
    if i < j {
      StaysOut(c, evs, token, i, j - 1);
      AfterPrefix(c, map[], evs, j - 1);
      var s := After(c, map[], evs[..j - 1]);
      if token in Step(c, s, evs[j - 1]).sessions {
        StepOrigin(c, s, evs[j - 1], token);
        assert false;
      }
    }
  }

  lemma OpensIsRequest()
    ensures forall ev {:trigger Opens(ev)} :: Opens(ev) ==> ev.Request?
  {
  }

  /** After an Access-Accept every request with that State is rejected: one Accept per token. */
  lemma OneAccept(c: Crypto, evs: seq<Event>, i: nat, j: nat)
    requires ValidRun(evs) && FreshTokens(evs) && i < j < |evs|
    requires IsAccept(OutcomeAt(c, map[], evs, i).reply)
    requires evs[j].Request? && evs[i].Request? && First(evs[j].p.attrs, STATE) == First(evs[i].p.attrs, STATE)
    ensures IsReject(OutcomeAt(c, map[], evs, j).reply)
    ensures OutcomeAt(c, map[], evs, j).sessions == After(c, map[], evs[..j])
  {
    hide Step, Opens, HandshakeDone, PolicyAccepts, After;
    var token := First(evs[i].p.attrs, STATE);
    AcceptSafe(c, evs, i);
    assert forall x :: 0 <= x < |evs| && Opens(evs[x]) ==> evs[x].Request? by { OpensIsRequest(); }
    var k :| 0 <= k < i && Opens(evs[k]) && evs[k].Request? && evs[k].env.token == token;
    StepAccept(c, After(c, map[], evs[..i]), evs[i]);
    AfterPrefix(c, map[], evs, i);
    StaysOut(c, evs, token, i + 1, j);
    assert evs[k].env.Valid();
    StepUnknown(c, After(c, map[], evs[..j]), evs[j]);
  }

  // ------------------------------------------------------- nothing half-sent

  /** Between requests the outbound message is either gone or partly sent. */
  predicate SendState(conv: Conv) {
    (conv.outFrags == [] && conv.outOffset == 0) || 0 < conv.outOffset < |conv.outFrags|
  }

  lemma TurnSendState(c: Crypto, p: Packet, env: Env, token: bytes, conv: Conv, e: EapPacket)
    requires env.Valid() && SendState(conv)
    ensures var t := AdvanceTurn(c, p, env, token, conv, e); t.verdict.Keep? ==> SendState(t.verdict.conv)
  {
    hide Challenge, Reject, FinishReply;
  }

  lemma StepSendState(c: Crypto, s: Sessions, ev: Event)
    requires ev.Valid() && forall t :: t in s ==> SendState(s[t])
    ensures forall t :: t in Step(c, s, ev).sessions ==> SendState(Step(c, s, ev).sessions[t])
  {
    hide AdvanceTurn, Challenge, Reject;
    if ev.Request? {
      var eap, t := ParseEap(EapMessage(ev.p.attrs)), First(ev.p.attrs, STATE);
      if eap.Ok? && t != [] && t in s {
        TurnSendState(c, ev.p, ev.env, t, s[t], eap.value);
      }
    }
  }

  lemma {:induction false} RunSendState(c: Crypto, evs: seq<Event>)
    requires ValidRun(evs)
    ensures forall t :: t in After(c, map[], evs) ==> SendState(After(c, map[], evs)[t])
    decreases |evs|
  {
    hide Step;
    if evs == [] {
    } else {
      var k := |evs| - 1;
      RunSendState(c, evs[..k]);
      StepSendState(c, After(c, map[], evs[..k]), evs[k]);
    }
  }
}
