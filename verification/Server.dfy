/** The server object: a table of mutable sessions, driven by one Access-Request at a time. */
module Server {
  import opened Wire
  import opened Radius
  import opened Signature
  import opened Eap
  import opened Mppe
  import opened Conversation
  import MemConn

  class Session {
    const id: bytes
    var eapId: byte
    var reassembly: bytes
    var outFrags: bytes
    var outOffset: nat
    var hsComplete: bool
    const nas: bytes
    const calling: bytes
    const created: int
    /** The pipe to the TLS engine. */
    const conn: MemConn.Conn

    constructor (id: bytes, eapId: byte, nas: bytes, calling: bytes, created: int)
      ensures this.id == id && fresh(conn) && conn.View() == MemConn.NEW_PIPE
      ensures View() == Conv(eapId, [], [], 0, false, nas, calling, created)
    {
      this.id, this.eapId, this.nas, this.calling, this.created := id, eapId, nas, calling, created;
      reassembly, outFrags, outOffset, hsComplete := [], [], 0, false;
      conn := new MemConn.Conn();
    }

    function View(): Conv
      reads this
    {
      Conv(eapId, reassembly, outFrags, outOffset, hsComplete, nas, calling, created)
    }
  }

  class RadsecServer {
    const crypto: Crypto
    var sessions: map<bytes, Session>

    ghost predicate Valid()
      reads this, sessions.Values
    {
      && (forall t :: t in sessions ==> sessions[t].id == t)
      && (forall t, u :: t in sessions && u in sessions && t != u ==> sessions[t].conn != sessions[u].conn)
    }

    ghost function Conns(): set<MemConn.Conn>
      reads this
    {
      set t | t in sessions :: sessions[t].conn
    }

    ghost function View(): Sessions
      reads this, sessions.Values
    {
      map t | t in sessions :: sessions[t].View()
    }

    constructor (crypto: Crypto)
      ensures Valid() && View() == map[] && this.crypto == crypto
    {
      this.crypto := crypto;
      sessions := map[];
    }

    /** The view changes at one token only. */
    twostate lemma ViewUpdated(new sess: Session)
      requires sess.id in sessions && sessions == old(sessions)[sess.id := sess]
      requires forall t :: t in old(sessions) && t != sess.id ==> unchanged(old(sessions)[t])
      ensures View() == old(View())[sess.id := sess.View()]
    {
    }

    twostate lemma ViewRemoved(token: bytes)
      requires sessions == old(sessions) - {token}
      requires forall t :: t in old(sessions) && t != token ==> unchanged(old(sessions)[t])
      ensures View() == old(View()) - {token}
    {
    }

    /** A verdict was carried out: the session updated and kept, or forgotten. */
    twostate predicate CarriedOut(sess: Session, v: Verdict)
      reads this, sess
    {
      match v
      case Keep(conv) => sessions == old(sessions) && sess.View() == conv
      case Drop => sessions == old(sessions) - {sess.id}
    }

    // ------------------------------------------------------------- replies

    method RejectReply(p: Packet) returns (reply: bytes)
      ensures reply == Reject(crypto, p)
    {
      var resp := new Response(ACCESS_REJECT, p.id);
      resp.Add(REPLY_MESSAGE, DENIED);
      assert resp.attrs == [Attribute(REPLY_MESSAGE, DENIED)];
      reply := resp.Finalize(crypto, p.auth);
    }

    method ChallengeReply(p: Packet, token: bytes, e: EapPacket) returns (reply: bytes)
      ensures reply == Challenge(crypto, p, token, e)
    {
      var resp := new Response(ACCESS_CHALLENGE, p.id);
      resp.Add(MESSAGE_AUTHENTICATOR, ZERO_BLOCK);
      AddEapMessage(resp, EncodeEap(e));
      resp.Add(STATE, token);
      assert resp.attrs == ChallengeAttributes(token, EncodeEap(e));
      reply := resp.Finalize(crypto, p.auth);
    }

    method RefusalReply(p: Packet, d: Decision, id: byte) returns (reply: bytes)
      ensures reply == Respond(crypto, p, ACCESS_REJECT, RefusalAttributes(d, id))
    {
      var resp := new Response(ACCESS_REJECT, p.id);
      AddEapMessage(resp, EncodeResult(FAILURE, id));
      if d.message != [] {
        resp.Add(REPLY_MESSAGE, d.message);
      }
      assert resp.attrs == RefusalAttributes(d, id);
      reply := resp.Finalize(crypto, p.auth);
    }

    method AcceptReply(p: Packet, env: Env, d: Decision, cert: Cert, id: byte) returns (reply: bytes)
      requires env.Valid()
      ensures reply == Respond(crypto, p, ACCESS_ACCEPT, AcceptAttributes(crypto, p, env, d, cert, id))
    {
      var resp := new Response(ACCESS_ACCEPT, p.id);
      FillAccept(resp, p, env, d, cert, id);
      reply := resp.Finalize(crypto, p.auth);
    }

    method FillAccept(resp: Response, p: Packet, env: Env, d: Decision, cert: Cert, id: byte)
      requires env.Valid() && resp.attrs == []
      modifies resp`attrs
      ensures resp.attrs == AcceptAttributes(crypto, p, env, d, cert, id)
    {
      resp.Add(MESSAGE_AUTHENTICATOR, ZERO_BLOCK);
      assert resp.attrs == [Attribute(MESSAGE_AUTHENTICATOR, ZERO_BLOCK)];
      AddEapMessage(resp, EncodeResult(SUCCESS, id));
      AddGrant(resp, d, cert);
      ghost var front := resp.attrs;
      if env.msk.Some? {
        AddMppeKeys(resp, crypto, env.msk.value, p.auth, env.sendSalt, env.recvSalt);
      }
      assert resp.attrs == front + KeyAttributes(crypto, env, p.auth);
    }

    method AddGrant(resp: Response, d: Decision, cert: Cert)
      modifies resp`attrs
      ensures resp.attrs == old(resp.attrs) + GrantAttributes(d, cert)
    {
      resp.Add(USER_NAME, if d.username != [] then d.username else cert.commonName);
      if d.vlan > 0 {
        resp.Add(TUNNEL_TYPE, [TUNNEL_TAG, 0, 0, VLAN_TUNNEL]);
        resp.Add(TUNNEL_MEDIUM_TYPE, [TUNNEL_TAG, 0, 0, IEEE_802]);
        resp.Add(TUNNEL_PRIVATE_GROUP, [TUNNEL_TAG] + Decimal(d.vlan));
      }
      if d.acl != [] {
        resp.Add(FILTER_ID, d.acl);
      }
      if d.sessionTimeout > 0 {
        resp.Add(SESSION_TIMEOUT, TimeoutValue(d.sessionTimeout));
      }
    }

    // ------------------------------------------------------------ sessions

    /** Closes the engine's pipe and forgets the session. */
    method Destroy(sess: Session)
      modifies this`sessions, sess.conn
      ensures sess.conn.View() == old(sess.conn.View()).(closed := true)
      ensures sessions == old(sessions) - {sess.id}
    {
      sess.conn.CloseConn();
      sessions := sessions - {sess.id};
    }

    method RejectAndDestroy(p: Packet, sess: Session) returns (reply: bytes)
      modifies this`sessions, sess.conn
      ensures sess.conn.View() == old(sess.conn.View()).(closed := true)
      ensures sessions == old(sessions) - {sess.id}
      ensures reply == Reject(crypto, p)
    {
      Destroy(sess);
      reply := RejectReply(p);
    }

    method FinishSession(p: Packet, env: Env, sess: Session) returns (reply: bytes)
      requires env.Valid()
      modifies this`sessions, sess`eapId, sess.conn
      ensures Turn(Drop, reply, None) == FinishTurn(crypto, p, env, old(sess.View()))
      ensures CarriedOut(sess, Drop)
      ensures sess.conn.View() == old(sess.conn.View()).(closed := true)
    {
      if env.certs == [] {
        reply := RejectAndDestroy(p, sess);
        return;
      }
      var cert := env.certs[0];
      var d := env.Decide(cert, sess.nas, sess.calling);
      sess.eapId := NextId(sess.eapId);
      if !d.accept {
        reply := RefusalReply(p, d, sess.eapId);
      } else {
        reply := AcceptReply(p, env, d, cert, sess.eapId);
      }
      Destroy(sess);
    }

    method SendFragment(p: Packet, sess: Session) returns (reply: bytes)
      requires sess.outOffset <= |sess.outFrags|
      modifies sess`eapId, sess`outFrags, sess`outOffset
      ensures Turn(Keep(sess.View()), reply, None) == FragmentTurn(crypto, p, sess.id, old(sess.View()))
    {
      sess.eapId := NextId(sess.eapId);
      var e := FragmentPacket(sess.eapId, sess.outFrags, sess.outOffset);
      sess.outOffset := sess.outOffset + Chunk(sess.outFrags, sess.outOffset);
      if sess.outOffset >= |sess.outFrags| {
        sess.outFrags := [];
        sess.outOffset := 0;
      }
      reply := ChallengeReply(p, sess.id, e);
    }

    /** Pushes a complete flight, collects the engine's answer, and replies with it or with its verdict. */
    method FeedEngine(p: Packet, env: Env, sch: MemConn.Schedule, sess: Session)
      returns (reply: bytes, ghost v: Verdict, ghost report: EngineReport)
      requires env.Valid()
      modifies this`sessions, sess, sess.conn
      ensures report == ReportOf(old(sess.conn.View()), old(sess.reassembly), sch)
      ensures report.done <==> sess.conn.engine.Finished?
      ensures report.failed <==> sess.conn.engine == MemConn.Finished(true)
      ensures report.failed ==> v.Drop? && reply == Reject(crypto, p)
      ensures sess.conn.View() == PipeAfter(old(sess.conn.View()), Some(old(sess.reassembly)), sch, v.Drop?)
      ensures Turn(v, reply, None) ==
              EngineTurn(crypto, p, env.(engine := report), sess.id, old(sess.View()).(reassembly := []))
      ensures CarriedOut(sess, v)
    {
      hide Challenge, Reject, FinishReply, MemConn.Answering, MemConn.Answered;
      v := Drop;
      var flight := sess.reassembly;
      sess.reassembly := [];
      var output := sess.conn.Exchange(flight, sch);
      report := ReportOf(old(sess.conn.View()), flight, sch);
      if sess.conn.engine.Finished? {
        if sess.conn.engine.failed {
          reply := RejectAndDestroy(p, sess);
          return;
        }
        sess.hsComplete := true;
      }
      if output == [] {
        if sess.hsComplete {
          FinishIgnoresEngine(crypto, p, env, sess.View(), report);
          reply := FinishSession(p, env, sess);
        } else {
          reply := RejectAndDestroy(p, sess);
        }
        return;
      }
      sess.outFrags := output;
      sess.outOffset := 0;
      reply := SendFragment(p, sess);
      v := Keep(sess.View());
    }

    /** One request of a conversation. What the engine reports comes from the conversation's own pipe. */
    method AdvanceSession(p: Packet, env: Env, sch: MemConn.Schedule, sess: Session, e: EapPacket)
      returns (reply: bytes, ghost v: Verdict, ghost fed: Option<bytes>, ghost report: EngineReport)
      requires env.Valid()
      modifies this`sessions, sess, sess.conn
      ensures fed.Some? ==> report == ReportOf(old(sess.conn.View()), fed.value, sch)
      ensures sess.conn.View() == PipeAfter(old(sess.conn.View()), fed, sch, v.Drop?)
      ensures Turn(v, reply, fed) == AdvanceTurn(crypto, p, env.(engine := report), sess.id, old(sess.View()), e)
      ensures CarriedOut(sess, v)
    {
      hide Challenge, Reject, FinishReply, MemConn.Answering, MemConn.Answered, ReportOf, EngineTurn;
      v, fed, report := Drop, None, env.engine;
      var data := ReadTlsData(e.data);
      if data.Err? {
        reply := RejectAndDestroy(p, sess);
        return;
      }
      var TlsData(tls, _, more) := data.value;
      if tls == [] && !more {
        if sess.outOffset < |sess.outFrags| {
          reply := SendFragment(p, sess);
          v := Keep(sess.View());
        } else if sess.hsComplete {
          reply := FinishSession(p, env, sess);
        } else {
          reply := RejectAndDestroy(p, sess);
        }
        return;
      }
      sess.reassembly := sess.reassembly + tls;
      if more {
        sess.eapId := NextId(sess.eapId);
        reply := ChallengeReply(p, sess.id, AckPacket(sess.eapId));
        v := Keep(sess.View());
        return;
      }
      fed := Some(sess.reassembly);
      reply, v, report := FeedEngine(p, env, sch, sess);
    }

    method StartConversation(p: Packet, env: Env, e: EapPacket) returns (reply: bytes)
      requires Valid() && env.Valid()
      modifies this`sessions
      ensures Valid()
      ensures Outcome(View(), reply, None) == Start(crypto, old(View()), p, env, e)
      ensures env.token in sessions && fresh(sessions[env.token]) && fresh(sessions[env.token].conn)
      ensures sessions[env.token].conn.View() == MemConn.NEW_PIPE
      ensures forall t :: t in old(sessions) && t != env.token ==> t in sessions && sessions[t] == old(sessions)[t]
    {
      hide Challenge, First;
      var nas := FindFirst(p.attrs, NAS_IDENTIFIER);
      var calling := FindFirst(p.attrs, CALLING_STATION_ID);
      var sess := new Session(env.token, NextId(e.id), nas, calling, env.now);
      sessions := sessions[env.token := sess];
      ViewUpdated(sess);
      reply := ChallengeReply(p, env.token, StartPacket(sess.eapId));
    }

    /** Of the sessions before, the pipe of one moved as its request made it, and no other pipe moved. */
    twostate predicate PipesMoved(was: map<bytes, Session>, token: bytes, fed: Option<bytes>, sch: MemConn.Schedule,
                                  report: EngineReport)
      reads this, set t | t in was :: was[t].conn
    {
      && (fed.Some? ==>
            && token in was
            && var pipe := old(was[token].conn.View());
               && report == ReportOf(pipe, fed.value, sch)
               && was[token].conn.View() == PipeAfter(pipe, fed, sch, token !in sessions))
      && (forall t :: t in was && t != token ==> was[t].conn.View() == old(was[t].conn.View()))
    }

    method ContinueConversation(p: Packet, env: Env, sch: MemConn.Schedule, token: bytes, e: EapPacket)
      returns (reply: bytes, ghost fed: Option<bytes>, ghost report: EngineReport)
      requires Valid() && env.Valid()
      modifies this`sessions, sessions.Values, Conns()
      ensures Valid()
      ensures Outcome(View(), reply, fed) == Continue(crypto, old(View()), p, env.(engine := report), token, e)
      ensures PipesMoved(old(sessions), token, fed, sch, report)
    {
      hide AdvanceTurn, ReportOf, PipeAfter;
      report := env.engine;
      if token !in sessions || e.typ != TYPE_TLS {
        fed := None;
        reply := RejectReply(p);
        return;
      }
      var sess := sessions[token];
      assert sess.conn in Conns();
      ghost var v;
      reply, v, fed, report := AdvanceSession(p, env, sch, sess, e);
      if v.Keep? {
        ViewUpdated(sess);
      } else {
        ViewRemoved(token);
      }
    }

    method DispatchEap(p: Packet, env: Env, sch: MemConn.Schedule, e: EapPacket)
      returns (reply: bytes, ghost fed: Option<bytes>, ghost report: EngineReport)
      requires Valid() && env.Valid()
      modifies this`sessions, sessions.Values, Conns()
      ensures Valid()
      ensures Outcome(View(), reply, fed) == Dispatch(crypto, old(View()), p, env.(engine := report), e)
      ensures PipesMoved(old(sessions), First(p.attrs, STATE), fed, sch, report)
    {
      hide Continue, Start, Reject, View, ReportOf, PipeAfter;
      var token := FindFirst(p.attrs, STATE);
      if token == [] {
        fed, report := None, env.engine;
        if e.code != RESPONSE || e.typ != TYPE_IDENTITY {
          reply := RejectReply(p);
        } else {
          reply := StartConversation(p, env, e);
        }
        return;
      }
      reply, fed, report := ContinueConversation(p, env, sch, token, e);
    }

    /**
     * One Access-Request. The step is that of the specification with the engine's report read off
     * the pipe of the conversation the request belongs to.
     */
    method HandleAccessRequest(p: Packet, env: Env, sch: MemConn.Schedule)
      returns (reply: bytes, ghost fed: Option<bytes>, ghost report: EngineReport)
      requires Valid() && env.Valid()
      modifies this`sessions, sessions.Values, Conns()
      ensures Valid()
      ensures Outcome(View(), reply, fed) == Handle(crypto, old(View()), p, env.(engine := report))
      ensures PipesMoved(old(sessions), First(p.attrs, STATE), fed, sch, report)
    {
      hide Dispatch, Reject, View;
      fed, report := None, env.engine;
      var raw := CollectEapMessage(p);
      if |raw| == 0 {
        reply := RejectReply(p);
        return;
      }
      var eap := ParseEap(raw);
      if eap.Err? {
        reply := RejectReply(p);
        return;
      }
      reply, fed, report := DispatchEap(p, env, sch, eap.value);
    }

    /** One tick of the reaper: closes and drops every stale conversation. */
    method ReapStale(now: int)
      requires Valid()
      modifies this`sessions, Conns()
      ensures Valid()
      ensures View() == Reap(old(View()), now)
      ensures forall t :: t in old(sessions) && t !in sessions ==> old(sessions)[t].conn.closed
    {
      hide View, Reap, Spared, MemConn.Next;
      ghost var was := sessions;
      var todo := sessions.Keys;
      NoneLookedAt(was, now);
      while todo != {}
        invariant todo <= was.Keys
        invariant sessions == Spared(was, todo, now)
        invariant forall t :: t in was && t !in sessions ==> was[t].conn.closed
        decreases todo
      {
        var t :| t in todo;
        SparedStep(was, todo, t, now);
        var sess := sessions[t];
        assert sess.conn in old(Conns());
        if sess.created < now - STALE_AFTER {
          sess.conn.CloseConn();
          sessions := sessions - {t};
        }
        todo := todo - {t};
      }
      SparedOfBefore(was, now);
      ReapedView(now);
    }

    /** The sessions that are not stale, and those not looked at yet. */
    ghost function Spared(was: map<bytes, Session>, todo: set<bytes>, now: int): map<bytes, Session> {
      map t | t in was && (t in todo || !(was[t].created < now - STALE_AFTER)) :: was[t]
    }

    lemma NoneLookedAt(was: map<bytes, Session>, now: int)
      ensures Spared(was, was.Keys, now) == was
    {
    }

    lemma SparedStep(was: map<bytes, Session>, todo: set<bytes>, t: bytes, now: int)
      requires t in todo && todo <= was.Keys
      ensures t in Spared(was, todo, now) && Spared(was, todo, now)[t] == was[t]
      ensures Spared(was, todo - {t}, now) ==
              if was[t].created < now - STALE_AFTER then Spared(was, todo, now) - {t} else Spared(was, todo, now)
    {
    }

    lemma SparedOfBefore(was: map<bytes, Session>, now: int)
      ensures forall t :: t in Spared(was, {}, now) ==> t in was && Spared(was, {}, now)[t] == was[t]
    {
    }

    twostate lemma ReapedView(now: int)
      requires sessions == Spared(old(sessions), {}, now)
      requires forall t :: t in old(sessions) ==> unchanged(old(sessions)[t])
      ensures View() == Reap(old(View()), now)
    {
    }
  }
}
