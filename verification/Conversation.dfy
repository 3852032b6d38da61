/**
 * The EAP-TLS conversations of the RADIUS server, as a state machine: one Access-Request or one
 * reaper tick is one atomic step. The TLS engine, the policy engine, the clock and the random
 * source are environment inputs of the step.
 */
module Conversation {
  import opened Wire
  import opened Radius
  import opened Signature
  import opened Eap
  import opened Mppe
  import MemConn

  const DENIED: bytes := [97, 99, 99, 101, 115, 115, 32, 100, 101, 110, 105, 101, 100]
  const STALE_AFTER := 120
  const TUNNEL_TAG: byte := 1
  const VLAN_TUNNEL: byte := 13
  const IEEE_802: byte := 6

  datatype Cert = Cert(commonName: bytes, organizations: seq<bytes>)

  datatype Decision = Decision(accept: bool, username: bytes, vlan: int, acl: bytes, sessionTimeout: int,
                               message: bytes)

  /** What collecting the engine's output found: the flight, and whether the handshake ended. */
  datatype EngineReport = EngineReport(output: bytes, done: bool, failed: bool)

  /** What the server finds on the pipe of a conversation when it has pushed a flight. */
  function ReportOf(s: MemConn.Pipe, flight: bytes, sch: MemConn.Schedule): EngineReport {
    var engine := MemConn.Answered(s, flight, sch).engine;
    EngineReport(MemConn.Answering(s, flight, sch).outbound, engine.Finished?, engine == MemConn.Finished(true))
  }

  datatype Env = Env(
    now: int,
    token: bytes,
    engine: EngineReport,
    certs: seq<Cert>,
    decide: (Cert, bytes, bytes, bytes) -> Decision,
    msk: Option<bytes>,
    sendSalt: Option<bytes>,
    recvSalt: Option<bytes>)
  {
    predicate Valid() {
      && 0 < |token| <= MAX_VALUE
      && (sendSalt.Some? ==> |sendSalt.value| == 2)
      && (recvSalt.Some? ==> |recvSalt.value| == 2)
    }

    function Decide(cert: Cert, nas: bytes, calling: bytes): Decision {
      decide(cert, nas, calling, if cert.organizations == [] then [] else cert.organizations[0])
    }
  }

  datatype Conv = Conv(
    eapId: byte,
    reassembly: bytes,
    outFrags: bytes,
    outOffset: nat,
    hsComplete: bool,
    nas: bytes,
    calling: bytes,
    created: int)

  type Sessions = map<bytes, Conv>

  /** What becomes of the conversation a request belongs to. */
  datatype Verdict = Keep(conv: Conv) | Drop

  /** The effect of a request on its conversation: verdict, reply, and the flight handed to the TLS engine. */
  datatype Turn = Turn(verdict: Verdict, reply: bytes, fed: Option<bytes>)

  /** The effect of a request on the whole table. */
  datatype Outcome = Outcome(sessions: Sessions, reply: bytes, fed: Option<bytes>)

  function NextId(id: byte): byte { (id + 1) % 256 }

  // -------------------------------------------------------------- responses

  function Respond(c: Crypto, p: Packet, code: byte, attrs: seq<Attribute>): (reply: bytes)
    ensures |reply| >= HEADER && reply[0] == code
  {
    Encode(Signed(c, Packet(code, p.id, ZERO_BLOCK, attrs), p.auth))
  }

  function ChallengeAttributes(token: bytes, eap: bytes): seq<Attribute> {
    [Attribute(MESSAGE_AUTHENTICATOR, ZERO_BLOCK)] + Chunks(eap) + [Attribute(STATE, token)]
  }

  function Challenge(c: Crypto, p: Packet, token: bytes, e: EapPacket): (reply: bytes)
    ensures |reply| >= HEADER && reply[0] == ACCESS_CHALLENGE
  {
    Respond(c, p, ACCESS_CHALLENGE, ChallengeAttributes(token, EncodeEap(e)))
  }

  function Reject(c: Crypto, p: Packet): (reply: bytes)
    ensures |reply| >= HEADER && reply[0] == ACCESS_REJECT
  {
    Respond(c, p, ACCESS_REJECT, [Attribute(REPLY_MESSAGE, DENIED)])
  }

  function Decimal(n: nat): bytes {
    if n < 10 then [48 + n] else Decimal(n / 10) + [48 + n % 10]
  }

  function VlanAttributes(vlan: int): seq<Attribute> {
    if vlan <= 0 then []
    else [Attribute(TUNNEL_TYPE, [TUNNEL_TAG, 0, 0, VLAN_TUNNEL]),
          Attribute(TUNNEL_MEDIUM_TYPE, [TUNNEL_TAG, 0, 0, IEEE_802]),
          Attribute(TUNNEL_PRIVATE_GROUP, [TUNNEL_TAG] + Decimal(vlan))]
  }

  function OptionalAttribute(present: bool, typ: byte, value: bytes): seq<Attribute> {
    if present then [Attribute(typ, value)] else []
  }

  function TimeoutValue(seconds: int): bytes {
    if seconds < 0 then [] else PutU32(seconds)
  }

  function RefusalAttributes(d: Decision, eapId: byte): seq<Attribute> {
    Chunks(EncodeResult(FAILURE, eapId)) + OptionalAttribute(d.message != [], REPLY_MESSAGE, d.message)
  }

  /** What an Access-Accept says about the decision, before the keys. */
  function GrantAttributes(d: Decision, cert: Cert): seq<Attribute> {
    [Attribute(USER_NAME, if d.username != [] then d.username else cert.commonName)]
    + VlanAttributes(d.vlan)
    + OptionalAttribute(d.acl != [], FILTER_ID, d.acl)
    + OptionalAttribute(d.sessionTimeout > 0, SESSION_TIMEOUT, TimeoutValue(d.sessionTimeout))
  }

  function KeyAttributes(c: Crypto, env: Env, requestAuth: Block): seq<Attribute>
    requires env.Valid()
  {
    if env.msk.None? then [] else MppeAttributes(c, env.msk.value, requestAuth, env.sendSalt, env.recvSalt)
  }

  function AcceptAttributes(c: Crypto, p: Packet, env: Env, d: Decision, cert: Cert, eapId: byte): seq<Attribute>
    requires env.Valid()
  {
    [Attribute(MESSAGE_AUTHENTICATOR, ZERO_BLOCK)]
    + Chunks(EncodeResult(SUCCESS, eapId))
    + GrantAttributes(d, cert)
    + KeyAttributes(c, env, p.auth)
  }

  // ------------------------------------------------------------- transitions

  function RejectTurn(c: Crypto, p: Packet): Turn {
    Turn(Drop, Reject(c, p), None)
  }

  function FinishReply(c: Crypto, p: Packet, env: Env, d: Decision, cert: Cert, id: byte): (reply: bytes)
    requires env.Valid()
    ensures |reply| >= HEADER && reply[0] == if d.accept then ACCESS_ACCEPT else ACCESS_REJECT
  {
    if d.accept then Respond(c, p, ACCESS_ACCEPT, AcceptAttributes(c, p, env, d, cert, id))
    else Respond(c, p, ACCESS_REJECT, RefusalAttributes(d, id))
  }

  function FinishTurn(c: Crypto, p: Packet, env: Env, conv: Conv): Turn
    requires env.Valid()
  {
    if env.certs == [] then RejectTurn(c, p)
    else
      var d := env.Decide(env.certs[0], conv.nas, conv.calling);
      Turn(Drop, FinishReply(c, p, env, d, env.certs[0], NextId(conv.eapId)), None)
  }

  lemma FinishIgnoresEngine(c: Crypto, p: Packet, env: Env, conv: Conv, report: EngineReport)
    requires env.Valid()
    ensures FinishTurn(c, p, env.(engine := report), conv) == FinishTurn(c, p, env, conv)
  {
    hide Respond, RefusalAttributes, GrantAttributes, Chunks, MppeAttributes;
  }

  function AfterFragment(conv: Conv): Conv
    requires conv.outOffset <= |conv.outFrags|
  {
    var next := conv.outOffset + Chunk(conv.outFrags, conv.outOffset);
    if next >= |conv.outFrags| then conv.(eapId := NextId(conv.eapId), outFrags := [], outOffset := 0)
    else conv.(eapId := NextId(conv.eapId), outOffset := next)
  }

  function FragmentTurn(c: Crypto, p: Packet, token: bytes, conv: Conv): Turn
    requires conv.outOffset <= |conv.outFrags|
  {
    Turn(Keep(AfterFragment(conv)),
         Challenge(c, p, token, FragmentPacket(NextId(conv.eapId), conv.outFrags, conv.outOffset)),
         None)
  }

  /** A complete peer flight has been fed to the engine and the engine has reported. */
  function EngineTurn(c: Crypto, p: Packet, env: Env, token: bytes, conv: Conv): Turn
    requires env.Valid()
  {
    if env.engine.done && env.engine.failed then RejectTurn(c, p)
    else
      var conv' := conv.(hsComplete := conv.hsComplete || env.engine.done);
      if env.engine.output != [] then
        FragmentTurn(c, p, token, conv'.(outFrags := env.engine.output, outOffset := 0))
      else if conv'.hsComplete then FinishTurn(c, p, env, conv')
      else RejectTurn(c, p)
  }

  function AckTurn(c: Crypto, p: Packet, token: bytes, conv: Conv): Turn {
    Turn(Keep(conv.(eapId := NextId(conv.eapId))), Challenge(c, p, token, AckPacket(NextId(conv.eapId))), None)
  }

  function AdvanceTurn(c: Crypto, p: Packet, env: Env, token: bytes, conv: Conv, e: EapPacket): Turn
    requires env.Valid()
  {
    match ReadTlsData(e.data)
    case Err(_) => RejectTurn(c, p)
    case Ok(d) =>
      if d.tls == [] && !d.more then
        if conv.outOffset < |conv.outFrags| then FragmentTurn(c, p, token, conv)
        else if conv.hsComplete then FinishTurn(c, p, env, conv)
        else RejectTurn(c, p)
      else
        var flight := conv.reassembly + d.tls;
        if d.more then AckTurn(c, p, token, conv.(reassembly := flight))
        else EngineTurn(c, p, env, token, conv.(reassembly := [])).(fed := Some(flight))
  }

  /** What becomes of the pipe of the conversation a request belongs to. */
  function PipeAfter(s: MemConn.Pipe, fed: Option<bytes>, sch: MemConn.Schedule, dropped: bool): MemConn.Pipe {
    var t := if fed.Some? then MemConn.Answered(s, fed.value, sch) else s;
    if dropped then t.(closed := true) else t
  }

  function Apply(s: Sessions, token: bytes, v: Verdict): Sessions {
    match v
    case Keep(conv) => s[token := conv]
    case Drop => s - {token}
  }

  function NewConv(p: Packet, env: Env, e: EapPacket): Conv {
    Conv(NextId(e.id), [], [], 0, false,
         First(p.attrs, NAS_IDENTIFIER), First(p.attrs, CALLING_STATION_ID), env.now)
  }

  function Start(c: Crypto, s: Sessions, p: Packet, env: Env, e: EapPacket): Outcome {
    var conv := NewConv(p, env, e);
    Outcome(s[env.token := conv], Challenge(c, p, env.token, StartPacket(conv.eapId)), None)
  }

  /** A request that carries a State: it continues a known conversation or is refused. */
  function Continue(c: Crypto, s: Sessions, p: Packet, env: Env, token: bytes, e: EapPacket): Outcome
    requires env.Valid()
  {
    if token !in s || e.typ != TYPE_TLS then Outcome(s, Reject(c, p), None)
    else
      var t := AdvanceTurn(c, p, env, token, s[token], e);
      Outcome(Apply(s, token, t.verdict), t.reply, t.fed)
  }

  /** A request with a well-formed EAP packet: without a State it must open a conversation. */
  function Dispatch(c: Crypto, s: Sessions, p: Packet, env: Env, e: EapPacket): Outcome
    requires env.Valid()
  {
    var token := First(p.attrs, STATE);
    if token != [] then Continue(c, s, p, env, token, e)
    else if e.code != RESPONSE || e.typ != TYPE_IDENTITY then Outcome(s, Reject(c, p), None)
    else Start(c, s, p, env, e)
  }

  function Handle(c: Crypto, s: Sessions, p: Packet, env: Env): Outcome
    requires env.Valid()
  {
    match ParseEap(EapMessage(p.attrs))
    case Err(_) => Outcome(s, Reject(c, p), None)
    case Ok(e) => Dispatch(c, s, p, env, e)
  }

  /** One reaper tick: drops every conversation older than two minutes. */
  function Reap(s: Sessions, now: int): Sessions {
    map t | t in s && !(s[t].created < now - STALE_AFTER) :: s[t]
  }
}
