/**
 * Whole TLS flights across many requests: what the server sends in acknowledged fragments is what
 * the peer puts together, and what the peer sends in fragments is what the TLS engine is fed.
 */
module Delivery {
  import opened Wire
  import opened Radius
  import opened Signature
  import opened Eap
  import opened Conversation
  import opened Runs

  // --------------------------------------------------------- the receiving end

  /** What a peer finds in an Access-Challenge, through all four layers of decoding. */
  datatype Received = Received(
    radiusId: byte, token: bytes, eapId: byte, announced: Option<nat>, start: bool, more: bool, data: bytes)

  function Receive(reply: bytes): (r: Option<Received>)
  {
    match Parse(reply)
    case Err(_) => None
    case Ok(q) =>
      match ParseEap(EapMessage(q.attrs))
      case Err(_) => None
      case Ok(e) =>
        if q.code != ACCESS_CHALLENGE || e.code != REQUEST || e.typ != TYPE_TLS then None
        else
          match ReadTlsData(e.data)
          case Err(_) => None
          case Ok(d) =>
            Some(Received(q.id, First(q.attrs, STATE), e.id, AnnouncedLength(e.data), d.start, d.more, d.tls))
  }

  /** Both authenticators of a reply check out against the request it answers. */
  predicate Authentic(c: Crypto, request: Packet, reply: bytes) {
    && Parse(reply).Ok?
    && |reply| >= HEADER
    && var restored := Restored(reply, request.auth);
       && MacInBounds(Parse(reply).value, restored)
       && Verified(c, Parse(reply).value, restored)
       && reply[4..20] == c.Md5(restored + SECRET)
  }

  function SignedChallenge(c: Crypto, p: Packet, token: bytes, eap: bytes): Packet {
    Signed(c, Packet(ACCESS_CHALLENGE, p.id, ZERO_BLOCK, ChallengeAttributes(token, eap)), p.auth)
  }

  lemma ChallengeShape(c: Crypto, p: Packet, token: bytes, eap: bytes)
    ensures var q := SignedChallenge(c, p, token, eap);
            exists mac: Block ::
              q.attrs == [Attribute(MESSAGE_AUTHENTICATOR, mac)] + Chunks(eap) + [Attribute(STATE, token)]
    ensures MacCount(ChallengeAttributes(token, eap)) == 1
  {
    var attrs := ChallengeAttributes(token, eap);
    var mac := Mac(c, Packet(ACCESS_CHALLENGE, p.id, ZERO_BLOCK, attrs), p.auth);
    var q := SignedChallenge(c, p, token, eap);
    assert q.attrs == [Attribute(MESSAGE_AUTHENTICATOR, mac)] + Chunks(eap) + [Attribute(STATE, token)];
    AllAround(Attribute(MESSAGE_AUTHENTICATOR, ZERO_BLOCK), eap, Attribute(STATE, token), MESSAGE_AUTHENTICATOR);
  }

  lemma AllAround(a: Attribute, eap: bytes, b: Attribute, typ: byte)
    requires typ != EAP_MESSAGE
    ensures All([a] + Chunks(eap) + [b], typ) ==
            (if a.typ == typ then [a.value] else []) + (if b.typ == typ then [b.value] else [])
  {
    AllConcat([a] + Chunks(eap), [b], typ);
    AllConcat([a], Chunks(eap), typ);
    AllSingle(a, typ);
    AllSingle(b, typ);
    AllChunks(eap, typ);
  }

  lemma SingleSize(a: Attribute)
    ensures |AttributesBytes([a])| == 2 + |a.value|
  {
    assert AttributesBytes([a]) == AttributeBytes(a) + AttributesBytes([a][1..]);
  }

  lemma AroundSize(a: Attribute, eap: bytes, b: Attribute)
    ensures |AttributesBytes([a] + Chunks(eap) + [b])| <= 4 + |a.value| + |b.value| + 3 * |eap|
  {
    AttributesBytesConcat([a] + Chunks(eap), [b]);
    AttributesBytesConcat([a], Chunks(eap));
    SingleSize(a);
    SingleSize(b);
    AllChunks(eap, STATE);
  }

  lemma ChallengeFits(a: Attribute, eap: bytes, b: Attribute, q: Packet)
    requires q.attrs == [a] + Chunks(eap) + [b]
    requires |a.value| <= MAX_VALUE && |b.value| <= MAX_VALUE && |eap| <= 2000
    ensures Representable(q)
  {
    hide AttributesBytes, Chunks;
    AroundSize(a, eap, b);
    var mid := Chunks(eap);
    forall i | 0 <= i < |q.attrs| ensures |q.attrs[i].value| <= MAX_VALUE {
      assert q.attrs[i] == a || q.attrs[i] == b || q.attrs[i] in mid;
    }
  }

  /** A challenge is read back exactly, and is authentic. */
  lemma ChallengeReceived(c: Crypto, p: Packet, token: bytes, e: EapPacket)
    requires e.code == REQUEST && e.typ == TYPE_TLS && |e.data| <= 5 + FRAGMENT_SIZE && |token| <= MAX_VALUE
    requires ReadTlsData(e.data).Ok?
    ensures var d := ReadTlsData(e.data).value;
            Receive(Challenge(c, p, token, e)) ==
            Some(Received(p.id, token, e.id, AnnouncedLength(e.data), d.start, d.more, d.tls))
    ensures Authentic(c, p, Challenge(c, p, token, e))
  {
    var eap := EncodeEap(e);
    var q := SignedChallenge(c, p, token, eap);
    assert Challenge(c, p, token, e) == Encode(q);
    ChallengeShape(c, p, token, eap);
    var mac: Block :| q.attrs == [Attribute(MESSAGE_AUTHENTICATOR, mac)] + Chunks(eap) + [Attribute(STATE, token)];
    var a, b := Attribute(MESSAGE_AUTHENTICATOR, mac), Attribute(STATE, token);
    ChallengeFits(a, eap, b, q);
    RoundTripIff(q);
    AllAround(a, eap, b, STATE);
    AllSingle(a, EAP_MESSAGE);
    AllSingle(b, EAP_MESSAGE);
    CollectAdded([a], eap, [b]);
    ParseEncodeEap(e);
    SignatureAgreement(c, Packet(ACCESS_CHALLENGE, p.id, ZERO_BLOCK, ChallengeAttributes(token, eap)), p.auth);
  }

  // ------------------------------------------------------------- outbound

  /** A request of the conversation with a well-formed EAP-TLS packet. */
  predicate Carrying(p: Packet, token: bytes) {
    && token != []
    && First(p.attrs, STATE) == token
    && var e := ParseEap(EapMessage(p.attrs));
       e.Ok? && e.value.typ == TYPE_TLS && ReadTlsData(e.value.data).Ok?
  }

  function Payload(p: Packet, token: bytes): TlsData
    requires Carrying(p, token)
  {
    ReadTlsData(ParseEap(EapMessage(p.attrs)).value.data).value
  }

  predicate IsAck(p: Packet, token: bytes) {
    Carrying(p, token) && Payload(p, token).tls == [] && !Payload(p, token).more
  }

  /** A request that ends a fragmented peer flight. */
  predicate Completes(p: Packet, token: bytes) {
    Carrying(p, token) && Payload(p, token).tls != [] && !Payload(p, token).more
  }

  function FragmentCount(n: nat): nat { (n + 999) / 1000 }

  /** The i-th piece of a message from an offset on. */
  function Piece(flight: bytes, offset: nat, i: nat): bytes
    requires offset + i * FRAGMENT_SIZE <= |flight|
  {
    var from := offset + i * FRAGMENT_SIZE;
    flight[from..from + Chunk(flight, from)]
  }

  lemma PieceBounds(flight: bytes, offset: nat, i: nat)
    requires offset <= |flight| && i < FragmentCount(|flight| - offset)
    ensures offset + i * FRAGMENT_SIZE < |flight|
    ensures (i + 1 < FragmentCount(|flight| - offset)) <==> offset + (i + 1) * FRAGMENT_SIZE < |flight|
  {
  }

  function Pieces(flight: bytes, offset: nat): (r: seq<bytes>)
    requires offset <= |flight|
    ensures |r| == FragmentCount(|flight| - offset)
  {
    seq(FragmentCount(|flight| - offset),
        i requires 0 <= i < FragmentCount(|flight| - offset) =>
          PieceBounds(flight, offset, i); Piece(flight, offset, i))
  }

  lemma {:induction false} PiecesJoin(flight: bytes, offset: nat)
    requires offset <= |flight|
    ensures Flatten(Pieces(flight, offset)) == flight[offset..]
    decreases |flight| - offset
  {
    var ps := Pieces(flight, offset);
    if offset + FRAGMENT_SIZE < |flight| {
      PiecesJoin(flight, offset + FRAGMENT_SIZE);
      assert ps[1..] == Pieces(flight, offset + FRAGMENT_SIZE);
      assert flight[offset..] == flight[offset..offset + FRAGMENT_SIZE] + flight[offset + FRAGMENT_SIZE..];
    } else if offset < |flight| {
      assert |ps| == 1 && ps[0] == flight[offset..];
      assert Flatten(ps) == ps[0] + Flatten(ps[1..]);
    }
  }

  /** The i-th challenge as a peer must see it: L and the total on the first, M on all but the last. */
  function ExpectedAt(flight: bytes, offset: nat, i: nat, radiusId: byte, token: bytes, eapId: byte): Received
    requires offset <= |flight| && i < FragmentCount(|flight| - offset)
  {
    PieceBounds(flight, offset, i);
    Received(radiusId, token, (eapId + 1 + i) % 256,
             if offset == 0 && i == 0 then Some(|flight| % 0x1_0000_0000) else None,
             false,
             i + 1 < FragmentCount(|flight| - offset),
             Piece(flight, offset, i))
  }

  lemma ExpectedShift(flight: bytes, offset: nat, k: nat, radiusId: byte, token: bytes, eapId: byte)
    requires offset <= |flight| && k < FragmentCount(|flight| - offset)
    ensures offset + k * FRAGMENT_SIZE < |flight|
    ensures ExpectedAt(flight, offset, k, radiusId, token, eapId)
         == ExpectedAt(flight, offset + k * FRAGMENT_SIZE, 0, radiusId, token, (eapId + k) % 256)
  {
    PieceBounds(flight, offset, k);
  }

  /** One fragment on the wire, at any offset. */
  lemma FragmentReceived(c: Crypto, p: Packet, token: bytes, conv: Conv)
    requires conv.outOffset < |conv.outFrags| && |token| <= MAX_VALUE
    ensures var t := FragmentTurn(c, p, token, conv);
            && Receive(t.reply) == Some(ExpectedAt(conv.outFrags, conv.outOffset, 0, p.id, token, conv.eapId))
            && Authentic(c, p, t.reply)
            && t.fed.None?
            && t.verdict == Keep(if FragmentCount(|conv.outFrags| - conv.outOffset) == 1
                                 then conv.(eapId := NextId(conv.eapId), outFrags := [], outOffset := 0)
                                 else conv.(eapId := NextId(conv.eapId), outOffset := conv.outOffset + FRAGMENT_SIZE))
  {
    hide Challenge, Receive, Authentic;
    var e := FragmentPacket(NextId(conv.eapId), conv.outFrags, conv.outOffset);
    ReadFragment(conv.outFrags, conv.outOffset);
    ChallengeReceived(c, p, token, e);
  }

  lemma AckStep(c: Crypto, s: Sessions, ev: Event, token: bytes)
    requires ev.Request? && ev.env.Valid() && IsAck(ev.p, token)
    requires token in s && s[token].outOffset < |s[token].outFrags|
    ensures var t := FragmentTurn(c, ev.p, token, s[token]);
            Step(c, s, ev) == Outcome(Apply(s, token, t.verdict), t.reply, t.fed)
  {
  }

  /** The engine answered a peer flight with a flight of its own. */
  predicate EngineAnswers(env: Env) { env.engine.output != [] && !(env.engine.done && env.engine.failed) }

  /** The conversation when the engine's answer is about to be sent. */
  function Sending(conv: Conv, env: Env): Conv {
    conv.(reassembly := [], hsComplete := conv.hsComplete || env.engine.done,
          outFrags := env.engine.output, outOffset := 0)
  }

  lemma FlightStep(c: Crypto, s: Sessions, ev: Event, token: bytes)
    requires ev.Request? && ev.env.Valid() && Completes(ev.p, token) && EngineAnswers(ev.env) && token in s
    ensures var t := FragmentTurn(c, ev.p, token, Sending(s[token], ev.env));
            Step(c, s, ev) == Outcome(Apply(s, token, t.verdict), t.reply,
                                      Some(s[token].reassembly + Payload(ev.p, token).tls))
  {
  }

  /** A request that makes the engine answer, then acknowledgements. */
  ghost predicate Fetches(evs: seq<Event>, token: bytes) {
    && evs != []
    && ValidRun(evs)
    && (forall i :: 0 <= i < |evs| ==> evs[i].Request?)
    && Completes(evs[0].p, token)
    && EngineAnswers(evs[0].env)
    && forall i :: 1 <= i < |evs| ==> IsAck(evs[i].p, token)
  }

  /** The conversation after k fragments of its outbound message have gone out. */
  function ConvAfter(conv: Conv, k: nat): (r: Conv)
    requires k <= FragmentCount(|conv.outFrags|)
  {
    if k == FragmentCount(|conv.outFrags|)
    then conv.(eapId := (conv.eapId + k) % 256, outFrags := [], outOffset := 0)
    else conv.(eapId := (conv.eapId + k) % 256, outOffset := k * FRAGMENT_SIZE)
  }

  lemma ConvAfterStep(conv: Conv, k: nat)
    requires k < FragmentCount(|conv.outFrags|)
    ensures var now := ConvAfter(conv, k);
            && now.outFrags == conv.outFrags
            && now.outOffset < |now.outFrags|
            && AfterFragment(now) == ConvAfter(conv, k + 1)
  {
    PieceBounds(conv.outFrags, 0, k);
  }

  /** The table after the first k requests, k > 0. */
  lemma {:induction false} SentState(c: Crypto, s: Sessions, token: bytes, evs: seq<Event>, k: nat)
    requires token in s && Fetches(evs, token)
    requires 1 <= k <= |evs| <= FragmentCount(|evs[0].env.engine.output|)
    ensures After(c, s, evs[..k]) == s[token := ConvAfter(Sending(s[token], evs[0].env), k)]
  {
    hide Step, Challenge, IsAck, Completes, EngineAnswers;
    var conv := Sending(s[token], evs[0].env);
    ConvAfterStep(conv, k - 1);
    AfterPrefix(c, s, evs, k - 1);
    if k == 1 {
      FlightStep(c, s, evs[0], token);
    } else {
      SentState(c, s, token, evs, k - 1);
      AckStep(c, After(c, s, evs[..k - 1]), evs[k - 1], token);
    }
  }

  /** The k-th request is answered with the k-th piece. */
  lemma SentReply(c: Crypto, s: Sessions, token: bytes, evs: seq<Event>, k: nat)
    requires token in s && |token| <= MAX_VALUE && Fetches(evs, token)
    requires k < |evs| <= FragmentCount(|evs[0].env.engine.output|)
    ensures var flight, r := evs[0].env.engine.output, OutcomeAt(c, s, evs, k);
            && Receive(r.reply) == Some(ExpectedAt(flight, 0, k, evs[k].p.id, token, s[token].eapId))
            && Authentic(c, evs[k].p, r.reply)
  {
    hide Step, Challenge, Receive, Authentic, IsAck, Completes, EngineAnswers, After, ConvAfter, ExpectedAt;
    var conv := Sending(s[token], evs[0].env);
    SentTurn(c, s, token, evs, k);
    SentFragment(c, evs[k].p, token, conv, k);
  }

  /** The k-th request is answered with the next fragment. */
  lemma SentTurn(c: Crypto, s: Sessions, token: bytes, evs: seq<Event>, k: nat)
    requires token in s && Fetches(evs, token)
    requires k < |evs| <= FragmentCount(|evs[0].env.engine.output|)
    ensures var conv := Sending(s[token], evs[0].env);
            && ConvAfter(conv, k).outOffset < |ConvAfter(conv, k).outFrags|
            && OutcomeAt(c, s, evs, k).reply == FragmentTurn(c, evs[k].p, token, ConvAfter(conv, k)).reply
  {
    hide Step, Challenge, IsAck, Completes, EngineAnswers, After;
    var conv := Sending(s[token], evs[0].env);
    ConvAfterStep(conv, k);
    if k == 0 {
      FlightStep(c, s, evs[0], token);
      EmptyRun(c, s);
      assert evs[..0] == [];
      assert ConvAfter(conv, 0) == conv;
    } else {
      SentState(c, s, token, evs, k);
      AckStep(c, After(c, s, evs[..k]), evs[k], token);
    }
  }

  lemma SentFragment(c: Crypto, p: Packet, token: bytes, conv: Conv, k: nat)
    requires |token| <= MAX_VALUE && conv.outOffset == 0 && k < FragmentCount(|conv.outFrags|)
    ensures var now := ConvAfter(conv, k);
            && now.outOffset < |now.outFrags|
            && Receive(FragmentTurn(c, p, token, now).reply) ==
               Some(ExpectedAt(conv.outFrags, 0, k, p.id, token, conv.eapId))
            && Authentic(c, p, FragmentTurn(c, p, token, now).reply)
  {
    hide Challenge, Receive, Authentic, FragmentTurn, ExpectedAt;
    ConvAfterStep(conv, k);
    FragmentReceived(c, p, token, ConvAfter(conv, k));
    ExpectedShift(conv.outFrags, 0, k, p.id, token, conv.eapId);
  }

  /** Acknowledgements feed nothing. */
  lemma SentFeedsNothing(c: Crypto, s: Sessions, token: bytes, evs: seq<Event>, k: nat)
    requires token in s && Fetches(evs, token)
    requires 1 <= k < |evs| <= FragmentCount(|evs[0].env.engine.output|)
    ensures OutcomeAt(c, s, evs, k).fed.None?
  {
    hide Step, Challenge, IsAck, Completes, EngineAnswers;
    SentState(c, s, token, evs, k);
    ConvAfterStep(Sending(s[token], evs[0].env), k);
    AckStep(c, After(c, s, evs[..k]), evs[k], token);
  }

  /** What a peer that appends the data of every challenge has put together. */
  function Assembled(replies: seq<bytes>): (r: Option<bytes>)
  {
    if replies == [] then Some([])
    else
      var first, rest := Receive(replies[0]), Assembled(replies[1..]);
      if first.None? || rest.None? then None else Some(first.value.data + rest.value)
  }

  lemma {:induction false} AssembledPieces(replies: seq<bytes>, pieces: seq<bytes>)
    requires |replies| == |pieces|
    requires forall i :: 0 <= i < |replies| ==> Receive(replies[i]).Some? && Receive(replies[i]).value.data == pieces[i]
    ensures Assembled(replies) == Some(Flatten(pieces))
  {
    hide Receive;
    if replies == [] {
    } else {
      AssembledPieces(replies[1..], pieces[1..]);
    }
  }

  ghost function Replies(c: Crypto, s: Sessions, evs: seq<Event>): (r: seq<bytes>)
    requires ValidRun(evs)
    ensures |r| == |evs|
  {
    seq(|evs|, k requires 0 <= k < |evs| => OutcomeAt(c, s, evs, k).reply)
  }

  /**
   * Every flight of the engine reaches the peer: one challenge per request, ceil(n / 1000) of them,
   * each authentic, L and the total length on the first only, M on all but the last, EAP
   * identifiers counting up, and the appended data is the flight. Nothing stays pending.
   */
  lemma FlightDelivered(c: Crypto, s: Sessions, token: bytes, evs: seq<Event>)
    requires token in s && |token| <= MAX_VALUE && Fetches(evs, token)
    requires |evs| == FragmentCount(|evs[0].env.engine.output|)
    ensures var flight := evs[0].env.engine.output;
            && (forall k :: 0 <= k < |evs| ==>
                  && Receive(OutcomeAt(c, s, evs, k).reply) ==
                     Some(ExpectedAt(flight, 0, k, evs[k].p.id, token, s[token].eapId))
                  && Authentic(c, evs[k].p, OutcomeAt(c, s, evs, k).reply))
            && Assembled(Replies(c, s, evs)) == Some(flight)
    ensures After(c, s, evs) ==
            s[token := s[token].(eapId := (s[token].eapId + |evs|) % 256, reassembly := [],
                                 hsComplete := s[token].hsComplete || evs[0].env.engine.done,
                                 outFrags := [], outOffset := 0)]
  {
    hide Step, Challenge, Receive, Authentic, IsAck, Completes, EngineAnswers, After;
    var flight := evs[0].env.engine.output;
    forall k | 0 <= k < |evs|
      ensures Receive(OutcomeAt(c, s, evs, k).reply) ==
              Some(ExpectedAt(flight, 0, k, evs[k].p.id, token, s[token].eapId))
      ensures Authentic(c, evs[k].p, OutcomeAt(c, s, evs, k).reply)
    {
      SentReply(c, s, token, evs, k);
    }
    AssembledPieces(Replies(c, s, evs), Pieces(flight, 0));
    PiecesJoin(flight, 0);
    assert evs[..|evs|] == evs;
    SentState(c, s, token, evs, |evs|);
  }

  lemma EmptyRun(c: Crypto, s: Sessions)
    ensures After(c, s, []) == s
  {
  }

  // -------------------------------------------------------------- inbound

  /** The data of each request of a fragmented peer flight. */
  ghost function Fragments(evs: seq<Event>, token: bytes): (r: seq<bytes>)
    requires forall i :: 0 <= i < |evs| ==> evs[i].Request? && Carrying(evs[i].p, token)
    ensures |r| == |evs|
  {
    seq(|evs|, i requires 0 <= i < |evs| => Payload(evs[i].p, token).tls)
  }

  /** Requests of one conversation with the M flag on all but the last; L flags may be there or not. */
  ghost predicate Fragmented(evs: seq<Event>, token: bytes) {
    && evs != []
    && ValidRun(evs)
    && forall i :: 0 <= i < |evs| ==>
         && evs[i].Request? && Carrying(evs[i].p, token)
         && (Payload(evs[i].p, token).more <==> i < |evs| - 1)
  }

  lemma MoreStep(c: Crypto, s: Sessions, ev: Event, token: bytes)
    requires ev.Request? && ev.env.Valid() && Carrying(ev.p, token) && Payload(ev.p, token).more && token in s
    ensures var t := AckTurn(c, ev.p, token, s[token].(reassembly := s[token].reassembly + Payload(ev.p, token).tls));
            Step(c, s, ev) == Outcome(Apply(s, token, t.verdict), t.reply, None)
  {
  }

  /** The conversation after k fragments that more will follow. */
  function Gathered(conv: Conv, fragments: seq<bytes>, k: nat): Conv
    requires k <= |fragments|
  {
    conv.(eapId := (conv.eapId + k) % 256, reassembly := conv.reassembly + Flatten(fragments[..k]))
  }

  lemma GatheredStep(conv: Conv, fragments: seq<bytes>, k: nat)
    requires k < |fragments|
    ensures Gathered(conv, fragments, 0) == conv
    ensures NextId(Gathered(conv, fragments, k).eapId) == Gathered(conv, fragments, k + 1).eapId
    ensures Gathered(conv, fragments, k).reassembly + fragments[k] == Gathered(conv, fragments, k + 1).reassembly
  {
    assert conv.reassembly + [] == conv.reassembly;
    assert fragments[..k + 1] == fragments[..k] + [fragments[k]];
    FlattenSnoc(fragments[..k], fragments[k]);
    Assoc(conv.reassembly, Flatten(fragments[..k]), fragments[k]);
  }

  /** The table after the first k fragments, before the last. */
  lemma {:induction false} GatheredState(c: Crypto, s: Sessions, token: bytes, evs: seq<Event>, k: nat)
    requires token in s && Fragmented(evs, token) && k < |evs|
    ensures After(c, s, evs[..k]) == s[token := Gathered(s[token], Fragments(evs, token), k)]
  {
    hide Step, Challenge, Carrying, Gathered;
    var fs := Fragments(evs, token);
    if k == 0 {
      GatheredStep(s[token], fs, 0);
    } else {
      GatheredState(c, s, token, evs, k - 1);
      GatheredStep(s[token], fs, k - 1);
      AfterPrefix(c, s, evs, k - 1);
      MoreStep(c, After(c, s, evs[..k - 1]), evs[k - 1], token);
      GatheredAfterAck(s[token], fs, k - 1);
    }
  }

  lemma GatheredAfterAck(conv: Conv, fragments: seq<bytes>, k: nat)
    requires k < |fragments|
    ensures var now := Gathered(conv, fragments, k);
            now.(reassembly := now.reassembly + fragments[k]).(eapId := NextId(now.eapId))
            == Gathered(conv, fragments, k + 1)
  {
    GatheredStep(conv, fragments, k);
  }

  /** An acknowledgement of a fragment as the peer sees it. */
  function ExpectedAck(radiusId: byte, token: bytes, eapId: byte): Received {
    Received(radiusId, token, eapId, None, false, false, [])
  }

  lemma AckReceived(c: Crypto, p: Packet, token: bytes, conv: Conv)
    requires |token| <= MAX_VALUE
    ensures Receive(AckTurn(c, p, token, conv).reply) == Some(ExpectedAck(p.id, token, NextId(conv.eapId)))
  {
    hide Challenge, Receive;
    var e := AckPacket(NextId(conv.eapId));
    assert e.data[1..] == [];
    ChallengeReceived(c, p, token, e);
  }

  /** The last request of a fragmented flight feeds the engine, unless it carries no data. */
  lemma LastStep(c: Crypto, s: Sessions, ev: Event, token: bytes)
    requires ev.Request? && ev.env.Valid() && Carrying(ev.p, token) && !Payload(ev.p, token).more && token in s
    ensures Step(c, s, ev).fed ==
            if Payload(ev.p, token).tls == [] then None else Some(s[token].reassembly + Payload(ev.p, token).tls)
  {
  }

  lemma MoreReply(c: Crypto, s: Sessions, ev: Event, token: bytes)
    requires ev.Request? && ev.env.Valid() && Carrying(ev.p, token) && Payload(ev.p, token).more && token in s
    requires |token| <= MAX_VALUE
    ensures Step(c, s, ev).fed.None?
    ensures Receive(Step(c, s, ev).reply) == Some(ExpectedAck(ev.p.id, token, NextId(s[token].eapId)))
  {
    hide Step, Receive, Challenge, Carrying;
    MoreStep(c, s, ev, token);
    AckReceived(c, ev.p, token, s[token].(reassembly := s[token].reassembly + Payload(ev.p, token).tls));
  }

  lemma GatheredId(conv: Conv, fragments: seq<bytes>, k: nat)
    requires k <= |fragments|
    ensures NextId(Gathered(conv, fragments, k).eapId) == (conv.eapId + 1 + k) % 256
  {
  }

  lemma GatheredAll(conv: Conv, fragments: seq<bytes>)
    ensures Gathered(conv, fragments, |fragments|).reassembly == conv.reassembly + Flatten(fragments)
  {
    assert fragments[..|fragments|] == fragments;
  }

  /**
   * However a peer flight is cut into fragments, each but the last is acknowledged and feeds
   * nothing, and the last feeds exactly the whole flight; a last fragment without data is taken
   * for an acknowledgement and feeds nothing.
   */
  lemma Reassembled(c: Crypto, s: Sessions, token: bytes, evs: seq<Event>)
    requires token in s && |token| <= MAX_VALUE && Fragmented(evs, token)
    ensures forall k :: 0 <= k < |evs| - 1 ==>
              && OutcomeAt(c, s, evs, k).fed.None?
              && Receive(OutcomeAt(c, s, evs, k).reply) ==
                 Some(ExpectedAck(evs[k].p.id, token, (s[token].eapId + 1 + k) % 256))
    ensures OutcomeAt(c, s, evs, |evs| - 1).fed ==
            if Fragments(evs, token)[|evs| - 1] == [] then None
            else Some(s[token].reassembly + Flatten(Fragments(evs, token)))
  {
    hide Step, Challenge, Receive, Carrying, After, Gathered;
    var fs, last := Fragments(evs, token), |evs| - 1;
    forall k | 0 <= k < last
      ensures OutcomeAt(c, s, evs, k).fed.None?
      ensures Receive(OutcomeAt(c, s, evs, k).reply) ==
              Some(ExpectedAck(evs[k].p.id, token, (s[token].eapId + 1 + k) % 256))
    {
      GatheredState(c, s, token, evs, k);
      MoreReply(c, After(c, s, evs[..k]), evs[k], token);
      GatheredId(s[token], fs, k);
    }
    GatheredState(c, s, token, evs, last);
    LastStep(c, After(c, s, evs[..last]), evs[last], token);
    GatheredStep(s[token], fs, last);
    GatheredAll(s[token], fs);
  }

  /** A run cut just before the request that ends the peer's flight. */
  lemma ExchangeSplit(c: Crypto, s: Sessions, inbound: seq<Event>, acks: seq<Event>)
    requires inbound != [] && ValidRun(inbound) && ValidRun(acks)
    ensures ValidRun(inbound + acks)
    ensures forall k :: 0 <= k < |inbound| ==> OutcomeAt(c, s, inbound + acks, k) == OutcomeAt(c, s, inbound, k)
    ensures var last := |inbound| - 1;
            Replies(c, s, inbound + acks)[last..] ==
            Replies(c, After(c, s, inbound[..last]), [inbound[last]] + acks)
  {
    hide Step, After, OutcomeAt;
    var last, evs := |inbound| - 1, inbound + acks;
    var front, back := inbound[..last], [inbound[last]] + acks;
    assert evs == front + back;
    forall k | 0 <= k < |inbound| ensures OutcomeAt(c, s, evs, k) == OutcomeAt(c, s, inbound, k) {
      OutcomeSplit(c, s, inbound, acks, k);
    }
    forall k | last <= k < |evs| ensures OutcomeAt(c, s, evs, k) == OutcomeAt(c, After(c, s, front), back, k - last) {
      OutcomeSplit(c, s, front, back, k);
    }
  }

  /**
   * A whole exchange: the peer sends one flight in any fragments and acknowledges the answer. The
   * engine is fed the peer's flight, once, and the peer assembles the engine's answer.
   */
  lemma FlightExchange(c: Crypto, s: Sessions, token: bytes, inbound: seq<Event>, acks: seq<Event>)
    requires token in s && |token| <= MAX_VALUE && s[token].reassembly == []
    requires Fragmented(inbound, token) && Fragments(inbound, token)[|inbound| - 1] != []
    requires ValidRun(acks) && Fetches([inbound[|inbound| - 1]] + acks, token)
    requires 1 + |acks| == FragmentCount(|inbound[|inbound| - 1].env.engine.output|)
    ensures var last, evs := |inbound| - 1, inbound + acks;
            && ValidRun(evs)
            && OutcomeAt(c, s, evs, last).fed == Some(Flatten(Fragments(inbound, token)))
            && (forall k :: 0 <= k < |evs| && k != last ==> OutcomeAt(c, s, evs, k).fed.None?)
            && Assembled(Replies(c, s, evs)[last..]) == Some(inbound[last].env.engine.output)
            && token in After(c, s, evs) && After(c, s, evs)[token].reassembly == []
  {
    hide Step, Challenge, Receive, Carrying, After, Fetches, OutcomeAt, Replies, Assembled;
    var last := |inbound| - 1;
    ExchangeSplit(c, s, inbound, acks);
    Reassembled(c, s, token, inbound);
    assert [] + Flatten(Fragments(inbound, token)) == Flatten(Fragments(inbound, token));
    GatheredState(c, s, token, inbound, last);
    FlightDelivered(c, After(c, s, inbound[..last]), token, [inbound[last]] + acks);
    ExchangeEnd(c, s, token, inbound, acks);
  }

  /** What the acknowledgements of an exchange leave: nothing fed, nothing gathered. */
  lemma ExchangeEnd(c: Crypto, s: Sessions, token: bytes, inbound: seq<Event>, acks: seq<Event>)
    requires token in s && |token| <= MAX_VALUE
    requires Fragmented(inbound, token) && ValidRun(acks) && Fetches([inbound[|inbound| - 1]] + acks, token)
    requires 1 + |acks| == FragmentCount(|inbound[|inbound| - 1].env.engine.output|)
    ensures ValidRun(inbound + acks)
    ensures forall k :: |inbound| <= k < |inbound| + |acks| ==> OutcomeAt(c, s, inbound + acks, k).fed.None?
    ensures token in After(c, s, inbound + acks) && After(c, s, inbound + acks)[token].reassembly == []
  {
    hide Step, Challenge, Receive, Carrying, After, Fetches, OutcomeAt, Fragmented, Authentic, ExpectedAt;
    FragmentedValid(inbound, token);
    var last := |inbound| - 1;
    var front, fetch := inbound[..last], [inbound[last]] + acks;
    assert inbound + acks == front + fetch;
    var now := After(c, s, front);
    GatheredState(c, s, token, inbound, last);
    FlightDelivered(c, now, token, fetch);
    AfterSplit(c, s, front, fetch);
    forall k | |inbound| <= k < |inbound| + |acks|
      ensures OutcomeAt(c, s, inbound + acks, k).fed.None?
    {
      SentFeedsNothing(c, now, token, fetch, k - last);
      OutcomeSplit(c, s, front, fetch, k);
    }
  }

  lemma FragmentedValid(evs: seq<Event>, token: bytes)
    requires Fragmented(evs, token)
    ensures evs != [] && ValidRun(evs) && ValidRun(evs[..|evs| - 1])
  {
    hide Carrying;
  }
}
