/** What the receiver of a reply reads in it: Access-Accept, refusal, plain reject, and the start of a conversation. */
module Receipts {
  import opened Wire
  import opened Radius
  import opened Signature
  import opened Eap
  import opened Mppe
  import opened Conversation
  import opened Runs
  import opened Delivery
  import opened AcceptSafety

  // ------------------------------------------- what an Access-Accept delivers

  /** The values of a decision fit in one attribute each. */
  predicate ValuesFit(d: Decision, cert: Cert) {
    && (if d.username != [] then |d.username| <= MAX_VALUE else |cert.commonName| <= MAX_VALUE)
    && |d.acl| <= MAX_VALUE
    && (d.vlan > 0 ==> |Decimal(d.vlan)| < MAX_VALUE)
  }

  lemma {:induction false} NoneOfType(xs: seq<Attribute>, typ: byte)
    requires forall a :: a in xs ==> a.typ != typ
    ensures All(xs, typ) == []
  {
    if xs == [] {
    } else {
      NoneOfType(xs[1..], typ);
    }
  }

  lemma {:induction false} SmallAttributes(xs: seq<Attribute>)
    requires forall a :: a in xs ==> |a.value| <= MAX_VALUE
    ensures |AttributesBytes(xs)| <= 255 * |xs|
  {
    if xs == [] {
    } else {
      SmallAttributes(xs[1..]);
    }
  }

  lemma GrantShape(d: Decision, cert: Cert)
    requires ValuesFit(d, cert)
    ensures var g := GrantAttributes(d, cert);
            && 1 <= |g| <= 6
            && g[0] == Attribute(USER_NAME, if d.username != [] then d.username else cert.commonName)
            && forall a :: a in g ==>
                 && |a.value| <= MAX_VALUE
                 && a.typ != MESSAGE_AUTHENTICATOR && a.typ != EAP_MESSAGE && a.typ != VENDOR_SPECIFIC && a.typ != STATE
  {
  }

  /** The parts of an Access-Accept with the Message-Authenticator filled in. */
  function AcceptShape(mac: Block, result: bytes, g: seq<Attribute>, keys: seq<Attribute>): seq<Attribute> {
    [Attribute(MESSAGE_AUTHENTICATOR, mac)] + Chunks(result) + g + keys
  }

  lemma AcceptParts(mac: Block, result: bytes, g: seq<Attribute>, keys: seq<Attribute>)
    requires forall a :: a in g ==>
               a.typ != MESSAGE_AUTHENTICATOR && a.typ != EAP_MESSAGE && a.typ != VENDOR_SPECIFIC
    requires forall a :: a in keys ==> a.typ == VENDOR_SPECIFIC
    ensures var xs := AcceptShape(mac, result, g, keys);
            && All(xs, MESSAGE_AUTHENTICATOR) == [mac]
            && EapMessage(xs) == result
            && All(xs, VENDOR_SPECIFIC) == All(keys, VENDOR_SPECIFIC)
            && forall typ: byte :: typ != MESSAGE_AUTHENTICATOR && typ != EAP_MESSAGE && typ != VENDOR_SPECIFIC ==>
                 All(xs, typ) == All(g, typ)
  {
    forall typ: byte
      ensures typ == MESSAGE_AUTHENTICATOR ==> All(AcceptShape(mac, result, g, keys), typ) == [mac]
      ensures typ == EAP_MESSAGE ==> All(AcceptShape(mac, result, g, keys), typ) == All(Chunks(result), typ)
      ensures typ == VENDOR_SPECIFIC ==> All(AcceptShape(mac, result, g, keys), typ) == All(keys, typ)
      ensures typ != MESSAGE_AUTHENTICATOR && typ != EAP_MESSAGE && typ != VENDOR_SPECIFIC ==>
                All(AcceptShape(mac, result, g, keys), typ) == All(g, typ)
    {
      AcceptPart(mac, result, g, keys, typ);
    }
    AllChunks(result, EAP_MESSAGE);
  }

  /** Which part of an Access-Accept the attributes of one type come from. */
  lemma AcceptPart(mac: Block, result: bytes, g: seq<Attribute>, keys: seq<Attribute>, typ: byte)
    requires forall a :: a in g ==>
               a.typ != MESSAGE_AUTHENTICATOR && a.typ != EAP_MESSAGE && a.typ != VENDOR_SPECIFIC
    requires forall a :: a in keys ==> a.typ == VENDOR_SPECIFIC
    ensures All(AcceptShape(mac, result, g, keys), typ) ==
            if typ == MESSAGE_AUTHENTICATOR then [mac]
            else if typ == EAP_MESSAGE then All(Chunks(result), typ)
            else if typ == VENDOR_SPECIFIC then All(keys, typ)
            else All(g, typ)
  {
    hide All, Chunks;
    var m := [Attribute(MESSAGE_AUTHENTICATOR, mac)];
    AllConcat(m + Chunks(result) + g, keys, typ);
    AllConcat(m + Chunks(result), g, typ);
    AllConcat(m, Chunks(result), typ);
    AllSingle(m[0], typ);
    AllChunks(result, typ);
    if typ == MESSAGE_AUTHENTICATOR || typ == EAP_MESSAGE || typ == VENDOR_SPECIFIC {
      NoneOfType(g, typ);
    }
    if typ != VENDOR_SPECIFIC {
      NoneOfType(keys, typ);
    }
  }

  lemma AcceptFits(mac: Block, result: bytes, g: seq<Attribute>, keys: seq<Attribute>, q: Packet)
    requires q.attrs == AcceptShape(mac, result, g, keys) && |result| == 4 && |g| <= 6 && |keys| <= 2
    requires forall a :: a in g || a in keys ==> |a.value| <= MAX_VALUE
    ensures Representable(q)
  {
    assert Chunks(result) == [Attribute(EAP_MESSAGE, result)] by {
      assert result[..4] == result && result[4..] == [];
    }
    forall a | a in q.attrs ensures |a.value| <= MAX_VALUE {
    }
    SmallAttributes(q.attrs);
  }

  /** Signing fills only the placeholder. */
  lemma AcceptSigned(c: Crypto, p: Packet, env: Env, d: Decision, cert: Cert, id: byte)
    requires env.Valid() && ValuesFit(d, cert)
    ensures var u := Packet(ACCESS_ACCEPT, p.id, ZERO_BLOCK, AcceptAttributes(c, p, env, d, cert, id));
            && MacCount(u.attrs) == 1
            && Signed(c, u, p.auth).attrs ==
               AcceptShape(Mac(c, u, p.auth), EncodeResult(SUCCESS, id), GrantAttributes(d, cert),
                           KeyAttributes(c, env, p.auth))
  {
    hide GrantAttributes, KeyAttributes, Chunks;
    var u := Packet(ACCESS_ACCEPT, p.id, ZERO_BLOCK, AcceptAttributes(c, p, env, d, cert, id));
    var g, keys := GrantAttributes(d, cert), KeyAttributes(c, env, p.auth);
    GrantShape(d, cert);
    KeysShape(c, env, p.auth);
    AcceptParts(ZERO_BLOCK, EncodeResult(SUCCESS, id), g, keys);
    var rest := Chunks(EncodeResult(SUCCESS, id)) + g + keys;
    forall i | 0 <= i < |rest| ensures rest[i].typ != MESSAGE_AUTHENTICATOR {
      assert rest[i] in Chunks(EncodeResult(SUCCESS, id)) || rest[i] in g || rest[i] in keys;
    }
    assert u.attrs == [Attribute(MESSAGE_AUTHENTICATOR, ZERO_BLOCK)] + rest;
    var mac := Mac(c, u, p.auth);
    assert AcceptShape(mac, EncodeResult(SUCCESS, id), g, keys) == [Attribute(MESSAGE_AUTHENTICATOR, mac)] + rest;
    FillHead(rest, ZERO_BLOCK, mac);
  }

  lemma FillHead(rest: seq<Attribute>, v: Block, w: Block)
    requires forall i :: 0 <= i < |rest| ==> rest[i].typ != MESSAGE_AUTHENTICATOR
    ensures WithMac([Attribute(MESSAGE_AUTHENTICATOR, v)] + rest, w) == [Attribute(MESSAGE_AUTHENTICATOR, w)] + rest
  {
  }

  lemma KeysShape(c: Crypto, env: Env, requestAuth: Block)
    requires env.Valid()
    ensures var keys := KeyAttributes(c, env, requestAuth);
            |keys| <= 2 && forall a :: a in keys ==> a.typ == VENDOR_SPECIFIC && |a.value| <= MAX_VALUE
  {
  }

  /** A session key was derived, is long enough, and both salts could be drawn. */
  predicate HasKeys(env: Env) {
    env.msk.Some? && |env.msk.value| >= MSK_LENGTH && env.sendSalt.Some? && env.recvSalt.Some?
  }

  /** What a receiver finds in the Vendor-Specific values: both halves of the session key, or nothing. */
  predicate KeysReceived(c: Crypto, env: Env, requestAuth: Block, values: seq<bytes>) {
    if HasKeys(env) then
      && |values| == 2
      && ReceivedMppe(c, requestAuth, values[0]) == Some((SEND_KEY, env.msk.value[32..64]))
      && ReceivedMppe(c, requestAuth, values[1]) == Some((RECV_KEY, env.msk.value[..32]))
    else values == []
  }

  lemma KeysArrive(c: Crypto, env: Env, requestAuth: Block)
    requires env.Valid()
    ensures KeysReceived(c, env, requestAuth, All(KeyAttributes(c, env, requestAuth), VENDOR_SPECIFIC))
  {
    hide ReceivedMppe, VendorValue, SaltedKey;
    if HasKeys(env) {
      hide MppeAttributes;
      KeysReachReceiver(c, env.msk.value, requestAuth, env.sendSalt.value, env.recvSalt.value);
      KeysShape(c, env, requestAuth);
      AllOfTwo(KeyAttributes(c, env, requestAuth));
    }
  }

  // ------------------------------------------------------- what is granted

  /** The number a decimal text stands for, read from left to right. */
  function DigitsValue(b: bytes): int {
    if b == [] then 0 else DigitsValue(b[..|b| - 1]) * 10 + (b[|b| - 1] as int - 48)
  }

  /** A decimal number without a leading zero. */
  predicate IsNumeral(b: bytes) {
    b != [] && (forall i :: 0 <= i < |b| ==> 48 <= b[i] <= 57) && (|b| > 1 ==> b[0] != 48)
  }

  lemma {:induction false} DecimalReads(n: nat)
    ensures IsNumeral(Decimal(n)) && DigitsValue(Decimal(n)) == n
    ensures n > 0 ==> Decimal(n)[0] != 48
  {
    if n < 10 {
      assert Decimal(n)[..0] == [];
    } else {
      DecimalReads(n / 10);
      var b := Decimal(n);
      assert b[..|b| - 1] == Decimal(n / 10);
    }
  }

  /** The VLAN a receiver reads: tunnel type VLAN, medium 802, and the number behind the tag; or no tunnel at all. */
  predicate VlanReceived(vlan: int, attrs: seq<Attribute>) {
    if vlan > 0 then
      && All(attrs, 64) == [[1, 0, 0, 13]]
      && All(attrs, 65) == [[1, 0, 0, 6]]
      && |All(attrs, 81)| == 1
      && var group := All(attrs, 81)[0];
         group != [] && group[0] == 1 && IsNumeral(group[1..]) && DigitsValue(group[1..]) == vlan
    else All(attrs, 64) == [] && All(attrs, 65) == [] && All(attrs, 81) == []
  }

  predicate TimeoutReceived(seconds: int, attrs: seq<Attribute>) {
    if seconds > 0 then
      |All(attrs, 27)| == 1 && |All(attrs, 27)[0]| == 4 && GetU32(All(attrs, 27)[0]) == seconds % 0x1_0000_0000
    else All(attrs, 27) == []
  }

  /** Everything a decision grants, as a receiver reads it by attribute number. */
  predicate GrantReceived(d: Decision, cert: Cert, attrs: seq<Attribute>) {
    && All(attrs, 1) == [if d.username != [] then d.username else cert.commonName]
    && VlanReceived(d.vlan, attrs)
    && All(attrs, 11) == (if d.acl != [] then [d.acl] else [])
    && TimeoutReceived(d.sessionTimeout, attrs)
  }

  lemma AllOptional(present: bool, t: byte, value: bytes, typ: byte)
    ensures All(OptionalAttribute(present, t, value), typ) == if present && t == typ then [value] else []
  {
    if present {
      AllSingle(Attribute(t, value), typ);
    }
  }

  lemma AllVlan(vlan: int, typ: byte)
    ensures All(VlanAttributes(vlan), typ) ==
            if vlan <= 0 then []
            else if typ == TUNNEL_TYPE then [[1, 0, 0, 13]]
            else if typ == TUNNEL_MEDIUM_TYPE then [[1, 0, 0, 6]]
            else if typ == TUNNEL_PRIVATE_GROUP then [[1] + Decimal(vlan)]
            else []
  {
    hide All, Decimal;
    if vlan > 0 {
      var v := VlanAttributes(vlan);
      assert v == [v[0]] + [v[1]] + [v[2]];
      AllConcat([v[0]] + [v[1]], [v[2]], typ);
      AllConcat([v[0]], [v[1]], typ);
      AllSingle(v[0], typ);
      AllSingle(v[1], typ);
      AllSingle(v[2], typ);
    } else {
      NoneOfType([], typ);
    }
  }

  /** Each type of attribute comes from one part of the grant. */
  lemma AllGrant(d: Decision, cert: Cert, typ: byte)
    ensures All(GrantAttributes(d, cert), typ) ==
            if typ == USER_NAME then [if d.username != [] then d.username else cert.commonName]
            else if typ == FILTER_ID then (if d.acl != [] then [d.acl] else [])
            else if typ == SESSION_TIMEOUT then (if d.sessionTimeout > 0 then [PutU32(d.sessionTimeout)] else [])
            else All(VlanAttributes(d.vlan), typ)
  {
    hide All, VlanAttributes, OptionalAttribute, PutU32;
    var u := [Attribute(USER_NAME, if d.username != [] then d.username else cert.commonName)];
    var v, f := VlanAttributes(d.vlan), OptionalAttribute(d.acl != [], FILTER_ID, d.acl);
    var t := OptionalAttribute(d.sessionTimeout > 0, SESSION_TIMEOUT, TimeoutValue(d.sessionTimeout));
    AllConcat(u + v + f, t, typ);
    AllConcat(u + v, f, typ);
    AllConcat(u, v, typ);
    AllSingle(u[0], typ);
    AllVlan(d.vlan, typ);
    AllOptional(d.acl != [], FILTER_ID, d.acl, typ);
    AllOptional(d.sessionTimeout > 0, SESSION_TIMEOUT, TimeoutValue(d.sessionTimeout), typ);
  }

  lemma GrantIsReceived(d: Decision, cert: Cert, attrs: seq<Attribute>)
    requires forall typ: byte :: typ in {1, 11, 27, 64, 65, 81} ==>
               All(attrs, typ) == All(GrantAttributes(d, cert), typ)
    ensures GrantReceived(d, cert, attrs)
  {
    hide All, GrantAttributes, VlanAttributes, PutU32, Decimal, IsNumeral, DigitsValue;
    AllGrant(d, cert, 1);
    AllGrant(d, cert, 11);
    AllGrant(d, cert, 27);
    AllGrant(d, cert, 64);
    AllGrant(d, cert, 65);
    AllGrant(d, cert, 81);
    AllVlan(d.vlan, 64);
    AllVlan(d.vlan, 65);
    AllVlan(d.vlan, 81);
    if d.vlan > 0 {
      DecimalReads(d.vlan);
      assert ([1] + Decimal(d.vlan))[1..] == Decimal(d.vlan);
    }
    if d.sessionTimeout > 0 {
      GetPutU32(d.sessionTimeout);
    }
  }

  // ------------------------------------------------------------ the replies

  /** An Access-Accept that answers p with the decision: all of it, EAP-Success, and the keys. */
  predicate Granting(c: Crypto, p: Packet, env: Env, d: Decision, cert: Cert, id: byte, reply: bytes) {
    && Parse(reply).Ok?
    && Authentic(c, p, reply)
    && var q := Parse(reply).value;
       && q.code == 2 && q.id == p.id
       && ParseEap(EapMessage(q.attrs)) == Ok(EapPacket(3, id, 0, []))
       && GrantReceived(d, cert, q.attrs)
       && KeysReceived(c, env, p.auth, All(q.attrs, 26))
       && All(q.attrs, 24) == [] && |All(q.attrs, 80)| == 1
  }

  /**
   * An Access-Accept parses, is authentic, carries EAP-Success under the next identifier, exactly the
   * user name, VLAN, filter and timeout that were decided, and both halves of the session key, or no
   * key at all.
   */
  lemma AcceptReceived(c: Crypto, p: Packet, env: Env, d: Decision, cert: Cert, id: byte)
    requires env.Valid() && ValuesFit(d, cert) && d.accept
    ensures Granting(c, p, env, d, cert, id, FinishReply(c, p, env, d, cert, id))
  {
    hide GrantAttributes, KeysReceived, Signed, Verified, MppeAttributes, GrantReceived, All, WithMac;
    var u := Packet(ACCESS_ACCEPT, p.id, ZERO_BLOCK, AcceptAttributes(c, p, env, d, cert, id));
    var q := Signed(c, u, p.auth);
    var result, g, keys := EncodeResult(SUCCESS, id), GrantAttributes(d, cert), KeyAttributes(c, env, p.auth);
    AcceptSigned(c, p, env, d, cert, id);
    GrantShape(d, cert);
    KeysShape(c, env, p.auth);
    AcceptFits(Mac(c, u, p.auth), result, g, keys, q);
    RoundTripIff(q);
    AcceptParts(Mac(c, u, p.auth), result, g, keys);
    ParseResult(SUCCESS, id);
    KeysArrive(c, env, p.auth);
    SignatureAgreement(c, u, p.auth);
    SignedHeader(c, u, p.auth);
    GrantIsReceived(d, cert, q.attrs);
    NoneOfType(g, STATE);
  }

  /** A refusal: EAP-Failure and the message, if there is one, and nothing that grants anything. */
  predicate Refusing(c: Crypto, p: Packet, message: bytes, id: byte, reply: bytes) {
    && Parse(reply).Ok?
    && Authentic(c, p, reply)
    && var q := Parse(reply).value;
       && q.code == 3 && q.id == p.id
       && ParseEap(EapMessage(q.attrs)) == Ok(EapPacket(4, id, 0, []))
       && All(q.attrs, 18) == (if message != [] then [message] else [])
       && (forall typ: byte :: typ != 18 && typ != 79 ==> All(q.attrs, typ) == [])
  }

  lemma RefusalReceived(c: Crypto, p: Packet, env: Env, d: Decision, cert: Cert, id: byte)
    requires env.Valid() && |d.message| <= MAX_VALUE && !d.accept
    ensures Refusing(c, p, d.message, id, FinishReply(c, p, env, d, cert, id))
  {
    hide Signed, Verified, All, Chunks, OptionalAttribute;
    var attrs := RefusalAttributes(d, id);
    var u := Packet(ACCESS_REJECT, p.id, ZERO_BLOCK, attrs);
    RefusalParts(d, id);
    Unmarked(c, u, p.auth);
    RefusalFits(d, id, u);
    RoundTripIff(Signed(c, u, p.auth));
    SignatureAgreement(c, u, p.auth);
    SignedHeader(c, u, p.auth);
    ParseResult(FAILURE, id);
  }

  lemma RefusalParts(d: Decision, id: byte)
    ensures var attrs := RefusalAttributes(d, id);
            && EapMessage(attrs) == EncodeResult(FAILURE, id)
            && All(attrs, REPLY_MESSAGE) == (if d.message != [] then [d.message] else [])
            && forall typ: byte :: typ != REPLY_MESSAGE && typ != EAP_MESSAGE ==> All(attrs, typ) == []
  {
    hide All, Chunks, OptionalAttribute;
    var m := OptionalAttribute(d.message != [], REPLY_MESSAGE, d.message);
    var eap := EncodeResult(FAILURE, id);
    forall typ: byte
      ensures All(RefusalAttributes(d, id), typ) ==
              if typ == EAP_MESSAGE then All(Chunks(eap), typ)
              else if typ == REPLY_MESSAGE && d.message != [] then [d.message] else []
    {
      AllConcat(Chunks(eap), m, typ);
      AllChunks(eap, typ);
      AllOptional(d.message != [], REPLY_MESSAGE, d.message, typ);
    }
    AllChunks(eap, EAP_MESSAGE);
  }

  /** Signing a packet without a Message-Authenticator leaves its attributes as they are. */
  lemma Unmarked(c: Crypto, u: Packet, requestAuth: Block)
    requires MacCount(u.attrs) == 0
    ensures Signed(c, u, requestAuth).attrs == u.attrs
  {
    MacCountOf(u.attrs, ZERO_BLOCK);
    forall v: bytes ensures WithMac(u.attrs, v) == u.attrs {
      assert forall i :: 0 <= i < |u.attrs| ==> u.attrs[i] in u.attrs;
    }
  }

  lemma RefusalFits(d: Decision, id: byte, u: Packet)
    requires |d.message| <= MAX_VALUE && u.attrs == RefusalAttributes(d, id)
    ensures forall q: Packet :: q.attrs == u.attrs ==> Representable(q)
  {
    var eap := EncodeResult(FAILURE, id);
    assert Chunks(eap) == [Attribute(EAP_MESSAGE, eap)] by {
      assert eap[..4] == eap && eap[4..] == [];
    }
    forall q: Packet | q.attrs == u.attrs ensures Representable(q) {
      assert |q.attrs| <= 2;
      assert forall a :: a in q.attrs ==> |a.value| <= MAX_VALUE;
      SmallAttributes(q.attrs);
    }
  }

  /** A plain reject says "access denied" and carries nothing else. */
  lemma RejectReceived(c: Crypto, p: Packet)
    ensures Parse(Reject(c, p)).Ok? && Authentic(c, p, Reject(c, p))
    ensures var q := Parse(Reject(c, p)).value;
            && q.code == 3 && q.id == p.id
            && q.attrs == [Attribute(18, [97, 99, 99, 101, 115, 115, 32, 100, 101, 110, 105, 101, 100])]
  {
    hide Signed, Verified;
    var u := Packet(ACCESS_REJECT, p.id, ZERO_BLOCK, [Attribute(REPLY_MESSAGE, DENIED)]);
    AllSingle(u.attrs[0], MESSAGE_AUTHENTICATOR);
    Unmarked(c, u, p.auth);
    SmallAttributes(u.attrs);
    RoundTripIff(Signed(c, u, p.auth));
    SignatureAgreement(c, u, p.auth);
    SignedHeader(c, u, p.auth);
  }

  /** The attributes of a challenge by number: the authenticator, the EAP packet in order, and the State. */
  lemma ChallengeRead(c: Crypto, p: Packet, token: bytes, e: EapPacket)
    requires |EncodeEap(e)| <= 2000 && |token| <= MAX_VALUE
    ensures Parse(Challenge(c, p, token, e)).Ok?
    ensures var q := Parse(Challenge(c, p, token, e)).value;
            && q.code == 11 && q.id == p.id
            && |All(q.attrs, 80)| == 1 && Flatten(All(q.attrs, 79)) == EncodeEap(e) && All(q.attrs, 24) == [token]
            && q.attrs != [] && q.attrs[0].typ == 80 && q.attrs[|q.attrs| - 1].typ == 24
            && forall a :: a in q.attrs ==> a.typ in {24, 79, 80}
  {
    hide Signed, EncodeEap, Chunks, All;
    var eap := EncodeEap(e);
    var q := SignedChallenge(c, p, token, eap);
    ChallengeShape(c, p, token, eap);
    var mac: Block :| q.attrs == [Attribute(MESSAGE_AUTHENTICATOR, mac)] + Chunks(eap) + [Attribute(STATE, token)];
    var a, b := Attribute(MESSAGE_AUTHENTICATOR, mac), Attribute(STATE, token);
    ChallengeFits(a, eap, b, q);
    RoundTripIff(q);
    AllAround(a, eap, b, STATE);
    AllAround(a, eap, b, MESSAGE_AUTHENTICATOR);
    AllSingle(a, EAP_MESSAGE);
    AllSingle(b, EAP_MESSAGE);
    CollectAdded([a], eap, [b]);
    SignedHeader(c, Packet(ACCESS_CHALLENGE, p.id, ZERO_BLOCK, ChallengeAttributes(token, eap)), p.auth);
  }

  /** The first challenge of a conversation carries the S flag alone, under the identifier after the peer's. */
  lemma StartReceived(c: Crypto, p: Packet, token: bytes, id: byte)
    requires |token| <= MAX_VALUE
    ensures Receive(Challenge(c, p, token, StartPacket(id))) == Some(Received(p.id, token, id, None, true, false, []))
    ensures Authentic(c, p, Challenge(c, p, token, StartPacket(id)))
    ensures EncodeEap(StartPacket(id)) == [1, id, 0, 6, 13, 0x20]
  {
    hide Challenge, Receive, Authentic;
    var data: bytes := [0x20];
    assert data[1..] == [] && ReadTlsData(data) == Ok(TlsData([], true, false));
    ChallengeReceived(c, p, token, StartPacket(id));
  }

  lemma SignedHeader(c: Crypto, u: Packet, requestAuth: Block)
    ensures Signed(c, u, requestAuth).code == u.code && Signed(c, u, requestAuth).id == u.id
  {
  }

  lemma AllOfTwo(keys: seq<Attribute>)
    requires |keys| == 2 && forall a :: a in keys ==> a.typ == VENDOR_SPECIFIC
    ensures All(keys, VENDOR_SPECIFIC) == [keys[0].value, keys[1].value]
  {
    assert keys == [keys[0]] + [keys[1]];
    AllConcat([keys[0]], [keys[1]], VENDOR_SPECIFIC);
    AllSingle(keys[0], VENDOR_SPECIFIC);
    AllSingle(keys[1], VENDOR_SPECIFIC);
  }
}
