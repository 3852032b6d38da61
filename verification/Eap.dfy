/**
 * EAP packets (section 4 of RFC 3748), EAP-TLS fragments (sections 2.1.5 and 3.1 of RFC 5216) and
 * their carriage in EAP-Message attributes (section 3.1 of RFC 3579).
 */
module Eap {
  import opened Wire
  import opened Radius
  import opened Signature

  const REQUEST: byte := 1
  const RESPONSE: byte := 2
  const SUCCESS: byte := 3
  const FAILURE: byte := 4

  const TYPE_IDENTITY: byte := 1
  const TYPE_TLS: byte := 13

  const FLAG_LENGTH: byte := 0x80
  const FLAG_MORE: byte := 0x40
  const FLAG_START: byte := 0x20

  const FRAGMENT_SIZE := 1000

  datatype EapPacket = EapPacket(code: byte, id: byte, typ: byte, data: bytes)

  datatype EapError = BadEap

  /** `flags & mask != 0` for a single-bit mask. */
  predicate HasFlag(flags: byte, mask: byte)
    requires mask > 0
  {
    (flags / mask) % 2 == 1
  }

  predicate Typed(code: byte) { code == REQUEST || code == RESPONSE }

  function ParseEap(b: bytes): (r: Result<EapPacket, EapError>)
  {
    if |b| < 4 then Err(BadEap)
    else
      var length := GetU16(b[2..4]);
      if length < 4 || length > |b| then Err(BadEap)
      else if !Typed(b[0]) then Ok(EapPacket(b[0], b[1], 0, []))
      else if length < 5 then Err(BadEap)
      else Ok(EapPacket(b[0], b[1], b[4], b[5..length]))
  }

  function EncodeEap(e: EapPacket): (b: bytes)
    ensures |b| == 5 + |e.data|
  {
    [e.code, e.id] + PutU16(5 + |e.data|) + [e.typ] + e.data
  }

  function EncodeResult(code: byte, id: byte): (b: bytes)
    ensures |b| == 4
  {
    [code, id] + PutU16(4)
  }

  lemma ParseEncodeEap(e: EapPacket)
    requires Typed(e.code) && 5 + |e.data| < 0x1_0000
    ensures ParseEap(EncodeEap(e)) == Ok(e)
  {
    var b := EncodeEap(e);
    assert b[2..4] == PutU16(|b|);
    assert b[5..|b|] == e.data;
  }

  /** Exactly which EAP packets survive the codec. */
  lemma EapRoundTripIff(e: EapPacket)
    ensures ParseEap(EncodeEap(e)) == Ok(e) <==>
            if Typed(e.code) then 5 + |e.data| < 0x1_0000 else e.typ == 0 && e.data == []
  {
    var b := EncodeEap(e);
    assert b[2..4] == PutU16(|b|);
    if Typed(e.code) && |b| < 0x1_0000 {
      ParseEncodeEap(e);
    }
    if Typed(e.code) && |b| >= 0x1_0000 {
      assert GetU16(b[2..4]) < |b|;
    }
    if !Typed(e.code) && e.data == [] {
      assert GetU16(b[2..4]) == 5;
    }
  }

  lemma EncodeParseEap(b: bytes)
    requires ParseEap(b).Ok? && Typed(b[0])
    ensures EncodeEap(ParseEap(b).value) == b[..GetU16(b[2..4])]
  {
    var length := GetU16(b[2..4]);
    PutGetU16(b[2..4]);
    assert b[..length] == [b[0], b[1]] + b[2..4] + [b[4]] + b[5..length];
  }

  /** Exactly which octets are an EAP packet: a length of at least four, or five with a type, that they cover. */
  lemma EapOkIff(b: bytes)
    ensures ParseEap(b).Ok? <==>
            |b| >= 4 && GetU16(b[2..4]) <= |b| && GetU16(b[2..4]) >= if b[0] == 1 || b[0] == 2 then 5 else 4
  {
  }

  /** Octets after the length of a packet do not matter. */
  lemma EapTail(e: EapPacket, tail: bytes)
    requires Typed(e.code) && 5 + |e.data| < 0x1_0000
    ensures ParseEap(EncodeEap(e) + tail) == Ok(e)
  {
    var b := EncodeEap(e) + tail;
    assert b[2..4] == PutU16(5 + |e.data|);
    assert b[5..5 + |e.data|] == e.data;
  }

  lemma ParseResult(code: byte, id: byte)
    requires !Typed(code)
    ensures ParseEap(EncodeResult(code, id)) == Ok(EapPacket(code, id, 0, []))
  {
    assert EncodeResult(code, id)[2..4] == PutU16(4);
  }

  // -------------------------------------------------------------- EAP-TLS

  datatype TlsData = TlsData(tls: bytes, start: bool, more: bool)

  /** Strips the flags octet and, when L is set, the four octets of TLS Message Length. */
  function ReadTlsData(data: bytes): (r: Result<TlsData, EapError>)
  {
    if |data| < 1 then Err(BadEap)
    else
      var flags := data[0];
      var start, more := HasFlag(flags, FLAG_START), HasFlag(flags, FLAG_MORE);
      if HasFlag(flags, FLAG_LENGTH) then
        if |data| < 5 then Err(BadEap) else Ok(TlsData(data[5..], start, more))
      else Ok(TlsData(data[1..], start, more))
  }

  /** The TLS Message Length a fragment announces, when its L flag is set. */
  function AnnouncedLength(data: bytes): (r: Option<nat>)
  {
    if |data| >= 5 && HasFlag(data[0], FLAG_LENGTH) then Some(GetU32(data[1..5])) else None
  }

  function StartPacket(id: byte): EapPacket { EapPacket(REQUEST, id, TYPE_TLS, [FLAG_START]) }

  function AckPacket(id: byte): EapPacket { EapPacket(REQUEST, id, TYPE_TLS, [0]) }

  function Chunk(tls: bytes, offset: nat): (n: nat)
    requires offset <= |tls|
    ensures n <= FRAGMENT_SIZE && offset + n <= |tls|
    ensures n == 0 <==> offset == |tls|
  {
    if |tls| - offset > FRAGMENT_SIZE then FRAGMENT_SIZE else |tls| - offset
  }

  /** The type-data of the fragment that starts at an offset of the outbound TLS message. */
  function FragmentData(tls: bytes, offset: nat): (data: bytes)
    requires offset <= |tls|
    ensures 1 <= |data| <= 5 + FRAGMENT_SIZE
  {
    var next := offset + Chunk(tls, offset);
    var more: byte := if next < |tls| then FLAG_MORE else 0;
    if offset == 0 then [more + FLAG_LENGTH] + PutU32(|tls|) + tls[offset..next]
    else [more] + tls[offset..next]
  }

  function FragmentPacket(id: byte, tls: bytes, offset: nat): EapPacket
    requires offset <= |tls|
  {
    EapPacket(REQUEST, id, TYPE_TLS, FragmentData(tls, offset))
  }

  /** What a peer reads in the fragment at an offset: the chunk, M iff more follows, L iff first. */
  lemma ReadFragment(tls: bytes, offset: nat)
    requires offset <= |tls|
    ensures var next := offset + Chunk(tls, offset);
            && ReadTlsData(FragmentData(tls, offset)) == Ok(TlsData(tls[offset..next], false, next < |tls|))
            && AnnouncedLength(FragmentData(tls, offset)) ==
               if offset == 0 then Some(|tls| % 0x1_0000_0000) else None
  {
    var data, next := FragmentData(tls, offset), offset + Chunk(tls, offset);
    if offset == 0 {
      assert data[1..5] == PutU32(|tls|);
      assert data[5..] == tls[offset..next];
      GetPutU32(|tls|);
    } else {
      assert data[1..] == tls[offset..next];
    }
  }

  // ---------------------------------------------------------- EAP-Message

  /** A fragment octet by octet: the flags, the total length on the first, then at most a thousand octets of data. */
  lemma FragmentOctets(id: byte, tls: bytes, offset: nat)
    requires offset <= |tls|
    ensures var n := if |tls| - offset > 1000 then 1000 else |tls| - offset;
            var flags: byte := (if |tls| - offset > 1000 then 0x40 else 0) + (if offset == 0 then 0x80 else 0);
            FragmentPacket(id, tls, offset) ==
            EapPacket(1, id, 13, [flags] + (if offset == 0 then PutU32(|tls|) else []) + tls[offset..offset + n])
    ensures EncodeEap(AckPacket(id)) == [1, id, 0, 6, 13, 0]
  {
  }

  /** An EAP packet cut into EAP-Message attributes of at most 253 octets. */
  function Chunks(eap: bytes): (attrs: seq<Attribute>)
    ensures forall a :: a in attrs ==> a.typ == EAP_MESSAGE && 0 < |a.value| <= MAX_VALUE
  {
    if eap == [] then []
    else
      var n := if |eap| > MAX_VALUE then MAX_VALUE else |eap|;
      [Attribute(EAP_MESSAGE, eap[..n])] + Chunks(eap[n..])
  }

  function EapMessage(attrs: seq<Attribute>): bytes { Flatten(All(attrs, EAP_MESSAGE)) }

  lemma {:induction false} AllChunks(eap: bytes, typ: byte)
    ensures typ == EAP_MESSAGE ==> Flatten(All(Chunks(eap), typ)) == eap
    ensures typ != EAP_MESSAGE ==> All(Chunks(eap), typ) == []
    ensures |AttributesBytes(Chunks(eap))| <= 3 * |eap|
  {
    if eap == [] {
    } else {
      var n := if |eap| > MAX_VALUE then MAX_VALUE else |eap|;
      AllChunks(eap[n..], typ);
      assert Chunks(eap)[1..] == Chunks(eap[n..]);
      assert eap == eap[..n] + eap[n..];
      if typ == EAP_MESSAGE {
        assert All(Chunks(eap), typ)[1..] == All(Chunks(eap[n..]), typ);
      }
    }
  }

  /** Appending an EAP packet and collecting it back, among any other attributes. */
  lemma CollectAdded(before: seq<Attribute>, eap: bytes, after: seq<Attribute>)
    requires All(before, EAP_MESSAGE) == [] && All(after, EAP_MESSAGE) == []
    ensures EapMessage(before + Chunks(eap) + after) == eap
  {
    AllConcat(before + Chunks(eap), after, EAP_MESSAGE);
    AllConcat(before, Chunks(eap), EAP_MESSAGE);
    AllChunks(eap, EAP_MESSAGE);
    var vs := All(Chunks(eap), EAP_MESSAGE);
    assert [] + vs + [] == vs;
  }

  method AddEapMessage(p: Response, eap: bytes)
    modifies p`attrs
    ensures p.attrs == old(p.attrs) + Chunks(eap)
  {
    var rest := eap;
    assert p.attrs + Chunks(eap) == old(p.attrs) + Chunks(eap);
    while |rest| > 0
      invariant p.attrs + Chunks(rest) == old(p.attrs) + Chunks(eap)
    {
      var n := |rest|;
      if n > MAX_VALUE {
        n := MAX_VALUE;
      }
      Assoc(p.attrs, [Attribute(EAP_MESSAGE, rest[..n])], Chunks(rest[n..]));
      p.Add(EAP_MESSAGE, rest[..n]);
      rest := rest[n..];
    }
    assert p.attrs + [] == p.attrs;
  }

  method CollectEapMessage(p: Packet) returns (out: bytes)
    ensures out == EapMessage(p.attrs)
  {
    out := [];
    var vs := CollectAll(p.attrs, EAP_MESSAGE);
    for k := 0 to |vs|
      invariant out == Flatten(vs[..k])
    {
      assert vs[..k + 1] == vs[..k] + [vs[k]];
      FlattenSnoc(vs[..k], vs[k]);
      out := out + vs[k];
    }
    assert vs[..|vs|] == vs;
  }
}
