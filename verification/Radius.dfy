/** The RADIUS packet format (sections 3 and 5 of RFC 2865) and its framing on a TLS stream. */
module Radius {
  import opened Wire

  const ACCESS_REQUEST: byte := 1
  const ACCESS_ACCEPT: byte := 2
  const ACCESS_REJECT: byte := 3
  const ACCESS_CHALLENGE: byte := 11

  const USER_NAME: byte := 1
  const FILTER_ID: byte := 11
  const REPLY_MESSAGE: byte := 18
  const STATE: byte := 24
  const VENDOR_SPECIFIC: byte := 26
  const SESSION_TIMEOUT: byte := 27
  const CALLING_STATION_ID: byte := 31
  const NAS_IDENTIFIER: byte := 32
  const TUNNEL_TYPE: byte := 64
  const TUNNEL_MEDIUM_TYPE: byte := 65
  const EAP_MESSAGE: byte := 79
  const MESSAGE_AUTHENTICATOR: byte := 80
  const TUNNEL_PRIVATE_GROUP: byte := 81

  const HEADER := 20
  const MAX_VALUE := 253
  const MAX_PACKET := 65535

  datatype Attribute = Attribute(typ: byte, value: bytes)

  datatype Packet = Packet(code: byte, id: byte, auth: Block, attrs: seq<Attribute>)

  datatype ParseError = ShortPacket | BadLength | BadAttributeLength

  // ---------------------------------------------------------------- format

  /** One attribute on the wire; the length octet is truncated to 8 bits as the encoder does. */
  function AttributeBytes(a: Attribute): (b: bytes)
    ensures |b| == 2 + |a.value|
  {
    [a.typ, (2 + |a.value|) % 256] + a.value
  }

  function AttributesBytes(attrs: seq<Attribute>): (b: bytes)
  {
    if attrs == [] then [] else AttributeBytes(attrs[0]) + AttributesBytes(attrs[1..])
  }

  /** The header with the Length field for a packet of `total` octets. */
  function HeaderBytes(p: Packet, total: nat): (b: bytes)
    ensures |b| == HEADER
  {
    [p.code, p.id] + PutU16(total) + p.auth
  }

  function Size(p: Packet): (n: nat)
    ensures n >= HEADER
  {
    HEADER + |AttributesBytes(p.attrs)|
  }

  function Encode(p: Packet): (b: bytes)
    ensures |b| == Size(p)
  {
    HeaderBytes(p, Size(p)) + AttributesBytes(p.attrs)
  }

  function ParseAttributes(s: bytes): (r: Result<seq<Attribute>, ParseError>)
  {
    if s == [] then Ok([])
    else if |s| < 2 then Err(ShortPacket)
    else if s[1] < 2 || s[1] > |s| then Err(BadAttributeLength)
    else
      match ParseAttributes(s[s[1]..])
      case Ok(rest) => Ok([Attribute(s[0], s[2..s[1]])] + rest)
      case Err(e) => Err(e)
  }

  function Parse(b: bytes): (r: Result<Packet, ParseError>)
  {
    if |b| < HEADER then Err(ShortPacket)
    else
      var length := GetU16(b[2..4]);
      if length < HEADER || length > |b| then Err(BadLength)
      else
        match ParseAttributes(b[HEADER..length])
        case Ok(attrs) => Ok(Packet(b[0], b[1], b[4..HEADER], attrs))
        case Err(e) => Err(e)
  }

  /** The packets a 16-bit Length field and 8-bit attribute lengths can represent. */
  predicate Representable(p: Packet) {
    && (forall i :: 0 <= i < |p.attrs| ==> |p.attrs[i].value| <= MAX_VALUE)
    && Size(p) <= MAX_PACKET
  }

  // ------------------------------------------------------- the codec inverts

  lemma {:induction false} ParseAttributesBytes(attrs: seq<Attribute>)
    requires forall i :: 0 <= i < |attrs| ==> |attrs[i].value| <= MAX_VALUE
    ensures ParseAttributes(AttributesBytes(attrs)) == Ok(attrs)
  {
    if attrs == [] {
    } else {
      ParseAttributesBytes(attrs[1..]);
      var s, n := AttributesBytes(attrs), 2 + |attrs[0].value|;
      assert s[1] == n;
      assert s[n..] == AttributesBytes(attrs[1..]);
      assert s[2..n] == attrs[0].value;
      assert [attrs[0]] + attrs[1..] == attrs;
    }
  }

  /** The first attribute of a list that parses, and the rest. */
  lemma ParseHead(s: bytes)
    requires s != [] && ParseAttributes(s).Ok?
    ensures |s| >= 2 && 2 <= s[1] <= |s| && ParseAttributes(s[s[1]..]).Ok?
    ensures var a := Attribute(s[0], s[2..s[1]]);
            && |a.value| <= MAX_VALUE
            && AttributeBytes(a) == s[..s[1]]
            && ParseAttributes(s).value == [a] + ParseAttributes(s[s[1]..]).value
  {
  }

  lemma {:induction false} AttributesBytesParse(s: bytes)
    requires ParseAttributes(s).Ok?
    ensures AttributesBytes(ParseAttributes(s).value) == s
    ensures forall a :: a in ParseAttributes(s).value ==> |a.value| <= MAX_VALUE
    decreases |s|
  {
    if s == [] {
    } else {
      ParseHead(s);
      hide ParseAttributes, AttributeBytes;
      AttributesBytesParse(s[s[1]..]);
      var a, rest := Attribute(s[0], s[2..s[1]]), ParseAttributes(s[s[1]..]).value;
      assert ([a] + rest)[1..] == rest;
    }
  }

  /** Encoding what was parsed gives back exactly the octets the Length field covers. */
  lemma EncodeParse(b: bytes)
    requires Parse(b).Ok?
    ensures Representable(Parse(b).value)
    ensures Size(Parse(b).value) == GetU16(b[2..4]) <= |b|
    ensures Encode(Parse(b).value) == b[..GetU16(b[2..4])]
  {
    var length := GetU16(b[2..4]);
    AttributesBytesParse(b[HEADER..length]);
    PutGetU16(b[2..4]);
    var p := Parse(b).value;
    assert Size(p) == length;
    assert HeaderBytes(p, length) == b[..HEADER] by {
      assert b[..HEADER] == [b[0], b[1]] + b[2..4] + b[4..HEADER];
    }
    assert b[..length] == b[..HEADER] + b[HEADER..length];
  }

  /** Parsing an encoded packet, whatever follows it in the buffer, gives the packet back. */
  lemma ParseEncode(p: Packet, tail: bytes)
    requires Representable(p)
    ensures Parse(Encode(p) + tail) == Ok(p)
  {
    var b := Encode(p) + tail;
    assert b[2..4] == PutU16(Size(p));
    assert b[HEADER..Size(p)] == AttributesBytes(p.attrs);
    assert b[4..HEADER] == p.auth;
    ParseAttributesBytes(p.attrs);
  }

  /** The round trip holds for exactly the representable packets. */
  lemma RoundTripIff(p: Packet)
    ensures Parse(Encode(p)) == Ok(p) <==> Representable(p)
    ensures Representable(p) <==>
            (forall i :: 0 <= i < |p.attrs| ==> |p.attrs[i].value| <= 253) && 20 + |AttributesBytes(p.attrs)| < 0x1_0000
  {
    if Representable(p) {
      ParseEncode(p, []);
      assert Encode(p) + [] == Encode(p);
    }
    if Parse(Encode(p)) == Ok(p) {
      EncodeParse(Encode(p));
    }
  }

  /** A value of 254 octets wraps the length octet to 0 and the packet no longer parses. */
  lemma OversizedValueIsLost(auth: Block, value: bytes)
    requires |value| == 254
    ensures Parse(Encode(Packet(ACCESS_ACCEPT, 0, auth, [Attribute(USER_NAME, value)]))) == Err(BadAttributeLength)
  {
    var p := Packet(ACCESS_ACCEPT, 0, auth, [Attribute(USER_NAME, value)]);
    var b := Encode(p);
    assert p.attrs[1..] == [];
    assert AttributesBytes(p.attrs) == AttributeBytes(p.attrs[0]) + [];
    assert b[2..4] == PutU16(Size(p));
    assert b[HEADER..Size(p)] == AttributeBytes(p.attrs[0]);
  }

  /** Where an attribute list stops making sense: a lone octet is short, a length that does not fit is bad. */
  lemma {:induction false} ParseStops(attrs: seq<Attribute>, rest: bytes)
    requires forall i :: 0 <= i < |attrs| ==> |attrs[i].value| <= MAX_VALUE
    ensures |rest| == 1 ==> ParseAttributes(AttributesBytes(attrs) + rest) == Err(ShortPacket)
    ensures |rest| >= 2 && (rest[1] < 2 || rest[1] > |rest|) ==>
              ParseAttributes(AttributesBytes(attrs) + rest) == Err(BadAttributeLength)
  {
    if attrs == [] {
      assert AttributesBytes(attrs) + rest == rest;
    } else {
      ParseStops(attrs[1..], rest);
      var s, n := AttributesBytes(attrs) + rest, 2 + |attrs[0].value|;
      assert s[1] == n;
      assert s[n..] == AttributesBytes(attrs[1..]) + rest;
    }
  }

  /** The header errors: fewer than twenty octets, or a Length field outside the packet. */
  lemma HeaderErrors(b: bytes)
    ensures |b| < 20 ==> Parse(b) == Err(ShortPacket)
    ensures |b| >= 20 ==> (Parse(b) == Err(BadLength) <==> GetU16(b[2..4]) < 20 || GetU16(b[2..4]) > |b|)
  {
    if |b| >= 20 && 20 <= GetU16(b[2..4]) <= |b| {
      AttributeErrors(b[HEADER..GetU16(b[2..4])]);
    }
  }

  lemma {:induction false} AttributeErrors(s: bytes)
    ensures ParseAttributes(s) != Err(BadLength)
    decreases |s|
  {
    if |s| >= 2 && 2 <= s[1] <= |s| {
      AttributeErrors(s[s[1]..]);
    }
  }

  lemma {:induction false} AttributesBytesConcat(xs: seq<Attribute>, ys: seq<Attribute>)
    ensures AttributesBytes(xs + ys) == AttributesBytes(xs) + AttributesBytes(ys)
  {
    if xs == [] {
      assert xs + ys == ys;
    } else {
      AttributesBytesConcat(xs[1..], ys);
      assert (xs + ys)[1..] == xs[1..] + ys;
      Assoc(AttributeBytes(xs[0]), AttributesBytes(xs[1..]), AttributesBytes(ys));
    }
  }

  // ---------------------------------------------------------- the two loops

  /** A parse result with attributes already read put in front. */
  function Prefixed(attrs: seq<Attribute>, r: Result<seq<Attribute>, ParseError>): Result<seq<Attribute>, ParseError>
  {
    match r
    case Ok(rest) => Ok(attrs + rest)
    case Err(e) => Err(e)
  }

  /** One round of the attribute loop at offset i. */
  lemma ParseStep(b: bytes, i: nat, length: nat, attrs: seq<Attribute>)
    requires i < length <= |b|
    ensures Prefixed(attrs, ParseAttributes(b[i..length])) ==
            if i + 2 > length then Err(ShortPacket)
            else if b[i + 1] < 2 || i + b[i + 1] > length then Err(BadAttributeLength)
            else Prefixed(attrs + [Attribute(b[i], b[i + 2..i + b[i + 1]])], ParseAttributes(b[i + b[i + 1]..length]))
  {
    var s := b[i..length];
    if i + 2 <= length && b[i + 1] >= 2 && i + b[i + 1] <= length {
      var alen: int := b[i + 1];
      var a := Attribute(b[i], b[i + 2..i + alen]);
      assert s[0] == b[i] && s[1] == alen;
      assert s[alen..] == b[i + alen..length];
      SliceOfSlice(b, i, length, 2, alen);
      var rest := ParseAttributes(s[alen..]);
      if rest.Ok? {
        Assoc(attrs, [a], rest.value);
      }
    }
  }

  lemma ParseEnd(b: bytes, length: nat, attrs: seq<Attribute>)
    requires length <= |b|
    ensures Prefixed(attrs, ParseAttributes(b[length..length])) == Ok(attrs)
  {
    assert attrs + [] == attrs;
  }

  method ParsePacket(b: bytes) returns (r: Result<Packet, ParseError>)
    ensures r == Parse(b)
  {
    hide ParseAttributes;
    if |b| < HEADER {
      return Err(ShortPacket);
    }
    var length := GetU16(b[2..4]);
    if length < HEADER || length > |b| {
      return Err(BadLength);
    }
    var attrs: seq<Attribute> := [];
    var i := HEADER;
    ghost var goal := ParseAttributes(b[HEADER..length]);
    assert goal.Ok? ==> attrs + goal.value == goal.value;
    while i < length
      invariant HEADER <= i <= length
      invariant goal == Prefixed(attrs, ParseAttributes(b[i..length]))
    {
      ParseStep(b, i, length, attrs);
      if i + 2 > length {
        return Err(ShortPacket);
      }
      var atype, alen := b[i], b[i + 1];
      if alen < 2 || i + alen > length {
        return Err(BadAttributeLength);
      }
      attrs := attrs + [Attribute(atype, b[i + 2..i + alen])];
      i := i + alen;
    }
    ParseEnd(b, length, attrs);
    r := Ok(Packet(b[0], b[1], b[4..HEADER], attrs));
  }

  /** `copy(out[at:], v)`, for a destination with room for all of v. */
  method CopyInto(out: array<byte>, at: nat, v: bytes)
    requires at + |v| <= out.Length
    modifies out
    ensures out[..at + |v|] == old(out[..at]) + v
  {
    forall j | 0 <= j < |v| { out[at + j] := v[j]; }
    assert out[..at + |v|] == out[..at] + out[at..at + |v|];
  }

  method EncodedSize(p: Packet) returns (total: nat)
    ensures total == Size(p)
  {
    total := HEADER;
    for k := 0 to |p.attrs|
      invariant total == HEADER + |AttributesBytes(p.attrs[..k])|
    {
      AttributesBytesSnoc(p.attrs, k);
      total := total + 2 + |p.attrs[k].value|;
    }
    assert p.attrs[..|p.attrs|] == p.attrs;
  }

  method WriteAttribute(out: array<byte>, at: nat, a: Attribute) returns (next: nat)
    requires at + 2 + |a.value| <= out.Length
    modifies out
    ensures next == at + 2 + |a.value|
    ensures out[..next] == old(out[..at]) + AttributeBytes(a)
  {
    CopyInto(out, at, [a.typ, (2 + |a.value|) % 256]);
    CopyInto(out, at + 2, a.value);
    next := at + 2 + |a.value|;
  }

  method EncodePacket(p: Packet) returns (b: bytes)
    ensures b == Encode(p)
  {
    var total := EncodedSize(p);
    var out := new byte[total](_ => 0);
    var hdr := HeaderBytes(p, total);
    CopyInto(out, 0, hdr);
    var i := HEADER;
    assert out[..i] == hdr + AttributesBytes(p.attrs[..0]) by { assert out[..0] + hdr == hdr; }
    for k := 0 to |p.attrs|
      invariant i == HEADER + |AttributesBytes(p.attrs[..k])| <= total
      invariant out[..i] == hdr + AttributesBytes(p.attrs[..k])
    {
      var a := p.attrs[k];
      AttributesBytesSplit(p.attrs, k);
      i := WriteAttribute(out, i, a);
      AppendAttribute(hdr, p.attrs, k);
    }
    assert p.attrs[..|p.attrs|] == p.attrs;
    b := out[..];
    assert b == out[..i];
  }

  lemma AppendAttribute(hdr: bytes, attrs: seq<Attribute>, k: nat)
    requires k < |attrs|
    ensures hdr + AttributesBytes(attrs[..k]) + AttributeBytes(attrs[k]) == hdr + AttributesBytes(attrs[..k + 1])
  {
    AttributesBytesSnoc(attrs, k);
  }

  lemma AttributesBytesSplit(attrs: seq<Attribute>, k: nat)
    requires k < |attrs|
    ensures |AttributesBytes(attrs[..k + 1])| == |AttributesBytes(attrs[..k])| + 2 + |attrs[k].value|
    ensures |AttributesBytes(attrs[..k + 1])| <= |AttributesBytes(attrs)|
  {
    AttributesBytesSnoc(attrs, k);
    AttributesBytesConcat(attrs[..k + 1], attrs[k + 1..]);
    assert attrs == attrs[..k + 1] + attrs[k + 1..];
  }

  lemma AttributesBytesSnoc(attrs: seq<Attribute>, k: nat)
    requires k < |attrs|
    ensures AttributesBytes(attrs[..k + 1]) == AttributesBytes(attrs[..k]) + AttributeBytes(attrs[k])
  {
    assert attrs[..k + 1] == attrs[..k] + [attrs[k]];
    AttributesBytesConcat(attrs[..k], [attrs[k]]);
    assert AttributesBytes([attrs[k]]) == AttributeBytes(attrs[k]) + AttributesBytes([][..]);
  }

  // ------------------------------------------------------ attribute look-up

  /** The values of all attributes of one type, in packet order. */
  function All(attrs: seq<Attribute>, typ: byte): (r: seq<bytes>)
  {
    if attrs == [] then []
    else (if attrs[0].typ == typ then [attrs[0].value] else []) + All(attrs[1..], typ)
  }

  /** The first value of a type; the empty value when there is none. */
  function First(attrs: seq<Attribute>, typ: byte): (r: bytes)
  {
    var vs := All(attrs, typ);
    if vs == [] then [] else vs[0]
  }

  lemma {:induction false} AllConcat(xs: seq<Attribute>, ys: seq<Attribute>, typ: byte)
    ensures All(xs + ys, typ) == All(xs, typ) + All(ys, typ)
  {
    if xs == [] {
      assert xs + ys == ys;
    } else {
      AllConcat(xs[1..], ys, typ);
      assert (xs + ys)[1..] == xs[1..] + ys;
      Assoc(if xs[0].typ == typ then [xs[0].value] else [], All(xs[1..], typ), All(ys, typ));
    }
  }

  lemma AllSingle(a: Attribute, typ: byte)
    ensures All([a], typ) == if a.typ == typ then [a.value] else []
  {
    assert All([a][1..], typ) == [];
  }

  method FindFirst(attrs: seq<Attribute>, typ: byte) returns (r: bytes)
    ensures r == First(attrs, typ)
  {
    for k := 0 to |attrs|
      invariant All(attrs, typ) == All(attrs[k..], typ)
    {
      assert attrs[k..][1..] == attrs[k + 1..];
      if attrs[k].typ == typ {
        return attrs[k].value;
      }
    }
    r := [];
  }

  method CollectAll(attrs: seq<Attribute>, typ: byte) returns (r: seq<bytes>)
    ensures r == All(attrs, typ)
  {
    r := [];
    for k := 0 to |attrs|
      invariant r == All(attrs[..k], typ)
    {
      assert attrs[..k + 1] == attrs[..k] + [attrs[k]];
      AllConcat(attrs[..k], [attrs[k]], typ);
      AllSingle(attrs[k], typ);
      if attrs[k].typ == typ {
        r := r + [attrs[k].value];
      }
    }
    assert attrs[..|attrs|] == attrs;
  }

  // ---------------------------------------------------------------- framing

  datatype ReadError = EndOfStream | UnexpectedEnd | IllegalLength

  /** One frame taken off a stream: the frame and what is left, or why none can be taken. */
  function TakeFrame(s: bytes): (r: Result<(bytes, bytes), ReadError>)
    ensures r.Ok? ==> s == r.value.0 + r.value.1 && |r.value.0| >= HEADER
  {
    if s == [] then Err(EndOfStream)
    else if |s| < HEADER then Err(UnexpectedEnd)
    else
      var length := GetU16(s[2..4]);
      if length < HEADER then Err(IllegalLength)
      else if length > HEADER && |s| == HEADER then Err(EndOfStream)
      else if length > |s| then Err(UnexpectedEnd)
      else Ok((s[..length], s[length..]))
  }

  /** All the frames a connection loop takes off a stream before its first read error. */
  function Frames(s: bytes): (fs: seq<bytes>)
    decreases |s|
  {
    match TakeFrame(s)
    case Ok((frame, rest)) => [frame] + Frames(rest)
    case Err(_) => []
  }

  function EncodeAll(ps: seq<Packet>): (r: seq<bytes>)
    ensures |r| == |ps|
    ensures forall i :: 0 <= i < |ps| ==> r[i] == Encode(ps[i])
  {
    seq(|ps|, i requires 0 <= i < |ps| => Encode(ps[i]))
  }

  lemma TakeFrameOfPacket(p: Packet, rest: bytes)
    requires Representable(p)
    ensures TakeFrame(Encode(p) + rest) == Ok((Encode(p), rest))
  {
    var s := Encode(p) + rest;
    assert s[2..4] == PutU16(Size(p));
    assert s[..Size(p)] == Encode(p) && s[Size(p)..] == rest;
  }

  /**
   * A connection that breaks off inside a packet. Breaking off just after the header looks like a clean
   * end, as it does between packets; anywhere else it is an unexpected end.
   */
  lemma CutFrame(p: Packet, n: nat)
    requires Representable(p) && n < Size(p)
    ensures TakeFrame(Encode(p)[..n]) == Err(if n == 0 || n == 20 then EndOfStream else UnexpectedEnd)
  {
    if n >= 20 {
      assert Encode(p)[..n][2..4] == Encode(p)[2..4] == PutU16(Size(p));
    }
  }

  /** A Length field below twenty is illegal whatever follows. */
  lemma IllegalFrame(s: bytes)
    requires |s| >= 20 && GetU16(s[2..4]) < 20
    ensures TakeFrame(s) == Err(IllegalLength)
  {
  }

  /** Framing is exact: any concatenation of packets is cut back into just those packets. */
  lemma {:induction false} FramesOfPackets(ps: seq<Packet>)
    requires forall i :: 0 <= i < |ps| ==> Representable(ps[i])
    ensures Frames(Flatten(EncodeAll(ps))) == EncodeAll(ps)
    ensures forall i :: 0 <= i < |ps| ==> Parse(Frames(Flatten(EncodeAll(ps)))[i]) == Ok(ps[i])
  {
    if ps == [] {
    } else {
      FramesOfPackets(ps[1..]);
      assert EncodeAll(ps)[1..] == EncodeAll(ps[1..]);
      TakeFrameOfPacket(ps[0], Flatten(EncodeAll(ps[1..])));
      forall i | 0 <= i < |ps| ensures Parse(Encode(ps[i])) == Ok(ps[i]) {
        RoundTripIff(ps[i]);
      }
    }
  }

  /** What is left of a stream when the loop meets its first read error. */
  function Unframed(s: bytes): (r: bytes)
    ensures TakeFrame(r).Err?
    decreases |s|
  {
    match TakeFrame(s)
    case Ok((_, rest)) => Unframed(rest)
    case Err(_) => s
  }

  lemma FrameHasItsLength(s: bytes)
    requires TakeFrame(s).Ok?
    ensures GetU16(TakeFrame(s).value.0[2..4]) == |TakeFrame(s).value.0|
  {
    assert TakeFrame(s).value.0[2..4] == s[2..4];
  }

  /** On any stream no octet is lost or reordered, and every frame has the length it declares. */
  lemma {:induction false} FramesConserve(s: bytes)
    ensures s == Flatten(Frames(s)) + Unframed(s)
    ensures forall f :: f in Frames(s) ==> |f| >= HEADER && GetU16(f[2..4]) == |f|
    decreases |s|
  {
    if TakeFrame(s).Ok? {
      var (frame, rest) := TakeFrame(s).value;
      FramesConserve(rest);
      FrameHasItsLength(s);
      assert Frames(s)[1..] == Frames(rest);
      Assoc(frame, Flatten(Frames(rest)), Unframed(rest));
    }
  }

  /** The octet stream of one proxy connection, read with `io.ReadFull`. */
  class Stream {
    var data: bytes

    constructor (data: bytes)
      ensures this.data == data
    {
      this.data := data;
    }

    /** Reads exactly n octets; a failing read consumes whatever was there. */
    method ReadFull(n: nat) returns (r: Result<bytes, ReadError>)
      requires n > 0
      modifies this
      ensures |old(data)| >= n ==> r == Ok(old(data)[..n]) && data == old(data)[n..]
      ensures |old(data)| < n ==>
                r == Err(if old(data) == [] then EndOfStream else UnexpectedEnd) && data == []
    {
      if |data| >= n {
        r := Ok(data[..n]);
        data := data[n..];
      } else {
        r := Err(if data == [] then EndOfStream else UnexpectedEnd);
        data := [];
      }
    }

    /** Reads one packet by its Length field. */
    method ReadRadius() returns (r: Result<bytes, ReadError>)
      modifies this
      ensures match TakeFrame(old(data))
              case Ok((frame, rest)) => r == Ok(frame) && data == rest
              case Err(e) => r == Err(e)
    {
      ghost var s := data;
      var hdr := ReadFull(HEADER);
      if hdr.Err? {
        return hdr;
      }
      var length := GetU16(hdr.value[2..4]);
      assert hdr.value[2..4] == s[2..4];
      if length < HEADER || length > MAX_PACKET {
        return Err(IllegalLength);
      }
      var buf := hdr.value;
      if length > HEADER {
        var body := ReadFull(length - HEADER);
        if body.Err? {
          return body;
        }
        buf := buf + body.value;
        assert buf == s[..length];
        assert data == s[length..];
      }
      r := Ok(buf);
    }

    /** The read loop of one connection up to its first read error. */
    method ReadAll() returns (fs: seq<bytes>)
      modifies this
      ensures fs == Frames(old(data))
    {
      fs := [];
      while true
        invariant Frames(old(data)) == fs + Frames(data)
        decreases |data|
      {
        ghost var s := data;
        var r := ReadRadius();
        if r.Err? {
          assert fs + [] == fs;
          return;
        }
        assert Frames(s) == [r.value] + Frames(data);
        fs := fs + [r.value];
      }
    }
  }
}
