/** Message-Authenticator (section 3.2 of RFC 3579) and Response-Authenticator (section 3 of RFC 2865). */
module Signature {
  import opened Wire
  import opened Radius

  /** The fixed shared secret "radsec" of section 2.3 of RFC 6614. */
  const SECRET: bytes := [114, 97, 100, 115, 101, 99]

  /** An attribute with v as its value if it is a Message-Authenticator. */
  function Fill(a: Attribute, v: bytes): Attribute {
    if a.typ == MESSAGE_AUTHENTICATOR then a.(value := v) else a
  }

  /** Every Message-Authenticator value replaced by v. */
  function WithMac(attrs: seq<Attribute>, v: bytes): (r: seq<Attribute>)
    ensures |r| == |attrs|
    ensures forall i :: 0 <= i < |r| ==> r[i] == Fill(attrs[i], v)
  {
    seq(|attrs|, i requires 0 <= i < |attrs| => Fill(attrs[i], v))
  }

  /** Only the first Message-Authenticator value replaced by v. */
  function WithFirstMac(attrs: seq<Attribute>, v: bytes): (r: seq<Attribute>)
    ensures |r| == |attrs|
  {
    if attrs == [] then []
    else if attrs[0].typ == MESSAGE_AUTHENTICATOR then [attrs[0].(value := v)] + attrs[1..]
    else [attrs[0]] + WithFirstMac(attrs[1..], v)
  }

  function MacCount(attrs: seq<Attribute>): nat { |All(attrs, MESSAGE_AUTHENTICATOR)| }

  /** The packet the Message-Authenticator is computed over. */
  function MacInput(p: Packet, requestAuth: Block): Packet {
    p.(auth := requestAuth, attrs := WithMac(p.attrs, ZERO_BLOCK))
  }

  function Mac(c: Crypto, p: Packet, requestAuth: Block): Block {
    c.Hmac(SECRET, Encode(MacInput(p, requestAuth)))
  }

  /** The packet the Response-Authenticator is computed over. */
  function Maced(c: Crypto, p: Packet, requestAuth: Block): Packet {
    p.(auth := requestAuth, attrs := WithMac(p.attrs, Mac(c, p, requestAuth)))
  }

  /** The signed response. */
  function Signed(c: Crypto, p: Packet, requestAuth: Block): Packet {
    var m := Maced(c, p, requestAuth);
    m.(auth := c.Md5(Encode(m) + SECRET))
  }

  /** Offset in the packet of the first Message-Authenticator's value, or None. */
  function MacOffset(attrs: seq<Attribute>, at: nat): (r: Option<nat>)
  {
    if attrs == [] then None
    else if attrs[0].typ == MESSAGE_AUTHENTICATOR then Some(at + 2)
    else MacOffset(attrs[1..], at + 2 + |attrs[0].value|)
  }

  /** The slice of the raw packet the verifier reads lies inside it. */
  predicate MacInBounds(p: Packet, raw: bytes) {
    var off := MacOffset(p.attrs, HEADER);
    off.Some? ==> off.value + 16 <= |raw|
  }

  function Splice(b: bytes, at: nat, v: bytes): (r: bytes)
    requires at + |v| <= |b|
    ensures |r| == |b|
  {
    b[..at] + v + b[at + |v|..]
  }

  predicate Verified(c: Crypto, p: Packet, raw: bytes)
    requires MacInBounds(p, raw)
  {
    var off := MacOffset(p.attrs, HEADER);
    off.Some? ==> c.Hmac(SECRET, Splice(raw, off.value, ZERO_BLOCK)) == raw[off.value..off.value + 16]
  }

  /** A signed response with the request's authenticator put back, as the receiver of it checks. */
  function Restored(out: bytes, requestAuth: Block): (r: bytes)
    requires |out| >= HEADER
    ensures |r| == |out|
  {
    Splice(out, 4, requestAuth)
  }

  // ---------------------------------------------------------------- facts

  lemma EncodeSetAuth(p: Packet, a: Block)
    ensures Splice(Encode(p), 4, a) == Encode(p.(auth := a))
  {
    var b, s := AttributesBytes(p.attrs), Encode(p);
    assert s[..4] == [p.code, p.id] + PutU16(Size(p));
    assert s[20..] == b;
  }

  lemma {:induction false} MacCountOf(attrs: seq<Attribute>, v: bytes)
    ensures MacCount(WithMac(attrs, v)) == MacCount(attrs)
    ensures MacCount(attrs) == 0 <==> forall a :: a in attrs ==> a.typ != MESSAGE_AUTHENTICATOR
    ensures forall x :: x in All(WithMac(attrs, v), MESSAGE_AUTHENTICATOR) ==> x == v
  {
    if attrs == [] {
    } else {
      MacCountOf(attrs[1..], v);
      assert WithMac(attrs, v)[1..] == WithMac(attrs[1..], v);
      assert attrs == [attrs[0]] + attrs[1..];
    }
  }

  lemma {:induction false} SingleMac(attrs: seq<Attribute>, v: bytes, w: bytes)
    requires MacCount(attrs) == 1
    ensures WithFirstMac(WithMac(attrs, v), w) == WithMac(attrs, w)
  {
    var rest := attrs[1..];
    assert WithMac(attrs, v)[1..] == WithMac(rest, v);
    if attrs[0].typ == MESSAGE_AUTHENTICATOR {
      MacCountOf(rest, v);
    } else {
      SingleMac(rest, v, w);
    }
  }

  lemma {:induction false} SameSize(xs: seq<Attribute>, ys: seq<Attribute>)
    requires |xs| == |ys|
    requires forall i :: 0 <= i < |xs| ==> |xs[i].value| == |ys[i].value|
    ensures |AttributesBytes(xs)| == |AttributesBytes(ys)|
  {
    if xs == [] {
    } else {
      SameSize(xs[1..], ys[1..]);
    }
  }

  lemma SpliceMacHere(attrs: seq<Attribute>, w: Block, hdr: bytes)
    requires attrs != [] && attrs[0].typ == MESSAGE_AUTHENTICATOR && |attrs[0].value| == 16
    ensures var whole, off := hdr + AttributesBytes(attrs), |hdr| + 2;
            && off + 16 <= |whole|
            && whole[off..off + 16] == attrs[0].value
            && Splice(whole, off, w) == hdr + AttributesBytes(WithFirstMac(attrs, w))
  {
    var a, rest := attrs[0], attrs[1..];
    assert attrs == [a] + rest && WithFirstMac(attrs, w) == [a.(value := w)] + rest;
    hide AttributesBytes, WithFirstMac, Splice;
    BlockAttribute(a, rest);
    BlockAttribute(a.(value := w), rest);
    Regroup(hdr, [a.typ, 18], a.value, w, AttributesBytes(rest));
  }

  lemma BlockAttribute(a: Attribute, rest: seq<Attribute>)
    requires |a.value| == 16
    ensures AttributesBytes([a] + rest) == ([a.typ, 18] + a.value) + AttributesBytes(rest)
  {
    assert ([a] + rest)[1..] == rest;
    assert AttributeBytes(a) == [a.typ, 18] + a.value;
  }

  lemma Regroup(h: bytes, x: bytes, y: bytes, w: bytes, z: bytes)
    requires |y| == |w|
    ensures var whole := h + ((x + y) + z);
            && whole[|h| + |x|..|h| + |x| + |w|] == y
            && Splice(whole, |h| + |x|, w) == h + ((x + w) + z)
  {
    assert h + ((x + y) + z) == (h + x) + y + z;
    assert h + ((x + w) + z) == (h + x) + w + z;
    SpliceMiddle(h + x, y, z, w);
  }

  lemma SpliceMiddle(x: bytes, y: bytes, z: bytes, w: bytes)
    requires |y| == |w|
    ensures (x + y + z)[|x|..|x| + |w|] == y
    ensures Splice(x + y + z, |x|, w) == x + w + z
  {
    assert (x + y + z)[|x| + |w|..] == z;
  }

  /** Clearing the octets at the computed offset clears just the first Message-Authenticator. */
  lemma {:induction false} SpliceMac(attrs: seq<Attribute>, w: Block, hdr: bytes)
    requires forall a :: a in attrs && a.typ == MESSAGE_AUTHENTICATOR ==> |a.value| == 16
    requires MacCount(attrs) > 0
    ensures var whole, found := hdr + AttributesBytes(attrs), MacOffset(attrs, |hdr|);
            && found.Some?
            && found.value + 16 <= |whole|
            && whole[found.value..found.value + 16] == All(attrs, MESSAGE_AUTHENTICATOR)[0]
            && Splice(whole, found.value, w) == hdr + AttributesBytes(WithFirstMac(attrs, w))
  {
    if attrs[0].typ == MESSAGE_AUTHENTICATOR {
      SpliceMacHere(attrs, w, hdr);
    } else {
      var hdr' := hdr + AttributeBytes(attrs[0]);
      SpliceMac(attrs[1..], w, hdr');
      Assoc(hdr, AttributeBytes(attrs[0]), AttributesBytes(attrs[1..]));
      var b := WithFirstMac(attrs, w);
      assert b[0] == attrs[0] && b[1..] == WithFirstMac(attrs[1..], w);
      Assoc(hdr, AttributeBytes(attrs[0]), AttributesBytes(b[1..]));
    }
  }

  lemma {:induction false} NoMacOffset(attrs: seq<Attribute>, at: nat)
    requires MacCount(attrs) == 0
    ensures MacOffset(attrs, at).None?
  {
    if attrs == [] {
    } else {
      NoMacOffset(attrs[1..], at + 2 + |attrs[0].value|);
    }
  }

  /**
   * What the receiver of a signed response recomputes: the restored packet is the one that was
   * hashed, its check looks at the value that was written, and hashes the packet with only the
   * first Message-Authenticator cleared.
   */
  lemma VerifiedRestored(c: Crypto, p: Packet, requestAuth: Block)
    ensures var s := Signed(c, p, requestAuth);
            var restored := Restored(Encode(s), requestAuth);
            && restored == Encode(Maced(c, p, requestAuth))
            && MacInBounds(s, restored)
            && (Verified(c, s, restored) <==>
                  (MacCount(p.attrs) > 0 ==>
                     c.Hmac(SECRET, Encode(Maced(c, p, requestAuth).(attrs := WithFirstMac(s.attrs, ZERO_BLOCK))))
                     == Mac(c, p, requestAuth)))
  {
    var m, s := Maced(c, p, requestAuth), Signed(c, p, requestAuth);
    EncodeSetAuth(s, requestAuth);
    assert s.(auth := requestAuth) == m;
    MacCountOf(p.attrs, Mac(c, p, requestAuth));
    if MacCount(m.attrs) == 0 {
      NoMacOffset(m.attrs, HEADER);
    } else {
      var hdr := HeaderBytes(m, Size(m));
      SpliceMac(m.attrs, ZERO_BLOCK, hdr);
      var cleared := m.(attrs := WithFirstMac(m.attrs, ZERO_BLOCK));
      FirstMacShape(m.attrs, ZERO_BLOCK);
      SameSize(m.attrs, cleared.attrs);
      assert Encode(cleared) == hdr + AttributesBytes(cleared.attrs);
      assert All(m.attrs, MESSAGE_AUTHENTICATOR)[0] in All(m.attrs, MESSAGE_AUTHENTICATOR);
    }
  }

  lemma {:induction false} FirstMacShape(attrs: seq<Attribute>, v: bytes)
    requires forall a :: a in attrs && a.typ == MESSAGE_AUTHENTICATOR ==> |a.value| == |v|
    ensures forall i :: 0 <= i < |attrs| ==> |WithFirstMac(attrs, v)[i].value| == |attrs[i].value|
  {
    if attrs != [] && attrs[0].typ != MESSAGE_AUTHENTICATOR {
      FirstMacShape(attrs[1..], v);
    }
  }

  /** With at most one Message-Authenticator both authenticators of a response check out. */
  lemma SignatureAgreement(c: Crypto, p: Packet, requestAuth: Block)
    requires MacCount(p.attrs) <= 1
    ensures var s := Signed(c, p, requestAuth);
            var out := Encode(s);
            var restored := Restored(out, requestAuth);
            && MacInBounds(s, restored)
            && Verified(c, s, restored)
            && out[4..20] == c.Md5(restored + [114, 97, 100, 115, 101, 99])
  {
    VerifiedRestored(c, p, requestAuth);
    if MacCount(p.attrs) == 1 {
      SingleMac(p.attrs, Mac(c, p, requestAuth), ZERO_BLOCK);
    }
  }

  lemma {:induction false} SameShapeInjective(xs: seq<Attribute>, ys: seq<Attribute>)
    requires |xs| == |ys|
    requires forall i :: 0 <= i < |xs| ==> |xs[i].value| == |ys[i].value|
    requires AttributesBytes(xs) == AttributesBytes(ys)
    ensures xs == ys
  {
    if xs == [] {
    } else {
      var n := 2 + |xs[0].value|;
      assert AttributesBytes(xs)[..n] == AttributeBytes(xs[0]);
      assert AttributesBytes(ys)[..n] == AttributeBytes(ys[0]);
      assert AttributeBytes(xs[0])[2..] == xs[0].value && AttributeBytes(ys[0])[2..] == ys[0].value;
      assert AttributesBytes(xs)[n..] == AttributesBytes(xs[1..]);
      assert AttributesBytes(ys)[n..] == AttributesBytes(ys[1..]);
      SameShapeInjective(xs[1..], ys[1..]);
      assert xs == [xs[0]] + xs[1..] && ys == [ys[0]] + ys[1..];
    }
  }

  lemma {:induction false} SecondMacDiffers(attrs: seq<Attribute>, v: Block)
    requires MacCount(attrs) >= 2 && v != ZERO_BLOCK
    ensures WithFirstMac(WithMac(attrs, v), ZERO_BLOCK) != WithMac(attrs, ZERO_BLOCK)
  {
    var rest := attrs[1..];
    var x, y := WithFirstMac(WithMac(attrs, v), ZERO_BLOCK), WithMac(attrs, ZERO_BLOCK);
    assert WithMac(attrs, v)[1..] == WithMac(rest, v) && y[1..] == WithMac(rest, ZERO_BLOCK);
    if attrs[0].typ == MESSAGE_AUTHENTICATOR {
      MacCountOf(rest, v);
      var k :| 0 <= k < |rest| && rest[k].typ == MESSAGE_AUTHENTICATOR;
      assert x[1..][k].value == v && y[1..][k].value == ZERO_BLOCK;
    } else {
      SecondMacDiffers(rest, v);
      assert x[1..] == WithFirstMac(WithMac(rest, v), ZERO_BLOCK);
    }
  }

  /**
   * Exactly when the signer and the verifier agree whatever the digest is: the signer clears
   * and fills every Message-Authenticator, the verifier clears only the first.
   */
  lemma SignatureAgreementIff(p: Packet, requestAuth: Block)
    ensures (forall c: Crypto ::
               var s := Signed(c, p, requestAuth);
               var restored := Restored(Encode(s), requestAuth);
               MacInBounds(s, restored) && Verified(c, s, restored))
            <==> MacCount(p.attrs) <= 1
  {
    if MacCount(p.attrs) <= 1 {
      forall c: Crypto
        ensures var s := Signed(c, p, requestAuth);
                var restored := Restored(Encode(s), requestAuth);
                MacInBounds(s, restored) && Verified(c, s, restored)
      {
        SignatureAgreement(c, p, requestAuth);
      }
    } else {
      var c := Disagreement(p, requestAuth);
    }
  }

  /** With two of them the packet the verifier hashes is not the one the signer hashed. */
  lemma HalfCleared(p: Packet, requestAuth: Block, half: Packet, mark: Block)
    requires MacCount(p.attrs) >= 2 && mark != ZERO_BLOCK
    requires half.attrs == WithFirstMac(WithMac(p.attrs, mark), ZERO_BLOCK)
    ensures Encode(half) != Encode(MacInput(p, requestAuth))
  {
    SecondMacDiffers(p.attrs, mark);
    FirstMacShape(WithMac(p.attrs, mark), ZERO_BLOCK);
    hide WithMac, WithFirstMac, AttributesBytes;
    var cleared := MacInput(p, requestAuth);
    EncodeBody(half);
    EncodeBody(cleared);
    if AttributesBytes(half.attrs) == AttributesBytes(cleared.attrs) {
      SameShapeInjective(half.attrs, cleared.attrs);
    }
  }

  lemma EncodeBody(p: Packet)
    ensures |Encode(p)| >= HEADER && Encode(p)[HEADER..] == AttributesBytes(p.attrs)
  {
    hide AttributesBytes;
  }

  /** A digest under which signer and verifier disagree: it tells the cleared packet from all others. */
  lemma Disagreement(p: Packet, requestAuth: Block) returns (c: Crypto)
    requires MacCount(p.attrs) >= 2
    ensures var s := Signed(c, p, requestAuth);
            var restored := Restored(Encode(s), requestAuth);
            !(MacInBounds(s, restored) && Verified(c, s, restored))
  {
    hide WithMac, WithFirstMac, Encode, Verified, MacInBounds, Restored;
    var cleared := Encode(MacInput(p, requestAuth));
    var mark: Block := seq(16, _ => 1);
    assert mark[0] != ZERO_BLOCK[0];
    c := Crypto(_ => ZERO_BLOCK, (_, m) => if m == cleared then mark else ZERO_BLOCK);
    assert Mac(c, p, requestAuth) == mark;
    VerifiedRestored(c, p, requestAuth);
    var s := Signed(c, p, requestAuth);
    HalfCleared(p, requestAuth, Maced(c, p, requestAuth).(attrs := WithFirstMac(s.attrs, ZERO_BLOCK)), mark);
  }

  // ------------------------------------------------------- the mutable packet

  /** A response under construction: `add` grows it and `finalize` rewrites it in place. */
  class Response {
    var code: byte
    var id: byte
    var auth: Block
    var attrs: seq<Attribute>

    function View(): Packet
      reads this
    {
      Packet(code, id, auth, attrs)
    }

    constructor (code: byte, id: byte)
      ensures View() == Packet(code, id, ZERO_BLOCK, [])
    {
      this.code, this.id, auth, attrs := code, id, ZERO_BLOCK, [];
    }

    method Add(typ: byte, value: bytes)
      modifies this`attrs
      ensures attrs == old(attrs) + [Attribute(typ, value)]
    {
      attrs := attrs + [Attribute(typ, value)];
    }

    /** Overwrites every Message-Authenticator value; reports whether there was one. */
    method FillMac(v: bytes) returns (found: bool)
      modifies this`attrs
      ensures attrs == WithMac(old(attrs), v)
      ensures found <==> MacCount(old(attrs)) > 0
    {
      found := false;
      ghost var was := attrs;
      for i := 0 to |attrs|
        invariant |attrs| == |was|
        invariant forall j :: 0 <= j < |was| ==> attrs[j] == if j < i then Fill(was[j], v) else was[j]
        invariant found <==> MacCount(was[..i]) > 0
      {
        MacCountSnoc(was, i);
        if attrs[i].typ == MESSAGE_AUTHENTICATOR {
          attrs := attrs[i := attrs[i].(value := v)];
          found := true;
        }
      }
      assert was[..|was|] == was;
    }

    method Finalize(c: Crypto, requestAuth: Block) returns (out: bytes)
      modifies this
      ensures View() == Signed(c, old(View()), requestAuth)
      ensures out == Encode(View())
    {
      ghost var was := View();
      auth := requestAuth;
      var hasMac := FillMac(ZERO_BLOCK);
      if hasMac {
        var raw := EncodePacket(View());
        var sum := c.Hmac(SECRET, raw);
        var _ := FillMac(sum);
      } else {
        MacCountOf(was.attrs, ZERO_BLOCK);
      }
      assert View() == Maced(c, was, requestAuth);
      var raw := EncodePacket(View());
      auth := c.Md5(raw + SECRET);
      out := EncodePacket(View());
    }
  }

  lemma MacCountSnoc(attrs: seq<Attribute>, k: nat)
    requires k < |attrs|
    ensures MacCount(attrs[..k + 1]) ==
            MacCount(attrs[..k]) + if attrs[k].typ == MESSAGE_AUTHENTICATOR then 1 else 0
  {
    assert attrs[..k + 1] == attrs[..k] + [attrs[k]];
    AllConcat(attrs[..k], [attrs[k]], MESSAGE_AUTHENTICATOR);
    AllSingle(attrs[k], MESSAGE_AUTHENTICATOR);
  }

  // ------------------------------------------------- bounds of the check

  /** The attributes from the first Message-Authenticator on. */
  function FromMac(attrs: seq<Attribute>): (r: seq<Attribute>)
    ensures r != [] ==> r[0].typ == MESSAGE_AUTHENTICATOR
  {
    if attrs == [] || attrs[0].typ == MESSAGE_AUTHENTICATOR then attrs else FromMac(attrs[1..])
  }

  lemma {:induction false} MacOffsetAt(attrs: seq<Attribute>, at: nat)
    ensures MacOffset(attrs, at).Some? <==> FromMac(attrs) != []
    ensures MacOffset(attrs, at).Some? ==>
              MacOffset(attrs, at).value + |AttributesBytes(FromMac(attrs))| == at + |AttributesBytes(attrs)| + 2
  {
    if attrs == [] {
    } else if attrs[0].typ != MESSAGE_AUTHENTICATOR {
      MacOffsetAt(attrs[1..], at + 2 + |attrs[0].value|);
    }
  }

  /**
   * Exactly when the check of a received packet stays inside it: the first Message-Authenticator and
   * what follows it in the buffer make up at least a header of two octets and a value of sixteen.
   */
  lemma MacInBoundsIff(b: bytes)
    requires Parse(b).Ok?
    ensures var attrs := Parse(b).value.attrs;
            MacInBounds(Parse(b).value, b) <==>
            FromMac(attrs) == [] || |AttributesBytes(FromMac(attrs))| + (|b| - GetU16(b[2..4])) >= 18
  {
    EncodeParse(b);
    MacOffsetAt(Parse(b).value.attrs, HEADER);
  }

  /** A first value of the sixteen octets that RFC 3579 prescribes in section 3.2 always suffices. */
  lemma FullMacInBounds(b: bytes)
    requires Parse(b).Ok?
    requires var mac := FromMac(Parse(b).value.attrs); mac != [] ==> |mac[0].value| >= 16
    ensures MacInBounds(Parse(b).value, b)
  {
    MacInBoundsIff(b);
  }

  /** A packet that ends in an empty Message-Authenticator parses, and the check would read past its end. */
  lemma ShortMacOutOfBounds(auth: Block)
    ensures var p := Packet(ACCESS_REQUEST, 0, auth, [Attribute(MESSAGE_AUTHENTICATOR, [])]);
            Parse(Encode(p)) == Ok(p) && !MacInBounds(p, Encode(p))
  {
    var p := Packet(ACCESS_REQUEST, 0, auth, [Attribute(MESSAGE_AUTHENTICATOR, [])]);
    RoundTripIff(p);
    assert |AttributesBytes(p.attrs)| == 2;
  }

  /**
   * What the check of a received packet establishes: its first Message-Authenticator is the HMAC, under
   * the fixed secret, of the packet with that value set to zeros and everything that follows it.
   */
  lemma VerifiedMeans(c: Crypto, p: Packet, tail: bytes)
    requires forall a :: a in p.attrs && a.typ == MESSAGE_AUTHENTICATOR ==> |a.value| == 16
    requires MacCount(p.attrs) > 0
    ensures MacInBounds(p, Encode(p) + tail)
    ensures Verified(c, p, Encode(p) + tail) <==>
            c.Hmac([114, 97, 100, 115, 101, 99], Encode(p.(attrs := WithFirstMac(p.attrs, ZERO_BLOCK))) + tail)
            == All(p.attrs, 80)[0]
  {
    var hdr, off := HeaderBytes(p, Size(p)), MacOffset(p.attrs, HEADER);
    SpliceMac(p.attrs, ZERO_BLOCK, hdr);
    FirstMacShape(p.attrs, ZERO_BLOCK);
    SameSize(WithFirstMac(p.attrs, ZERO_BLOCK), p.attrs);
    hide All, WithFirstMac, AttributesBytes, HeaderBytes;
    SpliceTail(Encode(p), off.value, ZERO_BLOCK, tail);
  }

  lemma SpliceTail(b: bytes, at: nat, v: bytes, tail: bytes)
    requires at + |v| <= |b|
    ensures Splice(b + tail, at, v) == Splice(b, at, v) + tail
    ensures (b + tail)[at..at + |v|] == b[at..at + |v|]
  {
  }

  /** A packet without one is let through. */
  lemma VerifiedWithout(c: Crypto, p: Packet, raw: bytes)
    requires MacCount(p.attrs) == 0
    ensures MacInBounds(p, raw) && Verified(c, p, raw)
  {
    NoMacOffset(p.attrs, HEADER);
  }

  /**
   * Checks the first Message-Authenticator of a received packet; true when it has none. None stands
   * for the run-time error of a slice out of range.
   */
  method VerifyMessageAuthenticator(c: Crypto, p: Packet, raw: bytes) returns (r: Option<bool>)
    ensures r == if MacInBounds(p, raw) then Some(Verified(c, p, raw)) else None
  {
    var idx := -1;
    var off := HEADER;
    for k := 0 to |p.attrs|
      invariant idx == -1
      invariant off >= HEADER
      invariant MacOffset(p.attrs, HEADER) == MacOffset(p.attrs[k..], off)
    {
      assert p.attrs[k..][1..] == p.attrs[k + 1..];
      if p.attrs[k].typ == MESSAGE_AUTHENTICATOR {
        idx := off + 2;
        break;
      }
      off := off + 2 + |p.attrs[k].value|;
    }
    if idx < 0 {
      return Some(true);
    }
    if idx + 16 > |raw| {
      return None;
    }
    var tmp := new byte[|raw|](i requires 0 <= i < |raw| => raw[i]);
    var want := raw[idx..idx + 16];
    for i := 0 to 16
      invariant forall j :: 0 <= j < |raw| ==> tmp[j] == if idx <= j < idx + i then 0 else raw[j]
    {
      tmp[idx + i] := 0;
    }
    assert tmp[..] == Splice(raw, idx, ZERO_BLOCK);
    r := Some(c.Hmac(SECRET, tmp[..]) == want);
  }
}
