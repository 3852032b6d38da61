/** Salt encryption of the MS-MPPE keys (section 2.4.2 of RFC 2548). */
module Mppe {
  import opened Wire
  import opened Radius
  import opened Signature

  const VENDOR_MICROSOFT := 311
  const SEND_KEY: byte := 16
  const RECV_KEY: byte := 17
  const MSK_LENGTH := 64

  // ------------------------------------------------------------ exclusive or

  function Pow2(n: nat): (r: nat)
    ensures r > 0
  {
    if n == 0 then 1 else 2 * Pow2(n - 1)
  }

  /** Exclusive or of the low `bits` bits, bit by bit. */
  function XorBits(a: nat, b: nat, bits: nat): (r: nat)
    ensures r < Pow2(bits)
    decreases bits
  {
    if bits == 0 then 0 else 2 * XorBits(a / 2, b / 2, bits - 1) + (a + b) % 2
  }

  lemma {:induction false} XorBitsCancels(a: nat, b: nat, bits: nat)
    requires a < Pow2(bits)
    ensures XorBits(XorBits(a, b, bits), b, bits) == a
  {
    if bits == 0 {
    } else {
      XorBitsCancels(a / 2, b / 2, bits - 1);
      Parity(a, b, XorBits(a / 2, b / 2, bits - 1));
    }
  }

  lemma Parity(a: nat, b: nat, y: nat)
    ensures var x := 2 * y + (a + b) % 2; x / 2 == y && (x + b) % 2 == a % 2
  {
  }

  lemma Pow2Of8()
    ensures Pow2(8) == 256
  {
    assert Pow2(4) == 16;
    assert Pow2(8) == 16 * Pow2(4) by { assert Pow2(6) == 4 * Pow2(4); }
  }

  function Xor(a: byte, b: byte): (r: byte)
    ensures XorBits(r, b, 8) == a
  {
    Pow2Of8();
    XorBitsCancels(a, b, 8);
    XorBits(a, b, 8)
  }

  function XorBlock(x: Block, y: Block): (r: Block)
    ensures forall i :: 0 <= i < 16 ==> r[i] == Xor(x[i], y[i])
  {
    seq(16, i requires 0 <= i < 16 => Xor(x[i], y[i]))
  }

  lemma XorBlockCancels(x: Block, y: Block)
    ensures XorBlock(XorBlock(x, y), y) == x
  {
    forall i | 0 <= i < 16 ensures XorBlock(XorBlock(x, y), y)[i] == x[i] {
      assert Xor(Xor(x[i], y[i]), y[i]) == x[i];
    }
  }

  // --------------------------------------------------------------- the cipher

  function PadLength(n: nat): (k: nat)
    ensures k < 16 && (n + k) % 16 == 0
  {
    (16 - n % 16) % 16
  }

  lemma PadLengthUnique(n: nat, k: nat)
    requires k <= PadLength(n) && (n + k) % 16 == 0
    ensures k == PadLength(n)
  {
    var d := PadLength(n) - k;
    assert 0 <= d < 16 && d % 16 == 0;
  }

  function Zeros(n: nat): (z: bytes)
    ensures |z| == n
    ensures forall i :: 0 <= i < n ==> z[i] == 0
  {
    seq(n, _ => 0)
  }

  /** Length octet, key, and zeros up to the next multiple of 16. */
  function Plaintext(key: bytes): (p: bytes)
    ensures |p| == 1 + |key| + PadLength(1 + |key|)
    ensures |p| % 16 == 0
  {
    [|key| % 256] + key + Zeros(PadLength(1 + |key|))
  }

  /** The padded length is the least multiple of 16 that holds the length octet and the key. */
  lemma PaddedLengthIsLeast(key: bytes, m: nat)
    requires m >= 1 + |key| && m % 16 == 0
    ensures |Plaintext(key)| <= m
  {
    var n := 1 + |key|;
    assert n + PadLength(n) - m < 16 && (n + PadLength(n) - m) % 16 == 0;
  }

  /** Each block is masked with MD5 of the secret and what precedes it on the wire. */
  function Encrypt(c: Crypto, previous: bytes, plain: bytes): (cipher: bytes)
    requires |plain| % 16 == 0
    ensures |cipher| == |plain|
    decreases |plain|
  {
    if plain == [] then []
    else
      var block := XorBlock(plain[..16], c.Md5(SECRET + previous));
      block + Encrypt(c, block, plain[16..])
  }

  /** The receiver's side of section 2.4.2 of RFC 2548. */
  function Decrypt(c: Crypto, previous: bytes, cipher: bytes): (plain: bytes)
    requires |cipher| % 16 == 0
    ensures |plain| == |cipher|
    decreases |cipher|
  {
    if cipher == [] then []
    else XorBlock(cipher[..16], c.Md5(SECRET + previous)) + Decrypt(c, cipher[..16], cipher[16..])
  }

  lemma {:induction false} DecryptEncrypt(c: Crypto, previous: bytes, plain: bytes)
    requires |plain| % 16 == 0
    ensures Decrypt(c, previous, Encrypt(c, previous, plain)) == plain
    decreases |plain|
  {
    if plain == [] {
    } else {
      var mask := c.Md5(SECRET + previous);
      var block := XorBlock(plain[..16], mask);
      var cipher := Encrypt(c, previous, plain);
      DecryptEncrypt(c, block, plain[16..]);
      assert cipher[..16] == block && cipher[16..] == Encrypt(c, block, plain[16..]);
      XorBlockCancels(plain[..16], mask);
      assert plain == plain[..16] + plain[16..];
    }
  }

  function SaltedKey(c: Crypto, key: bytes, requestAuth: Block, salt: bytes): (cipher: bytes)
    ensures |cipher| == |Plaintext(key)|
  {
    Encrypt(c, requestAuth + salt, Plaintext(key))
  }

  /**
   * Every cipher block is the plain block masked with MD5 of the secret and, for the first block, the
   * request authenticator and the salt, for any other the cipher block before it.
   */
  lemma CipherBlock(c: Crypto, key: bytes, requestAuth: Block, salt: bytes, i: nat)
    requires 16 * i < |Plaintext(key)|
    ensures 16 * i + 16 <= |Plaintext(key)|
    ensures var cipher := SaltedKey(c, key, requestAuth, salt);
            var chained := if i == 0 then requestAuth + salt else cipher[16 * i - 16..16 * i];
            cipher[16 * i..16 * i + 16] ==
            XorBlock(Plaintext(key)[16 * i..16 * i + 16], c.Md5([114, 97, 100, 115, 101, 99] + chained))
  {
    hide Encrypt, Plaintext;
    EncryptBlock(c, requestAuth + salt, Plaintext(key), i);
  }

  lemma {:induction false} EncryptBlock(c: Crypto, previous: bytes, plain: bytes, i: nat)
    requires |plain| % 16 == 0 && 16 * i < |plain|
    ensures 16 * i + 16 <= |plain|
    ensures var cipher := Encrypt(c, previous, plain);
            var chained := if i == 0 then previous else cipher[16 * i - 16..16 * i];
            cipher[16 * i..16 * i + 16] == XorBlock(plain[16 * i..16 * i + 16], c.Md5(SECRET + chained))
    decreases i
  {
    hide XorBlock;
    var rest: bytes := plain[16..];
    var block: bytes := XorBlock(plain[..16], c.Md5(SECRET + previous));
    var tail: bytes := Encrypt(c, block, rest);
    var at := 16 * i - 16;
    assert Encrypt(c, previous, plain) == block + tail;
    if i == 0 {
      assert (block + tail)[0..16] == block && plain[0..16] == plain[..16];
    } else {
      hide Encrypt;
      assert 16 * (i - 1) == at;
      EncryptBlock(c, block, rest, i - 1);
      AfterBlock(block, tail, at, at + 16);
      AfterBlock(plain[..16], rest, at, at + 16);
      assert plain[..16] + rest == plain;
      if i == 1 {
        assert (block + tail)[0..16] == block;
      } else {
        AfterBlock(block, tail, at - 16, at);
      }
    }
  }

  lemma AfterBlock(block: bytes, tail: bytes, lo: nat, hi: nat)
    requires |block| == 16 && lo <= hi <= |tail|
    ensures (block + tail)[lo + 16..hi + 16] == tail[lo..hi]
  {
  }

  /** What a receiver takes as the key: as many octets as the length octet says. */
  function ReceivedKey(c: Crypto, requestAuth: Block, salt: bytes, cipher: bytes): (r: Option<bytes>)
    requires |cipher| % 16 == 0
  {
    var plain := Decrypt(c, requestAuth + salt, cipher);
    if plain == [] || 1 + plain[0] > |plain| then None else Some(plain[1..1 + plain[0]])
  }

  lemma PlaintextKey(key: bytes)
    requires |key| <= 255
    ensures Plaintext(key)[0] == |key| && Plaintext(key)[1..1 + |key|] == key
    ensures forall i :: 1 + |key| <= i < |Plaintext(key)| ==> Plaintext(key)[i] == 0
  {
  }

  /** The key is recovered exactly when its length fits the length octet. */
  lemma KeyRecoveredIff(c: Crypto, key: bytes, requestAuth: Block, salt: bytes)
    ensures Decrypt(c, requestAuth + salt, SaltedKey(c, key, requestAuth, salt)) == Plaintext(key)
    ensures ReceivedKey(c, requestAuth, salt, SaltedKey(c, key, requestAuth, salt)) == Some(key) <==> |key| <= 255
  {
    var plain := Plaintext(key);
    DecryptEncrypt(c, requestAuth + salt, plain);
    if |key| <= 255 {
      PlaintextKey(key);
    } else {
      assert plain[0] < |key|;
    }
  }

  // ------------------------------------------------------------ the two loops

  datatype RandomError = NoEntropy

  /** `salt[0] |= 0x80`. */
  function MarkSalt(salt: bytes): (r: bytes)
    requires |salt| == 2
    ensures |r| == 2 && r[0] >= 0x80
  {
    [if salt[0] < 0x80 then salt[0] + 0x80 else salt[0], salt[1]]
  }

  /** Only the top bit of a salt is set: it stays as it was if set already, and no other bit is lost. */
  lemma SaltKept(x: bytes, y: bytes)
    requires |x| == 2 && |y| == 2
    ensures MarkSalt(x)[0] % 128 == x[0] % 128 && MarkSalt(x)[1] == x[1] && MarkSalt(x)[0] >= 128
    ensures MarkSalt(x) == MarkSalt(y) <==> x[0] % 128 == y[0] % 128 && x[1] == y[1]
  {
  }

  /** Exclusive or with nothing changes nothing, and with itself leaves nothing. */
  lemma XorUnit(a: byte)
    ensures Xor(a, 0) == a && Xor(a, a) == 0
  {
    Pow2Of8();
    XorBitsZero(a, 8);
    XorBitsSelf(a, 8);
  }

  lemma {:induction false} XorBitsZero(a: nat, bits: nat)
    requires a < Pow2(bits)
    ensures XorBits(a, 0, bits) == a
  {
    if bits == 0 {
    } else {
      XorBitsZero(a / 2, bits - 1);
    }
  }

  lemma {:induction false} XorBitsSelf(a: nat, bits: nat)
    ensures XorBits(a, a, bits) == 0
  {
    if bits == 0 {
    } else {
      XorBitsSelf(a / 2, bits - 1);
    }
  }

  method XorInto(cipher: array<byte>, at: nat, plain: bytes, mask: Block)
    requires at + 16 <= cipher.Length == |plain|
    modifies cipher
    ensures cipher[..at + 16] == old(cipher[..at]) + XorBlock(plain[at..at + 16], mask)
  {
    hide Xor, XorBlock;
    ghost var block := XorBlock(plain[at..at + 16], mask);
    for j := 0 to 16
      invariant cipher[..at + j] == old(cipher[..at]) + block[..j]
    {
      assert block[j] == Xor(plain[at + j], mask[j]);
      cipher[at + j] := Xor(plain[at + j], mask[j]);
      Appended(cipher[..at + j + 1], old(cipher[..at]) + block[..j], block, j, at);
    }
    assert block[..16] == block;
  }

  lemma Appended(now: bytes, before: bytes, block: bytes, j: nat, at: nat)
    requires j < |block| && |before| == at + j && before[at..] == block[..j]
    requires |now| == at + j + 1 && now[..at + j] == before && now[at + j] == block[j]
    ensures now == before[..at] + block[..j + 1]
  {
  }

  lemma EncryptStep(c: Crypto, done: bytes, previous: bytes, plain: bytes, i: nat)
    requires i < |plain| && (|plain| - i) % 16 == 0
    ensures i + 16 <= |plain| && (|plain| - (i + 16)) % 16 == 0
    ensures var block := XorBlock(plain[i..i + 16], c.Md5(SECRET + previous));
            done + Encrypt(c, previous, plain[i..]) == (done + block) + Encrypt(c, block, plain[i + 16..])
  {
    var rest := plain[i..];
    var block := XorBlock(plain[i..i + 16], c.Md5(SECRET + previous));
    assert rest[..16] == plain[i..i + 16] && rest[16..] == plain[i + 16..];
    Assoc(done, block, Encrypt(c, block, plain[i + 16..]));
  }

  /** The salt is drawn at random; `random` is None when the source of randomness fails. */
  method SaltEncrypt(c: Crypto, key: bytes, requestAuth: Block, random: Option<bytes>)
    returns (r: Result<(bytes, bytes), RandomError>)
    requires random.Some? ==> |random.value| == 2
    ensures random.None? ==> r == Err(NoEntropy)
    ensures random.Some? ==>
              var salt := MarkSalt(random.value);
              r == Ok((salt, SaltedKey(c, key, requestAuth, salt)))
  {
    if random.None? {
      return Err(NoEntropy);
    }
    var salt := MarkSalt(random.value);
    var plain := Pad(key);
    var cipher := EncryptBlocks(c, requestAuth + salt, plain);
    r := Ok((salt, cipher));
  }

  /** The block loop, carrying the previous cipher block. */
  method EncryptBlocks(c: Crypto, first: bytes, plain: bytes) returns (out: bytes)
    requires |plain| % 16 == 0
    ensures out == Encrypt(c, first, plain)
  {
    var cipher := new byte[|plain|](_ => 0);
    var prev := first;
    var i := 0;
    assert cipher[..0] + Encrypt(c, first, plain) == Encrypt(c, first, plain);
    while i < |plain|
      invariant 0 <= i <= |plain| && (|plain| - i) % 16 == 0
      invariant cipher[..i] + Encrypt(c, prev, plain[i..]) == Encrypt(c, first, plain)
    {
      EncryptStep(c, cipher[..i], prev, plain, i);
      var b := c.Md5(SECRET + prev);
      XorInto(cipher, i, plain, b);
      prev := cipher[i..i + 16];
      i := i + 16;
    }
    out := cipher[..];
    assert cipher[..i] + [] == out;
  }

  method Pad(key: bytes) returns (plain: bytes)
    ensures plain == Plaintext(key)
  {
    plain := [|key| % 256] + key;
    ghost var k := 0;
    while |plain| % 16 != 0
      invariant k <= PadLength(1 + |key|)
      invariant plain == [|key| % 256] + key + Zeros(k)
      decreases PadLength(1 + |key|) - k
    {
      assert Zeros(k + 1) == Zeros(k) + [0];
      plain := plain + [0];
      k := k + 1;
    }
    PadLengthUnique(1 + |key|, k);
  }

  // ------------------------------------------------- Vendor-Specific attribute

  function VendorValue(vendorType: byte, salt: bytes, cipher: bytes): (v: bytes)
  {
    PutU32(VENDOR_MICROSOFT) + [vendorType, (2 + |salt + cipher|) % 256] + (salt + cipher)
  }

  /** The vendor attribute a receiver reads: vendor, type and data, when the lengths agree. */
  function ParseVendor(v: bytes): (r: Option<(nat, byte, bytes)>)
  {
    if |v| < 6 || v[5] != |v| - 4 then None else Some((GetU32(v[..4]), v[4], v[6..]))
  }

  /** The vendor length octet describes the data exactly when the cipher is at most 251 octets. */
  lemma VendorLengthIff(vendorType: byte, salt: bytes, cipher: bytes)
    requires |salt| == 2
    ensures ParseVendor(VendorValue(vendorType, salt, cipher)) == Some((VENDOR_MICROSOFT, vendorType, salt + cipher))
            <==> |cipher| <= 251
  {
    var v := VendorValue(vendorType, salt, cipher);
    GetPutU32(VENDOR_MICROSOFT);
    assert v[..4] == PutU32(VENDOR_MICROSOFT);
    assert v[6..] == salt + cipher;
  }

  /** The vendor attribute octet by octet: vendor 311, the type, the length, the salt and the cipher. */
  lemma VendorOctets(vendorType: byte, salt: bytes, cipher: bytes)
    requires |salt| == 2 && |cipher| <= 251
    ensures VendorValue(vendorType, salt, cipher) == [0, 0, 1, 55, vendorType, 4 + |cipher|] + salt + cipher
    ensures SEND_KEY == 16 && RECV_KEY == 17
  {
  }

  /** The MPPE key a receiver takes out of one Vendor-Specific value. */
  function ReceivedMppe(c: Crypto, requestAuth: Block, v: bytes): (r: Option<(byte, bytes)>)
  {
    var p := ParseVendor(v);
    if p.None? || p.value.0 != VENDOR_MICROSOFT || |p.value.2| < 2 || (|p.value.2| - 2) % 16 != 0 then None
    else
      var key := ReceivedKey(c, requestAuth, p.value.2[..2], p.value.2[2..]);
      if key.None? then None else Some((p.value.1, key.value))
  }

  /** The attributes a response gains: Send-Key from the second half of the MSK, then Recv-Key from the first. */
  function MppeAttributes(c: Crypto, msk: bytes, requestAuth: Block, sendSalt: Option<bytes>,
                          recvSalt: Option<bytes>): (r: seq<Attribute>)
    requires sendSalt.Some? ==> |sendSalt.value| == 2
    requires recvSalt.Some? ==> |recvSalt.value| == 2
    ensures forall a :: a in r ==> a.typ == VENDOR_SPECIFIC && |a.value| == 56
  {
    if |msk| < MSK_LENGTH || sendSalt.None? || recvSalt.None? then []
    else
      var s, t := MarkSalt(sendSalt.value), MarkSalt(recvSalt.value);
      [Attribute(VENDOR_SPECIFIC, VendorValue(SEND_KEY, s, SaltedKey(c, msk[32..64], requestAuth, s))),
       Attribute(VENDOR_SPECIFIC, VendorValue(RECV_KEY, t, SaltedKey(c, msk[..32], requestAuth, t)))]
  }

  lemma MppeRecovered(c: Crypto, vendorType: byte, key: bytes, requestAuth: Block, salt: bytes)
    requires |salt| == 2 && |key| == 32
    ensures ReceivedMppe(c, requestAuth, VendorValue(vendorType, salt, SaltedKey(c, key, requestAuth, salt)))
            == Some((vendorType, key))
  {
    var cipher := SaltedKey(c, key, requestAuth, salt);
    assert |cipher| == 48;
    VendorLengthIff(vendorType, salt, cipher);
    KeyRecoveredIff(c, key, requestAuth, salt);
    var data := salt + cipher;
    assert data[..2] == salt && data[2..] == cipher;
  }

  /** A receiver that shares the secret gets both halves of the MSK, each under its own type. */
  lemma KeysReachReceiver(c: Crypto, msk: bytes, requestAuth: Block, sendSalt: bytes, recvSalt: bytes)
    requires |msk| >= MSK_LENGTH && |sendSalt| == 2 && |recvSalt| == 2
    ensures var attrs := MppeAttributes(c, msk, requestAuth, Some(sendSalt), Some(recvSalt));
            && |attrs| == 2
            && ReceivedMppe(c, requestAuth, attrs[0].value) == Some((SEND_KEY, msk[32..64]))
            && ReceivedMppe(c, requestAuth, attrs[1].value) == Some((RECV_KEY, msk[..32]))
  {
    MppeRecovered(c, SEND_KEY, msk[32..64], requestAuth, MarkSalt(sendSalt));
    MppeRecovered(c, RECV_KEY, msk[..32], requestAuth, MarkSalt(recvSalt));
  }

  method MppeVendorValue(c: Crypto, vendorType: byte, key: bytes, requestAuth: Block, random: Option<bytes>)
    returns (r: Result<bytes, RandomError>)
    requires random.Some? ==> |random.value| == 2
    ensures random.None? ==> r == Err(NoEntropy)
    ensures random.Some? ==>
              var salt := MarkSalt(random.value);
              r == Ok(VendorValue(vendorType, salt, SaltedKey(c, key, requestAuth, salt)))
  {
    var enc := SaltEncrypt(c, key, requestAuth, random);
    if enc.Err? {
      return Err(enc.error);
    }
    r := Ok(VendorValue(vendorType, enc.value.0, enc.value.1));
  }

  method AddMppeKeys(p: Response, c: Crypto, msk: bytes, requestAuth: Block, sendSalt: Option<bytes>,
                     recvSalt: Option<bytes>)
    requires sendSalt.Some? ==> |sendSalt.value| == 2
    requires recvSalt.Some? ==> |recvSalt.value| == 2
    modifies p`attrs
    ensures p.attrs == old(p.attrs) + MppeAttributes(c, msk, requestAuth, sendSalt, recvSalt)
  {
    if |msk| < MSK_LENGTH {
      return;
    }
    var recvKey, sendKey := msk[..32], msk[32..64];
    var sendValue := MppeVendorValue(c, SEND_KEY, sendKey, requestAuth, sendSalt);
    if sendValue.Err? {
      return;
    }
    var recvValue := MppeVendorValue(c, RECV_KEY, recvKey, requestAuth, recvSalt);
    if recvValue.Err? {
      return;
    }
    p.Add(VENDOR_SPECIFIC, sendValue.value);
    p.Add(VENDOR_SPECIFIC, recvValue.value);
  }
}
