/** Octets, fixed-size blocks and the big-endian integers of the RADIUS and EAP formats. */
module Wire {

  type byte = x: int | 0 <= x < 256
  type bytes = seq<byte>

  /** The 16-octet values of RADIUS: authenticators, MD5 digests and cipher blocks. */
  type Block = b: bytes | |b| == 16 witness seq(16, _ => 0)

  const ZERO_BLOCK: Block := [0, 0, 0, 0, 0, 0, 0, 0, 0, 0, 0, 0, 0, 0, 0, 0]

  /** The digest primitives. Every theorem holds for any pair of functions with 16-octet results. */
  datatype Crypto = Crypto(md5: bytes -> Block, hmacMd5: (bytes, bytes) -> Block) {
    function Md5(message: bytes): Block { md5(message) }
    function Hmac(key: bytes, message: bytes): Block { hmacMd5(key, message) }
  }

  datatype Result<+T, +E> = Ok(value: T) | Err(error: E)

  datatype Option<+T> = None | Some(value: T)

  /** `binary.BigEndian.PutUint16(uint16(n))`: truncates to 16 bits. */
  function PutU16(n: nat): (b: bytes)
    ensures |b| == 2
    ensures n < 0x1_0000 ==> GetU16(b) == n
  {
    [(n / 256) % 256, n % 256]
  }

  function GetU16(b: bytes): (n: nat)
    requires |b| == 2
    ensures n < 0x1_0000
  {
    (b[0] as int) * 256 + b[1]
  }

  lemma PutGetU16(b: bytes)
    requires |b| == 2
    ensures PutU16(GetU16(b)) == b
  {
  }

  /** `binary.BigEndian.PutUint32(uint32(n))`: truncates to 32 bits. */
  function PutU32(n: nat): (b: bytes)
    ensures |b| == 4
  {
    [(n / 0x100_0000) % 256, (n / 0x1_0000) % 256, (n / 0x100) % 256, n % 256]
  }

  function GetU32(b: bytes): (n: nat)
    requires |b| == 4
  {
    (b[0] as int) * 0x100_0000 + (b[1] as int) * 0x1_0000 + (b[2] as int) * 0x100 + b[3]
  }

  lemma GetPutU32(n: nat)
    ensures GetU32(PutU32(n)) == n % 0x1_0000_0000
  {
    var q3 := n / 0x100;
    var q2 := n / 0x1_0000;
    var q1 := n / 0x100_0000;
    assert q2 == q3 / 256 && q1 == q2 / 256;
    assert n == q3 * 256 + n % 256;
    assert q3 == q2 * 256 + q3 % 256;
    assert q2 == q1 * 256 + q2 % 256;
    assert n == q1 * 0x100_0000 + (q2 % 256) * 0x1_0000 + (q3 % 256) * 0x100 + n % 256;
    var q0 := n / 0x1_0000_0000;
    assert q0 == q1 / 256;
    assert q1 == q0 * 256 + q1 % 256;
  }

  lemma Assoc<T>(x: seq<T>, y: seq<T>, z: seq<T>)
    ensures x + (y + z) == (x + y) + z
  {
  }

  lemma SliceOfSlice<T>(s: seq<T>, i: nat, j: nat, lo: nat, hi: nat)
    requires i <= j <= |s| && lo <= hi <= j - i
    ensures s[i..j][lo..hi] == s[i + lo..i + hi]
  {
    var t := s[i..j];
    assert forall k :: lo <= k < hi ==> t[k] == s[i + k];
    assert forall k :: 0 <= k < hi - lo ==> t[lo..hi][k] == t[lo + k] == s[i + lo..i + hi][k];
  }

  function Flatten<T>(ss: seq<seq<T>>): (s: seq<T>)
  {
    if ss == [] then [] else ss[0] + Flatten(ss[1..])
  }

  lemma {:induction false} FlattenConcat<T>(xs: seq<seq<T>>, ys: seq<seq<T>>)
    ensures Flatten(xs + ys) == Flatten(xs) + Flatten(ys)
  {
    if xs == [] {
      assert xs + ys == ys;
    } else {
      FlattenConcat(xs[1..], ys);
      assert (xs + ys)[1..] == xs[1..] + ys;
      Assoc(xs[0], Flatten(xs[1..]), Flatten(ys));
    }
  }

  lemma FlattenSnoc<T>(xs: seq<seq<T>>, y: seq<T>)
    ensures Flatten(xs + [y]) == Flatten(xs) + y
  {
    FlattenConcat(xs, [y]);
    assert Flatten([y]) == y + Flatten([][..]);
  }
}
