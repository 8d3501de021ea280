/**
 * The byte-level framing both programs use on their sockets: every integer is sent
 * as the four bytes of an `int`, every string as its `int` length followed by its
 * bytes, with no terminator.  The programs copy host-order bytes; this model fixes
 * one encoding, little-endian two's complement.
 */
module Wire {
  import opened Wrappers

  newtype byte = x: int | 0 <= x < 0x100

  const INT32_MIN: int := -0x8000_0000
  const INT32_MAX: int := 0x7FFF_FFFF

  predicate IsInt32(v: int) {
    INT32_MIN <= v <= INT32_MAX
  }

  /** A `std::string` holds bytes: every character of the model's strings stands for one. */
  predicate IsByteString(s: string) {
    forall i :: 0 <= i < |s| ==> s[i] as int < 0x100
  }

  /** A string a sender can frame: bytes only, and a length that fits the `int` prefix. */
  predicate IsFrameable(s: string) {
    IsByteString(s) && |s| <= INT32_MAX
  }

  /** Why a receive fails. */
  datatype Fault =
    | PeerClosed             // the stream ended before the whole frame arrived
    | BadLength(length: int) // a negative length prefix: std::string::resize throws

  /** 256 to the power `k`: one more than the largest value `k` bytes hold. */
  function Pow256(k: nat): (p: nat)
    ensures p > 0
  {
    if k == 0 then 1 else 0x100 * Pow256(k - 1)
  }

  /** The low `k` bytes of `u`, least significant first. */
  function LittleEndianBytes(u: nat, k: nat): (r: seq<byte>)
    ensures |r| == k
  {
    if k == 0 then [] else [(u % 0x100) as byte] + LittleEndianBytes(u / 0x100, k - 1)
  }

  /** The unsigned number that bytes stand for, least significant first. */
  function LittleEndianValue(b: seq<byte>): (u: nat)
    ensures u < Pow256(|b|)
  {
    if b == [] then 0 else b[0] as nat + 0x100 * LittleEndianValue(b[1..])
  }

  /** Splitting off the low byte of `lo + 0x100 * hi`. */
  lemma LowByte(lo: int, hi: int)
    requires 0 <= lo < 0x100
    ensures (lo + 0x100 * hi) % 0x100 == lo && (lo + 0x100 * hi) / 0x100 == hi
  {
  }

  /** A number that fits in `k` bytes is what its `k` bytes stand for. */
  lemma {:induction false} ValueOfBytes(u: nat, k: nat)
    requires u < Pow256(k)
    ensures LittleEndianValue(LittleEndianBytes(u, k)) == u
  {
    if k > 0 {
      var r := LittleEndianBytes(u, k);
      assert r[1..] == LittleEndianBytes(u / 0x100, k - 1);
      ValueOfBytes(u / 0x100, k - 1);
    }
  }

  /** Any bytes are the bytes of the number they stand for. */
  lemma {:induction false} BytesOfValue(b: seq<byte>)
    ensures LittleEndianBytes(LittleEndianValue(b), |b|) == b
  {
    if b != [] {
      LowByte(b[0] as int, LittleEndianValue(b[1..]));
      BytesOfValue(b[1..]);
      assert b == [b[0]] + b[1..];
    }
  }

  /** The four bytes of `v`, least significant first, negative values in two's complement. */
  function EncodeInt32(v: int): (r: seq<byte>)
    requires IsInt32(v)
    ensures |r| == 4
  {
    LittleEndianBytes(if v < 0 then v + 0x1_0000_0000 else v, 4)
  }

  /** Reads one `int`; fails when fewer than four bytes are left. */
  function DecodeInt32(b: seq<byte>): (r: Result<(int, seq<byte>), Fault>)
    ensures r.Ok? <==> |b| >= 4
    ensures r.Ok? ==> IsInt32(r.value.0) && r.value.1 == b[4..]
  {
    if |b| < 4 then Err(PeerClosed)
    else
      var u := LittleEndianValue(b[..4]);
      assert Pow256(4) == 0x1_0000_0000;
      Ok((if u > INT32_MAX then u - 0x1_0000_0000 else u, b[4..]))
  }

  /** Reading back what EncodeInt32 wrote gives the same integer and leaves the rest. */
  lemma DecodeEncodeInt32(v: int, rest: seq<byte>)
    requires IsInt32(v)
    ensures DecodeInt32(EncodeInt32(v) + rest) == Ok((v, rest))
  {
    var u := if v < 0 then v + 0x1_0000_0000 else v;
    var b := EncodeInt32(v) + rest;
    assert b[..4] == EncodeInt32(v);
    assert b[4..] == rest;
    assert Pow256(4) == 0x1_0000_0000;
    ValueOfBytes(u, 4);
  }

  /** Conversely, any four bytes are the encoding of the integer they decode to. */
  lemma EncodeDecodeInt32(b: seq<byte>)
    requires |b| >= 4
    ensures DecodeInt32(b).Ok? && EncodeInt32(DecodeInt32(b).value.0) == b[..4]
  {
    BytesOfValue(b[..4]);
  }

  function EncodeBytes(s: string): (r: seq<byte>)
    requires IsByteString(s)
    ensures |r| == |s|
    ensures forall i :: 0 <= i < |s| ==> r[i] as int == s[i] as int
  {
    seq(|s|, i requires 0 <= i < |s| => (s[i] as int) as byte)
  }

  function DecodeBytes(b: seq<byte>): (r: string)
    ensures |r| == |b| && IsByteString(r)
    ensures forall i :: 0 <= i < |b| ==> r[i] as int == b[i] as int
  {
    seq(|b|, i requires 0 <= i < |b| => (b[i] as int) as char)
  }

  /** A length-prefixed string, as `sendString` writes it. */
  function EncodeString(s: string): (r: seq<byte>)
    requires IsFrameable(s)
    ensures |r| == 4 + |s|
  {
    EncodeInt32(|s|) + EncodeBytes(s)
  }

  /** Reads a length, then exactly that many bytes. */
  function DecodeString(b: seq<byte>): (r: Result<(string, seq<byte>), Fault>)
    ensures r.Ok? ==> IsFrameable(r.value.0) && |r.value.1| <= |b| - 4
  {
    match DecodeInt32(b)
    case Err(f) => Err(f)
    case Ok((len, rest)) =>
      if len < 0 then Err(BadLength(len))
      else if |rest| < len then Err(PeerClosed)
      else Ok((DecodeBytes(rest[..len]), rest[len..]))
  }

  /** Every frameable string survives a trip through the framing, whatever follows it. */
  lemma DecodeEncodeString(s: string, rest: seq<byte>)
    requires IsFrameable(s)
    ensures DecodeString(EncodeString(s) + rest) == Ok((s, rest))
  {
    var b := EncodeString(s) + rest;
    assert b == EncodeInt32(|s|) + (EncodeBytes(s) + rest);
    DecodeEncodeInt32(|s|, EncodeBytes(s) + rest);
    assert (EncodeBytes(s) + rest)[..|s|] == EncodeBytes(s);
    assert (EncodeBytes(s) + rest)[|s|..] == rest;
    assert DecodeBytes(EncodeBytes(s)) == s;
  }

  /** Conversely, whatever DecodeString accepts is exactly a framed string followed by the rest. */
  lemma EncodeDecodeString(b: seq<byte>)
    requires DecodeString(b).Ok?
    ensures IsFrameable(DecodeString(b).value.0)
    ensures b == EncodeString(DecodeString(b).value.0) + DecodeString(b).value.1
  {
    var len := DecodeInt32(b).value.0;
    var rest := b[4..];
    var s := DecodeString(b).value.0;
    EncodeDecodeInt32(b);
    assert EncodeBytes(s) == rest[..len];
    assert b == b[..4] + rest[..len] + rest[len..];
  }
}
