/**
  Wire framing of the asynchronous test client.

  Every payload handed to the client goes on the stream as a four-byte
  length prefix (`sizeof(int32_t)` bytes) immediately followed by the payload
  bytes; frames follow one another with nothing in between.  The prefix is
  taken from the host's memory, so its byte order is the host's.  The host
  is therefore a parameter here: its byte order and the width of its `size_t`.

  The decoder is not part of the client (the receiving side decodes); it is
  given here as the partner against which the encoding is proved.
 */
module Framing {
  import opened Wrappers

  /** One octet on the wire. */
  type Byte = b: int | 0 <= b < 256

  /** An owned message buffer: opaque bytes produced by the argument codec. */
  type Payload = seq<Byte>

  /** Byte order of the machine the client runs on. */
  datatype ByteOrder = LittleEndian | BigEndian

  /** The machine the client runs on: its byte order and `sizeof(size_t)`. */
  datatype Host = Host(order: ByteOrder, sizeWidth: nat)

  /** `sizeof(int32_t)`: the number of prefix bytes sent before each payload. */
  const PrefixLength: nat := 4

  /** 2^32: a four-byte prefix carries a length modulo this. */
  const Modulus32: nat := 0x1_0000_0000

  function Pow256(w: nat): (r: nat)
    ensures r > 0
  {
    if w == 0 then 1 else 256 * Pow256(w - 1)
  }

  /** The `w` low base-256 digits of `n`, least significant first. */
  function LittleEndianDigits(n: nat, w: nat): (r: seq<Byte>)
    ensures |r| == w
  {
    if w == 0 then [] else [n % 256] + LittleEndianDigits(n / 256, w - 1)
  }

  /** The number whose base-256 digits, least significant first, are `bs`. */
  function LittleEndianValue(bs: seq<Byte>): nat
  {
    if bs == [] then 0 else bs[0] + 256 * LittleEndianValue(bs[1..])
  }

  function Reverse(s: seq<Byte>): (r: seq<Byte>)
    ensures |r| == |s|
  {
    if s == [] then [] else Reverse(s[1..]) + [s[0]]
  }

  /** The `w` bytes an unsigned integer of value `n mod 256^w` occupies in memory. */
  function InMemory(order: ByteOrder, n: nat, w: nat): (r: seq<Byte>)
    ensures |r| == w
  {
    match order
    case LittleEndian => LittleEndianDigits(n, w)
    case BigEndian => Reverse(LittleEndianDigits(n, w))
  }

  /** The unsigned integer stored in the memory bytes `bs`. */
  function FromMemory(order: ByteOrder, bs: seq<Byte>): nat
  {
    match order
    case LittleEndian => LittleEndianValue(bs)
    case BigEndian => LittleEndianValue(Reverse(bs))
  }

  /**
    The length prefix of a payload of `n` bytes: the low 32 bits of `n` as a
    four-byte integer in host byte order.
   */
  function LengthPrefix(order: ByteOrder, n: nat): (r: seq<Byte>)
    ensures |r| == PrefixLength
  {
    InMemory(order, n, PrefixLength)
  }

  /**
    The prefix as the client actually builds it: the first `sizeof(int32_t)`
    bytes of the memory holding the `size_t` length.  (The client also points
    the buffer at a local variable of `write()` that is gone by the time the
    asynchronous write runs; the model gives the bytes that variable held.)
   */
  function AsWrittenPrefix(h: Host, n: nat): (r: seq<Byte>)
    requires h.sizeWidth >= PrefixLength
    ensures |r| == PrefixLength
  {
    InMemory(h.order, n, h.sizeWidth)[..PrefixLength]
  }

  /** One frame: the length prefix followed by exactly the payload bytes. */
  function EncodeFrame(order: ByteOrder, p: Payload): (r: seq<Byte>)
    ensures |r| == PrefixLength + |p|
    ensures r[..PrefixLength] == LengthPrefix(order, |p|) && r[PrefixLength..] == p
  {
    LengthPrefix(order, |p|) + p
  }

  /** Frames written back to back, in order. */
  function EncodeFrames(order: ByteOrder, ps: seq<Payload>): seq<Byte>
  {
    if ps == [] then [] else EncodeFrame(order, ps[0]) + EncodeFrames(order, ps[1..])
  }

  /**
    The receiver's reading of one frame at the front of `bs`: the payload and
    the bytes after it, or None when the prefix or the payload is incomplete.
   */
  function DecodeFrame(order: ByteOrder, bs: seq<Byte>): (r: Option<(Payload, seq<Byte>)>)
    ensures r.Some? ==> |bs| == PrefixLength + |r.value.0| + |r.value.1|
  {
    if |bs| < PrefixLength then None
    else
      var n := FromMemory(order, bs[..PrefixLength]);
      if |bs| - PrefixLength < n then None
      else Some((bs[PrefixLength..PrefixLength + n], bs[PrefixLength + n..]))
  }

  /** The receiver's reading of a whole stream: every frame, or None if the stream ends mid-frame. */
  function DecodeFrames(order: ByteOrder, bs: seq<Byte>): Option<seq<Payload>>
    decreases |bs|
  {
    if bs == [] then Some([])
    else
      match DecodeFrame(order, bs)
      case None => None
      case Some((p, rest)) =>
        match DecodeFrames(order, rest)
        case None => None
        case Some(ps) => Some([p] + ps)
  }

  /** All payloads fit a four-byte length. */
  predicate Representable(ps: seq<Payload>)
  {
    forall i :: 0 <= i < |ps| ==> |ps[i]| < Modulus32
  }

  // ---------------------------------------------------------------------------
  // Arithmetic on base-256 digits

  lemma DivModUnique(n: nat, m: nat, q: nat, r: nat)
    requires m > 0 && r < m && n == m * q + r
    ensures n / m == q && n % m == r
  {
    var q', r' := n / m, n % m;
    var d: int := q - q';
    assert m * q' + r' == n;
    assert m * d == r' - r by {
      assert m * q - m * q' == r' - r;
      assert m * d == m * q - m * q';
    }
    if d > 0 {
      MulAtLeast(m, d);
    } else if d < 0 {
      MulAtLeast(m, -d);
    }
  }

  lemma MulAtLeast(m: nat, d: int)
    requires d > 0
    ensures m * d >= m
  {
  }

  lemma ModSplit(n: nat, p: nat)
    requires p > 0
    ensures n % (256 * p) == n % 256 + 256 * ((n / 256) % p)
  {
    var q, r := n / 256, n % 256;
    var a, b := q / p, q % p;
    assert n == 256 * q + r;
    assert q == p * a + b;
    assert n == (256 * p) * a + (256 * b + r);
    assert 256 * b + r < 256 * p;
    DivModUnique(n, 256 * p, a, 256 * b + r);
  }

  /** Reading back `w` digits of `n` yields `n` truncated to `w` bytes. */
  lemma {:induction false} DigitsValue(n: nat, w: nat)
    ensures LittleEndianValue(LittleEndianDigits(n, w)) == n % Pow256(w)
  {
    if w > 0 {
      DigitsValue(n / 256, w - 1);
      ModSplit(n, Pow256(w - 1));
    }
  }

  /** Writing out the value of `bs` in `|bs|` digits gives `bs` back. */
  lemma {:induction false} ValueDigits(bs: seq<Byte>)
    ensures LittleEndianDigits(LittleEndianValue(bs), |bs|) == bs
  {
    if bs != [] {
      var v := LittleEndianValue(bs);
      DivModUnique(v, 256, LittleEndianValue(bs[1..]), bs[0]);
      ValueDigits(bs[1..]);
    }
  }

  lemma {:induction false} ReverseAppend(s: seq<Byte>, b: Byte)
    ensures Reverse(s + [b]) == [b] + Reverse(s)
  {
    if s != [] {
      assert (s + [b])[1..] == s[1..] + [b];
      ReverseAppend(s[1..], b);
    }
  }

  lemma {:induction false} ReverseReverse(s: seq<Byte>)
    ensures Reverse(Reverse(s)) == s
  {
    if s != [] {
      ReverseAppend(Reverse(s[1..]), s[0]);
      ReverseReverse(s[1..]);
    }
  }

  lemma {:induction false} DigitsPrefix(n: nat, k: nat, w: nat)
    requires k <= w
    ensures LittleEndianDigits(n, w)[..k] == LittleEndianDigits(n, k)
  {
    if k > 0 {
      DigitsPrefix(n / 256, k - 1, w - 1);
    }
  }

  // ---------------------------------------------------------------------------
  // The length prefix

  /**
    The prefix carries the length modulo 2^32: a length of 2^32 bytes or more
    is silently truncated to its low 32 bits.
   */
  lemma PrefixCarriesLowBits(order: ByteOrder, n: nat)
    ensures FromMemory(order, LengthPrefix(order, n)) == n % Modulus32
  {
    assert Pow256(PrefixLength) == Modulus32;
    DigitsValue(n, PrefixLength);
    if order == BigEndian {
      ReverseReverse(LittleEndianDigits(n, PrefixLength));
    }
  }

  /** Every four bytes are the prefix of exactly the length they read as. */
  lemma PrefixOfReadLength(order: ByteOrder, bs: seq<Byte>)
    requires |bs| == PrefixLength
    ensures LengthPrefix(order, FromMemory(order, bs)) == bs
    ensures FromMemory(order, bs) < Modulus32
  {
    assert Pow256(PrefixLength) == Modulus32;
    match order
    case LittleEndian =>
      ValueDigits(bs);
      DigitsValue(LittleEndianValue(bs), PrefixLength);
    case BigEndian =>
      ValueDigits(Reverse(bs));
      DigitsValue(LittleEndianValue(Reverse(bs)), PrefixLength);
      ReverseReverse(bs);
  }

  /**
    On a little-endian host, and on any host whose `size_t` is four bytes
    wide, the prefix the client builds is the intended one.
   */
  lemma AsWrittenPrefixAgrees(h: Host, n: nat)
    requires h.sizeWidth >= PrefixLength
    requires h.order == LittleEndian || h.sizeWidth == PrefixLength
    ensures AsWrittenPrefix(h, n) == LengthPrefix(h.order, n)
  {
    if h.order == LittleEndian {
      DigitsPrefix(n, PrefixLength, h.sizeWidth);
    }
  }

  /** Digits at or above position `k` of a number below 256^k are zero. */
  lemma {:induction false} HighDigitsZero(n: nat, k: nat, w: nat)
    requires k <= w && n < Pow256(k)
    ensures forall i :: k <= i < w ==> LittleEndianDigits(n, w)[i] == 0
    decreases w
  {
    if w > 0 {
      if k == 0 {
        HighDigitsZero(0, 0, w - 1);
      } else {
        assert n / 256 < Pow256(k - 1) by {
          assert 256 * (n / 256) <= n;
        }
        HighDigitsZero(n / 256, k - 1, w - 1);
      }
    }
  }

  lemma {:induction false} ReverseAt(s: seq<Byte>)
    ensures forall i :: 0 <= i < |s| ==> Reverse(s)[i] == s[|s| - 1 - i]
  {
    if s != [] {
      ReverseAt(s[1..]);
    }
  }

  /**
    On a 64-bit big-endian host the prefix the client builds is the HIGH
    half of the `size_t`: every payload of 1 to 2^32 - 1 bytes is announced
    as length 0, where the intended prefix reads as its length.
   */
  lemma AsWrittenPrefixLosesLength(n: nat)
    requires 0 < n < Modulus32
    ensures AsWrittenPrefix(Host(BigEndian, 8), n) == [0, 0, 0, 0]
    ensures FromMemory(BigEndian, AsWrittenPrefix(Host(BigEndian, 8), n)) == 0
    ensures FromMemory(BigEndian, LengthPrefix(BigEndian, n)) == n
  {
    var digits := LittleEndianDigits(n, 8);
    assert Pow256(4) == Modulus32;
    HighDigitsZero(n, 4, 8);
    ReverseAt(digits);
    var zeros: seq<Byte> := [0, 0, 0, 0];
    assert AsWrittenPrefix(Host(BigEndian, 8), n) == zeros;
    assert Reverse(zeros) == zeros by { ReverseAt(zeros); }
    assert LittleEndianValue(zeros) == 0 by {
      assert zeros[1..][1..][1..][1..] == [];
    }
    PrefixCarriesLowBits(BigEndian, n);
  }

  // ---------------------------------------------------------------------------
  // Frames

  /**
    A frame followed by anything decodes to the payload's first |p| mod 2^32
    bytes, the rest of the payload being read as the start of what follows.
   */
  lemma DecodeTruncatedFrame(order: ByteOrder, p: Payload, rest: seq<Byte>)
    ensures var k := |p| % Modulus32;
      DecodeFrame(order, EncodeFrame(order, p) + rest) == Some((p[..k], p[k..] + rest))
  {
    var bs := EncodeFrame(order, p) + rest;
    assert bs[..PrefixLength] == LengthPrefix(order, |p|);
    PrefixCarriesLowBits(order, |p|);
    var k := |p| % Modulus32;
    assert bs[PrefixLength..PrefixLength + k] == p[..k];
    assert bs[PrefixLength + k..] == p[k..] + rest;
  }

  /** A frame whose payload fits a four-byte length decodes to that payload and leaves the rest. */
  lemma FrameRoundTrip(order: ByteOrder, p: Payload, rest: seq<Byte>)
    requires |p| < Modulus32
    ensures DecodeFrame(order, EncodeFrame(order, p) + rest) == Some((p, rest))
  {
    DecodeTruncatedFrame(order, p, rest);
    assert p[..|p|] == p && p[|p|..] == [];
  }

  /** Whatever the receiver reads as one frame is exactly that frame followed by the rest. */
  lemma DecodedFrameIsEncoded(order: ByteOrder, bs: seq<Byte>)
    requires DecodeFrame(order, bs).Some?
    ensures var (p, rest) := DecodeFrame(order, bs).value;
      |p| < Modulus32 && bs == EncodeFrame(order, p) + rest
  {
    var (p, rest) := DecodeFrame(order, bs).value;
    PrefixOfReadLength(order, bs[..PrefixLength]);
    assert bs == bs[..PrefixLength] + p + rest;
  }

  lemma {:induction false} EncodeFramesAppend(order: ByteOrder, ps: seq<Payload>, p: Payload)
    ensures EncodeFrames(order, ps + [p]) == EncodeFrames(order, ps) + EncodeFrame(order, p)
  {
    if ps != [] {
      assert (ps + [p])[1..] == ps[1..] + [p];
      EncodeFramesAppend(order, ps[1..], p);
    } else {
      assert EncodeFrames(order, [p]) == EncodeFrame(order, p) + EncodeFrames(order, []);
    }
  }

  /** A stream of frames whose payloads fit four-byte lengths decodes to the payloads, in order. */
  lemma {:induction false} StreamRoundTrip(order: ByteOrder, ps: seq<Payload>)
    requires Representable(ps)
    ensures DecodeFrames(order, EncodeFrames(order, ps)) == Some(ps)
  {
    if ps != [] {
      var tail := EncodeFrames(order, ps[1..]);
      FrameRoundTrip(order, ps[0], tail);
      StreamRoundTrip(order, ps[1..]);
      assert [ps[0]] + ps[1..] == ps;
    }
  }

  /** Whatever the receiver reads as a stream of frames is exactly those frames, back to back. */
  lemma {:induction false} DecodedStreamIsEncoded(order: ByteOrder, bs: seq<Byte>)
    requires DecodeFrames(order, bs).Some?
    ensures Representable(DecodeFrames(order, bs).value)
    ensures EncodeFrames(order, DecodeFrames(order, bs).value) == bs
    decreases |bs|
  {
    if bs != [] {
      var (p, rest) := DecodeFrame(order, bs).value;
      DecodedFrameIsEncoded(order, bs);
      DecodedStreamIsEncoded(order, rest);
      var ps := DecodeFrames(order, rest).value;
      assert DecodeFrames(order, bs).value == [p] + ps;
      assert ([p] + ps)[1..] == ps;
    }
  }
}
