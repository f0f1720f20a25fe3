/** IntHelper: the little-endian fixed-width packers and the variable-length
    unsigned integer (VarUInt) used in the transaction pre-image.

    Encoding picks one of four buckets by magnitude: a single byte below 250,
    otherwise a marker byte 250 / 251 / 252 followed by the value as 2 / 4 / 8
    little-endian bytes.  Values are PHP integers, so below 2^63. */
module IntHelper {
  import opened Php

  /** PHP_INT_MAX + 1. */
  const Int64Bound: nat := 0x8000_0000_0000_0000
  const UInt64Modulus: nat := 0x1_0000_0000_0000_0000

  function Pow256(w: nat): (p: nat)
    ensures p >= 1
  {
    if w == 0 then 1 else 256 * Pow256(w - 1)
  }

  /** pack() with a little-endian format: the low `width` bytes of n, least
      significant first (higher bytes are cut off, as pack does). */
  function PackLE(n: nat, width: nat): (b: seq<byte>)
    ensures |b| == width
  {
    if width == 0 then [] else [n % 256] + PackLE(n / 256, width - 1)
  }

  /** The number a little-endian byte string denotes. */
  function LEValue(b: seq<byte>): nat {
    if b == [] then 0 else b[0] + 256 * LEValue(b[1..])
  }

  function PackUInt8(n: nat): seq<byte> { PackLE(n, 1) }   // pack('C', n)
  function PackUInt16(n: nat): seq<byte> { PackLE(n, 2) }  // pack('v', n)
  function PackUInt32(n: nat): seq<byte> { PackLE(n, 4) }  // pack('V', n)
  function PackUInt64(n: nat): seq<byte> { PackLE(n, 8) }  // pack('P', n)

  /** unpack('C', b)[1]; None where PHP reports "not enough input". */
  function UnpackUInt8(b: seq<byte>): (r: Option<int>)
    ensures r.Some? <==> |b| >= 1
  {
    if |b| < 1 then None else Some(b[0])
  }

  /** unpack('v', b)[1]. */
  function UnpackUInt16(b: seq<byte>): (r: Option<int>)
    ensures r.Some? <==> |b| >= 2
  {
    if |b| < 2 then None else Some(LEValue(b[..2]))
  }

  /** unpack('V', b)[1]. */
  function UnpackUInt32(b: seq<byte>): (r: Option<int>)
    ensures r.Some? <==> |b| >= 4
  {
    if |b| < 4 then None else Some(LEValue(b[..4]))
  }

  /** unpack('P', b)[1]: PHP integers are signed 64-bit, so a value of 2^63 or more
      comes back negative. */
  function UnpackUInt64(b: seq<byte>): (r: Option<int>)
    ensures r.Some? <==> |b| >= 8
  {
    if |b| < 8 then None
    else
      var v := LEValue(b[..8]);
      Some(if v >= Int64Bound then v - UInt64Modulus else v)
  }

  /** VarUInt($i) for an integer $i, binary mode. */
  function VarUInt(n: nat): seq<byte>
    requires n < Int64Bound
  {
    if n < 250 then PackUInt8(n)
    else if n < 65536 then PackUInt8(250) + PackUInt16(n)
    else if n < 0x1_0000_0000 then PackUInt8(251) + PackUInt32(n)
    else PackUInt8(252) + PackUInt64(n)
  }

  /** VarUInt($i, true): each packed piece is hex-encoded, then the pieces are joined. */
  function VarUIntHex(n: nat): string
    requires n < Int64Bound
  {
    if n < 250 then Bin2Hex(PackUInt8(n))
    else if n < 65536 then Bin2Hex(PackUInt8(250)) + Bin2Hex(PackUInt16(n))
    else if n < 0x1_0000_0000 then Bin2Hex(PackUInt8(251)) + Bin2Hex(PackUInt32(n))
    else Bin2Hex(PackUInt8(252)) + Bin2Hex(PackUInt64(n))
  }

  /** VarUInt($s, true) for a hex string $s: the form is chosen by the LENGTH of the
      text, not by the marker byte; the 6-, 10- and 18-character forms skip the two
      marker digits.  A string hex2bin rejects unpacks as "" and gives None. */
  function VarUIntDecodeHex(s: string): Option<int> {
    var l := |s|;
    if l == 2 then UnpackUInt8(Hex2BinLoose(s))
    else if l == 4 then UnpackUInt16(Hex2BinLoose(s))
    else if l == 6 then UnpackUInt16(Hex2BinLoose(SubstrFrom(s, 2)))
    else if l == 8 then UnpackUInt32(Hex2BinLoose(s))
    else if l == 10 then UnpackUInt32(Hex2BinLoose(SubstrFrom(s, 2)))
    else if l == 18 then UnpackUInt64(Hex2BinLoose(SubstrFrom(s, 2)))
    else UnpackUInt64(Hex2BinLoose(s))
  }

  /** VarUInt($s) for a binary string $s, as written: the same length dispatch as the
      hex mode, applied to a byte count. */
  function VarUIntDecodeBinary(b: seq<byte>): Option<int> {
    var l := |b|;
    if l == 2 then UnpackUInt8(b)
    else if l == 4 then UnpackUInt16(b)
    else if l == 6 then UnpackUInt16(SubstrFrom(b, 2))
    else if l == 8 then UnpackUInt32(b)
    else if l == 10 then UnpackUInt32(SubstrFrom(b, 2))
    else if l == 18 then UnpackUInt64(SubstrFrom(b, 2))
    else UnpackUInt64(b)
  }

  /** Binary-mode decoding as the hex mode does it, with lengths counted in bytes
      (one byte per two hex digits, a one-byte marker to skip). */
  function VarUIntDecode(b: seq<byte>): Option<int> {
    var l := |b|;
    if l == 1 then UnpackUInt8(b)
    else if l == 2 then UnpackUInt16(b)
    else if l == 3 then UnpackUInt16(b[1..])
    else if l == 4 then UnpackUInt32(b)
    else if l == 5 then UnpackUInt32(b[1..])
    else if l == 9 then UnpackUInt64(b[1..])
    else UnpackUInt64(b)
  }

  // ---------------------------------------------------------------------------
  // Little-endian packing
  // ---------------------------------------------------------------------------

  lemma {:induction false} LEValueOfPackLE(n: nat, width: nat)
    requires n < Pow256(width)
    ensures LEValue(PackLE(n, width)) == n
  {
    if width > 0 {
      var b := PackLE(n, width);
      assert b[0] == n % 256 && b[1..] == PackLE(n / 256, width - 1);
      assert n / 256 < Pow256(width - 1);
      LEValueOfPackLE(n / 256, width - 1);
    }
  }

  lemma Pow256Values()
    ensures Pow256(1) == 256 && Pow256(2) == 65536 && Pow256(4) == 0x1_0000_0000
    ensures Pow256(8) == UInt64Modulus
  {
  }

  /** The unsigned packers and unpackers are inverse on the range each width holds. */
  lemma UIntRoundTrips(n: nat)
    ensures n < 256 ==> UnpackUInt8(PackUInt8(n)) == Some(n)
    ensures n < 65536 ==> UnpackUInt16(PackUInt16(n)) == Some(n)
    ensures n < 0x1_0000_0000 ==> UnpackUInt32(PackUInt32(n)) == Some(n)
    ensures n < Int64Bound ==> UnpackUInt64(PackUInt64(n)) == Some(n)
  {
    Pow256Values();
    if n < 256 { LEValueOfPackLE(n, 1); }
    if n < 65536 { LEValueOfPackLE(n, 2); assert PackLE(n, 2)[..2] == PackLE(n, 2); }
    if n < 0x1_0000_0000 { LEValueOfPackLE(n, 4); assert PackLE(n, 4)[..4] == PackLE(n, 4); }
    if n < Int64Bound { LEValueOfPackLE(n, 8); assert PackLE(n, 8)[..8] == PackLE(n, 8); }
  }

  /** unpack('P') reads the top half of the unsigned 64-bit range back as negative
      PHP integers. */
  lemma UInt64WrapsAboveInt64(n: nat)
    requires Int64Bound <= n < UInt64Modulus
    ensures UnpackUInt64(PackUInt64(n)) == Some(n - UInt64Modulus)
    ensures n - UInt64Modulus < 0
  {
    Pow256Values();
    LEValueOfPackLE(n, 8);
    assert PackLE(n, 8)[..8] == PackLE(n, 8);
  }

  // ---------------------------------------------------------------------------
  // VarUInt
  // ---------------------------------------------------------------------------

  /** The four buckets: the output is 1, 3, 5 or 9 bytes, a marker selects the width,
      and the bytes after the marker hold n little-endian. */
  lemma VarUIntBuckets(n: nat)
    requires n < Int64Bound
    ensures n < 250 ==> VarUInt(n) == [n]
    ensures 250 <= n < 65536 ==>
      |VarUInt(n)| == 3 && VarUInt(n)[0] == 250 && LEValue(VarUInt(n)[1..]) == n
    ensures 65536 <= n < 0x1_0000_0000 ==>
      |VarUInt(n)| == 5 && VarUInt(n)[0] == 251 && LEValue(VarUInt(n)[1..]) == n
    ensures 0x1_0000_0000 <= n ==>
      |VarUInt(n)| == 9 && VarUInt(n)[0] == 252 && LEValue(VarUInt(n)[1..]) == n
  {
    Pow256Values();
    var r := VarUInt(n);
    if n < 250 {
    } else if n < 65536 {
      assert r[1..] == PackLE(n, 2);
      LEValueOfPackLE(n, 2);
    } else if n < 0x1_0000_0000 {
      assert r[1..] == PackLE(n, 4);
      LEValueOfPackLE(n, 4);
    } else {
      assert r[1..] == PackLE(n, 8);
      LEValueOfPackLE(n, 8);
    }
  }

  /** Hex mode is bin2hex of binary mode. */
  lemma VarUIntHexIsBin2Hex(n: nat)
    requires n < Int64Bound
    ensures VarUIntHex(n) == Bin2Hex(VarUInt(n))
  {
    if n >= 250 {
      var marker := if n < 65536 then 250 else if n < 0x1_0000_0000 then 251 else 252;
      var width := if n < 65536 then 2 else if n < 0x1_0000_0000 then 4 else 8;
      assert VarUInt(n) == PackUInt8(marker) + PackLE(n, width);
      Bin2HexAppend(PackUInt8(marker), PackLE(n, width));
    }
  }

  /** Decoding what was encoded gives the number back. */
  lemma VarUIntRoundTrip(n: nat)
    requires n < Int64Bound
    ensures VarUIntDecode(VarUInt(n)) == Some(n)
  {
    VarUIntBuckets(n);
    var r := VarUInt(n);
    if n >= 250 {
      assert r[1..][..|r| - 1] == r[1..];
    }
  }

  /** The hex-mode decoder is the byte decoder read through hex2bin. */
  lemma VarUIntDecodeHexOfBin2Hex(b: seq<byte>)
    ensures VarUIntDecodeHex(Bin2Hex(b)) == VarUIntDecode(b)
  {
    var h := Bin2Hex(b);
    assert |h| == 2 * |b|;
    Hex2BinLooseOfBin2Hex(b);
    if |b| in {3, 5, 9} {
      Bin2HexDropFirst(b);
      Hex2BinLooseOfBin2Hex(b[1..]);
      assert Hex2BinLoose(SubstrFrom(h, 2)) == b[1..];
    } else {
      assert |h| !in {6, 10, 18};
    }
  }

  /** The hex round trip of the transaction fields. */
  lemma VarUIntHexRoundTrip(n: nat)
    requires n < Int64Bound
    ensures VarUIntDecodeHex(VarUIntHex(n)) == Some(n)
  {
    VarUIntHexIsBin2Hex(n);
    VarUIntDecodeHexOfBin2Hex(VarUInt(n));
    VarUIntRoundTrip(n);
  }

  /** The encoder is canonical: distinct values have distinct encodings. */
  lemma VarUIntInjective(m: nat, n: nat)
    requires m < Int64Bound && n < Int64Bound
    ensures VarUInt(m) == VarUInt(n) <==> m == n
  {
    if VarUInt(m) == VarUInt(n) {
      VarUIntRoundTrip(m);
      VarUIntRoundTrip(n);
    }
  }

  /** The decoder does not insist on the minimal form: a marker-250 encoding of 1
      decodes to 1 although 1 encodes as a single byte. */
  lemma VarUIntDecodeHexAcceptsNonMinimal()
    ensures VarUIntDecodeHex("fa0100") == Some(1)
    ensures VarUIntHex(1) == "01"
  {
    var b: seq<byte> := [250, 1, 0];
    assert Bin2Hex(b) == "fa0100";
    VarUIntDecodeHexOfBin2Hex(b);
    assert b[1..][..2] == [1, 0];
    assert Bin2Hex(PackUInt8(1)) == "01";
  }

  /** As written, the binary-mode decoder never reads back a 1-, 3- or 5-byte
      encoding: those lengths fall through to the 8-byte unpack. */
  lemma VarUIntDecodeBinaryRejectsShortEncodings(n: nat)
    requires n < 0x1_0000_0000
    ensures VarUIntDecodeBinary(VarUInt(n)) == None
    ensures VarUIntDecode(VarUInt(n)) == Some(n)
  {
    VarUIntBuckets(n);
    VarUIntRoundTrip(n);
  }

  /** The concrete case: 300 encodes as fa 2c 01, which the binary decoder as
      written turns into None (PHP: false). */
  lemma VarUIntDecodeBinaryCounterexample()
    ensures VarUInt(300) == [250, 44, 1]
    ensures VarUIntDecodeBinary(VarUInt(300)) == None
    ensures VarUIntDecode(VarUInt(300)) == Some(300)
  {
    VarUIntDecodeBinaryRejectsShortEncodings(300);
  }
}
