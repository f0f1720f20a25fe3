/** Ecdsa: address derivation from a public point and address checksum validation,
    plus the `0x` prefix helpers.

    An address is `0x` + hex(net || RIPEMD160(SHA256(04 || X || Y))) + the first
    eight hex digits of SHA256(SHA256(net || ripemd)), where X and Y are the point's
    coordinates as 32-byte big-endian numbers (the uncompressed form of section
    2.3.3 of SEC 1 v2).  SHA-256 (FIPS 180-4) and RIPEMD-160 are not modelled: every
    member takes them as a HashSuite parameter whose only known property is the
    digest length. */
module Ecdsa {
  import opened Php

  type Sha256Digest = d: seq<byte> | |d| == 32 witness seq(32, _ => 0)
  type Ripemd160Digest = d: seq<byte> | |d| == 20 witness seq(20, _ => 0)

  datatype HashSuite = HashSuite(sha256: seq<byte> -> Sha256Digest, ripemd160: seq<byte> -> Ripemd160Digest)

  /** The network byte getAdress uses when none is given. */
  const DefaultNet: string := "00"

  // ---------------------------------------------------------------------------
  // to_base16 / parse_base16
  // ---------------------------------------------------------------------------

  /** substr($s, 0, 2) === '0x' */
  predicate HasHexPrefix(s: string) {
    |s| >= 2 && s[..2] == "0x"
  }

  function ToBase16(s: string): (r: string)
    ensures HasHexPrefix(r)
    ensures HasHexPrefix(s) ==> r == s
    ensures !HasHexPrefix(s) ==> r == "0x" + s
  {
    if HasHexPrefix(s) then s else "0x" + s
  }

  function ParseBase16(s: string): (r: string)
    ensures HasHexPrefix(s) ==> "0x" + r == s
    ensures !HasHexPrefix(s) ==> r == s
  {
    if HasHexPrefix(s) then s[2..] else s
  }

  lemma ToBase16Idempotent(s: string)
    ensures ToBase16(ToBase16(s)) == ToBase16(s)
  {
  }

  /** parse_base16 undoes to_base16 exactly when there was no prefix to begin with. */
  lemma ParseBase16OfToBase16(s: string)
    ensures ParseBase16(ToBase16(s)) == s <==> !HasHexPrefix(s)
  {
    if HasHexPrefix(s) {
      assert |ParseBase16(ToBase16(s))| < |s|;
    }
  }

  /** bin2hex output never carries the prefix, so to_base16 always prepends one. */
  lemma LowerHexHasNoPrefix(s: string)
    requires IsLowerHexString(s)
    ensures !HasHexPrefix(s)
  {
    if |s| >= 2 {
      assert IsLowerHexChar(s[1]);
    }
  }

  // ---------------------------------------------------------------------------
  // The point in hex
  // ---------------------------------------------------------------------------

  /** gmp_strval(n, 16): lower-case hex digits without leading zeros ("0" for zero). */
  function GmpHex(n: nat): (s: string)
    ensures |s| >= 1 && IsLowerHexString(s)
    ensures s[0] == '0' ==> n == 0
    decreases n
  {
    if n < 16 then [HexDigit(n)] else GmpHex(n / 16) + [HexDigit(n % 16)]
  }

  /** str_repeat($c, $k) */
  function Repeat(c: char, k: nat): (s: string)
    ensures |s| == k && forall i :: 0 <= i < k ==> s[i] == c
  {
    if k == 0 then "" else [c] + Repeat(c, k - 1)
  }

  /** Left-pads a coordinate to 64 digits, as lines 212-213 and 215-216 do. */
  function PadHex64(s: string): string {
    var pad := 64 - |s|;
    if pad > 0 then Repeat('0', pad) + s else s
  }

  /** '04' . $x . $y */
  function PointHex(x: nat, y: nat): string {
    "04" + PadHex64(GmpHex(x)) + PadHex64(GmpHex(y))
  }

  // ---------------------------------------------------------------------------
  // getAdress / checkAdress
  // ---------------------------------------------------------------------------

  /** getAdress for a point (x, y) and a network prefix given as hex text.  Each
      step is one line of the source; a failing hex2bin hands PHP's false on as "". */
  function GetAddress(h: HashSuite, x: nat, y: nat, net: string): (address: string)
    ensures HasHexPrefix(address)
  {
    var point := Hex2BinLoose(PointHex(x, y));
    var digest := Hex2BinLoose(Bin2Hex(h.sha256(point)));
    var code := Hex2BinLoose(net + Bin2Hex(h.ripemd160(digest)));
    var sum := Hex2BinLoose(Bin2Hex(h.sha256(code)));
    var checksum := Substr(Bin2Hex(h.sha256(sum)), 0, 8);
    ToBase16(Bin2Hex(code) + checksum)
  }

  /** checkAdress: the last eight characters must equal the first eight hex digits of
      the double SHA-256 of the body, where the body is what is left after removing
      those eight characters AND THE FIRST TWO CHARACTERS, whatever they are. */
  function CheckAddress(h: HashSuite, address: string): (valid: bool)
    ensures IsEmpty(address) ==> !valid
    ensures |ParseBase16(address)| % 2 == 1 ==> !valid
    ensures valid ==> |address| >= 8
  {
    if IsEmpty(address) then false
    else if |ParseBase16(address)| % 2 == 1 then false
    else
      var stored := Substr(address, |address| - 8, 8);
      var code := SubstrFrom(Substr(address, 0, |address| - 8), 2);
      var sum := Hex2BinLoose(Bin2Hex(h.sha256(Hex2BinLoose(code))));
      stored == Substr(Bin2Hex(h.sha256(sum)), 0, 8)
  }

  // ---------------------------------------------------------------------------
  // Reference definitions
  // ---------------------------------------------------------------------------

  /** n as a w-byte big-endian number (the coordinate encoding of SEC 1). */
  function BigEndian(n: nat, w: nat): (b: seq<byte>)
    ensures |b| == w
  {
    if w == 0 then [] else BigEndian(n / 256, w - 1) + [n % 256]
  }

  /** The first four bytes of the double SHA-256 of an address body. */
  function Checksum(h: HashSuite, body: seq<byte>): seq<byte> {
    h.sha256(h.sha256(body))[..4]
  }

  /** An address: prefix, body in hex, checksum in hex. */
  function AddressFromBody(h: HashSuite, body: seq<byte>): string {
    "0x" + Bin2Hex(body) + Bin2Hex(Checksum(h, body))
  }

  /** The body getAdress hashes: net || RIPEMD160(SHA256(point)), or "" when the
      network text is not hex2bin-able. */
  function AddressBody(h: HashSuite, x: nat, y: nat, net: string): seq<byte> {
    Hex2BinLoose(net + Bin2Hex(h.ripemd160(h.sha256(Hex2BinLoose(PointHex(x, y))))))
  }

  function HexPow(k: nat): (p: nat)
    ensures p >= 1
  {
    if k == 0 then 1 else 16 * HexPow(k - 1)
  }

  /** The number a hex string denotes, most significant digit first. */
  function HexValue(s: string): nat {
    if s == [] then 0 else 16 * HexValue(s[..|s| - 1]) + NibbleOrZero(s[|s| - 1])
  }

  // ---------------------------------------------------------------------------
  // Point encoding
  // ---------------------------------------------------------------------------

  lemma {:induction false} HexValueOfGmpHex(n: nat)
    ensures HexValue(GmpHex(n)) == n
    decreases n
  {
    NibbleOfHexDigit(n % 16);
    if n >= 16 {
      var s := GmpHex(n);
      assert s[..|s| - 1] == GmpHex(n / 16);
      HexValueOfGmpHex(n / 16);
    }
  }

  lemma {:induction false} GmpHexLength(n: nat, k: nat)
    requires 1 <= k && n < HexPow(k)
    ensures |GmpHex(n)| <= k
    decreases k
  {
    if n >= 16 {
      assert k > 1;
      assert n / 16 < HexPow(k - 1);
      GmpHexLength(n / 16, k - 1);
    }
  }

  lemma {:induction false} HexValueLeadingZeros(k: nat, s: string)
    ensures HexValue(Repeat('0', k) + s) == HexValue(s)
    decreases |s|
  {
    var z := Repeat('0', k);
    if s == [] {
      assert z + s == z;
      ZerosHaveValueZero(k);
    } else {
      assert (z + s)[..|z + s| - 1] == z + s[..|s| - 1];
      HexValueLeadingZeros(k, s[..|s| - 1]);
    }
  }

  lemma {:induction false} ZerosHaveValueZero(k: nat)
    ensures HexValue(Repeat('0', k)) == 0
  {
    if k > 0 {
      var z := Repeat('0', k);
      assert z[..k - 1] == Repeat('0', k - 1);
      ZerosHaveValueZero(k - 1);
    }
  }

  lemma DivModByte(q: nat, r: nat)
    requires r < 256
    ensures (256 * q + r) / 256 == q && (256 * q + r) % 256 == r
  {
  }

  /** Two more digits multiply the value by 256 and add the byte they spell. */
  lemma HexValueSnoc2(t: string, c0: char, c1: char)
    ensures HexValue(t + [c0, c1]) == 256 * HexValue(t) + (NibbleOrZero(c0) as int * 16 + NibbleOrZero(c1) as int)
  {
    var t0 := t + [c0];
    assert (t + [c0, c1])[..|t| + 1] == t0 && (t + [c0, c1])[|t| + 1] == c1;
    assert t0[..|t0| - 1] == t && t0[|t0| - 1] == c0;
  }

  /** One more low byte appends that byte to the big-endian form. */
  lemma BigEndianSnoc(q: nat, r: nat, w: nat)
    requires r < 256 && w >= 1
    ensures BigEndian(256 * q + r, w) == BigEndian(q, w - 1) + [r]
  {
    DivModByte(q, r);
  }

  /** hex2bin of 2w hex digits is their value as w big-endian bytes. */
  lemma {:induction false} Hex2BinIsBigEndian(s: string, w: nat)
    requires |s| == 2 * w && IsHexString(s)
    ensures Hex2Bin(s) == Some(BigEndian(HexValue(s), w))
    decreases w
  {
    if w == 0 {
      assert s == [];
    } else {
      var t := s[..|s| - 2];
      var c0, c1 := s[|s| - 2], s[|s| - 1];
      assert s == t + [c0, c1];
      assert IsHexString(t) by {
        forall i | 0 <= i < |t| ensures IsHexChar(t[i]) { assert t[i] == s[i]; }
      }
      Hex2BinIsBigEndian(t, w - 1);
      Hex2BinAppend(t, [c0, c1]);
      Hex2BinPair(c0, c1);
      HexValueSnoc2(t, c0, c1);
      BigEndianSnoc(HexValue(t), NibbleOrZero(c0) as int * 16 + NibbleOrZero(c1) as int, w);
    }
  }

  lemma LowerHexIsHex(s: string)
    requires IsLowerHexString(s)
    ensures IsHexString(s)
  {
    forall i | 0 <= i < |s| ensures IsHexChar(s[i]) { assert IsLowerHexChar(s[i]); }
  }

  /** Padding keeps the digits hex and the value unchanged. */
  lemma PadHex64Keeps(g: string)
    requires |g| <= 64 && IsLowerHexString(g)
    ensures |PadHex64(g)| == 64 || |g| == 0
    ensures IsLowerHexString(PadHex64(g))
    ensures HexValue(PadHex64(g)) == HexValue(g)
  {
    var k := 64 - |g|;
    if k > 0 {
      HexValueLeadingZeros(k, g);
      var z := Repeat('0', k);
      assert IsLowerHexString(z);
      LowerHexAppend(z, g);
    }
  }

  lemma PadHex64Shape(x: nat)
    requires x < HexPow(64)
    ensures |PadHex64(GmpHex(x))| == 64
    ensures IsHexString(PadHex64(GmpHex(x)))
    ensures HexValue(PadHex64(GmpHex(x))) == x
  {
    var g := GmpHex(x);
    GmpHexLength(x, 64);
    HexValueOfGmpHex(x);
    PadHex64Keeps(g);
    LowerHexIsHex(PadHex64(g));
  }

  /** The uncompressed encoding of a point: 04 || X || Y, each coordinate as 32
      big-endian bytes. */
  function PointBytes(x: nat, y: nat): (b: seq<byte>)
    ensures |b| == 65 && b[0] == 4
  {
    [4] + BigEndian(x, 32) + BigEndian(y, 32)
  }

  /** A coordinate padded to 64 digits reads back as its 32 big-endian bytes. */
  lemma CoordinateHex(x: nat)
    requires x < HexPow(64)
    ensures |PadHex64(GmpHex(x))| == 64
    ensures Hex2Bin(PadHex64(GmpHex(x))) == Some(BigEndian(x, 32))
  {
    PadHex64Shape(x);
    Hex2BinIsBigEndian(PadHex64(GmpHex(x)), 32);
  }

  /** The marker 04 followed by two coordinate texts reads back as 04 || X || Y. */
  lemma MarkedPair(px: string, py: string, bx: seq<byte>, bY: seq<byte>)
    requires |px| % 2 == 0 && Hex2Bin(px) == Some(bx) && Hex2Bin(py) == Some(bY)
    ensures Hex2Bin("04" + px + py) == Some([4] + bx + bY)
  {
    MarkerHex();
    ThreePieces("04", px, py);
  }

  /** The hashed point is 04 || X || Y with both coordinates 32-byte big-endian. */
  lemma PointEncoding(x: nat, y: nat)
    requires x < HexPow(64) && y < HexPow(64)
    ensures Hex2Bin(PointHex(x, y)) == Some(PointBytes(x, y))
  {
    CoordinateHex(x);
    CoordinateHex(y);
    MarkedPair(PadHex64(GmpHex(x)), PadHex64(GmpHex(y)), BigEndian(x, 32), BigEndian(y, 32));
  }

  /** hex2bin of three even pieces joined. */
  lemma ThreePieces(m: string, p: string, q: string)
    requires |m| % 2 == 0 && |p| % 2 == 0
    requires Hex2Bin(m).Some? && Hex2Bin(p).Some? && Hex2Bin(q).Some?
    ensures Hex2Bin(m + p + q) == Some(Hex2BinLoose(m) + Hex2BinLoose(p) + Hex2BinLoose(q))
  {
    Hex2BinAppend(m, p);
    Hex2BinAppend(m + p, q);
  }

  lemma MarkerHex()
    ensures Hex2Bin("04") == Some([4])
  {
    assert "04" == ['0', '4'];
    Hex2BinPair('0', '4');
  }

  // ---------------------------------------------------------------------------
  // Address shape
  // ---------------------------------------------------------------------------

  lemma ChecksumHex(h: HashSuite, body: seq<byte>)
    ensures Substr(Bin2Hex(h.sha256(h.sha256(body))), 0, 8) == Bin2Hex(Checksum(h, body))
  {
    Bin2HexPrefix(h.sha256(h.sha256(body)), 4);
  }

  lemma LowerHexAppend(s: string, t: string)
    requires IsLowerHexString(s) && IsLowerHexString(t)
    ensures IsLowerHexString(s + t)
  {
    forall i | 0 <= i < |s + t| ensures IsLowerHexChar((s + t)[i]) {
      if i >= |s| { assert (s + t)[i] == t[i - |s|]; }
    }
  }

  /** For every input, getAdress builds `0x` + hex(body) + hex(checksum(body)). */
  lemma GetAddressShape(h: HashSuite, x: nat, y: nat, net: string)
    ensures GetAddress(h, x, y, net) == AddressFromBody(h, AddressBody(h, x, y, net))
  {
    var point := Hex2BinLoose(PointHex(x, y));
    Hex2BinLooseOfBin2Hex(h.sha256(point));
    var code := AddressBody(h, x, y, net);
    Hex2BinLooseOfBin2Hex(h.sha256(code));
    ChecksumHex(h, code);
    LowerHexAppend(Bin2Hex(code), Bin2Hex(Checksum(h, code)));
    LowerHexHasNoPrefix(Bin2Hex(code) + Bin2Hex(Checksum(h, code)));
  }

  /** The body getAdress hashes is the network bytes followed by
      RIPEMD160(SHA256(04 || X || Y)). */
  lemma AddressBodyOfPoint(h: HashSuite, x: nat, y: nat, net: string)
    requires x < HexPow(64) && y < HexPow(64)
    requires Hex2Bin(net).Some?
    ensures AddressBody(h, x, y, net) == Hex2BinLoose(net) + h.ripemd160(h.sha256(PointBytes(x, y)))
  {
    PointEncoding(x, y);
    var r := h.ripemd160(h.sha256(PointBytes(x, y)));
    Hex2BinOfBin2Hex(r);
    Hex2BinDefined(net);
    Hex2BinAppend(net, Bin2Hex(r));
  }

  lemma AddressLength(h: HashSuite, body: seq<byte>)
    ensures |AddressFromBody(h, body)| == 2 + 2 * |body| + 8
  {
  }

  /** With coordinates below 2^256 = 16^64 and a network prefix of hex2bin-able text,
      the address is 0x ‖ hex(net ‖ RIPEMD160(SHA256(04 ‖ X ‖ Y))) ‖ 8 checksum digits,
      where X and Y are 32-byte big-endian; it has 2 + |net| + 40 + 8 characters (52
      for the default one-byte network). */
  lemma GetAddressOfPoint(h: HashSuite, x: nat, y: nat, net: string)
    requires x < HexPow(64) && y < HexPow(64)
    requires Hex2Bin(net).Some?
    ensures var body: seq<byte> := Hex2BinLoose(net) + h.ripemd160(h.sha256(PointBytes(x, y)));
            GetAddress(h, x, y, net) == AddressFromBody(h, body)
    ensures |GetAddress(h, x, y, net)| == 2 + |net| + 48
  {
    GetAddressShape(h, x, y, net);
    AddressBodyOfPoint(h, x, y, net);
    Hex2BinDefined(net);
    var body := AddressBody(h, x, y, net);
    assert |body| == |net| / 2 + 20;
    AddressLength(h, body);
  }

  // ---------------------------------------------------------------------------
  // Validation
  // ---------------------------------------------------------------------------

  /** What checkAdress accepts, in one line: a non-empty string of even length once
      any prefix is removed, at least eight characters long, whose last eight
      characters are the hex checksum of the characters before them minus the first
      two. */
  lemma CheckAddressMeaning(h: HashSuite, a: string)
    ensures CheckAddress(h, a) <==>
      !IsEmpty(a) && |ParseBase16(a)| % 2 == 0 && |a| >= 8 &&
      a[|a| - 8..] == Bin2Hex(Checksum(h, Hex2BinLoose(SubstrFrom(a[..|a| - 8], 2))))
  {
    if !IsEmpty(a) && |ParseBase16(a)| % 2 == 0 && |a| >= 8 {
      var code := SubstrFrom(a[..|a| - 8], 2);
      Hex2BinLooseOfBin2Hex(h.sha256(Hex2BinLoose(code)));
      ChecksumHex(h, Hex2BinLoose(code));
    }
  }

  /** Every address built from a body passes the check. */
  lemma CheckAddressAcceptsAddressFromBody(h: HashSuite, body: seq<byte>)
    ensures CheckAddress(h, AddressFromBody(h, body))
  {
    var b, c := Bin2Hex(body), Bin2Hex(Checksum(h, body));
    var a := AddressFromBody(h, body);
    assert a == "0x" + b + c;
    assert HasHexPrefix(a) && ParseBase16(a) == b + c;
    assert a[|a| - 8..] == c;
    assert a[..|a| - 8] == "0x" + b;
    assert SubstrFrom(a[..|a| - 8], 2) == b;
    Hex2BinLooseOfBin2Hex(body);
    CheckAddressMeaning(h, a);
  }

  /** checkAdress(getAdress(k, net)) holds for every point and every network text. */
  lemma CheckAddressAcceptsGetAddress(h: HashSuite, x: nat, y: nat, net: string)
    ensures CheckAddress(h, GetAddress(h, x, y, net))
  {
    GetAddressShape(h, x, y, net);
    CheckAddressAcceptsAddressFromBody(h, AddressBody(h, x, y, net));
  }

  /** Changing one checksum character of a valid address makes it invalid. */
  lemma CheckAddressRejectsChecksumEdit(h: HashSuite, a: string, i: nat, c: char)
    requires CheckAddress(h, a)
    requires |a| - 8 <= i < |a| && c != a[i]
    ensures !CheckAddress(h, a[i := c])
  {
    var e := a[i := c];
    CheckAddressMeaning(h, a);
    CheckAddressMeaning(h, e);
    assert e[..|e| - 8] == a[..|a| - 8];
    assert e[|e| - 8..][i - (|a| - 8)] != a[|a| - 8..][i - (|a| - 8)];
  }

  lemma Bin2HexInjective(b: seq<byte>, c: seq<byte>)
    requires Bin2Hex(b) == Bin2Hex(c)
    ensures b == c
  {
    Hex2BinOfBin2Hex(b);
    Hex2BinOfBin2Hex(c);
  }

  /** Changing the body of a valid address so that its recomputed checksum changes,
      while keeping the stored checksum, makes it invalid. */
  lemma CheckAddressRejectsBodyEdit(h: HashSuite, a: string, e: string)
    requires CheckAddress(h, a)
    requires |e| == |a| && e[|e| - 8..] == a[|a| - 8..]
    requires Checksum(h, Hex2BinLoose(SubstrFrom(e[..|e| - 8], 2)))
          != Checksum(h, Hex2BinLoose(SubstrFrom(a[..|a| - 8], 2)))
    ensures !CheckAddress(h, e)
  {
    CheckAddressMeaning(h, a);
    CheckAddressMeaning(h, e);
    if CheckAddress(h, e) {
      Bin2HexInjective(Checksum(h, Hex2BinLoose(SubstrFrom(e[..|e| - 8], 2))),
                       Checksum(h, Hex2BinLoose(SubstrFrom(a[..|a| - 8], 2))));
    }
  }

  // ---------------------------------------------------------------------------
  // The unconditional two-character cut
  // ---------------------------------------------------------------------------

  /** checkAdress with the prefix removed by parse_base16 instead of by an
      unconditional cut of two characters: accepts an address with or without `0x`. */
  function CheckAddressEitherForm(h: HashSuite, address: string): bool {
    if IsEmpty(address) then false
    else if |ParseBase16(address)| % 2 == 1 then false
    else
      var stored := Substr(address, |address| - 8, 8);
      var code := ParseBase16(Substr(address, 0, |address| - 8));
      var sum := Hex2BinLoose(Bin2Hex(h.sha256(Hex2BinLoose(code))));
      stored == Substr(Bin2Hex(h.sha256(sum)), 0, 8)
  }

  lemma CheckAddressEitherFormMeaning(h: HashSuite, a: string)
    ensures CheckAddressEitherForm(h, a) <==>
      !IsEmpty(a) && |ParseBase16(a)| % 2 == 0 && |a| >= 8 &&
      a[|a| - 8..] == Bin2Hex(Checksum(h, Hex2BinLoose(ParseBase16(a[..|a| - 8]))))
  {
    if !IsEmpty(a) && |ParseBase16(a)| % 2 == 0 && |a| >= 8 {
      var code := ParseBase16(a[..|a| - 8]);
      Hex2BinLooseOfBin2Hex(h.sha256(Hex2BinLoose(code)));
      ChecksumHex(h, Hex2BinLoose(code));
    }
  }

  /** The corrected check accepts an address built from a body, with its prefix. */
  lemma EitherFormAcceptsPrefixed(h: HashSuite, body: seq<byte>)
    ensures CheckAddressEitherForm(h, AddressFromBody(h, body))
  {
    var b, c := Bin2Hex(body), Bin2Hex(Checksum(h, body));
    var a := AddressFromBody(h, body);
    assert a == "0x" + b + c;
    assert HasHexPrefix(a) && ParseBase16(a) == b + c;
    assert a[|a| - 8..] == c;
    assert a[..|a| - 8] == "0x" + b;
    assert ParseBase16(a[..|a| - 8]) == b;
    Hex2BinLooseOfBin2Hex(body);
    CheckAddressEitherFormMeaning(h, a);
  }

  /** The corrected check accepts an address built from a body, without its prefix. */
  lemma EitherFormAcceptsBare(h: HashSuite, body: seq<byte>)
    ensures CheckAddressEitherForm(h, ParseBase16(AddressFromBody(h, body)))
  {
    var b, c := Bin2Hex(body), Bin2Hex(Checksum(h, body));
    var a := AddressFromBody(h, body);
    assert a == "0x" + b + c;
    assert HasHexPrefix(a) && ParseBase16(a) == b + c;
    var bare := b + c;
    LowerHexAppend(b, c);
    LowerHexHasNoPrefix(bare);
    LowerHexHasNoPrefix(b);
    assert ParseBase16(bare) == bare;
    assert bare[|bare| - 8..] == c;
    assert bare[..|bare| - 8] == b;
    assert ParseBase16(bare[..|bare| - 8]) == b;
    Hex2BinLooseOfBin2Hex(body);
    CheckAddressEitherFormMeaning(h, bare);
  }

  /** The corrected check accepts the address getAdress returns, with its prefix and
      without it. */
  lemma CheckAddressEitherFormAcceptsBothForms(h: HashSuite, x: nat, y: nat, net: string)
    ensures CheckAddressEitherForm(h, GetAddress(h, x, y, net))
    ensures CheckAddressEitherForm(h, ParseBase16(GetAddress(h, x, y, net)))
  {
    GetAddressShape(h, x, y, net);
    EitherFormAcceptsPrefixed(h, AddressBody(h, x, y, net));
    EitherFormAcceptsBare(h, AddressBody(h, x, y, net));
  }

  /** A hash pair with the right digest lengths, used only to exhibit the bare-address
      rejection: SHA-256 keeps the first input byte, RIPEMD-160 is constant ones. */
  function FirstByteDigest(m: seq<byte>): Sha256Digest {
    [if |m| > 0 then m[0] else 0] + seq(31, _ => 0)
  }

  function OnesDigest(m: seq<byte>): Ripemd160Digest {
    seq(20, _ => 1)
  }

  /** Under that hash pair the body of every default-network address is 00 then
      twenty 01 bytes. */
  lemma BodyUnderFirstByteDigest(x: nat, y: nat)
    ensures var h := HashSuite(FirstByteDigest, OnesDigest);
            AddressBody(h, x, y, DefaultNet) == [0] + OnesDigest([])
  {
    var h := HashSuite(FirstByteDigest, OnesDigest);
    var r := h.ripemd160(h.sha256(Hex2BinLoose(PointHex(x, y))));
    assert r == OnesDigest([]);
    Hex2BinOfBin2Hex(r);
    Hex2BinAppend(DefaultNet, Bin2Hex(r));
    assert DefaultNet == ['0', '0'];
    Hex2BinPair('0', '0');
  }

  /** As written, checkAdress accepts the bare form of an address only when the
      body and the body without its first byte happen to share a checksum. */
  lemma CheckAddressOnBareForm(h: HashSuite, body: seq<byte>)
    requires |body| >= 1
    ensures CheckAddress(h, ParseBase16(AddressFromBody(h, body))) <==>
      Checksum(h, body) == Checksum(h, body[1..])
  {
    var b, c := Bin2Hex(body), Bin2Hex(Checksum(h, body));
    LowerHexAppend(b, c);
    LowerHexHasNoPrefix(b + c);
    var bare := b + c;
    assert AddressFromBody(h, body) == "0x" + bare;
    assert ParseBase16("0x" + bare) == bare;
    assert bare[..|bare| - 8] == b && bare[|bare| - 8..] == c;
    Bin2HexDropFirst(body);
    Hex2BinLooseOfBin2Hex(body[1..]);
    assert Hex2BinLoose(SubstrFrom(bare[..|bare| - 8], 2)) == body[1..];
    CheckAddressMeaning(h, bare);
    if CheckAddress(h, bare) {
      Bin2HexInjective(Checksum(h, body), Checksum(h, body[1..]));
    }
  }

  /** checkAdress as written rejects the bare form of a derived address: the cut of
      two characters then removes the network byte instead of `0x`, so the checksum
      is recomputed over a different body. */
  lemma CheckAddressRejectsBareAddress(x: nat, y: nat)
    ensures var h := HashSuite(FirstByteDigest, OnesDigest);
            CheckAddress(h, GetAddress(h, x, y, DefaultNet)) &&
            !CheckAddress(h, ParseBase16(GetAddress(h, x, y, DefaultNet)))
  {
    var h := HashSuite(FirstByteDigest, OnesDigest);
    CheckAddressAcceptsGetAddress(h, x, y, DefaultNet);
    GetAddressShape(h, x, y, DefaultNet);
    BodyUnderFirstByteDigest(x, y);
    var body := AddressBody(h, x, y, DefaultNet);
    CheckAddressOnBareForm(h, body);
    assert Checksum(h, body)[0] == 0;
    assert Checksum(h, body[1..])[0] == 1;
  }
}
