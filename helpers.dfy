/** The global helper functions of the wallet script: str2hex / hex2str, which move
    between raw bytes and hex text, and check_net_arg, the network whitelist of the
    command line. */
module Helpers {
  import opened Php

  /** str2hex: implode(unpack("H*", $string)), i.e. the lower-case hex of the bytes. */
  function Str2Hex(s: seq<byte>): (h: string)
    ensures |h| == 2 * |s|
    ensures IsLowerHexString(h)
  {
    Bin2Hex(s)
  }

  /** hex2str: pack("H*", $hex). */
  function Hex2Str(h: string): (s: seq<byte>)
    ensures |s| == (|h| + 1) / 2
  {
    PackHex(h)
  }

  /** hex2str undoes str2hex on every byte string. */
  lemma Hex2StrOfStr2Hex(s: seq<byte>)
    ensures Hex2Str(Str2Hex(s)) == s
  {
    PackHexOfBin2Hex(s);
  }

  lemma HexDigitOfNibble(c: char)
    requires IsLowerHexChar(c)
    ensures HexDigit(NibbleOrZero(c)) == c
  {
  }

  /** str2hex undoes hex2str on the texts str2hex can produce: lower-case hex of even
      length. */
  lemma {:induction false} Str2HexOfHex2Str(h: string)
    requires IsLowerHexString(h) && |h| % 2 == 0
    ensures Str2Hex(Hex2Str(h)) == h
  {
    if h != [] {
      assert IsLowerHexChar(h[0]) && IsLowerHexChar(h[1]);
      HexDigitOfNibble(h[0]);
      HexDigitOfNibble(h[1]);
      var t := h[2..];
      assert IsLowerHexString(t) by {
        forall i | 0 <= i < |t| ensures IsLowerHexChar(t[i]) { assert t[i] == h[i + 2]; }
      }
      Str2HexOfHex2Str(t);
      var x := NibbleOrZero(h[0]) as int * 16 + NibbleOrZero(h[1]) as int;
      assert Hex2Str(h) == [x] + Hex2Str(t);
      assert x / 16 == NibbleOrZero(h[0]) && x % 16 == NibbleOrZero(h[1]);
      assert h == [h[0], h[1]] + t;
    }
  }

  /** pack("H*") reads an odd-length text as if a 0 digit followed it. */
  lemma {:induction false} Hex2StrOddLength(h: string)
    requires |h| % 2 == 1
    ensures Hex2Str(h) == Hex2Str(h + "0")
  {
    if |h| == 1 {
      var t := h + "0";
      assert t[0] == h[0] && t[1] == '0' && t[2..] == [];
    } else {
      assert (h + "0")[2..] == h[2..] + "0";
      assert (h + "0")[0] == h[0] && (h + "0")[1] == h[1];
      Hex2StrOddLength(h[2..]);
    }
  }

  // ---------------------------------------------------------------------------
  // check_net_arg
  // ---------------------------------------------------------------------------

  /** The outcome of check_net_arg: it returns nothing or throws with a message. */
  datatype NetCheck = Accepted | Rejected(message: string)

  const SupportedNets: set<string> := {"main", "dev", "test"}

  /** check_net_arg($args): `net` is the value of $args['net'], None when it is not
      set. A missing or empty() value is refused first, then anything outside the
      three known networks. */
  function CheckNetArg(net: Option<string>): (r: NetCheck)
    ensures r == Accepted <==> net.Some? && net.value in SupportedNets
    ensures r == Rejected("net is empty") <==> net.None? || IsEmpty(net.value)
    ensures r.Rejected? && r.message != "net is empty" ==> r.message == "unsupported net value"
  {
    if net.None? || IsEmpty(net.value) then Rejected("net is empty")
    else if net.value !in SupportedNets then Rejected("unsupported net value")
    else Accepted
  }
}
