/** The few PHP built-ins the wallet core relies on, with the semantics of PHP 8:
    bin2hex / hex2bin, pack("H*"), substr, empty() on strings, and assignment into
    an ordered array.  PHP strings are byte strings; the model keeps hex text as
    `string` and raw data as `seq<byte>`. */
module Php {

  datatype Option<+T> = None | Some(value: T)

  type byte = b: int | 0 <= b < 256
  type nibble = n: int | 0 <= n < 16

  /** A digit as bin2hex, hash() and gmp_strval(_, 16) write it: lower case. */
  function HexDigit(d: nibble): (c: char)
    ensures IsLowerHexChar(c)
  {
    if d < 10 then ('0' as int + d) as char else ('a' as int + d - 10) as char
  }

  /** The value of one hex digit as hex2bin reads it (either case), or None. */
  function Nibble(c: char): (r: Option<nibble>)
    ensures r.Some? <==> IsHexChar(c)
  {
    if '0' <= c <= '9' then Some(c as int - '0' as int)
    else if 'a' <= c <= 'f' then Some(c as int - 'a' as int + 10)
    else if 'A' <= c <= 'F' then Some(c as int - 'A' as int + 10)
    else None
  }

  predicate IsHexChar(c: char) {
    '0' <= c <= '9' || 'a' <= c <= 'f' || 'A' <= c <= 'F'
  }

  predicate IsHexString(s: string) {
    forall i :: 0 <= i < |s| ==> IsHexChar(s[i])
  }

  predicate IsLowerHexChar(c: char) {
    '0' <= c <= '9' || 'a' <= c <= 'f'
  }

  predicate IsLowerHexString(s: string) {
    forall i :: 0 <= i < |s| ==> IsLowerHexChar(s[i])
  }

  lemma NibbleOfHexDigit(d: nibble)
    ensures Nibble(HexDigit(d)) == Some(d)
  {
  }

  /** bin2hex: two lower-case digits per byte, high nibble first. */
  function Bin2Hex(b: seq<byte>): (s: string)
    ensures |s| == 2 * |b|
    ensures IsLowerHexString(s)
  {
    if b == [] then ""
    else [HexDigit(b[0] / 16), HexDigit(b[0] % 16)] + Bin2Hex(b[1..])
  }

  /** hex2bin: None (PHP's false) on odd length or on a character that is not a hex digit. */
  function Hex2Bin(s: string): (r: Option<seq<byte>>)
    ensures r.Some? ==> |r.value| == |s| / 2
  {
    if |s| % 2 == 1 then None
    else if s == [] then Some([])
    else
      match (Nibble(s[0]), Nibble(s[1]), Hex2Bin(s[2..]))
      case (Some(hi), Some(lo), Some(rest)) => Some([hi as int * 16 + lo as int] + rest)
      case _ => None
  }

  /** hex2bin's result handed on to a string parameter: PHP coerces false to "". */
  function Hex2BinLoose(s: string): seq<byte> {
    match Hex2Bin(s)
    case Some(b) => b
    case None => []
  }

  /** pack("H*", s): like hex2bin, but an odd trailing digit fills the high nibble of
      a last byte and an illegal digit counts as 0 (PHP warns and goes on). */
  function PackHex(s: string): (b: seq<byte>)
    ensures |b| == (|s| + 1) / 2
  {
    if s == [] then []
    else if |s| == 1 then [NibbleOrZero(s[0]) as int * 16]
    else [NibbleOrZero(s[0]) as int * 16 + NibbleOrZero(s[1]) as int] + PackHex(s[2..])
  }

  function NibbleOrZero(c: char): nibble {
    match Nibble(c)
    case Some(n) => n
    case None => 0
  }

  /** empty() on a string: true for "" and for "0". */
  predicate IsEmpty(s: string) {
    s == "" || s == "0"
  }

  /** substr($s, $start, $length) as PHP 8 computes it: a negative start counts from
      the end (clamped to 0), a negative length leaves that many characters off the
      end, and an out-of-range request yields "". */
  function Substr<T>(s: seq<T>, start: int, length: int): (r: seq<T>)
    ensures |r| <= |s|
    ensures length >= 0 ==> |r| <= length
    ensures 0 <= start <= |s| && 0 <= length && start + length <= |s| ==> r == s[start..start + length]
    ensures 0 <= start <= |s| && |s| < start + length ==> r == s[start..]
  {
    if start > |s| then []
    else
      var f := if start >= 0 then start else if -start > |s| then 0 else |s| + start;
      var l := if length >= 0 then (if length > |s| - f then |s| - f else length)
               else if -length > |s| - f then 0 else |s| - f + length;
      s[f..f + l]
  }

  /** substr($s, $start) without a length. */
  function SubstrFrom<T>(s: seq<T>, start: int): (r: seq<T>)
    ensures 0 <= start <= |s| ==> r == s[start..]
    ensures start > |s| ==> r == []
  {
    Substr(s, start, |s|)
  }

  /** `$a[$k] = $v` on an ordered PHP array: a present key keeps its position and
      takes the new value, an absent key is appended. */
  function Assign<K(==), V(==)>(a: seq<(K, V)>, k: K, v: V): (r: seq<(K, V)>)
    ensures k !in Keys(a) ==> r == a + [(k, v)]
    ensures k in Keys(a) && (forall i :: 0 <= i < |a| && a[i].0 == k ==> a[i].1 == v) ==> r == a
  {
    if a == [] then [(k, v)]
    else if a[0].0 == k then [(k, v)] + a[1..]
    else [a[0]] + Assign(a[1..], k, v)
  }

  function Keys<K, V>(a: seq<(K, V)>): set<K> {
    set i | 0 <= i < |a| :: a[i].0
  }

  // ---------------------------------------------------------------------------
  // Properties of the hex codecs
  // ---------------------------------------------------------------------------

  lemma {:induction false} Hex2BinOfBin2Hex(b: seq<byte>)
    ensures Hex2Bin(Bin2Hex(b)) == Some(b)
  {
    if b != [] {
      var s := Bin2Hex(b);
      var hi: nibble, lo: nibble := b[0] / 16, b[0] % 16;
      assert s[0] == HexDigit(hi) && s[1] == HexDigit(lo) && s[2..] == Bin2Hex(b[1..]);
      NibbleOfHexDigit(hi);
      NibbleOfHexDigit(lo);
      Hex2BinOfBin2Hex(b[1..]);
      assert b == [hi as int * 16 + lo as int] + b[1..];
    }
  }

  lemma Hex2BinLooseOfBin2Hex(b: seq<byte>)
    ensures Hex2BinLoose(Bin2Hex(b)) == b
  {
    Hex2BinOfBin2Hex(b);
  }

  lemma {:induction false} Bin2HexAppend(a: seq<byte>, b: seq<byte>)
    ensures Bin2Hex(a + b) == Bin2Hex(a) + Bin2Hex(b)
  {
    if a == [] {
      assert a + b == b;
    } else {
      assert (a + b)[0] == a[0] && (a + b)[1..] == a[1..] + b;
      Bin2HexAppend(a[1..], b);
    }
  }

  lemma Bin2HexDropFirst(b: seq<byte>)
    requires |b| >= 1
    ensures SubstrFrom(Bin2Hex(b), 2) == Bin2Hex(b[1..])
  {
  }

  lemma {:induction false} Bin2HexPrefix(b: seq<byte>, n: nat)
    requires n <= |b|
    ensures Bin2Hex(b)[..2 * n] == Bin2Hex(b[..n])
  {
    assert b == b[..n] + b[n..];
    Bin2HexAppend(b[..n], b[n..]);
  }

  /** hex2bin succeeds exactly on even-length strings of hex digits. */
  lemma {:induction false} Hex2BinDefined(s: string)
    ensures Hex2Bin(s).Some? <==> |s| % 2 == 0 && IsHexString(s)
  {
    if |s| % 2 == 0 && s != [] {
      Hex2BinDefined(s[2..]);
      if IsHexString(s) {
        assert IsHexString(s[2..]) by {
          forall i | 0 <= i < |s[2..]| ensures IsHexChar(s[2..][i]) { assert s[2..][i] == s[i + 2]; }
        }
      } else if Hex2Bin(s).Some? {
        forall i | 0 <= i < |s| ensures IsHexChar(s[i]) {
          if i >= 2 { assert s[i] == s[2..][i - 2]; }
        }
        assert false;
      }
    }
  }

  /** hex2bin of a single pair of digits. */
  lemma Hex2BinPair(c0: char, c1: char)
    requires IsHexChar(c0) && IsHexChar(c1)
    ensures Hex2Bin([c0, c1]) == Some([NibbleOrZero(c0) as int * 16 + NibbleOrZero(c1) as int])
  {
    var s := [c0, c1];
    assert s[0] == c0 && s[1] == c1 && s[2..] == [];
    assert |s| % 2 == 0 && s != [];
    assert Hex2Bin(s[2..]) == Some([]);
    assert Nibble(c0) == Some(NibbleOrZero(c0)) && Nibble(c1) == Some(NibbleOrZero(c1));
    var x := NibbleOrZero(c0) as int * 16 + NibbleOrZero(c1) as int;
    assert Hex2Bin(s) == Some([x] + []);
    assert [x] + [] == [x];
  }

  /** hex2bin of a text of even length at least two: the first pair of digits, then
      the rest. */
  lemma Hex2BinCons(s: string)
    requires |s| >= 2 && |s| % 2 == 0
    ensures Hex2Bin(s) ==
      (if Nibble(s[0]).Some? && Nibble(s[1]).Some? && Hex2Bin(s[2..]).Some?
       then Some([Nibble(s[0]).value as int * 16 + Nibble(s[1]).value as int] + Hex2Bin(s[2..]).value)
       else None)
  {
  }

  /** hex2bin distributes over a split at an even position. */
  lemma {:induction false} Hex2BinAppend(s: string, t: string)
    requires |s| % 2 == 0
    ensures Hex2Bin(s + t) ==
      (if Hex2Bin(s).Some? && Hex2Bin(t).Some? then Some(Hex2Bin(s).value + Hex2Bin(t).value) else None)
  {
    if s == [] {
      assert s + t == t && Hex2Bin(s) == Some([]);
      if Hex2Bin(t).Some? { assert [] + Hex2Bin(t).value == Hex2Bin(t).value; }
    } else if |t| % 2 == 1 {
      assert |s + t| % 2 == 1;
    } else {
      var st := s + t;
      assert st[2..] == s[2..] + t && st[0] == s[0] && st[1] == s[1];
      Hex2BinCons(s);
      Hex2BinCons(st);
      Hex2BinAppend(s[2..], t);
      if Nibble(s[0]).Some? && Nibble(s[1]).Some? && Hex2Bin(s[2..]).Some? && Hex2Bin(t).Some? {
        var x: byte := Nibble(s[0]).value as int * 16 + Nibble(s[1]).value as int;
        var u, v := Hex2Bin(s[2..]).value, Hex2Bin(t).value;
        assert [x] + (u + v) == ([x] + u) + v;
      }
    }
  }

  lemma {:induction false} PackHexOfBin2Hex(b: seq<byte>)
    ensures PackHex(Bin2Hex(b)) == b
  {
    if b != [] {
      var s := Bin2Hex(b);
      assert s[2..] == Bin2Hex(b[1..]);
      NibbleOfHexDigit(b[0] / 16);
      NibbleOfHexDigit(b[0] % 16);
      PackHexOfBin2Hex(b[1..]);
    }
  }
}
