/** The Crypto client: the transaction pre-image (makeSign), the nonce rule
    (getNonce) and the choice of a PROXY or TORRENT node with a per-role cache
    (getConnectionAddress).  DNS answers and probe outcomes are inputs: `resolve`
    maps a node name to its A-record addresses, in DNS order, and `probe` maps a
    candidate "ip:port" to what the probe reports (the HTTP status for a PROXY
    candidate, the last block count for a TORRENT candidate, 0 when that fails). */
module CryptoApi {
  import opened Php
  import opened IntHelper
  import opened Ecdsa

  // ---------------------------------------------------------------------------
  // makeSign
  // ---------------------------------------------------------------------------

  /** makeSign($address, $value, $nonce, $fee, $data): hex2bin of
      address . VarUInt(value) . VarUInt(fee) . VarUInt(nonce) . VarUInt(len) . data,
      where the address loses a leading 0x and len is half the length of the data
      text, rounded down.  None is hex2bin's false. */
  function MakeSign(address: string, value: nat, nonce: nat, fee: nat, data: string): Option<seq<byte>>
    requires value < Int64Bound && nonce < Int64Bound && fee < Int64Bound
    requires |data| / 2 < Int64Bound
  {
    var a := ParseBase16(address);
    var dataLength := if |data| > 0 then |data| / 2 else 0;
    Hex2Bin(a + VarUIntHex(value) + VarUIntHex(fee) + VarUIntHex(nonce) + VarUIntHex(dataLength) + data)
  }

  lemma HexStringAppend(s: string, t: string)
    ensures IsHexString(s + t) <==> IsHexString(s) && IsHexString(t)
  {
    if IsHexString(s + t) {
      forall i | 0 <= i < |s| ensures IsHexChar(s[i]) { assert s[i] == (s + t)[i]; }
      forall i | 0 <= i < |t| ensures IsHexChar(t[i]) { assert t[i] == (s + t)[|s| + i]; }
    }
    if IsHexString(s) && IsHexString(t) {
      forall i | 0 <= i < |s + t| ensures IsHexChar((s + t)[i]) {
        if i >= |s| { assert (s + t)[i] == t[i - |s|]; }
      }
    }
  }

  /** Hex text hex2bin accepts as a whole. */
  predicate EvenHex(s: string) {
    |s| % 2 == 0 && IsHexString(s)
  }

  lemma VarUIntHexShape(n: nat)
    requires n < Int64Bound
    ensures EvenHex(VarUIntHex(n))
    ensures Hex2Bin(VarUIntHex(n)) == Some(VarUInt(n))
  {
    VarUIntHexIsBin2Hex(n);
    Hex2BinOfBin2Hex(VarUInt(n));
    Hex2BinDefined(VarUIntHex(n));
  }

  lemma VarUIntHexIsEvenHex(n: nat)
    requires n < Int64Bound
    ensures EvenHex(VarUIntHex(n))
  {
    VarUIntHexShape(n);
  }

  lemma JoinHex(a: string, b: string, c: string, d: string, e: string, f: string)
    requires IsHexString(b) && IsHexString(c) && IsHexString(d) && IsHexString(e)
    ensures IsHexString(a + b + c + d + e + f) <==> IsHexString(a) && IsHexString(f)
  {
    HexStringAppend(a, b);
    HexStringAppend(a + b, c);
    HexStringAppend(a + b + c, d);
    HexStringAppend(a + b + c + d, e);
    HexStringAppend(a + b + c + d + e, f);
  }

  /** Six pieces joined, the middle four already whole hex: hex2bin accepts the join
      exactly when the outer two are hex of even total length. */
  lemma JoinDefined(a: string, b: string, c: string, d: string, e: string, f: string)
    requires EvenHex(b) && EvenHex(c) && EvenHex(d) && EvenHex(e)
    ensures Hex2Bin(a + b + c + d + e + f).Some? <==>
      IsHexString(a) && IsHexString(f) && (|a| + |f|) % 2 == 0
  {
    JoinHex(a, b, c, d, e, f);
    JoinParity(a, b, c, d, e, f);
    Hex2BinDefined(a + b + c + d + e + f);
  }

  lemma JoinParity(a: string, b: string, c: string, d: string, e: string, f: string)
    requires |b| % 2 == 0 && |c| % 2 == 0 && |d| % 2 == 0 && |e| % 2 == 0
    ensures |a + b + c + d + e + f| % 2 == (|a| + |f|) % 2
  {
    var middle := |b| + |c| + |d| + |e|;
    assert |a + b + c + d + e + f| == |a| + |f| + middle;
  }

  /** Six even pieces joined: hex2bin of the join is the join of the pieces' bytes. */
  lemma JoinValue(a: string, b: string, c: string, d: string, e: string, f: string)
    requires EvenHex(a) && EvenHex(b) && EvenHex(c) && EvenHex(d) && EvenHex(e) && EvenHex(f)
    ensures var text: string := a + b + c + d + e + f;
      var joined: seq<byte> := Hex2BinLoose(a) + Hex2BinLoose(b) + Hex2BinLoose(c) +
        Hex2BinLoose(d) + Hex2BinLoose(e) + Hex2BinLoose(f);
      Hex2Bin(text) == Some(joined)
  {
    Hex2BinDefined(a);
    Hex2BinDefined(b);
    Hex2BinDefined(c);
    Hex2BinDefined(d);
    Hex2BinDefined(e);
    Hex2BinDefined(f);
    var ab := a + b;
    var abc := ab + c;
    var abcd := abc + d;
    var abcde := abcd + e;
    Hex2BinAppend(a, b);
    Hex2BinAppend(ab, c);
    Hex2BinAppend(abc, d);
    Hex2BinAppend(abcd, e);
    Hex2BinAppend(abcde, f);
  }

  /** makeSign yields bytes exactly when the stripped address and the data are hex
      text whose lengths add up to an even number; otherwise it yields false. */
  lemma MakeSignDefined(address: string, value: nat, nonce: nat, fee: nat, data: string)
    requires value < Int64Bound && nonce < Int64Bound && fee < Int64Bound
    requires |data| / 2 < Int64Bound
    ensures MakeSign(address, value, nonce, fee, data).Some? <==>
      IsHexString(ParseBase16(address)) && IsHexString(data) &&
      (|ParseBase16(address)| + |data|) % 2 == 0
  {
    var a := ParseBase16(address);
    var l := if |data| > 0 then |data| / 2 else 0;
    var b, c, d, e := VarUIntHex(value), VarUIntHex(fee), VarUIntHex(nonce), VarUIntHex(l);
    VarUIntHexIsEvenHex(value);
    VarUIntHexIsEvenHex(fee);
    VarUIntHexIsEvenHex(nonce);
    VarUIntHexIsEvenHex(l);
    JoinDefined(a, b, c, d, e, data);
    var text := a + b + c + d + e + data;
    assert Hex2Bin(text).Some? <==> IsHexString(a) && IsHexString(data) && (|a| + |data|) % 2 == 0;
    assert MakeSign(address, value, nonce, fee, data) == Hex2Bin(text);
  }

  /** The pre-image layout: the address bytes, then VarUInt(value), VarUInt(fee),
      VarUInt(nonce), VarUInt(number of data bytes), then the data bytes. */
  lemma MakeSignLayout(address: string, value: nat, nonce: nat, fee: nat, data: string)
    requires value < Int64Bound && nonce < Int64Bound && fee < Int64Bound
    requires |data| / 2 < Int64Bound
    requires Hex2Bin(ParseBase16(address)).Some? && Hex2Bin(data).Some?
    ensures var body: seq<byte> := Hex2BinLoose(data);
      var preimage: seq<byte> := Hex2BinLoose(ParseBase16(address)) + VarUInt(value) + VarUInt(fee) +
        VarUInt(nonce) + VarUInt(|body|) + body;
      |body| == |data| / 2 && MakeSign(address, value, nonce, fee, data) == Some(preimage)
  {
    var a := ParseBase16(address);
    var l := if |data| > 0 then |data| / 2 else 0;
    assert l == |data| / 2;
    VarUIntHexShape(value);
    VarUIntHexShape(fee);
    VarUIntHexShape(nonce);
    VarUIntHexShape(l);
    Hex2BinDefined(a);
    Hex2BinDefined(data);
    JoinValue(a, VarUIntHex(value), VarUIntHex(fee), VarUIntHex(nonce), VarUIntHex(l), data);
  }

  /** With empty data the length field is the single byte 0 and nothing follows it. */
  lemma MakeSignEmptyData(address: string, value: nat, nonce: nat, fee: nat)
    requires value < Int64Bound && nonce < Int64Bound && fee < Int64Bound
    requires Hex2Bin(ParseBase16(address)).Some?
    ensures var preimage: seq<byte> := Hex2BinLoose(ParseBase16(address)) + VarUInt(value) +
        VarUInt(fee) + VarUInt(nonce) + [0];
      MakeSign(address, value, nonce, fee, "") == Some(preimage)
  {
    assert Hex2Bin("") == Some([]);
    MakeSignLayout(address, value, nonce, fee, "");
    var p := Hex2BinLoose(ParseBase16(address)) + VarUInt(value) + VarUInt(fee) + VarUInt(nonce);
    assert p + VarUInt(0) + [] == p + [0];
  }

  /** The address may be given with or without its 0x prefix. */
  lemma MakeSignIgnoresPrefix(address: string, value: nat, nonce: nat, fee: nat, data: string)
    requires value < Int64Bound && nonce < Int64Bound && fee < Int64Bound
    requires |data| / 2 < Int64Bound
    requires !HasHexPrefix(address)
    ensures MakeSign("0x" + address, value, nonce, fee, data) == MakeSign(address, value, nonce, fee, data)
  {
    var p := "0x" + address;
    assert HasHexPrefix(p) && p[2..] == address;
  }

  // ---------------------------------------------------------------------------
  // getNonce
  // ---------------------------------------------------------------------------

  /** getNonce: `countSpent` is intval of result.count_spent of the balance answer,
      None when the answer has no such field. */
  function NextNonce(countSpent: Option<int>): (nonce: int)
    ensures countSpent.None? ==> nonce == 1
    ensures countSpent.Some? ==> nonce - 1 == countSpent.value
    ensures countSpent.None? || countSpent.value >= 0 ==> nonce >= 1
  {
    if countSpent.Some? then countSpent.value + 1 else 1
  }

  // ---------------------------------------------------------------------------
  // Node selection
  // ---------------------------------------------------------------------------

  datatype Role = Proxy | Torrent

  /** The switch over $node: only "PROXY" and "TORRENT" name a node kind. */
  function RoleOf(node: string): (r: Option<Role>)
    ensures r == Some(Proxy) <==> node == "PROXY"
    ensures r == Some(Torrent) <==> node == "TORRENT"
    ensures r.None? <==> node != "PROXY" && node != "TORRENT"
  {
    if node == "PROXY" then Some(Proxy)
    else if node == "TORRENT" then Some(Torrent)
    else None
  }

  /** sprintf($this->proxy['url'] / $this->torrent['url'], $this->net). */
  function NodeUrl(role: Role, net: string): string {
    match role
    case Proxy => "proxy.net-" + net + ".metahashnetwork.com"
    case Torrent => "tor.net-" + net + ".metahashnetwork.com"
  }

  function NodePort(role: Role): string {
    match role
    case Proxy => "9999"
    case Torrent => "5795"
  }

  /** The host-list key of one A record: $val['ip'] . ':' . $node_port. */
  function CandidateKey(role: Role, ip: string): (key: string)
    ensures !IsEmpty(key)
  {
    ip + ":" + NodePort(role)
  }

  /** checkHost: a PROXY answers when the HTTP status is between 1 and 499. */
  predicate ProxyAlive(code: int) {
    0 < code < 500
  }

  /** Whether a candidate enters the host list at all. */
  predicate Kept(role: Role, probe: string -> int, key: string) {
    role == Torrent || ProxyAlive(probe(key))
  }

  /** The value the host list holds for a kept candidate. */
  function Score(role: Role, probe: string -> int, key: string): int {
    if role == Proxy then 1 else probe(key)
  }

  /** `$host_list[$key] = ...` for one record, as the switch in the foreach does it. */
  function HostListAdd(role: Role, probe: string -> int, list: seq<(string, int)>, key: string): seq<(string, int)> {
    match role
    case Proxy => if ProxyAlive(probe(key)) then Assign(list, key, 1) else list
    case Torrent => Assign(list, key, probe(key))
  }

  /** $host_list after the foreach over the records: an ordered PHP array, so a
      repeated address keeps its first position. */
  function HostList(role: Role, ips: seq<string>, probe: string -> int): seq<(string, int)> {
    if ips == [] then []
    else HostListAdd(role, probe, HostList(role, ips[..|ips| - 1], probe), CandidateKey(role, ips[|ips| - 1]))
  }

  /** The position of the first entry holding the largest value. */
  function MaxIndex(list: seq<(string, int)>): (m: nat)
    requires list != []
    ensures m < |list|
    ensures forall p :: 0 <= p < |list| ==> list[p].1 <= list[m].1
    ensures forall p :: 0 <= p < m ==> list[p].1 < list[m].1
  {
    if |list| == 1 then 0
    else
      var m := MaxIndex(list[..|list| - 1]);
      if list[|list| - 1].1 > list[m].1 then |list| - 1 else m
  }

  /** array_keys($host_list)[0] after arsort($host_list): the sort is by value,
      descending, and stable (PHP 8), so the head is the first entry with the largest
      value; None when the list is empty. */
  function FirstMaxKey(list: seq<(string, int)>): (r: Option<string>)
    ensures r.None? <==> list == []
  {
    if list == [] then None else Some(list[MaxIndex(list)].0)
  }

  /** The node getConnectionAddress settles on for a resolved DNS list. */
  function Select(role: Role, ips: seq<string>, probe: string -> int): Option<string> {
    FirstMaxKey(HostList(role, ips, probe))
  }

  /** Reference rule, one record at a time: keep the best kept candidate so far and
      replace it only by a strictly better one. */
  function Preferred(role: Role, ips: seq<string>, probe: string -> int): (r: Option<string>)
    ensures r.Some? ==> !IsEmpty(r.value)
  {
    if ips == [] then None
    else
      var prev := Preferred(role, ips[..|ips| - 1], probe);
      var key := CandidateKey(role, ips[|ips| - 1]);
      if !Kept(role, probe, key) then prev
      else if prev.None? || Score(role, probe, key) > Score(role, probe, prev.value) then Some(key)
      else prev
  }

  /** No record yields a kept candidate. */
  predicate NoneKept(role: Role, ips: seq<string>, probe: string -> int) {
    forall j :: 0 <= j < |ips| ==> !Kept(role, probe, CandidateKey(role, ips[j]))
  }

  /** Record i yields a kept candidate whose score no kept candidate beats and every
      earlier kept candidate falls short of. */
  predicate BestAt(role: Role, ips: seq<string>, probe: string -> int, i: nat)
    requires i < |ips|
  {
    var k := CandidateKey(role, ips[i]);
    Kept(role, probe, k) &&
    (forall j :: 0 <= j < |ips| && Kept(role, probe, CandidateKey(role, ips[j])) ==>
       Score(role, probe, CandidateKey(role, ips[j])) <= Score(role, probe, k)) &&
    (forall j :: 0 <= j < i && Kept(role, probe, CandidateKey(role, ips[j])) ==>
       Score(role, probe, CandidateKey(role, ips[j])) < Score(role, probe, k))
  }

  lemma NoneKeptExtend(role: Role, ips: seq<string>, probe: string -> int)
    requires ips != []
    ensures NoneKept(role, ips, probe) <==>
      NoneKept(role, ips[..|ips| - 1], probe) && !Kept(role, probe, CandidateKey(role, ips[|ips| - 1]))
  {
    var init := ips[..|ips| - 1];
    assert forall j :: 0 <= j < |init| ==> init[j] == ips[j];
  }

  /** A best record of the first n stays best when record n does not beat it. */
  lemma BestAtExtend(role: Role, ips: seq<string>, probe: string -> int, i: nat)
    requires ips != [] && i < |ips| - 1
    requires BestAt(role, ips[..|ips| - 1], probe, i)
    requires var last := CandidateKey(role, ips[|ips| - 1]);
      Kept(role, probe, last) ==> Score(role, probe, last) <= Score(role, probe, CandidateKey(role, ips[i]))
    ensures BestAt(role, ips, probe, i)
  {
    var init := ips[..|ips| - 1];
    assert forall j :: 0 <= j < |init| ==> init[j] == ips[j];
  }

  /** The last record is best when it is kept and beats every earlier kept one. */
  lemma BestAtLast(role: Role, ips: seq<string>, probe: string -> int)
    requires ips != []
    requires var last := CandidateKey(role, ips[|ips| - 1]);
      Kept(role, probe, last) &&
      forall j :: 0 <= j < |ips| - 1 && Kept(role, probe, CandidateKey(role, ips[j])) ==>
        Score(role, probe, CandidateKey(role, ips[j])) < Score(role, probe, last)
    ensures BestAt(role, ips, probe, |ips| - 1)
  {
  }

  /** The reference rule picks nothing exactly when no candidate is kept. */
  lemma {:induction false} PreferredNone(role: Role, ips: seq<string>, probe: string -> int)
    ensures Preferred(role, ips, probe).None? <==> NoneKept(role, ips, probe)
  {
    if ips != [] {
      PreferredNone(role, ips[..|ips| - 1], probe);
      NoneKeptExtend(role, ips, probe);
    }
  }

  /** The reference rule picks the first kept candidate of the largest score. */
  lemma {:induction false} PreferredBest(role: Role, ips: seq<string>, probe: string -> int)
    requires Preferred(role, ips, probe).Some?
    ensures exists i :: (0 <= i < |ips| && Preferred(role, ips, probe).value == CandidateKey(role, ips[i]) &&
                         BestAt(role, ips, probe, i))
  {
    var n := |ips| - 1;
    var init := ips[..n];
    var prev := Preferred(role, init, probe);
    var key := CandidateKey(role, ips[n]);
    if prev.Some? {
      PreferredBest(role, init, probe);
      var i :| 0 <= i < n && prev.value == CandidateKey(role, init[i]) && BestAt(role, init, probe, i);
      assert init[i] == ips[i];
      if Kept(role, probe, key) && Score(role, probe, key) > Score(role, probe, prev.value) {
        BestAtLast(role, ips, probe);
      } else {
        BestAtExtend(role, ips, probe, i);
      }
    } else {
      PreferredNone(role, init, probe);
      assert forall j :: 0 <= j < n ==> init[j] == ips[j];
      BestAtLast(role, ips, probe);
    }
  }

  /** The reference rule picks the first kept candidate of the largest score, and
      nothing exactly when no candidate is kept. */
  lemma PreferredMeaning(role: Role, ips: seq<string>, probe: string -> int)
    ensures Preferred(role, ips, probe).None? <==> NoneKept(role, ips, probe)
    ensures Preferred(role, ips, probe).Some? ==>
      exists i :: 0 <= i < |ips| && Preferred(role, ips, probe).value == CandidateKey(role, ips[i]) &&
        BestAt(role, ips, probe, i)
  {
    PreferredNone(role, ips, probe);
    if Preferred(role, ips, probe).Some? {
      PreferredBest(role, ips, probe);
    }
  }

  /** The candidate keys of the records, in DNS order. */
  function Candidates(role: Role, ips: seq<string>): (keys: seq<string>)
    ensures |keys| == |ips|
    ensures forall j :: 0 <= j < |ips| ==> keys[j] == CandidateKey(role, ips[j])
  {
    if ips == [] then [] else Candidates(role, ips[..|ips| - 1]) + [CandidateKey(role, ips[|ips| - 1])]
  }

  /** One more record extends the host list by one step. */
  lemma HostListSnoc(role: Role, ips: seq<string>, probe: string -> int, i: nat)
    requires i < |ips|
    ensures HostList(role, ips[..i + 1], probe) ==
      HostListAdd(role, probe, HostList(role, ips[..i], probe), CandidateKey(role, ips[i]))
  {
    assert ips[..i + 1][..i] == ips[..i] && ips[..i + 1][i] == ips[i];
  }

  lemma CandidatesSnoc(role: Role, ips: seq<string>, i: nat)
    requires i < |ips|
    ensures Candidates(role, ips[..i + 1]) == Candidates(role, ips[..i]) + [CandidateKey(role, ips[i])]
  {
    assert ips[..i + 1][..i] == ips[..i] && ips[..i + 1][i] == ips[i];
  }

  /** Every entry of the list is a kept candidate holding its score. */
  predicate EntriesScored(role: Role, probe: string -> int, list: seq<(string, int)>) {
    forall p :: 0 <= p < |list| ==> Kept(role, probe, list[p].0) && list[p].1 == Score(role, probe, list[p].0)
  }

  /** What one record does to a list of scored entries. */
  lemma HostListAddCases(role: Role, probe: string -> int, list: seq<(string, int)>, key: string)
    requires EntriesScored(role, probe, list)
    ensures !Kept(role, probe, key) || key in Keys(list) ==> HostListAdd(role, probe, list, key) == list
    ensures Kept(role, probe, key) && key !in Keys(list) ==>
      HostListAdd(role, probe, list, key) == list + [(key, Score(role, probe, key))]
  {
  }

  lemma {:induction false} HostListScored(role: Role, ips: seq<string>, probe: string -> int)
    ensures EntriesScored(role, probe, HostList(role, ips, probe))
  {
    if ips != [] {
      var prev := HostList(role, ips[..|ips| - 1], probe);
      var key := CandidateKey(role, ips[|ips| - 1]);
      HostListScored(role, ips[..|ips| - 1], probe);
      HostListAddCases(role, probe, prev, key);
      if Kept(role, probe, key) && key !in Keys(prev) {
        var list := prev + [(key, Score(role, probe, key))];
        assert forall p :: 0 <= p < |prev| ==> list[p] == prev[p];
      }
    }
  }

  /** Every kept candidate is in the list. */
  lemma {:induction false} HostListCovers(role: Role, ips: seq<string>, probe: string -> int)
    ensures forall j :: 0 <= j < |ips| && Kept(role, probe, CandidateKey(role, ips[j])) ==>
      CandidateKey(role, ips[j]) in Keys(HostList(role, ips, probe))
  {
    if ips != [] {
      var n := |ips| - 1;
      var init := ips[..n];
      var prev := HostList(role, init, probe);
      var key := CandidateKey(role, ips[n]);
      HostListCovers(role, init, probe);
      HostListScored(role, init, probe);
      HostListAddCases(role, probe, prev, key);
      var list := HostList(role, ips, probe);
      forall j | 0 <= j < |ips| && Kept(role, probe, CandidateKey(role, ips[j]))
        ensures CandidateKey(role, ips[j]) in Keys(list)
      {
        if j < n {
          assert init[j] == ips[j];
          var p :| 0 <= p < |prev| && prev[p].0 == CandidateKey(role, ips[j]);
          if list != prev {
            assert list[p] == prev[p];
          }
        } else if key !in Keys(prev) {
          assert list[|prev|].0 == key;
        }
      }
    }
  }

  /** What the foreach leaves in $host_list: the "ip:port" of a record is there
      exactly when the record is kept (every TORRENT record, a PROXY record whose
      status is 1..499), and each entry holds its score (1 for PROXY, the block count
      for TORRENT). */
  lemma HostListMembers(role: Role, ips: seq<string>, probe: string -> int)
    ensures forall j :: 0 <= j < |ips| ==>
      (CandidateKey(role, ips[j]) in Keys(HostList(role, ips, probe)) <==>
       Kept(role, probe, CandidateKey(role, ips[j])))
    ensures forall p :: 0 <= p < |HostList(role, ips, probe)| ==>
      HostList(role, ips, probe)[p].1 == Score(role, probe, HostList(role, ips, probe)[p].0)
  {
    HostListCovers(role, ips, probe);
    HostListScored(role, ips, probe);
    var list := HostList(role, ips, probe);
    forall j | 0 <= j < |ips| && CandidateKey(role, ips[j]) in Keys(list)
      ensures Kept(role, probe, CandidateKey(role, ips[j]))
    {
      var p :| 0 <= p < |list| && list[p].0 == CandidateKey(role, ips[j]);
    }
  }

  /** The arsort head of the host list is the reference choice. */
  lemma {:induction false} HostListHead(role: Role, ips: seq<string>, probe: string -> int)
    ensures FirstMaxKey(HostList(role, ips, probe)) == Preferred(role, ips, probe)
  {
    if ips != [] {
      var n := |ips| - 1;
      var init := ips[..n];
      var prev := HostList(role, init, probe);
      var key := CandidateKey(role, ips[n]);
      HostListHead(role, init, probe);
      HostListScored(role, init, probe);
      HostListAddCases(role, probe, prev, key);
      var list := HostList(role, ips, probe);
      if Kept(role, probe, key) {
        if key in Keys(prev) {
          var p :| 0 <= p < |prev| && prev[p].0 == key;
          assert prev[p].1 <= prev[MaxIndex(prev)].1;
        } else if prev != [] {
          assert list[..|list| - 1] == prev;
        }
      }
    }
  }

  /** The host list's arsort head is the reference choice. */
  lemma SelectIsPreferred(role: Role, ips: seq<string>, probe: string -> int)
    ensures Select(role, ips, probe) == Preferred(role, ips, probe)
  {
    HostListHead(role, ips, probe);
  }

  /** PROXY: the first candidate, in DNS order, whose status is between 1 and 499;
      false when there is none. */
  lemma ProxySelection(ips: seq<string>, probe: string -> int)
    ensures Select(Proxy, ips, probe).None? <==>
      forall j :: 0 <= j < |ips| ==> !ProxyAlive(probe(CandidateKey(Proxy, ips[j])))
    ensures Select(Proxy, ips, probe).Some? ==>
      exists i :: 0 <= i < |ips| && Select(Proxy, ips, probe).value == CandidateKey(Proxy, ips[i]) &&
        ProxyAlive(probe(CandidateKey(Proxy, ips[i]))) &&
        forall j :: 0 <= j < i ==> !ProxyAlive(probe(CandidateKey(Proxy, ips[j])))
  {
    SelectIsPreferred(Proxy, ips, probe);
    PreferredMeaning(Proxy, ips, probe);
    var r := Select(Proxy, ips, probe);
    if r.Some? {
      var i :| 0 <= i < |ips| && r.value == CandidateKey(Proxy, ips[i]) && BestAt(Proxy, ips, probe, i);
      assert forall j :: 0 <= j < i ==> !ProxyAlive(probe(CandidateKey(Proxy, ips[j])));
    }
  }

  /** TORRENT: every candidate is kept, so a non-empty DNS answer always resolves,
      to the candidate with the highest block count, the first one on a tie. */
  lemma TorrentSelection(ips: seq<string>, probe: string -> int)
    ensures Select(Torrent, ips, probe).Some? <==> |ips| > 0
    ensures Select(Torrent, ips, probe).Some? ==>
      var k := Select(Torrent, ips, probe).value;
      exists i :: 0 <= i < |ips| && k == CandidateKey(Torrent, ips[i]) &&
        (forall j :: 0 <= j < |ips| ==> probe(CandidateKey(Torrent, ips[j])) <= probe(k)) &&
        (forall j :: 0 <= j < i ==> probe(CandidateKey(Torrent, ips[j])) < probe(k))
  {
    SelectIsPreferred(Torrent, ips, probe);
    PreferredMeaning(Torrent, ips, probe);
    if |ips| > 0 {
      assert Kept(Torrent, probe, CandidateKey(Torrent, ips[0]));
    }
  }

  /** The foreach over the DNS records: probes each candidate in order and fills the
      host list. */
  method CollectHosts(role: Role, ips: seq<string>, probe: string -> int)
    returns (list: seq<(string, int)>, probed: seq<string>)
    ensures list == HostList(role, ips, probe)
    ensures probed == Candidates(role, ips)
  {
    list, probed := [], [];
    var i := 0;
    while i < |ips|
      invariant 0 <= i <= |ips|
      invariant list == HostList(role, ips[..i], probe)
      invariant probed == Candidates(role, ips[..i])
    {
      var key := CandidateKey(role, ips[i]);
      CandidatesSnoc(role, ips, i);
      probed := probed + [key];
      ghost var before := list;
      match role {
        case Proxy =>
          if ProxyAlive(probe(key)) {
            list := Assign(list, key, 1);
          }
        case Torrent =>
          list := Assign(list, key, probe(key));
      }
      assert list == HostListAdd(role, probe, before, key);
      HostListSnoc(role, ips, probe, i);
      i := i + 1;
    }
    assert ips[..i] == ips;
  }

  /** The Crypto object's state that node selection reads and writes. */
  class Crypto {
    /** $this->net: a public field the caller assigns; it starts as null, which
        sprintf renders as "". */
    var net: string
    /** $this->hosts: the chosen "ip:port" per node name. */
    var hosts: map<string, string>

    constructor()
      ensures net == "" && hosts == map[]
    {
      net := "";
      hosts := map[];
    }

    /** Whether hosts[node] is set and not empty(). */
    predicate Cached(node: string)
      reads this
    {
      node in hosts && !IsEmpty(hosts[node])
    }

    /** getConnectionAddress($node).  `probed` lists the candidates probed, in order. */
    method GetConnectionAddress(node: string, resolve: string -> seq<string>, probe: string -> int)
      returns (r: Option<string>, probed: seq<string>)
      modifies this
      ensures net == old(net)
      ensures old(Cached(node)) ==>
        r == Some(old(hosts[node])) && probed == [] && hosts == old(hosts)
      ensures !old(Cached(node)) && RoleOf(node).None? ==>
        r.None? && probed == [] && hosts == old(hosts)
      ensures !old(Cached(node)) && RoleOf(node).Some? ==>
        var role := RoleOf(node).value;
        var ips := resolve(NodeUrl(role, net));
        probed == Candidates(role, ips) &&
        r == Select(role, ips, probe) &&
        hosts == (if r.Some? then old(hosts)[node := r.value] else old(hosts))
      ensures r.Some? ==> Cached(node) && hosts[node] == r.value
    {
      if Cached(node) {
        r, probed := Some(hosts[node]), [];
        return;
      }
      var role := RoleOf(node);
      if role.None? {
        r, probed := None, [];
        return;
      }
      var ips := resolve(NodeUrl(role.value, net));
      var list;
      list, probed := CollectHosts(role.value, ips, probe);
      r := FirstMaxKey(list);
      SelectIsPreferred(role.value, ips, probe);
      if r.Some? {
        hosts := hosts[node := r.value];
      }
    }
  }

  /** Once a node is chosen, asking again returns the same node and probes nothing. */
  method SecondCallUsesCache(c: Crypto, node: string, resolve: string -> seq<string>, probe: string -> int)
    returns (first: Option<string>, second: Option<string>, probedAgain: seq<string>)
    modifies c
    ensures first.Some? ==> second == first && probedAgain == []
  {
    var probedFirst;
    first, probedFirst := c.GetConnectionAddress(node, resolve, probe);
    second, probedAgain := c.GetConnectionAddress(node, resolve, probe);
  }
}
