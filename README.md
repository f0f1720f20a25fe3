# Wallet core of the MetaHash PHP client, in Dafny

This project models the deterministic core of `crypt_example.php`, a command-line
wallet client for the MetaHash network. The model covers:

- **Addresses** (`Ecdsa`). `getAdress` derives an address from the public point of a
  key and a network prefix. The address is `0x`, then the hex of
  `net || RIPEMD160(SHA256(04 || X || Y))`, then the first eight hex digits of the
  double SHA-256 of that body. `checkAdress` recomputes the checksum.
  `to_base16` and `parse_base16` add and strip the `0x` prefix.
- **Integers** (`IntHelper`). The little-endian unsigned packers `UInt8` to `UInt64`,
  and `VarUInt`, the variable-length integer of the transaction pre-image. `VarUInt`
  writes one byte below 250. Larger values get a marker byte 250, 251 or 252,
  followed by 2, 4 or 8 little-endian bytes. The model covers its encoder and its
  decoder.
- **Helpers** (`Helpers`). `str2hex` and `hex2str`, and `check_net_arg`, the
  whitelist of the `net` option.
- **The `Crypto` object** (`CryptoApi`).
  - `makeSign` builds the pre-image that gets signed. It is the address bytes,
    then `VarUInt` of value, fee, nonce and data length, then the data.
  - `getNonce` computes the next nonce from the balance answer.
  - `getConnectionAddress` resolves a node kind (`PROXY` or `TORRENT`) to one host
    and caches it in `$this->hosts`.

`Php` models the PHP 8 built-ins the core relies on:

- `bin2hex` and `hex2bin`, where `false` is coerced to `""` when handed on.
- `pack("H*")`.
- `substr` with its negative and out-of-range cases.
- `empty()` on strings, so `"0"` counts as empty.
- Assignment into an ordered PHP array.

The hash functions, DNS and the HTTP probes are parameters:

- SHA-256 and RIPEMD-160 are the two fields of a `HashSuite`. Their only known
  property is the digest length.
- `dns_get_record` is a function from host name to the list of A-record IPs.
- `checkHost` and `torGetLastBlock` are one function from `"ip:port"` to an integer.
  For PROXY it is the HTTP status; for TORRENT it is the block count, 0 when there
  is no answer.

`getConnectionAddress` is a method of the class `Crypto`. The class has the fields
`net` and `hosts`, the latter a map from node name to the chosen `"ip:port"`. Its
loop over the DNS records is the method `CollectHosts`. That loop is proved against
`HostList`, a function that builds the ordered host list one record at a time.
`arsort` followed by `array_keys(...)[0]` is modelled by `FirstMaxKey`: the first
entry holding the largest value. PHP 8 sorts stably, so this is the head that
`arsort` leaves. The selection is proved equal to `Preferred`, an independent
one-record-at-a-time reference rule.

Behaviour of the code worth noting:

- The hex-mode `VarUInt` decoder picks the width from the LENGTH of its input
  (2, 4, 6, 8, 10, 18 characters), not from the marker byte. It also accepts
  non-minimal encodings (`VarUIntDecodeHexAcceptsNonMinimal`).
- For PROXY the code probes every candidate before choosing; nothing stops at the
  first live one. The one chosen is still the first live one in DNS order
  (`ProxySelection`).
- `checkAdress` always removes the first two characters of the address, whatever
  they are, so an address given without its `0x` prefix loses its network byte (see
  Findings).
- `$net` is a public field that the caller assigns after construction. The
  constructor leaves it as `null`, which `sprintf` renders as `""`.

## Model

| member | source | states |
|---|---|---|
| IntHelper.UIntRoundTrips | crypt_example.php:283-361 | unpack('C'/'v'/'V'/'P') of pack of the same format returns the packed value. This holds for every value its width holds, or every non-negative PHP integer for 64 bits |
| IntHelper.UInt64WrapsAboveInt64 | crypt_example.php:343-361 | a 64-bit field at or above 2^63 unpacks to the negative PHP integer n - 2^64 |
| IntHelper.VarUIntBuckets | crypt_example.php:365-383 | below 250 the encoding is the single byte n. Otherwise it is 3, 5 or 9 bytes: marker 250, 251 or 252, then little-endian bytes that denote n |
| IntHelper.VarUIntHexIsBin2Hex | crypt_example.php:363-383 | hex mode is exactly bin2hex of binary mode |
| IntHelper.VarUIntInjective | crypt_example.php:365-383 | two values have the same encoding if and only if they are equal |
| IntHelper.VarUIntRoundTrip | crypt_example.php:385-415 | the byte-count decoder reads back every encoding: decode(encode(n)) == n |
| IntHelper.VarUIntDecodeHexOfBin2Hex | crypt_example.php:385-415 | the hex-mode decoder on bin2hex(b) gives what the byte-count decoder gives on b |
| IntHelper.VarUIntHexRoundTrip | crypt_example.php:363-415 | the hex-mode decoder reads back every hex-mode encoding |
| IntHelper.VarUIntDecodeHexAcceptsNonMinimal | crypt_example.php:395-398 | "fa0100" decodes to 1, although 1 encodes as "01": the decoder does not insist on the minimal form |
| IntHelper.VarUIntDecodeBinaryRejectsShortEncodings | crypt_example.php:385-415 | as written, binary mode returns false on every 1-, 3- and 5-byte encoding, i.e. every value below 2^32. The corrected decoder returns the value |
| IntHelper.VarUIntDecodeBinaryCounterexample | crypt_example.php:385-415 | 300 encodes as fa 2c 01; binary mode as written returns false on it, the corrected decoder returns 300 |
| Ecdsa.ToBase16 | crypt_example.php:262-265 | the result carries the 0x prefix. A prefixed input is returned unchanged, any other gets "0x" in front |
| Ecdsa.ParseBase16 | crypt_example.php:267-270 | "0x" + result is the input when the input is prefixed; otherwise the result is the input |
| Ecdsa.ToBase16Idempotent | crypt_example.php:262-265 | adding the prefix twice is adding it once |
| Ecdsa.ParseBase16OfToBase16 | crypt_example.php:262-270 | parse_base16 undoes to_base16 if and only if the input had no prefix |
| Ecdsa.LowerHexHasNoPrefix | crypt_example.php:226-229 | bin2hex output never starts with "0x", so to_base16 always prepends one to an address |
| Ecdsa.HexValueOfGmpHex | crypt_example.php:211-214 | gmp_strval(n, 16) denotes n |
| Ecdsa.PadHex64Shape | crypt_example.php:211-216 | a coordinate below 16^64, left-padded with zeros, is 64 hex digits that still denote it |
| Ecdsa.PointEncoding | crypt_example.php:211-219 | hex2bin('04'.$x.$y) is the 65-byte uncompressed point: 04, then X and Y as 32-byte big-endian numbers |
| Ecdsa.GetAddress | crypt_example.php:195-229 | the address always carries the 0x prefix |
| Ecdsa.GetAddressShape | crypt_example.php:218-226 | the address is "0x", the body in hex, then the hex of the first 4 bytes of the double SHA-256 of the body |
| Ecdsa.AddressLength | crypt_example.php:226 | an address is 2 + 2·(body bytes) + 8 characters long |
| Ecdsa.GetAddressOfPoint | crypt_example.php:195-229 | for coordinates below 2^256 and a hex network prefix, the address is 0x ‖ hex(net ‖ RIPEMD160(SHA256(04 ‖ X ‖ Y))) ‖ 8 checksum digits, with X and Y 32-byte big-endian. It is 50 characters longer than the network text |
| Ecdsa.CheckAddress | crypt_example.php:232-259 | an empty() address and one whose unprefixed text has odd length are refused; an accepted one has at least 8 characters |
| Ecdsa.CheckAddressMeaning | crypt_example.php:242-254 | accepted if and only if the address is non-empty(), has even length once unprefixed and has at least 8 characters, and its last 8 characters are the checksum of the hex2bin of what lies between the first 2 and the last 8 |
| Ecdsa.CheckAddressAcceptsGetAddress | crypt_example.php:232-259 | every address getAdress produces passes checkAdress, for every network prefix |
| Ecdsa.CheckAddressRejectsChecksumEdit | crypt_example.php:244-254 | changing any character of the stored checksum of an accepted address makes it rejected |
| Ecdsa.CheckAddressRejectsBodyEdit | crypt_example.php:244-254 | an edit of the body that keeps the stored checksum is rejected whenever the new body's checksum differs |
| Ecdsa.CheckAddressOnBareForm | crypt_example.php:245-246 | an address without its 0x prefix is accepted if and only if the checksum of the body equals the checksum of the body without its first byte |
| Ecdsa.CheckAddressRejectsBareAddress | crypt_example.php:246 | a hash suite exists for which getAdress's own output is accepted and the same address without "0x" is rejected |
| Ecdsa.CheckAddressEitherFormMeaning | crypt_example.php:245-246 | the corrected check strips the prefix with parse_base16 and then compares the checksum of the remaining body |
| Ecdsa.CheckAddressEitherFormAcceptsBothForms | crypt_example.php:232-259 | the corrected check accepts every getAdress output both with and without its prefix |
| Helpers.Str2Hex | crypt_example.php:505-508 | str2hex gives two lower-case hex digits per byte |
| Helpers.Hex2Str | crypt_example.php:510-513 | hex2str gives one byte per two digits, rounding an odd digit up to a byte |
| Helpers.Hex2StrOfStr2Hex | crypt_example.php:505-513 | hex2str(str2hex(s)) == s for every byte string |
| Helpers.Str2HexOfHex2Str | crypt_example.php:505-513 | str2hex(hex2str(h)) == h for every even-length lower-case hex text |
| Helpers.Hex2StrOddLength | crypt_example.php:510-513 | an odd-length text is read as if a "0" followed it |
| Helpers.CheckNetArg | crypt_example.php:940-950 | accepts if and only if net is one of main, dev, test. Throws "net is empty" if and only if it is missing or empty(); in every other case throws "unsupported net value" |
| CryptoApi.MakeSignDefined | crypt_example.php:670-692 | makeSign returns bytes if and only if the unprefixed address and the data are hex text whose lengths add up to an even number; otherwise false |
| CryptoApi.MakeSignLayout | crypt_example.php:670-692 | for a hex address and hex data the pre-image is address bytes ‖ VarUInt(value) ‖ VarUInt(fee) ‖ VarUInt(nonce) ‖ VarUInt(number of data bytes) ‖ data bytes |
| CryptoApi.MakeSignEmptyData | crypt_example.php:677-680 | with empty data the pre-image ends in the single length byte 0 |
| CryptoApi.MakeSignIgnoresPrefix | crypt_example.php:672 | the address gives the same pre-image with or without its 0x prefix |
| CryptoApi.NextNonce | crypt_example.php:664-668 | the nonce is one more than the count of spent transactions, 1 when the answer has none; it is at least 1 for a non-negative count |
| CryptoApi.RoleOf | crypt_example.php:711-724 | only "PROXY" and "TORRENT" name a node kind; every other name has none |
| CryptoApi.CandidateKey | crypt_example.php:735-741 | an "ip:port" key is never empty(), so a chosen host is always cached |
| CryptoApi.MaxIndex | crypt_example.php:749-750 | the index holds the largest value and no earlier entry reaches it |
| CryptoApi.FirstMaxKey | crypt_example.php:749-756 | there is a head key if and only if the host list is non-empty |
| CryptoApi.PreferredMeaning | crypt_example.php:730-756 | the reference rule yields nothing if and only if no candidate is kept. Otherwise it yields a kept candidate of the highest score, and every earlier kept candidate scores strictly lower |
| CryptoApi.SelectIsPreferred | crypt_example.php:730-756 | the arsort head of the host list is the reference rule's choice |
| CryptoApi.ProxySelection | crypt_example.php:734-739 | PROXY yields nothing if and only if no candidate answers with a status in 1..499; otherwise it yields the first such candidate in DNS order |
| CryptoApi.TorrentSelection | crypt_example.php:740-742 | TORRENT yields a host if and only if DNS returned a record. The host has the largest block count, and every candidate before it has a smaller one |
| CryptoApi.HostListMembers | crypt_example.php:730-747 | a record's "ip:port" is in the host list if and only if it is kept: every TORRENT record, and a PROXY record whose status is 1..499. Each entry holds 1 for PROXY and the block count for TORRENT |
| CryptoApi.CollectHosts | crypt_example.php:730-747 | the foreach builds exactly the host list of the reference function and probes the candidates in DNS order |
| CryptoApi.Crypto.constructor | crypt_example.php:516-530 | a new object has net null (rendered "") and an empty host cache |
| CryptoApi.Crypto.GetConnectionAddress | crypt_example.php:700-760 | see the list after this table |
| CryptoApi.SecondCallUsesCache | crypt_example.php:702-705 | once a node has been chosen, asking again returns the same host and probes nothing |

`CryptoApi.Crypto.GetConnectionAddress` states:

- A cached node is returned as cached, with no probe and no change to the cache.
- An unknown node name gives false.
- Otherwise the DNS records of the role's URL are probed in order. The result is
  the selection described above, and it is cached when there is one.
- `net` is never changed.

## Left out

- Key generation, signing and signature verification (`Ecdsa::getKey`,
  `privateToPublic`, `sign`, `verify`; `Crypto::generate`, `Crypto::sign`), the DER
  parsing of keys, and the `MHCRYPTO` extension branches. They
  rely on elliptic-curve and library code outside this model. `getAdress` starts
  from the public point (x, y) instead of a DER key.
- SHA-256 and RIPEMD-160 internals: they are parameters, known only by their digest
  length.
- DNS lookups, HTTP probes (`checkHost`, `torGetLastBlock`), JSON decoding, curl,
  file I/O (`write_file`, `is_really_writable`, `create`, `saveAddress`, `readAddress`,
  `listAddress`), the network queries (`fetchBalance`, `fetchHistory`, `getTx`,
  `sendTx`, `queryProxy`, `queryTorrent`), command-line dispatch, `is_cli`, `debug` output and `is_base64_encoded`. They are
  I/O, or lie outside the core. DNS and probes are function parameters.
- The signed packers (`Int8` to `Int64`), and the big-endian and machine-order
  branches of `UInt16`, `UInt32` and `UInt64`: the core only uses little-endian
  unsigned packing.
- IntHelper.VarUInt: negative integers are not modelled; the encoder takes `0 <= n < 2^63`.
- CryptoApi.MakeSign: `intval` of the value, fee and nonce is not modelled. They are
  taken as non-negative PHP integers. The data length must halve to a PHP integer.
- CryptoApi.MakeSign: the `debug` dump is left out.
- CryptoApi.NextNonce: `intval` overflow past PHP_INT_MAX is not modelled.
- CryptoApi.FirstMaxKey: only the head of the list after `arsort` is modelled, not
  the whole sorted array. The code reads nothing else.
- CryptoApi.Crypto.GetConnectionAddress: `$node` is a string. A `null` node takes
  the same paths as an unknown name.
- Ecdsa.CheckAddress: strings are sequences of characters, while PHP's `strlen` and
  `substr` count bytes. The model is exact for ASCII text. It does not capture text
  with multi-byte UTF-8 characters. Take `"0xé"` followed by eight checksum digits.
  Without its prefix it is 10 bytes in PHP, an even length, so PHP goes on to compare
  the checksum. The model counts 9 characters, an odd length, and rejects it. The same holds for the lengths in `ParseBase16`,
  `MakeSign` and `CheckNetArg`.
- CryptoApi.SelectIsPreferred: the probe is a function of `"ip:port"`, so a record
  that DNS returns twice gets the same answer both times. PHP probes it again, and
  the second answer may differ. For TORRENT it overwrites the value at the first
  position; for PROXY a failed second probe leaves the earlier 1. CryptoApi.HostList,
  CryptoApi.ProxySelection and CryptoApi.TorrentSelection rest on the same
  assumption.
- PHP 7 semantics are not modelled, though the script accepts PHP 7.1 and later.
  PHP 7's `arsort` is not stable for more than 16 entries, so a tie in TORRENT block
  counts may resolve to a later record. PHP 7's `substr` returns `false` where PHP 8
  returns `""`.
- IntHelper.UIntRoundTrips: truncation of a value too wide for its field is in the
  definition of `PackLE`, but no lemma states it.

## Findings

| source | as written | input that shows it | evidently intended | confidence | as-written member | corrected member |
|---|---|---|---|---|---|---|
| crypt_example.php:245-246 | `checkAdress` always drops the first two characters of the address before decoding the body | getAdress's output without "0x": its network byte is dropped, so it is accepted only when the checksum of the body equals that of the body without its first byte (Ecdsa.CheckAddressOnBareForm) | strip the prefix only when there is one (parse_base16), like the odd-length test on line 242 | medium, not executed | Ecdsa.CheckAddressRejectsBareAddress | Ecdsa.CheckAddressEitherFormAcceptsBothForms |
| crypt_example.php:385-415 | decoding a binary string dispatches on hex-text lengths (2, 4, 6, 8, 10, 18) applied to a byte count | the 3-byte encoding fa 2c 01 of 300 falls through to the 8-byte unpack and returns false | lengths counted in bytes (1, 2, 3, 4, 5, 9), with a one-byte marker to skip | high, not executed | IntHelper.VarUIntDecodeBinaryCounterexample | IntHelper.VarUIntRoundTrip |
