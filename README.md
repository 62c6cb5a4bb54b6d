# Base58 and Base58Check in money-tree, modelled in Dafny

This project models the Base58 codec in `MoneyTree::Support` from the money-tree Ruby gem. It works on lowercase hex strings and unbounded naturals, in three layers:

- **The raw integer codec.** `int_to_base58` repeatedly divides by 58. `base58_to_int` sums digit × 58^position and raises `ArgumentError` on a character outside the alphabet. Both are modelled as Dafny methods with `while` loops, as in the source. Each is proved equal to a specification function: `Base58Of` for the numeral and `NumeralValue` for its value.
- **The leading-zero-preserving hex codec** (`encode_base58`, `decode_base58`, alias `base58_to_hex`).
  - It is modelled as the pure functions `Base58.EncodeBase58` and `Base58.DecodeBase58`.
  - Each pair of leading `'0'` hex characters becomes one `'1'`. The count is halved and rounded down.
  - Decoding turns each leading `'1'` back into `"00"`, and turns a zero value into `""`.
  - Both round trips are proved.
- **The checksum framing** (`to_serialized_base58`): the payload hex, followed by the first 8 hex characters of `sha256(sha256(hex))`, Base58-encoded.
  - The SHA-256 algorithm is not modelled. `Serialized.Sha256` takes the digest as a parameter: any function from bytes to 32 bytes.
  - Around that parameter, the adapter does what the source does: it packs the hex into bytes and unpacks the digest back into hex.

The hex/byte conversions used by the codec are also modelled: `int_to_hex`, `int_to_bytes`, `bytes_to_int`, `bytes_to_hex`, `hex_to_bytes` and `hex_to_int`.

Files:
- `common.dfy`: `Option`, `Pow`, `Repeat`, `LeadingCount` (the length of `/^(x+)/`), and small arithmetic helpers.
- `hex.dfy`: hex text, its value, and the byte conversions.
- `base58.dfy`: the alphabet, the two loop methods, and the hex codec.
- `serialized.dfy`: the SHA-256 adapter and `to_serialized_base58`.

The modelling choices:

- **Alphabet.** The alphabet constant is built from its six runs of consecutive characters. `Base58.AlphabetSpelling` proves it equals the literal on lines 9 and 19.
- **`IntToBase58`.** It takes the source's second argument, `leading_zero_bytes`, which is never read. Its contract does not mention it, so the output cannot depend on it. A non-positive argument gives `""` because the loop never runs.
- **Errors.** The `ArgumentError` of `base58_to_int` is modelled as `Err(InvalidBase58)`. `decode_base58` passes it on.
- **`decode_base58`.** Line 34 takes `to_s(16)` and pads it to even length, which is exactly `int_to_hex`. The model reuses `Hex.IntToHex` for it.
- **`hex.to_i(16)`.** On lowercase hex this is `Hex.HexValue`. An empty string gives 0.
- **`pack("H*")`.** Odd-length lowercase hex is modelled too: the last character becomes the high nibble of a final byte.
- **`pack("C*")`.** In the `Array` branch of `bytes_to_int`, each integer keeps its low 8 bits, which is the Euclidean `x % 256`.

## Model

| member | source | states |
|---|---|---|
| Base58.IntToBase58 | lib/money-tree/support.rb:8-16 | the divmod loop yields `Base58Of(n)` for `n > 0` and `""` otherwise, whatever `leading_zero_bytes` is; `Base58Of(n)` is in the alphabet, empty exactly for 0, and never starts with `'1'` |
| Base58.Base58ToInt | lib/money-tree/support.rb:18-26 | the loop returns the base-58 numeral value when every character is in the alphabet, and raises (`Err(InvalidBase58)`) exactly when one is not |
| Base58.NumeralValueOfBase58Of | lib/money-tree/support.rb:11-14 | `base58_to_int(int_to_base58(n)) == n` for every `n >= 0` |
| Base58.Base58OfUnique | lib/money-tree/support.rb:11-14 | every alphabet string with no leading `'1'` is `int_to_base58` of its value |
| Base58.NumeralValueLeadingOnes | lib/money-tree/support.rb:21-23 | leading `'1'` digits have value 0: `base58_to_int("1"*k + s) == base58_to_int(s)` |
| Base58.NumeralValuePrependDigit | lib/money-tree/support.rb:21-23 | a digit in front of `t` adds its digit value × 58^\|t\| (the `char_index*(base**index)` term) |
| Base58.IndexOf | lib/money-tree/support.rb:22 | `alpha.index(char)`: nil exactly when the character is absent, otherwise the position of its first occurrence |
| Base58.DigitValueOfSymbol | lib/money-tree/support.rb:22 | the digit value of the symbol at position `d` is `d` |
| Base58.DigitValueOfOne | lib/money-tree/support.rb:19 | `'1'` is the zero digit |
| Base58.AlphabetSpelling | lib/money-tree/support.rb:9 | the alphabet equals the 58-character literal |
| Base58.AlphabetAscending | lib/money-tree/support.rb:19 | the alphabet is strictly ascending, so its symbols are distinct |
| Base58.AlphabetMembers | lib/money-tree/support.rb:19 | a character is in the alphabet exactly when it is in `1-9`, `A-H`, `J-N`, `P-Z`, `a-k` or `m-z` |
| Base58.AlphabetExcludesLookalikes | lib/money-tree/support.rb:9 | `0`, `O`, `I` and `l` are not symbols |
| Base58.EncodeBase58Meaning | lib/money-tree/support.rb:28-31 | the encoding is an alphabet string whose leading `'1'`s number half the leading `'0'`s of the hex (rounded down), equal for even length to its leading zero bytes, and whose value is the hex value |
| Base58.EncodeBase58OfZeros | lib/money-tree/support.rb:28-31 | `2k` zero characters encode to `"1"*k`, and `""` encodes to `""` |
| Base58.DecodeBase58Meaning | lib/money-tree/support.rb:33-39 | decoding an alphabet string succeeds with even-length lowercase hex: `"00"` per leading `'1'`, then the `int_to_hex` of the value (nothing for value 0); its value is the numeral's and its leading zero bytes number the leading `'1'`s |
| Base58.DecodeBase58Fails | lib/money-tree/support.rb:22 | decoding fails exactly when some character is outside the alphabet |
| Base58.DecodeBase58RejectsLookalikes | lib/money-tree/support.rb:22 | any `0`, `O`, `I` or `l` makes decoding fail |
| Base58.DecodeBase58OfOnes | lib/money-tree/support.rb:33-39 | `decode_base58("1"*k) == "00"*k` |
| Base58.DecodeBase58Examples | lib/money-tree/support.rb:34-35 | `decode_base58("1") == "00"` and `decode_base58("") == ""` |
| Base58.DecodeOfEncode | lib/money-tree/support.rb:28-39 | `decode_base58(encode_base58(h)) == h` for every even-length lowercase hex `h` |
| Base58.EncodeOfDecode | lib/money-tree/support.rb:28-39 | `encode_base58(decode_base58(s)) == s` for every alphabet string `s` |
| Hex.MinimalHex | lib/money-tree/support.rb:88 | the digits of `to_s(16)` of a positive value: lowercase hex with that value and no leading `'0'`, empty only for 0 |
| Hex.MinimalHexUnique | lib/money-tree/support.rb:88 | every hex without a leading `'0'` is the `to_s(16)` digits of its value |
| Hex.IntToHex | lib/money-tree/support.rb:87-91 | `int_to_hex(i)` is even-length lowercase hex of value `i`, `"00"` exactly when `i == 0`, and without a leading zero byte when `i > 0` |
| Hex.IntToHexExamples | lib/money-tree/support.rb:87-91 | `int_to_hex(0) == "00"`, `int_to_hex(255) == "ff"`, `int_to_hex(10) == "0a"` |
| Hex.CanonicalHex | lib/money-tree/support.rb:87-91 | every even-length hex without a leading zero byte is `int_to_hex` of its value |
| Hex.SplitZeroBytes | lib/money-tree/support.rb:29-30 | even-length hex is its leading zero bytes followed by `""` (value 0) or `int_to_hex` of its value |
| Hex.LeadingZeroBytes | lib/money-tree/support.rb:29 | half the leading `'0'` characters of even-length hex (rounded down) is its number of leading `0x00` bytes |
| Hex.HexValueAppend | lib/money-tree/support.rb:30 | `to_i(16)` is positional: `value(s + t) == value(s) × 16^\|t\| + value(t)` |
| Hex.HexValueLeadingZeros | lib/money-tree/support.rb:30 | leading `'0'` characters do not change `to_i(16)` |
| Hex.BytesToHex | lib/money-tree/support.rb:97-99 | `bytes_to_hex` is lowercase hex of twice the length of its bytes |
| Hex.HexToBytes | lib/money-tree/support.rb:101-103 | `hex_to_bytes` yields one byte per two characters, rounded up |
| Hex.BytesToHexOfHexToBytes | lib/money-tree/support.rb:97-103 | `bytes_to_hex(hex_to_bytes(h)) == h` for even-length `h`, and `h + "0"` for odd length |
| Hex.HexToBytesOfBytesToHex | lib/money-tree/support.rb:97-103 | `hex_to_bytes(bytes_to_hex(b)) == b` |
| Hex.HexValueOfBytesToHex | lib/money-tree/support.rb:97-99 | the value of `bytes_to_hex(b)` is the big-endian value of `b` |
| Hex.BytesToIntIsBigEndian | lib/money-tree/support.rb:78-85 | `bytes_to_int` is the big-endian value of its bytes (an `Array` packed with `C*` first) whatever `base` is, and no bytes give 0 |
| Hex.IntToBytesValue | lib/money-tree/support.rb:93-95 | `int_to_bytes(i)` is non-empty, renders back to `int_to_hex(i)`, and has big-endian value `i` |
| Hex.HexToIntValue | lib/money-tree/support.rb:105-107 | `hex_to_int(h)` is the value of `h`, or of `h + "0"` when `h` has odd length |
| Hex.HexToIntOfIntToHex | lib/money-tree/support.rb:87-107 | `hex_to_int(int_to_hex(i)) == i` |
| Serialized.Sha256 | lib/money-tree/support.rb:50-53 | `sha256` of hex is 64 lowercase hex characters that unpack to the digest of the packed source |
| Serialized.Checksum | lib/money-tree/support.rb:43-45 | the checksum is exactly 8 lowercase hex characters |
| Serialized.ChecksumIsFourDigestBytes | lib/money-tree/support.rb:43-45 | the checksum is the hex of the first 4 bytes of the digest of the digest of the payload bytes |
| Serialized.ToSerializedBase58 | lib/money-tree/support.rb:42-48 | the framing is a string over the Base58 alphabet |
| Serialized.DecodeSerialized | lib/money-tree/support.rb:42-48 | `decode_base58(to_serialized_base58(h)) == h + checksum` for even-length `h`, so the first `\|h\|` characters are the payload and the last 8 are the checksum |
| Serialized.SerializedMeaning | lib/money-tree/support.rb:42-48 | the framing's leading `'1'`s number the leading zero bytes of payload-plus-checksum, and its value is that hex's value |

## Left out

- SHA-256 itself (`OpenSSL::Digest::SHA256`): the digest is a parameter of `Serialized.Sha256`, so every result holds for any 32-byte digest function.
- The `opts[:ascii]` mode of `sha256`: it hashes the raw string rather than packed hex. It belongs to the hash adapter, not the codec.
- `ripemd160`, `hmac_sha512` and `hmac_sha512_hex`: wrappers over OpenSSL digests.
- `encode_base64` and `decode_base64`: wrappers over Ruby's `pack("m0")`. `decode_base64` calls `unpack` on an Array.
- `INT32_MAX` and `INT64_MAX`: platform-dependent sizes from `pack("L*")` and `pack("Q*")`.
- Base58.EncodeBase58: the function requires lowercase hex. The source's `to_i(16)` stops at the first non-hex character and also accepts uppercase; that handling is idiosyncratic to Ruby and is not modelled.
- Hex.HexToBytes: requires lowercase hex. `pack("H*")` on non-hex characters produces garbage nibbles, which are not modelled. Odd-length input is modelled.
- Hex.IntToHex: takes `i >= 0`. `to_s(16)` of a negative integer (a leading `-`) is not modelled.
- Round trips through `encode_base58` hold for even-length hex only. For odd-length hex, `hex_to_bytes` pads a nibble and `decode_base58` always returns even length, so no round trip is claimed.
- There is no checked-decode (Base58Check verification) operation, because the source has none.
- Base58.IntToBase58 and Base58.Base58ToInt are methods, so functions cannot call them. `EncodeBase58` and `DecodeBase58` use the specification functions `Base58Of` and `NumeralValue`, which the methods' contracts prove equal to them.
