/**
 * Base58Check framing (`to_serialized_base58`): the payload hex followed by
 * the first four bytes of its double SHA-256, Base58-encoded. The digest
 * algorithm itself is a parameter: any function from bytes to 32 bytes.
 */
module Serialized {
  import opened Common
  import opened Hex
  import opened Base58

  /** A SHA-256 digest: 32 bytes. */
  type Digest = d: seq<Byte> | |d| == 32 witness [0, 0, 0, 0, 0, 0, 0, 0, 0, 0, 0, 0, 0, 0, 0, 0, 0, 0, 0, 0, 0, 0, 0, 0, 0, 0, 0, 0, 0, 0, 0, 0]

  /**
   * `sha256` in its hex mode: the source hex is packed into bytes, digested,
   * and the digest unpacked back into hex.
   */
  function Sha256(source: string, digest: seq<Byte> -> Digest): (r: string)
    requires IsHex(source)
    ensures |r| == 64 && IsHex(r)
    ensures HexToBytes(r) == digest(HexToBytes(source))
  {
    HexToBytesOfBytesToHex(digest(HexToBytes(source)));
    BytesToHex(digest(HexToBytes(source)))
  }

  /** The first eight hex characters of `sha256(sha256(hex))`. */
  function Checksum(hex: string, digest: seq<Byte> -> Digest): (c: string)
    requires IsHex(hex)
    ensures |c| == 8 && IsHex(c)
  {
    var hash := Sha256(hex, digest);
    var hash := Sha256(hash, digest);
    hash[..8]
  }

  /** `to_serialized_base58`: `encode_base58(hex + checksum)`. */
  function ToSerializedBase58(hex: string, digest: seq<Byte> -> Digest): (r: string)
    requires IsHex(hex)
    ensures IsBase58(r)
  {
    var checksum := Checksum(hex, digest);
    var address := hex + checksum;
    EncodeBase58Meaning(address);
    EncodeBase58(address)
  }

  /** The hex rendering of a prefix of bytes is the matching prefix of the rendering. */
  lemma BytesToHexPrefix(b: seq<Byte>, k: nat)
    requires k <= |b|
    ensures BytesToHex(b)[..2 * k] == BytesToHex(b[..k])
  {
    assert b == b[..k] + b[k..];
    BytesToHexAppend(b[..k], b[k..]);
  }

  /** The checksum is the first four bytes of the digest of the digest of the payload bytes. */
  lemma ChecksumIsFourDigestBytes(hex: string, digest: seq<Byte> -> Digest)
    requires IsHex(hex)
    ensures Checksum(hex, digest) == BytesToHex(digest(digest(HexToBytes(hex)))[..4])
    ensures HexToBytes(Checksum(hex, digest)) == digest(digest(HexToBytes(hex)))[..4]
  {
    var hash := Sha256(hex, digest);
    var twice := digest(digest(HexToBytes(hex)));
    assert Sha256(hash, digest) == BytesToHex(twice);
    BytesToHexPrefix(twice, 4);
    HexToBytesOfBytesToHex(twice[..4]);
  }

  /**
   * Decoding the framing of an even-length payload gives the payload followed
   * by its checksum: the first `|hex|` characters are the payload and the last
   * eight are the checksum.
   */
  lemma DecodeSerialized(hex: string, digest: seq<Byte> -> Digest)
    requires IsHex(hex) && |hex| % 2 == 0
    ensures DecodeBase58(ToSerializedBase58(hex, digest)) == Ok(hex + Checksum(hex, digest))
    ensures var d := DecodeBase58(ToSerializedBase58(hex, digest)).value;
      && |d| == |hex| + 8
      && d[..|hex|] == hex
      && d[|hex|..] == Checksum(hex, digest)
  {
    var checksum := Checksum(hex, digest);
    var address := hex + checksum;
    EvenSum(|hex|, 8);
    assert ToSerializedBase58(hex, digest) == EncodeBase58(address);
    DecodeOfEncode(address);
    assert address[..|hex|] == hex && address[|hex|..] == checksum;
  }

  /**
   * The framing is a Base58 string whose leading `'1'`s count the leading zero
   * bytes of payload-plus-checksum and whose value is the value of that hex.
   */
  lemma SerializedMeaning(hex: string, digest: seq<Byte> -> Digest)
    requires IsHex(hex) && |hex| % 2 == 0
    ensures var address := hex + Checksum(hex, digest);
      && LeadingCount(ToSerializedBase58(hex, digest), '1') == LeadingCount(HexToBytes(address), 0)
      && NumeralValue(ToSerializedBase58(hex, digest)) == HexValue(address)
  {
    var address := hex + Checksum(hex, digest);
    EvenSum(|hex|, 8);
    assert ToSerializedBase58(hex, digest) == EncodeBase58(address);
    EncodeBase58Meaning(address);
  }
}
