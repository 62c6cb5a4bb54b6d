/**
 * The byte / hex / integer conversions of `MoneyTree::Support`: `int_to_hex`,
 * `int_to_bytes`, `bytes_to_int`, `bytes_to_hex`, `hex_to_bytes`, `hex_to_int`,
 * and the two Ruby built-ins they rest on, `String#to_i(16)` and `Integer#to_s(16)`.
 * Hex text is lowercase (`0-9a-f`); a byte string is a sequence of values `0..255`.
 */
module Hex {
  import opened Common

  type Byte = x: int | 0 <= x < 256

  predicate IsHexChar(c: char)
  {
    '0' <= c <= '9' || 'a' <= c <= 'f'
  }

  predicate IsHex(s: string)
  {
    forall i :: 0 <= i < |s| ==> IsHexChar(s[i])
  }

  function NibbleValue(c: char): (v: nat)
    requires IsHexChar(c)
    ensures v < 16
    ensures v == 0 <==> c == '0'
  {
    if c <= '9' then c as int - '0' as int else c as int - 'a' as int + 10
  }

  function NibbleChar(v: nat): (c: char)
    requires v < 16
    ensures IsHexChar(c) && NibbleValue(c) == v
  {
    if v < 10 then ('0' as int + v) as char else ('a' as int + v - 10) as char
  }

  lemma NibbleCharOfValue(c: char)
    requires IsHexChar(c)
    ensures NibbleChar(NibbleValue(c)) == c
  {
  }

  // ---------------------------------------------------------------------------
  // Hex text and its value
  // ---------------------------------------------------------------------------

  /** `String#to_i(16)` on lowercase hex: the big-endian base-16 value; "" is 0. */
  function HexValue(s: string): nat
    requires IsHex(s)
  {
    if s == [] then 0 else HexValue(s[..|s| - 1]) * 16 + NibbleValue(s[|s| - 1])
  }

  /** Positional notation: the digits of `t` sit below those of `s`. */
  lemma {:induction false} HexValueAppend(s: string, t: string)
    requires IsHex(s) && IsHex(t)
    ensures IsHex(s + t)
    ensures HexValue(s + t) == HexValue(s) * Pow(16, |t|) + HexValue(t)
  {
    if t == [] {
      assert s + t == s;
    } else {
      var t' := t[..|t| - 1];
      assert (s + t)[..|s + t| - 1] == s + t';
      HexValueAppend(s, t');
      var a, p, c, d := HexValue(s), Pow(16, |t'|), HexValue(t'), NibbleValue(t[|t| - 1]);
      assert Pow(16, |t|) == p * 16;
      Regroup(a, p, c, d, 16);
    }
  }

  lemma {:induction false} HexValueOfZeros(k: nat)
    ensures IsHex(Repeat('0', k)) && HexValue(Repeat('0', k)) == 0
  {
    if k > 0 {
      assert Repeat('0', k)[..k - 1] == Repeat('0', k - 1);
      HexValueOfZeros(k - 1);
    }
  }

  /** Leading `'0'` characters do not change the value. */
  lemma HexValueLeadingZeros(k: nat, t: string)
    requires IsHex(t)
    ensures IsHex(Repeat('0', k) + t)
    ensures HexValue(Repeat('0', k) + t) == HexValue(t)
  {
    HexValueOfZeros(k);
    HexValueAppend(Repeat('0', k), t);
  }

  /** A hex numeral that does not start with `'0'` and is not empty has a positive value. */
  lemma HexValuePositive(t: string)
    requires IsHex(t) && t != [] && t[0] != '0'
    ensures HexValue(t) > 0
  {
    assert t == [t[0]] + t[1..];
    assert [t[0]][..0] == [];
    HexValueAppend([t[0]], t[1..]);
    PowPositive(16, |t| - 1);
  }

  /** Without a leading `'0'`, only the empty numeral has value 0. */
  lemma HexValueZeroIff(t: string)
    requires IsHex(t) && (t == [] || t[0] != '0')
    ensures HexValue(t) == 0 <==> t == []
  {
    if t != [] {
      HexValuePositive(t);
    }
  }

  /** The digits of `Integer#to_s(16)` for a positive value (no leading `'0'`); "" for 0. */
  function MinimalHex(i: nat): (r: string)
    ensures IsHex(r) && HexValue(r) == i
    ensures r == [] <==> i == 0
    ensures r != [] ==> r[0] != '0'
  {
    if i == 0 then ""
    else
      var r := MinimalHex(i / 16) + [NibbleChar(i % 16)];
      assert r[..|r| - 1] == MinimalHex(i / 16);
      r
  }

  /** `MinimalHex` is the only representation without a leading `'0'`. */
  lemma {:induction false} MinimalHexUnique(t: string)
    requires IsHex(t) && (t == [] || t[0] != '0')
    ensures MinimalHex(HexValue(t)) == t
  {
    if t != [] {
      var p, c := t[..|t| - 1], t[|t| - 1];
      assert t == p + [c];
      var v := HexValue(t);
      HexValuePositive(t);
      assert v / 16 == HexValue(p) && v % 16 == NibbleValue(c);
      NibbleCharOfValue(c);
      MinimalHexUnique(p);
    }
  }

  /** Ruby's `Integer#to_s(16)`: lowercase digits, and `"0"` for zero. */
  function ToS16(i: nat): string
  {
    if i == 0 then "0" else MinimalHex(i)
  }

  /**
   * `int_to_hex`: `to_s(16)`, left-padded with one `'0'` when of odd length
   * (the final `downcase` leaves lowercase hex unchanged). Zero gives "00".
   */
  function IntToHex(i: nat): (r: string)
    ensures IsHex(r) && |r| % 2 == 0 && |r| >= 2
    ensures HexValue(r) == i
    ensures r == "00" <==> i == 0
    ensures i > 0 ==> r[0] != '0' || r[1] != '0'
  {
    var hex := ToS16(i);
    HexValueLeadingZeros(1, hex);
    assert Repeat('0', 1) + hex == "0" + hex;
    if |hex| % 2 != 0 then "0" + hex else hex
  }

  /** `int_to_hex(0) == "00"`, `int_to_hex(255) == "ff"`, `int_to_hex(10) == "0a"`. */
  lemma IntToHexExamples()
    ensures IntToHex(0) == "00" && IntToHex(255) == "ff" && IntToHex(10) == "0a"
  {
    assert HexValue("ff") == 255 by {
      assert "ff"[..1] == "f";
    }
    CanonicalHex("ff");
    assert HexValue("0a") == 10 by {
      assert "0a"[..1] == "0";
    }
    CanonicalHex("0a");
  }

  /** The hex of a positive value starts with at most one `'0'` (the padding). */
  lemma IntToHexLeadingZeros(i: nat)
    requires i > 0
    ensures LeadingCount(IntToHex(i), '0') <= 1
  {
    var r := IntToHex(i);
    if r[0] == '0' {
      assert r[1..][0] == r[1] != '0';
    }
  }

  /** `k` zero bytes in front of hex with at most one leading `'0'`: the value is kept and there are exactly `k` leading zero bytes. */
  lemma ZeroBytesThenHex(k: nat, t: string)
    requires IsHex(t) && |t| % 2 == 0 && LeadingCount(t, '0') <= 1
    ensures IsHex(Repeat('0', 2 * k) + t) && |Repeat('0', 2 * k) + t| % 2 == 0
    ensures HexValue(Repeat('0', 2 * k) + t) == HexValue(t)
    ensures LeadingCount(Repeat('0', 2 * k) + t, '0') / 2 == k
    ensures LeadingCount(HexToBytes(Repeat('0', 2 * k) + t), 0) == k
  {
    var h := Repeat('0', 2 * k) + t;
    HexValueLeadingZeros(2 * k, t);
    LeadingCountAfterRepeat('0', 2 * k, t);
    LeadingZeroBytes(h);
  }

  /** Even-length hex not starting with `'0'` is `to_s(16)` of its value, unpadded. */
  lemma CanonicalUnpadded(t: string)
    requires IsHex(t) && |t| % 2 == 0 && t != [] && t[0] != '0'
    ensures IntToHex(HexValue(t)) == t
  {
    HexValuePositive(t);
    MinimalHexUnique(t);
    assert ToS16(HexValue(t)) == t;
  }

  /** Even-length hex with exactly one leading `'0'` is `to_s(16)` of its value, padded. */
  lemma CanonicalPadded(t: string)
    requires IsHex(t) && |t| % 2 == 0 && |t| >= 2 && t[0] == '0' && t[1] != '0'
    ensures IntToHex(HexValue(t)) == t
  {
    var u := t[1..];
    assert t == Repeat('0', 1) + u;
    HexValueLeadingZeros(1, u);
    HexValuePositive(u);
    MinimalHexUnique(u);
    assert ToS16(HexValue(t)) == u;
    EvenPredecessor(|t|);
    assert "0" + u == t;
  }

  /** Every even-length hex without a leading zero byte is the `int_to_hex` of its value. */
  lemma CanonicalHex(t: string)
    requires IsHex(t) && |t| % 2 == 0 && |t| >= 2
    requires t[0] != '0' || t[1] != '0'
    ensures IntToHex(HexValue(t)) == t
  {
    if t[0] != '0' {
      CanonicalUnpadded(t);
    } else {
      CanonicalPadded(t);
    }
  }

  /**
   * An even-length hex with at most one leading `'0'` is "" (value 0) or the
   * `int_to_hex` of its value.
   */
  lemma CanonicalOrEmpty(t: string)
    requires IsHex(t) && |t| % 2 == 0 && LeadingCount(t, '0') <= 1
    ensures t == if HexValue(t) == 0 then "" else IntToHex(HexValue(t))
  {
    if t != [] {
      EvenPositive(|t|);
      if t[0] != '0' {
        HexValuePositive(t);
      } else {
        assert t[1] != '0' by {
          assert LeadingCount(t, '0') == 1 + LeadingCount(t[1..], '0');
        }
        assert t == Repeat('0', 1) + t[1..];
        HexValueLeadingZeros(1, t[1..]);
        HexValuePositive(t[1..]);
      }
      CanonicalHex(t);
    }
  }

  /**
   * Every even-length hex is `k` zero bytes (`k` = half its leading `'0'`s,
   * rounded down) followed by "" when its value is 0, or else by the
   * `int_to_hex` of its value.
   */
  lemma SplitZeroBytes(h: string)
    requires IsHex(h) && |h| % 2 == 0
    ensures var k := LeadingCount(h, '0') / 2;
      && 2 * k <= |h|
      && h == Repeat('0', 2 * k) + h[2 * k..]
      && h[2 * k..] == (if HexValue(h) == 0 then "" else IntToHex(HexValue(h)))
  {
    var z := LeadingCount(h, '0');
    var k := z / 2;
    HalfDown(z, |h|);
    var t := h[2 * k..];
    EvenSuffix(h, k);
    assert h == Repeat('0', 2 * k) + t && LeadingCount(t, '0') <= 1 by {
      LeadingRunDrop(h, '0', 2 * k);
    }
    assert IsHex(t);
    assert HexValue(t) == HexValue(h) by {
      HexValueLeadingZeros(2 * k, t);
    }
    CanonicalOrEmpty(t);
  }

  // ---------------------------------------------------------------------------
  // Bytes
  // ---------------------------------------------------------------------------

  /** One byte as two lowercase hex characters, high nibble first. */
  function ByteHex(b: Byte): string
  {
    [NibbleChar(b / 16), NibbleChar(b % 16)]
  }

  /** `bytes_to_hex`: `unpack("H*")`, two characters per byte (already lowercase). */
  function BytesToHex(b: seq<Byte>): (r: string)
    ensures |r| == 2 * |b| && IsHex(r)
  {
    if b == [] then "" else ByteHex(b[0]) + BytesToHex(b[1..])
  }

  /**
   * `hex_to_bytes`: `pack("H*")`, two characters per byte, high nibble first; a
   * lone final character becomes the high nibble of a last byte whose low nibble is 0.
   */
  function HexToBytes(h: string): (r: seq<Byte>)
    requires IsHex(h)
    ensures |r| == (|h| + 1) / 2
  {
    if |h| == 0 then []
    else if |h| == 1 then [NibbleValue(h[0]) * 16]
    else [NibbleValue(h[0]) * 16 + NibbleValue(h[1])] + HexToBytes(h[2..])
  }

  lemma {:induction false} BytesToHexAppend(a: seq<Byte>, b: seq<Byte>)
    ensures BytesToHex(a + b) == BytesToHex(a) + BytesToHex(b)
  {
    if a != [] {
      assert (a + b)[1..] == a[1..] + b;
      BytesToHexAppend(a[1..], b);
    } else {
      assert a + b == b;
    }
  }

  /** `bytes_to_hex(hex_to_bytes(h)) == h` for even-length `h`; an odd `h` comes back padded with `'0'`. */
  /** Packing two hex characters into a byte and unpacking it gives them back. */
  lemma ByteHexOfPair(c1: char, c2: char)
    requires IsHexChar(c1) && IsHexChar(c2)
    ensures 0 <= NibbleValue(c1) * 16 + NibbleValue(c2) < 256
    ensures ByteHex(NibbleValue(c1) * 16 + NibbleValue(c2)) == [c1, c2]
  {
    var hi, lo := NibbleValue(c1), NibbleValue(c2);
    var b: Byte := hi * 16 + lo;
    assert b / 16 == hi && b % 16 == lo;
    NibbleCharOfValue(c1);
    NibbleCharOfValue(c2);
  }

  lemma {:induction false} BytesToHexOfHexToBytes(h: string)
    requires IsHex(h)
    ensures BytesToHex(HexToBytes(h)) == if |h| % 2 == 0 then h else h + "0"
  {
    if |h| == 1 {
      ByteHexOfPair(h[0], '0');
      assert HexToBytes(h) == [NibbleValue(h[0]) * 16 + NibbleValue('0')];
      assert h + "0" == [h[0], '0'];
    } else if |h| >= 2 {
      ByteHexOfPair(h[0], h[1]);
      var rest := HexToBytes(h[2..]);
      assert HexToBytes(h)[1..] == rest;
      BytesToHexOfHexToBytes(h[2..]);
      ParityMinusTwo(|h|);
      assert BytesToHex(HexToBytes(h)) == [h[0], h[1]] + BytesToHex(rest);
      SplitTwo(h, "0");
    }
  }

  /** `hex_to_bytes(bytes_to_hex(b)) == b`. */
  lemma {:induction false} HexToBytesOfBytesToHex(b: seq<Byte>)
    ensures HexToBytes(BytesToHex(b)) == b
  {
    if b != [] {
      var h := BytesToHex(b);
      assert h[2..] == BytesToHex(b[1..]);
      HexToBytesOfBytesToHex(b[1..]);
      assert b == [b[0]] + b[1..];
    }
  }

  /** Reference definition: the big-endian value of a byte string; [] is 0. */
  function BigEndian(b: seq<Byte>): nat
  {
    if b == [] then 0 else BigEndian(b[..|b| - 1]) * 256 + b[|b| - 1]
  }

  /** The value of the hex rendering of a byte string is its big-endian value. */
  lemma {:induction false} HexValueOfBytesToHex(b: seq<Byte>)
    ensures HexValue(BytesToHex(b)) == BigEndian(b)
  {
    if b != [] {
      var p, x := b[..|b| - 1], b[|b| - 1];
      assert b == p + [x];
      BytesToHexAppend(p, [x]);
      assert BytesToHex([x]) == ByteHex(x);
      HexValueAppend(BytesToHex(p), ByteHex(x));
      var c1, c2 := NibbleChar(x / 16), NibbleChar(x % 16);
      assert ByteHex(x)[..1] == [c1];
      assert [c1][..0] == [];
      assert HexValue([c1]) == x / 16;
      assert HexValue(ByteHex(x)) == (x / 16) * 16 + x % 16 == x;
      HexValueOfBytesToHex(p);
    }
  }

  /** The two kinds of argument `bytes_to_int` accepts: an Array of integers, or a binary String. */
  datatype ByteInput = ByteArray(ints: seq<int>) | ByteString(bytes: seq<Byte>)

  /** `pack("C*")`: each integer keeps its low 8 bits (a Euclidean remainder, so -1 becomes 255). */
  function PackC(ints: seq<int>): seq<Byte>
  {
    seq(|ints|, i requires 0 <= i < |ints| => ints[i] % 256)
  }

  function ByteStringOf(input: ByteInput): seq<Byte>
  {
    match input
    case ByteArray(ints) => PackC(ints)
    case ByteString(bytes) => bytes
  }

  /** `bytes_to_int`: an Array is packed first; then `unpack("H*")[0].to_i(16)`. `base` is never read. */
  function BytesToInt(input: ByteInput, base: int): nat
  {
    HexValue(BytesToHex(ByteStringOf(input)))
  }

  /** `bytes_to_int` is the big-endian value of its bytes, whatever `base` is; no bytes give 0. */
  lemma BytesToIntIsBigEndian(input: ByteInput, base: int)
    ensures BytesToInt(input, base) == BigEndian(ByteStringOf(input))
    ensures ByteStringOf(input) == [] ==> BytesToInt(input, base) == 0
  {
    HexValueOfBytesToHex(ByteStringOf(input));
  }

  /** `int_to_bytes`: `hex_to_bytes(int_to_hex(i))`. */
  function IntToBytes(i: nat): seq<Byte>
  {
    HexToBytes(IntToHex(i))
  }

  /** `int_to_bytes(i)` is a non-empty big-endian rendering of `i`, and its hex is `int_to_hex(i)`. */
  lemma IntToBytesValue(i: nat)
    ensures |IntToBytes(i)| >= 1 && |IntToBytes(i)| * 2 == |IntToHex(i)|
    ensures BytesToHex(IntToBytes(i)) == IntToHex(i)
    ensures BigEndian(IntToBytes(i)) == i
  {
    BytesToHexOfHexToBytes(IntToHex(i));
    HexValueOfBytesToHex(IntToBytes(i));
  }

  /** `hex_to_int`: `bytes_to_int(hex_to_bytes(h))`. */
  function HexToInt(h: string): nat
    requires IsHex(h)
  {
    BytesToInt(ByteString(HexToBytes(h)), 16)
  }

  /** `hex_to_int(h)` is the value of `h`; an odd-length `h` is read with a `'0'` appended. */
  lemma HexToIntValue(h: string)
    requires IsHex(h)
    ensures HexToInt(h) == if |h| % 2 == 0 then HexValue(h) else HexValue(h) * 16
  {
    var b := HexToBytes(h);
    assert HexToInt(h) == HexValue(BytesToHex(b));
    BytesToHexOfHexToBytes(h);
    if |h| % 2 != 0 {
      var padded := h + "0";
      assert padded[..|padded| - 1] == h;
      assert HexValue(padded) == HexValue(h) * 16 + NibbleValue('0');
    }
  }

  /** `hex_to_int(int_to_hex(i)) == i`. */
  lemma HexToIntOfIntToHex(i: nat)
    ensures HexToInt(IntToHex(i)) == i
  {
    HexToIntValue(IntToHex(i));
  }

  /** Half the leading `'0'` characters of an even-length hex (rounded down) is its number of leading `0x00` bytes. */
  lemma {:induction false} LeadingZeroBytes(h: string)
    requires IsHex(h) && |h| % 2 == 0
    ensures LeadingCount(h, '0') / 2 == LeadingCount(HexToBytes(h), 0)
  {
    if |h| >= 2 {
      var r := HexToBytes(h);
      assert r[1..] == HexToBytes(h[2..]);
      if h[0] == '0' && h[1] == '0' {
        assert h[1..][1..] == h[2..];
        LeadingZeroBytes(h[2..]);
      }
    }
  }
}
