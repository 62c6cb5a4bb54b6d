/**
 * The Base58 codec of `MoneyTree::Support`: the raw integer codec
 * (`int_to_base58`, `base58_to_int`) and the leading-zero-preserving hex codec
 * on top of it (`encode_base58`, `decode_base58`, alias `base58_to_hex`).
 */
module Base58 {
  import opened Common
  import opened Hex

  /**
   * The 58-symbol alphabet used by `int_to_base58` and `base58_to_int`; the digit
   * value of a symbol is its position. It is built from its six runs of
   * consecutive characters (`0`, `I`, `O` and `l` fall between runs), and
   * `AlphabetSpelling` shows it is the string
   * "123456789ABCDEFGHJKLMNPQRSTUVWXYZabcdefghijkmnopqrstuvwxyz".
   */
  const Alphabet: string := Symbols()

  /** The `ArgumentError` ('Value not a valid Base58 String.') raised by `base58_to_int`. */
  datatype Error = InvalidBase58

  datatype Result<T> = Ok(value: T) | Err(error: Error)

  // ---------------------------------------------------------------------------
  // The alphabet
  // ---------------------------------------------------------------------------

  /** `n` consecutive characters starting at `lo`. */
  function Range(lo: char, n: nat): (r: string)
    requires lo as int + n < 0xD800
    ensures |r| == n && forall i :: 0 <= i < n ==> r[i] as int == lo as int + i
  {
    seq(n, i requires 0 <= i < n => (lo as int + i) as char)
  }

  /** The symbol for digit `d`, computed from the six runs. */
  function RunChar(d: nat): char
    requires d < 58
  {
    if d < 9 then ('1' as int + d) as char
    else if d < 17 then ('A' as int + d - 9) as char
    else if d < 22 then ('J' as int + d - 17) as char
    else if d < 33 then ('P' as int + d - 22) as char
    else if d < 44 then ('a' as int + d - 33) as char
    else ('m' as int + d - 44) as char
  }

  /** The 58 symbols in digit order. */
  function Symbols(): (r: string)
    ensures |r| == 58 && forall d :: 0 <= d < 58 ==> r[d] == RunChar(d)
  {
    seq(58, d requires 0 <= d < 58 => RunChar(d))
  }

  predicate InRuns(c: char)
  {
    '1' <= c <= '9' || 'A' <= c <= 'H' || 'J' <= c <= 'N' || 'P' <= c <= 'Z' || 'a' <= c <= 'k' || 'm' <= c <= 'z'
  }

  lemma AlphabetIsRuns()
    ensures |Alphabet| == 58
    ensures forall d :: 0 <= d < 58 ==> Alphabet[d] == RunChar(d)
  {
  }

  /** The alphabet, spelled out run by run. */
  lemma AlphabetSpelling()
    ensures Alphabet == "123456789" + "ABCDEFGH" + "JKLMN" + "PQRSTUVWXYZ" + "abcdefghijk" + "mnopqrstuvwxyz"
  {
    assert "123456789" == Range('1', 9);
    assert "ABCDEFGH" == Range('A', 8);
    assert "JKLMN" == Range('J', 5);
    assert "PQRSTUVWXYZ" == Range('P', 11);
    assert "abcdefghijk" == Range('a', 11);
    assert "mnopqrstuvwxyz" == Range('m', 14);
  }

  /** The symbols are in strictly ascending order, so no symbol occurs twice. */
  lemma AlphabetAscending()
    ensures forall i, j :: 0 <= i < j < |Alphabet| ==> Alphabet[i] < Alphabet[j]
  {
    AlphabetIsRuns();
  }

  /** A character is a symbol exactly when it lies in one of the six runs. */
  lemma AlphabetMembers(c: char)
    ensures c in Alphabet <==> InRuns(c)
  {
    AlphabetIsRuns();
    if InRuns(c) {
      var d :=
        if c <= '9' then c as int - '1' as int
        else if c <= 'H' then 9 + c as int - 'A' as int
        else if c <= 'N' then 17 + c as int - 'J' as int
        else if c <= 'Z' then 22 + c as int - 'P' as int
        else if c <= 'k' then 33 + c as int - 'a' as int
        else 44 + c as int - 'm' as int;
      assert Alphabet[d] == c;
    }
  }

  /** The look-alike characters `0`, `O`, `I` and `l` are not symbols. */
  lemma AlphabetExcludesLookalikes()
    ensures '0' !in Alphabet && 'O' !in Alphabet && 'I' !in Alphabet && 'l' !in Alphabet
  {
    AlphabetMembers('0');
    AlphabetMembers('O');
    AlphabetMembers('I');
    AlphabetMembers('l');
  }

  /** `String#index` on a one-character argument: the first position of `c` in `s`, or nil. */
  function IndexOf(s: string, c: char): (r: Option<nat>)
    ensures r.None? <==> c !in s
    ensures r.Some? ==> r.value < |s| && s[r.value] == c
    ensures r.Some? ==> forall j :: 0 <= j < r.value ==> s[j] != c
  {
    if s == [] then None
    else if s[0] == c then Some(0)
    else
      match IndexOf(s[1..], c)
      case None => None
      case Some(k) => Some(k + 1)
  }

  predicate IsBase58(s: string)
  {
    forall i :: 0 <= i < |s| ==> s[i] in Alphabet
  }

  /** `alpha.index(char)` for a symbol. */
  function DigitValue(c: char): (d: nat)
    requires c in Alphabet
    ensures d < |Alphabet| && Alphabet[d] == c
  {
    IndexOf(Alphabet, c).value
  }

  /** Looking a symbol up gives back its position. */
  lemma DigitValueOfSymbol(d: nat)
    requires d < |Alphabet|
    ensures DigitValue(Alphabet[d]) == d
  {
    AlphabetAscending();
  }

  lemma DigitValueOfOne()
    ensures '1' in Alphabet && DigitValue('1') == 0
  {
    AlphabetIsRuns();
    DigitValueOfSymbol(0);
  }

  // ---------------------------------------------------------------------------
  // Raw integer <-> Base58 numeral
  // ---------------------------------------------------------------------------

  /**
   * The base-58 numeral of `n`, most significant digit first, as the loop of
   * `int_to_base58` builds it: empty for 0, and never a leading zero digit `'1'`.
   */
  function Base58Of(n: nat): (r: string)
    ensures IsBase58(r)
    ensures r == [] <==> n == 0
    ensures r != [] ==> r[0] != '1'
  {
    AlphabetIsRuns();
    if n == 0 then ""
    else
      var r := Base58Of(n / 58) + [Alphabet[n % 58]];
      assert n < 58 ==> n % 58 != 0 && Alphabet[n % 58] != Alphabet[0];
      r
  }

  /** The value of a Base58 numeral, most significant digit first; "" is 0. */
  function NumeralValue(s: string): nat
    requires IsBase58(s)
  {
    if s == [] then 0 else NumeralValue(s[..|s| - 1]) * 58 + DigitValue(s[|s| - 1])
  }

  /**
   * A digit in front counts its value times 58 to the power of its position
   * from the right: the term that `base58_to_int` adds for it.
   */
  lemma {:induction false} NumeralValuePrependDigit(c: char, t: string)
    requires c in Alphabet && IsBase58(t)
    ensures IsBase58([c] + t)
    ensures NumeralValue([c] + t) == DigitValue(c) * Pow(58, |t|) + NumeralValue(t)
  {
    var s := [c] + t;
    if t == [] {
      assert s[..0] == [];
    } else {
      var t' := t[..|t| - 1];
      assert s[..|s| - 1] == [c] + t';
      NumeralValuePrependDigit(c, t');
      var d, p, r := DigitValue(c), Pow(58, |t'|), NumeralValue(t');
      assert Pow(58, |t|) == p * 58;
      Regroup(d, p, r, DigitValue(t[|t| - 1]), 58);
    }
  }

  /** Appending a digit multiplies the value by 58 and adds the digit. */
  lemma NumeralValueAppendDigit(p: string, c: char)
    requires IsBase58(p) && c in Alphabet
    ensures IsBase58(p + [c])
    ensures NumeralValue(p + [c]) == NumeralValue(p) * 58 + DigitValue(c)
  {
    assert (p + [c])[..|p|] == p;
  }

  /** Leading `'1'` digits have value 0: `base58_to_int("1" * k + s) == base58_to_int(s)`. */
  lemma {:induction false} NumeralValueLeadingOnes(k: nat, s: string)
    requires IsBase58(s)
    ensures IsBase58(Repeat('1', k) + s)
    ensures NumeralValue(Repeat('1', k) + s) == NumeralValue(s)
  {
    DigitValueOfOne();
    if k > 0 {
      var rest := Repeat('1', k - 1) + s;
      assert Repeat('1', k) + s == ['1'] + rest;
      NumeralValueLeadingOnes(k - 1, s);
      NumeralValuePrependDigit('1', rest);
    } else {
      assert Repeat('1', k) + s == s;
    }
  }

  /** `base58_to_int(int_to_base58(n)) == n`. */
  lemma {:induction false} NumeralValueOfBase58Of(n: nat)
    ensures NumeralValue(Base58Of(n)) == n
  {
    if n > 0 {
      AlphabetIsRuns();
      NumeralValueOfBase58Of(n / 58);
      NumeralValueAppendDigit(Base58Of(n / 58), Alphabet[n % 58]);
      DigitValueOfSymbol(n % 58);
    }
  }

  /** A non-empty numeral without a leading `'1'` has a positive value. */
  lemma NumeralValuePositive(s: string)
    requires IsBase58(s) && s != [] && s[0] != '1'
    ensures NumeralValue(s) > 0
  {
    var d := DigitValue(s[0]);
    assert Alphabet[0] == '1';
    assert d != 0;
    assert s == [s[0]] + s[1..];
    NumeralValuePrependDigit(s[0], s[1..]);
    PowPositive(58, |s| - 1);
    MulPositive(d, Pow(58, |s| - 1));
  }

  /** Every numeral without a leading `'1'` is the `int_to_base58` of its value. */
  lemma {:induction false} Base58OfUnique(s: string)
    requires IsBase58(s) && (s == [] || s[0] != '1')
    ensures Base58Of(NumeralValue(s)) == s
  {
    if s != [] {
      AlphabetIsRuns();
      var p, c := s[..|s| - 1], s[|s| - 1];
      assert s == p + [c];
      NumeralValueAppendDigit(p, c);
      NumeralValuePositive(s);
      var v := NumeralValue(s);
      assert v / 58 == NumeralValue(p) && v % 58 == DigitValue(c);
      Base58OfUnique(p);
    }
  }

  /**
   * `int_to_base58`: while the value is positive, divide by 58 and prepend the
   * symbol of the remainder. `leadingZeroBytes` is accepted and never read; a
   * value that is not positive gives "" because the loop does not run.
   */
  method IntToBase58(intVal: int, leadingZeroBytes: int) returns (base58Val: string)
    ensures base58Val == if intVal > 0 then Base58Of(intVal) else ""
  {
    AlphabetIsRuns();
    var v, base := intVal, |Alphabet|;
    base58Val := "";
    while v > 0
      invariant intVal > 0 ==> v >= 0 && Base58Of(v) + base58Val == Base58Of(intVal)
      invariant intVal <= 0 ==> v == intVal && base58Val == ""
      decreases if v > 0 then v else 0
    {
      var remainder := v % base;
      v := v / base;
      assert Base58Of(v) + ([Alphabet[remainder]] + base58Val) == (Base58Of(v) + [Alphabet[remainder]]) + base58Val;
      base58Val := [Alphabet[remainder]] + base58Val;
    }
  }

  /**
   * `base58_to_int`: walk the string from its last character to its first,
   * adding digit times 58 to the power of the position; fail on the first
   * character (from the right) that is not a symbol.
   */
  method Base58ToInt(base58Val: string) returns (r: Result<nat>)
    ensures r == if IsBase58(base58Val) then Ok(NumeralValue(base58Val)) else Err(InvalidBase58)
  {
    var n := |base58Val|;
    var intVal: nat, base := 0, |Alphabet|;
    var index := 0;
    while index < n
      invariant 0 <= index <= n
      invariant IsBase58(base58Val[n - index..])
      invariant intVal == NumeralValue(base58Val[n - index..])
    {
      var c := base58Val[n - 1 - index];
      var charIndex := IndexOf(Alphabet, c);
      if charIndex.None? {
        return Err(InvalidBase58);
      }
      assert base58Val[n - 1 - index..] == [c] + base58Val[n - index..];
      NumeralValuePrependDigit(c, base58Val[n - index..]);
      intVal := intVal + charIndex.value * Pow(base, index);
      index := index + 1;
    }
    assert base58Val[n - index..] == base58Val;
    return Ok(intVal);
  }

  // ---------------------------------------------------------------------------
  // Leading-zero-preserving hex <-> Base58
  // ---------------------------------------------------------------------------

  /**
   * `encode_base58`: one `'1'` per pair of leading `'0'` hex characters (the
   * count halved, rounded down), followed by `int_to_base58` of the hex value.
   */
  function EncodeBase58(hex: string): string
    requires IsHex(hex)
  {
    var leadingZeroBytes := LeadingCount(hex, '0') / 2;
    Repeat('1', leadingZeroBytes) + Base58Of(HexValue(hex))
  }

  /**
   * `decode_base58` / `base58_to_hex`: the value as even-length hex (the padded
   * `to_s(16)` of line 34 is `int_to_hex`), "" when that is "00", prefixed with
   * "00" once per leading `'1'`. A non-symbol character raises.
   */
  function DecodeBase58(base58Val: string): Result<string>
  {
    if !IsBase58(base58Val) then Err(InvalidBase58)
    else
      var s := IntToHex(NumeralValue(base58Val));
      var s := if s == "00" then "" else s;
      var leadingZeroBytes := LeadingCount(base58Val, '1');
      Ok(if leadingZeroBytes > 0 then Repeat('0', 2 * leadingZeroBytes) + s else s)
  }

  /** The encoding is a Base58 string whose leading `'1'`s count the leading zero bytes and whose value is the hex value. */
  lemma EncodeBase58Meaning(hex: string)
    requires IsHex(hex)
    ensures IsBase58(EncodeBase58(hex))
    ensures LeadingCount(EncodeBase58(hex), '1') == LeadingCount(hex, '0') / 2
    ensures NumeralValue(EncodeBase58(hex)) == HexValue(hex)
    ensures |hex| % 2 == 0 ==> LeadingCount(EncodeBase58(hex), '1') == LeadingCount(HexToBytes(hex), 0)
  {
    var k, b := LeadingCount(hex, '0') / 2, Base58Of(HexValue(hex));
    LeadingCountAfterRepeat('1', k, b);
    NumeralValueLeadingOnes(k, b);
    NumeralValueOfBase58Of(HexValue(hex));
    if |hex| % 2 == 0 {
      LeadingZeroBytes(hex);
    }
  }

  /** An all-zero hex of length `2k` encodes to exactly `k` `'1'`s; "" encodes to "". */
  lemma EncodeBase58OfZeros(k: nat)
    ensures EncodeBase58(Repeat('0', 2 * k)) == Repeat('1', k)
    ensures EncodeBase58("") == ""
  {
    var z := Repeat('0', 2 * k);
    assert z == Repeat('0', 2 * k) + [];
    LeadingCountAfterRepeat('0', 2 * k, []);
    HexValueOfZeros(2 * k);
    assert Repeat('1', k) + "" == Repeat('1', k);
  }

  /** Decoding fails exactly when some character is not a symbol. */
  lemma DecodeBase58Fails(base58Val: string)
    ensures DecodeBase58(base58Val).Err? <==> exists i :: 0 <= i < |base58Val| && base58Val[i] !in Alphabet
  {
  }

  /** Any `0`, `O`, `I` or `l` makes decoding fail. */
  lemma DecodeBase58RejectsLookalikes(base58Val: string, i: nat)
    requires i < |base58Val| && base58Val[i] in "0OIl"
    ensures DecodeBase58(base58Val) == Err(InvalidBase58)
  {
    AlphabetExcludesLookalikes();
  }

  /**
   * Decoding a Base58 string gives even-length lowercase hex: "00" once per
   * leading `'1'`, then the minimal even-padded hex of the value (nothing for 0).
   * The hex has the numeral's value, and one leading zero byte per leading `'1'`.
   */
  lemma DecodeBase58Meaning(base58Val: string)
    requires IsBase58(base58Val)
    ensures DecodeBase58(base58Val).Ok?
    ensures var h := DecodeBase58(base58Val).value;
      && IsHex(h) && |h| % 2 == 0
      && h == Repeat('0', 2 * LeadingCount(base58Val, '1'))
              + (if NumeralValue(base58Val) == 0 then "" else IntToHex(NumeralValue(base58Val)))
      && HexValue(h) == NumeralValue(base58Val)
      && LeadingCount(h, '0') / 2 == LeadingCount(base58Val, '1')
      && LeadingCount(HexToBytes(h), 0) == LeadingCount(base58Val, '1')
  {
    var z, v := LeadingCount(base58Val, '1'), NumeralValue(base58Val);
    var t := if v == 0 then "" else IntToHex(v);
    var h := DecodeBase58(base58Val).value;
    assert Repeat('0', 0) + t == t;
    assert h == Repeat('0', 2 * z) + t;
    if v > 0 {
      IntToHexLeadingZeros(v);
    }
    ZeroBytesThenHex(z, t);
  }

  /** `decode_base58("1" * k) == "00" * k`. */
  lemma DecodeBase58OfOnes(k: nat)
    ensures DecodeBase58(Repeat('1', k)) == Ok(Repeat('0', 2 * k))
  {
    var s := Repeat('1', k);
    assert s == Repeat('1', k) + [];
    NumeralValueLeadingOnes(k, []);
    LeadingCountAfterRepeat('1', k, []);
    DecodeBase58Meaning(s);
    assert Repeat('0', 2 * k) + "" == Repeat('0', 2 * k);
  }

  /** The concrete cases: `decode_base58("1") == "00"` and `decode_base58("") == ""`. */
  lemma DecodeBase58Examples()
    ensures DecodeBase58("1") == Ok("00")
    ensures DecodeBase58("") == Ok("")
  {
    DecodeBase58OfOnes(1);
    assert Repeat('1', 1) == "1" && Repeat('0', 2) == "00";
    DecodeBase58OfOnes(0);
    assert Repeat('1', 0) == "" && Repeat('0', 0) == "";
  }

  /** `decode_base58(encode_base58(h)) == h` for every even-length lowercase hex `h`. */
  lemma DecodeOfEncode(hex: string)
    requires IsHex(hex) && |hex| % 2 == 0
    ensures DecodeBase58(EncodeBase58(hex)) == Ok(hex)
  {
    var e := EncodeBase58(hex);
    EncodeBase58Meaning(hex);
    DecodeBase58Meaning(e);
    SplitZeroBytes(hex);
  }

  /** `encode_base58(decode_base58(s)) == s` for every string `s` over the alphabet. */
  lemma EncodeOfDecode(base58Val: string)
    requires IsBase58(base58Val)
    ensures DecodeBase58(base58Val).Ok?
    ensures IsHex(DecodeBase58(base58Val).value)
    ensures EncodeBase58(DecodeBase58(base58Val).value) == base58Val
  {
    var z := LeadingCount(base58Val, '1');
    var rest := base58Val[z..];
    assert base58Val == Repeat('1', z) + rest && (rest == [] || rest[0] != '1') by {
      LeadingCountSplit(base58Val, '1');
    }
    assert NumeralValue(base58Val) == NumeralValue(rest) by {
      NumeralValueLeadingOnes(z, rest);
    }
    Base58OfUnique(rest);
    DecodeBase58Meaning(base58Val);
  }
}
