/** The test helpers `FormatInt32AsBinary` and `ConvertBinaryStringToInt32` of
    Binary.Tests/Int32BinaryRepresentationTests.cs (repeated verbatim in
    Binary.Tests/Int32BinaryTests.cs): an int as eight space-separated groups of four
    bits of its 32-bit two's-complement pattern, and the parse back. */
module Int32Binary {
  import opened Common
  import opened Text

  /** `Convert.ToString(value, 2)`: the digits of the 32-bit two's-complement
      pattern without leading zeros (a negative value has all 32). */
  function ToBinaryString(value: Int32): (r: string)
  {
    Digits(Unsigned32(value), BinaryDigits)
  }

  /** The 32-bit pattern of the value, most significant bit first. */
  function Bits32(value: Int32): (r: string)
    ensures |r| == 32
  {
    FixedDigits(Unsigned32(value), 32, BinaryDigits)
  }

  lemma TwoTo32IsPow()
    ensures Pow(2, 30) == 0x4000_0000 && Pow(2, 31) == 0x8000_0000
    ensures Pow(2, 32) == TwoTo32 && Pow(2, 33) == 2 * TwoTo32
  {
    assert Pow(2, 8) == 0x100;
    assert Pow(2, 16) == 0x1_0000;
    assert Pow(2, 24) == 0x100_0000;
  }

  /** `Convert.ToString(value, 2).PadLeft(32, '0')` is the 32-bit pattern. */
  lemma PaddedBinaryIsBits32(value: Int32)
    ensures PadLeft(ToBinaryString(value), 32, '0') == Bits32(value)
  {
    TwoTo32IsPow();
    PadLeftDigits(Unsigned32(value), 32, BinaryDigits);
  }

  /** The formatter's output for a 32-character pattern: its groups of four joined
      by single spaces. */
  function Grouped(bits: string): (r: string)
    requires |bits| == 32
  {
    Join(" ", Groups(bits, 4))
  }

  /** FormatInt32AsBinary: pads the binary text to 32 digits, then appends each
      4-digit group, with a space before every group but the first. */
  method FormatInt32AsBinary(value: Int32) returns (r: string)
    ensures r == Grouped(Bits32(value))
  {
    var binary := PadLeft(ToBinaryString(value), 32, '0');
    PaddedBinaryIsBits32(value);
    var result := "";
    var i := 0;
    ghost var k := 0;
    while i < |binary|
      invariant 0 <= k <= 8 && i == 4 * k
      invariant i == 0 ==> result == ""
      invariant i > 0 ==> result == Join(" ", Groups(binary[..i], 4))
      decreases 32 - i
    {
      if i > 0 {
        result := result + " ";
      }
      GroupsSnoc(binary, k);
      result := result + binary[i..i + 4];
      i := i + 4;
      k := k + 1;
    }
    assert binary[..32] == binary;
    r := result;
  }

  /** One more group of four: the groups of a prefix 4 characters longer. */
  lemma GroupsSnoc(s: string, k: nat)
    requires 4 * k + 4 <= |s|
    ensures var i := 4 * k;
      i == 0 ==> Join(" ", Groups(s[..i + 4], 4)) == s[i..i + 4]
    ensures var i := 4 * k;
      i > 0 ==> Join(" ", Groups(s[..i + 4], 4)) == Join(" ", Groups(s[..i], 4)) + " " + s[i..i + 4]
  {
    var i := 4 * k;
    var t := s[..i + 4];
    if i > 0 {
      assert t[..i] == s[..i] && t[i..] == s[i..i + 4];
      var g := Groups(t, 4);
      assert g == Groups(s[..i], 4) + [s[i..i + 4]];
      assert g[..|g| - 1] == Groups(s[..i], 4);
    }
  }

  // ---------------------------------------------------------------------------
  // Shape of the output
  // ---------------------------------------------------------------------------

  predicate IsBinaryText(s: string)
  {
    forall k :: 0 <= k < |s| ==> s[k] == '0' || s[k] == '1'
  }

  lemma {:induction false} FixedBinaryDigits(n: nat, width: nat)
    ensures IsBinaryText(FixedDigits(n, width, BinaryDigits))
  {
    if width > 0 {
      FixedBinaryDigits(n / 2, width - 1);
    }
  }

  /** The groups of a 32-digit pattern: eight of four digits each. */
  lemma GroupsOf32(bits: string)
    requires |bits| == 32
    ensures |Groups(bits, 4)| == 8 && AllOfWidth(Groups(bits, 4), 4)
    ensures forall k :: 0 <= k < 8 ==> Groups(bits, 4)[k] == bits[4 * k..4 * k + 4]
  {
    GroupsUniform(bits, 4, 8);
    forall k | 0 <= k < 8 ensures Groups(bits, 4)[k] == bits[4 * k..4 * k + 4] {
      GroupsAt(bits, k);
    }
  }

  lemma {:induction false} GroupsAt(s: string, k: nat)
    requires |s| % 4 == 0 && 4 * k + 4 <= |s|
    ensures |Groups(s, 4)| == |s| / 4
    ensures Groups(s, 4)[k] == s[4 * k..4 * k + 4]
    decreases |s|
  {
    if |s| > 4 {
      var init := s[..|s| - 4];
      if 4 * k + 4 <= |init| {
        GroupsAt(init, k);
        assert init[4 * k..4 * k + 4] == s[4 * k..4 * k + 4];
      } else {
        GroupsAt(init, 0);
      }
    }
  }

  /** Eight groups of four binary digits separated by single spaces: 39 characters,
      a space exactly at every fifth position, no space at either end. */
  lemma FormattedShape(value: Int32)
    ensures |Grouped(Bits32(value))| == 39
    ensures forall p :: 0 <= p < 39 ==>
      (Grouped(Bits32(value))[p] == ' ' <==> p % 5 == 4)
    ensures forall p :: 0 <= p < 39 && p % 5 != 4 ==>
      Grouped(Bits32(value))[p] == Bits32(value)[p - p / 5]
  {
    FixedBinaryDigits(Unsigned32(value), 32);
    GroupedShape(Bits32(value));
  }

  lemma GroupedShape(bits: string)
    requires |bits| == 32 && IsBinaryText(bits)
    ensures |Grouped(bits)| == 39
    ensures forall p :: 0 <= p < 39 ==> (Grouped(bits)[p] == ' ' <==> p % 5 == 4)
    ensures forall p :: 0 <= p < 39 && p % 5 != 4 ==> Grouped(bits)[p] == bits[p - p / 5]
  {
    GroupsOf32(bits);
    JoinLength(" ", Groups(bits, 4), 4);
    NibbleJoinAt(Groups(bits, 4), bits);
  }

  /** Where each character of a join of 4-character groups sits. */
  lemma {:induction false} NibbleJoinAt(parts: seq<string>, bits: string)
    requires 1 <= |parts| && AllOfWidth(parts, 4) && |bits| == 4 * |parts| && IsBinaryText(bits)
    requires forall k :: 0 <= k < |parts| ==> parts[k] == bits[4 * k..4 * k + 4]
    ensures |Join(" ", parts)| == 5 * |parts| - 1
    ensures forall p :: 0 <= p < 5 * |parts| - 1 ==> (Join(" ", parts)[p] == ' ' <==> p % 5 == 4)
    ensures forall p :: 0 <= p < 5 * |parts| - 1 && p % 5 != 4 ==> Join(" ", parts)[p] == bits[p - p / 5]
  {
    var n := |parts|;
    if n == 1 {
      forall p | 0 <= p < 4 ensures parts[0][p] == bits[p] {
      }
    } else {
      var init := parts[..n - 1];
      var front := bits[..4 * (n - 1)];
      forall k | 0 <= k < n - 1 ensures init[k] == front[4 * k..4 * k + 4] {
        assert front[4 * k..4 * k + 4] == bits[4 * k..4 * k + 4];
      }
      NibbleJoinAt(init, front);
      var j := Join(" ", init);
      assert Join(" ", parts) == j + " " + parts[n - 1];
      forall p | 0 <= p < 5 * n - 1
        ensures (Join(" ", parts)[p] == ' ' <==> p % 5 == 4)
        ensures p % 5 != 4 ==> Join(" ", parts)[p] == bits[p - p / 5]
      {
        if p < 5 * (n - 1) - 1 {
          assert Join(" ", parts)[p] == j[p];
        } else if p >= 5 * (n - 1) {
          var q := p - 5 * (n - 1);
          assert Join(" ", parts)[p] == parts[n - 1][q];
          assert p / 5 == n - 1 && p % 5 == q;
          assert parts[n - 1][q] == bits[4 * (n - 1) + q];
        }
      }
    }
  }

  /** Removing the spaces leaves the 32-bit pattern (the tests' `Replace(" ", "")`). */
  lemma SpacesRemovedIsBits32(value: Int32)
    ensures Remove(Grouped(Bits32(value)), ' ') == Bits32(value)
  {
    FixedBinaryDigits(Unsigned32(value), 32);
    GroupedSpacesRemoved(Bits32(value));
  }

  lemma GroupedSpacesRemoved(bits: string)
    requires |bits| == 32 && IsBinaryText(bits)
    ensures Remove(Grouped(bits), ' ') == bits
  {
    GroupsOf32(bits);
    var g := Groups(bits, 4);
    forall k, m | 0 <= k < |g| && 0 <= m < |g[k]| ensures g[k][m] != ' ' {
      assert g[k][m] == bits[4 * k + m];
    }
    RemoveFromJoin(g, ' ');
    ConcatGroups(bits, 4);
  }

  // ---------------------------------------------------------------------------
  // Parsing back
  // ---------------------------------------------------------------------------

  /** The exceptions `Convert.ToInt32(s, 2)` throws. */
  datatype ConvertError =
    | EmptyString        // ArgumentOutOfRangeException
    | NegativeNonDecimal // ArgumentException: a '-' sign with a base other than 10
    | NoDigits           // FormatException: no digit after the optional '+'
    | ExtraJunk          // FormatException: a non-digit after the digits
    | Overflow           // OverflowException: the digits exceed 32 bits

  /** The number of leading binary digits. */
  function LeadingBinaryDigits(s: string): (d: nat)
    ensures d <= |s| && IsBinaryText(s[..d])
    ensures d < |s| ==> s[d] != '0' && s[d] != '1'
  {
    if |s| > 0 && (s[0] == '0' || s[0] == '1') then
      var d := 1 + LeadingBinaryDigits(s[1..]);
      assert s[..d] == [s[0]] + s[1..][..d - 1];
      d
    else 0
  }

  /** `Convert.ToInt32(s, 2)`: an optional '+', then binary digits read as an
      unsigned 32-bit value whose pattern is reinterpreted as an int. */
  function ConvertToInt32Base2(s: string): (r: Result<Int32, ConvertError>)
  {
    if |s| == 0 then Err(EmptyString)
    else if s[0] == '-' then Err(NegativeNonDecimal)
    else
      var body := if s[0] == '+' then s[1..] else s;
      var d := LeadingBinaryDigits(body);
      if d == 0 then Err(NoDigits)
      else
        BinaryTextValue(body[..d]);
        var v := ValueOf(body[..d], BinaryDigits).value;
        if v >= TwoTo32 then Err(Overflow)
        else if d < |body| then Err(ExtraJunk)
        else Ok(Wrap32(v))
  }

  lemma {:induction false} BinaryTextValue(s: string)
    requires IsBinaryText(s)
    ensures ValueOf(s, BinaryDigits).Some?
  {
    if |s| > 0 {
      BinaryTextValue(s[..|s| - 1]);
    }
  }

  /** ConvertBinaryStringToInt32: strip the spaces, then parse base 2. */
  function ConvertBinaryStringToInt32(s: string): (r: Result<Int32, ConvertError>)
  {
    ConvertToInt32Base2(Remove(s, ' '))
  }

  /** The tests' round trip: parsing the formatted text of a value gives the value. */
  lemma RoundTrip(value: Int32)
    ensures ConvertBinaryStringToInt32(Grouped(Bits32(value))) == Ok(value)
  {
    var bits := Bits32(value);
    SpacesRemovedIsBits32(value);
    FixedBinaryDigits(Unsigned32(value), 32);
    assert bits[..32] == bits;
    StandardAlphabets();
    ValueOfFixedDigits(Unsigned32(value), 32, BinaryDigits);
    TwoTo32IsPow();
    ModSmall(Unsigned32(value), TwoTo32);
  }

  /** Any 32-digit pattern parses to the int with that pattern, and formats back to
      the same text: the parse is the formatter's inverse on its whole range. */
  lemma ParseThenFormat(bits: string)
    requires |bits| == 32 && IsBinaryText(bits)
    ensures exists v: Int32 :: Bits32(v) == bits && ConvertBinaryStringToInt32(Grouped(bits)) == Ok(v)
  {
    BinaryTextValue(bits);
    StandardAlphabets();
    var n := ValueOf(bits, BinaryDigits).value;
    ValueOfBound(bits, BinaryDigits);
    TwoTo32IsPow();
    var v := Wrap32(n);
    assert Unsigned32(v) == n;
    FixedDigitsOfValue(bits, BinaryDigits);
    assert Bits32(v) == bits;
    RoundTrip(v);
  }

  /** The argument errors: an empty string, and a '-' sign, which
      `Convert.ToInt32` accepts only in base 10. */
  lemma ConvertSignErrors(digits: string)
    ensures ConvertBinaryStringToInt32("") == Err(EmptyString)
    ensures ConvertBinaryStringToInt32("-" + Remove(digits, ' ')) == Err(NegativeNonDecimal)
  {
    assert Remove("", ' ') == "";
    RemoveAppend("-", Remove(digits, ' '), ' ');
    RemoveAbsent("-", ' ');
    RemoveAbsent(Remove(digits, ' '), ' ');
  }

  /** Format error: no digit at all after the optional '+'. */
  lemma ConvertNoDigits(rest: string)
    requires IsBinaryText(rest)
    ensures ConvertBinaryStringToInt32("+") == Err(NoDigits)
    ensures ConvertBinaryStringToInt32("2" + rest) == Err(NoDigits)
  {
    RemoveAbsent("+", ' ');
    var s := "2" + rest;
    assert forall k :: 0 < k < |s| ==> s[k] == rest[k - 1];
    RemoveAbsent(s, ' ');
  }

  /** Format error: a character that is not a binary digit after at most 32
      digits. */
  lemma ConvertTrailingJunk(digits: string)
    requires IsBinaryText(digits) && 1 <= |digits| <= 32
    ensures ConvertBinaryStringToInt32(digits + "2") == Err(ExtraJunk)
  {
    var s := digits + "2";
    RemoveAbsent(s, ' ');
    LeadingOfBinaryThenJunk(digits, "2");
    assert s[..|digits|] == digits;
    BinaryTextValue(digits);
    ValueOfBound(digits, BinaryDigits);
    TwoTo32IsPow();
    PowMonotone(2, |digits|, 32);
  }

  /** A one followed by 32 zeros is 2^32, one too many for 32 bits. */
  lemma ConvertOverflow()
    ensures ConvertBinaryStringToInt32("1" + Repeat('0', 32)) == Err(Overflow)
  {
    var big := "1" + Repeat('0', 32);
    RemoveAbsent(big, ' ');
    assert IsBinaryText(big);
    LeadingOfBinary(big);
    assert big[..33] == big;
    PowerOfTwoBits(32, 33);
    assert big == FixedDigits(Pow(2, 32), 33, BinaryDigits);
    StandardAlphabets();
    ValueOfFixedDigits(Pow(2, 32), 33, BinaryDigits);
    TwoTo32IsPow();
    ModSmall(TwoTo32, 2 * TwoTo32);
  }

  lemma {:induction false} LeadingOfBinaryThenJunk(s: string, rest: string)
    requires IsBinaryText(s) && |rest| >= 1 && rest[0] != '0' && rest[0] != '1'
    ensures LeadingBinaryDigits(s + rest) == |s|
  {
    if |s| > 0 {
      assert (s + rest)[1..] == s[1..] + rest;
      LeadingOfBinaryThenJunk(s[1..], rest);
    }
  }

  lemma {:induction false} LeadingOfBinary(s: string)
    requires IsBinaryText(s)
    ensures LeadingBinaryDigits(s) == |s|
  {
    if |s| > 0 {
      LeadingOfBinary(s[1..]);
    }
  }

  // ---------------------------------------------------------------------------
  // Particular values
  // ---------------------------------------------------------------------------

  /** 2^k has a single 1 bit, k places from the right. */
  lemma {:induction false} PowerOfTwoBits(k: nat, width: nat)
    requires k < width
    ensures FixedDigits(Pow(2, k), width, BinaryDigits) == Repeat('0', width - 1 - k) + "1" + Repeat('0', k)
  {
    if k == 0 {
      FixedDigitsZero(width - 1, BinaryDigits);
      assert FixedDigits(1, width, BinaryDigits) == FixedDigits(0, width - 1, BinaryDigits) + "1";
    } else {
      PowerOfTwoBits(k - 1, width - 1);
      assert Pow(2, k) / 2 == Pow(2, k - 1) && Pow(2, k) % 2 == 0;
      assert Repeat('0', k) == Repeat('0', k - 1) + "0";
    }
  }

  /** The tests' powers of two 1, 2, 4, ..., 2^30: exactly one '1', at index 31 - k. */
  lemma PowersOfTwo(k: nat)
    requires k < 31
    ensures Pow(2, k) <= IntMaxValue
    ensures Bits32(Pow(2, k)) == Repeat('0', 31 - k) + "1" + Repeat('0', k)
    ensures forall p :: 0 <= p < 32 ==> (Bits32(Pow(2, k))[p] == '1' <==> p == 31 - k)
  {
    PowMonotone(2, k, 30);
    TwoTo32IsPow();
    PowerOfTwoBits(k, 32);
    var b := Bits32(Pow(2, k));
    forall p | 0 <= p < 32 ensures (b[p] == '1' <==> p == 31 - k) {
      if p < 31 - k {
        assert b[p] == Repeat('0', 31 - k)[p];
      } else if p > 31 - k {
        assert b[p] == Repeat('0', k)[p - 32 + k];
      }
    }
  }

  lemma {:induction false} AllOnes(width: nat)
    ensures Pow(2, width) >= 1
    ensures FixedDigits(Pow(2, width) - 1, width, BinaryDigits) == Repeat('1', width)
  {
    if width > 0 {
      AllOnes(width - 1);
      assert (Pow(2, width) - 1) / 2 == Pow(2, width - 1) - 1;
      assert Repeat('1', width) == Repeat('1', width - 1) + "1";
    }
  }

  /** The pattern of -v - 1 (the bitwise complement) flips every bit of v's. */
  lemma {:induction false} ComplementBits(n: nat, width: nat)
    requires n < Pow(2, width)
    ensures forall p :: 0 <= p < width ==>
      FixedDigits(Pow(2, width) - 1 - n, width, BinaryDigits)[p] != FixedDigits(n, width, BinaryDigits)[p]
  {
    if width > 0 {
      assert (Pow(2, width) - 1 - n) / 2 == Pow(2, width - 1) - 1 - n / 2;
      assert (Pow(2, width) - 1 - n) % 2 == 1 - n % 2;
      ComplementBits(n / 2, width - 1);
    }
  }

  /** Zero gives 32 zeros: "0000 0000 ... 0000". */
  lemma Zero()
    ensures Bits32(0) == Repeat('0', 32) && |Grouped(Bits32(0))| == 39
    ensures forall p :: 0 <= p < 39 ==> Grouped(Bits32(0))[p] == if p % 5 == 4 then ' ' else '0'
  {
    FixedDigitsZero(32, BinaryDigits);
    FormattedShape(0);
  }

  /** -1 gives 32 ones: "1111 1111 ... 1111". */
  lemma MinusOne()
    ensures Bits32(-1) == Repeat('1', 32) && |Grouped(Bits32(-1))| == 39
    ensures forall p :: 0 <= p < 39 ==> Grouped(Bits32(-1))[p] == if p % 5 == 4 then ' ' else '1'
  {
    AllOnes(32);
    TwoTo32IsPow();
    FormattedShape(-1);
  }

  /** int.MinValue is a 1 and 31 zeros, int.MaxValue a 0 and 31 ones: each bit of
      one is the flipped bit of the other. */
  lemma MinAndMaxValue()
    ensures Bits32(IntMinValue) == "1" + Repeat('0', 31)
    ensures Bits32(IntMaxValue) == "0" + Repeat('1', 31)
    ensures forall p :: 0 <= p < 32 ==> Bits32(IntMinValue)[p] != Bits32(IntMaxValue)[p]
  {
    TwoTo32IsPow();
    PowerOfTwoBits(31, 32);
    assert Unsigned32(IntMinValue) == Pow(2, 31);
    AllOnes(31);
    FixedDigitsWiden(Pow(2, 31) - 1, 31, 1, BinaryDigits);
    assert Unsigned32(IntMaxValue) == Pow(2, 31) - 1;
    ComplementBits(Pow(2, 31), 32);
    assert Pow(2, 32) - 1 - Pow(2, 31) == IntMaxValue;
  }
}
