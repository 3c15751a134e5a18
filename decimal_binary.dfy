/** The three `FormatDecimalAsBinary` helpers (GetDecimalBinaryValues.cs,
    01-DataTypes/Binary.Tests/DecimalBinaryTests.cs and
    Binary.Tests/DecimalBinaryRepresentationTests.cs): a decimal's four 32-bit words
    `decimal.GetBits` returns, written as binary with 4-bit groups, as plain
    binary, and as 8-digit upper-case hexadecimal. */
module DecimalBinary {
  import opened Common
  import opened Text
  import opened Int32Binary

  const TwoTo64: nat := 0x1_0000_0000_0000_0000
  const TwoTo96: nat := 0x1_0000_0000_0000_0000_0000_0000
  /** Bit 31 of the flags word: the sign. */
  const SignBit: nat := 0x8000_0000
  /** Bits 16 to 23 of the flags word hold the scale. */
  const ScaleUnit: nat := 0x1_0000
  const MaxScale: nat := 28

  /** A C# `decimal`: (-1)^negative * mantissa / 10^scale, with a 96-bit mantissa
      and a scale of at most 28. The sign of a zero is kept. */
  datatype Decimal = Decimal(negative: bool, scale: nat, mantissa: nat)

  predicate ValidDecimal(d: Decimal)
  {
    d.scale <= MaxScale && d.mantissa < TwoTo96
  }

  /** The number a decimal stands for. */
  function Value(d: Decimal): (r: real)
    ensures d.mantissa == 0 ==> r == 0.0
    ensures !d.negative ==> r >= 0.0
  {
    PowPositive(10, d.scale);
    var magnitude := d.mantissa as real / Pow(10, d.scale) as real;
    if d.negative then -magnitude else magnitude
  }

  /** The array `decimal.GetBits` returns, as unsigned words: [lo, mid, hi, flags]. */
  datatype DecimalBits = DecimalBits(lo: UInt32, mid: UInt32, hi: UInt32, flags: UInt32)

  /** `decimal.GetBits`: the mantissa little-endian in lo, mid and hi; the scale
      in bits 16 to 23 of flags and the sign in bit 31, every other flag bit zero. */
  function GetBits(d: Decimal): (r: DecimalBits)
    requires ValidDecimal(d)
    ensures r.lo + TwoTo32 * r.mid + TwoTo64 * r.hi == d.mantissa
    ensures r.flags == d.scale * ScaleUnit + (if d.negative then SignBit else 0)
  {
    MantissaWords(d.mantissa);
    DecimalBits(d.mantissa % TwoTo32, (d.mantissa / TwoTo32) % TwoTo32, d.mantissa / TwoTo64,
                d.scale * ScaleUnit + (if d.negative then SignBit else 0))
  }

  lemma MantissaWords(m: nat)
    requires m < TwoTo96
    ensures m / TwoTo64 < TwoTo32
    ensures m % TwoTo32 + TwoTo32 * ((m / TwoTo32) % TwoTo32) + TwoTo64 * (m / TwoTo64) == m
  {
    var q := m / TwoTo32;
    assert m == TwoTo32 * q + m % TwoTo32;
    assert q == TwoTo32 * (q / TwoTo32) + q % TwoTo32;
    assert q / TwoTo32 == m / TwoTo64;
  }

  /** The flags words `new decimal(int[])` accepts. */
  predicate ValidFlags(flags: UInt32)
  {
    flags % ScaleUnit == 0 && (flags / ScaleUnit) % 0x100 <= MaxScale && (flags / 0x100_0000) % 0x80 == 0
  }

  /** `new decimal(int[])`, the inverse of `GetBits`: None where it throws. */
  function FromBits(b: DecimalBits): (r: Option<Decimal>)
    ensures r.Some? <==> ValidFlags(b.flags)
    ensures r.Some? ==> ValidDecimal(r.value)
  {
    if ValidFlags(b.flags) then
      Some(Decimal(b.flags >= SignBit, (b.flags / ScaleUnit) % 0x100, b.lo + TwoTo32 * b.mid + TwoTo64 * b.hi))
    else None
  }

  /** Every decimal's words are accepted and give the decimal back. */
  lemma GetBitsRoundTrip(d: Decimal)
    requires ValidDecimal(d)
    ensures ValidFlags(GetBits(d).flags)
    ensures FromBits(GetBits(d)) == Some(d)
  {
    var f := GetBits(d).flags;
    var s := if d.negative then 1 else 0;
    FlagsFields(d.scale, s);
  }

  lemma FlagsFields(scale: nat, sign: nat)
    requires scale <= MaxScale && sign <= 1
    ensures var f := scale * ScaleUnit + sign * SignBit;
      f % ScaleUnit == 0 && (f / ScaleUnit) % 0x100 == scale && (f / 0x100_0000) % 0x80 == 0
      && (f >= SignBit <==> sign == 1)
  {
    var f := scale * ScaleUnit + sign * SignBit;
    assert f == ScaleUnit * (scale + 0x8000 * sign);
    assert f / ScaleUnit == scale + 0x8000 * sign;
    assert (scale + 0x8000 * sign) % 0x100 == scale;
    assert f / 0x100_0000 == 0x80 * sign;
  }

  /** The words of every accepted array are those of the decimal it makes: one
      decimal per accepted array. */
  lemma FromBitsRoundTrip(b: DecimalBits)
    requires FromBits(b).Some?
    ensures GetBits(FromBits(b).value) == b
  {
    var d := FromBits(b).value;
    var m := d.mantissa;
    assert m / TwoTo32 == b.mid + TwoTo32 * b.hi;
    assert m % TwoTo32 == b.lo;
    assert m / TwoTo64 == b.hi;
    var f := b.flags;
    var t := f / ScaleUnit;
    assert f == ScaleUnit * t;
    assert t == 0x100 * (t / 0x100) + d.scale;
    assert t / 0x100 == f / 0x100_0000;
    assert (t / 0x100) % 0x80 == 0;
    assert t / 0x100 == 0 || t / 0x100 == 0x80;
  }

  /** Sign and scale live only in the flags word: negating or rescaling a decimal
      leaves lo, mid and hi as they are, and the mantissa never reaches flags. */
  lemma SignAndScaleInFlags(d: Decimal, negative: bool, scale: nat)
    requires ValidDecimal(d) && scale <= MaxScale
    ensures var e := Decimal(negative, scale, d.mantissa);
      GetBits(e).lo == GetBits(d).lo && GetBits(e).mid == GetBits(d).mid && GetBits(e).hi == GetBits(d).hi
    ensures GetBits(d).flags == GetBits(Decimal(d.negative, d.scale, 0)).flags
    ensures (GetBits(d).flags >= SignBit) == d.negative
  {
    FlagsFields(d.scale, if d.negative then 1 else 0);
  }

  // ---------------------------------------------------------------------------
  // The three text forms
  // ---------------------------------------------------------------------------

  /** `Convert.ToString(w, 2).PadLeft(32, '0')` for a `uint` word. */
  function WordBits(w: UInt32): (r: string)
    ensures |r| == 32
  {
    FixedDigits(w, 32, BinaryDigits)
  }

  /** `w.ToString("X8")`: upper-case hexadecimal, at least 8 digits. */
  function WordHex(w: UInt32): (r: string)
    ensures |r| == 8
  {
    FixedDigits(w, 8, UpperHexDigits)
  }

  lemma WordTextsArePadded(w: UInt32)
    ensures PadLeft(Digits(w, BinaryDigits), 32, '0') == WordBits(w)
    ensures PadLeft(Digits(w, UpperHexDigits), 8, '0') == WordHex(w)
  {
    TwoTo32IsPow();
    PadLeftDigits(w, 32, BinaryDigits);
    HexPow();
    PadLeftDigits(w, 8, UpperHexDigits);
  }

  lemma HexPow()
    ensures Pow(16, 8) == TwoTo32
  {
    assert Pow(16, 4) == 0x1_0000;
  }

  /** GetDecimalBinaryValues.FormatDecimalAsBinary: hi, mid, lo and flags, each in
      eight space-separated 4-bit groups, separated by single spaces. */
  function FormatGrouped(b: DecimalBits): (r: string)
  {
    Join(" ", [Grouped(WordBits(b.hi)), Grouped(WordBits(b.mid)), Grouped(WordBits(b.lo)), Grouped(WordBits(b.flags))])
  }

  /** DecimalBinaryTests.FormatDecimalAsBinary: the four 32-bit words in binary. */
  function FormatPlain(b: DecimalBits): (r: string)
  {
    Join(" ", [WordBits(b.hi), WordBits(b.mid), WordBits(b.lo), WordBits(b.flags)])
  }

  /** DecimalBinaryRepresentationTests.FormatDecimalAsBinary: the four words as X8. */
  function FormatHex(b: DecimalBits): (r: string)
  {
    Join(" ", [WordHex(b.hi), WordHex(b.mid), WordHex(b.lo), WordHex(b.flags)])
  }

  lemma JoinFour(a: string, b: string, c: string, d: string)
    ensures Join(" ", [a, b, c, d]) == a + " " + b + " " + c + " " + d
  {
    var parts := [a, b, c, d];
    assert parts[..3][..2][..1] == [a];
    assert Join(" ", parts[..3][..2]) == a + " " + b;
    assert Join(" ", parts[..3]) == a + " " + b + " " + c;
  }

  /** The lengths the helpers' comments and tests rely on: 159, 131 and 35. */
  lemma Lengths(b: DecimalBits)
    ensures |FormatGrouped(b)| == 159
    ensures |FormatPlain(b)| == 131
    ensures |FormatHex(b)| == 35
  {
    WordShape(b.hi);
    WordShape(b.mid);
    WordShape(b.lo);
    WordShape(b.flags);
    JoinFour(Grouped(WordBits(b.hi)), Grouped(WordBits(b.mid)), Grouped(WordBits(b.lo)), Grouped(WordBits(b.flags)));
    JoinFour(WordBits(b.hi), WordBits(b.mid), WordBits(b.lo), WordBits(b.flags));
    JoinFour(WordHex(b.hi), WordHex(b.mid), WordHex(b.lo), WordHex(b.flags));
  }

  // ---------------------------------------------------------------------------
  // Reading the texts back
  // ---------------------------------------------------------------------------

  /** One word of `width` digits of the alphabet. */
  function WordOf(s: string, width: nat, alphabet: string): (r: Option<UInt32>)
    requires |alphabet| >= 2 && Pow(|alphabet|, width) == TwoTo32
    ensures r.Some? ==> |s| == width && ValueOf(s, alphabet) == Some(r.value)
  {
    if |s| != width then None
    else match ValueOf(s, alphabet)
      case None => None
      case Some(v) =>
        ValueOfBound(s, alphabet);
        Some(v)
  }

  /** Four words hi, mid, lo, flags. */
  function WordsOf(parts: seq<string>, width: nat, alphabet: string): (r: Option<DecimalBits>)
    requires |alphabet| >= 2 && Pow(|alphabet|, width) == TwoTo32
  {
    if |parts| != 4 then None
    else match (WordOf(parts[0], width, alphabet), WordOf(parts[1], width, alphabet),
                WordOf(parts[2], width, alphabet), WordOf(parts[3], width, alphabet))
      case (Some(hi), Some(mid), Some(lo), Some(flags)) => Some(DecimalBits(lo, mid, hi, flags))
      case _ => None
  }

  lemma WordOfText(w: UInt32, width: nat, alphabet: string)
    requires IsAlphabet(alphabet) && Pow(|alphabet|, width) == TwoTo32
    ensures WordOf(FixedDigits(w, width, alphabet), width, alphabet) == Some(w)
  {
    ValueOfFixedDigits(w, width, alphabet);
    ModSmall(w, TwoTo32);
  }

  function DecodePlain(s: string): (r: Option<DecimalBits>)
  {
    TwoTo32IsPow();
    WordsOf(SplitFixed(s, 32), 32, BinaryDigits)
  }

  function DecodeHex(s: string): (r: Option<DecimalBits>)
  {
    HexPow();
    WordsOf(SplitFixed(s, 8), 8, UpperHexDigits)
  }

  /** Drop the spaces, then cut the 128 bits into four words. */
  function DecodeGrouped(s: string): (r: Option<DecimalBits>)
  {
    var t := Remove(s, ' ');
    if |t| != 128 then None
    else
      TwoTo32IsPow();
      WordsOf([t[..32], t[32..64], t[64..96], t[96..]], 32, BinaryDigits)
  }

  /** The plain binary text determines the words. */
  lemma PlainRoundTrip(b: DecimalBits)
    ensures DecodePlain(FormatPlain(b)) == Some(b)
  {
    var parts := [WordBits(b.hi), WordBits(b.mid), WordBits(b.lo), WordBits(b.flags)];
    SplitJoin(' ', parts, 32);
    StandardAlphabets();
    TwoTo32IsPow();
    WordOfText(b.hi, 32, BinaryDigits);
    WordOfText(b.mid, 32, BinaryDigits);
    WordOfText(b.lo, 32, BinaryDigits);
    WordOfText(b.flags, 32, BinaryDigits);
  }

  /** The hexadecimal text determines the words. */
  lemma HexRoundTrip(b: DecimalBits)
    ensures DecodeHex(FormatHex(b)) == Some(b)
  {
    var parts := [WordHex(b.hi), WordHex(b.mid), WordHex(b.lo), WordHex(b.flags)];
    SplitJoin(' ', parts, 8);
    StandardAlphabets();
    HexPow();
    WordOfText(b.hi, 8, UpperHexDigits);
    WordOfText(b.mid, 8, UpperHexDigits);
    WordOfText(b.lo, 8, UpperHexDigits);
    WordOfText(b.flags, 8, UpperHexDigits);
  }

  /** Without its spaces the grouped text is the 128-bit pattern hi, mid, lo, flags. */
  lemma GroupedSpacesRemoved(b: DecimalBits)
    ensures Remove(FormatGrouped(b), ' ') == WordBits(b.hi) + WordBits(b.mid) + WordBits(b.lo) + WordBits(b.flags)
  {
    var h, m, l, f := WordBits(b.hi), WordBits(b.mid), WordBits(b.lo), WordBits(b.flags);
    JoinFour(Grouped(h), Grouped(m), Grouped(l), Grouped(f));
    RemoveWord(b.hi);
    RemoveWord(b.mid);
    RemoveWord(b.lo);
    RemoveWord(b.flags);
    RemoveAbsent("", ' ');
    assert Remove(" ", ' ') == "" by {
      assert " "[..0] == "";
    }
    var gh, gm, gl, gf := Grouped(h), Grouped(m), Grouped(l), Grouped(f);
    RemoveAppend(gh + " " + gm + " " + gl + " ", gf, ' ');
    RemoveAppend(gh + " " + gm + " " + gl, " ", ' ');
    RemoveAppend(gh + " " + gm + " ", gl, ' ');
    RemoveAppend(gh + " " + gm, " ", ' ');
    RemoveAppend(gh + " ", gm, ' ');
    RemoveAppend(gh, " ", ' ');
  }

  lemma RemoveWord(w: UInt32)
    ensures Remove(Grouped(WordBits(w)), ' ') == WordBits(w)
  {
    FixedBinaryDigits(w, 32);
    Int32Binary.GroupedSpacesRemoved(WordBits(w));
  }

  lemma WordShape(w: UInt32)
    ensures |Grouped(WordBits(w))| == 39
  {
    FixedBinaryDigits(w, 32);
    GroupedShape(WordBits(w));
  }

  /** The grouped text determines the words. */
  lemma GroupedRoundTrip(b: DecimalBits)
    ensures DecodeGrouped(FormatGrouped(b)) == Some(b)
  {
    GroupedSpacesRemoved(b);
    var t := WordBits(b.hi) + WordBits(b.mid) + WordBits(b.lo) + WordBits(b.flags);
    QuarterSlices(WordBits(b.hi), WordBits(b.mid), WordBits(b.lo), WordBits(b.flags));
    WordsOfBits(b);
  }

  lemma QuarterSlices(h: string, m: string, l: string, f: string)
    requires |h| == |m| == |l| == |f| == 32
    ensures var t := h + m + l + f;
      |t| == 128 && t[..32] == h && t[32..64] == m && t[64..96] == l && t[96..] == f
  {
  }

  lemma WordsOfBits(b: DecimalBits)
    ensures TwoTo32 == Pow(2, 32)
    ensures WordsOf([WordBits(b.hi), WordBits(b.mid), WordBits(b.lo), WordBits(b.flags)], 32, BinaryDigits) == Some(b)
  {
    StandardAlphabets();
    TwoTo32IsPow();
    WordOfText(b.hi, 32, BinaryDigits);
    WordOfText(b.mid, 32, BinaryDigits);
    WordOfText(b.lo, 32, BinaryDigits);
    WordOfText(b.flags, 32, BinaryDigits);
  }

  /** Two decimals print alike in any of the three forms exactly when their words
      are equal. */
  lemma FormatsInjective(d: Decimal, e: Decimal)
    requires ValidDecimal(d) && ValidDecimal(e)
    ensures FormatPlain(GetBits(d)) == FormatPlain(GetBits(e)) <==> d == e
    ensures FormatGrouped(GetBits(d)) == FormatGrouped(GetBits(e)) <==> d == e
    ensures FormatHex(GetBits(d)) == FormatHex(GetBits(e)) <==> d == e
  {
    PlainRoundTrip(GetBits(d));
    PlainRoundTrip(GetBits(e));
    GroupedRoundTrip(GetBits(d));
    GroupedRoundTrip(GetBits(e));
    HexRoundTrip(GetBits(d));
    HexRoundTrip(GetBits(e));
    GetBitsRoundTrip(d);
    GetBitsRoundTrip(e);
  }

  // ---------------------------------------------------------------------------
  // The sign bit in the text
  // ---------------------------------------------------------------------------

  /** Adding 2^31 to a word below 2^31 sets its first binary digit and keeps the rest. */
  lemma {:induction false} HighBit(n: nat, width: nat)
    requires width >= 1 && n < Pow(2, width - 1)
    ensures FixedDigits(n + Pow(2, width - 1), width, BinaryDigits)
      == "1" + FixedDigits(n, width, BinaryDigits)[1..]
    ensures FixedDigits(n, width, BinaryDigits)[0] == '0'
  {
    if width == 1 {
    } else {
      assert (n + Pow(2, width - 1)) / 2 == n / 2 + Pow(2, width - 2);
      assert (n + Pow(2, width - 1)) % 2 == n % 2;
      HighBit(n / 2, width - 1);
      var rest := FixedDigits(n / 2, width - 1, BinaryDigits);
      assert FixedDigits(n, width, BinaryDigits)[1..] == rest[1..] + [BinaryDigits[n % 2]];
    }
  }

  /** In the plain text, the negation of a decimal changes exactly one character:
      position 99, the first bit of the flags word, '1' for negative. */
  lemma NegationFlipsSignBit(d: Decimal)
    requires ValidDecimal(d)
    ensures var t := FormatPlain(GetBits(d));
      var u := FormatPlain(GetBits(Decimal(!d.negative, d.scale, d.mantissa)));
      |t| == 131 && |u| == 131 && t[99] == (if d.negative then '1' else '0')
      && forall p :: 0 <= p < 131 ==> (t[p] != u[p] <==> p == 99)
  {
    var d0 := Decimal(false, d.scale, d.mantissa);
    var d1 := Decimal(true, d.scale, d.mantissa);
    var b0, b1 := GetBits(d0), GetBits(d1);
    TwoTo32IsPow();
    assert b0.flags < SignBit;
    HighBit(b0.flags, 32);
    assert b1.flags == b0.flags + Pow(2, 31);
    var f0, f1 := WordBits(b0.flags), WordBits(b1.flags);
    assert f1 == "1" + f0[1..];
    var w := WordBits(b0.hi) + " " + WordBits(b0.mid) + " " + WordBits(b0.lo) + " ";
    JoinFour(WordBits(b0.hi), WordBits(b0.mid), WordBits(b0.lo), f0);
    JoinFour(WordBits(b1.hi), WordBits(b1.mid), WordBits(b1.lo), f1);
    var t0, t1 := w + f0, w + f1;
    assert FormatPlain(b0) == t0 && FormatPlain(b1) == t1;
    assert |w| == 99;
    forall p | 0 <= p < 131 ensures (t0[p] != t1[p] <==> p == 99) {
      if p < 99 {
        assert t0[p] == w[p] == t1[p];
      } else if p > 99 {
        assert t0[p] == f0[p - 99] == t1[p];
      }
    }
  }

  // ---------------------------------------------------------------------------
  // The values the tests use
  // ---------------------------------------------------------------------------

  /** decimal.MaxValue: the largest 96-bit mantissa, scale 0. */
  const MaxValue := Decimal(false, 0, TwoTo96 - 1)
  /** decimal.MinValue: the same mantissa, negative. */
  const MinValue := Decimal(true, 0, TwoTo96 - 1)

  /** The words of the values the tests format: small integers have only lo, -1
      sets the sign bit, MaxValue and MinValue fill all 96 mantissa bits, and
      1.5, 1.25 and 1.125 are mantissas 15, 125 and 1125 with scales 1, 2 and 3. */
  lemma TestValues()
    ensures GetBits(Decimal(false, 0, 0)) == DecimalBits(0, 0, 0, 0)
    ensures GetBits(Decimal(false, 0, 1)) == DecimalBits(1, 0, 0, 0)
    ensures GetBits(Decimal(false, 0, 10)) == DecimalBits(10, 0, 0, 0)
    ensures GetBits(Decimal(false, 0, 100)) == DecimalBits(100, 0, 0, 0)
    ensures GetBits(Decimal(true, 0, 1)) == DecimalBits(1, 0, 0, 0x8000_0000)
    ensures GetBits(MaxValue) == DecimalBits(0xFFFF_FFFF, 0xFFFF_FFFF, 0xFFFF_FFFF, 0)
    ensures GetBits(MinValue) == DecimalBits(0xFFFF_FFFF, 0xFFFF_FFFF, 0xFFFF_FFFF, 0x8000_0000)
    ensures Value(Decimal(false, 1, 15)) == 1.5 && GetBits(Decimal(false, 1, 15)) == DecimalBits(15, 0, 0, 0x1_0000)
    ensures Value(Decimal(false, 2, 125)) == 1.25 && GetBits(Decimal(false, 2, 125)) == DecimalBits(125, 0, 0, 0x2_0000)
    ensures Value(Decimal(false, 3, 1125)) == 1.125 && GetBits(Decimal(false, 3, 1125)) == DecimalBits(1125, 0, 0, 0x3_0000)
  {
    assert Pow(10, 3) == 1000;
  }

  /** The hexadecimal words of those values. */
  lemma TestHexWords()
    ensures WordHex(10) == "0000000A"
  {
  }
}
