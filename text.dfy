/** The .NET string operations the core relies on: positional digits in a base
    (`Convert.ToString(n, base)`, `ToString()`, `X8`), `PadLeft`, `string.Join`,
    `Substring` groups, `Replace(" ", "")`, `Trim`, `ToUpperInvariant`, `EndsWith`,
    `StartsWith`, and integer number parsing. */
module Text {
  import opened Common

  const BinaryDigits: string := "01"
  const DecimalDigits: string := "0123456789"
  const UpperHexDigits: string := "0123456789ABCDEF"
  const LowerHexDigits: string := "0123456789abcdef"

  /** A digit alphabet: at least two digits, no digit twice; the base is its length. */
  predicate IsAlphabet(alphabet: string)
  {
    |alphabet| >= 2 && forall i, j :: 0 <= i < j < |alphabet| ==> alphabet[i] != alphabet[j]
  }

  lemma StandardAlphabets()
    ensures IsAlphabet(BinaryDigits) && IsAlphabet(DecimalDigits)
    ensures IsAlphabet(UpperHexDigits) && IsAlphabet(LowerHexDigits)
  {
    DistinctDigits(DecimalDigits, '0');
    DistinctDigits(UpperHexDigits, '0');
    DistinctDigits(LowerHexDigits, '0');
  }

  /** Strings whose characters strictly increase, as every digit alphabet here does. */
  lemma DistinctDigits(alphabet: string, first: char)
    requires |alphabet| >= 2 && alphabet[0] == first
    requires forall k :: 0 < k < |alphabet| ==> alphabet[k - 1] < alphabet[k]
    ensures IsAlphabet(alphabet)
  {
    forall i, j | 0 <= i < j < |alphabet| ensures alphabet[i] < alphabet[j] {
      Increasing(alphabet, i, j);
    }
  }

  lemma {:induction false} Increasing(s: string, i: nat, j: nat)
    requires i < j < |s| && forall k :: 0 < k < |s| ==> s[k - 1] < s[k]
    ensures s[i] < s[j]
    decreases j - i
  {
    if i + 1 < j {
      Increasing(s, i + 1, j);
    }
  }

  function Pow(b: nat, e: nat): nat
  {
    if e == 0 then 1 else b * Pow(b, e - 1)
  }

  lemma {:induction false} PowPositive(b: nat, e: nat)
    requires b > 0
    ensures Pow(b, e) > 0
  {
    if e > 0 {
      PowPositive(b, e - 1);
      MulAtLeast(Pow(b, e - 1), b);
    }
  }

  function Repeat(c: char, n: nat): (r: string)
    ensures |r| == n && forall k :: 0 <= k < n ==> r[k] == c
  {
    seq(n, _ => c)
  }

  // ---------------------------------------------------------------------------
  // Digits
  // ---------------------------------------------------------------------------

  /** The digits of n in base |alphabet|, most significant first, without leading
      zeros ("0" for zero): `Convert.ToString(n, 2)` for n >= 0, `n.ToString()`. */
  function Digits(n: nat, alphabet: string): (r: string)
    requires |alphabet| >= 2
    ensures |r| >= 1
    decreases n
  {
    if n < |alphabet| then [alphabet[n]]
    else Digits(n / |alphabet|, alphabet) + [alphabet[n % |alphabet|]]
  }

  /** The lowest `width` digits of n in base |alphabet|, most significant first. */
  function FixedDigits(n: nat, width: nat, alphabet: string): (r: string)
    requires |alphabet| >= 2
    ensures |r| == width
  {
    if width == 0 then [] else FixedDigits(n / |alphabet|, width - 1, alphabet) + [alphabet[n % |alphabet|]]
  }

  /** The position of c in the alphabet, if it is a digit. */
  function DigitValue(c: char, alphabet: string): (r: Option<nat>)
    ensures r.Some? ==> r.value < |alphabet| && alphabet[r.value] == c
    ensures r.None? <==> c !in alphabet
  {
    if |alphabet| == 0 then None
    else if alphabet[|alphabet| - 1] == c then Some(|alphabet| - 1)
    else DigitValue(c, alphabet[..|alphabet| - 1])
  }

  /** The number a string of digits denotes, most significant first; None when a
      character is not a digit. The empty string denotes zero. */
  function ValueOf(s: string, alphabet: string): (r: Option<nat>)
    requires |alphabet| >= 2
    ensures r.Some? <==> forall k :: 0 <= k < |s| ==> s[k] in alphabet
  {
    if |s| == 0 then Some(0)
    else
      var init := ValueOf(s[..|s| - 1], alphabet);
      var last := DigitValue(s[|s| - 1], alphabet);
      if init.None? || last.None? then None
      else Some(init.value * |alphabet| + last.value)
  }

  /** A string of |s| digits denotes less than base^|s|. */
  lemma {:induction false} ValueOfBound(s: string, alphabet: string)
    requires |alphabet| >= 2 && ValueOf(s, alphabet).Some?
    ensures ValueOf(s, alphabet).value < Pow(|alphabet|, |s|)
  {
    if |s| > 0 {
      var init := s[..|s| - 1];
      ValueOfBound(init, alphabet);
      ValueStep(ValueOf(init, alphabet).value, DigitValue(s[|s| - 1], alphabet).value, |alphabet|, |s| - 1);
    }
  }

  lemma ValueStep(v: nat, d: nat, b: nat, e: nat)
    requires v < Pow(b, e) && d < b
    ensures v * b + d < Pow(b, e + 1)
  {
    var p := Pow(b, e);
    MulMonotone(v, p - 1, b);
    assert (p - 1) * b == p * b - b;
  }

  // ---------------------------------------------------------------------------
  // Arithmetic facts the solver does not find on its own
  // ---------------------------------------------------------------------------

  lemma MulMonotone(x: int, y: int, b: int)
    requires 0 <= x <= y && b >= 0
    ensures x * b <= y * b
  {
    assert y * b == x * b + (y - x) * b;
  }

  lemma MulAtLeast(d: int, k: int)
    requires d > 0 && k >= 1
    ensures d * k >= d
  {
    assert d * k == d * (k - 1) + d;
    assert d * (k - 1) >= 0;
  }

  lemma DigitValueOf(alphabet: string, k: nat)
    requires IsAlphabet(alphabet) && k < |alphabet|
    ensures DigitValue(alphabet[k], alphabet) == Some(k)
  {
    var r := DigitValue(alphabet[k], alphabet);
    assert alphabet[k] in alphabet;
    assert alphabet[r.value] == alphabet[k];
  }

  lemma ModUnique(n: int, d: int, q: int, r: int)
    requires d > 0 && n == d * q + r && 0 <= r < d
    ensures n % d == r && n / d == q
  {
    var q0 := n / d;
    var r0 := n % d;
    assert n == d * q0 + r0;
    assert d * (q - q0) == r0 - r;
    if q > q0 {
      MulAtLeast(d, q - q0);
    } else if q < q0 {
      MulAtLeast(d, q0 - q);
    }
  }

  /** Digit b of a number in mixed radix: ((n / b) % p) * b + n % b == n % (b * p). */
  lemma ModMul(n: nat, b: nat, p: nat)
    requires b > 0 && p > 0
    ensures ((n / b) % p) * b + n % b == n % (b * p)
    ensures (n / b) / p == n / (b * p)
  {
    var q := n / b;
    var r := n % b;
    var t := q / p;
    var m := q % p;
    assert n == b * q + r;
    assert q == p * t + m;
    assert n == (b * p) * t + (m * b + r) by {
      assert b * q == b * (p * t) + b * m;
      assert b * (p * t) == (b * p) * t;
    }
    MulMonotone(m, p - 1, b);
    assert (p - 1) * b == b * p - b;
    ModUnique(n, b * p, t, m * b + r);
  }

  /** Reading back the fixed-width digits of n gives n modulo the width's range. */
  lemma {:induction false} ValueOfFixedDigits(n: nat, width: nat, alphabet: string)
    requires IsAlphabet(alphabet)
    ensures Pow(|alphabet|, width) > 0
      && ValueOf(FixedDigits(n, width, alphabet), alphabet) == Some(n % Pow(|alphabet|, width))
    decreases width
  {
    var b := |alphabet|;
    PowPositive(b, width);
    if width == 0 {
      ModOne(n);
    } else {
      var p := Pow(b, width - 1);
      PowPositive(b, width - 1);
      PowStep(b, width);
      var init := FixedDigits(n / b, width - 1, alphabet);
      FixedDigitsStep(n, width, alphabet);
      ValueOfFixedDigits(n / b, width - 1, alphabet);
      DigitValueOf(alphabet, n % b);
      ValueOfSnoc(init, alphabet[n % b], alphabet);
      ModMul(n, b, p);
    }
  }

  lemma ModOne(n: nat)
    ensures n % 1 == 0
  {
  }

  /** One step of the fixed-width digits: the last digit is n mod the base. */
  lemma FixedDigitsStep(n: nat, width: nat, alphabet: string)
    requires |alphabet| >= 2 && width >= 1
    ensures FixedDigits(n, width, alphabet)
         == FixedDigits(n / |alphabet|, width - 1, alphabet) + [alphabet[n % |alphabet|]]
  {
  }

  lemma ValueOfSnoc(s: string, c: char, alphabet: string)
    requires |alphabet| >= 2 && ValueOf(s, alphabet).Some? && DigitValue(c, alphabet).Some?
    ensures ValueOf(s + [c], alphabet)
         == Some(ValueOf(s, alphabet).value * |alphabet| + DigitValue(c, alphabet).value)
  {
    var t := s + [c];
    assert t[..|t| - 1] == s;
    ValueOfStep(t, alphabet);
  }

  /** One step of reading digits: the last digit is added to base times the rest. */
  lemma ValueOfStep(t: string, alphabet: string)
    requires |alphabet| >= 2 && |t| >= 1
    ensures ValueOf(t, alphabet).Some?
        <==> ValueOf(t[..|t| - 1], alphabet).Some? && DigitValue(t[|t| - 1], alphabet).Some?
    ensures ValueOf(t, alphabet).Some? ==>
      ValueOf(t, alphabet).value
        == ValueOf(t[..|t| - 1], alphabet).value * |alphabet| + DigitValue(t[|t| - 1], alphabet).value
  {
  }

  /** Formatting the value of a digit string at its own width gives the string back. */
  lemma {:induction false} FixedDigitsOfValue(s: string, alphabet: string)
    requires IsAlphabet(alphabet) && ValueOf(s, alphabet).Some?
    ensures FixedDigits(ValueOf(s, alphabet).value, |s|, alphabet) == s
  {
    if |s| > 0 {
      var b := |alphabet|;
      var init := ValueOf(s[..|s| - 1], alphabet).value;
      var last := DigitValue(s[|s| - 1], alphabet).value;
      var v := init * b + last;
      ModUnique(v, b, init, last);
      FixedDigitsOfValue(s[..|s| - 1], alphabet);
      FixedDigitsStep(v, |s|, alphabet);
      assert s == s[..|s| - 1] + [s[|s| - 1]];
    }
  }

  /** Zero at any width is all zero digits. */
  lemma {:induction false} FixedDigitsZero(width: nat, alphabet: string)
    requires |alphabet| >= 2
    ensures FixedDigits(0, width, alphabet) == Repeat(alphabet[0], width)
  {
    if width > 0 {
      FixedDigitsZero(width - 1, alphabet);
      FixedDigitsStep(0, width, alphabet);
    }
  }

  /** Widening a fixed-width digit string of a value that fits adds leading zeros. */
  lemma {:induction false} FixedDigitsWiden(n: nat, width: nat, extra: nat, alphabet: string)
    requires |alphabet| >= 2 && n < Pow(|alphabet|, width)
    ensures FixedDigits(n, width + extra, alphabet) == Repeat(alphabet[0], extra) + FixedDigits(n, width, alphabet)
    decreases width
  {
    var b := |alphabet|;
    if width == 0 {
      assert n == 0;
      FixedDigitsZero(extra, alphabet);
    } else {
      PowStep(b, width);
      DivBound(n, b, Pow(b, width - 1));
      FixedDigitsWiden(n / b, width - 1, extra, alphabet);
      FixedDigitsStep(n, width, alphabet);
      FixedDigitsStep(n, width + extra, alphabet);
      assert width + extra - 1 == (width - 1) + extra;
    }
  }

  lemma DivAtLeastOne(n: nat, b: nat)
    requires 0 < b <= n
    ensures n / b >= 1
  {
    var q := n / b;
    assert n == b * q + n % b && n % b < b;
    assert b * q > 0;
  }

  lemma DivLess(n: nat, b: nat)
    requires 2 <= b <= n
    ensures n / b < n
  {
    DivAtLeastOne(n, b);
    var q := n / b;
    assert n == b * q + n % b;
    MulAtLeast(q, b);
    assert b * q >= 2 * q;
  }

  lemma DivBound(n: nat, b: nat, p: nat)
    requires b > 0 && n < b * p
    ensures n / b < p
  {
    if n / b >= p {
      MulMonotone(p, n / b, b);
    }
  }

  lemma PowStep(b: nat, e: nat)
    requires e >= 1
    ensures Pow(b, e) == b * Pow(b, e - 1)
  {
  }

  /** Powers of one base multiply by adding their exponents. */
  lemma {:induction false} PowAdd(b: nat, e1: nat, e2: nat)
    ensures Pow(b, e1 + e2) == Pow(b, e1) * Pow(b, e2)
    decreases e2
  {
    if e2 > 0 {
      PowAdd(b, e1, e2 - 1);
      PowStep(b, e1 + e2);
      PowStep(b, e2);
      var p, q := Pow(b, e1), Pow(b, e2 - 1);
      assert b * (p * q) == p * (b * q);
    }
  }

  lemma PowZero(b: nat)
    ensures Pow(b, 0) == 1
  {
  }

  /** A number below the base is a single digit. */
  lemma DigitsSingle(n: nat, alphabet: string)
    requires |alphabet| >= 2 && n < |alphabet|
    ensures Digits(n, alphabet) == [alphabet[n]]
  {
  }

  /** Above the base, the digits are those of n / base followed by the last digit. */
  lemma DigitsStep(n: nat, alphabet: string)
    requires |alphabet| >= 2 && n >= |alphabet|
    ensures Digits(n, alphabet) == Digits(n / |alphabet|, alphabet) + [alphabet[n % |alphabet|]]
  {
  }

  /** The minimal digits padded with `extra` zeros are the fixed-width digits at
      that width. */
  lemma {:induction false} DigitsWiden(n: nat, extra: nat, alphabet: string)
    requires |alphabet| >= 2
    ensures FixedDigits(n, |Digits(n, alphabet)| + extra, alphabet) == Repeat(alphabet[0], extra) + Digits(n, alphabet)
    decreases n
  {
    var b := |alphabet|;
    if n < b {
      DigitsSingle(n, alphabet);
      FixedDigitsStep(n, 1 + extra, alphabet);
      ModUnique(n, b, 0, n);
      FixedDigitsZero(extra, alphabet);
    } else {
      var q := n / b;
      DivLess(n, b);
      DigitsStep(n, alphabet);
      var k := |Digits(q, alphabet)|;
      DigitsWiden(q, extra, alphabet);
      FixedDigitsStep(n, k + 1 + extra, alphabet);
      assert k + 1 + extra - 1 == k + extra;
      assert |Digits(n, alphabet)| + extra == k + 1 + extra;
    }
  }

  /** `Convert.ToString(n, base).PadLeft(width, '0')` is the fixed-width digit string
      whenever n fits in `width` digits. */
  lemma PadLeftDigits(n: nat, width: nat, alphabet: string)
    requires |alphabet| >= 2 && width >= 1 && n < Pow(|alphabet|, width)
    ensures PadLeft(Digits(n, alphabet), width, alphabet[0]) == FixedDigits(n, width, alphabet)
  {
    var k := |Digits(n, alphabet)|;
    DigitsFit(n, width, alphabet);
    DigitsWiden(n, width - k, alphabet);
    assert k + (width - k) == width;
  }

  /** A value below base^width has at most `width` minimal digits. */
  lemma {:induction false} DigitsFit(n: nat, width: nat, alphabet: string)
    requires |alphabet| >= 2 && width >= 1 && n < Pow(|alphabet|, width)
    ensures |Digits(n, alphabet)| <= width
    decreases width
  {
    var b := |alphabet|;
    if n < b {
      DigitsSingle(n, alphabet);
    } else {
      var q := n / b;
      PowStep(b, width);
      DivBound(n, b, Pow(b, width - 1));
      DivAtLeastOne(n, b);
      PowZero(b);
      assert width - 1 != 0;
      DigitsFit(q, width - 1, alphabet);
      DigitsStep(n, alphabet);
    }
  }

  lemma {:induction false} PowMonotone(b: nat, e1: nat, e2: nat)
    requires b >= 1 && e1 <= e2
    ensures Pow(b, e1) <= Pow(b, e2)
    decreases e2
  {
    if e1 < e2 {
      PowMonotone(b, e1, e2 - 1);
      PowStep(b, e2);
      MulMonotone(1, b, Pow(b, e2 - 1));
    }
  }

  lemma ModSmall(n: nat, p: nat)
    requires n < p
    ensures n % p == n
  {
    ModUnique(n, p, 0, n);
  }

  // ---------------------------------------------------------------------------
  // Decimal text of integers
  // ---------------------------------------------------------------------------

  /** `n.ToString()` for a non-negative integer. */
  function NatToString(n: nat): (r: string)
    ensures |r| >= 1 && forall k :: 0 <= k < |r| ==> '0' <= r[k] <= '9'
    decreases n
  {
    if n < 10 then [DecimalChar(n)] else NatToString(n / 10) + [DecimalChar(n % 10)]
  }

  /** The character of a decimal digit. */
  function DecimalChar(d: nat): (c: char)
    requires d < 10
    ensures '0' <= c <= '9' && c as int - '0' as int == d
  {
    ('0' as int + d) as char
  }

  /** `i.ToString()` under the invariant culture: a '-' before the digits of a
      negative number. */
  function IntToString(i: int): (r: string)
    ensures |r| >= 1 && forall k :: 0 <= k < |r| ==> r[k] == '-' || '0' <= r[k] <= '9'
  {
    if i < 0 then "-" + NatToString(-i) else NatToString(i)
  }

  /** Different integers have different decimal texts. */
  lemma IntToStringInjective(i: int, j: int)
    requires IntToString(i) == IntToString(j)
    ensures i == j
  {
    if i < 0 && j < 0 {
      assert IntToString(i)[1..] == NatToString(-i);
      assert IntToString(j)[1..] == NatToString(-j);
      NatToStringInjective(-i, -j);
    } else if i >= 0 && j >= 0 {
      NatToStringInjective(i, j);
    } else if i < 0 {
      SignDiffers(i, j);
    } else {
      SignDiffers(j, i);
    }
  }

  /** The text of a negative number starts with '-', that of any other with a digit. */
  lemma SignDiffers(i: int, j: int)
    requires i < 0 <= j
    ensures IntToString(i)[0] != IntToString(j)[0]
  {
  }

  lemma NatToStringInjective(m: nat, n: nat)
    requires NatToString(m) == NatToString(n)
    ensures m == n
  {
    NatToStringRoundTrip(m);
    NatToStringRoundTrip(n);
  }

  lemma NatToStringRoundTrip(n: nat)
    ensures ParseDigits(NatToString(n)) == Some(n)
  {
    DecimalValueOfText(n);
  }

  lemma {:induction false} DecimalValueOfText(n: nat)
    ensures DecimalValue(NatToString(n)) == n
    decreases n
  {
    var s := NatToString(n);
    if n >= 10 {
      DecimalValueOfText(n / 10);
      assert s[..|s| - 1] == NatToString(n / 10);
    }
  }

  predicate AllDecimal(s: string)
  {
    forall k :: 0 <= k < |s| ==> '0' <= s[k] <= '9'
  }

  /** The number a string of decimal digits denotes, most significant first. */
  function DecimalValue(s: string): nat
    requires AllDecimal(s)
  {
    if |s| == 0 then 0 else DecimalValue(s[..|s| - 1]) * 10 + (s[|s| - 1] as int - '0' as int)
  }

  /** The number a string of decimal digits denotes; None when it has no digit or a
      character that is not a digit. */
  function ParseDigits(s: string): (r: Option<nat>)
    ensures r.Some? <==> |s| >= 1 && AllDecimal(s)
  {
    if |s| == 0 || !AllDecimal(s) then None else Some(DecimalValue(s))
  }

  // ---------------------------------------------------------------------------
  // Padding, joining, grouping
  // ---------------------------------------------------------------------------

  /** `s.PadLeft(width, c)`: s unchanged when it is already at least that long. */
  function PadLeft(s: string, width: nat, c: char): (r: string)
    ensures |r| == if |s| >= width then |s| else width
    ensures r[|r| - |s|..] == s
    ensures forall k :: 0 <= k < |r| - |s| ==> r[k] == c
  {
    if |s| >= width then s else Repeat(c, width - |s|) + s
  }

  /** `string.Join(sep, parts)`. */
  function Join(sep: string, parts: seq<string>): (r: string)
  {
    if |parts| == 0 then ""
    else if |parts| == 1 then parts[0]
    else Join(sep, parts[..|parts| - 1]) + sep + parts[|parts| - 1]
  }

  /** The parts laid end to end. */
  function Concat(parts: seq<string>): (r: string)
  {
    if |parts| == 0 then "" else Concat(parts[..|parts| - 1]) + parts[|parts| - 1]
  }

  /** Consecutive groups of `size` characters, the last one possibly shorter
      (`s.Substring(i, size)` for i = 0, size, 2 * size, ...). */
  function Groups(s: string, size: nat): (r: seq<string>)
    requires size > 0
    ensures |r| >= 1
    decreases |s|
  {
    if |s| <= size then [s]
    else
      var cut := if |s| % size == 0 then |s| - size else |s| - |s| % size;
      Groups(s[..cut], size) + [s[cut..]]
  }

  /** The inverse of joining equal-width parts with a one-character separator: cut
      the text into fields of `width` characters, skipping one character between
      them. */
  function SplitFixed(s: string, width: nat): (r: seq<string>)
    ensures |r| >= 1
    decreases |s|
  {
    if |s| <= width then [s] else SplitFixed(s[..|s| - width - 1], width) + [s[|s| - width..]]
  }

  predicate AllOfWidth(parts: seq<string>, width: nat)
  {
    forall k :: 0 <= k < |parts| ==> |parts[k]| == width
  }

  /** Joined parts of one width have that many characters per part plus one
      separator between each two. */
  lemma {:induction false} JoinLength(sep: string, parts: seq<string>, width: nat)
    requires |parts| >= 1 && AllOfWidth(parts, width)
    ensures |Join(sep, parts)| == |parts| * (width + |sep|) - |sep|
  {
    var n := |parts|;
    if n > 1 {
      JoinLength(sep, parts[..n - 1], width);
      assert (n - 1) * (width + |sep|) + (width + |sep|) == n * (width + |sep|);
    }
  }

  /** Splitting the join of equal-width parts gives the parts back. */
  lemma {:induction false} SplitJoin(c: char, parts: seq<string>, width: nat)
    requires |parts| >= 1 && AllOfWidth(parts, width)
    ensures SplitFixed(Join([c], parts), width) == parts
  {
    var n := |parts|;
    if n > 1 {
      var init := parts[..n - 1];
      SplitJoin(c, init, width);
      var j := Join([c], init);
      var s := j + [c] + parts[n - 1];
      assert Join([c], parts) == s;
      assert |s| == |j| + 1 + width;
      assert s[..|s| - width - 1] == j;
      assert s[|s| - width..] == parts[n - 1];
      assert SplitFixed(s, width) == SplitFixed(j, width) + [parts[n - 1]];
      assert parts == init + [parts[n - 1]];
    }
  }

  /** A string of n * size characters falls into n groups of `size`. */
  lemma {:induction false} GroupsUniform(s: string, size: nat, n: nat)
    requires size > 0 && n >= 1 && |s| == n * size
    ensures |Groups(s, size)| == n && AllOfWidth(Groups(s, size), size)
    decreases n
  {
    if n > 1 {
      assert |s| - size == (n - 1) * size;
      MulAtLeast(size, n);
      assert |s| > size by {
        MulMonotone(2, n, size);
      }
      assert |s| % size == 0 by {
        ModUnique(|s|, size, n, 0);
      }
      GroupsUniform(s[..|s| - size], size, n - 1);
    }
  }

  /** The groups laid end to end are the string. */
  lemma {:induction false} ConcatGroups(s: string, size: nat)
    requires size > 0
    ensures Concat(Groups(s, size)) == s
    decreases |s|
  {
    if |s| <= size {
      assert Concat([s]) == Concat([s][..0]) + s;
    } else {
      var cut := if |s| % size == 0 then |s| - size else |s| - |s| % size;
      ConcatGroups(s[..cut], size);
      var g := Groups(s[..cut], size) + [s[cut..]];
      assert g[..|g| - 1] == Groups(s[..cut], size);
      assert s == s[..cut] + s[cut..];
    }
  }

  /** `s.Replace(c, "")` for a one-character c. */
  function Remove(s: string, c: char): (r: string)
    ensures forall k :: 0 <= k < |r| ==> r[k] != c
    ensures |r| <= |s|
  {
    if |s| == 0 then "" else Remove(s[..|s| - 1], c) + (if s[|s| - 1] == c then "" else [s[|s| - 1]])
  }

  lemma {:induction false} RemoveAppend(s: string, t: string, c: char)
    ensures Remove(s + t, c) == Remove(s, c) + Remove(t, c)
    decreases |t|
  {
    if |t| > 0 {
      var init := t[..|t| - 1];
      var last := t[|t| - 1];
      var tail := if last == c then "" else [last];
      assert (s + t)[..|s + t| - 1] == s + init;
      assert (s + t)[|s + t| - 1] == last;
      assert Remove(s + t, c) == Remove(s + init, c) + tail;
      RemoveAppend(s, init, c);
      assert Remove(t, c) == Remove(init, c) + tail;
    } else {
      assert s + t == s;
    }
  }

  lemma {:induction false} RemoveAbsent(s: string, c: char)
    requires forall k :: 0 <= k < |s| ==> s[k] != c
    ensures Remove(s, c) == s
  {
    if |s| > 0 {
      RemoveAbsent(s[..|s| - 1], c);
    }
  }

  /** Removing the separator character from a join of parts free of it gives the
      parts laid end to end. */
  lemma {:induction false} RemoveFromJoin(parts: seq<string>, c: char)
    requires forall k, m :: 0 <= k < |parts| && 0 <= m < |parts[k]| ==> parts[k][m] != c
    ensures Remove(Join([c], parts), c) == Concat(parts)
  {
    var n := |parts|;
    if n == 1 {
      RemoveAbsent(parts[0], c);
      assert Concat(parts) == Concat(parts[..0]) + parts[0];
    } else if n > 1 {
      RemoveFromJoin(parts[..n - 1], c);
      RemoveAppend(Join([c], parts[..n - 1]) + [c], parts[n - 1], c);
      RemoveAppend(Join([c], parts[..n - 1]), [c], c);
      assert Remove([c], c) == "" by {
        assert [c][..0] == "";
      }
      RemoveAbsent(parts[n - 1], c);
    }
  }

  // ---------------------------------------------------------------------------
  // Trimming, case, prefixes and suffixes
  // ---------------------------------------------------------------------------

  /** `char.IsWhiteSpace`: the Unicode space separators, line and paragraph
      separators, U+0009 to U+000D, U+0085 and U+00A0. */
  predicate IsWhiteSpace(c: char)
  {
    ('\U{0009}' <= c <= '\U{000D}') || c == ' ' || c == '\U{0085}' || c == '\U{00A0}'
    || c == '\U{1680}' || ('\U{2000}' <= c <= '\U{200A}') || c == '\U{2028}' || c == '\U{2029}'
    || c == '\U{202F}' || c == '\U{205F}' || c == '\U{3000}'
  }

  function TrimStart(s: string): (r: string)
    ensures |r| <= |s| && r == s[|s| - |r|..]
    ensures |r| > 0 ==> !IsWhiteSpace(r[0])
    ensures forall k :: 0 <= k < |s| - |r| ==> IsWhiteSpace(s[k])
  {
    if |s| > 0 && IsWhiteSpace(s[0]) then TrimStart(s[1..]) else s
  }

  function TrimEnd(s: string): (r: string)
    ensures |r| <= |s| && r == s[..|r|]
    ensures |r| > 0 ==> !IsWhiteSpace(r[|r| - 1])
    ensures forall k :: |r| <= k < |s| ==> IsWhiteSpace(s[k])
  {
    if |s| > 0 && IsWhiteSpace(s[|s| - 1]) then TrimEnd(s[..|s| - 1]) else s
  }

  /** `s.Trim()`: leading and trailing white space removed. */
  function Trim(s: string): (r: string)
    ensures |r| <= |s|
    ensures |r| > 0 ==> !IsWhiteSpace(r[0]) && !IsWhiteSpace(r[|r| - 1])
    ensures |s| > 0 && !IsWhiteSpace(s[0]) && !IsWhiteSpace(s[|s| - 1]) ==> r == s
  {
    TrimEnd(TrimStart(s))
  }

  /** Trimming twice trims no more than once. */
  lemma TrimIdempotent(s: string)
    ensures Trim(Trim(s)) == Trim(s)
  {
    var t := Trim(s);
    TrimStartNoop(t);
    TrimEndNoop(t);
  }

  lemma TrimStartNoop(s: string)
    requires |s| == 0 || !IsWhiteSpace(s[0])
    ensures TrimStart(s) == s
  {
  }

  lemma TrimEndNoop(s: string)
    requires |s| == 0 || !IsWhiteSpace(s[|s| - 1])
    ensures TrimEnd(s) == s
  {
  }

  /** `char.ToUpperInvariant` restricted to the ASCII letters. */
  function ToUpperChar(c: char): (r: char)
    ensures 'a' <= c <= 'z' ==> r as int == c as int - 32
    ensures !('a' <= c <= 'z') ==> r == c
  {
    if 'a' <= c <= 'z' then (c as int - 32) as char else c
  }

  /** `s.ToUpperInvariant()` over ASCII letters. */
  function ToUpper(s: string): (r: string)
    ensures |r| == |s| && forall k :: 0 <= k < |s| ==> r[k] == ToUpperChar(s[k])
  {
    seq(|s|, k requires 0 <= k < |s| => ToUpperChar(s[k]))
  }

  /** Upper-casing changes exactly the lower-case ASCII letters and leaves none
      behind. */
  lemma ToUpperChangesOnlyLowerCase(s: string)
    ensures forall k :: 0 <= k < |s| ==> (ToUpper(s)[k] != s[k] <==> 'a' <= s[k] <= 'z')
    ensures forall k :: 0 <= k < |s| ==> !('a' <= ToUpper(s)[k] <= 'z')
  {
  }

  /** Upper-casing an upper-cased text changes nothing. */
  lemma ToUpperIdempotent(s: string)
    ensures ToUpper(ToUpper(s)) == ToUpper(s)
  {
    var u := ToUpper(s);
    assert forall k :: 0 <= k < |u| ==> ToUpper(u)[k] == u[k];
  }

  predicate EndsWith(s: string, suffix: string)
  {
    |suffix| <= |s| && s[|s| - |suffix|..] == suffix
  }

  predicate StartsWith(s: string, prefix: string)
  {
    |prefix| <= |s| && s[..|prefix|] == prefix
  }

  /** Text made of a head, a separator and a last word that does not contain the
      separator's final character splits that way in only one way. */
  lemma SplitBeforeLastWord(p1: string, s1: string, p2: string, s2: string, sep: string)
    requires |sep| > 0 && p1 + sep + s1 == p2 + sep + s2
    requires forall k :: 0 <= k < |s1| ==> s1[k] != sep[|sep| - 1]
    requires forall k :: 0 <= k < |s2| ==> s2[k] != sep[|sep| - 1]
    ensures p1 == p2 && s1 == s2
  {
    var t := p1 + sep + s1;
    assert t[|t| - |s1| - 1] == sep[|sep| - 1];
    assert t[|t| - |s2| - 1] == sep[|sep| - 1];
    assert |s1| == |s2|;
    assert s1 == t[|t| - |s1|..] == s2;
    assert p1 == t[..|p1|] == p2;
  }

  // ---------------------------------------------------------------------------
  // Number parsing
  // ---------------------------------------------------------------------------

  /** The white space `NumberStyles.AllowLeadingWhite`/`AllowTrailingWhite` skip:
      U+0009 to U+000D and U+0020. */
  predicate IsNumberWhite(c: char)
  {
    ('\U{0009}' <= c <= '\U{000D}') || c == ' '
  }

  function SkipNumberWhite(s: string): (r: string)
    ensures |r| <= |s| && r == s[|s| - |r|..]
    ensures |r| > 0 ==> !IsNumberWhite(r[0])
  {
    if |s| > 0 && IsNumberWhite(s[0]) then SkipNumberWhite(s[1..]) else s
  }

  function SkipNumberWhiteEnd(s: string): (r: string)
    ensures |r| <= |s| && r == s[..|r|]
    ensures |r| > 0 ==> !IsNumberWhite(r[|r| - 1])
  {
    if |s| > 0 && IsNumberWhite(s[|s| - 1]) then SkipNumberWhiteEnd(s[..|s| - 1]) else s
  }

  /** An integer in the invariant culture with leading/trailing white space and a
      leading sign allowed: `[ws][+|-]digits[ws]`. */
  function ParseInteger(s: string): (r: Option<int>)
  {
    ParseSigned(SkipNumberWhiteEnd(SkipNumberWhite(s)))
  }

  /** An optional sign followed by decimal digits. */
  function ParseSigned(body: string): (r: Option<int>)
  {
    if |body| > 0 && (body[0] == '-' || body[0] == '+') then
      match ParseDigits(body[1..])
        case None => None
        case Some(n) => if body[0] == '-' then Some(-(n as int)) else Some(n)
    else ParseDigits(body)
  }

  /** Parsing the text of an integer gives it back. */
  lemma ParseIntegerRoundTrip(i: int)
    ensures ParseInteger(IntToString(i)) == Some(i)
  {
    var t := IntToString(i);
    assert !IsNumberWhite(t[0]);
    assert SkipNumberWhite(t) == t;
    assert !IsNumberWhite(t[|t| - 1]);
    assert SkipNumberWhiteEnd(t) == t;
    ParseSignedRoundTrip(i);
  }

  lemma ParseSignedRoundTrip(i: int)
    ensures ParseSigned(IntToString(i)) == Some(i)
  {
    if i < 0 {
      var n: nat := -i;
      var t := "-" + NatToString(n);
      assert IntToString(i) == t;
      NatToStringRoundTrip(n);
      assert t[1..] == NatToString(n);
    } else {
      NatToStringRoundTrip(i);
    }
  }

  /** `int.TryParse(s, out n)`: an integer that fits in 32 bits. */
  function ParseInt32(s: string): (r: Option<Int32>)
    ensures r.Some? <==> ParseInteger(s).Some? && IntMinValue <= ParseInteger(s).value <= IntMaxValue
    ensures r.Some? ==> r.value == ParseInteger(s).value
  {
    var v := ParseInteger(s);
    if v.Some? && IntMinValue <= v.value <= IntMaxValue then Some(v.value) else None
  }

  /** `int.TryParse` reads the text of any integer back as that integer exactly
      when it lies in the 32-bit range, and fails otherwise. */
  lemma ParseInt32Text(i: int)
    ensures ParseInt32(IntToString(i)) == if IntMinValue <= i <= IntMaxValue then Some(i) else None
  {
    ParseIntegerRoundTrip(i);
  }
}
