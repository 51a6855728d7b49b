/** Register words and engineering values. */
module Codec {
  import opened Common

  const HOLDING_BASE := 40001
  const WORD := 0x1_0000

  datatype RegType =
    | Uint16 | Int16 | Uint32 | Int32 | Float32 | Enum16 | Bitfield32 | Uint64 | SunSsf | String | Pad

  datatype Access = ReadOnly | ReadWrite | WriteOnly

  /** One register of a map. size overrides the type's width; strings and pads have no other width. */
  datatype RegisterDef = RegisterDef(
    address: int, typ: RegType, size: Option<int>, scale: real, sfAddress: Option<int>, sfValue: Option<int>,
    unitScale: real, value: Option<int>, role: Option<string>, rw: Access)

  predicate Sizeless(typ: RegType) { typ == String || typ == Pad }

  function TypeWidth(typ: RegType): (w: nat)
    requires !Sizeless(typ)
    ensures 1 <= w <= 4
  {
    match typ
    case Uint32 | Int32 | Float32 | Bitfield32 => 2
    case Uint64 => 4
    case Uint16 | Int16 | Enum16 | SunSsf => 1
  }

  predicate HasWidth(reg: RegisterDef) { reg.size.Some? || !Sizeless(reg.typ) }

  function Width(reg: RegisterDef): int
    requires HasWidth(reg)
  {
    if reg.size.Some? then reg.size.value else TypeWidth(reg.typ)
  }

  predicate SunspecScaled(reg: RegisterDef) { reg.sfAddress.Some? || reg.sfValue.Some? }

  predicate IsSigned(typ: RegType) { typ == Int16 || typ == Int32 || typ == SunSsf }

  /** 65536 to the k. */
  function Radix(k: nat): (r: int)
    ensures r >= 1
  {
    if k == 0 then 1 else WORD * Radix(k - 1)
  }

  /** The integer types of the codec's range table. */
  predicate IsInteger(typ: RegType) { !Sizeless(typ) && typ != Float32 }

  /** How many values the type has; half of them are negative when it is signed. */
  function Span(typ: RegType): int
    requires IsInteger(typ)
  { Radix(TypeWidth(typ)) }

  predicate InRange(typ: RegType, raw: int)
    requires IsInteger(typ)
  {
    if IsSigned(typ) then -Span(typ) / 2 <= raw < Span(typ) / 2 else 0 <= raw < Span(typ)
  }

  // ------------------------------------------------------------ integers

  /** Big-endian value of the words; only their low 16 bits count. */
  function BigEndian(words: seq<int>): nat {
    if words == [] then 0 else BigEndian(words[..|words| - 1]) * WORD + words[|words| - 1] % WORD
  }

  function Interpreted(typ: RegType, raw: int): int
    requires IsInteger(typ)
  {
    if IsSigned(typ) && raw >= Span(typ) / 2 then raw - Span(typ) else raw
  }

  method WordsToInt(typ: RegType, words: seq<int>) returns (raw: int)
    requires IsInteger(typ)
    ensures raw == Interpreted(typ, BigEndian(words))
  {
    raw := 0;
    for i := 0 to |words|
      invariant raw == BigEndian(words[..i])
    {
      assert words[..i + 1][..i] == words[..i];
      raw := raw * WORD + words[i] % WORD;
    }
    assert words[..|words|] == words;
    if IsSigned(typ) && raw >= Span(typ) / 2 {
      raw := raw - Span(typ);
    }
  }

  /** Masks to width words, most significant first. */
  function IntToWords(raw: int, width: nat): (words: seq<int>)
    ensures |words| == width && forall i | 0 <= i < width :: 0 <= words[i] < WORD
  {
    var masked := raw % Radix(width);
    seq(width, i requires 0 <= i < width => masked / Radix(width - 1 - i) % WORD)
  }

  ghost predicate AreWords(words: seq<int>) { forall i | 0 <= i < |words| :: 0 <= words[i] < WORD }

  lemma DivByProduct(x: nat, a: int, b: int)
    requires a > 0 && b > 0
    ensures x / (a * b) == x / a / b
  {
    var q, r := x / a, x % a;
    var s, t := q / b, q % b;
    DivMod(x, a);
    DivMod(q, b);
    PairedDigits(a, b, s, t, r);
    QuotientUnique(x, a * b, s, a * t + r);
  }

  lemma DivMod(x: int, d: int)
    requires d > 0
    ensures x == d * (x / d) + x % d && 0 <= x % d < d
  {}

  /** The digits t and r below a * b are the remainder of dividing by the product. */
  lemma PairedDigits(a: int, b: int, s: int, t: int, r: int)
    requires a > 0 && b > 0 && 0 <= t < b && 0 <= r < a
    ensures a * b > 0 && a * (b * s + t) + r == (a * b) * s + (a * t + r) && 0 <= a * t + r < a * b
  {
    assert a * (b * s + t) == (a * b) * s + a * t;
    AtLeastFactor(a, b);
    if t > 0 {
      AtLeastFactor(a, t);
    }
    AtLeastFactor(a, b - t);
    assert a * (b - t) == a * b - a * t;
  }

  lemma QuotientUnique(x: int, d: int, q: int, r: int)
    requires d > 0 && x == d * q + r && 0 <= r < d
    ensures x / d == q && x % d == r
  {
    var q', r' := x / d, x % d;
    var k := q' - q;
    assert x == d * q' + r';
    assert d * k == r - r' && d * -k == r' - r;
    AtLeastFactor(d, k);
    AtLeastFactor(d, -k);
  }

  lemma AtLeastFactor(d: int, k: int)
    requires d > 0
    ensures k >= 1 ==> d * k >= d
  {}

  /** The first words of an encoding are the high part of the number. */
  lemma {:induction false} EncodedPrefix(raw: int, width: nat, k: nat)
    requires k <= width
    ensures BigEndian(IntToWords(raw, width)[..k]) == raw % Radix(width) / Radix(width - k)
  {
    var words, m := IntToWords(raw, width), raw % Radix(width);
    if k > 0 {
      EncodedPrefix(raw, width, k - 1);
      assert words[..k][..k - 1] == words[..k - 1];
      assert words[k - 1] == m / Radix(width - k) % WORD;
      NextDigit(m, width - k);
      hide Radix, IntToWords;
    } else {
      QuotientUnique(m, Radix(width), 0, m);
    }
  }

  /** Appending a digit to the part above it. */
  lemma NextDigit(m: nat, low: nat)
    ensures m / Radix(low + 1) * WORD + (m / Radix(low) % WORD) % WORD == m / Radix(low)
  {
    var d := Radix(low);
    DivByProduct(m, d, WORD);
    assert Radix(low + 1) == d * WORD;
    hide Radix;
    DivMod(m / d, WORD);
  }

  lemma EncodedValue(raw: int, width: nat)
    ensures BigEndian(IntToWords(raw, width)) == raw % Radix(width)
  {
    EncodedPrefix(raw, width, width);
    assert IntToWords(raw, width)[..width] == IntToWords(raw, width);
  }

  lemma {:induction false} BigEndianBelow(words: seq<int>)
    ensures BigEndian(words) < Radix(|words|)
  {
    if words != [] {
      var n := |words| - 1;
      BigEndianBelow(words[..n]);
      assert BigEndian(words[..n]) * WORD <= (Radix(n) - 1) * WORD;
    }
  }

  lemma {:induction false} BigEndianPrefix(words: seq<int>, k: nat)
    requires k <= |words|
    ensures BigEndian(words) / Radix(|words| - k) == BigEndian(words[..k])
    decreases |words|
  {
    var n := |words|;
    if k == n {
      assert words[..k] == words;
    } else {
      var rest := words[..n - 1];
      BigEndianPrefix(rest, k);
      assert rest[..k] == words[..k];
      assert Radix(n - k) == WORD * Radix(n - 1 - k);
      DivByProduct(BigEndian(words), WORD, Radix(n - 1 - k));
      QuotientUnique(BigEndian(words), WORD, BigEndian(rest), words[n - 1] % WORD);
    }
  }

  /** Encoding what was read gives back the same words. */
  lemma EncodeBigEndian(words: seq<int>)
    requires AreWords(words)
    ensures IntToWords(BigEndian(words), |words|) == words
  {
    var n, raw := |words|, BigEndian(words);
    BigEndianBelow(words);
    QuotientUnique(raw, Radix(n), 0, raw);
    forall i | 0 <= i < n ensures IntToWords(raw, n)[i] == words[i] {
      EncodedWord(words, i);
    }
  }

  lemma EncodedWord(words: seq<int>, i: nat)
    requires AreWords(words) && i < |words|
    ensures BigEndian(words) / Radix(|words| - 1 - i) % WORD == words[i]
  {
    var high := words[..i + 1];
    BigEndianPrefix(words, i + 1);
    assert high[..i] == words[..i] && high[i] == words[i];
    assert BigEndian(high) == BigEndian(high[..i]) * WORD + high[i] % WORD;
    hide BigEndian, Radix;
    SmallResidue(words[i]);
    QuotientUnique(BigEndian(high), WORD, BigEndian(high[..i]), words[i]);
  }

  lemma SmallResidue(w: int)
    requires 0 <= w < WORD
    ensures w % WORD == w
  {}

  lemma {:induction false} RadixOrder(a: nat, b: nat)
    requires a < b
    ensures WORD * Radix(a) <= Radix(b)
  {
    if a + 1 < b {
      RadixOrder(a, b - 1);
    }
  }

  lemma SpanValues(typ: RegType)
    requires IsInteger(typ)
    ensures Span(typ) == (if TypeWidth(typ) == 1 then 0x1_0000 else if TypeWidth(typ) == 2 then 0x1_0000_0000
                          else 0x1_0000_0000_0000_0000)
    ensures TypeWidth(typ) == 1 || TypeWidth(typ) == 2 || TypeWidth(typ) == 4
  {
    assert Radix(1) == WORD * Radix(0);
    assert Radix(2) == WORD * Radix(1);
    assert Radix(3) == WORD * Radix(2);
    assert Radix(4) == WORD * Radix(3);
  }

  /** Every width except the type's own loses something: a signed type needs exactly its width, an
      unsigned one at least its width. */
  ghost predicate WidthFits(typ: RegType, width: nat)
    requires IsInteger(typ)
  {
    if IsSigned(typ) then width == TypeWidth(typ) else width >= TypeWidth(typ)
  }

  ghost function ThroughWords(typ: RegType, raw: int, width: nat): int
    requires IsInteger(typ)
  {
    Interpreted(typ, BigEndian(IntToWords(raw, width)))
  }

  lemma FittingRoundTrip(typ: RegType, raw: int, width: nat)
    requires IsInteger(typ) && WidthFits(typ, width) && InRange(typ, raw)
    ensures ThroughWords(typ, raw, width) == raw
  {
    hide IntToWords, BigEndian;
    EncodedValue(raw, width);
    if width > TypeWidth(typ) {
      RadixOrder(TypeWidth(typ), width);
    }
    SpanValues(typ);
    hide Radix;
    if raw >= 0 {
      QuotientUnique(raw, Radix(width), 0, raw);
    } else {
      QuotientUnique(raw, Radix(width), -1, raw + Radix(width));
    }
  }

  /** The explicit size of a register is not checked against its type. In-range integers round trip
      through the words exactly when the size fits. */
  lemma RoundTripExactly(typ: RegType, width: nat)
    requires IsInteger(typ)
    ensures (forall raw | InRange(typ, raw) :: ThroughWords(typ, raw, width) == raw) <==> WidthFits(typ, width)
  {
    if WidthFits(typ, width) {
      forall raw | InRange(typ, raw) ensures ThroughWords(typ, raw, width) == raw {
        FittingRoundTrip(typ, raw, width);
      }
    } else {
      Misfit(typ, width);
    }
  }

  lemma Misfit(typ: RegType, width: nat)
    requires IsInteger(typ) && !WidthFits(typ, width)
    ensures exists raw :: InRange(typ, raw) && ThroughWords(typ, raw, width) != raw
  {
    if width < TypeWidth(typ) {
      TooNarrow(typ, width);
    } else {
      TooWide(typ, width);
    }
  }

  /** One past the largest number of the words wraps to zero. */
  lemma TooNarrow(typ: RegType, width: nat)
    requires IsInteger(typ) && width < TypeWidth(typ)
    ensures InRange(typ, Radix(width)) && ThroughWords(typ, Radix(width), width) != Radix(width)
  {
    SpanValues(typ);
    EncodedValue(Radix(width), width);
    RadixOrder(width, TypeWidth(typ));
    QuotientUnique(Radix(width), Radix(width), 1, 0);
    hide IntToWords, BigEndian, Radix, TypeWidth;
  }

  /** A negative number in too many words reads as a positive one. */
  lemma TooWide(typ: RegType, width: nat)
    requires IsInteger(typ) && IsSigned(typ) && width > TypeWidth(typ)
    ensures InRange(typ, -1) && ThroughWords(typ, -1, width) != -1
  {
    SpanValues(typ);
    EncodedValue(-1, width);
    RadixOrder(TypeWidth(typ), width);
    QuotientUnique(-1, Radix(width), -1, Radix(width) - 1);
    hide IntToWords, BigEndian, Radix, TypeWidth;
  }

  // ------------------------------------------------------------ engineering values

  function Pow10(e: int): (p: real)
    ensures p > 0.0
    decreases if e < 0 then -e else e
  {
    if e == 0 then 1.0 else if e > 0 then 10.0 * Pow10(e - 1) else Pow10(e + 1) / 10.0
  }

  /** The scale exponent in force: the live one, else the fixed one, else none. */
  function Exponent(reg: RegisterDef, sf: Option<int>): int {
    if sf.Some? then sf.value else if reg.sfValue.Some? then reg.sfValue.value else 0
  }

  /** Engineering value of one count. */
  function Resolution(reg: RegisterDef, sf: Option<int>): real {
    if SunspecScaled(reg) then Pow10(Exponent(reg, sf)) * reg.unitScale else reg.scale
  }

  lemma PowStep(e: int)
    ensures Pow10(e + 1) == 10.0 * Pow10(e)
  {
    if e < 0 {
      assert Pow10(e) == Pow10(e + 1) / 10.0;
    }
  }

  /** One more on the scale exponent is a factor of ten; exponent 0 is the unit scale alone, and the
      fixed exponent counts only where there is no live one. */
  lemma TenfoldPerExponent(reg: RegisterDef, e: int)
    requires reg.sfAddress.Some? || reg.sfValue.Some?
    ensures Resolution(reg, Some(e + 1)) == 10.0 * Resolution(reg, Some(e))
    ensures Resolution(reg, Some(0)) == reg.unitScale
    ensures Resolution(reg, None) == Resolution(reg, Some(if reg.sfValue.Some? then reg.sfValue.value else 0))
  {
    PowStep(e);
    TenTimes(Pow10(e), reg.unitScale);
  }

  /** Without any scale factor a count is worth the folded scale. */
  lemma FoldedScale(reg: RegisterDef, sf: Option<int>)
    requires reg.sfAddress.None? && reg.sfValue.None?
    ensures Resolution(reg, sf) == reg.scale
  {}

  lemma TenTimes(p: real, u: real)
    ensures (10.0 * p) * u == 10.0 * (p * u)
  {}

  /** Rounding to the nearest integer, ties to even. */
  function RoundHalfEven(x: real): int {
    var f := x.Floor;
    var d := x - f as real;
    if d < 0.5 then f else if d > 0.5 then f + 1 else if f % 2 == 0 then f else f + 1
  }

  lemma RoundNear(x: real)
    ensures -0.5 <= x - RoundHalfEven(x) as real <= 0.5
  {}

  /** No integer is nearer, and one that is as near loses to an even one. */
  lemma RoundsToNearestEven(x: real, n: int)
    ensures var r := RoundHalfEven(x);
      Abs(x - r as real) <= Abs(x - n as real) && (n != r && Abs(x - r as real) == Abs(x - n as real) ==> r % 2 == 0)
  {
    var f := x.Floor;
    var d := x - f as real;
    assert 0.0 <= d < 1.0;
    if n <= f {
      assert n as real <= f as real;
    } else {
      assert n as real >= (f + 1) as real;
    }
  }

  lemma RoundInteger(n: int)
    ensures RoundHalfEven(n as real) == n
  {}

  datatype CodecError = OutOfRange | ZeroScale | WrongLength | UnsupportedType

  function Counts(value: real, resolution: real): real
    requires resolution != 0.0
  { value / resolution }

  /** Engineering value to words. The two divisions of a scaled register are one by the resolution. */
  function Encode(reg: RegisterDef, value: real, sf: Option<int>): Result<seq<int>, CodecError>
    requires HasWidth(reg) && Width(reg) >= 0 && reg.typ != Float32
  {
    if Resolution(reg, sf) == 0.0 then Err(ZeroScale)
    else
      var raw := RoundHalfEven(Counts(value, Resolution(reg, sf)));
      if IsInteger(reg.typ) && !InRange(reg.typ, raw) then Err(OutOfRange)
      else Ok(IntToWords(raw, Width(reg)))
  }

  function Scaled(raw: int, resolution: real): real { raw as real * resolution }

  function Decode(reg: RegisterDef, words: seq<int>, sf: Option<int>): Result<real, CodecError>
    requires HasWidth(reg) && reg.typ != Float32
  {
    if |words| != Width(reg) then Err(WrongLength)
    else if !IsInteger(reg.typ) then Err(UnsupportedType)
    else Ok(Scaled(Interpreted(reg.typ, BigEndian(words)), Resolution(reg, sf)))
  }

  /** Literal register value of the served image; no range check. */
  function EncodeRaw(reg: RegisterDef, raw: int): (words: seq<int>)
    requires HasWidth(reg) && Width(reg) >= 0
    ensures |words| == Width(reg)
  {
    IntToWords(raw, Width(reg))
  }

  ghost predicate Numeric(reg: RegisterDef) {
    HasWidth(reg) && IsInteger(reg.typ) && Width(reg) >= 0 && WidthFits(reg.typ, Width(reg))
  }

  lemma CountsScaled(value: real, resolution: real, raw: int)
    requires resolution != 0.0 && -0.5 <= Counts(value, resolution) - raw as real <= 0.5
    ensures Abs(Scaled(raw, resolution) - value) <= Abs(resolution) / 2.0
  {
    var x := Counts(value, resolution);
    var d := raw as real - x;
    assert x * resolution == value;
    assert Scaled(raw, resolution) - value == d * resolution;
    AbsProduct(d, resolution);
    MulLe(Abs(resolution), Abs(d), 0.5);
  }

  lemma AbsProduct(x: real, y: real)
    ensures Abs(x * y) == Abs(y) * Abs(x)
  {
    if x >= 0.0 && y >= 0.0 { MulLe(x, 0.0, y); }
    else if x >= 0.0 { MulLe(x, 0.0, -y); }
    else if y >= 0.0 { MulLe(-x, 0.0, y); }
    else { MulLe(-x, 0.0, -y); }
  }

  lemma ScaledCounts(raw: int, resolution: real)
    requires resolution != 0.0
    ensures Counts(Scaled(raw, resolution), resolution) == raw as real
  {}

  /** Writing and reading back stays within half a count of the value. */
  lemma DecodeEncode(reg: RegisterDef, value: real, sf: Option<int>)
    requires Numeric(reg) && Encode(reg, value, sf).Ok?
    ensures var r := Decode(reg, Encode(reg, value, sf).value, sf);
      r.Ok? && Abs(r.value - value) <= Abs(Resolution(reg, sf)) / 2.0
  {
    var resolution := Resolution(reg, sf);
    var raw := RoundHalfEven(Counts(value, resolution));
    FittingRoundTrip(reg.typ, raw, Width(reg));
    RoundNear(Counts(value, resolution));
    hide Counts, Scaled, Resolution, IntToWords, BigEndian, RoundHalfEven, InRange;
    CountsScaled(value, resolution, raw);
  }

  /** The highest count that a type's words denote without a sign. */
  function Positive(typ: RegType): int
    requires IsInteger(typ)
  {
    if IsSigned(typ) then Span(typ) / 2 else Span(typ)
  }

  /** Reading and writing back restores the words exactly when the width is the type's own or the words
      denote a number the type holds without a sign: always for narrower explicit sizes, and for wider
      ones on small numbers only. */
  lemma EncodeDecode(reg: RegisterDef, words: seq<int>, sf: Option<int>)
    requires HasWidth(reg) && IsInteger(reg.typ) && Width(reg) == |words| && AreWords(words)
    requires Resolution(reg, sf) != 0.0
    ensures Encode(reg, Decode(reg, words, sf).value, sf) == Ok(words) <==>
      Width(reg) == TypeWidth(reg.typ) || BigEndian(words) < Positive(reg.typ)
  {
    var raw := Interpreted(reg.typ, BigEndian(words));
    RawRestored(reg.typ, words);
    ScaledCounts(raw, Resolution(reg, sf));
    RoundInteger(raw);
    hide Counts, Scaled, Resolution, IntToWords, BigEndian, RoundHalfEven, InRange, Interpreted, Positive;
  }

  /** The interpreted number is in range and has these words exactly under that condition. */
  lemma RawRestored(typ: RegType, words: seq<int>)
    requires IsInteger(typ) && AreWords(words)
    ensures var raw := Interpreted(typ, BigEndian(words));
      (InRange(typ, raw) && IntToWords(raw, |words|) == words) <==>
        |words| == TypeWidth(typ) || BigEndian(words) < Positive(typ)
  {
    hide *;
    BigEndianBelow(words);
    WordsExactly(Interpreted(typ, BigEndian(words)), words);
    SpanOrder(typ, |words|);
    RestoredWithin(typ, BigEndian(words), |words|);
  }

  /** How many values n words have, next to the type's own. */
  lemma SpanOrder(typ: RegType, n: nat)
    requires IsInteger(typ)
    ensures Span(typ) > 1 && Span(typ) % 2 == 0
    ensures n == TypeWidth(typ) ==> Radix(n) == Span(typ)
    ensures n < TypeWidth(typ) ==> WORD * Radix(n) <= Span(typ)
    ensures n > TypeWidth(typ) ==> WORD * Span(typ) <= Radix(n)
  {
    SpanValues(typ);
    if n < TypeWidth(typ) {
      RadixOrder(n, TypeWidth(typ));
    } else if n > TypeWidth(typ) {
      RadixOrder(TypeWidth(typ), n);
    }
  }

  lemma RestoredWithin(typ: RegType, b: nat, n: nat)
    requires IsInteger(typ) && b < Radix(n) && Span(typ) > 1 && Span(typ) % 2 == 0
    requires n == TypeWidth(typ) ==> Radix(n) == Span(typ)
    requires n < TypeWidth(typ) ==> WORD * Radix(n) <= Span(typ)
    requires n > TypeWidth(typ) ==> WORD * Span(typ) <= Radix(n)
    ensures (InRange(typ, Interpreted(typ, b)) && Interpreted(typ, b) % Radix(n) == b) <==>
      n == TypeWidth(typ) || b < Positive(typ)
  {
    hide Span, Radix, TypeWidth;
    if IsSigned(typ) {
      SignedRestored(b, Span(typ), Radix(n), n == TypeWidth(typ), n > TypeWidth(typ));
    } else {
      QuotientUnique(b, Radix(n), 0, b);
    }
  }

  /** A number has these words exactly when they denote its residue. */
  lemma WordsExactly(raw: int, words: seq<int>)
    requires AreWords(words)
    ensures IntToWords(raw, |words|) == words <==> raw % Radix(|words|) == BigEndian(words)
  {
    var b, n := BigEndian(words), |words|;
    BigEndianBelow(words);
    EncodeBigEndian(words);
    EncodedValue(raw, n);
    QuotientUnique(b, Radix(n), 0, b);
    SameWords(raw, b, n);
    hide BigEndian, IntToWords, Radix;
  }

  lemma SameWords(x: int, y: int, width: nat)
    ensures x % Radix(width) == y % Radix(width) ==> IntToWords(x, width) == IntToWords(y, width)
  {
    hide Radix;
  }

  /** Pure arithmetic of two's complement with span values read from m of them. */
  lemma SignedRestored(b: nat, span: int, m: int, own: bool, wider: bool)
    requires 1 < span && span % 2 == 0 && b < m && (own ==> m == span && !wider)
    requires (wider ==> WORD * span <= m) && (!own && !wider ==> WORD * m <= span)
    ensures var raw := if b >= span / 2 then b - span else b;
      (-span / 2 <= raw < span / 2 && raw % m == b) <==> own || b < span / 2
  {
    QuotientUnique(b, m, 0, b);
    if b >= span / 2 {
      if own {
        QuotientUnique(b - span, m, -1, b);
      } else {
        OtherResidue(b, span, m);
      }
    }
  }

  lemma OtherResidue(b: nat, span: int, m: int)
    requires 0 < span < m && b < m
    ensures (b - span) % m != b
  {
    if b < span {
      QuotientUnique(b - span, m, -1, b - span + m);
    } else {
      QuotientUnique(b - span, m, 0, b - span);
    }
  }

  // ------------------------------------------------------------ the range table in numbers

  /** How many numbers the type's bits denote. */
  ghost function TwoToTheBits(typ: RegType): int
    requires IsInteger(typ)
  {
    match typ
    case Uint16 | Int16 | Enum16 | SunSsf => 0x1_0000
    case Uint32 | Int32 | Bitfield32 => 0x1_0000_0000
    case Uint64 => 0x1_0000_0000_0000_0000
  }

  /** The numbers each type stands for. */
  ghost predicate Denotes(typ: RegType, raw: int)
    requires IsInteger(typ)
  {
    match typ
    case Uint16 | Enum16 => 0 <= raw <= 0xFFFF
    case Int16 | SunSsf => -0x8000 <= raw <= 0x7FFF
    case Uint32 | Bitfield32 => 0 <= raw <= 0xFFFF_FFFF
    case Int32 => -0x8000_0000 <= raw <= 0x7FFF_FFFF
    case Uint64 => 0 <= raw <= 0xFFFF_FFFF_FFFF_FFFF
  }

  /** The register has the width of its type and counts in units of one. */
  ghost predicate Unscaled(reg: RegisterDef) {
    IsInteger(reg.typ) && reg.size.None? && !SunspecScaled(reg) && reg.scale == 1.0
  }

  lemma TableInNumbers(typ: RegType)
    requires IsInteger(typ)
    ensures Span(typ) == TwoToTheBits(typ) == Radix(TypeWidth(typ))
    ensures forall raw :: InRange(typ, raw) <==> Denotes(typ, raw)
  {
    SpanValues(typ);
    hide Radix;
  }

  /** What reading an integer register of its own width gives: the one number its type stands for that has
      the words' value modulo 2 to the type's bits, times the worth of a count. */
  lemma ReadNumber(reg: RegisterDef, words: seq<int>, sf: Option<int>) returns (raw: int)
    requires IsInteger(reg.typ) && reg.size.None? && AreWords(words) && |words| == Width(reg)
    ensures Decode(reg, words, sf) == Ok(raw as real * Resolution(reg, sf))
    ensures Denotes(reg.typ, raw) && raw % TwoToTheBits(reg.typ) == BigEndian(words)
  {
    raw := Interpreted(reg.typ, BigEndian(words));
    ScaledIs(raw, Resolution(reg, sf));
    assert Decode(reg, words, sf).Ok? && Decode(reg, words, sf).value == raw as real * Resolution(reg, sf);
    TableInNumbers(reg.typ);
    BigEndianBelow(words);
    hide Radix, BigEndian, Resolution, Scaled;
    var m, b := TwoToTheBits(reg.typ), BigEndian(words);
    QuotientUnique(raw, m, if raw < 0 then -1 else 0, b);
  }

  lemma ScaledIs(raw: int, resolution: real)
    ensures Scaled(raw, resolution) == raw as real * resolution
  {}

  /** An explicit size is the width, whatever the type. */
  lemma WidthExactly(reg: RegisterDef)
    ensures reg.size.Some? ==> HasWidth(reg) && Width(reg) == reg.size.value
    ensures reg.size.None? ==> (HasWidth(reg) <==> reg.typ != String && reg.typ != Pad)
    ensures reg.size.None? && IsInteger(reg.typ) ==> Radix(Width(reg)) == TwoToTheBits(reg.typ)
  {
    if reg.size.None? && IsInteger(reg.typ) {
      TableInNumbers(reg.typ);
    }
  }

  /** When encoding and decoding fail, and as what. Only integer types have a range, and only they decode. */
  lemma FailuresExactly(reg: RegisterDef, value: real, words: seq<int>, sf: Option<int>)
    requires HasWidth(reg) && Width(reg) >= 0 && reg.typ != Float32
    ensures var e, worth := Encode(reg, value, sf), Resolution(reg, sf);
      && (e == Err(ZeroScale) <==> worth == 0.0)
      && (e == Err(OutOfRange) <==>
            worth != 0.0 && reg.typ != String && reg.typ != Pad && !Denotes(reg.typ, RoundHalfEven(value / worth)))
      && (e.Err? ==> e == Err(ZeroScale) || e == Err(OutOfRange))
    ensures var d := Decode(reg, words, sf);
      && (d == Err(WrongLength) <==> |words| != Width(reg))
      && (d == Err(UnsupportedType) <==> |words| == Width(reg) && (reg.typ == String || reg.typ == Pad))
      && (d.Err? ==> d == Err(WrongLength) || d == Err(UnsupportedType))
  {
    hide RoundHalfEven, Resolution, BigEndian, IntToWords;
    if IsInteger(reg.typ) {
      TableInNumbers(reg.typ);
    }
    hide Denotes, InRange;
  }

  /** What writing one does: exactly the integers its type stands for are accepted, and their words have
      the number's value modulo 2 to the type's bits. */
  lemma WriteNumber(reg: RegisterDef, raw: int)
    requires Unscaled(reg)
    ensures Encode(reg, raw as real, None).Ok? <==> Denotes(reg.typ, raw)
    ensures Denotes(reg.typ, raw) ==>
      var words := Encode(reg, raw as real, None).value;
      |words| == Width(reg) && BigEndian(words) == raw % TwoToTheBits(reg.typ)
  {
    TableInNumbers(reg.typ);
    ScaledCounts(raw, 1.0);
    RoundInteger(raw);
    EncodedValue(raw, Width(reg));
    hide Radix, BigEndian, IntToWords, RoundHalfEven, InRange;
  }
}
