/**
 Numbers on the command line: strtoul with base 0 as section 7.22.1.4 of
 ISO/IEC 9899:2011 defines it, for a 64-bit unsigned long, and parse_u32_token
 of tools/nmo-inspect.c on top of it.
 */
module Numerals {
  import opened Words
  import opened CStrings
  import Bits

  const ZERO: Char := 48
  const PLUS: Char := 43
  const MINUS: Char := 45

  /** The weight of a letter or digit; at least 36 for anything else. */
  function DigitValue(c: Char): nat {
    if 48 <= c <= 57 then c - 48
    else if 97 <= c <= 122 then c - 87
    else if 65 <= c <= 90 then c - 55
    else 36
  }

  function DigitChar(d: nat): (c: Char)
    requires d < 36
    ensures DigitValue(c) == d
  {
    if d < 10 then 48 + d else 87 + d
  }

  predicate AllDigits(s: CString, base: nat) {
    forall i :: 0 <= i < |s| ==> DigitValue(s[i]) < base
  }

  function Value(s: CString, base: nat): nat {
    if s == [] then 0 else Value(s[..|s| - 1], base) * base + DigitValue(s[|s| - 1])
  }

  /** The end of the run of digits that starts at index i. */
  function DigitsEnd(s: CString, i: nat, base: nat): (e: nat)
    requires i <= |s|
    ensures i <= e <= |s|
    decreases |s| - i
  {
    if i < |s| && DigitValue(s[i]) < base then DigitsEnd(s, i + 1, base) else i
  }

  function SpacesEnd(s: CString, i: nat): (e: nat)
    requires i <= |s|
    ensures i <= e <= |s|
    decreases |s| - i
  {
    if i < |s| && IsSpace(s[i]) then SpacesEnd(s, i + 1) else i
  }

  predicate HexPrefixAt(s: CString, i: nat) {
    && i + 2 < |s|
    && s[i] == ZERO && (s[i + 1] == 120 || s[i + 1] == 88)
    && DigitValue(s[i + 2]) < 16
  }

  /** end is where conversion stopped, 0 when there was nothing to convert; overflow is errno == ERANGE. */
  datatype Conversion = Conversion(value: nat, end: nat, overflow: bool)

  function StrToUl(s: CString): Conversion {
    var i := SpacesEnd(s, 0);
    var negative := i < |s| && s[i] == MINUS;
    var j := if i < |s| && (s[i] == PLUS || s[i] == MINUS) then i + 1 else i;
    var base := if HexPrefixAt(s, j) then 16 else if j < |s| && s[j] == ZERO then 8 else 10;
    var d := if HexPrefixAt(s, j) then j + 2 else j;
    var e := DigitsEnd(s, d, base);
    var v := Value(s[d..e], base);
    if e == d then Conversion(0, 0, false)
    else if v >= UINT64_COUNT then Conversion(UINT64_COUNT - 1, e, true)
    else Conversion(if negative then (UINT64_COUNT - v) % UINT64_COUNT else v, e, false)
  }

  function ParseU32Token(text: CString): Option<Word32> {
    if text == [] then None
    else
      var c := StrToUl(text);
      if c.overflow || c.end == 0 || c.end < |text| || c.value >= UINT32_COUNT then None else Some(c.value)
  }

  // Writing numbers down.

  /** zeros is how many zeros more than needed come before the digits. A decimal with any would be octal. */
  datatype Notation = Decimal | Hexadecimal(zeros: nat) | Octal(zeros: nat)

  function Zeros(n: nat): CString {
    seq(n, _ => ZERO)
  }

  function Digits(v: nat, base: nat): (s: CString)
    requires 2 <= base <= 36
    ensures s != []
    decreases v
  {
    if v < base then [DigitChar(v)]
    else
      Quotient(v, base);
      Digits(v / base, base) + [DigitChar(v % base)]
  }

  function Numeral(v: nat, notation: Notation): CString {
    match notation
    case Decimal => Digits(v, 10)
    case Hexadecimal(zeros) => [ZERO, 120] + (Zeros(zeros) + Digits(v, 16))
    case Octal(zeros) => [ZERO] + (Zeros(zeros) + Digits(v, 8))
  }

  lemma ValueOneMore(s: CString, c: Char, base: nat)
    ensures Value(s + [c], base) == Value(s, base) * base + DigitValue(c)
  {
    assert (s + [c])[..|s|] == s;
  }

  lemma Quotient(v: nat, base: nat)
    requires 2 <= base
    ensures v / base * base + v % base == v
    ensures v >= base ==> 0 < v / base
    ensures v / base <= v / 2 && 0 <= v % base < base
  {
    QuotientBounds(v, base, v / base, v % base);
  }

  lemma QuotientBounds(v: nat, base: nat, q: nat, r: nat)
    requires 2 <= base && v == q * base + r && r < base
    ensures v >= base ==> 0 < q
    ensures q <= v / 2
  {
    assert q * base == q * (base - 2) + 2 * q;
  }

  lemma {:induction false} DigitsAreDigits(v: nat, base: nat)
    requires 2 <= base <= 36
    ensures AllDigits(Digits(v, base), base)
    decreases v
  {
    if v >= base {
      Quotient(v, base);
      DigitsAreDigits(v / base, base);
    }
  }

  lemma {:induction false} DigitsLead(v: nat, base: nat)
    requires 2 <= base <= 36 && v > 0
    ensures DigitValue(Digits(v, base)[0]) > 0
    decreases v
  {
    if v >= base {
      Quotient(v, base);
      DigitsLead(v / base, base);
    }
  }

  lemma {:induction false} DigitsValue(v: nat, base: nat)
    requires 2 <= base <= 36
    ensures Value(Digits(v, base), base) == v
    decreases v
  {
    if v < base {
      ValueOneMore([], DigitChar(v), base);
      assert [] + [DigitChar(v)] == [DigitChar(v)];
    } else {
      var q, c := v / base, DigitChar(v % base);
      Quotient(v, base);
      DigitsValue(q, base);
      calc {
        Value(Digits(v, base), base);
        Value(Digits(q, base) + [c], base);
        { ValueOneMore(Digits(q, base), c, base); }
        Value(Digits(q, base), base) * base + DigitValue(c);
        q * base + v % base;
        v;
      }
    }
  }

  lemma {:induction false} DigitsShort(v: nat, base: nat, n: nat)
    requires 2 <= base <= 36 && 0 < n && v < Bits.Pow2(n)
    ensures |Digits(v, base)| <= n
    decreases n
  {
    if v >= base {
      Quotient(v, base);
      assert Bits.Pow2(n) == 2 * Bits.Pow2(n - 1);
      DigitsShort(v / base, base, n - 1);
    }
  }

  lemma {:induction false} DigitsEndOfRun(s: CString, i: nat, base: nat)
    requires i <= |s| && AllDigits(s[i..], base)
    ensures DigitsEnd(s, i, base) == |s|
    decreases |s| - i
  {
    if i < |s| {
      assert s[i] == s[i..][0];
      assert s[i + 1..] == s[i..][1..];
      DigitsEndOfRun(s, i + 1, base);
    }
  }

  lemma {:induction false} LeadingZero(s: CString, base: nat)
    ensures Value([ZERO] + s, base) == Value(s, base)
    decreases |s|
  {
    var z := [ZERO] + s;
    if s == [] {
      assert z[..0] == [];
      assert Value(z, base) == Value(z[..0], base) * base;
    } else {
      assert z[..|z| - 1] == [ZERO] + s[..|s| - 1];
      LeadingZero(s[..|s| - 1], base);
    }
  }

  /** A text of digits only, of the base its beginning calls for, is read as its value. */
  lemma PlainDigitsRead(s: CString, base: nat)
    requires s != [] && (base == if s[0] == ZERO then 8 else 10)
    requires AllDigits(s, base) && Value(s, base) < UINT32_COUNT
    ensures ParseU32Token(s) == Some(Value(s, base))
  {
    hide Value;
    assert s[0..] == s && s[0..|s|] == s;
    assert 48 <= s[0] <= 57;
    assert !HexPrefixAt(s, 0) by {
      if |s| > 1 {
        assert DigitValue(s[1]) < base;
      }
    }
    DigitsEndOfRun(s, 0, base);
  }

  /** So are hexadecimal digits after 0x. */
  lemma HexDigitsRead(d: CString)
    requires d != [] && AllDigits(d, 16) && Value(d, 16) < UINT32_COUNT
    ensures ParseU32Token([ZERO, 120] + d) == Some(Value(d, 16))
  {
    hide Value;
    var s := [ZERO, 120] + d;
    assert s[2..] == d && s[2..|s|] == d;
    assert DigitValue(s[2]) == DigitValue(d[0]) < 16;
    DigitsEndOfRun(s, 2, 16);
  }

  lemma {:induction false} LeadingZeros(n: nat, s: CString, base: nat)
    ensures Value(Zeros(n) + s, base) == Value(s, base)
    decreases n
  {
    hide Value;
    if n == 0 {
      assert Zeros(0) + s == s;
    } else {
      assert Zeros(n) + s == [ZERO] + (Zeros(n - 1) + s);
      LeadingZero(Zeros(n - 1) + s, base);
      LeadingZeros(n - 1, s, base);
    }
  }

  lemma PaddedDigits(v: nat, n: nat, base: nat)
    requires 2 <= base <= 36
    ensures var s := Zeros(n) + Digits(v, base); s != [] && AllDigits(s, base) && Value(s, base) == v
  {
    hide Value, Digits;
    DigitsAreDigits(v, base);
    DigitsValue(v, base);
    LeadingZeros(n, Digits(v, base), base);
  }

  /** Cutting digits off divides the value by the base at least. */
  lemma {:induction false} CutValue(s: CString, k: nat, base: nat)
    requires 2 <= base && k < |s|
    ensures Value(s[..k], base) * base <= Value(s, base)
    decreases |s|
  {
    hide Value;
    var init := s[..|s| - 1];
    assert s == init + [s[|s| - 1]];
    ValueOneMore(init, s[|s| - 1], base);
    if k < |init| {
      assert init[..k] == s[..k];
      CutValue(init, k, base);
      AtLeast(Value(init, base), base);
    }
  }

  lemma AtLeast(x: nat, base: nat)
    requires 1 <= base
    ensures x <= x * base
  {
  }

  /**
   A numeral cut off after k characters still reads, but as an eighth of its value at
   most; uncut it reads as its value.
   */
  lemma CutNumeralRead(v: Word32, notation: Notation, k: nat)
    requires k == |Numeral(v, notation)| || 2 < k < |Numeral(v, notation)|
    ensures var r := ParseU32Token(Numeral(v, notation)[..k]);
      r.Some? && if k == |Numeral(v, notation)| then r.value == v else r.value * 8 <= v
  {
    hide Value, Digits, ParseU32Token;
    var s := Numeral(v, notation);
    match notation {
      case Decimal =>
        CutDecimalRead(v, k);
      case Hexadecimal(zeros) =>
        var d := Zeros(zeros) + Digits(v, 16);
        PaddedDigits(v, zeros, 16);
        assert s[..k] == [ZERO, 120] + d[..k - 2];
        CutBound(d, k - 2, 16);
        HexDigitsRead(d[..k - 2]);
      case Octal(zeros) =>
        PaddedDigits(v, zeros + 1, 8);
        assert s == Zeros(zeros + 1) + Digits(v, 8);
        CutBound(s, k, 8);
        PlainDigitsRead(s[..k], 8);
    }
  }

  lemma CutDecimalRead(v: Word32, k: nat)
    requires k == |Digits(v, 10)| || 2 < k < |Digits(v, 10)|
    ensures var r := ParseU32Token(Digits(v, 10)[..k]);
      r.Some? && if k == |Digits(v, 10)| then r.value == v else r.value * 8 <= v
  {
    hide Value, ParseU32Token;
    var s := Digits(v, 10);
    PaddedDigits(v, 0, 10);
    assert Zeros(0) + s == s;
    if v == 0 {
      assert s == [ZERO] && s[..k] == [ZERO];
      LeadingZero([], 8);
      assert [ZERO] + [] == [ZERO];
      ValueNone(8);
      PlainDigitsRead([ZERO], 8);
    } else {
      DigitsLead(v, 10);
      CutBound(s, k, 10);
      PlainDigitsRead(s[..k], 10);
    }
  }

  lemma ValueNone(base: nat)
    ensures Value([], base) == 0
  {
  }

  lemma CutBound(s: CString, k: nat, base: nat)
    requires 8 <= base && k <= |s|
    ensures if k == |s| then s[..k] == s else Value(s[..k], base) * 8 <= Value(s, base)
    ensures Value(s[..k], base) <= Value(s, base)
  {
    hide Value;
    if k == |s| {
      assert s[..k] == s;
    } else {
      CutValue(s, k, base);
      var x := Value(s[..k], base);
      assert x * base == x * 8 + x * (base - 8);
    }
  }

  /** Every 32-bit value is read back from its decimal, 0x and 0 notations, whatever zeros come first. */
  lemma NumeralRead(v: Word32, notation: Notation)
    ensures ParseU32Token(Numeral(v, notation)) == Some(v)
  {
    var s := Numeral(v, notation);
    CutNumeralRead(v, notation, |s|);
    assert s[..|s|] == s;
  }

  lemma DigitIsPlain(c: Char)
    requires DigitValue(c) < 36
    ensures !IsSpace(c) && c != COMMA
  {
  }

  lemma DigitsPlain(v: Word32, base: nat)
    requires 2 <= base <= 36
    ensures var s := Digits(v, base);
      0 < |s| <= 32 && forall i :: 0 <= i < |s| ==> !IsSpace(s[i]) && s[i] != COMMA
  {
    Bits.Pow2Values();
    DigitsShort(v, base, 32);
    DigitsAreDigits(v, base);
    var s := Digits(v, base);
    forall i | 0 <= i < |s| ensures !IsSpace(s[i]) && s[i] != COMMA {
      DigitIsPlain(s[i]);
    }
  }

  lemma NumeralPlain(v: Word32, notation: Notation)
    ensures var s := Numeral(v, notation);
      s != [] && forall i :: 0 <= i < |s| ==> !IsSpace(s[i]) && s[i] != COMMA
  {
    hide Digits;
    match notation
    case Decimal => DigitsPlain(v, 10);
    case Hexadecimal(_) => DigitsPlain(v, 16);
    case Octal(_) => DigitsPlain(v, 8);
  }

  // Exactly which texts are accepted, and as what.

  /** The digits of a base, letters in either case. */
  lemma DigitValueIs(c: Char, d: nat)
    requires d < 36
    ensures DigitValue(c) == d <==> if d < 10 then c == 48 + d else c == 87 + d || c == 55 + d
  {
  }

  datatype Parts = Parts(space: CString, sign: CString, prefix: CString, digits: CString)

  /** The base the prefix calls for: none is decimal, or octal if the digits begin with 0. */
  predicate CallsFor(p: Parts, base: nat) {
    && p.digits != []
    && if p.prefix == [] then base == (if p.digits[0] == ZERO then 8 else 10)
       else p.prefix in {[ZERO, 120], [ZERO, 88]} && base == 16
  }

  /** text is white space, an optional sign and digits to its end, and v is its value modulo 2^64. */
  ghost predicate Denotes(p: Parts, base: nat, text: CString, v: nat) {
    && text == p.space + p.sign + p.prefix + p.digits
    && AllSpace(p.space) && p.sign in {[], [PLUS], [MINUS]}
    && CallsFor(p, base) && AllDigits(p.digits, base)
    && var m := Value(p.digits, base);
       m < UINT64_COUNT && v == if p.sign == [MINUS] && m > 0 then UINT64_COUNT - m else m
  }

  ghost predicate IsNumeral(text: CString, v: nat) {
    exists p: Parts, base: nat :: Denotes(p, base, text, v)
  }

  lemma {:induction false} SpacesEndIs(s: CString, i: nat)
    requires i <= |s|
    ensures var e := SpacesEnd(s, i);
      (forall k :: i <= k < e ==> IsSpace(s[k])) && (e < |s| ==> !IsSpace(s[e]))
    decreases |s| - i
  {
    if i < |s| && IsSpace(s[i]) {
      SpacesEndIs(s, i + 1);
    }
  }

  lemma {:induction false} DigitsEndIs(s: CString, i: nat, base: nat)
    requires i <= |s|
    ensures forall k :: i <= k < DigitsEnd(s, i, base) ==> DigitValue(s[k]) < base
    decreases |s| - i
  {
    if i < |s| && DigitValue(s[i]) < base {
      DigitsEndIs(s, i + 1, base);
    }
  }

  /** A token is accepted, as v, exactly if it is a numeral of value v below 2^32. */
  lemma AcceptedIff(text: CString, v: Word32)
    ensures ParseU32Token(text) == Some(v) <==> IsNumeral(text, v)
  {
    hide Value, DigitValue;
    if ParseU32Token(text) == Some(v) {
      TokenDenotes(text, v);
    }
    if IsNumeral(text, v) {
      var p: Parts, base: nat :| Denotes(p, base, text, v);
      DenotedToken(p, base, text, v);
    }
  }

  /** Where the parts of a text end: the white space at i, the sign at j, the prefix at d. */
  function PartsAt(text: CString, i: nat, j: nat, d: nat): Parts
    requires i <= j <= d <= |text|
  {
    Parts(text[..i], text[i..j], text[j..d], text[d..])
  }

  lemma PartsJoin(text: CString, i: nat, j: nat, d: nat)
    requires i <= j <= d <= |text|
    ensures var p := PartsAt(text, i, j, d); text == p.space + p.sign + p.prefix + p.digits
  {
  }

  lemma PartsCallFor(text: CString, i: nat, j: nat, d: nat, base: nat)
    requires i <= j <= d < |text|
    requires base == if HexPrefixAt(text, j) then 16 else if text[j] == ZERO then 8 else 10
    requires d == if HexPrefixAt(text, j) then j + 2 else j
    ensures CallsFor(PartsAt(text, i, j, d), base)
  {
    hide DigitValue;
    if HexPrefixAt(text, j) {
      assert text[j..d] == [text[j], text[j + 1]];
    }
  }

  lemma TokenDenotes(text: CString, v: Word32)
    requires ParseU32Token(text) == Some(v)
    ensures IsNumeral(text, v)
  {
    hide Value, DigitValue, SpacesEnd, DigitsEnd, CallsFor, HexPrefixAt;
    var i := SpacesEnd(text, 0);
    var j := if i < |text| && (text[i] == PLUS || text[i] == MINUS) then i + 1 else i;
    var hex := HexPrefixAt(text, j);
    var base := if hex then 16 else if j < |text| && text[j] == ZERO then 8 else 10;
    HexInside(text, j);
    var d := if hex then j + 2 else j;
    assert DigitsEnd(text, d, base) == |text| > d;
    assert text[d..] == text[d..|text|];
    SignIs(text, i, j);
    PartsDenote(text, i, j, d, base, v);
  }

  lemma PartsDenote(text: CString, i: nat, j: nat, d: nat, base: nat, v: nat)
    requires i == SpacesEnd(text, 0) && i <= j <= d < |text|
    requires text[i..j] in {[], [PLUS], [MINUS]}
    requires base == if HexPrefixAt(text, j) then 16 else if text[j] == ZERO then 8 else 10
    requires d == if HexPrefixAt(text, j) then j + 2 else j
    requires DigitsEnd(text, d, base) == |text|
    requires var m := Value(text[d..], base);
      m < UINT64_COUNT && v == if text[i..j] == [MINUS] && m > 0 then UINT64_COUNT - m else m
    ensures IsNumeral(text, v)
  {
    hide Value, DigitValue, SpacesEnd, DigitsEnd, CallsFor, HexPrefixAt;
    SpacesEndIs(text, 0);
    DigitsEndIs(text, d, base);
    PartsJoin(text, i, j, d);
    PartsCallFor(text, i, j, d, base);
    var p := PartsAt(text, i, j, d);
    assert AllSpace(p.space) && AllDigits(p.digits, base);
    assert Denotes(p, base, text, v);
  }

  lemma HexInside(text: CString, j: nat)
    ensures HexPrefixAt(text, j) ==> j + 2 < |text|
  {
  }

  lemma SignIs(text: CString, i: nat, j: nat)
    requires i <= j <= |text|
    requires j == if i < |text| && (text[i] == PLUS || text[i] == MINUS) then i + 1 else i
    ensures text[i..j] in {[], [PLUS], [MINUS]}
    ensures text[i..j] == [MINUS] <==> i < |text| && text[i] == MINUS
  {
    if i < j {
      assert text[i..j] == [text[i]];
    } else {
      assert text[i..j] == [];
    }
  }

  lemma DigitBytes(c: Char)
    requires DigitValue(c) < 10
    ensures 48 <= c <= 57
  {
  }

  lemma ZeroDigit()
    ensures DigitValue(ZERO) == 0 && DigitValue(120) > 8 && DigitValue(88) > 8
  {
  }

  lemma {:induction false} SpacesEndAt(s: CString, i: nat, e: nat)
    requires i <= e < |s| && !IsSpace(s[e]) && forall k :: i <= k < e ==> IsSpace(s[k])
    ensures SpacesEnd(s, i) == e
    decreases e - i
  {
    if i < e {
      SpacesEndAt(s, i + 1, e);
    }
  }

  lemma DenotedToken(p: Parts, base: nat, text: CString, v: Word32)
    requires Denotes(p, base, text, v)
    ensures ParseU32Token(text) == Some(v)
  {
    hide Value, DigitValue, SpacesEnd, DigitsEnd, HexPrefixAt;
    var i := |p.space|;
    var j := i + |p.sign|;
    var d := j + |p.prefix|;
    DenotedStart(p, base, text, v);
    DenotedDigits(p, text);
    DigitsEndOfRun(text, d, base);
  }

  lemma DenotedDigits(p: Parts, text: CString)
    requires text == p.space + p.sign + p.prefix + p.digits
    ensures var d := |p.space| + |p.sign| + |p.prefix|;
      d <= |text| && text[d..] == p.digits && text[d..|text|] == p.digits
  {
  }

  /** Where the parts lie in the text, as strtoul finds them. */
  lemma DenotedStart(p: Parts, base: nat, text: CString, v: Word32)
    requires Denotes(p, base, text, v)
    ensures var i := |p.space|;
      var j := i + |p.sign|;
      && j + |p.prefix| < |text| && SpacesEnd(text, 0) == i
      && (p.sign == [] ==> text[i] != PLUS && text[i] != MINUS) && (p.sign != [] ==> text[i] == p.sign[0])
      && (HexPrefixAt(text, j) <==> p.prefix != []) && (p.prefix != [] ==> |p.prefix| == 2)
      && (p.prefix == [] ==> text[j] == p.digits[0])
  {
    hide Value, DigitValue, SpacesEnd, DigitsEnd;
    ZeroDigit();
    var i := |p.space|;
    var j := i + |p.sign|;
    var d := j + |p.prefix|;
    assert text[d..] == p.digits && text[d] == p.digits[0];
    assert p.prefix != [] ==> text[j] == p.prefix[0] == ZERO && text[j + 1] == p.prefix[1] && text[j + 2] == p.digits[0];
    assert p.sign != [] ==> text[i] == p.sign[0];
    assert 48 <= text[j] <= 57 by {
      if p.prefix == [] {
        DigitBytes(text[j]);
      }
    }
    assert forall k :: 0 <= k < i ==> text[k] == p.space[k];
    SpacesEndAt(text, 0, i);
    assert HexPrefixAt(text, j) <==> p.prefix != [] by {
      if p.prefix == [] && j + 1 < |text| {
        assert text[j + 1] == p.digits[1];
      }
    }
  }
}
