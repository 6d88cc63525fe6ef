/** clients/markets/markets.js: amounts as decimal strings, printed, truncated and
    read back. */
module Money {
  import opened Basics

  // --------------------------------------------------------------------- digits

  predicate IsDigit(c: char) {
    '0' <= c <= '9'
  }

  predicate AllDigits(s: string) {
    forall i :: 0 <= i < |s| ==> IsDigit(s[i])
  }

  function Digit(c: char): (d: nat)
    requires IsDigit(c)
    ensures d < 10
  {
    (c - '0') as nat
  }

  function DigitChar(d: nat): (c: char)
    requires d < 10
    ensures IsDigit(c) && Digit(c) == d
  {
    '0' + d as char
  }

  /** BigInt of a digit string. */
  function Value(s: string): nat
    requires AllDigits(s)
  {
    if s == "" then 0 else 10 * Value(s[..|s| - 1]) + Digit(s[|s| - 1])
  }

  /** `n.toString()`. */
  function ToDecimal(n: nat): (s: string)
    ensures AllDigits(s) && s != "" && Value(s) == n
    ensures if n == 0 then s == "0" else s[0] != '0'
  {
    if n < 10 then
      var s := [DigitChar(n)];
      assert s[..0] == "";
      s
    else
      var head := ToDecimal(n / 10);
      var s := head + [DigitChar(n % 10)];
      assert s[..|s| - 1] == head;
      s
  }

  /** v times ten to the k. */
  function Shift(v: nat, k: nat): (s: nat)
    ensures s >= v
  {
    if k == 0 then v else 10 * Shift(v, k - 1)
  }

  lemma {:induction false} ShiftAdd(v: nat, w: nat, k: nat)
    ensures Shift(v + w, k) == Shift(v, k) + Shift(w, k)
  {
    if k > 0 { ShiftAdd(v, w, k - 1); }
  }

  lemma {:induction false} ShiftTwice(v: nat, j: nat, k: nat)
    ensures Shift(Shift(v, j), k) == Shift(v, j + k)
  {
    if k > 0 { ShiftTwice(v, j, k - 1); }
  }

  lemma {:induction false} ShiftOrder(v: nat, w: nat, k: nat)
    ensures v <= w <==> Shift(v, k) <= Shift(w, k)
  {
    if k > 0 { ShiftOrder(v, w, k - 1); }
  }

  lemma {:induction false} ShiftIsProduct(v: nat, k: nat)
    ensures v * Shift(1, k) == Shift(v, k)
  {
    if k > 0 {
      ShiftIsProduct(v, k - 1);
      assert v * (10 * Shift(1, k - 1)) == 10 * (v * Shift(1, k - 1));
    }
  }

  lemma {:induction false} ValueConcat(a: string, b: string)
    requires AllDigits(a) && AllDigits(b)
    ensures AllDigits(a + b) && Value(a + b) == Shift(Value(a), |b|) + Value(b)
  {
    if b == "" {
      assert a + b == a;
    } else {
      assert (a + b)[..|a + b| - 1] == a + b[..|b| - 1];
      ValueConcat(a, b[..|b| - 1]);
    }
  }

  lemma {:induction false} ValueBelow(s: string)
    requires AllDigits(s)
    ensures Value(s) < Shift(1, |s|)
  {
    if s != "" { ValueBelow(s[..|s| - 1]); }
  }

  lemma {:induction false} DecimalLength(n: nat, k: nat)
    requires n < Shift(1, k) && k > 0
    ensures |ToDecimal(n)| <= k
  {
    if n >= 10 { DecimalLength(n / 10, k - 1); }
  }

  function Zeros(k: nat): (s: string)
    ensures |s| == k && AllDigits(s)
  {
    seq(k, _ => '0')
  }

  lemma {:induction false} ValueOfZeros(k: nat)
    ensures Value(Zeros(k)) == 0
  {
    if k > 0 {
      assert Zeros(k)[..k - 1] == Zeros(k - 1);
      ValueOfZeros(k - 1);
    }
  }

  /** A value of zero is all zeros. */
  lemma {:induction false} ZeroValue(s: string)
    requires AllDigits(s)
    ensures Value(s) == 0 <==> forall i :: 0 <= i < |s| ==> s[i] == '0'
  {
    if s != "" {
      ZeroValue(s[..|s| - 1]);
      if Value(s) == 0 {
        forall i | 0 <= i < |s| ensures s[i] == '0' { assert i < |s| - 1 ==> s[i] == s[..|s| - 1][i]; }
      }
    }
  }

  // ------------------------------------------------------------------- printing

  /** A decimal: what stands before the point and after it. */
  datatype Decimal = Decimal(whole: string, fraction: string)

  predicate Good(d: Decimal) {
    d.whole != "" && AllDigits(d.whole) && AllDigits(d.fraction)
  }

  /** The digits of a decimal as one number; it stands for that over ten to the
      number of its decimals. */
  function Numerator(d: Decimal): nat
    requires Good(d)
  {
    ValueConcat(d.whole, d.fraction);
    Value(d.whole + d.fraction)
  }

  function Render(d: Decimal): string {
    if d.fraction == "" then d.whole else d.whole + "." + d.fraction
  }

  /** `padStart(e, '0')`. */
  function PadStart(s: string, e: nat): string {
    if |s| >= e then s else Zeros(e - |s|) + s
  }

  /** `padEnd(e, '0')`. */
  function PadEnd(s: string, e: nat): string {
    if |s| >= e then s else s + Zeros(e - |s|)
  }

  /** `replace(/0+$/, '')`. */
  function Strip(s: string): (r: string)
    ensures r <= s && (AllDigits(s) ==> AllDigits(r))
    ensures r != "" ==> r[|r| - 1] != '0'
    ensures forall i :: |r| <= i < |s| ==> s[i] == '0'
  {
    if s == "" || s[|s| - 1] != '0' then s else Strip(s[..|s| - 1])
  }

  /** The fraction of n units of which d make one, in e digits. */
  function FractionDigits(n: nat, d: nat, e: nat): string
    requires d > 0
  {
    PadStart(ToDecimal(n % d), e)
  }

  function DisplayBy(n: nat, d: nat, e: nat): Decimal
    requires d > 0
  {
    Decimal(ToDecimal(n / d), if e == 0 || n % d == 0 then "" else Strip(FractionDigits(n, d, e)))
  }

  /** `toDisplayAmount` of an amount that is not negative: d is ten to the e. */
  function Display(n: nat, e: nat): Decimal {
    DisplayBy(n, Shift(1, e), e)
  }

  lemma QuotientRemainder(n: nat, d: nat)
    requires d > 0
    ensures n / d >= 0 && n / d * d + n % d == n && n % d < d
  {
  }

  lemma FractionIs(f: nat, e: nat)
    requires e > 0 && f < Shift(1, e)
    ensures var s := PadStart(ToDecimal(f), e); |s| == e && AllDigits(s) && Value(s) == f
  {
    DecimalLength(f, e);
    if |ToDecimal(f)| < e {
      ValueConcat(Zeros(e - |ToDecimal(f)|), ToDecimal(f));
      ValueOfZeros(e - |ToDecimal(f)|);
      ShiftZero(|ToDecimal(f)|);
    }
  }

  lemma {:induction false} ShiftZero(k: nat)
    ensures Shift(0, k) == 0
  {
    if k > 0 { ShiftZero(k - 1); }
  }

  /** Stripping zeros and padding them back is the identity. */
  lemma StripPad(s: string)
    ensures PadEnd(Strip(s), |s|) == s
  {
  }

  /** Padded to e decimals, the printed digits are exactly n. */
  lemma DisplayDigits(n: nat, e: nat)
    ensures var d := Display(n, e);
      Good(d) && |d.fraction| <= e && AllDigits(d.whole + PadEnd(d.fraction, e)) && Value(d.whole + PadEnd(d.fraction, e)) == n
  {
    DisplayByDigits(n, Shift(1, e), e);
  }

  lemma DisplayByDigits(n: nat, divisor: nat, e: nat)
    requires divisor == Shift(1, e) && divisor > 0
    ensures var d := DisplayBy(n, divisor, e);
      Good(d) && |d.fraction| <= e && AllDigits(d.whole + PadEnd(d.fraction, e)) && Value(d.whole + PadEnd(d.fraction, e)) == n
  {
    var d := DisplayBy(n, divisor, e);
    QuotientRemainder(n, divisor);
    ShiftIsProduct(n / divisor, e);
    if e == 0 || n % divisor == 0 {
      assert PadEnd("", e) == Zeros(e);
      ValueConcat(d.whole, Zeros(e));
      ValueOfZeros(e);
    } else {
      FractionIs(n % divisor, e);
      StripPad(FractionDigits(n, divisor, e));
      ValueConcat(d.whole, FractionDigits(n, divisor, e));
    }
  }

  // -------------------------------------------------------------------- reading

  /** Group separators a person or a locale may have typed: white space, and
      apostrophes. */
  predicate IsSeparator(c: char) {
    c == '\'' || c == ' ' || '\t' <= c <= '\r' || c == '\U{a0}' || c == '\U{1680}' || '\U{2000}' <= c <= '\U{200a}' ||
    c == '\U{2028}' || c == '\U{2029}' || c == '\U{202f}' || c == '\U{205f}' || c == '\U{3000}' || c == '\U{feff}'
  }

  function Clean(s: string): string {
    if s == "" then "" else (if IsSeparator(s[0]) then "" else [s[0]]) + Clean(s[1..])
  }

  predicate IsPoint(c: char) {
    c == '.' || c == ','
  }

  function Points(s: string): nat {
    if s == "" then 0 else (if IsPoint(s[0]) then 1 else 0) + Points(s[1..])
  }

  /** Where the decimal point is, or the end. */
  function PointAt(s: string): (i: nat)
    ensures i <= |s| && (i < |s| ==> IsPoint(s[i])) && forall k :: 0 <= k < i ==> !IsPoint(s[k])
  {
    if s == "" || IsPoint(s[0]) then 0 else 1 + PointAt(s[1..])
  }

  /** What was typed, once cleaned: at most one point, full stop or comma, and digits,
      at least one character of which is not the point. */
  function Typed(input: string): (d: Option<Decimal>)
    ensures d.Some? ==> AllDigits(d.value.whole) && AllDigits(d.value.fraction)
  {
    TypedBare(Clean(input))
  }

  function TypedBare(s: string): (d: Option<Decimal>)
    ensures d.Some? ==> AllDigits(d.value.whole) && AllDigits(d.value.fraction)
  {
    if s == "" || Points(s) > 1 || s == "." || s == "," then None
    else
      var i := PointAt(s);
      var whole, fraction := s[..i], if i < |s| then s[i + 1..] else "";
      if AllDigits(whole) && AllDigits(fraction) then Some(Decimal(whole, fraction)) else None
  }

  /** The integer digits, or a zero where there are none. */
  function Whole(d: Decimal): string {
    if d.whole == "" then "0" else d.whole
  }

  predicate AnyNonzero(s: string) {
    exists i :: 0 <= i < |s| && s[i] != '0'
  }

  function Kept(fraction: string, e: nat): string {
    if |fraction| > e then fraction[..e] else fraction
  }

  function Cut(fraction: string, e: nat): string {
    if |fraction| > e then fraction[e..] else ""
  }

  datatype Base = Base(base: string, truncated: bool)

  /** `toBaseUnits`. */
  function ToBaseUnits(input: string, e: int): Option<Base> {
    if e < 0 || e > 30 || Typed(input).None? then None else
    var d := Typed(input).value;
    var digits := Whole(d) + PadEnd(Kept(d.fraction, e), e);
    Some(Base(ToDecimal(Value(digits)), AnyNonzero(Cut(d.fraction, e))))
  }

  // ------------------------------------------------------------- reading is exact

  /** The base units of a decimal: its kept digits, scaled up. */
  lemma BaseValue(d: Decimal, k: string, e: nat)
    requires AllDigits(d.whole) && AllDigits(k) && |k| <= e
    ensures AllDigits(d.whole + k) && AllDigits(Whole(d) + PadEnd(k, e))
    ensures Value(Whole(d) + PadEnd(k, e)) == Shift(Value(d.whole + k), e - |k|)
  {
    var pad := Zeros(e - |k|);
    assert PadEnd(k, e) == k + pad;
    assert Value(Whole(d)) == Value(d.whole) by { assert "0"[..0] == ""; }
    ValueConcat(d.whole, k);
    ValueConcat(Whole(d), k);
    ValueConcat(Whole(d) + k, pad);
    ValueOfZeros(e - |k|);
    Assoc(Whole(d), k, pad);
  }

  lemma SplitDigits(whole: string, kept: string, cut: string)
    requires AllDigits(whole) && AllDigits(kept) && AllDigits(cut)
    ensures AllDigits(whole + kept) && AllDigits(whole + (kept + cut))
    ensures Value(whole + (kept + cut)) == Shift(Value(whole + kept), |cut|) + Value(cut)
  {
    DigitPieces(whole, kept);
    ValueConcat(whole + kept, cut);
    Assoc(whole, kept, cut);
  }

  lemma DigitPieces(a: string, b: string)
    ensures AllDigits(a + b) <==> AllDigits(a) && AllDigits(b)
  {
    var s := a + b;
    if AllDigits(s) {
      forall i | 0 <= i < |a| ensures IsDigit(a[i]) { assert a[i] == s[i]; }
      forall i | 0 <= i < |b| ensures IsDigit(b[i]) { assert b[i] == s[|a| + i]; }
    }
  }

  /** x stands for the digits of a decimal with f decimals, base for its base units:
      base is the floor of x times ten to the e, less ten to the f. */
  ghost predicate IsFloor(base: nat, truncated: bool, x: nat, f: nat, e: nat) {
    Shift(base, f) <= Shift(x, e) < Shift(base + 1, f) && (truncated <==> Shift(base, f) < Shift(x, e))
  }

  // ------------------------------------------------------------ what a text means

  /** The text is this one with separators put in, anywhere. */
  ghost predicate Spaced(text: string, bare: string)
    decreases |text|
  {
    if text == "" then bare == ""
    else ((text[0] in WHITE || text[0] == '\'') && Spaced(text[1..], bare)) || (bare != "" && text[0] == bare[0] && Spaced(text[1..], bare[1..]))
  }

  /** Digits, not none at all, before and after a point or a comma; the point may be left
      out where no digits follow it. */
  ghost predicate Writes(bare: string, d: Decimal) {
    AllDigits(d.whole) && AllDigits(d.fraction) && (d.whole != "" || d.fraction != "") &&
    (bare == d.whole + "." + d.fraction || bare == d.whole + "," + d.fraction || (d.fraction == "" && bare == d.whole))
  }

  /** A person who types the text means this decimal. */
  ghost predicate Means(text: string, d: Decimal) {
    exists bare: string :: Spaced(text, bare) && Writes(bare, d)
  }

  lemma SeparatorsListed(c: char)
    ensures IsSeparator(c) <==> c in WHITE || c == '\''
  {
  }

  lemma {:induction false} CleanIsBare(text: string, bare: string)
    requires forall i :: 0 <= i < |bare| ==> !IsSeparator(bare[i])
    ensures Spaced(text, bare) <==> Clean(text) == bare
    decreases |text|
  {
    if text != "" {
      SeparatorsListed(text[0]);
      CleanIsBare(text[1..], bare);
      if bare != "" {
        CleanIsBare(text[1..], bare[1..]);
        assert bare == [bare[0]] + bare[1..];
        ConsTells(text[0], Clean(text[1..]), bare);
      }
    }
  }

  lemma ConsTells(c: char, rest: string, bare: string)
    requires bare != ""
    ensures [c] + rest == bare <==> c == bare[0] && rest == bare[1..]
  {
    if [c] + rest == bare { assert ([c] + rest)[1..] == rest; }
  }

  lemma {:induction false} CleanHasNone(text: string)
    ensures forall i :: 0 <= i < |Clean(text)| ==> !IsSeparator(Clean(text)[i])
  {
    if text != "" { CleanHasNone(text[1..]); }
  }

  lemma {:induction false} NoPoints(s: string)
    requires AllDigits(s)
    ensures Points(s) == 0 && PointAt(s) == |s|
  {
    if s != "" { NoPoints(s[1..]); }
  }

  lemma {:induction false} OnePoint(a: string, c: char, b: string)
    requires AllDigits(a) && AllDigits(b) && IsPoint(c)
    ensures Points(a + [c] + b) == 1 && PointAt(a + [c] + b) == |a|
  {
    var s := a + [c] + b;
    if a == "" {
      assert s[1..] == b;
      NoPoints(b);
    } else {
      assert s[1..] == a[1..] + [c] + b;
      OnePoint(a[1..], c, b);
    }
  }

  lemma Pointed(w: string, c: char, f: string)
    requires AllDigits(w) && AllDigits(f) && (w != "" || f != "") && (c == '.' || c == ',')
    ensures TypedBare(w + [c] + f) == Some(Decimal(w, f))
  {
    hide Points, PointAt;
    OnePoint(w, c, f);
    var s := w + [c] + f;
    assert |s| >= 2 && s[..|w|] == w && s[|w| + 1..] == f;
  }

  lemma Pointless(w: string)
    requires AllDigits(w) && w != ""
    ensures TypedBare(w) == Some(Decimal(w, ""))
  {
    hide Points, PointAt;
    NoPoints(w);
    assert IsDigit(w[0]) && w[..|w|] == w;
  }

  lemma BareExactly(s: string, d: Decimal)
    ensures TypedBare(s) == Some(d) <==> Writes(s, d)
  {
    if TypedBare(s) == Some(d) { BareIsWritten(s, d, PointAt(s)); }
    hide TypedBare;
    if Writes(s, d) {
      if s == d.whole + "." + d.fraction {
        Pointed(d.whole, '.', d.fraction);
      } else if s == d.whole + "," + d.fraction {
        Pointed(d.whole, ',', d.fraction);
      } else {
        Pointless(d.whole);
      }
    }
  }

  lemma BareIsWritten(s: string, d: Decimal, i: nat)
    requires s != "" && s != "." && s != "," && i <= |s| && (i < |s| ==> IsPoint(s[i]))
    requires AllDigits(d.whole) && AllDigits(d.fraction) && d == Decimal(s[..i], if i < |s| then s[i + 1..] else "")
    ensures Writes(s, d)
  {
    if i < |s| {
      assert s == d.whole + [s[i]] + d.fraction;
      assert |d.whole| + 1 + |d.fraction| == |s|;
    } else {
      assert s[..i] == s;
    }
  }

  lemma DigitsAreKept(bare: string, d: Decimal)
    requires Writes(bare, d)
    ensures forall i :: 0 <= i < |bare| ==> !IsSeparator(bare[i])
  {
    var f, n := d.fraction, |d.whole|;
    forall i | 0 <= i < |bare| ensures !IsSeparator(bare[i]) {
      assert if i < n then bare[i] == d.whole[i] else if i == n then IsPoint(bare[i]) else bare[i] == f[i - n - 1];
    }
  }

  /** A text is read as a decimal exactly when it is that decimal written out, with a point
      or a comma, whatever separators stand in it. */
  lemma TypedExactly(text: string, d: Decimal)
    ensures Typed(text) == Some(d) <==> Means(text, d)
  {
    hide Spaced, Writes, TypedBare, IsSeparator;
    if Typed(text) == Some(d) {
      CleanHasNone(text);
      CleanIsBare(text, Clean(text));
      BareExactly(Clean(text), d);
    }
    forall bare: string | Spaced(text, bare) && Writes(bare, d) ensures Typed(text) == Some(d) {
      DigitsAreKept(bare, d);
      CleanIsBare(text, bare);
      BareExactly(bare, d);
    }
  }

  /** An amount is refused exactly when the text means no decimal or the exponent is out of
      range. Otherwise the base amount is the floor of what it means times ten to the e, and
      `truncated` says exactly whether anything was lost. The decimal is its digits over ten
      to the number of its decimals. */
  lemma ReadingIsFloor(text: string, e: int)
    ensures ToBaseUnits(text, e).Some? <==> 0 <= e <= 30 && exists d :: Means(text, d)
    ensures forall d :: Means(text, d) && 0 <= e <= 30 ==>
      var r := ToBaseUnits(text, e).value;
      AllDigits(d.whole + d.fraction) && AllDigits(r.base) && (r.base == "0" || r.base[..1] != "0") &&
      IsFloor(Value(r.base), r.truncated, Value(d.whole + d.fraction), |d.fraction|, e)
  {
    hide Means, Typed, IsFloor, Value;
    if Typed(text).Some? { TypedExactly(text, Typed(text).value); }
    forall d | Means(text, d) && 0 <= e <= 30
      ensures ToBaseUnits(text, e).Some?
      ensures var r := ToBaseUnits(text, e).value;
        AllDigits(d.whole + d.fraction) && AllDigits(r.base) && (r.base == "0" || r.base[..1] != "0") &&
        IsFloor(Value(r.base), r.truncated, Value(d.whole + d.fraction), |d.fraction|, e)
    {
      TypedExactly(text, d);
      ReadingOf(d, Kept(d.fraction, e), Cut(d.fraction, e), e);
      BaseValue(d, Kept(d.fraction, e), e);
      CanonicalDecimal(Value(Whole(d) + PadEnd(Kept(d.fraction, e), e)));
    }
    if d :| Means(text, d) { TypedExactly(text, d); }
  }

  lemma CanonicalDecimal(n: nat)
    ensures ToDecimal(n) == "0" || ToDecimal(n)[..1] != "0"
  {
    assert ToDecimal(n)[..1] == [ToDecimal(n)[0]];
  }

  lemma ReadingOf(d: Decimal, k: string, c: string, e: nat)
    requires AllDigits(d.whole) && AllDigits(d.fraction) && k == Kept(d.fraction, e) && c == Cut(d.fraction, e)
    ensures AllDigits(Whole(d) + PadEnd(k, e)) && AllDigits(d.whole + d.fraction)
    ensures IsFloor(Value(Whole(d) + PadEnd(k, e)), AnyNonzero(c), Value(d.whole + d.fraction), |d.fraction|, e)
  {
    hide Value, Shift;
    assert d.fraction == k + c;
    DigitPieces(k, c);
    BaseValue(d, k, e);
    SplitDigits(d.whole, k, c);
    ZeroValue(c);
    ValueBelow(c);
    Floor(Value(d.whole + k), Value(c), |k|, |c|, e);
  }

  /** b with c digits cut off, at most e kept. */
  lemma Floor(b: nat, rest: nat, kept: nat, cut: nat, e: nat)
    requires kept <= e && (cut > 0 ==> kept == e)
    ensures var base, x := Shift(b, e - kept), Shift(b, cut) + rest;
      Shift(x, e) == Shift(base, kept + cut) + Shift(rest, e) &&
      (rest < Shift(1, cut) ==> Shift(x, e) < Shift(base + 1, kept + cut)) &&
      (rest > 0 <==> Shift(rest, e) > 0)
  {
    hide Shift;
    var base := Shift(b, e - kept);
    ShiftAdd(Shift(b, cut), rest, e);
    ShiftTwice(b, cut, e);
    ShiftTwice(b, e - kept, kept + cut);
    ShiftAdd(base, 1, kept + cut);
    ShiftOrder(rest, 0, e);
    ShiftZero(e);
    ShiftTwice(1, cut, e);
    ShiftOrder(Shift(1, cut), rest, e);
    ShiftGrows(e, kept, cut);
  }

  lemma ShiftGrows(e: nat, kept: nat, cut: nat)
    requires kept <= e && (cut > 0 ==> kept == e)
    ensures cut > 0 ==> Shift(1, cut + e) == Shift(1, kept + cut)
    ensures Shift(1, kept + cut) >= 1 && (cut == 0 ==> Shift(1, cut) == 1)
  {
    ShiftOrder(1, 0, kept + cut);
    ShiftZero(kept + cut);
  }

  // ----------------------------------------------------------------- round trip

  /** A rendered decimal is read as itself. */
  lemma TypedRender(d: Decimal)
    requires Good(d)
    ensures Typed(Render(d)) == Some(d)
  {
    hide Spaced;
    SpacedItself(Render(d));
    assert Writes(Render(d), d);
    TypedExactly(Render(d), d);
  }

  lemma {:induction false} SpacedItself(s: string)
    ensures Spaced(s, s)
    decreases |s|
  {
    if s != "" { SpacedItself(s[1..]); }
  }

  /** What is printed reads back as the amount, with nothing truncated. */
  lemma PrintedReadsBack(n: nat, e: int)
    requires 0 <= e <= 30
    ensures ToBaseUnits(Render(Display(n, e)), e) == Some(Base(ToDecimal(n), false))
  {
    DisplayDigits(n, e);
    ReadBack(Display(n, e), n, e);
  }

  lemma ReadBack(d: Decimal, n: nat, e: nat)
    requires Good(d) && |d.fraction| <= e <= 30 && AllDigits(d.whole + PadEnd(d.fraction, e)) && Value(d.whole + PadEnd(d.fraction, e)) == n
    ensures ToBaseUnits(Render(d), e) == Some(Base(ToDecimal(n), false))
  {
    TypedRender(d);
  }

  // ----------------------------------------------------------------- truncation

  /** `formatAmount` before grouping and the symbol: the fraction cut to what the
      currency is quoted in, where it says. */
  function Shown(n: nat, e: nat, places: Option<nat>): Decimal {
    var d := Display(n, e);
    if places.None? || d.fraction == "" then d else d.(fraction := Strip(Kept(d.fraction, places.value)))
  }

  /** `truncatedFrom`: the exact figure where the printed one is another string. */
  function TruncatedFrom(n: nat, e: nat, places: Option<nat>): Option<string> {
    if Render(Display(n, e)) == Render(Shown(n, e, places)) then None else Some(Render(Display(n, e)))
  }

  /** A decimal stands for at most, or exactly, n units of ten to the minus e. */
  ghost predicate AtMost(d: Decimal, n: nat, e: nat)
    requires Good(d)
  {
    Shift(Numerator(d), e) <= Shift(n, |d.fraction|)
  }

  ghost predicate Exactly(d: Decimal, n: nat, e: nat)
    requires Good(d)
  {
    Shift(Numerator(d), e) == Shift(n, |d.fraction|)
  }

  /** A prefix of the printed fraction stands for at most the amount, and for all of
      it only when what it leaves out is zeros. */
  lemma PrefixDenotes(d: Decimal, fraction: string, n: nat, e: nat)
    requires Good(d) && d == Display(n, e) && fraction <= d.fraction
    ensures Good(d.(fraction := fraction)) && AtMost(d.(fraction := fraction), n, e)
    ensures Exactly(d.(fraction := fraction), n, e) <==> forall i :: |fraction| <= i < |d.fraction| ==> d.fraction[i] == '0'
  {
    hide Value, Shift, Display;
    DisplayDigits(n, e);
    var padded := PadEnd(d.fraction, e);
    var rest := padded[|fraction|..];
    assert padded == fraction + rest;
    DigitPieces(d.whole, padded);
    DigitPieces(fraction, rest);
    SplitDigits(d.whole, fraction, rest);
    RestCounts(Value(d.whole + fraction), Value(rest), |fraction|, |rest|);
    ZeroValue(rest);
    RestZeros(d.fraction, fraction, e, rest);
  }

  lemma RestCounts(v: nat, rest: nat, f: nat, r: nat)
    ensures var n := Shift(v, r) + rest;
      Shift(v, f + r) <= Shift(n, f) && (Shift(v, f + r) == Shift(n, f) <==> rest == 0)
  {
    ShiftAdd(Shift(v, r), rest, f);
    ShiftTwice(v, r, f);
    ShiftOrder(rest, 0, f);
    ShiftZero(f);
  }

  lemma RestZeros(whole: string, part: string, e: nat, rest: string)
    requires part <= whole && |whole| <= e && rest == PadEnd(whole, e)[|part|..]
    ensures (forall i :: 0 <= i < |rest| ==> rest[i] == '0') <==> forall i :: |part| <= i < |whole| ==> whole[i] == '0'
  {
    var padded := PadEnd(whole, e);
    if forall i :: 0 <= i < |rest| ==> rest[i] == '0' {
      forall i | |part| <= i < |whole| ensures whole[i] == '0' { assert padded[i] == rest[i - |part|]; }
    }
  }

  /** formatAmount never denotes more than the amount, and truncatedFrom is null
      exactly when it denotes all of it; otherwise it is a decimal that does. */
  lemma ShownNeverExceeds(n: nat, e: nat, places: Option<nat>)
    ensures Good(Shown(n, e, places)) && AtMost(Shown(n, e, places), n, e)
    ensures TruncatedFrom(n, e, places).None? <==> Exactly(Shown(n, e, places), n, e)
    ensures TruncatedFrom(n, e, places).Some? ==> exists d :: Good(d) && Exactly(d, n, e) && TruncatedFrom(n, e, places) == Some(Render(d))
  {
    hide Display, Value, Shift;
    var d, s := Display(n, e), Shown(n, e, places);
    DisplayDigits(n, e);
    assert s.fraction <= d.fraction;
    PrefixDenotes(d, s.fraction, n, e);
    PrefixDenotes(d, d.fraction, n, e);
    assert d == d.(fraction := d.fraction);
    assert s == d.(fraction := s.fraction);
    if s.fraction != d.fraction {
      LastIsNotZero(n, e);
      assert d.fraction[|d.fraction| - 1] != '0';
      if Render(d) == Render(s) {
        TypedRender(d);
        TypedRender(s);
      }
    }
  }

  /** With as many decimals as the currency is quoted in, and no more, the amount shown is
      the amount rounded down to them; what is shown ends in no zero. */
  lemma ShownIsFloor(n: nat, e: nat, places: nat)
    ensures var s := Shown(n, e, Some(places));
      Good(s) && |s.fraction| <= places && AllDigits(s.whole + PadEnd(s.fraction, places)) &&
      (s.fraction != "" ==> s.fraction[|s.fraction| - 1] != '0') &&
      (s.whole == "0" || s.whole[0] != '0') &&
      IsDecimalFloor(Value(s.whole + PadEnd(s.fraction, places)), places, n, e)
  {
    hide Value, Shift, Display, Strip, IsDecimalFloor, PadEnd, Kept;
    var d, s := Display(n, e), Shown(n, e, Some(places));
    ShownNeverExceeds(n, e, Some(places));
    DisplayDigits(n, e);
    LastIsNotZero(n, e);
    WholeIsCanonical(n, e);
    ShownPadded(d.fraction, s.fraction, places, e);
    StripEnds(Kept(d.fraction, places));
    var full := PadEnd(d.fraction, e);
    PadLength(d.fraction, e);
    DigitPieces(d.whole, full);
    if places <= e {
      CutDigits(d.whole, full, places, e);
    } else {
      PadDigits(d.whole, full, places, e);
    }
  }

  lemma PadLength(s: string, e: nat)
    ensures |s| <= e ==> |PadEnd(s, e)| == e
  {
  }

  lemma CutDigits(whole: string, full: string, places: nat, e: nat)
    requires AllDigits(whole) && AllDigits(full) && AllDigits(whole + full) && |full| == e && places <= e
    ensures AllDigits(whole + full[..places]) && IsDecimalFloor(Value(whole + full[..places]), places, Value(whole + full), e)
  {
    hide Value, Shift, IsDecimalFloor;
    var kept, cut := full[..places], full[places..];
    assert full == kept + cut;
    DigitPieces(kept, cut);
    SplitDigits(whole, kept, cut);
    ValueBelow(cut);
    CutDecimals(Value(whole + kept), Value(cut), places, e);
  }

  lemma PadDigits(whole: string, full: string, places: nat, e: nat)
    requires AllDigits(whole) && AllDigits(full) && AllDigits(whole + full) && |full| == e && places > e
    ensures AllDigits(whole + (full + Zeros(places - e)))
    ensures IsDecimalFloor(Value(whole + (full + Zeros(places - e))), places, Value(whole + full), e)
  {
    hide Value, Shift, IsDecimalFloor;
    Assoc(whole, full, Zeros(places - e));
    ValueConcat(whole + full, Zeros(places - e));
    ValueOfZeros(places - e);
    MoreDecimals(Value(whole + full), places, e);
  }

  /** v is the greatest number of units of ten to the minus p in n of ten to the minus e. */
  ghost predicate IsDecimalFloor(v: nat, p: nat, n: nat, e: nat) {
    Shift(v, e) <= Shift(n, p) < Shift(v + 1, e)
  }

  lemma CutDecimals(v: nat, rest: nat, p: nat, e: nat)
    requires p <= e && rest < Shift(1, e - p)
    ensures IsDecimalFloor(v, p, Shift(v, e - p) + rest, e)
  {
    hide Shift;
    var n := Shift(v, e - p) + rest;
    ShiftAdd(v, 1, e - p);
    ShiftTwice(v, e - p, p);
    ShiftTwice(v + 1, e - p, p);
    ShiftOrder(Shift(v, e - p), n, p);
    ShiftOrder(Shift(v + 1, e - p), n, p);
  }

  lemma MoreDecimals(n: nat, p: nat, e: nat)
    requires p > e
    ensures IsDecimalFloor(Shift(n, p - e), p, n, e)
  {
    ShiftTwice(n, p - e, e);
    ShiftOrder(Shift(n, p - e) + 1, Shift(n, p - e), e);
  }

  /** The decimals shown, padded to the places, are those printed, cut or padded to them. */
  lemma ShownPadded(printed: string, shown: string, places: nat, e: nat)
    requires |printed| <= e && (printed == "" || printed[|printed| - 1] != '0')
    requires shown == (if printed == "" then "" else Strip(Kept(printed, places)))
    ensures |shown| <= places
    ensures PadEnd(shown, places) == if places <= e then PadEnd(printed, e)[..places] else PadEnd(printed, e) + Zeros(places - e)
  {
    hide Strip;
    StripPad(Kept(printed, places));
    if printed != "" && |printed| <= places {
      StripNothing(printed);
    }
  }

  lemma StripNothing(s: string)
    requires s == "" || s[|s| - 1] != '0'
    ensures Strip(s) == s
  {
  }

  lemma StripEnds(s: string)
    ensures Strip(s) == "" || Strip(s)[|Strip(s)| - 1] != '0'
  {
  }

  lemma WholeIsCanonical(n: nat, e: nat)
    ensures Display(n, e).whole == "0" || Display(n, e).whole[0] != '0'
  {
  }

  lemma LastIsNotZero(n: nat, e: nat)
    ensures var f := Display(n, e).fraction; f != "" ==> f[|f| - 1] != '0'
  {
  }
}
