/** clients/governance/administrators.js: slips in the prefix of an address. A character
    of the prefix enters the checksum twice, its high bits and, as many values later as
    the prefix is long and one more, its low bits. The step is linear, so two prefixes
    can only come to the same state if the difference of the high bits, carried that
    far by zeros, is the difference of the low bits; and it never is. */
module Bech32Prefix {
  import opened Basics
  import opened Bech32
  import opened Bech32Address
  import opened Bech32Typos

  // ----------------------------------------------------------------- a linear step

  function Plus(a: word, b: word): word {
    a ^ b
  }

  /** The low 25 bits, moved up by five. */
  function Up(c: word): word {
    (c & 0x1ffffff) << 5
  }

  function Top(c: word): word {
    c >> 25
  }

  /** The step of a zero value. */
  function Shifted(c: word): word {
    Plus(Up(c), Mixed(Top(c)))
  }

  lemma PlusRegroup(a: word, b: word, c: word, d: word)
    ensures Plus(Plus(a, b), Plus(c, d)) == Plus(Plus(a, c), Plus(b, d))
  {
    hide Plus;
    PlusGroups(a, b, Plus(c, d));
    PlusGroups(b, c, d);
    PlusCommutes(b, c);
    PlusGroups(c, b, d);
    PlusGroups(a, c, Plus(b, d));
  }

  lemma PlusGroups(a: word, b: word, c: word)
    ensures Plus(Plus(a, b), c) == Plus(a, Plus(b, c))
  {
  }

  lemma PlusCommutes(a: word, b: word)
    ensures Plus(a, b) == Plus(b, a)
  {
  }

  lemma PlusZero(c: word, d: word)
    ensures Plus(c, c) == 0 && Plus(c, 0) == c && Plus(0, c) == c && (Plus(c, d) == 0 <==> c == d)
  {
  }

  lemma StepParts(v: word, up: word, r: word, p: word, s: word)
    requires p == up ^ v ^ r && s == Plus(up, r)
    ensures p == Plus(s, v)
  {
    XorIsPlus(up, v, r);
    hide Plus;
    PlusGroups(up, v, r);
    PlusCommutes(v, r);
    PlusGroups(up, r, v);
  }

  lemma XorIsPlus(a: word, b: word, c: word)
    ensures a ^ b ^ c == Plus(Plus(a, b), c)
  {
  }

  lemma StepXor(c: word, v: word, up: word, r: word, p: word)
    requires up == (c & 0x1ffffff) << 5 && r == Mixed(c >> 25) && p == Step(c, v)
    ensures p == up ^ v ^ r
  {
    hide Step, Mixed;
    StepIs(c, v, c >> 25, r);
  }

  lemma StepShifted(c: word, v: word)
    ensures Step(c, v) == Plus(Shifted(c), v)
  {
    hide Step, Mixed, Plus;
    StepXor(c, v, Up(c), Mixed(Top(c)), Step(c, v));
    StepParts(v, Up(c), Mixed(Top(c)), Step(c, v), Shifted(c));
  }

  lemma TermLinear(t: word, u: word, bit: word, g: word)
    requires bit in [1, 2, 4, 8, 16]
    ensures Term(Plus(t, u), bit, g) == Plus(Term(t, bit, g), Term(u, bit, g))
  {
    TermOfSum(t & bit != 0, u & bit != 0, g);
  }

  lemma TermOfSum(b: bool, c: bool, g: word)
    ensures (if b != c then g else 0) == Plus(if b then g else 0, if c then g else 0)
  {
    hide Plus;
    PlusZero(g, 0);
    PlusZero(0, g);
  }

  lemma FiveTerms(a: word, b: word, c: word, d: word, e: word)
    ensures a ^ b ^ c ^ d ^ e == Plus(Plus(Plus(Plus(a, b), c), d), e)
  {
  }

  lemma MixedIs(t: word, a: word, b: word, c: word, d: word, e: word, m: word)
    requires m == Mixed(t)
    requires a == Term(t, 1, 0x3b6a57b2) && b == Term(t, 2, 0x26508e6d) && c == Term(t, 4, 0x1ea119fa)
    requires d == Term(t, 8, 0x3d4233dd) && e == Term(t, 16, 0x2a1462b3)
    ensures m == a ^ b ^ c ^ d ^ e
  {
  }

  lemma MixedTerms(t: word)
    ensures Mixed(t) == Plus(Plus(Plus(Plus(Term(t, 1, 0x3b6a57b2), Term(t, 2, 0x26508e6d)), Term(t, 4, 0x1ea119fa)),
                                  Term(t, 8, 0x3d4233dd)), Term(t, 16, 0x2a1462b3))
  {
    hide Plus, Mixed, Term;
    var a, b, c, d, e := Term(t, 1, 0x3b6a57b2), Term(t, 2, 0x26508e6d), Term(t, 4, 0x1ea119fa), Term(t, 8, 0x3d4233dd), Term(t, 16, 0x2a1462b3);
    MixedIs(t, a, b, c, d, e, Mixed(t));
    FiveTerms(a, b, c, d, e);
  }

  lemma MixedLinear(t: word, u: word)
    ensures Mixed(Plus(t, u)) == Plus(Mixed(t), Mixed(u))
  {
    hide Mixed, Term, Plus;
    MixedTerms(t);
    MixedTerms(u);
    MixedTerms(Plus(t, u));
    var a, b, c, d, e := Term(t, 1, 0x3b6a57b2), Term(t, 2, 0x26508e6d), Term(t, 4, 0x1ea119fa), Term(t, 8, 0x3d4233dd), Term(t, 16, 0x2a1462b3);
    var f, g, h, i, j := Term(u, 1, 0x3b6a57b2), Term(u, 2, 0x26508e6d), Term(u, 4, 0x1ea119fa), Term(u, 8, 0x3d4233dd), Term(u, 16, 0x2a1462b3);
    TermLinear(t, u, 1, 0x3b6a57b2);
    TermLinear(t, u, 2, 0x26508e6d);
    TermLinear(t, u, 4, 0x1ea119fa);
    TermLinear(t, u, 8, 0x3d4233dd);
    TermLinear(t, u, 16, 0x2a1462b3);
    PlusRegroup(a, b, f, g);
    PlusRegroup(Plus(a, b), c, Plus(f, g), h);
    PlusRegroup(Plus(Plus(a, b), c), d, Plus(Plus(f, g), h), i);
    PlusRegroup(Plus(Plus(Plus(a, b), c), d), e, Plus(Plus(Plus(f, g), h), i), j);
  }

  lemma UpLinear(c: word, d: word)
    ensures Up(Plus(c, d)) == Plus(Up(c), Up(d))
  {
  }

  lemma TopLinear(c: word, d: word)
    ensures Top(Plus(c, d)) == Plus(Top(c), Top(d))
  {
  }

  lemma ShiftedLinear(c: word, d: word)
    ensures Shifted(Plus(c, d)) == Plus(Shifted(c), Shifted(d))
  {
    hide Mixed, Up, Top, Plus;
    UpLinear(c, d);
    TopLinear(c, d);
    MixedLinear(Top(c), Top(d));
    PlusRegroup(Up(c), Up(d), Mixed(Top(c)), Mixed(Top(d)));
  }

  lemma StepLinear(c: word, d: word, v: word, w: word)
    ensures Plus(Step(c, v), Step(d, w)) == Step(Plus(c, d), Plus(v, w))
  {
    hide Step, Shifted, Plus;
    StepShifted(c, v);
    StepShifted(d, w);
    StepShifted(Plus(c, d), Plus(v, w));
    ShiftedLinear(c, d);
    PlusRegroup(Shifted(c), v, Shifted(d), w);
  }

  /** The difference of two lists of values. */
  function Difference(x: seq<word>, y: seq<word>): (z: seq<word>)
    requires |x| == |y|
    ensures |z| == |x|
  {
    seq(|x|, i requires 0 <= i < |x| => Plus(x[i], y[i]))
  }

  lemma {:induction false} RunLinear(c: word, d: word, x: seq<word>, y: seq<word>)
    requires |x| == |y|
    ensures Plus(PolymodFrom(c, x), PolymodFrom(d, y)) == PolymodFrom(Plus(c, d), Difference(x, y))
    decreases |x|
  {
    hide Step, Plus;
    if x != [] {
      StepLinear(c, d, x[0], y[0]);
      assert Difference(x, y)[1..] == Difference(x[1..], y[1..]);
      RunLinear(Step(c, x[0]), Step(d, y[0]), x[1..], y[1..]);
    }
  }

  /** Two lists of values come to the same state exactly when their difference, read
      from zero, comes to zero. */
  lemma SameStateExactly(x: seq<word>, y: seq<word>)
    requires |x| == |y|
    ensures Polymod(x) == Polymod(y) <==> PolymodFrom(0, Difference(x, y)) == 0
  {
    hide PolymodFrom, Plus, Difference;
    RunLinear(1, 1, x, y);
    PlusZero(1, 1);
    PlusZero(Polymod(x), Polymod(y));
  }

  // ------------------------------------------------------------------------- zeros

  function Zeros(n: nat): (z: seq<word>)
    ensures |z| == n
  {
    seq(n, _ => 0)
  }

  /** n zeros on from c. */
  function After(c: word, n: nat): word {
    if n == 0 then c else Shifted(After(c, n - 1))
  }

  lemma StepZero(c: word)
    ensures Step(c, 0) == Shifted(c) && Step(0, c) == c
  {
    hide Step, Shifted, Plus;
    StepShifted(c, 0);
    PlusZero(Shifted(c), 0);
    StepFromZero(c);
  }

  lemma {:induction false} AfterShifted(c: word, n: nat)
    ensures After(Shifted(c), n) == Shifted(After(c, n))
  {
    hide Shifted;
    if n > 0 { AfterShifted(c, n - 1); }
  }

  lemma {:induction false} RunZeros(c: word, n: nat)
    ensures PolymodFrom(c, Zeros(n)) == After(c, n)
    decreases n
  {
    hide Step, Shifted;
    if n > 0 {
      StepZero(c);
      assert Zeros(n)[1..] == Zeros(n - 1);
      RunZeros(Shifted(c), n - 1);
      AfterShifted(c, n - 1);
    }
  }

  lemma {:induction false} AfterLinear(c: word, d: word, n: nat)
    ensures After(Plus(c, d), n) == Plus(After(c, n), After(d, n))
  {
    hide Shifted, Plus;
    if n > 0 {
      AfterLinear(c, d, n - 1);
      ShiftedLinear(After(c, n - 1), After(d, n - 1));
    }
  }

  lemma {:induction false} AfterZero(n: nat)
    ensures After(0, n) == 0
  {
    if n > 0 { AfterZero(n - 1); }
  }

  /** Zeros never bring another state to zero. */
  lemma ZeroOnlyFromZero(c: word, n: nat)
    ensures After(c, n) == 0 <==> c == 0
  {
    hide After, PolymodFrom;
    AfterZero(n);
    RunZeros(c, n);
    RunZeros(0, n);
    StatesStayApart(c, 0, Zeros(n));
  }

  /** A state and its shift cancel only at zero. */
  lemma SumInjective(x: word)
    requires Plus(Shifted(x), x) == 0
    ensures x == 0
  {
  }

  // ------------------------------------------------------------------- the table

  /** Not the low bits of a character. */
  predicate Large(c: word) {
    c >= 32
  }

  /** For the next n steps of zeros from a, from b and from their sum. */
  predicate Clear(a: word, b: word, n: nat)
    decreases n
  {
    n == 0 || (Large(Shifted(a)) && Large(Shifted(b)) && Large(Plus(Shifted(a), Shifted(b))) && Clear(Shifted(a), Shifted(b), n - 1))
  }

  lemma Stretch0()
    ensures Clear(0x1, 0x2, 5) && After(0x1, 5) == 0x2000000 && After(0x2, 5) == 0x4000000
  {
  }

  lemma Stretch1()
    ensures Clear(0x2000000, 0x4000000, 5) && After(0x2000000, 5) == 0x81318a1 && After(0x4000000, 5) == 0x10263142
  {
  }

  lemma Stretch2()
    ensures Clear(0x81318a1, 0x10263142, 5) && After(0x81318a1, 5) == 0x2a465b57 && After(0x10263142, 5) == 0x68c17a7
  {
  }

  lemma Stretch3()
    ensures Clear(0x2a465b57, 0x68c17a7, 5) && After(0x2a465b57, 5) == 0x14dc0c20 && After(0x68c17a7, 5) == 0x29ac9840
  {
  }

  lemma Stretch4()
    ensures Clear(0x14dc0c20, 0x29ac9840, 5) && After(0x14dc0c20, 5) == 0x2c5fb3f9 && After(0x29ac9840, 5) == 0xaabe2fb
  {
  }

  lemma Stretch5()
    ensures Clear(0x2c5fb3f9, 0xaabe2fb, 5) && After(0x2c5fb3f9, 5) == 0x3e97b75e && After(0xaabe2fb, 5) == 0x2f2f6bb5
  {
  }

  lemma Stretch6()
    ensures Clear(0x3e97b75e, 0x2f2f6bb5, 5) && After(0x3e97b75e, 5) == 0x24a559e0 && After(0x2f2f6bb5, 5) == 0x1b4a17c0
  {
  }

  lemma Stretch7()
    ensures Clear(0x24a559e0, 0x1b4a17c0, 5) && After(0x24a559e0, 5) == 0x2418480a && After(0x1b4a17c0, 5) == 0x1a24b414
  {
  }

  lemma Stretch8()
    ensures Clear(0x2418480a, 0x1a24b414, 5) && After(0x2418480a, 5) == 0x21127cdf && After(0x1a24b414, 5) == 0x12b45d97
  {
  }

  lemma Stretch9()
    ensures Clear(0x21127cdf, 0x12b45d97, 5) && After(0x21127cdf, 5) == 0x6e1c70e && After(0x12b45d97, 5) == 0xdc32f3c
  {
  }

  lemma Stretch10()
    ensures Clear(0x6e1c70e, 0xdc32f3c, 5) && After(0x6e1c70e, 5) == 0x3c27ac05 && After(0xdc32f3c, 5) == 0x2a4f580a
  {
  }

  lemma Stretch11()
    ensures Clear(0x3c27ac05, 0x2a4f580a, 5) && After(0x3c27ac05, 5) == 0x28686d2 && After(0x2a4f580a, 5) == 0x50d08ad
  {
  }

  lemma Stretch12()
    ensures Clear(0x28686d2, 0x50d08ad, 5) && After(0x28686d2, 5) == 0x1f342f8c && After(0x50d08ad, 5) == 0x3cf85a38
  {
  }

  lemma Stretch13()
    ensures Clear(0x1f342f8c, 0x3cf85a38, 5) && After(0x1f342f8c, 5) == 0x1fbfd2ef && After(0x3cf85a38, 5) == 0x3dfb84fe
  {
  }

  lemma Stretch14()
    ensures Clear(0x1fbfd2ef, 0x3dfb84fe, 5) && After(0x1fbfd2ef, 5) == 0x3ea82e23 && After(0x3dfb84fe, 5) == 0x2f44d966
  {
  }

  lemma Stretch15()
    ensures Clear(0x3ea82e23, 0x2f44d966, 5) && After(0x3ea82e23, 5) == 0x33295b93 && After(0x2f44d966, 5) == 0x36d6962f
  {
  }

  lemma Stretch16()
    ensures Clear(0x33295b93, 0x36d6962f, 5) && After(0x33295b93, 5) == 0x12564f79 && After(0x36d6962f, 5) == 0x24ac3ffb
  {
  }

  lemma {:induction false} AfterOn(c: word, m: nat, n: nat)
    ensures After(After(c, m), n) == After(c, m + n)
    decreases n
  {
    hide Shifted;
    if n > 0 { AfterOn(c, m, n - 1); }
  }

  lemma {:induction false} ClearOn(a: word, b: word, m: nat, n: nat)
    requires Clear(a, b, m) && Clear(After(a, m), After(b, m), n)
    ensures Clear(a, b, m + n)
    decreases m
  {
    hide Shifted, Plus;
    if m > 0 {
      AfterShifted(a, m - 1);
      AfterShifted(b, m - 1);
      ClearOn(Shifted(a), Shifted(b), m - 1, n);
    }
  }

  lemma Join(a: word, b: word, m: nat, n: nat, c: word, d: word)
    requires Clear(a, b, m) && After(a, m) == c && After(b, m) == d && Clear(c, d, n)
    ensures Clear(a, b, m + n) && After(a, m + n) == After(c, n) && After(b, m + n) == After(d, n)
  {
    hide Shifted, Plus, Clear;
    ClearOn(a, b, m, n);
    AfterOn(a, m, n);
    AfterOn(b, m, n);
  }

  lemma Table()
    ensures Clear(1, 2, 85)
  {
    hide Shifted, Plus, Clear, After;
    Stretch0();
    Stretch1();
    Join(1, 2, 5, 5, 0x2000000, 0x4000000);
    Stretch2();
    Join(1, 2, 10, 5, 0x81318a1, 0x10263142);
    Stretch3();
    Join(1, 2, 15, 5, 0x2a465b57, 0x68c17a7);
    Stretch4();
    Join(1, 2, 20, 5, 0x14dc0c20, 0x29ac9840);
    Stretch5();
    Join(1, 2, 25, 5, 0x2c5fb3f9, 0xaabe2fb);
    Stretch6();
    Join(1, 2, 30, 5, 0x3e97b75e, 0x2f2f6bb5);
    Stretch7();
    Join(1, 2, 35, 5, 0x24a559e0, 0x1b4a17c0);
    Stretch8();
    Join(1, 2, 40, 5, 0x2418480a, 0x1a24b414);
    Stretch9();
    Join(1, 2, 45, 5, 0x21127cdf, 0x12b45d97);
    Stretch10();
    Join(1, 2, 50, 5, 0x6e1c70e, 0xdc32f3c);
    Stretch11();
    Join(1, 2, 55, 5, 0x3c27ac05, 0x2a4f580a);
    Stretch12();
    Join(1, 2, 60, 5, 0x28686d2, 0x50d08ad);
    Stretch13();
    Join(1, 2, 65, 5, 0x1f342f8c, 0x3cf85a38);
    Stretch14();
    Join(1, 2, 70, 5, 0x1fbfd2ef, 0x3dfb84fe);
    Stretch15();
    Join(1, 2, 75, 5, 0x3ea82e23, 0x2f44d966);
    Stretch16();
    Join(1, 2, 80, 5, 0x33295b93, 0x36d6962f);
  }

  lemma {:induction false} ClearAt(a: word, b: word, n: nat, k: nat)
    requires Clear(a, b, n) && 1 <= k <= n
    ensures Large(After(a, k)) && Large(After(b, k)) && Large(Plus(After(a, k), After(b, k)))
    decreases k
  {
    hide Shifted, Plus, Large;
    if k > 1 {
      ClearAt(Shifted(a), Shifted(b), n - 1, k - 1);
      AfterShifted(a, k - 1);
      AfterShifted(b, k - 1);
    }
  }

  lemma SumOfOneAndTwo()
    ensures Plus(1, 2) == 3
  {
  }

  /** No difference of high bits comes to a difference of low bits, as far as any
      address reaches. */
  lemma NeverSmall(h: word, k: nat)
    requires 1 <= h <= 3 && 1 <= k <= 85
    ensures Large(After(h, k))
  {
    hide Shifted, Plus, Clear, After, Large;
    Table();
    ClearAt(1, 2, 85, k);
    SumOfOneAndTwo();
    AfterLinear(1, 2, k);
    OneTwoThree(h);
  }

  lemma OneTwoThree(h: word)
    requires 1 <= h <= 3
    ensures h == 1 || h == 2 || h == 3
  {
  }

  // ---------------------------------------------------------- what a prefix puts in

  lemma DifferenceConcat(a: seq<word>, b: seq<word>, c: seq<word>, d: seq<word>)
    requires |a| == |c| && |b| == |d|
    ensures Difference(a + b, c + d) == Difference(a, c) + Difference(b, d)
  {
    hide Plus;
  }

  lemma DifferenceNone(a: seq<word>)
    ensures Difference(a, a) == Zeros(|a|)
  {
    forall i | 0 <= i < |a| ensures Difference(a, a)[i] == 0 { PlusZero(a[i], a[i]); }
  }

  /** The values of a prefix around some of its characters. */
  lemma ExpandAround(u: string, x: string, w: string)
    ensures HrpExpand(u + x + w) == Highs(u) + Highs(x) + (Highs(w) + [0] + Lows(u)) + Lows(x) + Lows(w)
  {
    hide Highs, Lows;
    PartsConcat(u + x, w);
    PartsConcat(u, x);
    assert Highs(u) + Highs(x) + Highs(w) + [0] + (Lows(u) + Lows(x) + Lows(w))
        == Highs(u) + Highs(x) + (Highs(w) + [0] + Lows(u)) + Lows(x) + Lows(w);
  }

  /** Between zeros: what two prefixes differ in that differ in x and y alone. */
  function Around(u: nat, high: seq<word>, w: nat, low: seq<word>): seq<word> {
    Zeros(u) + high + Zeros(w + 1 + u) + low + Zeros(w)
  }

  lemma DifferenceAround(u: string, x: string, y: string, w: string)
    requires |x| == |y|
    ensures |HrpExpand(u + x + w)| == |HrpExpand(u + y + w)|
    ensures Difference(HrpExpand(u + x + w), HrpExpand(u + y + w)) ==
      Around(|u|, Difference(Highs(x), Highs(y)), |w|, Difference(Lows(x), Lows(y)))
  {
    hide Highs, Lows, Difference, HrpExpand;
    ExpandAround(u, x, w);
    ExpandAround(u, y, w);
    var between := Highs(w) + [0] + Lows(u);
    DifferenceConcat(Highs(u) + Highs(x) + between + Lows(x), Lows(w), Highs(u) + Highs(y) + between + Lows(y), Lows(w));
    DifferenceConcat(Highs(u) + Highs(x) + between, Lows(x), Highs(u) + Highs(y) + between, Lows(y));
    DifferenceConcat(Highs(u) + Highs(x), between, Highs(u) + Highs(y), between);
    DifferenceConcat(Highs(u), Highs(x), Highs(u), Highs(y));
    DifferenceNone(Highs(u));
    DifferenceNone(between);
    DifferenceNone(Lows(w));
  }

  /** Read from zero, it comes to zero only if its low part does, met where its high
      part has got to. */
  lemma RunAround(u: nat, high: seq<word>, w: nat, low: seq<word>)
    ensures PolymodFrom(0, Around(u, high, w, low)) == 0 <==>
      PolymodFrom(After(PolymodFrom(0, high), w + 1 + u), low) == 0
  {
    hide PolymodFrom, After, Zeros;
    PolymodConcat(0, Zeros(u) + high + Zeros(w + 1 + u) + low, Zeros(w));
    PolymodConcat(0, Zeros(u) + high + Zeros(w + 1 + u), low);
    PolymodConcat(0, Zeros(u) + high, Zeros(w + 1 + u));
    PolymodConcat(0, Zeros(u), high);
    RunZeros(0, u);
    AfterZero(u);
    RunZeros(PolymodFrom(0, high), w + 1 + u);
    var last := PolymodFrom(After(PolymodFrom(0, high), w + 1 + u), low);
    RunZeros(last, w);
    ZeroOnlyFromZero(last, w);
  }

  lemma OneValue(c: word, v: word)
    ensures PolymodFrom(c, [v]) == Plus(Shifted(c), v) && PolymodFrom(0, [v]) == v
  {
    hide Step, Shifted, Plus;
    StepShifted(c, v);
    StepZero(v);
    assert [v][1..] == [];
  }

  lemma TwoValues(c: word, v: word)
    ensures PolymodFrom(c, [v, v]) == Plus(Shifted(Plus(Shifted(c), v)), v)
    ensures PolymodFrom(0, [v, v]) == Plus(Shifted(v), v)
  {
    hide Step, Shifted, Plus;
    assert [v, v][1..] == [v];
    OneValue(Step(c, v), v);
    OneValue(Step(0, v), v);
    StepShifted(c, v);
    StepZero(v);
  }

  // ----------------------------------------------------------- the two differences

  /** High and low bits of two characters. */
  lemma BitsTell(d: char, e: char)
    requires d as int < 128 && e as int < 128 && d != e
    ensures var h, l := Plus(High(d), High(e)), Plus(Low(d), Low(e));
      h <= 3 && !Large(l) && (h != 0 || l != 0)
  {
    HighTells(d as int / 32, 0);
    HighTells(e as int / 32, 0);
    WordTells(d as int % 32);
    WordTells(e as int % 32);
    if High(d) == High(e) && Low(d) == Low(e) { OneCharacterTells(d, e); }
    hide Word;
    SmallBits(High(d), High(e), Low(d), Low(e));
  }

  lemma SmallBits(a: word, b: word, c: word, d: word)
    requires a < 4 && b < 4 && c < 32 && d < 32
    ensures Plus(a, b) <= 3 && Plus(c, d) < 32 && (Plus(a, b) == 0 <==> a == b) && (Plus(c, d) == 0 <==> c == d)
  {
  }

  lemma NeverMeets(h: word, l: word, k: nat)
    requires h <= 3 && !Large(l) && (h != 0 || l != 0) && 1 <= k <= 85
    ensures After(h, k) != l
  {
    if h == 0 {
      AfterZero(k);
    } else {
      hide Large, After;
      AtLeastOne(h);
      NeverSmall(h, k);
    }
  }

  lemma AtLeastOne(h: word)
    requires h != 0
    ensures h >= 1
  {
  }

  /** What is left of [l, l] met two steps after the sum of z and its shift. */
  lemma DoubledSum(z: word, l: word)
    ensures var c, v := Plus(Shifted(z), z), Plus(Shifted(Shifted(z)), l);
      Plus(Shifted(Plus(Shifted(c), l)), l) == Plus(Shifted(v), v)
  {
    hide Shifted, Plus;
    var one, two := Shifted(z), Shifted(Shifted(z));
    ShiftedLinear(one, z);
    ShiftedLinear(Plus(two, one), l);
    ShiftedLinear(two, one);
    ShiftedLinear(two, l);
    PlusGroups(Plus(Shifted(two), two), Shifted(l), l);
    PlusRegroup(Shifted(two), two, Shifted(l), l);
  }

  // ------------------------------------------------------------------ as addresses

  /** A character of the prefix that differs changes the state the data is met in. */
  lemma ReplacedPrefixTells(u: string, d: char, e: char, w: string)
    requires d as int < 128 && e as int < 128 && d != e && |u| + 1 + |w| < 85
    ensures Polymod(HrpExpand(u + [d] + w)) != Polymod(HrpExpand(u + [e] + w))
  {
    hide Polymod, PolymodFrom, After, Shifted, Plus, HrpExpand, Large, High, Low, Around;
    var h, l := Plus(High(d), High(e)), Plus(Low(d), Low(e));
    DifferenceAround(u, [d], [e], w);
    SameStateExactly(HrpExpand(u + [d] + w), HrpExpand(u + [e] + w));
    assert Difference(Highs([d]), Highs([e])) == [h] && Difference(Lows([d]), Lows([e])) == [l];
    RunAround(|u|, [h], |w|, [l]);
    var m := |w| + 1 + |u|;
    OneValue(After(h, m), l);
    OneValue(0, h);
    AfterNext(h, m);
    PlusZero(After(h, m + 1), l);
    BitsTell(d, e);
    NeverMeets(h, l, m + 1);
  }

  lemma AfterNext(c: word, n: nat)
    ensures Shifted(After(c, n)) == After(c, n + 1)
  {
  }

  lemma ExchangedPrefixTells(u: string, d: char, e: char, w: string)
    requires d as int < 128 && e as int < 128 && d != e && |u| + 2 + |w| < 85
    ensures Polymod(HrpExpand(u + [d, e] + w)) != Polymod(HrpExpand(u + [e, d] + w))
  {
    hide Polymod, PolymodFrom, After, Shifted, Plus, HrpExpand, Large, High, Low, Around;
    var h, l := Plus(High(d), High(e)), Plus(Low(d), Low(e));
    DifferenceAround(u, [d, e], [e, d], w);
    SameStateExactly(HrpExpand(u + [d, e] + w), HrpExpand(u + [e, d] + w));
    PlusCommutes(High(d), High(e));
    PlusCommutes(Low(d), Low(e));
    assert Difference(Highs([d, e]), Highs([e, d])) == [h, h] && Difference(Lows([d, e]), Lows([e, d])) == [l, l];
    RunAround(|u|, [h, h], |w|, [l, l]);
    BitsTell(d, e);
    DoubledRun(h, l, |w| + 1 + |u|);
  }

  lemma DoubledRun(h: word, l: word, m: nat)
    requires h <= 3 && !Large(l) && (h != 0 || l != 0) && m + 2 <= 85
    ensures PolymodFrom(After(PolymodFrom(0, [h, h]), m), [l, l]) != 0
  {
    hide PolymodFrom, After, Shifted, Plus, Large;
    var z := After(h, m);
    TwoValues(0, h);
    AfterLinear(Shifted(h), h, m);
    AfterShifted(h, m);
    TwoValues(Plus(Shifted(z), z), l);
    DoubledSum(z, l);
    AfterNext(h, m);
    AfterNext(h, m + 1);
    NeverMeets(h, l, m + 2);
    PlusZero(After(h, m + 2), l);
    var v := Plus(After(h, m + 2), l);
    if Plus(Shifted(v), v) == 0 { SumInjective(v); }
  }

  lemma EmptyState(p: string)
    ensures InCharset("") && State(p, "") == Polymod(HrpExpand(p))
  {
    hide Polymod;
    NothingRead();
    assert HrpExpand(p) + [] == HrpExpand(p);
  }

  lemma PrefixLength(raw: string, p: string, data: string)
    requires Decode(raw).Ok? && '1' !in data && Lowercase(raw) == p + "1" + data
    ensures |p| < 84
  {
    BytesOf(raw, p, data);
    DecodesExactly(raw);
    assert |Lowercase(raw)| == |raw|;
  }

  /** One character of the prefix, of any length, replaced by another ASCII character is
      always refused. */
  lemma PrefixReplacementIsRefused(raw: string, changed: string, u: string, d: char, e: char, w: string, data: string)
    requires Decode(raw).Ok? && '1' !in data && d as int < 128 && e as int < 128 && d != e
    requires Lowercase(raw) == u + [d] + w + "1" + data && Lowercase(changed) == u + [e] + w + "1" + data
    ensures Decode(changed).Bad?
  {
    hide Decode, WellTyped, InCharset, Polymod, HrpExpand, State;
    PrefixLength(raw, u + [d] + w, data);
    ReplacedPrefixTells(u, d, e, w);
    EmptyState(u + [d] + w);
    EmptyState(u + [e] + w);
    PrefixExactly(raw, changed, u + [d] + w, u + [e] + w, data);
  }

  /** Two unequal neighbours in the prefix, ASCII both, exchanged are always refused. */
  lemma PrefixExchangeIsRefused(raw: string, changed: string, u: string, d: char, e: char, w: string, data: string)
    requires Decode(raw).Ok? && '1' !in data && d as int < 128 && e as int < 128 && d != e
    requires Lowercase(raw) == u + [d, e] + w + "1" + data && Lowercase(changed) == u + [e, d] + w + "1" + data
    ensures Decode(changed).Bad?
  {
    hide Decode, WellTyped, InCharset, Polymod, HrpExpand, State;
    PrefixLength(raw, u + [d, e] + w, data);
    ExchangedPrefixTells(u, d, e, w);
    EmptyState(u + [d, e] + w);
    EmptyState(u + [e, d] + w);
    PrefixExactly(raw, changed, u + [d, e] + w, u + [e, d] + w, data);
  }
}
