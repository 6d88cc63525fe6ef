/** clients/governance/administrators.js: the bech32 checksum and decoder, and what
    the checksum detects. Section "Bech32", Checksum, of BIP-173. */
module Bech32 {
  /** A checksum state; `(chk & 0x1ffffff) << 5` keeps it within 30 bits. */
  type word = bv30

  const GENERATOR: seq<word> := [0x3b6a57b2, 0x26508e6d, 0x1ea119fa, 0x3d4233dd, 0x2a1462b3]

  const ROUNDS: nat := |GENERATOR|

  /** `(top >>> i) & 1`. */
  function Bit(top: word, i: nat): bool
    requires i < 5
  {
    top & (if i == 0 then 1 else if i == 1 then 2 else if i == 2 then 4 else if i == 3 then 8 else 16) != 0
  }

  /** The inner loop: the first n generators, each where its bit of the five is set. */
  function Rounds(shifted: word, top: word, n: nat): word
    requires n <= 5
  {
    if n == 0 then shifted
    else if Bit(top, n - 1) then Rounds(shifted, top, n - 1) ^ GENERATOR[n - 1]
    else Rounds(shifted, top, n - 1)
  }

  function Step(chk: word, value: word): word {
    Rounds(((chk & 0x1ffffff) << 5) ^ value, chk >> 25, ROUNDS)
  }

  /** The state after more values. */
  function PolymodFrom(chk: word, values: seq<word>): word
    decreases values
  {
    if values == [] then chk else PolymodFrom(Step(chk, values[0]), values[1..])
  }

  function Polymod(values: seq<word>): word {
    PolymodFrom(1, values)
  }

  method ComputePolymod(values: seq<word>) returns (chk: word)
    ensures chk == Polymod(values)
  {
    chk := 1;
    for k := 0 to |values|
      invariant PolymodFrom(chk, values[k..]) == Polymod(values)
    {
      chk := AddGenerators(((chk & 0x1ffffff) << 5) ^ values[k], chk >> 25);
      assert values[k..][1..] == values[k + 1..];
    }
  }

  method AddGenerators(shifted: word, top: word) returns (chk: word)
    ensures chk == Rounds(shifted, top, ROUNDS)
  {
    chk := shifted;
    for i := 0 to ROUNDS
      invariant chk == Rounds(shifted, top, i)
    {
      if Bit(top, i) { chk := chk ^ GENERATOR[i]; }
    }
  }

  // ----------------------------------------------------- the step is injective

  /** What the generators add for these five top bits. */
  function Mixed(top: word): word {
    (if top & 1 != 0 then 0x3b6a57b2 else 0) ^ (if top & 2 != 0 then 0x26508e6d else 0) ^
    (if top & 4 != 0 then 0x1ea119fa else 0) ^ (if top & 8 != 0 then 0x3d4233dd else 0) ^
    (if top & 16 != 0 then 0x2a1462b3 else 0)
  }

  /** What one generator adds for its bit. */
  function Term(top: word, bit: word, generator: word): word {
    if top & bit != 0 then generator else 0
  }

  /** The same generators, gathered apart from what they are added to. */
  function Gathered(top: word, n: nat): word
    requires n <= 5
  {
    if n == 0 then 0
    else if Bit(top, n - 1) then Gathered(top, n - 1) ^ GENERATOR[n - 1]
    else Gathered(top, n - 1)
  }

  lemma AddOne(shifted: word, r: word, g: word, so: word)
    requires so == shifted ^ r
    ensures so ^ g == shifted ^ (r ^ g)
  {
  }

  lemma AddNone(shifted: word)
    ensures shifted == shifted ^ 0
  {
  }

  lemma {:induction false} RoundsAdd(shifted: word, top: word, n: nat, x: word, r: word)
    requires n <= 5 && x == Rounds(shifted, top, n) && r == Gathered(top, n)
    ensures x == shifted ^ r
  {
    if n == 0 {
      AddNone(shifted);
    } else {
      var so, added := Rounds(shifted, top, n - 1), Gathered(top, n - 1);
      RoundsAdd(shifted, top, n - 1, so, added);
      AddOne(shifted, added, GENERATOR[n - 1], so);
    }
  }

  lemma GatheredAll(top: word)
    ensures Gathered(top, ROUNDS) == Mixed(top)
  {
    var a, b, c, d, e := Gathered(top, 1), Gathered(top, 2), Gathered(top, 3), Gathered(top, 4), Gathered(top, 5);
    assert Gathered(top, 0) == 0;
    assert a == 0 ^ (if top & 1 != 0 then 0x3b6a57b2 else 0);
    assert b == a ^ (if top & 2 != 0 then 0x26508e6d else 0);
    assert c == b ^ (if top & 4 != 0 then 0x1ea119fa else 0);
    assert d == c ^ (if top & 8 != 0 then 0x3d4233dd else 0);
    assert e == d ^ (if top & 16 != 0 then 0x2a1462b3 else 0);
  }

  /** The low five bits of what is added already tell the top bits apart. */
  lemma MixedTells(t: word, u: word, r: word, s: word)
    requires t < 32 && u < 32 && r == Mixed(t) && s == Mixed(u)
    ensures r & 31 == s & 31 ==> t == u && r == s
  {
  }

  lemma TopSmall(c: word)
    ensures c >> 25 < 32
  {
  }

  /** Step with its parts named. */
  lemma StepIs(c: word, v: word, top: word, r: word)
    requires top == c >> 25 && r == Mixed(top)
    ensures Step(c, v) == ((c & 0x1ffffff) << 5) ^ v ^ r
  {
    GatheredAll(top);
    RoundsAdd(((c & 0x1ffffff) << 5) ^ v, top, ROUNDS, Step(c, v), r);
  }

  lemma SameState(c: word, d: word, v: word, r: word, s: word, p: word)
    requires p == ((c & 0x1ffffff) << 5) ^ v ^ r && p == ((d & 0x1ffffff) << 5) ^ v ^ s
    requires r & 31 == s & 31 ==> c >> 25 == d >> 25 && r == s
    ensures c == d
  {
  }

  lemma StepInjective(c: word, d: word, v: word, p: word)
    requires Step(c, v) == p && Step(d, v) == p
    ensures c == d
  {
    var t, u := c >> 25, d >> 25;
    TopSmall(c);
    TopSmall(d);
    var r, s := Mixed(t), Mixed(u);
    StepIs(c, v, t, r);
    StepIs(d, v, u, s);
    MixedTells(t, u, r, s);
    SameState(c, d, v, r, s, p);
  }

  /** Different states stay different, however much follows. */
  lemma {:induction false} StatesStayApart(c: word, d: word, values: seq<word>)
    ensures PolymodFrom(c, values) == PolymodFrom(d, values) <==> c == d
    decreases values
  {
    if values != [] {
      StatesStayApart(Step(c, values[0]), Step(d, values[0]), values[1..]);
      if Step(c, values[0]) == Step(d, values[0]) { StepInjective(c, d, values[0], Step(c, values[0])); }
    }
  }

  lemma {:induction false} PolymodConcat(chk: word, a: seq<word>, b: seq<word>)
    ensures PolymodFrom(chk, a + b) == PolymodFrom(PolymodFrom(chk, a), b)
    decreases a
  {
    if a == [] {
      assert a + b == b;
    } else {
      assert (a + b)[1..] == a[1..] + b;
      PolymodConcat(Step(chk, a[0]), a[1..], b);
    }
  }

  // ------------------------------------------------ errors within six characters

  ghost predicate FiveBits(values: seq<word>) {
    forall i :: 0 <= i < |values| ==> values[i] < 32
  }

  /** How far apart two states may be with n values to go before the sixth. */
  function Room(n: nat): word
    requires 1 <= n <= 6
  {
    if n == 6 then 1 else if n == 5 then 0x20 else if n == 4 then 0x400 else if n == 3 then 0x8000 else if n == 2 then 0x10_0000 else 0x200_0000
  }

  /** Two states agree down to the bits that n more values can still reach. */
  ghost predicate Near(c: word, d: word, n: nat)
    requires n <= 6
  {
    n > 0 ==> c ^ d < Room(n)
  }

  lemma NearItself(c: word, n: nat)
    requires n <= 6
    ensures Near(c, c, n)
  {
  }

  /** Near states reduce alike, so their difference only shifts and takes up that of
      the values; it cannot vanish. */
  lemma PartsApart(c: word, d: word, v: word, w: word, r: word, s: word, n: nat, p: word, q: word)
    requires 1 <= n <= 6 && Near(c, d, n) && v < 32 && w < 32
    requires p == ((c & 0x1ffffff) << 5) ^ v ^ r && q == ((d & 0x1ffffff) << 5) ^ w ^ s
    requires c >> 25 == d >> 25 ==> r == s
    ensures p == q ==> c == d && v == w
    ensures Near(p, q, n - 1)
  {
  }

  /** One value each: the two runs meet only if both states and values agreed. */
  lemma StepsApart(c: word, d: word, v: word, w: word, n: nat, p: word, q: word)
    requires 1 <= n <= 6 && Near(c, d, n) && v < 32 && w < 32 && p == Step(c, v) && q == Step(d, w)
    ensures p == q ==> c == d && v == w
    ensures Near(p, q, n - 1)
  {
    var t, u := c >> 25, d >> 25;
    var r, s := Mixed(t), Mixed(u);
    StepIs(c, v, t, r);
    StepIs(d, w, u, s);
    PartsApart(c, d, v, w, r, s, n, p, q);
  }

  lemma HeadsApart(c: word, d: word, x: seq<word>, y: seq<word>, p: word, q: word)
    requires 1 <= |x| == |y| <= 6 && FiveBits(x) && FiveBits(y) && Near(c, d, |x|) && (c != d || x != y)
    requires p == Step(c, x[0]) && q == Step(d, y[0])
    ensures Near(p, q, |x| - 1) && (p != q || x[1..] != y[1..])
  {
    StepsApart(c, d, x[0], y[0], |x|, p, q);
    if x[0] == y[0] && x[1..] == y[1..] { assert x == [x[0]] + x[1..] && y == [y[0]] + y[1..]; }
  }

  /** Six values or fewer never bring two different runs together. */
  lemma {:induction false} RunsStayApart(c: word, d: word, x: seq<word>, y: seq<word>)
    requires |x| == |y| <= 6 && FiveBits(x) && FiveBits(y) && Near(c, d, |x|) && (c != d || x != y)
    ensures PolymodFrom(c, x) != PolymodFrom(d, y)
    decreases x
  {
    if x != [] {
      HeadsApart(c, d, x, y, Step(c, x[0]), Step(d, y[0]));
      RunsStayApart(Step(c, x[0]), Step(d, y[0]), x[1..], y[1..]);
    }
  }

  /** Any change confined to six consecutive values changes the checksum, whatever
      surrounds it and however long. */
  lemma BurstChangesChecksum(a: seq<word>, x: seq<word>, y: seq<word>, b: seq<word>)
    requires |x| == |y| <= 6 && FiveBits(x) && FiveBits(y) && x != y
    ensures Polymod(a + x + b) != Polymod(a + y + b)
  {
    var c := Polymod(a);
    PolymodConcat(1, a + x, b);
    PolymodConcat(1, a, x);
    PolymodConcat(1, a + y, b);
    PolymodConcat(1, a, y);
    NearItself(c, |x|);
    RunsStayApart(c, c, x, y);
    StatesStayApart(PolymodFrom(c, x), PolymodFrom(c, y), b);
  }

  lemma StepFromZero(v: word)
    ensures Step(0, v) == v
  {
    StepIs(0, v, 0, 0);
  }

  /** Only the state zero is taken to 1 by the value 1. */
  lemma ZeroBeforeFinalOne(c: word)
    requires Step(c, 1) == 1
    ensures c == 0
  {
    StepFromZero(1);
    StepInjective(c, 0, 1, 1);
  }
}
