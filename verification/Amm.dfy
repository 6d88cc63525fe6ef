/** clients/markets/markets.js: the constant-product curve in exact integers. */
module Amm {
  const BPS: int := 10000

  /** BigInt division: it truncates toward zero. */
  function Quo(n: int, d: int): int
    requires d != 0
  {
    if n >= 0 then (if d > 0 then n / d else -(n / -d)) else (if d > 0 then -(-n / d) else -n / -d)
  }

  function Abs(n: int): int {
    if n < 0 then -n else n
  }

  /** The quotient without its sign is that of the operands without theirs, and a quotient
      that is not zero has the sign that they have between them. */
  lemma TruncatesTowardZero(n: int, d: int)
    requires d != 0
    ensures Abs(Quo(n, d)) * Abs(d) <= Abs(n) < (Abs(Quo(n, d)) + 1) * Abs(d)
    ensures Quo(n, d) > 0 ==> (n > 0 <==> d > 0)
    ensures Quo(n, d) < 0 ==> (n > 0 <==> d < 0)
  {
    Bounds(Abs(n), Abs(d), Abs(n) / Abs(d));
    QuoParts(n, d, Abs(n) / Abs(d));
  }

  lemma Bounds(p: nat, q: nat, r: int)
    requires q > 0 && r == p / q
    ensures r * q <= p < (r + 1) * q && r >= 0 && (p == 0 ==> r == 0)
  {
  }

  lemma QuoParts(n: int, d: int, r: int)
    requires d != 0 && r == Abs(n) / Abs(d)
    ensures Quo(n, d) == if n >= 0 <==> d > 0 then r else -r
  {
  }

  /** The part of an input that prices the trade. */
  function AfterFee(amountIn: int, feeBps: int): int {
    Quo(amountIn * (BPS - feeBps), BPS)
  }

  function SwapOut(reserveIn: int, reserveOut: int, amountIn: int, feeBps: int): int {
    if amountIn <= 0 || reserveIn <= 0 || reserveOut <= 0 then 0 else
    var after := AfterFee(amountIn, feeBps);
    if after <= 0 then 0 else Quo(reserveOut * after, reserveIn + after)
  }

  // ------------------------------------------------------- products and floors

  lemma MulMono(a: int, b: int, c: int)
    requires a <= b && c >= 0
    ensures a * c <= b * c
  {
  }

  /** q is the floor of n/d. */
  lemma FloorIs(n: int, d: int, q: int)
    requires n >= 0 && d > 0
    ensures q == Quo(n, d) <==> q * d <= n < (q + 1) * d
    ensures Quo(n, d) >= 0
  {
    var p := n / d;
    assert p * d <= n < (p + 1) * d;
    if q < p { MulMono(q + 1, p, d); }
    if q > p { MulMono(p + 1, q, d); }
  }

  /** Floors are monotone: n/d <= m/e whenever n*e <= m*d. */
  lemma FloorMono(n: int, d: int, m: int, e: int)
    requires n >= 0 && m >= 0 && d > 0 && e > 0 && n * e <= m * d
    ensures Quo(n, d) <= Quo(m, e)
  {
    var p, q := Quo(n, d), Quo(m, e);
    FloorIs(n, d, p);
    FloorIs(m, e, q);
    MulMono(p * d, n, e);
    assert p * d * e == p * e * d;
    CancelMul(p * e, m, d);
    if q + 1 <= p { MulMono(q + 1, p, e); }
  }

  lemma CancelMul(a: int, b: int, c: int)
    requires a * c <= b * c && c > 0
    ensures a <= b
  {
    if b + 1 <= a { MulMono(b + 1, a, c); }
  }

  lemma AfterFeeBounds(a: int, feeBps: int)
    requires a >= 0 && 0 <= feeBps <= BPS
    ensures 0 <= AfterFee(a, feeBps) <= a
  {
    var k := BPS - feeBps;
    MulMono(0, a, k);
    FloorIs(a * k, BPS, AfterFee(a, feeBps));
    assert a * k <= a * BPS by { MulMono(k, BPS, a); }
    if AfterFee(a, feeBps) > a { MulMono(a + 1, AfterFee(a, feeBps), BPS); }
  }

  /** Charging the fee on two parts keeps back at least as much as on their sum. */
  lemma AfterFeeSuperadditive(a: int, b: int, feeBps: int)
    requires a >= 0 && b >= 0 && 0 <= feeBps <= BPS
    ensures AfterFee(a, feeBps) + AfterFee(b, feeBps) <= AfterFee(a + b, feeBps)
  {
    var k := BPS - feeBps;
    MulMono(0, a, k);
    MulMono(0, b, k);
    assert a * k + b * k == (a + b) * k;
    var x, y, z := AfterFee(a, feeBps), AfterFee(b, feeBps), AfterFee(a + b, feeBps);
    FloorIs(a * k, BPS, x);
    FloorIs(b * k, BPS, y);
    FloorIs((a + b) * k, BPS, z);
  }

  // ----------------------------------------------------------- one swap, exact

  /** A pool and fee the chain can hold. */
  predicate Priced(reserveIn: int, reserveOut: int, amountIn: int, feeBps: int) {
    reserveIn > 0 && reserveOut > 0 && amountIn >= 0 && 0 <= feeBps <= BPS
  }

  /** x is n basis points of a, rounded down. */
  predicate BpsOf(x: int, a: int, n: int) {
    x * 10000 <= a * n < (x + 1) * 10000
  }

  lemma PricedBy(a: int, feeBps: int, x: int)
    requires a >= 0 && 0 <= feeBps <= BPS
    ensures x == AfterFee(a, feeBps) <==> BpsOf(x, a, 10000 - feeBps)
  {
    MulMono(0, a, BPS - feeBps);
    FloorIs(a * (BPS - feeBps), BPS, x);
  }

  /** The curve in exact integers. The part of the input that prices the trade is what
      the fee leaves of it, rounded down; the output is the greatest amount that leaves
      (reserveOut - out) * (reserveIn + x) at or above the product before. */
  lemma SwapOutIsFloor(rIn: int, rOut: int, a: int, feeBps: int, x: int)
    requires Priced(rIn, rOut, a, feeBps) && BpsOf(x, a, 10000 - feeBps)
    ensures var out := SwapOut(rIn, rOut, a, feeBps);
      0 <= x <= a && 0 <= out < rOut &&
      out * (rIn + x) <= rOut * x < (out + 1) * (rIn + x) &&
      (rOut - out) * (rIn + x) >= rIn * rOut > (rOut - out - 1) * (rIn + x)
  {
    PricedBy(a, feeBps, x);
    OnExactCurve(rIn, rOut, a, feeBps);
  }

  lemma OnExactCurve(rIn: int, rOut: int, a: int, feeBps: int)
    requires Priced(rIn, rOut, a, feeBps)
    ensures var out, x := SwapOut(rIn, rOut, a, feeBps), AfterFee(a, feeBps);
      0 <= x <= a && 0 <= out < rOut &&
      out * (rIn + x) <= rOut * x < (out + 1) * (rIn + x) &&
      (rOut - out) * (rIn + x) >= rIn * rOut > (rOut - out - 1) * (rIn + x)
  {
    var out, x := SwapOut(rIn, rOut, a, feeBps), AfterFee(a, feeBps);
    AfterFeeBounds(a, feeBps);
    MulMono(0, rOut, x);
    FloorIs(rOut * x, rIn + x, if a == 0 || x == 0 then 0 else out);
    MulMono(0, rOut, 1);
    OnTheCurve(rIn, rOut, x, out);
  }

  lemma OnTheCurve(rIn: int, rOut: int, x: int, out: int)
    requires rIn > 0 && rOut > 0 && x >= 0 && out >= 0
    requires out * (rIn + x) <= rOut * x < (out + 1) * (rIn + x)
    ensures out < rOut
    ensures (rOut - out) * (rIn + x) >= rIn * rOut > (rOut - out - 1) * (rIn + x)
  {
    var d := rIn + x;
    assert rOut * d == rOut * x + rIn * rOut;
    assert (rOut - out) * d == rOut * d - out * d;
    assert (rOut - out - 1) * d == rOut * d - (out + 1) * d;
    MulMono(1, rOut, rIn);
    if rOut <= out { MulMono(rOut, out, d); }
  }

  /** The algebraically equivalent subtraction form is the ceiling of the curve: it
      pays one unit more exactly when the division is inexact. */
  lemma SubtractionFormIsCeiling(rIn: int, rOut: int, a: int, feeBps: int, x: int)
    requires Priced(rIn, rOut, a, feeBps) && BpsOf(x, a, 10000 - feeBps)
    ensures rIn + x > 0 &&
      rOut - Quo(rIn * rOut, rIn + x) ==
        SwapOut(rIn, rOut, a, feeBps) + if rOut * x % (rIn + x) == 0 then 0 else 1
  {
    var out := SwapOut(rIn, rOut, a, feeBps);
    SwapOutIsFloor(rIn, rOut, a, feeBps, x);
    var d := rIn + x;
    MulMono(0, rIn, rOut);
    Remainder(rOut * x, d, out);
    if rOut * x % d == 0 {
      assert (rOut - out) * d == rIn * rOut;
      assert (rOut - out + 1) * d == (rOut - out) * d + d;
      FloorIs(rIn * rOut, d, rOut - out);
    } else {
      FloorIs(rIn * rOut, d, rOut - out - 1);
    }
  }

  lemma Remainder(n: int, d: int, q: int)
    requires n >= 0 && d > 0 && q * d <= n < (q + 1) * d
    ensures n % d == n - q * d
  {
    FloorIs(n, d, q);
    assert n / d == q;
    assert n == n / d * d + n % d;
  }

  /** A larger input never fetches less. */
  lemma SwapOutMonotone(rIn: int, rOut: int, a: int, b: int, feeBps: int)
    requires Priced(rIn, rOut, a, feeBps) && a <= b
    ensures SwapOut(rIn, rOut, a, feeBps) <= SwapOut(rIn, rOut, b, feeBps)
  {
    var x, y := AfterFee(a, feeBps), AfterFee(b, feeBps);
    AfterFeeSuperadditive(a, b - a, feeBps);
    AfterFeeBounds(b - a, feeBps);
    AfterFeeBounds(a, feeBps);
    OnExactCurve(rIn, rOut, a, feeBps);
    OnExactCurve(rIn, rOut, b, feeBps);
    CurveMono(rIn, rOut, x, y);
  }

  lemma CurveMono(rIn: int, rOut: int, x: int, y: int)
    requires rIn > 0 && rOut > 0 && 0 <= x <= y
    ensures Quo(rOut * x, rIn + x) <= Quo(rOut * y, rIn + y)
  {
    MulMono(0, rOut, x);
    MulMono(0, rOut, y);
    assert rOut * y * (rIn + x) - rOut * x * (rIn + y) == rOut * rIn * (y - x);
    MulMono(0, rOut, rIn);
    MulMono(0, rOut * rIn, y - x);
    FloorMono(rOut * x, rIn + x, rOut * y, rIn + y);
  }

  // ---------------------------------------------------------- splitting a trade

  /** What a list of inputs fetches one after another through the moving reserves.
      The whole input joins the reserve, its fee included. */
  function SplitOut(rIn: int, rOut: int, parts: seq<nat>, feeBps: int): int
    decreases parts
  {
    if parts == [] then 0 else
    var out := SwapOut(rIn, rOut, parts[0], feeBps);
    out + SplitOut(rIn + parts[0], rOut - out, parts[1..], feeBps)
  }

  function Sum(parts: seq<nat>): (sum: nat)
    ensures sum == 0 <==> forall i :: 0 <= i < |parts| ==> parts[i] == 0
  {
    if parts == [] then 0 else parts[0] + Sum(parts[1..])
  }

  /** Nothing greater than the exact floor fits under the curve. */
  lemma FloorIsMaximal(rIn: int, rOut: int, a: int, feeBps: int, t: int)
    requires Priced(rIn, rOut, a, feeBps)
    requires (rOut - t) * (rIn + AfterFee(a, feeBps)) >= rIn * rOut
    ensures t <= SwapOut(rIn, rOut, a, feeBps)
  {
    var out, x := SwapOut(rIn, rOut, a, feeBps), AfterFee(a, feeBps);
    OnExactCurve(rIn, rOut, a, feeBps);
    if out + 1 <= t { MulMono(rOut - t, rOut - out - 1, rIn + x); }
  }

  /** Two steps along the curve stay above the curve of the first: r, s are the
      reserves, s1 and s2 the output reserve after each step, grown the input
      reserve the second step starts from. */
  lemma TwoStepsOnCurve(r: int, s: int, s1: int, s2: int, grown: int, x: int, y: int, z: int)
    requires r > 0 && 0 <= s2 <= s1 && x >= 0 && y >= 0 && z >= x + y && grown >= r + x
    requires s1 * (r + x) >= r * s && s2 * (grown + y) >= grown * s1
    ensures s2 * (r + z) >= r * s
  {
    var spare := grown - (r + x);
    assert s2 * (grown + y) == s2 * (r + x + y) + s2 * spare;
    assert grown * s1 == s1 * (r + x) + s1 * spare;
    MulMono(s2, s1, spare);
    assert s2 * (r + x + y) >= s1 * (r + x);
    MulMono(r + x + y, r + z, s2);
  }

  lemma SplitInTwo(rIn: int, rOut: int, a: nat, b: nat, feeBps: int)
    requires rIn > 0 && rOut > 0 && 0 <= feeBps <= BPS
    ensures var out := SwapOut(rIn, rOut, a, feeBps);
      out < rOut && out + SwapOut(rIn + a, rOut - out, b, feeBps) <= SwapOut(rIn, rOut, a + b, feeBps)
  {
    var first := SwapOut(rIn, rOut, a, feeBps);
    OnExactCurve(rIn, rOut, a, feeBps);
    var second := SwapOut(rIn + a, rOut - first, b, feeBps);
    OnExactCurve(rIn + a, rOut - first, b, feeBps);
    AfterFeeSuperadditive(a, b, feeBps);
    TwoStepsOnCurve(rIn, rOut, rOut - first, rOut - first - second, rIn + a,
                    AfterFee(a, feeBps), AfterFee(b, feeBps), AfterFee(a + b, feeBps));
    FloorIsMaximal(rIn, rOut, a + b, feeBps, first + second);
  }

  /** Splitting a trade never pays more, for a pool with something on both sides. */
  lemma {:induction false} SplittingNeverPays(rIn: int, rOut: int, parts: seq<nat>, feeBps: int)
    requires rIn > 0 && rOut > 0 && 0 <= feeBps <= BPS
    ensures SplitOut(rIn, rOut, parts, feeBps) <= SwapOut(rIn, rOut, Sum(parts), feeBps)
    decreases parts
  {
    if parts == [] { return; }
    SplitInTwo(rIn, rOut, parts[0], Sum(parts[1..]), feeBps);
    SplittingNeverPays(rIn + parts[0], rOut - SwapOut(rIn, rOut, parts[0], feeBps), parts[1..], feeBps);
  }

  /** A pool that can never pay anything: an output reserve of at most one, or a
      fee that takes everything. */
  lemma {:induction false} NeverPays(rIn: int, rOut: int, parts: seq<nat>, feeBps: int)
    requires 0 <= feeBps <= BPS && (rOut <= 1 || feeBps == BPS)
    ensures SplitOut(rIn, rOut, parts, feeBps) == 0
    decreases parts
  {
    if parts == [] { return; }
    if Priced(rIn, rOut, parts[0], feeBps) { OnExactCurve(rIn, rOut, parts[0], feeBps); }
    NeverPays(rIn + parts[0], rOut, parts[1..], feeBps);
  }

  ghost predicate SplitIsNoBetter(rIn: int, rOut: int, parts: seq<nat>, feeBps: int) {
    SplitOut(rIn, rOut, parts, feeBps) <= SwapOut(rIn, rOut, Sum(parts), feeBps)
  }

  /** For arbitrary reserves the claim fails on an empty input side: a first part
      that is paid nothing fills it, and the second is then paid. It holds of
      every list of inputs exactly outside that case. */
  lemma SplittingExactly(rIn: int, rOut: int, feeBps: int)
    requires 0 <= feeBps <= BPS
    ensures (forall parts: seq<nat> :: SplitIsNoBetter(rIn, rOut, parts, feeBps))
      <==> rIn > 0 || rOut <= 1 || feeBps == BPS
  {
    if rIn > 0 || rOut <= 1 || feeBps == BPS {
      forall parts: seq<nat> ensures SplitIsNoBetter(rIn, rOut, parts, feeBps) {
        if rIn > 0 && rOut > 0 {
          SplittingNeverPays(rIn, rOut, parts, feeBps);
        } else {
          if rOut > 1 || feeBps == BPS { assert feeBps == BPS; }
          NeverPays(rIn, rOut, parts, feeBps);
        }
      }
    } else {
      FillThenTrade(rIn, rOut, feeBps);
    }
  }

  lemma FillThenTrade(rIn: int, rOut: int, feeBps: int)
    requires 0 <= feeBps < BPS && rIn <= 0 && rOut >= 2
    ensures !SplitIsNoBetter(rIn, rOut, [1 - rIn, BPS], feeBps)
  {
    var parts: seq<nat> := [1 - rIn, BPS];
    var y := BPS - feeBps;
    assert parts[1..] == [BPS] && parts[1..][1..] == [];
    FloorIs(BPS * y, BPS, y);
    MulMono(2, rOut, y);
    FloorIs(rOut * y, 1 + y, SwapOut(1, rOut, BPS, feeBps));
    assert SwapOut(1, rOut, BPS, feeBps) >= 1;
    assert SplitOut(1, rOut, [BPS], feeBps) == SwapOut(1, rOut, BPS, feeBps);
  }

  // ----------------------------------------------------------- runs over a pool

  /** The two reserves, and a trade in either direction at the fee then in force. */
  datatype Pool = Pool(x: int, y: int)

  datatype Trade = Trade(sellX: bool, amount: nat, feeBps: int)

  function After(p: Pool, t: Trade): Pool {
    if t.sellX then Pool(p.x + t.amount, p.y - SwapOut(p.x, p.y, t.amount, t.feeBps))
    else Pool(p.x - SwapOut(p.y, p.x, t.amount, t.feeBps), p.y + t.amount)
  }

  function Run(p: Pool, trades: seq<Trade>): Pool
    decreases trades
  {
    if trades == [] then p else Run(After(p, trades[0]), trades[1..])
  }

  predicate Fees(trades: seq<Trade>) {
    forall i :: 0 <= i < |trades| ==> 0 <= trades[i].feeBps <= BPS
  }

  lemma SwapKeepsProduct(rIn: int, rOut: int, a: nat, feeBps: int)
    requires rIn > 0 && rOut > 0 && 0 <= feeBps <= BPS
    ensures var out := SwapOut(rIn, rOut, a, feeBps);
      out < rOut && (rIn + a) * (rOut - out) >= rIn * rOut
  {
    OnExactCurve(rIn, rOut, a, feeBps);
    MulMono(rIn + AfterFee(a, feeBps), rIn + a, rOut - SwapOut(rIn, rOut, a, feeBps));
  }

  /** Both sides funded, and the product at least `floor`. */
  ghost predicate Sound(p: Pool, floor: int) {
    p.x > 0 && p.y > 0 && p.x * p.y >= floor
  }

  lemma TradeIsSound(p: Pool, t: Trade, floor: int)
    requires Sound(p, floor) && 0 <= t.feeBps <= BPS
    ensures Sound(After(p, t), floor)
  {
    if t.sellX {
      SwapKeepsProduct(p.x, p.y, t.amount, t.feeBps);
    } else {
      SwapKeepsProduct(p.y, p.x, t.amount, t.feeBps);
    }
  }

  /** Over any run of swaps in both directions neither reserve reaches zero and
      their product never falls. */
  lemma {:induction false} PoolSafety(p: Pool, trades: seq<Trade>, floor: int)
    requires Sound(p, floor) && Fees(trades)
    ensures Sound(Run(p, trades), floor)
    decreases trades
  {
    if trades == [] { return; }
    assert 0 <= trades[0].feeBps <= BPS;
    TradeIsSound(p, trades[0], floor);
    assert Fees(trades[1..]);
    PoolSafety(After(p, trades[0]), trades[1..], floor);
  }

  lemma OtherSide(x: int, y: int, x': int, y': int)
    requires x > 0 && y' > 0 && x' * y' >= x * y && x' <= x
    ensures y' >= y
  {
    MulMono(x', x, y');
    CancelMul(y, y', x);
  }

  /** No profitable round trip: a run that leaves one reserve no higher than it
      found it leaves the other no lower. */
  lemma NoProfitableRoundTrip(p: Pool, trades: seq<Trade>)
    requires p.x > 0 && p.y > 0 && Fees(trades)
    ensures Run(p, trades).x <= p.x ==> Run(p, trades).y >= p.y
    ensures Run(p, trades).y <= p.y ==> Run(p, trades).x >= p.x
  {
    PoolSafety(p, trades, p.x * p.y);
    var q := Run(p, trades);
    if q.x <= p.x { OtherSide(p.x, p.y, q.x, q.y); }
    if q.y <= p.y { OtherSide(p.y, p.x, q.y, q.x); }
  }

  /** What a run of trades gives of one side, and what it is paid of it. */
  function Given(trades: seq<Trade>, ofX: bool): nat {
    if trades == [] then 0 else (if trades[0].sellX == ofX then trades[0].amount else 0) + Given(trades[1..], ofX)
  }

  function Paid(p: Pool, trades: seq<Trade>, ofX: bool): int
    decreases trades
  {
    if trades == [] then 0 else
    var t := trades[0];
    (if t.sellX == ofX then 0
     else if ofX then SwapOut(p.y, p.x, t.amount, t.feeBps)
     else SwapOut(p.x, p.y, t.amount, t.feeBps)) + Paid(After(p, t), trades[1..], ofX)
  }

  /** Nothing is lost: what the pool has and what was paid is what it had and was given,
      on either side, fees included. */
  lemma {:induction false} Conserved(p: Pool, trades: seq<Trade>)
    ensures Run(p, trades).x + Paid(p, trades, true) == p.x + Given(trades, true)
    ensures Run(p, trades).y + Paid(p, trades, false) == p.y + Given(trades, false)
    decreases trades
  {
    if trades != [] { Conserved(After(p, trades[0]), trades[1..]); }
  }

  // ------------------------------------------------------------------- quotes

  datatype Quote = Quote(amountOut: int, feeAmount: int, minReceived: int, impactBps: int, costBps: int,
                         newReserveIn: int, newReserveOut: int)

  /** How far short of ideal an amount falls, in basis points. */
  function Shortfall(ideal: int, out: int): int {
    if ideal > 0 then Quo((ideal - out) * BPS, ideal) else 0
  }

  function SwapQuote(reserveIn: int, reserveOut: int, amountIn: int, feeBps: int, slippageBps: int): Quote {
    var out := SwapOut(reserveIn, reserveOut, amountIn, feeBps);
    var after := AfterFee(amountIn, feeBps);
    var idealOut := if reserveIn > 0 then Quo(amountIn * reserveOut, reserveIn) else 0;
    var idealAfterFee := if reserveIn > 0 then Quo(after * reserveOut, reserveIn) else 0;
    Quote(out, amountIn - after, Quo(out * (BPS - slippageBps), BPS),
          Shortfall(idealAfterFee, out), Shortfall(idealOut, out),
          reserveIn + amountIn, reserveOut - out)
  }

  /** c says how many basis points of the ideal, rounded down, an amount falls short of it;
      none where there is no ideal. */
  predicate ShortBy(c: int, ideal: int, out: int) {
    if ideal > 0 then c * ideal <= (ideal - out) * 10000 < (c + 1) * ideal else c == 0
  }

  /** q is the floor of n over d. */
  predicate FloorOf(q: int, n: int, d: int) {
    q * d <= n < (q + 1) * d
  }

  /** Every figure of a quote, in exact integers: x is what the fee leaves of the input,
      ideal and net what the input and x would fetch at the price before the trade. */
  lemma QuoteExactly(rIn: int, rOut: int, a: int, feeBps: int, slippageBps: int, x: int, ideal: int, net: int)
    requires Priced(rIn, rOut, a, feeBps) && 0 <= slippageBps <= BPS
    requires BpsOf(x, a, 10000 - feeBps) && FloorOf(ideal, a * rOut, rIn) && FloorOf(net, x * rOut, rIn)
    ensures var q := SwapQuote(rIn, rOut, a, feeBps, slippageBps);
      FloorOf(q.amountOut, rOut * x, rIn + x) && q.feeAmount == a - x &&
      BpsOf(q.minReceived, q.amountOut, 10000 - slippageBps) &&
      ShortBy(q.costBps, ideal, q.amountOut) && ShortBy(q.impactBps, net, q.amountOut) &&
      q.newReserveIn == rIn + a && q.newReserveOut == rOut - q.amountOut
  {
    var out := SwapOut(rIn, rOut, a, feeBps);
    SwapOutIsFloor(rIn, rOut, a, feeBps, x);
    PricedBy(a, feeBps, x);
    PricedBy(out, slippageBps, AfterFee(out, slippageBps));
    MulMono(0, a, rOut);
    MulMono(0, x, rOut);
    FloorIs(a * rOut, rIn, ideal);
    FloorIs(x * rOut, rIn, net);
    OutBelowIdeal(rIn, rOut, a, x, out);
    ShortfallIs(ideal, out);
    ShortfallIs(net, out);
  }

  /** A pool with nothing to sell against quotes nothing, and no shortfall from it. */
  lemma QuoteOfNothing(rIn: int, rOut: int, a: int, feeBps: int, slippageBps: int)
    requires rIn <= 0
    ensures var q := SwapQuote(rIn, rOut, a, feeBps, slippageBps);
      q.amountOut == q.minReceived == q.impactBps == q.costBps == 0 && q.newReserveOut == rOut
  {
  }

  /** The curve pays no more than the price before the trade would. */
  lemma OutBelowIdeal(rIn: int, rOut: int, a: int, x: int, out: int)
    requires rIn > 0 && rOut > 0 && 0 <= x <= a && out >= 0 && FloorOf(out, rOut * x, rIn + x)
    ensures out <= Quo(x * rOut, rIn) <= Quo(a * rOut, rIn)
  {
    MulMono(0, x, rOut);
    MulMono(x, a, rOut);
    MulMono(rIn, rIn + x, x * rOut);
    assert rOut * x == x * rOut;
    FloorMono(rOut * x, rIn + x, x * rOut, rIn);
    MulMono(x * rOut, a * rOut, rIn);
    FloorMono(x * rOut, rIn, a * rOut, rIn);
    FloorIs(rOut * x, rIn + x, out);
  }

  lemma ShortfallIs(ideal: int, out: int)
    requires out <= ideal
    ensures ShortBy(Shortfall(ideal, out), ideal, out)
  {
    if ideal > 0 { FloorIs((ideal - out) * BPS, ideal, Shortfall(ideal, out)); }
  }

  lemma ShortfallOrder(out: int, small: int, large: int)
    requires 0 <= out <= small <= large
    ensures 0 <= Shortfall(small, out) <= Shortfall(large, out) <= BPS
  {
    if large > 0 {
      FloorIs((large - out) * BPS, large, Shortfall(large, out));
      FloorMono((large - out) * BPS, large, BPS, 1);
    }
    if small > 0 {
      assert (small - out) * BPS * large == BPS * (small * large - out * large);
      assert (large - out) * BPS * small == BPS * (small * large - out * small);
      MulMono(small, large, out);
      FloorIs((small - out) * BPS, small, Shortfall(small, out));
      FloorMono((small - out) * BPS, small, (large - out) * BPS, large);
    }
  }

  /** Every quote, at any slippage of at most 100%, is in order. */
  lemma QuoteOrder(rIn: int, rOut: int, a: int, feeBps: int, slippageBps: int)
    requires Priced(rIn, rOut, a, feeBps) && 0 <= slippageBps <= BPS
    ensures var q := SwapQuote(rIn, rOut, a, feeBps, slippageBps);
      0 <= q.minReceived <= q.amountOut < rOut &&
      0 <= q.impactBps <= q.costBps <= BPS &&
      0 <= q.feeAmount <= a && q.newReserveIn * q.newReserveOut >= rIn * rOut
  {
    var out, x := SwapOut(rIn, rOut, a, feeBps), AfterFee(a, feeBps);
    OnExactCurve(rIn, rOut, a, feeBps);
    SwapKeepsProduct(rIn, rOut, a, feeBps);
    AfterFeeBounds(out, slippageBps);
    // The marginal price is no worse than the curve, and no better before the fee.
    OutBelowIdeal(rIn, rOut, a, x, out);
    ShortfallOrder(out, Quo(x * rOut, rIn), Quo(a * rOut, rIn));
  }
}
