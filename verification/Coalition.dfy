/** The fewest members who can reach a bar between them, found by taking the
    largest first: fewestSigners in clients/foundation/foundation.js and
    seizureCoalition in clients/oversight/oversight.js. */
module Coalition {
  import opened Basics

  // ----------------------------------------------------------------- coalitions

  function Sum(ws: seq<int>): int {
    if ws == [] then 0 else ws[0] + Sum(ws[1..])
  }

  /** The weight of the members marked by `chosen`. */
  function Weight(ws: seq<int>, chosen: seq<bool>): int
    requires |ws| == |chosen|
  {
    if ws == [] then 0 else (if chosen[0] then ws[0] else 0) + Weight(ws[1..], chosen[1..])
  }

  function Size(chosen: seq<bool>): nat {
    if chosen == [] then 0 else (if chosen[0] then 1 else 0) + Size(chosen[1..])
  }

  /** Some coalition of k members reaches the bar. */
  ghost predicate Reachable(ws: seq<int>, bar: int, k: nat) {
    exists chosen: seq<bool> :: |chosen| == |ws| && Size(chosen) == k && Weight(ws, chosen) >= bar
  }

  /** k is the least size of any coalition that reaches the bar. */
  ghost predicate IsLeast(ws: seq<int>, bar: int, k: nat) {
    Reachable(ws, bar, k) && forall j: nat :: j < k ==> !Reachable(ws, bar, j)
  }

  // -------------------------------------------------------------------- sorting

  predicate Descending(ws: seq<int>) {
    forall i, j :: 0 <= i < j < |ws| ==> ws[i] >= ws[j]
  }

  /** Where x goes in a descending sequence. */
  function Place(x: int, ws: seq<int>): (p: nat)
    ensures p <= |ws|
    ensures forall i :: 0 <= i < p ==> ws[i] > x
    ensures p < |ws| ==> ws[p] <= x
  {
    if ws == [] || ws[0] <= x then 0 else 1 + Place(x, ws[1..])
  }

  function InsertAt<T>(s: seq<T>, p: nat, x: T): seq<T>
    requires p <= |s|
  {
    s[..p] + [x] + s[p..]
  }

  /** `.filter((p) => p > 0).sort((a, b) => b - a)`. */
  function SortedPositive(ws: seq<int>): (r: seq<int>)
    ensures Descending(r) && forall i :: 0 <= i < |r| ==> r[i] > 0
    ensures |r| <= |ws|
  {
    if ws == [] then []
    else
      var rest := SortedPositive(ws[1..]);
      if ws[0] > 0 then InsertAt(rest, Place(ws[0], rest), ws[0]) else rest
  }

  lemma {:induction false} WeightConcat(a: seq<int>, b: seq<int>, x: seq<bool>, y: seq<bool>)
    requires |a| == |x| && |b| == |y|
    ensures Weight(a + b, x + y) == Weight(a, x) + Weight(b, y)
    ensures Size(x + y) == Size(x) + Size(y)
  {
    if a == [] {
      assert a + b == b && x + y == y;
    } else {
      assert (a + b)[1..] == a[1..] + b && (x + y)[1..] == x[1..] + y;
      WeightConcat(a[1..], b, x[1..], y);
    }
  }

  lemma WeightOfOne(w: int, b: bool)
    ensures Weight([w], [b]) == (if b then w else 0) && Size([b]) == if b then 1 else 0
  {
    assert [w][1..] == [] && [b][1..] == [];
  }

  lemma WeightInsert(ws: seq<int>, chosen: seq<bool>, p: nat, w: int, b: bool)
    requires |ws| == |chosen| && p <= |ws|
    ensures Weight(InsertAt(ws, p, w), InsertAt(chosen, p, b)) == Weight(ws, chosen) + if b then w else 0
    ensures Size(InsertAt(chosen, p, b)) == Size(chosen) + if b then 1 else 0
  {
    hide Weight, Size;
    WeightConcat(ws[..p] + [w], ws[p..], chosen[..p] + [b], chosen[p..]);
    WeightConcat(ws[..p], [w], chosen[..p], [b]);
    WeightConcat(ws[..p], ws[p..], chosen[..p], chosen[p..]);
    assert ws[..p] + ws[p..] == ws && chosen[..p] + chosen[p..] == chosen;
    WeightOfOne(w, b);
  }

  /** A coalition loses nothing by dropping members without weight: it becomes one
      of the sorted list, no larger and no lighter. */
  lemma {:induction false} ToSorted(ws: seq<int>, chosen: seq<bool>) returns (marked: seq<bool>)
    requires |ws| == |chosen|
    ensures |marked| == |SortedPositive(ws)|
    ensures Weight(SortedPositive(ws), marked) >= Weight(ws, chosen) && Size(marked) <= Size(chosen)
  {
    if ws == [] { return []; }
    marked := ToSorted(ws[1..], chosen[1..]);
    if ws[0] > 0 {
      var rest := SortedPositive(ws[1..]);
      var p := Place(ws[0], rest);
      WeightInsert(rest, marked, p, ws[0], chosen[0]);
      marked := InsertAt(marked, p, chosen[0]);
    }
  }

  /** And every coalition of the sorted list is one of the members. */
  lemma {:induction false} FromSorted(ws: seq<int>, marked: seq<bool>) returns (chosen: seq<bool>)
    requires |marked| == |SortedPositive(ws)|
    ensures |chosen| == |ws|
    ensures Weight(ws, chosen) == Weight(SortedPositive(ws), marked) && Size(chosen) == Size(marked)
  {
    if ws == [] { return []; }
    if ws[0] <= 0 {
      var tail := FromSorted(ws[1..], marked);
      chosen := [false] + tail;
    } else {
      var rest := SortedPositive(ws[1..]);
      var p := Place(ws[0], rest);
      var others := marked[..p] + marked[p + 1..];
      var tail := FromSorted(ws[1..], others);
      WeightInsert(rest, others, p, ws[0], marked[p]);
      assert InsertAt(others, p, marked[p]) == marked;
      chosen := [marked[p]] + tail;
    }
  }

  // ------------------------------------------------------ the largest dominate

  /** The k largest weights dominate every coalition of k members. */
  lemma {:induction false} LargestDominate(ws: seq<int>, chosen: seq<bool>)
    requires Descending(ws) && |ws| == |chosen|
    ensures Size(chosen) <= |ws| && Weight(ws, chosen) <= Sum(ws[..Size(chosen)])
  {
    if ws == [] { return; }
    var tail, k := ws[1..], Size(chosen[1..]);
    LargestDominate(tail, chosen[1..]);
    if chosen[0] {
      assert ws[..k + 1][1..] == tail[..k];
    } else {
      ShiftDown(ws, k);
    }
  }

  lemma {:induction false} ShiftDown(ws: seq<int>, k: nat)
    requires Descending(ws) && k < |ws|
    ensures Sum(ws[1..][..k]) <= Sum(ws[..k])
  {
    if k > 0 {
      assert ws[1..][..k][1..] == ws[1..][1..][..k - 1];
      assert ws[..k][1..] == ws[1..][..k - 1];
      ShiftDown(ws[1..], k - 1);
    }
  }

  /** The first k of a list. */
  function Prefix(n: nat, k: nat): (marked: seq<bool>)
    requires k <= n
    ensures |marked| == n
  {
    seq(n, i => i < k)
  }

  lemma {:induction false} PrefixWeight(ws: seq<int>, k: nat)
    requires k <= |ws|
    ensures Weight(ws, Prefix(|ws|, k)) == Sum(ws[..k]) && Size(Prefix(|ws|, k)) == k
  {
    if ws != [] {
      PrefixWeight(ws[1..], if k > 0 then k - 1 else 0);
      assert Prefix(|ws|, k)[1..] == Prefix(|ws| - 1, if k > 0 then k - 1 else 0);
      if k > 0 { assert ws[..k][1..] == ws[1..][..k - 1]; }
    }
  }

  /** Between a coalition and the first members of the sorted list. */
  lemma ReachableByPrefix(ws: seq<int>, bar: int, k: nat)
    ensures Reachable(ws, bar, k) ==> exists j: nat :: j <= k && j <= |SortedPositive(ws)| && Sum(SortedPositive(ws)[..j]) >= bar
    ensures k <= |SortedPositive(ws)| && Sum(SortedPositive(ws)[..k]) >= bar ==> Reachable(ws, bar, k)
  {
    var sorted := SortedPositive(ws);
    if Reachable(ws, bar, k) {
      var chosen: seq<bool> :| |chosen| == |ws| && Size(chosen) == k && Weight(ws, chosen) >= bar;
      var marked := ToSorted(ws, chosen);
      LargestDominate(sorted, marked);
    }
    if k <= |sorted| && Sum(sorted[..k]) >= bar {
      PrefixWeight(sorted, k);
      var chosen := FromSorted(ws, Prefix(|sorted|, k));
    }
  }

  lemma {:induction false} PrefixesGrow(ws: seq<int>, j: nat, k: nat)
    requires (forall i :: 0 <= i < |ws| ==> ws[i] > 0) && j <= k <= |ws|
    ensures Sum(ws[..j]) <= Sum(ws[..k])
  {
    if j < k {
      PrefixesGrow(ws, j, k - 1);
      SumStep(ws, k - 1);
    }
  }

  /** The most that k members, or as many as have weight, can bring together. */
  function MostOf(ws: seq<int>, k: nat): int {
    var sorted := SortedPositive(ws);
    Sum(sorted[..if k <= |sorted| then k else |sorted|])
  }

  /** Some coalition of at most k members reaches the bar exactly when the k largest
      positive weights, or all there are, do. */
  lemma ReachableExactly(ws: seq<int>, bar: int, k: nat)
    ensures (exists j: nat :: j <= k && Reachable(ws, bar, j)) <==> MostOf(ws, k) >= bar
  {
    var sorted := SortedPositive(ws);
    var most := if k <= |sorted| then k else |sorted|;
    ReachableByPrefix(ws, bar, most);
    forall j: nat | j <= k && Reachable(ws, bar, j) ensures MostOf(ws, k) >= bar {
      ReachableByPrefix(ws, bar, j);
      var i: nat :| i <= j && i <= |sorted| && Sum(sorted[..i]) >= bar;
      PrefixesGrow(sorted, i, most);
    }
  }

  // --------------------------------------------------------------- the greedy loop

  lemma SumStep(ws: seq<int>, i: nat)
    requires i < |ws|
    ensures Sum(ws[..i + 1]) == Sum(ws[..i]) + ws[i]
  {
    SumConcat(ws[..i], [ws[i]]);
    assert ws[..i] + [ws[i]] == ws[..i + 1];
    assert [ws[i]][1..] == [];
  }

  lemma {:induction false} SumConcat(a: seq<int>, b: seq<int>)
    ensures Sum(a + b) == Sum(a) + Sum(b)
  {
    if a == [] {
      assert a + b == b;
    } else {
      assert (a + b)[1..] == a[1..] + b;
      SumConcat(a[1..], b);
    }
  }

  /** The first prefix of the sorted list that reaches the bar is the least coalition. */
  lemma FirstPrefixIsLeast(ws: seq<int>, bar: int, k: nat)
    requires k <= |SortedPositive(ws)| && Sum(SortedPositive(ws)[..k]) >= bar
    requires forall j: nat :: j < k ==> Sum(SortedPositive(ws)[..j]) < bar
    ensures IsLeast(ws, bar, k)
  {
    forall j: nat ensures Reachable(ws, bar, j) ==> j >= k { ReachableByPrefix(ws, bar, j); }
    ReachableByPrefix(ws, bar, k);
  }

  lemma NoPrefixReaches(ws: seq<int>, bar: int)
    requires forall j: nat :: j <= |SortedPositive(ws)| ==> Sum(SortedPositive(ws)[..j]) < bar
    ensures forall j: nat :: !Reachable(ws, bar, j)
  {
    forall j: nat ensures !Reachable(ws, bar, j) { ReachableByPrefix(ws, bar, j); }
  }

  /** A weight that could not be read counts for nothing. */
  function Usable(weights: seq<Option<int>>): (ws: seq<int>)
    ensures |ws| == |weights|
    ensures forall i :: 0 <= i < |weights| ==> Some(ws[i]) == if weights[i].None? then Some(0) else weights[i]
  {
    seq(|weights|, i requires 0 <= i < |weights| => if weights[i].Some? then weights[i].value else 0)
  }

  /** `fewestSigners`: the least number of members whose weights reach the
      threshold, and null exactly when the threshold is not positive or no set of
      members reaches it. */
  method FewestSigners(weights: seq<Option<int>>, threshold: Option<int>) returns (signatures: Option<nat>)
    ensures signatures.Some? ==> threshold.Some? && threshold.value > 0 && IsLeast(Usable(weights), threshold.value, signatures.value)
    ensures signatures.None? ==> threshold.None? || threshold.value <= 0 || forall k: nat :: !Reachable(Usable(weights), threshold.value, k)
  {
    if threshold.None? || threshold.value <= 0 { return None; }
    var bar := threshold.value;
    var sorted := SortedPositive(Usable(weights));
    var total := 0;
    for i := 0 to |sorted|
      invariant total == Sum(sorted[..i])
      invariant forall j: nat :: j <= i ==> Sum(sorted[..j]) < bar
    {
      SumStep(sorted, i);
      total := total + sorted[i];
      if total >= bar {
        FirstPrefixIsLeast(Usable(weights), bar, i + 1);
        return Some(i + 1);
      }
    }
    NoPrefixReaches(Usable(weights), bar);
    return None;
  }

  // ---------------------------------------------------------------- seizing

  /** `required * 10000 !== numerator ? required + 1 : required`. */
  function RoundedUp(numerator: int, required: int): int {
    if required * 10000 != numerator then required + 1 else required
  }

  /** The power a case needs: the ceiling of total * bps / 10000. */
  function RequiredPower(total: int, bps: int): int {
    if total <= 0 then 0 else RoundedUp(total * bps, total * bps / 10000)
  }

  /** The coalition of everyone with any weight. */
  function Weighty(ws: seq<int>): (marks: seq<bool>)
    ensures |marks| == |ws|
  {
    seq(|ws|, i requires 0 <= i < |ws| => ws[i] > 0)
  }

  lemma {:induction false} SortedSum(ws: seq<int>)
    ensures |SortedPositive(ws)| == Size(Weighty(ws)) && Sum(SortedPositive(ws)) == Weight(ws, Weighty(ws))
  {
    if ws != [] {
      SortedSum(ws[1..]);
      assert Weighty(ws)[1..] == Weighty(ws[1..]);
      if ws[0] > 0 { SumInsert(SortedPositive(ws[1..]), Place(ws[0], SortedPositive(ws[1..])), ws[0]); }
    }
  }

  lemma SumInsert(ws: seq<int>, p: nat, w: int)
    requires p <= |ws|
    ensures Sum(InsertAt(ws, p, w)) == w + Sum(ws)
  {
    SumConcat(ws[..p] + [w], ws[p..]);
    SumConcat(ws[..p], [w]);
    SumConcat(ws[..p], ws[p..]);
    assert ws[..p] + ws[p..] == ws && [w][1..] == [];
  }

  datatype Seizure = Seizure(validators: nat, total: int, required: int, minimumToSeize: Option<nat>, largestAlone: bool)

  /** `seizureCoalition`: the fewest validators that could take, and whether the
      largest could do it alone. */
  method SeizureCoalition(powers: seq<int>, bps: int) returns (r: Seizure)
    ensures r.validators == Size(Weighty(powers)) && r.total == Weight(powers, Weighty(powers)) && r.required == RequiredPower(r.total, bps)
    ensures r.minimumToSeize.Some? ==> r.required > 0 && IsLeast(powers, r.required, r.minimumToSeize.value)
    ensures r.minimumToSeize.None? ==> r.required <= 0 || forall k: nat :: !Reachable(powers, r.required, k)
    ensures r.largestAlone <==> r.minimumToSeize == Some(1)
  {
    hide Reachable, SortedPositive, RequiredPower, Weighty;
    var sorted := SortedPositive(powers);
    var total := 0;
    for i := 0 to |sorted|
      invariant total == Sum(sorted[..i])
    {
      SumStep(sorted, i);
      total := total + sorted[i];
    }
    assert sorted[..|sorted|] == sorted;
    var required := RequiredPower(total, bps);
    var running, count := 0, 0;
    while count < |sorted| && running < required
      invariant 0 <= count <= |sorted| && running == Sum(sorted[..count])
      invariant forall j: nat :: j < count ==> Sum(sorted[..j]) < required
    {
      SumStep(sorted, count);
      running := running + sorted[count];
      count := count + 1;
    }
    var achievable := running >= required && required > 0;
    if achievable {
      FirstPrefixIsLeast(powers, required, count);
    } else if required > 0 {
      NoPrefixReaches(powers, required);
    }
    if |sorted| > 0 { SumStep(sorted, 0); }
    SortedSum(powers);
    r := Seizure(|sorted|, total, required, if achievable then Some(count) else None,
                 achievable && |sorted| > 0 && sorted[0] >= required);
  }
}
