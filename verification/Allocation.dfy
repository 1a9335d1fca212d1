/** Largest-remainder allocation of `crates/money`: a declarative specification, what it
    implies (exactness, fairness, optimality, uniqueness), and the imperative code proved
    against it. */
module Allocation {
  import opened Common
  import opened Money

  function Sum(s: seq<int>): int {
    if s == [] then 0 else Sum(s[..|s| - 1]) + s[|s| - 1]
  }

  /** The exact share total * weight / sum(weights), as a quotient and a remainder. */
  datatype Share = Share(floor: int, rem: int)

  function Shares(total: nat, sumW: nat, weights: seq<U64>): (shares: seq<Share>)
    requires sumW > 0
    ensures |shares| == |weights|
  {
    if weights == [] then [] else
      var n := |weights| - 1;
      Shares(total, sumW, weights[..n]) + [Share(total * weights[n] / sumW, total * weights[n] % sumW)]
  }

  /** An entry of the list that the code sorts. */
  datatype Remainder = Remainder(index: nat, rem: int)

  /** The comparator of the sort: larger remainder first, lower index first on a tie. */
  predicate Before(a: Remainder, b: Remainder) {
    a.rem > b.rem || (a.rem == b.rem && a.index < b.index)
  }

  /** Share i comes before share j in the order in which extra units are handed out. */
  predicate Precedes(shares: seq<Share>, i: nat, j: nat)
    requires i < |shares| && j < |shares|
  {
    Before(Remainder(i, shares[i].rem), Remainder(j, shares[j].rem))
  }

  /** Every part is its floor or one more, and every share with an extra unit precedes every
      share without one. */
  ghost predicate TopsUp(shares: seq<Share>, parts: seq<int>) {
    && |parts| == |shares|
    && (forall i :: 0 <= i < |parts| ==> parts[i] == shares[i].floor || parts[i] == shares[i].floor + 1)
    && (forall i, j | 0 <= i < |parts| && 0 <= j < |parts|
          && parts[i] == shares[i].floor + 1 && parts[j] == shares[j].floor :: Precedes(shares, i, j))
  }

  /** What an allocation of `total` is, without sorting anything. */
  ghost predicate LargestRemainder(total: nat, weights: seq<U64>, parts: seq<int>) {
    && Sum(weights) > 0
    && TopsUp(Shares(total, Sum(weights), weights), parts)
    && Sum(parts) == total
  }

  // Sums

  lemma {:induction false} SumAppend(s: seq<int>, x: int)
    ensures Sum(s + [x]) == Sum(s) + x
  {
  }

  lemma {:induction false} SumUpdate(s: seq<int>, i: nat, x: int)
    requires i < |s|
    ensures Sum(s[i := x]) == Sum(s) - s[i] + x
  {
    var n := |s| - 1;
    if i == n {
      assert s[i := x][..n] == s[..n];
    } else {
      SumUpdate(s[..n], i, x);
      assert s[i := x][..n] == s[..n][i := x];
    }
  }

  lemma {:induction false} SumPointwise(a: seq<int>, b: seq<int>)
    requires |a| == |b| && forall i :: 0 <= i < |a| ==> a[i] <= b[i]
    ensures Sum(a) <= Sum(b)
    ensures Sum(a) == Sum(b) ==> a == b
  {
    if a != [] {
      var n := |a| - 1;
      SumPointwise(a[..n], b[..n]);
      if Sum(a) == Sum(b) {
        assert a == a[..n] + [a[n]] && b == b[..n] + [b[n]];
      }
    }
  }

  lemma {:induction false} SumNonNegative(s: seq<int>)
    requires forall i :: 0 <= i < |s| ==> s[i] >= 0
    ensures Sum(s) >= 0
    ensures forall i :: 0 <= i < |s| ==> s[i] <= Sum(s)
  {
    if s != [] {
      var n := |s| - 1;
      SumNonNegative(s[..n]);
      assert forall i :: 0 <= i < n ==> s[i] == s[..n][i];
    }
  }

  lemma {:induction false} SumPair(s: seq<int>, i: nat, j: nat)
    requires i < |s| && j < |s| && i != j
    requires forall k :: 0 <= k < |s| ==> s[k] >= 0
    ensures s[i] + s[j] <= Sum(s)
  {
    SumUpdate(s, i, 0);
    SumNonNegative(s[i := 0]);
    assert s[i := 0][j] == s[j];
  }

  // Exact shares

  lemma {:induction false} DivMod(n: nat, d: nat)
    requires d > 0
    ensures n / d * d + n % d == n && 0 <= n % d < d && n / d >= 0
  {
  }

  lemma {:induction false} ShareValue(total: nat, sumW: nat, weights: seq<U64>, i: nat)
    requires sumW > 0 && i < |weights|
    ensures Shares(total, sumW, weights)[i] == Share(total * weights[i] / sumW, total * weights[i] % sumW)
  {
    var n := |weights| - 1;
    if i < n {
      ShareValue(total, sumW, weights[..n], i);
    }
  }

  lemma {:induction false} ExactShare(total: nat, sumW: nat, weights: seq<U64>, i: nat)
    requires sumW > 0 && i < |weights|
    ensures var s := Shares(total, sumW, weights)[i];
            s.floor * sumW + s.rem == total * weights[i] && 0 <= s.rem < sumW && s.floor >= 0
  {
    ShareValue(total, sumW, weights, i);
    MulMonotone(0, weights[i], total);
    DivMod(total * weights[i], sumW);
  }

  /** How far each part is from its exact share, in units of 1/sum(weights). */
  function Errors(total: int, sumW: int, weights: seq<U64>, parts: seq<int>): (errors: seq<int>)
    requires |parts| == |weights|
    ensures |errors| == |parts|
  {
    if parts == [] then [] else
      var n := |parts| - 1;
      Errors(total, sumW, weights[..n], parts[..n]) + [parts[n] * sumW - total * weights[n]]
  }

  lemma {:induction false} ErrorValue(total: int, sumW: int, weights: seq<U64>, parts: seq<int>, i: nat)
    requires i < |parts| == |weights|
    ensures Errors(total, sumW, weights, parts)[i] == parts[i] * sumW - total * weights[i]
  {
    var n := |parts| - 1;
    if i < n {
      ErrorValue(total, sumW, weights[..n], parts[..n], i);
    }
  }

  lemma {:induction false} ErrorsSum(total: int, sumW: int, weights: seq<U64>, parts: seq<int>)
    requires |parts| == |weights|
    ensures Sum(Errors(total, sumW, weights, parts)) == Sum(parts) * sumW - total * Sum(weights)
  {
    if parts != [] {
      var n := |parts| - 1;
      var before := Errors(total, sumW, weights[..n], parts[..n]);
      ErrorsSum(total, sumW, weights[..n], parts[..n]);
      SumAppend(before, parts[n] * sumW - total * weights[n]);
      ErrorsAdd(Sum(parts[..n]), parts[n], sumW, Sum(weights[..n]), weights[n], total);
    }
  }

  lemma {:induction false} ErrorsAdd(p: int, x: int, sumW: int, w: int, y: int, total: int)
    ensures (p * sumW - total * w) + (x * sumW - total * y) == (p + x) * sumW - total * (w + y)
  {
    Distributes(p, x, sumW);
    Distributes(w, y, total);
  }

  lemma {:induction false} Distributes(x: int, y: int, k: int)
    ensures (x + y) * k == x * k + y * k
  {
  }

  lemma {:induction false} ErrorOfUnits(total: nat, sumW: nat, weights: seq<U64>, parts: seq<int>, i: nat, units: int)
    requires sumW > 0 && i < |parts| == |weights|
    requires parts[i] == Shares(total, sumW, weights)[i].floor + units
    ensures Errors(total, sumW, weights, parts)[i] == units * sumW - Shares(total, sumW, weights)[i].rem
    ensures 0 <= Shares(total, sumW, weights)[i].rem < sumW
  {
    ErrorValue(total, sumW, weights, parts, i);
    ExactShare(total, sumW, weights, i);
    Distributes(Shares(total, sumW, weights)[i].floor, units, sumW);
  }

  /** If no part falls short of its exact share, the parts reach the total, and none overshoots
      when they meet it. */
  lemma {:induction false} NoPartFallsShort(total: nat, weights: seq<U64>, parts: seq<int>)
    requires Sum(weights) > 0 && |parts| == |weights|
    requires forall k :: 0 <= k < |parts| ==> Errors(total, Sum(weights), weights, parts)[k] >= 0
    ensures Sum(parts) >= total
    ensures Sum(parts) == total ==>
              forall k :: 0 <= k < |parts| ==> Errors(total, Sum(weights), weights, parts)[k] == 0
  {
    var w := Sum(weights);
    var errors := Errors(total, w, weights, parts);
    ErrorsSum(total, w, weights, parts);
    SumNonNegative(errors);
    if Sum(parts) < total {
      MulMonotone(Sum(parts) + 1, total, w);
    }
  }

  // The leftover

  function SumOfFloors(shares: seq<Share>): int {
    if shares == [] then 0 else SumOfFloors(shares[..|shares| - 1]) + shares[|shares| - 1].floor
  }

  function SumOfRems(shares: seq<Share>): int {
    if shares == [] then 0 else SumOfRems(shares[..|shares| - 1]) + shares[|shares| - 1].rem
  }

  /** The number of shares that do not divide exactly. */
  function NonZero(shares: seq<Share>): nat {
    if shares == [] then 0 else NonZero(shares[..|shares| - 1]) + if shares[|shares| - 1].rem > 0 then 1 else 0
  }

  lemma {:induction false} SharesSum(total: nat, sumW: nat, weights: seq<U64>)
    requires sumW > 0
    ensures var shares := Shares(total, sumW, weights);
            SumOfFloors(shares) * sumW + SumOfRems(shares) == total * Sum(weights)
  {
    if weights != [] {
      var n := |weights| - 1;
      var before, last := Shares(total, sumW, weights[..n]), Shares(total, sumW, weights)[n];
      SharesSum(total, sumW, weights[..n]);
      assert Shares(total, sumW, weights)[..n] == before;
      DivMod(total * weights[n], sumW);
      ShareAdds(SumOfFloors(before), SumOfRems(before), last, Sum(weights[..n]), weights[n], sumW, total);
    }
  }

  lemma {:induction false} ShareAdds(floors: int, rems: int, share: Share, w: int, weight: int, sumW: int, total: int)
    requires floors * sumW + rems == total * w && share.floor * sumW + share.rem == total * weight
    ensures (floors + share.floor) * sumW + (rems + share.rem) == total * (w + weight)
  {
    Distributes(floors, share.floor, sumW);
    Distributes(w, weight, total);
  }

  lemma {:induction false} SumOfRemsBounds(total: nat, sumW: nat, weights: seq<U64>)
    requires sumW > 0
    ensures var shares := Shares(total, sumW, weights);
            NonZero(shares) <= SumOfRems(shares) <= NonZero(shares) * (sumW - 1)
  {
    if weights != [] {
      var n := |weights| - 1;
      var before, last := Shares(total, sumW, weights[..n]), Shares(total, sumW, weights)[n];
      SumOfRemsBounds(total, sumW, weights[..n]);
      assert Shares(total, sumW, weights)[..n] == before;
      DivMod(total * weights[n], sumW);
      Distributes(NonZero(before), 1, sumW - 1);
    }
  }

  /** The leftover is strictly below the number of shares that do not divide exactly, unless all
      of them do: then nothing is left over. One pass hands it out. */
  lemma {:induction false} LeftoverBelowRemainders(total: nat, weights: seq<U64>)
    requires Sum(weights) > 0
    ensures var shares := Shares(total, Sum(weights), weights);
            var leftover := total - SumOfFloors(shares);
            if NonZero(shares) == 0 then leftover == 0 else 0 < leftover < NonZero(shares)
  {
    var w := Sum(weights);
    var shares := Shares(total, w, weights);
    SharesSum(total, w, weights);
    SumOfRemsBounds(total, w, weights);
    LeftoverBetween(total, SumOfFloors(shares), SumOfRems(shares), NonZero(shares), w);
  }

  lemma {:induction false} LeftoverBetween(total: int, floors: int, rems: int, count: nat, w: nat)
    requires w > 0 && floors * w + rems == total * w && count <= rems <= count * (w - 1)
    ensures if count == 0 then total == floors else 0 < total - floors < count
  {
    var leftover := total - floors;
    assert leftover * w == rems;
    assert count * w == count * (w - 1) + count;
    if leftover >= count {
      MulMonotone(count, leftover, w);
    } else if leftover <= 0 {
      MulMonotone(leftover, 0, w);
    }
  }

  // Fairness

  /** The extra units never reach a share whose remainder is zero. */
  lemma {:induction false} ExtraUnitNeedsRemainder(total: nat, weights: seq<U64>, parts: seq<int>, i: nat)
    requires LargestRemainder(total, weights, parts) && i < |parts|
    requires parts[i] == Shares(total, Sum(weights), weights)[i].floor + 1
    ensures Shares(total, Sum(weights), weights)[i].rem > 0
  {
    var w := Sum(weights);
    var shares := Shares(total, w, weights);
    if shares[i].rem <= 0 {
      forall k | 0 <= k < |parts|
        ensures Errors(total, w, weights, parts)[k] >= 0
      {
        ErrorOfUnits(total, w, weights, parts, k, parts[k] - shares[k].floor);
        assert parts[k] == shares[k].floor ==> Precedes(shares, i, k);
      }
      NoPartFallsShort(total, weights, parts);
      ErrorOfUnits(total, w, weights, parts, i, 1);
    }
  }

  /** Every part is within one minor unit of its exact share, and no part leaves [0, total]. */
  lemma {:induction false} WithinOneUnit(total: nat, weights: seq<U64>, parts: seq<int>, i: nat)
    requires LargestRemainder(total, weights, parts) && i < |parts|
    ensures Abs(parts[i] * Sum(weights) - total * weights[i]) < Sum(weights)
    ensures 0 <= parts[i] <= total
  {
    var w := Sum(weights);
    var shares := Shares(total, w, weights);
    forall k | 0 <= k < |parts|
      ensures parts[k] >= 0
    {
      ExactShare(total, w, weights, k);
    }
    SumNonNegative(parts);
    ErrorValue(total, w, weights, parts, i);
    ErrorOfUnits(total, w, weights, parts, i, parts[i] - shares[i].floor);
    if parts[i] == shares[i].floor + 1 {
      ExtraUnitNeedsRemainder(total, weights, parts, i);
    }
  }

  lemma {:induction false} ZeroWeightGetsZero(total: nat, weights: seq<U64>, parts: seq<int>, i: nat)
    requires LargestRemainder(total, weights, parts) && i < |parts| && weights[i] == 0
    ensures parts[i] == 0
  {
    ZeroShare(total, Sum(weights), weights, i);
    if parts[i] == Shares(total, Sum(weights), weights)[i].floor + 1 {
      ExtraUnitNeedsRemainder(total, weights, parts, i);
    }
  }

  lemma {:induction false} ZeroShare(total: nat, sumW: nat, weights: seq<U64>, i: nat)
    requires sumW > 0 && i < |weights| && weights[i] == 0
    ensures Shares(total, sumW, weights)[i] == Share(0, 0)
  {
    ShareValue(total, sumW, weights, i);
    assert 0 / sumW == 0 && 0 % sumW == 0;
  }

  /** Division is monotone; with equal quotients so are the remainders. */
  lemma {:induction false} QuotientsMonotone(f: int, r: int, g: int, s: int, d: int)
    requires 0 <= r < d && 0 <= s < d && f * d + r < g * d + s
    ensures f < g || (f == g && r < s)
  {
    if f > g {
      MulMonotone(g + 1, f, d);
    }
  }

  lemma {:induction false} MulStrict(k: int, x: int, y: int)
    requires k > 0 && x < y
    ensures k * x < k * y
  {
    assert 0 < (y - x) * k == k * y - k * x;
  }

  lemma {:induction false} LargerWeightGetsNoLess(total: nat, weights: seq<U64>, parts: seq<int>, i: nat, j: nat)
    requires LargestRemainder(total, weights, parts) && i < |parts| && j < |parts|
    requires weights[i] < weights[j]
    ensures parts[i] <= parts[j]
  {
    if total == 0 {
      WithinOneUnit(total, weights, parts, i);
      WithinOneUnit(total, weights, parts, j);
    } else {
      var shares := Shares(total, Sum(weights), weights);
      ExactShare(total, Sum(weights), weights, i);
      ExactShare(total, Sum(weights), weights, j);
      MulStrict(total, weights[i], weights[j]);
      QuotientsMonotone(shares[i].floor, shares[i].rem, shares[j].floor, shares[j].rem, Sum(weights));
      assert shares[i].floor < shares[j].floor || !Precedes(shares, i, j);
    }
  }

  lemma {:induction false} EqualWeightsFavourLowerIndex(total: nat, weights: seq<U64>, parts: seq<int>, i: nat, j: nat)
    requires LargestRemainder(total, weights, parts) && i < j < |parts| && weights[i] == weights[j]
    ensures parts[j] <= parts[i] <= parts[j] + 1
  {
    var shares := Shares(total, Sum(weights), weights);
    ShareValue(total, Sum(weights), weights, i);
    ShareValue(total, Sum(weights), weights, j);
    assert !Precedes(shares, j, i);
  }

  lemma {:induction false} TopUpsDoNotCross(shares: seq<Share>, p: seq<int>, q: seq<int>, i: nat, j: nat)
    requires TopsUp(shares, p) && TopsUp(shares, q)
    requires i < |p| && j < |p| && p[i] > q[i]
    ensures p[j] >= q[j]
  {
  }

  /** The specification leaves no freedom: two allocations of the same total are equal. */
  lemma {:induction false} AllocationUnique(total: nat, weights: seq<U64>, p: seq<int>, q: seq<int>)
    requires LargestRemainder(total, weights, p) && LargestRemainder(total, weights, q)
    ensures p == q
  {
    if i :| 0 <= i < |p| && p[i] > q[i] {
      forall j | 0 <= j < |p|
        ensures q[j] <= p[j]
      {
        TopUpsDoNotCross(Shares(total, Sum(weights), weights), p, q, i, j);
      }
      SumPointwise(q, p);
    } else {
      SumPointwise(p, q);
    }
  }

  // Optimality

  /** Total distance of the first n parts from their exact shares. */
  function Deviation(errors: seq<int>, n: nat): nat
    requires n <= |errors|
  {
    if n == 0 then 0 else Deviation(errors, n - 1) + Abs(errors[n - 1])
  }

  /** A remainder that separates the shares with an extra unit from the others. */
  lemma {:induction false} Threshold(shares: seq<Share>, parts: seq<int>, sumW: nat) returns (theta: nat)
    requires TopsUp(shares, parts) && forall s <- shares :: 0 <= s.rem < sumW
    ensures theta <= sumW
    ensures forall i :: 0 <= i < |parts| ==>
              if parts[i] == shares[i].floor then shares[i].rem <= theta else shares[i].rem >= theta
  {
    theta := 0;
    ghost var top := 0;
    for n := 0 to |parts|
      invariant theta <= sumW
      invariant forall i :: 0 <= i < n && parts[i] == shares[i].floor ==> shares[i].rem <= theta
      invariant theta == 0 || (top < n && parts[top] == shares[top].floor && theta == shares[top].rem)
    {
      assert shares[n] in shares;
      if parts[n] == shares[n].floor && shares[n].rem > theta {
        theta, top := shares[n].rem, n;
      }
    }
    forall i | 0 <= i < |parts| && parts[i] != shares[i].floor
      ensures shares[i].rem >= theta
    {
      assert shares[i] in shares;
      assert theta != 0 ==> Precedes(shares, i, top);
    }
  }

  lemma {:induction false} PriceOf(w: int, theta: int, k: int)
    ensures (w - 2 * theta) * k == k * w - 2 * (k * theta)
    ensures k * (w - theta) == k * w - k * theta
  {
  }

  /** One share: at the price W - 2*theta per unit, no number k of extra units is cheaper
      than the b the method chose. */
  lemma {:induction false} PricedUnits(w: int, r: int, theta: int, b: int, k: int)
    requires 0 <= r < w && 0 <= theta <= w
    requires (b == 0 && r <= theta) || (b == 1 && r >= theta)
    ensures Abs(b * w - r) - (w - 2 * theta) * b <= Abs(k * w - r) - (w - 2 * theta) * k
  {
    PriceOf(w, theta, k);
    PriceOf(w, theta, b);
    if k >= 1 {
      MulMonotone(1, k, w);
      MulMonotone(1, k, theta);
    } else {
      MulMonotone(k, 0, w);
      MulMonotone(k, 0, w - theta);
    }
  }

  lemma {:induction false} PricedParts(w: int, r: int, theta: int, f: int, x: int, y: int)
    requires 0 <= r < w && 0 <= theta <= w
    requires (x == f && r <= theta) || (x == f + 1 && r >= theta)
    ensures Abs((x - f) * w - r) - (w - 2 * theta) * x <= Abs((y - f) * w - r) - (w - 2 * theta) * y
  {
    PricedUnits(w, r, theta, x - f, y - f);
    Distributes(x - f, f, w - 2 * theta);
    Distributes(y - f, f, w - 2 * theta);
  }

  /** The same comparison in terms of the errors of part i of two splits. */
  lemma {:induction false} PricedShare(total: nat, sumW: nat, weights: seq<U64>, p: seq<int>, q: seq<int>, theta: int,
                                       i: nat)
    requires sumW > 0 && i < |p| == |q| == |weights| && 0 <= theta <= sumW
    requires var s := Shares(total, sumW, weights)[i];
             (p[i] == s.floor && s.rem <= theta) || (p[i] == s.floor + 1 && s.rem >= theta)
    ensures Abs(Errors(total, sumW, weights, p)[i]) - (sumW - 2 * theta) * p[i]
         <= Abs(Errors(total, sumW, weights, q)[i]) - (sumW - 2 * theta) * q[i]
  {
    var s := Shares(total, sumW, weights)[i];
    ErrorOfUnits(total, sumW, weights, p, i, p[i] - s.floor);
    ErrorOfUnits(total, sumW, weights, q, i, q[i] - s.floor);
    PricedParts(sumW, s.rem, theta, s.floor, p[i], q[i]);
  }

  /** Summed over the shares: prices turn the comparison of two splits into a comparison
      share by share. */
  lemma {:induction false} PricedSum(e: seq<int>, f: seq<int>, c: seq<int>, d: seq<int>, n: nat)
    requires n <= |e| == |f| == |c| == |d|
    requires forall i :: 0 <= i < |e| ==> Abs(e[i]) - c[i] <= Abs(f[i]) - d[i]
    ensures Deviation(e, n) - Sum(c[..n]) <= Deviation(f, n) - Sum(d[..n])
  {
    if n > 0 {
      var i := n - 1;
      PricedSum(e, f, c, d, i);
      assert c[..n] == c[..i] + [c[i]] && d[..n] == d[..i] + [d[i]];
      SumAppend(c[..i], c[i]);
      SumAppend(d[..i], d[i]);
    }
  }

  function Scaled(k: int, xs: seq<int>): (ys: seq<int>)
    ensures |ys| == |xs|
  {
    if xs == [] then [] else Scaled(k, xs[..|xs| - 1]) + [k * xs[|xs| - 1]]
  }

  lemma {:induction false} ScaledValue(k: int, xs: seq<int>, i: nat)
    requires i < |xs|
    ensures Scaled(k, xs)[i] == k * xs[i]
  {
    if i < |xs| - 1 {
      ScaledValue(k, xs[..|xs| - 1], i);
    }
  }

  lemma {:induction false} SumScaled(k: int, xs: seq<int>)
    ensures Sum(Scaled(k, xs)) == k * Sum(xs)
  {
    if xs != [] {
      var n := |xs| - 1;
      SumScaled(k, xs[..n]);
      SumAppend(Scaled(k, xs[..n]), k * xs[n]);
      Distributes(Sum(xs[..n]), xs[n], k);
    }
  }

  /** With the same total, the prices add up to the same on both sides. */
  lemma {:induction false} PricesCancel(e: seq<int>, f: seq<int>, p: seq<int>, q: seq<int>, price: int)
    requires |e| == |f| == |p| == |q| && Sum(p) == Sum(q)
    requires var c, d := Scaled(price, p), Scaled(price, q);
             forall i :: 0 <= i < |e| ==> Abs(e[i]) - c[i] <= Abs(f[i]) - d[i]
    ensures Deviation(e, |e|) <= Deviation(f, |e|)
  {
    var c, d := Scaled(price, p), Scaled(price, q);
    PricedSum(e, f, c, d, |e|);
    assert c[..|e|] == c && d[..|e|] == d;
    SumScaled(price, p);
    SumScaled(price, q);
  }

  /** PricedShare, with the prices as elements of the scaled splits. */
  lemma {:induction false} PricedElement(
      total: nat, sumW: nat, weights: seq<U64>, p: seq<int>, q: seq<int>, theta: int, price: int, i: nat)
    requires sumW > 0 && i < |p| == |q| == |weights| && 0 <= theta <= sumW && price == sumW - 2 * theta
    requires var s := Shares(total, sumW, weights)[i];
             (p[i] == s.floor && s.rem <= theta) || (p[i] == s.floor + 1 && s.rem >= theta)
    ensures Abs(Errors(total, sumW, weights, p)[i]) - Scaled(price, p)[i]
         <= Abs(Errors(total, sumW, weights, q)[i]) - Scaled(price, q)[i]
  {
    PricedShare(total, sumW, weights, p, q, theta, i);
    ScaledValue(price, p, i);
    ScaledValue(price, q, i);
  }

  lemma {:induction false} RemaindersBounded(total: nat, sumW: nat, weights: seq<U64>)
    requires sumW > 0
    ensures forall s <- Shares(total, sumW, weights) :: 0 <= s.rem < sumW
  {
    var shares := Shares(total, sumW, weights);
    forall s | s in shares
      ensures 0 <= s.rem < sumW
    {
      var i :| 0 <= i < |shares| && shares[i] == s;
      ExactShare(total, sumW, weights, i);
    }
  }

  /** No integer vector with the same total is closer to the exact shares. */
  lemma {:induction false} MagnitudesOptimal(total: nat, weights: seq<U64>, parts: seq<int>, other: seq<int>)
    requires LargestRemainder(total, weights, parts)
    requires |other| == |weights| && Sum(other) == total
    ensures Deviation(Errors(total, Sum(weights), weights, parts), |parts|)
         <= Deviation(Errors(total, Sum(weights), weights, other), |parts|)
  {
    var w := Sum(weights);
    RemaindersBounded(total, w, weights);
    var theta := Threshold(Shares(total, w, weights), parts, w);
    var price := w - 2 * theta;
    var e, f := Errors(total, w, weights, parts), Errors(total, w, weights, other);
    forall i | 0 <= i < |parts|
      ensures Abs(e[i]) - Scaled(price, parts)[i] <= Abs(f[i]) - Scaled(price, other)[i]
    {
      PricedElement(total, w, weights, parts, other, theta, price, i);
    }
    PricesCancel(e, f, parts, other, price);
  }

  // The code

  predicate Sorted(s: seq<Remainder>) {
    forall i, j :: 0 <= i < j < |s| ==> Before(s[i], s[j])
  }

  function Insert(x: Remainder, s: seq<Remainder>): (r: seq<Remainder>)
    requires Sorted(s) && forall y <- s :: y.index != x.index
    ensures Sorted(r) && multiset(r) == multiset(s) + multiset{x}
  {
    var n := |s| - 1;
    if s == [] || Before(s[n], x) then
      s + [x]
    else
      var rest := Insert(x, s[..n]);
      InsertBeforeLast(x, s, rest);
      rest + [s[n]]
  }

  lemma {:induction false} InsertBeforeLast(x: Remainder, s: seq<Remainder>, rest: seq<Remainder>)
    requires s != [] && Sorted(s) && Before(x, s[|s| - 1])
    requires Sorted(rest) && multiset(rest) == multiset(s[..|s| - 1]) + multiset{x}
    ensures Sorted(rest + [s[|s| - 1]])
    ensures multiset(rest + [s[|s| - 1]]) == multiset(s) + multiset{x}
  {
    var n := |s| - 1;
    assert s == s[..n] + [s[n]];
    forall k | 0 <= k < |rest|
      ensures Before(rest[k], s[n])
    {
      assert rest[k] in multiset(rest);
      assert rest[k] in s[..n] || rest[k] == x;
    }
  }

  /** `sort_by` with the comparator above. Indices are distinct, so there are no ties. */
  function Sort(s: seq<Remainder>): (r: seq<Remainder>)
    requires DistinctIndices(s)
    ensures Sorted(r) && multiset(r) == multiset(s)
  {
    if s == [] then
      []
    else
      var n := |s| - 1;
      var rest := Sort(s[..n]);
      LastIndexDistinct(s, rest);
      Insert(s[n], rest)
  }

  predicate DistinctIndices(s: seq<Remainder>) {
    forall i, j :: 0 <= i < j < |s| ==> s[i].index != s[j].index
  }

  lemma {:induction false} LastIndexDistinct(s: seq<Remainder>, rest: seq<Remainder>)
    requires s != [] && DistinctIndices(s) && multiset(rest) == multiset(s[..|s| - 1])
    ensures forall y <- rest :: y.index != s[|s| - 1].index
    ensures multiset(s) == multiset(rest) + multiset{s[|s| - 1]}
  {
    var n := |s| - 1;
    assert s == s[..n] + [s[n]];
    forall y | y in rest
      ensures y.index != s[n].index
    {
      assert y in multiset(s[..n]);
      var k :| 0 <= k < n && s[k] == y;
    }
  }

  /** The sorted list names every share once, with its remainder. */
  ghost predicate Ranking(shares: seq<Share>, sorted: seq<Remainder>) {
    && Sorted(sorted)
    && (forall x <- sorted :: x.index < |shares| && x.rem == shares[x.index].rem)
    && (forall i :: 0 <= i < |shares| ==> Remainder(i, shares[i].rem) in sorted)
  }

  lemma {:induction false} SortRanks(shares: seq<Share>, remainders: seq<Remainder>)
    requires |remainders| == |shares|
    requires forall i :: 0 <= i < |shares| ==> remainders[i] == Remainder(i, shares[i].rem)
    ensures Ranking(shares, Sort(remainders))
  {
    var sorted := Sort(remainders);
    forall x | x in sorted
      ensures x.index < |shares| && x.rem == shares[x.index].rem
    {
      assert x in multiset(sorted);
      assert x in remainders;
    }
    forall i | 0 <= i < |shares|
      ensures Remainder(i, shares[i].rem) in sorted
    {
      assert remainders[i] in multiset(remainders);
      assert remainders[i] in multiset(sorted);
    }
  }

  /** The first k shares of the ranking have received their extra unit, the others have not. */
  ghost predicate Distributed(shares: seq<Share>, sorted: seq<Remainder>, parts: seq<int>, k: nat)
    requires Ranking(shares, sorted)
  {
    && k <= |sorted|
    && |parts| == |shares|
    && (forall m :: 0 <= m < |sorted| ==>
          parts[sorted[m].index] == shares[sorted[m].index].floor + if m < k then 1 else 0)
  }

  lemma {:induction false} RankOf(shares: seq<Share>, sorted: seq<Remainder>, i: nat) returns (m: nat)
    requires Ranking(shares, sorted) && i < |shares|
    ensures m < |sorted| && sorted[m] == Remainder(i, shares[i].rem)
  {
    assert Remainder(i, shares[i].rem) in sorted;
    m :| 0 <= m < |sorted| && sorted[m] == Remainder(i, shares[i].rem);
  }

  /** While units are left over, the ranking still offers a share with a non-zero remainder,
      so the skip of zero weights is never taken and one pass is enough. */
  lemma {:induction false} LeftoverMeetsRemainder(
      total: nat, weights: seq<U64>, sorted: seq<Remainder>, parts: seq<int>, k: nat)
    requires Sum(weights) > 0 && Ranking(Shares(total, Sum(weights), weights), sorted)
    requires Distributed(Shares(total, Sum(weights), weights), sorted, parts, k) && Sum(parts) < total
    ensures k < |sorted| && weights[sorted[k].index] > 0
  {
    var w := Sum(weights);
    var shares := Shares(total, w, weights);
    if k < |sorted| && sorted[k].rem > 0 {
      assert sorted[k] in sorted;
      if weights[sorted[k].index] == 0 {
        ZeroShare(total, w, weights, sorted[k].index);
      }
    } else {
      forall i | 0 <= i < |parts|
        ensures Errors(total, w, weights, parts)[i] >= 0
      {
        var m := RankOf(shares, sorted, i);
        ErrorOfUnits(total, w, weights, parts, i, if m < k then 1 else 0);
        assert m > k ==> Before(sorted[k], sorted[m]);
      }
      NoPartFallsShort(total, weights, parts);
    }
  }

  lemma {:induction false} NextUnit(shares: seq<Share>, sorted: seq<Remainder>, parts: seq<int>, k: nat)
    requires Ranking(shares, sorted) && Distributed(shares, sorted, parts, k) && k < |sorted|
    ensures sorted[k].index < |parts|
    ensures var i := sorted[k].index;
            Distributed(shares, sorted, parts[i := parts[i] + 1], k + 1)
  {
  }

  lemma {:induction false} DistributedTopsUp(shares: seq<Share>, sorted: seq<Remainder>, parts: seq<int>, k: nat)
    requires Ranking(shares, sorted) && Distributed(shares, sorted, parts, k)
    ensures TopsUp(shares, parts)
  {
  }

  /** The first loop: floors, remainders and their running sum; nothing overflows u128. */
  method FloorsOf(totalAbs: U128, weights: seq<U64>, sumW: U128)
    returns (floors: seq<int>, remainders: seq<Remainder>, handedOut: U128)
    requires totalAbs <= -I64_MIN && sumW == Sum(weights) > 0
    ensures var shares := Shares(totalAbs, sumW, weights);
            && |floors| == |remainders| == |weights|
            && (forall i :: 0 <= i < |weights| ==> floors[i] == shares[i].floor)
            && (forall i :: 0 <= i < |weights| ==> remainders[i] == Remainder(i, shares[i].rem))
    ensures handedOut == Sum(floors) <= totalAbs
  {
    floors, remainders, handedOut := [], [], 0;
    ghost var shares := Shares(totalAbs, sumW, weights);
    for i := 0 to |weights|
      invariant |floors| == |remainders| == i
      invariant forall k :: 0 <= k < i ==> floors[k] == shares[k].floor
      invariant forall k :: 0 <= k < i ==> remainders[k] == Remainder(k, shares[k].rem)
      invariant handedOut == Sum(floors) <= totalAbs
    {
      ShareValue(totalAbs, sumW, weights, i);
      var floor, rem := DivideShare(totalAbs, weights[i], sumW);
      SumAppend(floors, floor);
      floors := floors + [floor];
      FloorsBelow(totalAbs, sumW, weights, floors);
      remainders := remainders + [Remainder(i, rem)];
      handedOut := handedOut + floor;
    }
  }

  method DivideShare(totalAbs: U128, weight: U64, sumW: U128) returns (floor: U128, rem: U128)
    requires totalAbs <= -I64_MIN && sumW > 0
    ensures floor == totalAbs * weight / sumW && rem == totalAbs * weight % sumW
  {
    ShareFits(totalAbs, weight, sumW);
    var product: U128 := totalAbs * weight;
    floor, rem := product / sumW, product % sumW;
  }

  lemma {:induction false} ShareFits(totalAbs: U128, weight: U64, sumW: U128)
    requires totalAbs <= -I64_MIN && sumW > 0
    ensures 0 <= totalAbs * weight <= U128_MAX
    ensures 0 <= totalAbs * weight / sumW <= U128_MAX
    ensures 0 <= totalAbs * weight % sumW < sumW
  {
    ProductBound(totalAbs, weight, -I64_MIN, U64_MAX);
    MulMonotone(0, weight, totalAbs);
    DivMod(totalAbs * weight, sumW);
    MulMonotone(1, sumW, totalAbs * weight / sumW);
  }

  /** The running sum of floors never exceeds the total. */
  lemma {:induction false} FloorsBelow(total: nat, sumW: nat, weights: seq<U64>, floors: seq<int>)
    requires sumW == Sum(weights) > 0 && |floors| <= |weights|
    requires forall k :: 0 <= k < |floors| ==> floors[k] == Shares(total, sumW, weights)[k].floor
    ensures Sum(floors) <= total
  {
    FloorsBelowPrefix(total, weights, floors);
  }

  lemma {:induction false} FloorsBelowPrefix(total: nat, weights: seq<U64>, floors: seq<int>)
    requires Sum(weights) > 0 && |floors| <= |weights|
    requires forall k :: 0 <= k < |floors| ==> floors[k] == Shares(total, Sum(weights), weights)[k].floor
    ensures Sum(floors) * Sum(weights) <= total * Sum(weights[..|floors|])
    ensures Sum(floors) <= total
  {
    if floors != [] {
      var i, w := |floors| - 1, Sum(weights);
      FloorsBelowPrefix(total, weights, floors[..i]);
      ExactShare(total, w, weights, i);
      assert weights[..i + 1] == weights[..i] + [weights[i]];
      SumAppend(weights[..i], weights[i]);
      PrefixSum(weights, i + 1);
      FloorSum(Sum(floors[..i]), floors[i], w, total, Sum(weights[..i]), weights[i]);
    }
  }

  lemma {:induction false} FloorSum(before: int, f: int, w: int, total: int, prefix: int, weight: int)
    requires before * w <= total * prefix && f * w <= total * weight
    requires prefix + weight <= w && w > 0 && total >= 0
    ensures (before + f) * w <= total * (prefix + weight)
    ensures before + f <= total
  {
    assert (before + f) * w == before * w + f * w;
    assert total * (prefix + weight) == total * prefix + total * weight;
    MulMonotone(prefix + weight, w, total);
    if before + f > total {
      MulMonotone(total + 1, before + f, w);
    }
  }

  lemma {:induction false} PrefixSum(weights: seq<U64>, n: nat)
    requires n <= |weights|
    ensures Sum(weights[..n]) <= Sum(weights)
    decreases |weights| - n
  {
    if n == |weights| {
      assert weights[..n] == weights;
    } else {
      PrefixSum(weights, n + 1);
      assert weights[..n + 1] == weights[..n] + [weights[n]];
      SumAppend(weights[..n], weights[n]);
    }
  }

  /** The second loop. Each `continue` and each fall off the end of the list is excluded by
      LeftoverMeetsRemainder. */
  method Distribute(totalAbs: U128, weights: seq<U64>, floors0: seq<int>, sorted: seq<Remainder>, leftover0: U128)
    returns (floors: seq<int>)
    requires Sum(weights) > 0 && Ranking(Shares(totalAbs, Sum(weights), weights), sorted)
    requires Distributed(Shares(totalAbs, Sum(weights), weights), sorted, floors0, 0)
    requires leftover0 == totalAbs - Sum(floors0)
    ensures LargestRemainder(totalAbs, weights, floors)
  {
    ghost var shares := Shares(totalAbs, Sum(weights), weights);
    floors := floors0;
    var leftover := leftover0;
    ghost var given := 0;
    for k := 0 to |sorted|
      invariant given == k
      invariant Distributed(shares, sorted, floors, given)
      invariant leftover == totalAbs - Sum(floors)
    {
      if leftover == 0 {
        break;
      }
      LeftoverMeetsRemainder(totalAbs, weights, sorted, floors, k);
      NextUnit(shares, sorted, floors, k);
      var i := sorted[k].index;
      if weights[i] == 0 {
        continue;
      }
      SumUpdate(floors, i, floors[i] + 1);
      floors := floors[i := floors[i] + 1];
      leftover := leftover - 1;
      given := given + 1;
    }
    if leftover != 0 {
      LeftoverMeetsRemainder(totalAbs, weights, sorted, floors, given);
    }
    DistributedTopsUp(shares, sorted, floors, given);
  }

  function Sign(x: int): int {
    if x < 0 then -1 else 1
  }

  /** The amounts with the sign of the total taken off again. */
  function Magnitudes(total: I64, parts: seq<Money>): seq<int> {
    seq(|parts|, i requires 0 <= i < |parts| => Sign(total) * parts[i].amountMinor)
  }

  /** One share receives all 2^63 units of i64::MIN: it has the only non-zero weight, or it
      weighs u64::MAX and the only other weight is a 1 after it (then both remainders are
      one half and the tie goes to the lower index). */
  predicate OneShareTakesAll(weights: seq<U64>) {
    || (exists i :: 0 <= i < |weights| && weights[i] > 0 && OnlyWeights(weights, i, i))
    || (exists i, j :: 0 <= i < j < |weights| && weights[i] == U64_MAX && weights[j] == 1 && OnlyWeights(weights, i, j))
  }

  predicate OnlyWeights(weights: seq<U64>, i: int, j: int) {
    forall k :: 0 <= k < |weights| && k != i && k != j ==> weights[k] == 0
  }

  lemma {:induction false} AllOthersZero(parts: seq<int>, i: nat, j: nat)
    requires i < |parts| && j < |parts| && i != j
    requires forall k :: 0 <= k < |parts| ==> parts[k] >= 0
    requires parts[i] == Sum(parts)
    ensures parts[j] == 0
  {
    SumPair(parts, i, j);
  }

  lemma {:induction false} SumOfOnly(s: seq<int>, i: nat, j: nat)
    requires i <= j < |s| && forall k :: 0 <= k < |s| && k != i && k != j ==> s[k] == 0
    ensures Sum(s) == if i == j then s[i] else s[i] + s[j]
  {
    if |s| > 0 {
      var n := |s| - 1;
      if j == n {
        if i == j {
          SumOfZeros(s[..n]);
        } else {
          SumOfOnly(s[..n], i, i);
        }
      } else {
        SumOfOnly(s[..n], i, j);
      }
    }
  }

  lemma {:induction false} SumOfZeros(s: seq<int>)
    requires forall k :: 0 <= k < |s| ==> s[k] == 0
    ensures Sum(s) == 0
  {
    if s != [] {
      SumOfZeros(s[..|s| - 1]);
    }
  }

  /** A share that takes everything although another weight is positive: both arithmetic
      conditions force u64::MAX against a single 1. */
  lemma {:induction false} TakesAllAgainst(total: nat, wi: int, wj: int, w: int, ri: int, rj: int)
    requires total == -I64_MIN && 0 <= wi <= U64_MAX && 1 <= wj && wi + wj <= w
    requires total * wi == (total - 1) * w + ri && total * wj == rj
    requires ri >= rj
    ensures wi == U64_MAX && wj == 1 && w == wi + wj && ri == rj
  {
  }

  lemma {:induction false} TakesAllOnlyIf(weights: seq<U64>, parts: seq<int>, i: nat)
    requires LargestRemainder(-I64_MIN, weights, parts) && i < |parts| && parts[i] == -I64_MIN
    ensures OneShareTakesAll(weights)
  {
    var total := -I64_MIN;
    SumNonNegative(weights);
    forall k | 0 <= k < |parts|
      ensures parts[k] >= 0
    {
      WithinOneUnit(total, weights, parts, k);
    }
    if !OnlyWeights(weights, i, i) {
      var j :| 0 <= j < |weights| && j != i && weights[j] != 0;
      TakesAllPair(weights, parts, i, j);
      forall k | 0 <= k < |weights| && k != i && k != j
        ensures weights[k] == 0
      {
        SumTriple(weights, i, j, k);
      }
      assert OnlyWeights(weights, i, j);
    } else {
      SumOfOnly(weights, i, i);
      assert weights[i] > 0;
    }
  }

  lemma {:induction false} SumTriple(s: seq<int>, i: nat, j: nat, k: nat)
    requires i < |s| && j < |s| && k < |s| && i != j && k != i && k != j
    requires forall m :: 0 <= m < |s| ==> s[m] >= 0
    ensures s[i] + s[j] + s[k] <= Sum(s)
  {
    SumUpdate(s, i, 0);
    SumPair(s[i := 0], j, k);
  }

  lemma {:induction false} TakesAllPair(weights: seq<U64>, parts: seq<int>, i: nat, j: nat)
    requires LargestRemainder(-I64_MIN, weights, parts) && i < |parts| && parts[i] == -I64_MIN
    requires forall k :: 0 <= k < |parts| ==> parts[k] >= 0
    requires j < |weights| && j != i && weights[j] != 0
    ensures weights[i] == U64_MAX && weights[j] == 1 && Sum(weights) == U64_MAX + 1 && i < j
  {
    var total := -I64_MIN;
    var w := Sum(weights);
    var shares := Shares(total, w, weights);
    AllOthersZero(parts, i, j);
    SumPair(weights, i, j);
    ExactShare(total, w, weights, i);
    ExactShare(total, w, weights, j);
    assert shares[i].floor != total;
    assert shares[j].floor == 0;
    assert Precedes(shares, i, j);
    TakesAllAgainst(total, weights[i], weights[j], w, shares[i].rem, shares[j].rem);
  }

  /** Both remainders are one half, and the unit left over goes to the lower index. */
  lemma {:induction false} TieGoesToFirst(weights: seq<U64>, parts: seq<int>, i: nat, j: nat)
    requires LargestRemainder(-I64_MIN, weights, parts) && i < j < |weights|
    requires weights[i] == U64_MAX && weights[j] == 1 && Sum(weights) == U64_MAX + 1
    requires Sum(parts) == parts[i] + parts[j]
    ensures parts[i] == -I64_MIN
  {
    var total := -I64_MIN;
    ExactShare(total, Sum(weights), weights, i);
    ExactShare(total, Sum(weights), weights, j);
    assert !Precedes(Shares(total, Sum(weights), weights), j, i);
  }

  lemma {:induction false} TakesAllIf(weights: seq<U64>, parts: seq<int>)
    requires LargestRemainder(-I64_MIN, weights, parts) && OneShareTakesAll(weights)
    ensures exists i :: 0 <= i < |parts| && parts[i] == -I64_MIN
  {
    var total := -I64_MIN;
    var i, j :| 0 <= i <= j < |weights| && OnlyWeights(weights, i, j)
             && (if i == j then weights[i] > 0 else weights[i] == U64_MAX && weights[j] == 1);
    forall k | 0 <= k < |parts| && k != i && k != j
      ensures parts[k] == 0
    {
      ZeroWeightGetsZero(total, weights, parts, k);
    }
    SumOfOnly(parts, i, j);
    SumOfOnly(weights, i, j);
    if i != j {
      TieGoesToFirst(weights, parts, i, j);
    }
  }

  /** `allocate_largest_remainder`. A slice has at most usize::MAX elements. */
  method AllocateLargestRemainder(total: Money, weights: seq<U64>) returns (r: Outcome<seq<Money>, MoneyError>)
    requires |weights| <= U64_MAX
    ensures r.Failed? <==> forall i :: 0 <= i < |weights| ==> weights[i] == 0
    ensures r.Failed? ==> r.error == InvalidAllocationWeights
    ensures r.Panic? <==> total.amountMinor == I64_MIN && OneShareTakesAll(weights)
    ensures r.Done? ==> forall part <- r.value :: part.currency == total.currency
    ensures r.Done? ==> LargestRemainder(Abs(total.amountMinor), weights, Magnitudes(total.amountMinor, r.value))
  {
    if forall i :: 0 <= i < |weights| ==> weights[i] == 0 {
      return Failed(InvalidAllocationWeights);
    }
    var sumW: U128 := SumWeights(weights);
    var totalAbs: U128 := Abs(total.amountMinor);
    var floors, remainders, handedOut := FloorsOf(totalAbs, weights, sumW);
    SortRanks(Shares(totalAbs, sumW, weights), remainders);
    floors := Distribute(totalAbs, weights, floors, Sort(remainders), totalAbs - handedOut);
    forall i | 0 <= i < |floors|
      ensures 0 <= floors[i] <= totalAbs
    {
      WithinOneUnit(totalAbs, weights, floors, i);
    }
    if totalAbs == -I64_MIN {
      TakesAllExactly(weights, floors);
    }
    r := WithSign(total, floors);
  }

  lemma {:induction false} TakesAllExactly(weights: seq<U64>, parts: seq<int>)
    requires LargestRemainder(-I64_MIN, weights, parts)
    ensures -I64_MIN in parts <==> OneShareTakesAll(weights)
  {
    if -I64_MIN in parts {
      var i :| 0 <= i < |parts| && parts[i] == -I64_MIN;
      TakesAllOnlyIf(weights, parts, i);
    }
    if OneShareTakesAll(weights) {
      TakesAllIf(weights, parts);
    }
  }

  /** The closing `map`: `(f as i64).checked_mul(sign).expect(..)` for every floor. */
  method WithSign(total: Money, floors: seq<int>) returns (r: Outcome<seq<Money>, MoneyError>)
    requires forall f <- floors :: 0 <= f <= Abs(total.amountMinor)
    ensures !r.Failed?
    ensures r.Panic? <==> total.amountMinor == I64_MIN && -I64_MIN in floors
    ensures r.Done? ==> forall part <- r.value :: part.currency == total.currency
    ensures r.Done? ==> Magnitudes(total.amountMinor, r.value) == floors
  {
    var sign := Sign(total.amountMinor);
    var parts: seq<Money> := [];
    for i := 0 to |floors|
      invariant |parts| == i
      invariant forall k :: 0 <= k < i ==> floors[k] != -I64_MIN || total.amountMinor != I64_MIN
      invariant forall k :: 0 <= k < i ==>
                  parts[k].amountMinor == sign * floors[k] && parts[k].currency == total.currency
    {
      assert floors[i] in floors;
      var minor := WrapI64(floors[i]) * sign;
      if !(I64_MIN <= minor <= I64_MAX) {
        return Panic;
      }
      parts := parts + [Money(minor, total.currency)];
    }
    return Done(parts);
  }

  method SumWeights(weights: seq<U64>) returns (sum: U128)
    requires |weights| <= U64_MAX
    ensures sum == Sum(weights)
    ensures (exists i :: 0 <= i < |weights| && weights[i] != 0) ==> sum > 0
  {
    sum := 0;
    for i := 0 to |weights|
      invariant 0 <= sum <= i * U64_MAX
      invariant sum == Sum(weights[..i])
      invariant (exists k :: 0 <= k < i && weights[k] != 0) ==> sum > 0
    {
      assert weights[..i + 1] == weights[..i] + [weights[i]];
      SumAppend(weights[..i], weights[i]);
      MulMonotone(i + 1, |weights|, U64_MAX);
      sum := sum + weights[i];
    }
    assert weights[..|weights|] == weights;
  }

  // Signed totals

  function Amounts(parts: seq<Money>): seq<int> {
    seq(|parts|, i requires 0 <= i < |parts| => parts[i].amountMinor)
  }

  function Negated(xs: seq<int>): seq<int> {
    seq(|xs|, i requires 0 <= i < |xs| => -xs[i])
  }

  lemma {:induction false} SumNegated(xs: seq<int>)
    ensures Sum(Negated(xs)) == -Sum(xs)
  {
    if xs != [] {
      var n := |xs| - 1;
      SumNegated(xs[..n]);
      assert Negated(xs)[..n] == Negated(xs[..n]);
    }
  }

  lemma {:induction false} DeviationNegated(total: int, sumW: int, weights: seq<U64>, xs: seq<int>, n: nat)
    requires n <= |xs| == |weights|
    ensures Deviation(Errors(-total, sumW, weights, Negated(xs)), n) == Deviation(Errors(total, sumW, weights, xs), n)
  {
    if n > 0 {
      var i := n - 1;
      DeviationNegated(total, sumW, weights, xs, i);
      ErrorValue(-total, sumW, weights, Negated(xs), i);
      ErrorValue(total, sumW, weights, xs, i);
      assert (-xs[i]) * sumW == -(xs[i] * sumW) && (-total) * weights[i] == -(total * weights[i]);
    }
  }

  /** The parts of a signed total add up to it, and no other integer split of it is closer to
      the exact shares. */
  lemma {:induction false} AllocationOptimal(total: I64, weights: seq<U64>, parts: seq<Money>, other: seq<int>)
    requires LargestRemainder(Abs(total), weights, Magnitudes(total, parts))
    requires |other| == |weights| && Sum(other) == total
    ensures Sum(Amounts(parts)) == total
    ensures Deviation(Errors(total, Sum(weights), weights, Amounts(parts)), |parts|)
         <= Deviation(Errors(total, Sum(weights), weights, other), |parts|)
  {
    var amounts := Amounts(parts);
    if total >= 0 {
      assert Magnitudes(total, parts) == amounts;
      MagnitudesOptimal(total, weights, amounts, other);
    } else {
      assert Magnitudes(total, parts) == Negated(amounts);
      SumNegated(amounts);
      SumNegated(other);
      MagnitudesOptimal(Abs(total), weights, Negated(amounts), Negated(other));
      DeviationNegated(total, Sum(weights), weights, amounts, |parts|);
      DeviationNegated(total, Sum(weights), weights, other, |parts|);
    }
  }
}
