/** Rank statistics of scripts/measure-policy-validity.py over exact reals. */
module Statistics {
  import opened Text
  import opened Rounding
  import opened Sorting

  const MIN_TOPICS_FOR_VALIDITY := 3

  function Below(v: seq<real>, x: real): nat { |Filter(v, (y: real) => y < x)| }
  function Equal(v: seq<real>, x: real): nat { |Filter(v, (y: real) => y == x)| }
  function Above(v: seq<real>, x: real): nat { |Filter(v, (y: real) => y > x)| }

  /** The tie-averaged rank of x among v: 1 + (values below) + (ties - 1) / 2. */
  function RankIn(v: seq<real>, x: real): real {
    Below(v, x) as real + (Equal(v, x) as real + 1.0) / 2.0
  }

  function Ranks(v: seq<real>): (r: seq<real>)
    ensures |r| == |v|
  {
    seq(|v|, i requires 0 <= i < |v| => RankIn(v, v[i]))
  }

  // ---- average_ranks: the nested loops ----

  function At(v: seq<real>, i: int): real { if 0 <= i < |v| then v[i] else 0.0 }

  function Gather(v: seq<real>, order: seq<int>): (w: seq<real>)
    ensures |w| == |order|
  {
    seq(|order|, k requires 0 <= k < |order| => At(v, order[k]))
  }

  function Indices(n: nat): (r: seq<int>)
    ensures |r| == n && forall k | 0 <= k < n :: r[k] == k
  {
    seq(n, k => k)
  }

  function RankOrder(v: seq<real>): seq<int> {
    SortBy(Indices(|v|), (a: int, b: int) => At(v, a) <= At(v, b))
  }

  lemma GatherConcat(v: seq<real>, a: seq<int>, b: seq<int>)
    ensures Gather(v, a + b) == Gather(v, a) + Gather(v, b)
  {
  }

  lemma {:induction false} GatherPermutes(v: seq<real>, a: seq<int>, b: seq<int>)
    requires multiset(a) == multiset(b)
    ensures multiset(Gather(v, a)) == multiset(Gather(v, b))
  {
    if a == [] {
      assert |multiset(b)| == 0;
    } else {
      var k := DropFirst(a, b);
      var pre, post := b[..k], b[k + 1..];
      GatherPermutes(v, a[1..], pre + post);
      GatherConcat(v, [a[0]], a[1..]); GatherConcat(v, pre, post);
      GatherConcat(v, pre, [a[0]] + post); GatherConcat(v, [a[0]], post);
    }
  }

  /** order lists every position once, and w the values in that ascending order. */
  ghost predicate Arranged(v: seq<real>, order: seq<int>, w: seq<real>) {
    && |order| == |v| && w == Gather(v, order)
    && (forall i :: i in order <==> 0 <= i < |v|)
    && Ascending(w) && multiset(w) == multiset(v)
  }

  lemma RankOrderArranges(v: seq<real>)
    ensures Arranged(v, RankOrder(v), Gather(v, RankOrder(v)))
  {
    var le := (a: int, b: int) => At(v, a) <= At(v, b);
    var ids, order := Indices(|v|), RankOrder(v);
    SortIsPermutation(ids, le);
    SortSorts(ids, le);
    forall i ensures i in order <==> 0 <= i < |v| { assert 0 <= i < |v| ==> ids[i] == i; }
    var w := Gather(v, order);
    forall j, k | 0 <= j <= k < |w| ensures w[j] <= w[k] { if j < k { assert le(order[j], order[k]); } }
    GatherPermutes(v, order, ids);
    assert Gather(v, ids) == v;
  }

  lemma ThreeParts(w: seq<real>, i: int, j: int, keep: real -> bool)
    requires 0 <= i <= j < |w|
    ensures |Filter(w, keep)| == |Filter(w[..i], keep)| + |Filter(w[i..j + 1], keep)| + |Filter(w[j + 1..], keep)|
  {
    var a, b, c := w[..i], w[i..j + 1], w[j + 1..];
    FilterConcat(a, b, keep);
    assert a + b == w[..j + 1];
    FilterConcat(w[..j + 1], c, keep);
    assert w[..j + 1] + c == w;
  }

  ghost predicate Ascending(w: seq<real>) { forall p, q | 0 <= p <= q < |w| :: w[p] <= w[q] }

  /** A tie block [i, j] of the sorted values holds exactly the values equal to
      w[i], after exactly the values below it. */
  ghost predicate TieBlock(w: seq<real>, i: int, j: int) {
    && 0 <= i <= j < |w|
    && (forall p | i <= p <= j :: w[p] == w[i])
    && (i > 0 ==> w[i - 1] < w[i])
    && (j + 1 < |w| ==> w[j + 1] != w[i])
  }

  lemma BlockSides(w: seq<real>, i: int, j: int)
    requires Ascending(w) && TieBlock(w, i, j)
    ensures forall p | 0 <= p < i :: w[p] < w[i]
    ensures forall p | i <= p <= j :: w[p] == w[i]
    ensures forall p | j < p < |w| :: w[p] > w[i]
  {
    forall p | 0 <= p < i ensures w[p] < w[i] { assert w[p] <= w[i - 1]; }
    forall p | j < p < |w| ensures w[p] > w[i] { assert w[i] <= w[j + 1] <= w[p]; }
  }

  lemma BlockBelow(v: seq<real>, w: seq<real>, i: int, j: int)
    requires multiset(v) == multiset(w) && Ascending(w) && TieBlock(w, i, j)
    ensures Below(v, w[i]) == i
  {
    var x := w[i];
    var lt := (y: real) => y < x;
    BlockSides(w, i, j);
    FilterCount(v, w, lt);
    ThreeParts(w, i, j, lt);
    FilterAll(w[..i], lt); FilterNone(w[i..j + 1], lt); FilterNone(w[j + 1..], lt);
  }

  lemma BlockEqual(v: seq<real>, w: seq<real>, i: int, j: int)
    requires multiset(v) == multiset(w) && Ascending(w) && TieBlock(w, i, j)
    ensures Equal(v, w[i]) == j - i + 1
  {
    var x := w[i];
    var eq := (y: real) => y == x;
    BlockSides(w, i, j);
    FilterCount(v, w, eq);
    ThreeParts(w, i, j, eq);
    FilterNone(w[..i], eq); FilterAll(w[i..j + 1], eq); FilterNone(w[j + 1..], eq);
  }

  lemma BlockRank(v: seq<real>, order: seq<int>, w: seq<real>, i: int, j: int, k: int)
    requires Arranged(v, order, w) && TieBlock(w, i, j) && i <= k <= j
    ensures 0 <= order[k] < |v| && Ranks(v)[order[k]] == (i + j) as real / 2.0 + 1.0
  {
    BlockBelow(v, w, i, j); BlockEqual(v, w, i, j);
    assert order[k] in order;
    assert v[order[k]] == w[k] == w[i];
  }

  /** The positions named by the first k entries of order hold their goal. */
  ghost predicate Filled(r: seq<real>, goal: seq<real>, order: seq<int>, k: int) {
    && |r| == |goal| && 0 <= k <= |order|
    && forall x | x in order[..k] :: 0 <= x < |r| && r[x] == goal[x]
  }

  lemma FilledStep(r: seq<real>, goal: seq<real>, order: seq<int>, k: int)
    requires Filled(r, goal, order, k) && k < |order| && 0 <= order[k] < |r|
    ensures Filled(r[order[k] := goal[order[k]]], goal, order, k + 1)
  {
    assert order[..k + 1] == order[..k] + [order[k]];
  }

  lemma FilledAll(r: seq<real>, goal: seq<real>, order: seq<int>)
    requires Filled(r, goal, order, |order|) && forall i | 0 <= i < |r| :: i in order
    ensures r == goal
  {
    assert order[..|order|] == order;
  }

  method AverageRanks(values: seq<real>) returns (ranks: array<real>)
    ensures fresh(ranks) && ranks[..] == Ranks(values)
  {
    var order := RankOrder(values);
    ghost var w, goal := Gather(values, order), Ranks(values);
    RankOrderArranges(values);
    ranks := new real[|values|](_ => 0.0);
    var i := 0;
    while i < |order|
      invariant 0 <= i <= |order|
      invariant 0 < i < |order| ==> w[i - 1] < w[i]
      invariant Filled(ranks[..], goal, order, i)
    {
      var j := i;
      while j + 1 < |order| && At(values, order[j + 1]) == At(values, order[i])
        invariant i <= j < |order|
        invariant forall p | i <= p <= j :: w[p] == w[i]
      {
        j := j + 1;
      }
      assert TieBlock(w, i, j);
      var avg := (i + j) as real / 2.0 + 1.0;
      for k := i to j + 1
        invariant Filled(ranks[..], goal, order, k)
      {
        BlockRank(values, order, w, i, j, k);
        FilledStep(ranks[..], goal, order, k);
        ghost var before := ranks[..];
        ranks[order[k]] := avg;
        assert ranks[..] == before[order[k] := avg];
      }
      i := j + 1;
    }
    FilledAll(ranks[..], goal, order);
  }

  // ---- the ranks sum to n(n+1)/2 ----

  function Sum(a: seq<real>): real { if a == [] then 0.0 else a[0] + Sum(a[1..]) }

  /** Twice the ranks of the values of v among w, less one each. */
  function DoubleRanks(v: seq<real>, w: seq<real>): int {
    if v == [] then 0 else 2 * Below(w, v[0]) + Equal(w, v[0]) + DoubleRanks(v[1..], w)
  }

  lemma {:induction false} Trichotomy(v: seq<real>, x: real)
    ensures Below(v, x) + Equal(v, x) + Above(v, x) == |v|
  {
    if v != [] { Trichotomy(v[1..], x); }
  }

  lemma {:induction false} DoubleRanksExtend(v: seq<real>, w: seq<real>, x: real)
    ensures DoubleRanks(v, [x] + w) == DoubleRanks(v, w) + 2 * Above(v, x) + Equal(v, x)
  {
    if v != [] {
      DoubleRanksExtend(v[1..], w, x);
      assert ([x] + w)[1..] == w;
    }
  }

  lemma {:induction false} DoubleRanksTotal(v: seq<real>)
    ensures DoubleRanks(v, v) == |v| * |v|
  {
    if v != [] {
      var x, rest := v[0], v[1..];
      assert v == [x] + rest;
      DoubleRanksTotal(rest);
      DoubleRanksExtend(rest, rest, x);
      Trichotomy(rest, x);
      DoubleRanksStep(rest, x);
      SquareOfSuccessor(|rest|);
    }
  }

  lemma SquareOfSuccessor(n: int)
    ensures (n + 1) * (n + 1) == n * n + 2 * n + 1
  {
  }

  lemma DoubleRanksStep(rest: seq<real>, x: real)
    ensures Below([x] + rest, x) == Below(rest, x) && Equal([x] + rest, x) == Equal(rest, x) + 1
    ensures DoubleRanks([x] + rest, [x] + rest) ==
            2 * Below(rest, x) + Equal(rest, x) + 1 + DoubleRanks(rest, [x] + rest)
  {
    assert ([x] + rest)[1..] == rest;
  }

  lemma {:induction false} SumOfRanksIn(v: seq<real>, w: seq<real>)
    ensures 2.0 * Sum(seq(|v|, i requires 0 <= i < |v| => RankIn(w, v[i]))) == DoubleRanks(v, w) as real + |v| as real
  {
    var r := seq(|v|, i requires 0 <= i < |v| => RankIn(w, v[i]));
    if v != [] {
      var t := v[1..];
      SumOfRanksIn(t, w);
      assert r[1..] == seq(|t|, i requires 0 <= i < |t| => RankIn(w, t[i]));
    }
  }

  lemma RanksSum(v: seq<real>)
    ensures 2.0 * Sum(Ranks(v)) == (|v| * (|v| + 1)) as real
  {
    SumOfRanksIn(v, v);
    DoubleRanksTotal(v);
  }

  // ---- Spearman ----

  function Mean(a: seq<real>): real
    requires a != []
  {
    Sum(a) / |a| as real
  }

  function Centered(a: seq<real>): (r: seq<real>)
    ensures |r| == |a|
  {
    seq(|a|, i requires 0 <= i < |a| => a[i] - Mean(a))
  }

  function Dot(a: seq<real>, b: seq<real>): real
    requires |a| == |b|
  {
    if a == [] then 0.0 else a[0] * b[0] + Dot(a[1..], b[1..])
  }

  predicate Constant(v: seq<real>) { forall i | 0 <= i < |v| :: v[i] == v[0] }

  function Abs(x: real): real { if x < 0.0 then -x else x }

  /** x |x|: strictly increasing, and computable for a quotient of roots. */
  function Signed(x: real): real { x * Abs(x) }

  /** Signed(rho) for rho = cov / (root of varX * root of varY). */
  function SignedSquare(cov: real, varX: real, varY: real): real
    requires varX * varY != 0.0
  {
    Signed(cov) / (varX * varY)
  }

  /** The coefficient with signed square s rounds to k / 10000 or less; halves
      round to the even side. */
  predicate RoundsTo(s: real, k: int) {
    var half := Signed((k as real + 0.5) / 10000.0);
    s < half || (s == half && k % 2 == 0)
  }

  lemma TopRounds(s: real)
    requires s <= 1.0
    ensures RoundsTo(s, 10000)
  {
    var x := 10000.5 / 10000.0;
    assert x == 1.00005;
    assert Signed(x) == x * x > 1.0;
  }

  function LeastFrom(s: real, k: int): (r: int)
    requires s <= 1.0 && k <= 10000
    ensures k <= r <= 10000 && RoundsTo(s, r) && forall j | k <= j < r :: !RoundsTo(s, j)
    decreases 10000 - k
  {
    TopRounds(s);
    if RoundsTo(s, k) then k else LeastFrom(s, k + 1)
  }

  /** The coefficient in [-1, 1] with signed square s, rounded to four digits. */
  function RoundedRoot(s: real): real
    requires s <= 1.0
  {
    LeastFrom(s, -10000) as real / 10000.0
  }

  /** round(cov / (vx * vy), 4), where vx and vy are the roots of varX and varY. */
  function Spearman(xs: seq<real>, ys: seq<real>): Option<real> {
    if |xs| != |ys| || |xs| < MIN_TOPICS_FOR_VALIDITY then None
    else if Constant(xs) || Constant(ys) then None
    else
      var rx, ry := Centered(Ranks(xs)), Centered(Ranks(ys));
      var cov, varX, varY := Dot(rx, ry), Dot(rx, rx), Dot(ry, ry);
      if varX == 0.0 || varY == 0.0 then None
      else
        CenteredRange(rx, ry);
        Some(RoundedRoot(SignedSquare(cov, varX, varY)))
  }

  /** The script's own computation: ranks from the nested loops, then moments. */
  method SpearmanByRanks(xs: seq<real>, ys: seq<real>) returns (rho: Option<real>)
    ensures rho == Spearman(xs, ys)
  {
    if |xs| != |ys| || |xs| < MIN_TOPICS_FOR_VALIDITY { return None; }
    if Constant(xs) || Constant(ys) { return None; }
    var rx := AverageRanks(xs);
    var ry := AverageRanks(ys);
    var cx, cy := Centered(rx[..]), Centered(ry[..]);
    var cov, varX, varY := Dot(cx, cy), Dot(cx, cx), Dot(cy, cy);
    if varX == 0.0 || varY == 0.0 { return None; }
    CenteredRange(cx, cy);
    return Some(RoundedRoot(SignedSquare(cov, varX, varY)));
  }

  // ---- Cauchy-Schwarz ----

  lemma {:induction false} DotSelf(a: seq<real>)
    ensures Dot(a, a) >= 0.0
    ensures Dot(a, a) == 0.0 ==> forall i | 0 <= i < |a| :: a[i] == 0.0
  {
    if a != [] {
      DotSelf(a[1..]);
      assert a[0] * a[0] >= 0.0;
      if Dot(a, a) == 0.0 {
        SquareZero(a[0], a[0] * a[0]);
        forall i | 0 <= i < |a| ensures a[i] == 0.0 { if i > 0 { assert a[1..][i - 1] == 0.0; } }
      }
    }
  }

  lemma PositiveProduct(x: real, y: real)
    requires x > 0.0 && y > 0.0
    ensures x * y > 0.0
  {
  }

  lemma ProductPositive(x: real, y: real, z: real)
    requires x > 0.0 && y > 0.0 && z == x * y
    ensures z > 0.0
  {
  }

  lemma SquareZero(x: real, z: real)
    requires z == x * x && z <= 0.0
    ensures x == 0.0
  {
    if x > 0.0 { ProductPositive(x, x, z); }
    if x < 0.0 { ProductPositive(-x, -x, z); }
  }

  lemma {:induction false} DotSymmetric(a: seq<real>, b: seq<real>)
    requires |a| == |b|
    ensures Dot(a, b) == Dot(b, a)
  {
    if a != [] { DotSymmetric(a[1..], b[1..]); }
  }

  lemma FactorSign(k: real, z: real, p: real)
    requires k > 0.0 && p == k * z && p >= 0.0
    ensures z >= 0.0
  {
    if z < 0.0 { ProductPositive(k, -z, -p); }
  }

  lemma SquareNonNegative(x: real, z: real)
    requires z == x * x
    ensures z >= 0.0
  {
  }

  /** A y^2 + B x^2 >= 2 S x y whenever S^2 <= A B: A times the difference is
      (A y - S x)^2 + x^2 (A B - S^2). */
  lemma CrossTerm(A: real, S: real, B: real, x: real, y: real, z: real)
    requires A >= 0.0 && B >= 0.0 && S * S <= A * B
    requires z == A * (y * y) + B * (x * x) - 2.0 * (S * (x * y))
    ensures z >= 0.0
  {
    SquareNonNegative(x, x * x);
    if A == 0.0 {
      SquareZero(S, S * S);
      NonNegativeProduct(B, x * x);
    } else {
      var d := A * y - S * x;
      SquareNonNegative(d, d * d);
      NonNegativeProduct(x * x, A * B - S * S);
      CrossExpansion(A, S, B, x, y);
      FactorSign(A, z, A * z);
    }
  }

  lemma NonNegativeProduct(x: real, y: real)
    requires x >= 0.0 && y >= 0.0
    ensures x * y >= 0.0
  {
  }

  lemma CrossExpansion(A: real, S: real, B: real, x: real, y: real)
    ensures A * (A * (y * y) + B * (x * x) - 2.0 * (S * (x * y)))
         == (A * y - S * x) * (A * y - S * x) + (x * x) * (A * B - S * S)
  {
  }

  predicate Bounded(A: real, S: real, B: real) { A >= 0.0 && B >= 0.0 && S * S <= A * B }

  lemma BoundedStep(A: real, S: real, B: real, x: real, y: real)
    requires Bounded(A, S, B)
    ensures Bounded(x * x + A, x * y + S, y * y + B)
  {
    SquareNonNegative(x, x * x); SquareNonNegative(y, y * y);
    var z := A * (y * y) + B * (x * x) - 2.0 * (S * (x * y));
    CrossTerm(A, S, B, x, y, z);
    assert (x * x + A) * (y * y + B) - (x * y + S) * (x * y + S) == (A * B - S * S) + z;
  }

  lemma {:induction false} CauchySchwarz(a: seq<real>, b: seq<real>)
    requires |a| == |b|
    ensures Bounded(Dot(a, a), Dot(a, b), Dot(b, b))
  {
    if a != [] {
      CauchySchwarz(a[1..], b[1..]);
      BoundedStep(Dot(a[1..], a[1..]), Dot(a[1..], b[1..]), Dot(b[1..], b[1..]), a[0], b[0]);
    }
  }

  // ---- when the coefficient is defined ----

  lemma {:induction false} BelowMonotone(v: seq<real>, x: real, y: real)
    requires x < y
    ensures Below(v, x) + Equal(v, x) <= Below(v, y)
  {
    if v != [] { BelowMonotone(v[1..], x, y); }
  }

  lemma {:induction false} EqualCountsItself(v: seq<real>, i: int)
    requires 0 <= i < |v|
    ensures Equal(v, v[i]) >= 1
  {
    if i > 0 { EqualCountsItself(v[1..], i - 1); }
  }

  /** Ranking keeps and reflects the order of the values. */
  lemma RanksKeepOrder(v: seq<real>, i: int, j: int)
    requires 0 <= i < |v| && 0 <= j < |v|
    ensures v[i] < v[j] <==> Ranks(v)[i] < Ranks(v)[j]
    ensures v[i] == v[j] <==> Ranks(v)[i] == Ranks(v)[j]
  {
    EqualCountsItself(v, i); EqualCountsItself(v, j);
    if v[i] < v[j] { BelowMonotone(v, v[i], v[j]); }
    if v[j] < v[i] { BelowMonotone(v, v[j], v[i]); }
  }

  lemma {:induction false} SumOfEqual(a: seq<real>, x: real)
    requires forall i | 0 <= i < |a| :: a[i] == x
    ensures Sum(a) == |a| as real * x
  {
    if a != [] { SumOfEqual(a[1..], x); }
  }

  lemma {:induction false} DotOfZero(a: seq<real>, b: seq<real>)
    requires |a| == |b| && forall i | 0 <= i < |a| :: a[i] == 0.0
    ensures Dot(a, b) == 0.0
  {
    if a != [] { DotOfZero(a[1..], b[1..]); }
  }

  lemma MeanOfEqual(a: seq<real>, x: real)
    requires a != [] && forall i | 0 <= i < |a| :: a[i] == x
    ensures Mean(a) == x
  {
    SumOfEqual(a, x);
    assert |a| as real * x / |a| as real == x;
  }

  /** The variance of the ranks vanishes exactly on a constant sequence, so the
      script's zero-variance branch is never taken after its constant-side test. */
  lemma VarianceVanishes(v: seq<real>)
    requires v != []
    ensures Constant(v) <==> Dot(Centered(Ranks(v)), Centered(Ranks(v))) == 0.0
  {
    var r := Ranks(v);
    var c := Centered(r);
    DotSelf(c);
    if Constant(v) {
      forall i | 0 <= i < |r| ensures r[i] == r[0] { RanksKeepOrder(v, i, 0); }
      MeanOfEqual(r, r[0]);
      DotOfZero(c, c);
    } else {
      var i :| 0 <= i < |v| && v[i] != v[0];
      RanksKeepOrder(v, i, 0);
      assert c[i] - c[0] == r[i] - r[0];
    }
  }

  lemma SpearmanDefined(xs: seq<real>, ys: seq<real>)
    ensures Spearman(xs, ys).None? <==>
            |xs| != |ys| || |xs| < MIN_TOPICS_FOR_VALIDITY || Constant(xs) || Constant(ys)
  {
    if |xs| == |ys| && |xs| >= MIN_TOPICS_FOR_VALIDITY {
      VarianceVanishes(xs); VarianceVanishes(ys);
    }
  }

  // ---- range, symmetry, invariance ----

  lemma RatioWithinOne(cov: real, p: real)
    requires p > 0.0 && cov * cov <= p
    ensures -1.0 <= Signed(cov) / p <= 1.0
  {
    var z := Signed(cov);
    assert if cov < 0.0 then z == -(cov * cov) else z == cov * cov;
    DivisionMonotone(-p, z, p); QuotientIs(-p, p, -1.0);
    DivisionMonotone(z, p, p); QuotientIs(p, p, 1.0);
  }

  lemma DivisionMonotone(a: real, b: real, p: real)
    requires p > 0.0 && a <= b
    ensures a / p <= b / p
  {
  }

  lemma SignedSquareWithinOne(cov: real, varX: real, varY: real)
    requires varX != 0.0 && varY != 0.0 && Bounded(varX, cov, varY)
    ensures varX * varY != 0.0 && -1.0 <= SignedSquare(cov, varX, varY) <= 1.0
  {
    ProductPositive(varX, varY, varX * varY);
    RatioWithinOne(cov, varX * varY);
  }

  lemma SignedSquareSymmetric(cov: real, varX: real, varY: real)
    requires varX * varY != 0.0
    ensures varY * varX != 0.0 && SignedSquare(cov, varX, varY) == SignedSquare(cov, varY, varX)
  {
    assert varX * varY == varY * varX;
  }

  lemma CenteredRange(a: seq<real>, b: seq<real>)
    requires |a| == |b| && Dot(a, a) != 0.0 && Dot(b, b) != 0.0
    ensures Dot(a, a) * Dot(b, b) != 0.0 && -1.0 <= SignedSquare(Dot(a, b), Dot(a, a), Dot(b, b)) <= 1.0
  {
    CauchySchwarz(a, b);
    SignedSquareWithinOne(Dot(a, b), Dot(a, a), Dot(b, b));
  }

  lemma SpearmanSymmetric(xs: seq<real>, ys: seq<real>)
    ensures Spearman(xs, ys) == Spearman(ys, xs)
  {
    if Spearman(xs, ys).Some? || Spearman(ys, xs).Some? {
      var rx, ry := Centered(Ranks(xs)), Centered(Ranks(ys));
      DotSymmetric(rx, ry);
      if Dot(rx, rx) * Dot(ry, ry) != 0.0 { SignedSquareSymmetric(Dot(rx, ry), Dot(rx, rx), Dot(ry, ry)); }
    }
  }

  /** ys arranges its values in the same order as xs. */
  ghost predicate SameOrder(xs: seq<real>, ys: seq<real>) {
    |xs| == |ys| && forall i, j | 0 <= i < |xs| && 0 <= j < |xs| :: xs[i] < xs[j] <==> ys[i] < ys[j]
  }

  ghost predicate OppositeOrder(xs: seq<real>, ys: seq<real>) {
    |xs| == |ys| && forall i, j | 0 <= i < |xs| && 0 <= j < |xs| :: xs[i] < xs[j] <==> ys[j] < ys[i]
  }

  lemma {:induction false} SameCounts(a: seq<real>, x: real, b: seq<real>, y: real)
    requires |a| == |b|
    requires forall j | 0 <= j < |a| :: (a[j] < x <==> b[j] < y) && (a[j] > x <==> b[j] > y)
    ensures Below(a, x) == Below(b, y) && Equal(a, x) == Equal(b, y)
  {
    if a != [] { SameCounts(a[1..], x, b[1..], y); }
  }

  lemma {:induction false} OppositeCounts(a: seq<real>, x: real, b: seq<real>, y: real)
    requires |a| == |b|
    requires forall j | 0 <= j < |a| :: (a[j] < x <==> b[j] > y) && (a[j] > x <==> b[j] < y)
    ensures Above(a, x) == Below(b, y) && Equal(a, x) == Equal(b, y)
  {
    if a != [] { OppositeCounts(a[1..], x, b[1..], y); }
  }

  lemma SameOrderSameRanks(xs: seq<real>, ys: seq<real>)
    requires SameOrder(xs, ys)
    ensures Ranks(xs) == Ranks(ys)
  {
    forall i | 0 <= i < |xs| ensures Ranks(xs)[i] == Ranks(ys)[i] {
      SameCounts(xs, xs[i], ys, ys[i]);
    }
  }

  /** Only the order of each side matters: a strictly increasing change of scale
      on either side leaves the coefficient as it was. */
  lemma SpearmanInvariant(xs: seq<real>, xs': seq<real>, ys: seq<real>)
    requires SameOrder(xs, xs')
    ensures Spearman(xs, ys) == Spearman(xs', ys)
  {
    SameOrderSameRanks(xs, xs');
    if xs != [] { VarianceVanishes(xs); VarianceVanishes(xs'); }
  }

  lemma QuotientIs(num: real, p: real, q: real)
    requires p != 0.0 && num == q * p
    ensures num / p == q
  {
  }

  lemma SelfRatio(p: real)
    requires p > 0.0
    ensures SignedSquare(p, p, p) == 1.0 && SignedSquare(-p, p, p) == -1.0
  {
    ProductPositive(p, p, p * p);
    QuotientIs(p * Abs(p), p * p, 1.0);
    assert -p * Abs(-p) == -1.0 * (p * p);
    QuotientIs(-p * Abs(-p), p * p, -1.0);
  }

  /** The score is 1 on sides in the same order and -1 on sides in opposite order. */
  lemma SpearmanExtremes(xs: seq<real>, ys: seq<real>)
    requires Spearman(xs, ys).Some?
    ensures SameOrder(xs, ys) ==> Spearman(xs, ys) == Some(1.0)
    ensures OppositeOrder(xs, ys) ==> Spearman(xs, ys) == Some(-1.0)
  {
    var rx, ry := Centered(Ranks(xs)), Centered(Ranks(ys));
    DotSelf(rx);
    RootsOfOne();
    if SameOrder(xs, ys) {
      SameOrderSameRanks(xs, ys);
      SelfRatio(Dot(rx, rx));
    }
    if OppositeOrder(xs, ys) {
      OppositeCentered(xs, ys);
      DotNegated(rx, ry);
      SelfRatio(Dot(rx, rx));
    }
  }

  lemma RootsOfOne()
    ensures RoundedRoot(1.0) == 1.0 && RoundedRoot(-1.0) == -1.0
  {
    RoundedRootIs(1.0);
    RoundedRootIs(-1.0);
  }

  lemma OppositeRank(xs: seq<real>, ys: seq<real>, i: int)
    requires OppositeOrder(xs, ys) && 0 <= i < |xs|
    ensures Ranks(ys)[i] == |xs| as real + 1.0 - Ranks(xs)[i]
  {
    OppositeCounts(xs, xs[i], ys, ys[i]);
    Trichotomy(xs, xs[i]);
  }

  lemma OppositeCentered(xs: seq<real>, ys: seq<real>)
    requires OppositeOrder(xs, ys) && xs != []
    ensures forall i | 0 <= i < |xs| :: Centered(Ranks(ys))[i] == -Centered(Ranks(xs))[i]
  {
    MeanOfRanks(xs); MeanOfRanks(ys);
    forall i | 0 <= i < |xs| ensures Centered(Ranks(ys))[i] == -Centered(Ranks(xs))[i] {
      OppositeRank(xs, ys, i);
    }
  }

  lemma MeanOfRanks(v: seq<real>)
    requires v != []
    ensures Mean(Ranks(v)) == (|v| as real + 1.0) / 2.0
  {
    RanksSum(v);
    HalfProduct(Sum(Ranks(v)), |v|);
  }

  lemma RealProduct(m: int, n: int)
    ensures (m * n) as real == m as real * n as real
  {
  }

  lemma HalfProduct(sum: real, n: int)
    requires n > 0 && 2.0 * sum == (n * (n + 1)) as real
    ensures sum / n as real == (n as real + 1.0) / 2.0
  {
    var m := n + 1;
    RealProduct(n, m);
    QuotientIs(sum, n as real, m as real / 2.0);
  }

  lemma {:induction false} DotNegated(a: seq<real>, b: seq<real>)
    requires |a| == |b| && forall i | 0 <= i < |a| :: b[i] == -a[i]
    ensures Dot(a, b) == -Dot(a, a) && Dot(b, b) == Dot(a, a)
  {
    if a != [] { DotNegated(a[1..], b[1..]); }
  }

  // ---- the score is the rounded coefficient ----

  /** The computed score is the coefficient of the definition, rounded half to even
      at four digits: for any positive roots of the variances and any rho with
      rho * rootX * rootY equal to the covariance. */
  lemma SpearmanIsRoundedRho(xs: seq<real>, ys: seq<real>, rho: real, rootX: real, rootY: real)
    requires Spearman(xs, ys).Some? && rootX > 0.0 && rootY > 0.0
    requires rootX * rootX == Dot(Centered(Ranks(xs)), Centered(Ranks(xs)))
    requires rootY * rootY == Dot(Centered(Ranks(ys)), Centered(Ranks(ys)))
    requires rho * (rootX * rootY) == Dot(Centered(Ranks(xs)), Centered(Ranks(ys)))
    ensures -1.0 <= rho <= 1.0 && Spearman(xs, ys) == Some(Round4(rho))
  {
    var rx, ry := Centered(Ranks(xs)), Centered(Ranks(ys));
    SignedSquareOfRho(rho, Dot(rx, ry), rootX, rootY, Dot(rx, rx), Dot(ry, ry));
    CenteredRange(rx, ry);
    RhoInRange(rho);
    RoundedRootIs(rho);
  }

  lemma RhoInRange(rho: real)
    requires -1.0 <= Signed(rho) <= 1.0
    ensures -1.0 <= rho <= 1.0
  {
    SignedKeepsOrder(rho, -1.0);
    SignedKeepsOrder(1.0, rho);
  }

  lemma RoundedRootIs(rho: real)
    requires -1.0 <= rho <= 1.0
    ensures Signed(rho) <= 1.0 && RoundedRoot(Signed(rho)) == Round4(rho)
  {
    SignedKeepsOrder(1.0, rho);
    var k := LeastFrom(Signed(rho), -10000);
    var n := NearestInt(rho * 10000.0);
    RoundsToNearest(rho, k);
    RoundsToNearest(rho, n);
    NearestIntMonotone(-10000.0, rho * 10000.0);
    assert RoundsTo(Signed(rho), n);
  }

  lemma RoundsToNearest(rho: real, k: int)
    ensures RoundsTo(Signed(rho), k) <==> NearestInt(rho * 10000.0) <= k
  {
    var half := (k as real + 0.5) / 10000.0;
    SignedKeepsOrder(rho, half);
    SignedKeepsOrder(half, rho);
    NearestIntBelow(rho * 10000.0, k);
  }

  lemma NearestIntBelow(y: real, k: int)
    ensures NearestInt(y) <= k <==> y < k as real + 0.5 || (y == k as real + 0.5 && k % 2 == 0)
  {
    var f := y.Floor;
    if f < k { assert y < (f + 1) as real <= k as real; }
    if f > k { assert y >= f as real >= (k + 1) as real; }
  }

  /** For any square roots of the variances, the quotient rho has this signed
      square. */
  lemma SignedSquareOfRho(rho: real, cov: real, rootX: real, rootY: real, varX: real, varY: real)
    requires rootX > 0.0 && rootY > 0.0 && rho * (rootX * rootY) == cov
    requires varX == rootX * rootX && varY == rootY * rootY
    ensures varX * varY != 0.0 && SignedSquare(cov, varX, varY) == Signed(rho)
  {
    var r, p := rootX * rootY, varX * varY;
    PositiveProduct(rootX, rootY);
    assert r * r == p;
    ProductPositive(r, r, p);
    AbsOfScaled(rho, r);
    assert Signed(cov) == Signed(rho) * p by { Regroup(rho, Abs(rho), r); }
    QuotientIs(Signed(cov), p, Signed(rho));
  }

  lemma Regroup(a: real, b: real, p: real)
    ensures (a * p) * (b * p) == (a * b) * (p * p)
  {
  }

  lemma AbsOfScaled(x: real, p: real)
    requires p > 0.0
    ensures Abs(x * p) == Abs(x) * p
  {
    if x > 0.0 { PositiveProduct(x, p); } else if x < 0.0 { PositiveProduct(-x, p); assert (-x) * p == -(x * p); }
  }

  lemma SignedKeepsOrder(r: real, s: real)
    ensures r < s <==> Signed(r) < Signed(s)
  {
    if r < s { SignedIncreases(r, s); }
    if s < r { SignedIncreases(s, r); }
  }

  lemma SignedIncreases(r: real, s: real)
    requires r < s
    ensures Signed(r) < Signed(s)
  {
    if 0.0 <= r {
      ProductPositive(s - r, s + r, Signed(s) - Signed(r));
    } else if s <= 0.0 {
      ProductPositive(s - r, -(s + r), Signed(s) - Signed(r));
    } else {
      ProductPositive(s, s, Signed(s));
      ProductPositive(-r, -r, -Signed(r));
    }
  }
}
