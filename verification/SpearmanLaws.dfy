/** What the validity score of scripts/measure-policy-validity.py is worth: it does not
    depend on the order of the topics, and without ties it is the textbook number. */
module SpearmanLaws {
  import opened Text
  import opened Rounding
  import opened Sorting
  import opened Statistics

  // ---- sums over pairs ----

  function Zip(xs: seq<real>, ys: seq<real>): (r: seq<(real, real)>)
    requires |xs| == |ys|
    ensures |r| == |xs|
  {
    seq(|xs|, i requires 0 <= i < |xs| => (xs[i], ys[i]))
  }

  function SumOver<T>(s: seq<T>, f: T -> real): real {
    if s == [] then 0.0 else f(s[0]) + SumOver(s[1..], f)
  }

  lemma {:induction false} SumOverConcat<T>(a: seq<T>, b: seq<T>, f: T -> real)
    ensures SumOver(a + b, f) == SumOver(a, f) + SumOver(b, f)
  {
    if a == [] {
      EmptyConcat(b);
    } else {
      ConcatHead(a, b);
      SumOverConcat(a[1..], b, f);
    }
  }

  lemma {:induction false} SumOverPermutes<T>(a: seq<T>, b: seq<T>, f: T -> real)
    requires multiset(a) == multiset(b)
    ensures SumOver(a, f) == SumOver(b, f)
  {
    if a == [] {
      assert |multiset(b)| == 0;
    } else {
      var k := DropFirst(a, b);
      var pre, post := b[..k], b[k + 1..];
      SumOverPermutes(a[1..], pre + post, f);
      SumOverConcat(pre, post, f);
      SumOverConcat(pre, [b[k]] + post, f);
      ConcatHead([b[k]], post);
      assert [b[k]][1..] + post == post;
      assert b == pre + ([b[k]] + post);
    }
  }

  lemma {:induction false} SumOverSame<T>(s: seq<T>, f: T -> real, g: T -> real)
    requires forall x | x in s :: f(x) == g(x)
    ensures SumOver(s, f) == SumOver(s, g)
  {
    if s != [] { SumOverSame(s[1..], f, g); }
  }

  /** The moment of two signals is the sum, over positions, of their products. */
  lemma {:induction false} DotIsSum<T>(a: seq<real>, b: seq<real>, s: seq<T>, f: T -> real)
    requires |a| == |b| == |s| && forall i | 0 <= i < |s| :: f(s[i]) == a[i] * b[i]
    ensures Dot(a, b) == SumOver(s, f)
  {
    if s != [] { DotIsSum(a[1..], b[1..], s[1..], f); }
  }

  // ---- the order of the topics does not matter ----

  function Firsts(ps: seq<(real, real)>): (r: seq<real>)
    ensures |r| == |ps|
  {
    seq(|ps|, i requires 0 <= i < |ps| => ps[i].0)
  }

  function Seconds(ps: seq<(real, real)>): (r: seq<real>)
    ensures |r| == |ps|
  {
    seq(|ps|, i requires 0 <= i < |ps| => ps[i].1)
  }

  lemma {:induction false} SidesPermute(a: seq<(real, real)>, b: seq<(real, real)>)
    requires multiset(a) == multiset(b)
    ensures multiset(Firsts(a)) == multiset(Firsts(b)) && multiset(Seconds(a)) == multiset(Seconds(b))
  {
    if a == [] {
      assert |multiset(b)| == 0;
    } else {
      var k := DropFirst(a, b);
      var pre, post := b[..k], b[k + 1..];
      SidesPermute(a[1..], pre + post);
      SidesConcat([a[0]], a[1..]); SidesConcat(pre, post);
      SidesConcat(pre, [a[0]] + post); SidesConcat([a[0]], post);
      assert a == [a[0]] + a[1..] && b == pre + ([a[0]] + post);
    }
  }

  lemma SidesConcat(a: seq<(real, real)>, b: seq<(real, real)>)
    ensures Firsts(a + b) == Firsts(a) + Firsts(b) && Seconds(a + b) == Seconds(a) + Seconds(b)
  {
  }

  lemma RankPermutes(v: seq<real>, w: seq<real>, x: real)
    requires multiset(v) == multiset(w)
    ensures RankIn(v, x) == RankIn(w, x)
  {
    FilterCount(v, w, (y: real) => y < x);
    FilterCount(v, w, (y: real) => y == x);
  }

  /** The rank of x among v, less the mean of all ranks. */
  function Deviation(v: seq<real>, x: real): real { RankIn(v, x) - (|v| as real + 1.0) / 2.0 }

  lemma CenteredIs(v: seq<real>, i: nat)
    requires i < |v|
    ensures Centered(Ranks(v))[i] == Deviation(v, v[i])
  {
    MeanOfRanks(v);
  }

  function Product(xs: seq<real>, ys: seq<real>): ((real, real)) -> real {
    (p: (real, real)) => Times(Deviation(xs, p.0), Deviation(ys, p.1))
  }

  function Times(x: real, y: real): real { x * y }

  lemma CovarianceIsSum(xs: seq<real>, ys: seq<real>)
    requires |xs| == |ys|
    ensures Dot(Centered(Ranks(xs)), Centered(Ranks(ys))) == SumOver(Zip(xs, ys), Product(xs, ys))
  {
    var a, b, ps, f := Centered(Ranks(xs)), Centered(Ranks(ys)), Zip(xs, ys), Product(xs, ys);
    forall i | 0 <= i < |ps| ensures f(ps[i]) == a[i] * b[i] { ProductAt(xs, ys, i, a[i], b[i]); }
    DotIsSum(a, b, ps, f);
  }

  lemma ProductAt(xs: seq<real>, ys: seq<real>, i: nat, x: real, y: real)
    requires i < |xs| == |ys| && x == Centered(Ranks(xs))[i] && y == Centered(Ranks(ys))[i]
    ensures Product(xs, ys)(Zip(xs, ys)[i]) == x * y
  {
    CenteredIs(xs, i); CenteredIs(ys, i);
  }

  lemma CovariancePermutes(xs: seq<real>, ys: seq<real>, us: seq<real>, vs: seq<real>)
    requires |xs| == |ys| && |us| == |vs| && multiset(Zip(xs, ys)) == multiset(Zip(us, vs))
    ensures Dot(Centered(Ranks(xs)), Centered(Ranks(ys))) == Dot(Centered(Ranks(us)), Centered(Ranks(vs)))
  {
    CovarianceIsSum(xs, ys); CovarianceIsSum(us, vs);
    SidesPermute(Zip(xs, ys), Zip(us, vs));
    SidesOfZip(xs, ys); SidesOfZip(us, vs);
    SumsAgree(Zip(xs, ys), Zip(us, vs), xs, ys, us, vs);
  }

  lemma SumsAgree(a: seq<(real, real)>, b: seq<(real, real)>, xs: seq<real>, ys: seq<real>, us: seq<real>,
                  vs: seq<real>)
    requires multiset(a) == multiset(b) && multiset(xs) == multiset(us) && multiset(ys) == multiset(vs)
    ensures SumOver(a, Product(xs, ys)) == SumOver(b, Product(us, vs))
  {
    forall p | p in a ensures Product(xs, ys)(p) == Product(us, vs)(p) { SameProduct(p, xs, ys, us, vs); }
    SumOverSame(a, Product(xs, ys), Product(us, vs));
    SumOverPermutes(a, b, Product(us, vs));
  }

  lemma SameProduct(p: (real, real), xs: seq<real>, ys: seq<real>, us: seq<real>, vs: seq<real>)
    requires multiset(xs) == multiset(us) && multiset(ys) == multiset(vs)
    ensures Product(xs, ys)(p) == Product(us, vs)(p)
  {
    DeviationPermutes(xs, us, p.0);
    DeviationPermutes(ys, vs, p.1);
  }

  lemma DeviationPermutes(v: seq<real>, w: seq<real>, x: real)
    requires multiset(v) == multiset(w)
    ensures Deviation(v, x) == Deviation(w, x)
  {
    assert |v| == |multiset(v)| == |multiset(w)| == |w|;
    RankPermutes(v, w, x);
  }

  lemma SidesOfZip(xs: seq<real>, ys: seq<real>)
    requires |xs| == |ys|
    ensures Firsts(Zip(xs, ys)) == xs && Seconds(Zip(xs, ys)) == ys
  {
  }

  lemma ConstantPermutes(v: seq<real>, w: seq<real>)
    requires multiset(v) == multiset(w)
    ensures Constant(v) <==> Constant(w)
  {
    if Constant(v) { ConstantStays(v, w); }
    if Constant(w) { ConstantStays(w, v); }
  }

  lemma ConstantStays(v: seq<real>, w: seq<real>)
    requires multiset(v) == multiset(w) && Constant(v)
    ensures Constant(w)
  {
    forall i | 0 <= i < |w| ensures w[i] == w[0] {
      assert w[i] in multiset(v) && w[0] in multiset(v);
    }
  }

  lemma SelfZip(v: seq<real>, w: seq<real>)
    requires multiset(v) == multiset(w)
    ensures |v| == |w| && multiset(Zip(v, v)) == multiset(Zip(w, w))
    decreases |v|
  {
    assert |multiset(v)| == |multiset(w)|;
    if v == [] {
      assert |multiset(w)| == 0;
    } else {
      var k := DropFirst(v, w);
      var pre, post := w[..k], w[k + 1..];
      SelfZip(v[1..], pre + post);
      SelfZipConcat([v[0]], v[1..]); SelfZipConcat(pre, post);
      SelfZipConcat(pre, [v[0]] + post); SelfZipConcat([v[0]], post);
      assert v == [v[0]] + v[1..] && w == pre + ([v[0]] + post);
    }
  }

  lemma SelfZipConcat(a: seq<real>, b: seq<real>)
    ensures Zip(a + b, a + b) == Zip(a, a) + Zip(b, b)
  {
  }

  /** Moving the topics of both signals by one permutation keeps the score. */
  lemma SpearmanPermutes(xs: seq<real>, ys: seq<real>, us: seq<real>, vs: seq<real>)
    requires |xs| == |ys| && |us| == |vs| && multiset(Zip(xs, ys)) == multiset(Zip(us, vs))
    ensures Spearman(xs, ys) == Spearman(us, vs)
  {
    SidesPermute(Zip(xs, ys), Zip(us, vs));
    SidesOfZip(xs, ys); SidesOfZip(us, vs);
    assert |multiset(xs)| == |multiset(us)|;
    ConstantPermutes(xs, us); ConstantPermutes(ys, vs);
    CovariancePermutes(xs, ys, us, vs);
    SelfZip(xs, us); CovariancePermutes(xs, xs, us, us);
    SelfZip(ys, vs); CovariancePermutes(ys, ys, vs, vs);
  }

  // ---- without ties ----

  predicate Distinct(v: seq<real>) { forall i, j | 0 <= i < j < |v| :: v[i] != v[j] }

  /** The squares of the distances of 1, ..., m from c. */
  function SquaresTo(m: nat, c: real): real {
    if m == 0 then 0.0 else SquaresTo(m - 1, c) + Squared(m as real - c)
  }

  lemma CubeStep(x: real, c: real, s: real)
    requires 6.0 * s == (x - 1.0) * x * (2.0 * x - 1.0) - 6.0 * c * ((x - 1.0) * x) + 6.0 * (x - 1.0) * (c * c)
    ensures 6.0 * (s + Squared(x - c)) == x * (x + 1.0) * (2.0 * x + 1.0) - 6.0 * c * (x * (x + 1.0))
            + 6.0 * x * (c * c)
  {
  }

  lemma {:induction false} SquaresClosed(m: nat, c: real)
    ensures var x := m as real;
            6.0 * SquaresTo(m, c) == x * (x + 1.0) * (2.0 * x + 1.0) - 6.0 * c * (x * (x + 1.0)) + 6.0 * x * (c * c)
  {
    if m > 0 {
      SquaresClosed(m - 1, c);
      assert (m - 1) as real == m as real - 1.0;
      CubeStep(m as real, c, SquaresTo(m - 1, c));
    }
  }

  lemma CubeMinus(x: real, s: real)
    requires var c := (x + 1.0) / 2.0;
             6.0 * s == x * (x + 1.0) * (2.0 * x + 1.0) - 6.0 * c * (x * (x + 1.0)) + 6.0 * x * (c * c)
    ensures 12.0 * s == x * (x * x - 1.0)
  {
  }

  function RealLe(): (real, real) -> bool { (a: real, b: real) => a <= b }

  lemma SortedAscends(v: seq<real>)
    requires Distinct(v)
    ensures var w := SortBy(v, RealLe());
            |w| == |v| && multiset(w) == multiset(v) && Ascending(w) && Distinct(w)
  {
    var w := SortBy(v, RealLe());
    SortIsPermutation(v, RealLe());
    SortSorts(v, RealLe());
    forall p, q | 0 <= p <= q < |w| ensures w[p] <= w[q] { if p < q { assert RealLe()(w[p], w[q]); } }
    DistinctPermutes(v, w);
  }

  lemma {:induction false} DistinctPermutes(v: seq<real>, w: seq<real>)
    requires Distinct(v) && multiset(v) == multiset(w)
    ensures Distinct(w)
  {
    forall i, j | 0 <= i < j < |w| ensures w[i] != w[j] {
      if w[i] == w[j] {
        TwiceInside(w, i, j);
        OnceInside(v, w[i]);
      }
    }
  }

  lemma TwiceInside(w: seq<real>, i: nat, j: nat)
    requires i < j < |w| && w[i] == w[j]
    ensures multiset(w)[w[i]] >= 2
  {
    assert w == w[..j] + ([w[j]] + w[j + 1..]);
    assert w[..j][i] == w[i];
    assert multiset(w) == multiset(w[..j]) + multiset([w[j]]) + multiset(w[j + 1..]);
    assert w[i] in multiset(w[..j]);
  }

  lemma {:induction false} OnceInside(v: seq<real>, x: real)
    requires Distinct(v)
    ensures multiset(v)[x] <= 1
  {
    if v != [] {
      OnceInside(v[1..], x);
      assert v == [v[0]] + v[1..];
      if v[0] == x { assert x !in v[1..]; }
    }
  }

  /** Without ties the k-th value from below has rank k. */
  lemma RankFromBelow(v: seq<real>, w: seq<real>, k: nat)
    requires multiset(w) == multiset(v) && Ascending(w) && Distinct(w) && k < |w|
    ensures RankIn(v, w[k]) == (k + 1) as real
  {
    assert TieBlock(w, k, k);
    BlockBelow(v, w, k, k);
    BlockEqual(v, w, k, k);
  }

  function Square(v: seq<real>): real -> real { (x: real) => Squared(Deviation(v, x)) }

  lemma {:induction false} PrefixSquares(v: seq<real>, w: seq<real>, m: nat)
    requires multiset(w) == multiset(v) && Ascending(w) && Distinct(w) && m <= |w|
    ensures SumOver(w[..m], Square(v)) == SquaresTo(m, (|v| as real + 1.0) / 2.0)
  {
    if m > 0 {
      PrefixSquares(v, w, m - 1);
      assert w[..m] == w[..m - 1] + [w[m - 1]];
      SumOverConcat(w[..m - 1], [w[m - 1]], Square(v));
      assert [w[m - 1]][1..] == [];
      DeviationFromBelow(v, w, m - 1);
    }
  }

  lemma DeviationFromBelow(v: seq<real>, w: seq<real>, k: nat)
    requires multiset(w) == multiset(v) && Ascending(w) && Distinct(w) && k < |w|
    ensures Deviation(v, w[k]) == (k + 1) as real - (|v| as real + 1.0) / 2.0
  {
    RankFromBelow(v, w, k);
  }

  function Variance(v: seq<real>): real { Dot(Centered(Ranks(v)), Centered(Ranks(v))) }

  lemma SquareAt(v: seq<real>, i: nat, x: real)
    requires i < |v| && x == Centered(Ranks(v))[i]
    ensures Square(v)(v[i]) == x * x
  {
    CenteredIs(v, i);
  }

  lemma VarianceIsSum(v: seq<real>)
    ensures Variance(v) == SumOver(v, Square(v))
  {
    var a, f := Centered(Ranks(v)), Square(v);
    forall i | 0 <= i < |v| ensures f(v[i]) == a[i] * a[i] { SquareAt(v, i, a[i]); }
    DotIsSum(a, a, v, f);
  }

  /** The ranks 1, ..., n have variance n (n^2 - 1) / 12. */
  lemma VarianceOfDistinct(v: seq<real>)
    requires Distinct(v)
    ensures var n := |v| as real; 12.0 * Variance(v) == n * (n * n - 1.0)
  {
    VarianceIsSquares(v);
    SquaresAboutMean(|v|);
  }

  lemma VarianceIsSquares(v: seq<real>)
    requires Distinct(v)
    ensures Variance(v) == SquaresTo(|v|, (|v| as real + 1.0) / 2.0)
  {
    var w := SortBy(v, RealLe());
    VarianceIsSum(v);
    SortedAscends(v);
    SumOverPermutes(v, w, Square(v));
    AllSquares(v, w);
  }

  lemma AllSquares(v: seq<real>, w: seq<real>)
    requires |w| == |v| && multiset(w) == multiset(v) && Ascending(w) && Distinct(w)
    ensures SumOver(w, Square(v)) == SquaresTo(|v|, (|v| as real + 1.0) / 2.0)
  {
    PrefixSquares(v, w, |w|);
    assert w[..|w|] == w;
  }

  lemma SquaresAboutMean(m: nat)
    ensures var n := m as real; 12.0 * SquaresTo(m, (n + 1.0) / 2.0) == n * (n * n - 1.0)
  {
    SquaresClosed(m, (m as real + 1.0) / 2.0);
    CubeMinus(m as real, SquaresTo(m, (m as real + 1.0) / 2.0));
  }

  function SquaredGaps(a: seq<real>, b: seq<real>): (r: seq<real>)
    requires |a| == |b|
    ensures |r| == |a|
  {
    seq(|a|, i requires 0 <= i < |a| => Squared(a[i] - b[i]))
  }

  function Squared(x: real): real { x * x }

  lemma GapStep(x: real, y: real, aa: real, bb: real, ab: real)
    ensures Squared(x - y) + (aa + bb - 2.0 * ab) == (x * x + aa) + (y * y + bb) - 2.0 * (x * y + ab)
  {
  }

  lemma GapsTail(a: seq<real>, b: seq<real>)
    requires |a| == |b| > 0
    ensures SquaredGaps(a, b)[0] == Squared(a[0] - b[0]) && SquaredGaps(a, b)[1..] == SquaredGaps(a[1..], b[1..])
  {
  }

  lemma {:induction false} GapsAndMoments(a: seq<real>, b: seq<real>)
    requires |a| == |b|
    ensures Sum(SquaredGaps(a, b)) == Dot(a, a) + Dot(b, b) - 2.0 * Dot(a, b)
  {
    if a != [] {
      GapsAndMoments(a[1..], b[1..]);
      GapsTail(a, b);
      GapStep(a[0], b[0], Dot(a[1..], a[1..]), Dot(b[1..], b[1..]), Dot(a[1..], b[1..]));
    }
  }

  lemma GapsOfRanks(xs: seq<real>, ys: seq<real>)
    requires |xs| == |ys|
    ensures SquaredGaps(Centered(Ranks(xs)), Centered(Ranks(ys))) == SquaredGaps(Ranks(xs), Ranks(ys))
  {
    forall i | 0 <= i < |xs|
      ensures Centered(Ranks(xs))[i] - Centered(Ranks(ys))[i] == Ranks(xs)[i] - Ranks(ys)[i]
    {
      CenteredIs(xs, i); CenteredIs(ys, i);
    }
  }

  lemma CubePositive(x: real, v: real)
    requires x >= 3.0 && 12.0 * v == x * (x * x - 1.0)
    ensures v > 0.0
  {
    assert x * x >= 9.0;
    assert x * (x * x - 1.0) > 0.0;
  }

  lemma RatioOfGaps(v: real, d: real, cov: real, c: real, rho: real)
    requires v > 0.0 && c == 12.0 * v && 2.0 * cov == 2.0 * v - d && rho == 1.0 - 6.0 * d / c
    ensures cov == rho * v
  {
    assert 6.0 * d / c * c == 6.0 * d;
    assert rho * c == c - 6.0 * d;
  }

  lemma SignedOfRatio(cov: real, v: real, rho: real)
    requires v > 0.0 && cov == rho * v
    ensures v * v != 0.0 && SignedSquare(cov, v, v) == Signed(rho)
  {
    ProductPositive(v, v, v * v);
    AbsOfScaled(rho, v);
    Regroup(rho, Abs(rho), v);
    QuotientIs(Signed(cov), v * v, Signed(rho));
  }

  /** n (n^2 - 1) */
  function Cubic(n: nat): real { n as real * (n as real * n as real - 1.0) }

  /** The sum of the squared differences between the two ranks of each topic. */
  function GapSum(xs: seq<real>, ys: seq<real>): real
    requires |xs| == |ys|
  {
    Sum(SquaredGaps(Ranks(xs), Ranks(ys)))
  }

  function Covariance(xs: seq<real>, ys: seq<real>): real
    requires |xs| == |ys|
  {
    Dot(Centered(Ranks(xs)), Centered(Ranks(ys)))
  }

  /** The textbook formula: without ties the score is 1 - 6 D / (n (n^2 - 1)), rounded,
      where D is the sum of the squared differences between the two ranks of a topic. */
  lemma SpearmanWithoutTies(xs: seq<real>, ys: seq<real>)
    requires |xs| == |ys| >= 3 && Distinct(xs) && Distinct(ys)
    ensures Cubic(|xs|) > 0.0 && Spearman(xs, ys) == Some(Round4(1.0 - 6.0 * GapSum(xs, ys) / Cubic(|xs|)))
  {
    CubicVariance(xs); CubicVariance(ys);
    CovarianceByGaps(xs, ys);
    var rho := 1.0 - 6.0 * GapSum(xs, ys) / Cubic(|xs|);
    RatioOfGaps(Variance(xs), GapSum(xs, ys), Covariance(xs, ys), Cubic(|xs|), rho);
    SpearmanOfRatio(xs, ys, rho);
  }

  lemma CubicVariance(v: seq<real>)
    requires |v| >= 3 && Distinct(v)
    ensures Cubic(|v|) == 12.0 * Variance(v) && Variance(v) > 0.0
  {
    VarianceOfDistinct(v);
    CubePositive(|v| as real, Variance(v));
  }

  lemma CovarianceByGaps(xs: seq<real>, ys: seq<real>)
    requires |xs| == |ys|
    ensures GapSum(xs, ys) == Variance(xs) + Variance(ys) - 2.0 * Covariance(xs, ys)
  {
    GapsOfRanks(xs, ys);
    GapsAndMoments(Centered(Ranks(xs)), Centered(Ranks(ys)));
  }

  lemma SpearmanOfRatio(xs: seq<real>, ys: seq<real>, rho: real)
    requires |xs| == |ys| >= 3 && Distinct(xs) && Distinct(ys)
    requires Variance(xs) == Variance(ys) > 0.0
    requires Covariance(xs, ys) == rho * Variance(xs)
    ensures Spearman(xs, ys) == Some(Round4(rho))
  {
    var rx, ry := Centered(Ranks(xs)), Centered(Ranks(ys));
    assert xs[0] != xs[1] && ys[0] != ys[1];
    SignedOfRatio(Dot(rx, ry), Variance(xs), rho);
    CenteredRange(rx, ry);
    RhoInRange(rho);
    RoundedRootIs(rho);
  }

  lemma RanksOfThree()
    ensures Ranks([1.0, 2.0, 3.0]) == [1.0, 2.0, 3.0] && Ranks([2.0, 1.0, 3.0]) == [2.0, 1.0, 3.0]
  {
    RanksOf(1.0, 2.0, 3.0);
    RanksOf(2.0, 1.0, 3.0);
  }

  lemma RanksOf(a: real, b: real, c: real)
    requires {a, b, c} == {1.0, 2.0, 3.0} && a != b && a != c && b != c
    ensures Ranks([a, b, c]) == [a, b, c]
  {
    RankOf(a, b, c, a);
    RankOf(a, b, c, b);
    RankOf(a, b, c, c);
  }

  lemma RankOf(a: real, b: real, c: real, x: real)
    requires {a, b, c} == {1.0, 2.0, 3.0} && a != b && a != c && b != c && x in {a, b, c}
    ensures RankIn([a, b, c], x) == x
  {
    CountsOfThree(a, b, c, x);
  }

  lemma CountsOfThree(a: real, b: real, c: real, x: real)
    ensures Below([a, b, c], x) == (if a < x then 1 else 0) + (if b < x then 1 else 0) + (if c < x then 1 else 0)
    ensures Equal([a, b, c], x) == (if a == x then 1 else 0) + (if b == x then 1 else 0) + (if c == x then 1 else 0)
  {
    var none: seq<real> := [];
    assert [a, b, c] == [a] + ([b] + ([c] + none));
    CountCons(a, [b] + ([c] + none), x);
    CountCons(b, [c] + none, x);
    CountCons(c, none, x);
  }

  lemma CountCons(a: real, v: seq<real>, x: real)
    ensures Below([a] + v, x) == (if a < x then 1 else 0) + Below(v, x)
    ensures Equal([a] + v, x) == (if a == x then 1 else 0) + Equal(v, x)
  {
    FilterCons(a, v, (y: real) => y < x);
    FilterCons(a, v, (y: real) => y == x);
  }

  lemma CubicOfThree()
    ensures Cubic(3) == 24.0
  {
  }

  lemma GapsOfThree()
    ensures GapSum([1.0, 2.0, 3.0], [2.0, 1.0, 3.0]) == 2.0
  {
    RanksOfThree();
    SumOfThree(SquaredGaps([1.0, 2.0, 3.0], [2.0, 1.0, 3.0]));
  }

  lemma SumOfThree(v: seq<real>)
    requires |v| == 3
    ensures Sum(v) == v[0] + v[1] + v[2]
  {
    var b := v[1..];
    var c := b[1..];
    assert b[0] == v[1] && c[0] == v[2] && c[1..] == [];
    assert Sum(c) == v[2] + Sum(c[1..]) && Sum(b) == v[1] + Sum(c);
  }

  lemma HalfIsHalf()
    ensures Round4(1.0 - 6.0 * 2.0 / 24.0) == 0.5
  {
  }

  lemma ThreeApart(a: real, b: real, c: real)
    requires a != b && a != c && b != c
    ensures Distinct([a, b, c]) && |[a, b, c]| == 3
  {
  }

  /** Credits 1, 2, 3 against field counts 2, 1, 3 agree to one half. */
  lemma SpearmanOfThree()
    ensures Spearman([1.0, 2.0, 3.0], [2.0, 1.0, 3.0]) == Some(0.5)
  {
    var xs, ys := [1.0, 2.0, 3.0], [2.0, 1.0, 3.0];
    ThreeApart(1.0, 2.0, 3.0); ThreeApart(2.0, 1.0, 3.0);
    GapsOfThree();
    CubicOfThree();
    HalfIsHalf();
    SpearmanWithoutTies(xs, ys);
  }
}
