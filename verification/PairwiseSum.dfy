/**
 * Blocked pairwise summation over an arbitrary addition. Floating-point addition is not associative,
 * so the result is described as a fixed expression in `add` and `zero`.
 */
module PairwiseSum {

  const STRIPE: nat := 16
  const LIMIT: nat := 128  // PAIRWISE_RECURSION_LIMIT

  datatype Arith<!F> = Arith(zero: F, add: (F, F) -> F)

  // The sums as expressions.

  /** Left-to-right summation, as `Iterator::sum`. */
  function Fold<F>(a: Arith<F>, xs: seq<F>): F {
    if xs == [] then a.zero else a.add(Fold(a, xs[..|xs| - 1]), xs[|xs| - 1])
  }

  /** Element-wise addition. */
  function AddLanes<F>(a: Arith<F>, xs: seq<F>, ys: seq<F>): (r: seq<F>)
    requires |xs| == |ys|
    ensures |r| == |xs|
    ensures forall j :: 0 <= j < |xs| ==> r[j] == a.add(xs[j], ys[j])
  {
    seq(|xs|, j requires 0 <= j < |xs| => a.add(xs[j], ys[j]))
  }

  /** A vector folded onto itself. */
  function Halve<F>(a: Arith<F>, v: seq<F>): (r: seq<F>)
    requires |v| % 2 == 0
    ensures |r| == |v| / 2
  {
    AddLanes(a, v[..|v| / 2], v[|v| / 2..])
  }

  /** `vector_horizontal_sum`. */
  function HorizontalSum<F>(a: Arith<F>, v: seq<F>): F
    requires |v| == STRIPE
  {
    var w := Halve(a, Halve(a, v));
    a.add(a.add(w[0], w[2]), a.add(w[1], w[3]))
  }

  /** The lane accumulators after `chunks` stripes of a block. */
  function Lanes<F>(a: Arith<F>, x: seq<F>, chunks: nat): (v: seq<F>)
    requires |x| >= chunks * STRIPE
    ensures |v| == STRIPE
  {
    if chunks == 0 then seq(STRIPE, _ => a.zero)
    else AddLanes(a, Lanes(a, x, chunks - 1), x[(chunks - 1) * STRIPE..chunks * STRIPE])
  }

  function BlockSum<F>(a: Arith<F>, x: seq<F>): F
    requires |x| == LIMIT
  {
    HorizontalSum(a, Lanes(a, x, LIMIT / STRIPE))
  }

  ghost predicate Blocked(n: nat) {
    n > 0 && n % LIMIT == 0
  }

  function LeftLength(n: nat): (left: nat)
    requires Blocked(n) && n > LIMIT
    ensures 0 < left < n && Blocked(left) && Blocked(n - left)
  {
    n / LIMIT / 2 * LIMIT
  }

  /** `pairwise_sum`. */
  function Pairwise<F>(a: Arith<F>, x: seq<F>): F
    requires Blocked(|x|)
    decreases |x|
  {
    if |x| == LIMIT then BlockSum(a, x)
    else
      var left := LeftLength(|x|);
      a.add(Pairwise(a, x[..left]), Pairwise(a, x[left..]))
  }

  /** `FloatSum::sum`: the blocked part behind the remainder, then the remainder. */
  function Sum<F>(a: Arith<F>, x: seq<F>): F {
    var remainder := |x| % LIMIT;
    var main := if |x| > remainder then Pairwise(a, x[remainder..]) else a.zero;
    a.add(main, Fold(a, x[..remainder]))
  }

  /** Masked elements count as zero. */
  function Select<F>(zero: F, x: seq<F>, mask: seq<bool>): (r: seq<F>)
    requires |x| == |mask|
    ensures |r| == |x|
    ensures forall i :: 0 <= i < |x| ==> r[i] == if mask[i] then x[i] else zero
  {
    seq(|x|, i requires 0 <= i < |x| => if mask[i] then x[i] else zero)
  }

  // The algorithm.

  method VectorHorizontalSum<F>(a: Arith<F>, v: array<F>) returns (r: F)
    requires v.Length == STRIPE
    modifies v
    ensures r == HorizontalSum(a, old(v[..]))
  {
    ghost var v0 := v[..];
    var width := STRIPE;
    while width > 4
      invariant width in {4, 8, 16}
      invariant v[..width] == if width == 16 then v0 else if width == 8 then Halve(a, v0) else Halve(a, Halve(a, v0))
    {
      FoldVector(a, v, width);
      width := width / 2;
    }
    assert v[..4][0] == v[0] && v[..4][1] == v[1] && v[..4][2] == v[2] && v[..4][3] == v[3];
    r := a.add(a.add(v[0], v[2]), a.add(v[1], v[3]));
  }

  method FoldVector<F>(a: Arith<F>, v: array<F>, width: nat)
    requires width <= v.Length && width % 2 == 0
    modifies v
    ensures v[..width / 2] == Halve(a, old(v[..width]))
  {
    for j := 0 to width / 2
      invariant forall k :: 0 <= k < j ==> v[k] == a.add(old(v[k]), old(v[width / 2 + k]))
      invariant forall k :: j <= k < v.Length ==> v[k] == old(v[k])
    {
      v[j] := a.add(v[j], v[width / 2 + j]);
    }
    ghost var half := Halve(a, old(v[..width]));
    assert forall k :: 0 <= k < width / 2 ==> v[..width / 2][k] == half[k];
  }

  function Map<T, F>(cast: T -> F, f: seq<T>): (r: seq<F>)
    ensures |r| == |f|
    ensures forall i :: 0 <= i < |f| ==> r[i] == cast(f[i])
  {
    seq(|f|, i requires 0 <= i < |f| => cast(f[i]))
  }

  /** The values an addition sees: cast, and zero where the mask is unset. */
  function Masked<T, F>(a: Arith<F>, cast: T -> F, f: seq<T>, mask: seq<bool>): (r: seq<F>)
    requires |f| == |mask|
    ensures |r| == |f|
  {
    Select(a.zero, Map(cast, f), mask)
  }

  lemma MapSlice<T, F>(cast: T -> F, f: seq<T>, lo: nat, hi: nat)
    requires lo <= hi <= |f|
    ensures Map(cast, f)[lo..hi] == Map(cast, f[lo..hi])
  {
  }

  lemma MaskedSlice<T, F>(a: Arith<F>, cast: T -> F, f: seq<T>, mask: seq<bool>, lo: nat, hi: nat)
    requires |f| == |mask| && lo <= hi <= |f|
    ensures Masked(a, cast, f, mask)[lo..hi] == Masked(a, cast, f[lo..hi], mask[lo..hi])
  {
  }

  /** One stripe: every lane accumulates its element. */
  method AddStripe<F>(a: Arith<F>, vsum: array<F>, stripe: seq<F>)
    requires vsum.Length == |stripe|
    modifies vsum
    ensures vsum[..] == AddLanes(a, old(vsum[..]), stripe)
  {
    for j := 0 to vsum.Length
      invariant forall k :: 0 <= k < j ==> vsum[k] == a.add(old(vsum[k]), stripe[k])
      invariant forall k :: j <= k < vsum.Length ==> vsum[k] == old(vsum[k])
    {
      vsum[j] := a.add(vsum[j], stripe[j]);
    }
  }

  lemma LanesNext<F>(a: Arith<F>, x: seq<F>, i: nat)
    requires |x| >= i * STRIPE + STRIPE
    ensures Lanes(a, x, i + 1) == AddLanes(a, Lanes(a, x, i), x[i * STRIPE..i * STRIPE + STRIPE])
  {
  }

  /** `sum_block_vectorized`. */
  method SumBlock<T, F>(a: Arith<F>, cast: T -> F, block: seq<T>) returns (r: F)
    requires |block| == LIMIT
    ensures r == BlockSum(a, Map(cast, block))
  {
    ghost var x := Map(cast, block);
    var vsum := new F[STRIPE](_ => a.zero);
    assert vsum[..] == Lanes(a, x, 0);
    hide Map, AddLanes, Lanes;
    for i := 0 to LIMIT / STRIPE
      invariant vsum[..] == Lanes(a, x, i)
    {
      var lo, hi := i * STRIPE, i * STRIPE + STRIPE;
      MapSlice(cast, block, lo, hi);
      LanesNext(a, x, i);
      AddStripe(a, vsum, Map(cast, block[lo..hi]));
    }
    r := VectorHorizontalSum(a, vsum);
  }

  /** `sum_block_vectorized_with_mask`. */
  method SumBlockWithMask<T, F>(a: Arith<F>, cast: T -> F, block: seq<T>, mask: seq<bool>) returns (r: F)
    requires |block| == |mask| == LIMIT
    ensures r == BlockSum(a, Masked(a, cast, block, mask))
  {
    ghost var x := Masked(a, cast, block, mask);
    var vsum := new F[STRIPE](_ => a.zero);
    assert vsum[..] == Lanes(a, x, 0);
    hide Masked, AddLanes, Lanes;
    for i := 0 to LIMIT / STRIPE
      invariant vsum[..] == Lanes(a, x, i)
    {
      var lo, hi := i * STRIPE, i * STRIPE + STRIPE;
      MaskedSlice(a, cast, block, mask, lo, hi);
      LanesNext(a, x, i);
      AddStripe(a, vsum, Masked(a, cast, block[lo..hi], mask[lo..hi]));
    }
    r := VectorHorizontalSum(a, vsum);
  }

  lemma Halves<T>(s: seq<T>, k: nat)
    requires k <= |s|
    ensures s[0..k] == s[..k] && s[k..|s|] == s[k..]
  {
  }

  /** `pairwise_sum`: recursion on halves of whole blocks. */
  method PairwiseSum<T, F>(a: Arith<F>, cast: T -> F, f: seq<T>) returns (r: F)
    requires Blocked(|f|)
    ensures r == Pairwise(a, Map(cast, f))
    decreases |f|
  {
    if |f| == LIMIT {
      r := SumBlock(a, cast, f);
    } else {
      var left := LeftLength(|f|);
      MapSlice(cast, f, 0, left);
      MapSlice(cast, f, left, |f|);
      Halves(f, left);
      Halves(Map(cast, f), left);
      var l := PairwiseSum(a, cast, f[..left]);
      var m := PairwiseSum(a, cast, f[left..]);
      r := a.add(l, m);
    }
  }

  /** `pairwise_sum_with_mask`: the mask is split where the values are. */
  method PairwiseSumWithMask<T, F>(a: Arith<F>, cast: T -> F, f: seq<T>, mask: seq<bool>) returns (r: F)
    requires Blocked(|f|) && |f| == |mask|
    ensures r == Pairwise(a, Masked(a, cast, f, mask))
    decreases |f|
  {
    if |f| == LIMIT {
      r := SumBlockWithMask(a, cast, f, mask);
    } else {
      var left := LeftLength(|f|);
      hide Masked, LeftLength;
      MaskedSlice(a, cast, f, mask, 0, left);
      MaskedSlice(a, cast, f, mask, left, |f|);
      Halves(f, left);
      Halves(mask, left);
      Halves(Masked(a, cast, f, mask), left);
      PairwiseSplit(a, Masked(a, cast, f, mask));
      hide Pairwise;
      var l := PairwiseSumWithMask(a, cast, f[..left], mask[..left]);
      var m := PairwiseSumWithMask(a, cast, f[left..], mask[left..]);
      r := a.add(l, m);
    }
  }

  /** `FloatSum::sum`. */
  method FloatSum<T, F>(a: Arith<F>, cast: T -> F, f: seq<T>) returns (r: F)
    ensures r == Sum(a, Map(cast, f))
  {
    var remainder := |f| % LIMIT;
    MapSlice(cast, f, 0, remainder);
    MapSlice(cast, f, remainder, |f|);
    Halves(f, remainder);
    Halves(Map(cast, f), remainder);
    var main := a.zero;
    if |f| > remainder {
      main := PairwiseSum(a, cast, f[remainder..]);
    }
    var rest := SumRest(a, Map(cast, f[..remainder]));
    r := a.add(main, rest);
  }

  /** `FloatSum::sum_with_validity`. */
  method FloatSumWithValidity<T, F>(a: Arith<F>, cast: T -> F, f: seq<T>, mask: seq<bool>) returns (r: F)
    requires |f| == |mask|
    ensures r == Sum(a, Masked(a, cast, f, mask))
  {
    var remainder := |f| % LIMIT;
    MaskedSlice(a, cast, f, mask, 0, remainder);
    MaskedSlice(a, cast, f, mask, remainder, |f|);
    Halves(f, remainder);
    Halves(mask, remainder);
    Halves(Masked(a, cast, f, mask), remainder);
    hide Masked;
    var main := a.zero;
    if |f| > remainder {
      main := PairwiseSumWithMask(a, cast, f[remainder..], mask[remainder..]);
    }
    var rest := SumRest(a, Masked(a, cast, f[..remainder], mask[..remainder]));
    r := a.add(main, rest);
  }

  method SumRest<F>(a: Arith<F>, xs: seq<F>) returns (r: F)
    ensures r == Fold(a, xs)
  {
    r := a.zero;
    for i := 0 to |xs|
      invariant r == Fold(a, xs[..i])
    {
      assert xs[..i + 1][..i] == xs[..i];
      r := a.add(r, xs[i]);
    }
    assert xs[..|xs|] == xs;
  }

  /** With every element valid, the masked sum is the same expression as the unmasked one. */
  lemma AllValid<T, F>(a: Arith<F>, cast: T -> F, f: seq<T>, mask: seq<bool>)
    requires |f| == |mask| && forall i :: 0 <= i < |mask| ==> mask[i]
    ensures Sum(a, Masked(a, cast, f, mask)) == Sum(a, Map(cast, f))
  {
    assert Masked(a, cast, f, mask) == Map(cast, f);
  }

  // Exact arithmetic.

  ghost predicate CommutativeMonoid<F(!new)>(a: Arith<F>) {
    && (forall x, y :: a.add(x, y) == a.add(y, x))
    && (forall x, y, z :: a.add(a.add(x, y), z) == a.add(x, a.add(y, z)))
    && (forall x :: a.add(x, a.zero) == x)
  }

  lemma Commute<F(!new)>(a: Arith<F>, x: F, y: F)
    requires CommutativeMonoid(a)
    ensures a.add(x, y) == a.add(y, x)
  {
  }

  lemma Associate<F(!new)>(a: Arith<F>, x: F, y: F, z: F)
    requires CommutativeMonoid(a)
    ensures a.add(a.add(x, y), z) == a.add(x, a.add(y, z))
  {
  }

  lemma Unit<F(!new)>(a: Arith<F>, x: F)
    requires CommutativeMonoid(a)
    ensures a.add(x, a.zero) == x && a.add(a.zero, x) == x
  {
  }

  lemma Swap<F(!new)>(a: Arith<F>, p: F, q: F, r: F, s: F)
    requires CommutativeMonoid(a)
    ensures a.add(a.add(p, q), a.add(r, s)) == a.add(a.add(p, r), a.add(q, s))
  {
    hide CommutativeMonoid;
    calc {
      a.add(a.add(p, q), a.add(r, s));
      { Associate(a, p, q, a.add(r, s)); }
      a.add(p, a.add(q, a.add(r, s)));
      { Associate(a, q, r, s); }
      a.add(p, a.add(a.add(q, r), s));
      { Commute(a, q, r); }
      a.add(p, a.add(a.add(r, q), s));
      { Associate(a, r, q, s); }
      a.add(p, a.add(r, a.add(q, s)));
      { Associate(a, p, r, a.add(q, s)); }
      a.add(a.add(p, r), a.add(q, s));
    }
  }

  lemma {:induction false} FoldConcat<F(!new)>(a: Arith<F>, xs: seq<F>, ys: seq<F>)
    requires CommutativeMonoid(a)
    ensures Fold(a, xs + ys) == a.add(Fold(a, xs), Fold(a, ys))
  {
    hide CommutativeMonoid;
    if ys == [] {
      assert xs + ys == xs;
      Unit(a, Fold(a, xs));
    } else {
      var front, last := ys[..|ys| - 1], ys[|ys| - 1];
      assert (xs + ys)[..|xs + ys| - 1] == xs + front;
      FoldConcat(a, xs, front);
      Associate(a, Fold(a, xs), Fold(a, front), last);
    }
  }

  lemma {:induction false} FoldLanes<F(!new)>(a: Arith<F>, xs: seq<F>, ys: seq<F>)
    requires CommutativeMonoid(a) && |xs| == |ys|
    ensures Fold(a, AddLanes(a, xs, ys)) == a.add(Fold(a, xs), Fold(a, ys))
  {
    hide CommutativeMonoid;
    if xs == [] {
      Unit(a, a.zero);
    } else {
      var k := |xs| - 1;
      assert AddLanes(a, xs, ys)[..k] == AddLanes(a, xs[..k], ys[..k]);
      FoldLanes(a, xs[..k], ys[..k]);
      Swap(a, Fold(a, xs[..k]), Fold(a, ys[..k]), xs[k], ys[k]);
    }
  }

  lemma FoldHalve<F(!new)>(a: Arith<F>, v: seq<F>)
    requires CommutativeMonoid(a) && |v| % 2 == 0
    ensures Fold(a, Halve(a, v)) == Fold(a, v)
  {
    hide CommutativeMonoid, Fold;
    var k := |v| / 2;
    FoldLanes(a, v[..k], v[k..]);
    FoldConcat(a, v[..k], v[k..]);
    assert v == v[..k] + v[k..];
  }

  lemma FoldFour<F(!new)>(a: Arith<F>, w: seq<F>)
    requires CommutativeMonoid(a) && |w| == 4
    ensures a.add(a.add(w[0], w[2]), a.add(w[1], w[3])) == Fold(a, w)
  {
    hide CommutativeMonoid, Fold;
    assert w[..2][0] == w[0] && w[..2][1] == w[1] && w[2..][0] == w[2] && w[2..][1] == w[3];
    assert Halve(a, w) == [a.add(w[0], w[2]), a.add(w[1], w[3])];
    FoldHalve(a, w);
    FoldTwo(a, a.add(w[0], w[2]), a.add(w[1], w[3]));
  }

  lemma FoldTwo<F(!new)>(a: Arith<F>, x: F, y: F)
    requires CommutativeMonoid(a)
    ensures Fold(a, [x, y]) == a.add(x, y)
  {
    hide CommutativeMonoid;
    assert [x, y][..1] == [x] && [x][..0] == [];
    Unit(a, x);
    assert Fold(a, [x]) == a.add(Fold(a, []), x);
  }

  lemma HorizontalExact<F(!new)>(a: Arith<F>, v: seq<F>)
    requires CommutativeMonoid(a) && |v| == STRIPE
    ensures HorizontalSum(a, v) == Fold(a, v)
  {
    hide CommutativeMonoid, Fold;
    FoldHalve(a, v);
    FoldHalve(a, Halve(a, v));
    FoldFour(a, Halve(a, Halve(a, v)));
  }

  lemma {:induction false} FoldZeros<F(!new)>(a: Arith<F>, n: nat)
    requires CommutativeMonoid(a)
    ensures Fold(a, seq(n, _ => a.zero)) == a.zero
  {
    hide CommutativeMonoid;
    if n > 0 {
      assert seq(n, _ => a.zero)[..n - 1] == seq(n - 1, _ => a.zero);
      FoldZeros(a, n - 1);
      Unit(a, a.zero);
    }
  }

  lemma {:induction false} LanesExact<F(!new)>(a: Arith<F>, x: seq<F>, chunks: nat)
    requires CommutativeMonoid(a) && |x| >= chunks * STRIPE
    ensures Fold(a, Lanes(a, x, chunks)) == Fold(a, x[..chunks * STRIPE])
  {
    hide CommutativeMonoid;
    if chunks == 0 {
      FoldZeros(a, STRIPE);
    } else {
      hide Fold;
      var before, stripe := x[..(chunks - 1) * STRIPE], x[(chunks - 1) * STRIPE..chunks * STRIPE];
      LanesExact(a, x, chunks - 1);
      FoldLanes(a, Lanes(a, x, chunks - 1), stripe);
      FoldConcat(a, before, stripe);
      assert x[..chunks * STRIPE] == before + stripe;
    }
  }

  lemma {:induction false} PairwiseExact<F(!new)>(a: Arith<F>, x: seq<F>)
    requires CommutativeMonoid(a) && Blocked(|x|)
    ensures Pairwise(a, x) == Fold(a, x)
    decreases |x|
  {
    hide CommutativeMonoid, Fold, HorizontalSum, Lanes;
    if |x| == LIMIT {
      HorizontalExact(a, Lanes(a, x, LIMIT / STRIPE));
      LanesExact(a, x, LIMIT / STRIPE);
      assert x[..LIMIT / STRIPE * STRIPE] == x;
    } else {
      var left := LeftLength(|x|);
      PairwiseExact(a, x[..left]);
      PairwiseExact(a, x[left..]);
      FoldConcat(a, x[..left], x[left..]);
      assert x == x[..left] + x[left..];
    }
  }

  lemma MainExact<F(!new)>(a: Arith<F>, main: seq<F>)
    requires CommutativeMonoid(a) && |main| % LIMIT == 0
    ensures (if |main| > 0 then Pairwise(a, main) else a.zero) == Fold(a, main)
  {
    if |main| > 0 {
      PairwiseExact(a, main);
    }
  }

  /** Over exact arithmetic the blocked sum is the sequential sum, for every input length. */
  lemma SumExact<F(!new)>(a: Arith<F>, x: seq<F>)
    requires CommutativeMonoid(a)
    ensures Sum(a, x) == Fold(a, x)
  {
    hide CommutativeMonoid, Fold, Pairwise;
    var remainder := |x| % LIMIT;
    var rest, main := x[..remainder], x[remainder..];
    MainExact(a, main);
    FoldConcat(a, rest, main);
    Commute(a, Fold(a, rest), Fold(a, main));
    assert x == rest + main;
  }

  /** Zeroed elements do not contribute: the masked sum is the sum of the valid elements. */
  lemma {:induction false} MaskedExact<F(!new)>(a: Arith<F>, x: seq<F>, mask: seq<bool>)
    requires CommutativeMonoid(a) && |x| == |mask|
    ensures Fold(a, Select(a.zero, x, mask)) == Fold(a, Valid(x, mask))
  {
    hide CommutativeMonoid;
    if x != [] {
      var k := |x| - 1;
      assert Select(a.zero, x, mask)[..k] == Select(a.zero, x[..k], mask[..k]);
      MaskedExact(a, x[..k], mask[..k]);
      var before := Valid(x[..k], mask[..k]);
      if mask[k] {
        assert (before + [x[k]])[..|before|] == before;
      } else {
        assert before + [] == before;
        Unit(a, Fold(a, before));
      }
    }
  }

  /** The elements whose mask bit is set. */
  function Valid<F>(x: seq<F>, mask: seq<bool>): seq<F>
    requires |x| == |mask|
  {
    if x == [] then []
    else
      var k := |x| - 1;
      Valid(x[..k], mask[..k]) + if mask[k] then [x[k]] else []
  }

  const EXACT: Arith<real> := Arith(0.0, (x: real, y: real) => x + y)

  /** In the reals, the masked blocked sum is the sum of the valid elements. */
  lemma RealSum(x: seq<real>, mask: seq<bool>)
    requires |x| == |mask|
    ensures Sum(EXACT, x) == Fold(EXACT, x)
    ensures Sum(EXACT, Select(0.0, x, mask)) == Fold(EXACT, Valid(x, mask))
  {
    assert CommutativeMonoid(EXACT);
    SumExact(EXACT, x);
    SumExact(EXACT, Select(0.0, x, mask));
    MaskedExact(EXACT, x, mask);
  }

  // The shape of the sum: the algorithm run on symbolic additions.

  datatype Tree<T> = Zero | Leaf(x: T) | Plus(left: Tree<T>, right: Tree<T>)

  function TreeArith<T>(): Arith<Tree<T>> {
    Arith(Zero, (l: Tree<T>, r: Tree<T>) => Plus(l, r))
  }

  function Max(a: nat, b: nat): (m: nat)
    ensures m >= a && m >= b && (m == a || m == b)
  {
    if a < b then b else a
  }

  /** The most additions any element passes through. */
  function Height<T>(t: Tree<T>): nat {
    match t
    case Zero => 0
    case Leaf(_) => 0
    case Plus(l, r) => 1 + Max(Height(l), Height(r))
  }

  /** How many additions each leaf passes through, from left to right. */
  function Depths<T>(t: Tree<T>): seq<nat> {
    match t
    case Zero => [0]
    case Leaf(_) => [0]
    case Plus(l, r) => Deeper(Depths(l) + Depths(r))
  }

  function Deeper(depths: seq<nat>): (r: seq<nat>)
    ensures |r| == |depths|
    ensures forall k :: 0 <= k < |depths| ==> r[k] == depths[k] + 1
  {
    seq(|depths|, k requires 0 <= k < |depths| => depths[k] + 1)
  }

  /** The height is the depth of the deepest leaf. */
  lemma {:induction false} HeightIsDeepest<T>(t: Tree<T>)
    ensures Height(t) in Depths(t)
    ensures forall d :: d in Depths(t) ==> d <= Height(t)
  {
    if t.Plus? {
      HeightIsDeepest(t.left);
      HeightIsDeepest(t.right);
      var both, m := Depths(t.left) + Depths(t.right), Max(Height(t.left), Height(t.right));
      assert m in both && forall d :: d in both ==> d <= m;
      hide Depths, Height;
      DeeperKeeps(both, m);
    }
  }

  lemma DeeperKeeps(depths: seq<nat>, m: nat)
    requires m in depths && forall d :: d in depths ==> d <= m
    ensures m + 1 in Deeper(depths)
    ensures forall d :: d in Deeper(depths) ==> d <= m + 1
  {
    var k :| 0 <= k < |depths| && depths[k] == m;
    assert Deeper(depths)[k] == m + 1;
    forall d | d in Deeper(depths)
      ensures d <= m + 1
    {
      var j :| 0 <= j < |depths| && Deeper(depths)[j] == d;
      assert depths[j] in depths;
    }
  }

  ghost predicate AtMost<T>(v: seq<Tree<T>>, h: nat) {
    forall j :: 0 <= j < |v| ==> Height(v[j]) <= h
  }

  function CeilLog2(n: nat): nat {
    if n <= 1 then 0 else 1 + CeilLog2((n + 1) / 2)
  }

  lemma {:induction false} CeilLog2Monotone(m: nat, n: nat)
    requires m <= n
    ensures CeilLog2(m) <= CeilLog2(n)
    decreases n
  {
    if m > 1 {
      CeilLog2Monotone((m + 1) / 2, (n + 1) / 2);
    }
  }

  function Power2(k: nat): nat {
    if k == 0 then 1 else 2 * Power2(k - 1)
  }

  /** `CeilLog2` is the logarithm to base two, rounded up. */
  lemma {:induction false} CeilLog2Meaning(n: nat)
    requires n >= 1
    ensures n <= Power2(CeilLog2(n)) < 2 * n
  {
    if n > 1 {
      var half := (n + 1) / 2;
      CeilLog2Meaning(half);
      assert Power2(CeilLog2(n)) == 2 * Power2(CeilLog2(half));
      hide CeilLog2, Power2;
      if n % 2 == 1 {
        assert n == 2 * half - 1;
        PowerIsEven(CeilLog2(half), half);
      } else {
        assert n == 2 * half;
      }
    }
  }

  lemma PowerIsEven(k: nat, m: nat)
    requires m >= 2 && m <= Power2(k) < 2 * m
    ensures Power2(k) <= 2 * m - 2
  {
  }

  lemma AddLanesHeight<T>(x: seq<Tree<T>>, y: seq<Tree<T>>, h: nat, k: nat)
    requires |x| == |y| && AtMost(x, h) && AtMost(y, k)
    ensures AtMost(AddLanes(TreeArith(), x, y), 1 + Max(h, k))
  {
  }

  lemma HorizontalHeight<T>(v: seq<Tree<T>>, h: nat)
    requires |v| == STRIPE && AtMost(v, h)
    ensures Height(HorizontalSum(TreeArith(), v)) <= h + 4
  {
    hide Halve;
    HalveHeight(v, h);
    HalveHeight(Halve(TreeArith(), v), h + 1);
    var u := Halve(TreeArith(), Halve(TreeArith(), v));
    assert Height(u[0]) <= h + 2 && Height(u[1]) <= h + 2 && Height(u[2]) <= h + 2 && Height(u[3]) <= h + 2;
  }

  lemma HalveHeight<T>(v: seq<Tree<T>>, h: nat)
    requires |v| % 2 == 0 && AtMost(v, h)
    ensures AtMost(Halve(TreeArith(), v), h + 1)
  {
    AddLanesHeight(v[..|v| / 2], v[|v| / 2..], h, h);
  }

  lemma {:induction false} LanesHeight<T>(x: seq<Tree<T>>, chunks: nat)
    requires |x| >= chunks * STRIPE && AtMost(x, 0)
    ensures AtMost(Lanes(TreeArith(), x, chunks), chunks)
  {
    if chunks > 0 {
      LanesHeight(x, chunks - 1);
      AddLanesHeight(Lanes(TreeArith(), x, chunks - 1), x[(chunks - 1) * STRIPE..chunks * STRIPE], chunks - 1, 0);
    }
  }

  lemma BlockHeight<T>(x: seq<Tree<T>>)
    requires |x| == LIMIT && AtMost(x, 0)
    ensures Height(BlockSum(TreeArith(), x)) <= 12
  {
    hide Lanes, HorizontalSum;
    LanesHeight(x, LIMIT / STRIPE);
    HorizontalHeight(Lanes(TreeArith(), x, LIMIT / STRIPE), 8);
  }

  lemma LogStep(blocks: nat)
    requires blocks >= 2
    ensures CeilLog2(blocks / 2) + 1 <= CeilLog2(blocks)
    ensures CeilLog2(blocks - blocks / 2) + 1 <= CeilLog2(blocks)
  {
    var larger := (blocks + 1) / 2;
    assert blocks - blocks / 2 == larger;
    CeilLog2Monotone(blocks / 2, larger);
  }

  lemma SplitBlocks(blocks: nat)
    requires blocks >= 2
    ensures Blocked(blocks * LIMIT) && blocks * LIMIT / LIMIT == blocks
    ensures LeftLength(blocks * LIMIT) == blocks / 2 * LIMIT
  {
  }

  /** Halving the blocks lowers the logarithm by one. */
  lemma HalvedBlocks(n: nat)
    requires Blocked(n) && n > LIMIT
    ensures CeilLog2(LeftLength(n) / LIMIT) + 1 <= CeilLog2(n / LIMIT)
    ensures CeilLog2((n - LeftLength(n)) / LIMIT) + 1 <= CeilLog2(n / LIMIT)
  {
    hide CeilLog2, LeftLength;
    var blocks := n / LIMIT;
    assert n == blocks * LIMIT;
    SplitBlocks(blocks);
    LogStep(blocks);
    assert n - LeftLength(n) == (blocks - blocks / 2) * LIMIT;
  }

  /** Twelve additions per block, and one for each halving of the blocks. */
  lemma {:induction false} PairwiseHeight<T>(x: seq<Tree<T>>)
    requires Blocked(|x|) && AtMost(x, 0)
    ensures Height(Pairwise(TreeArith(), x)) <= 12 + CeilLog2(|x| / LIMIT)
    decreases |x|
  {
    hide CeilLog2, BlockSum, LeftLength;
    if |x| == LIMIT {
      BlockHeight(x);
    } else {
      var left := LeftLength(|x|);
      HalvedBlocks(|x|);
      PairwiseHeight(x[..left]);
      PairwiseHeight(x[left..]);
      PairwiseSplit(TreeArith(), x);
      hide Pairwise;
    }
  }

  lemma PairwiseSplit<F>(a: Arith<F>, x: seq<F>)
    requires Blocked(|x|) && |x| > LIMIT
    ensures Pairwise(a, x) == a.add(Pairwise(a, x[..LeftLength(|x|)]), Pairwise(a, x[LeftLength(|x|)..]))
  {
  }

  /**
   * Every element of the blocked part passes through at most 13 additions plus the logarithm of the
   * number of blocks: one less in the blocked sum itself, and one to add the remainder.
   */
  lemma SumShape<T>(f: seq<T>)
    requires |f| >= LIMIT
    ensures var leaves := Map((x: T) => Leaf(x), f);
            var remainder := |f| % LIMIT;
            var main := Pairwise(TreeArith(), leaves[remainder..]);
            && Sum(TreeArith(), leaves) == Plus(main, Fold(TreeArith(), leaves[..remainder]))
            && Height(main) + 1 <= 13 + CeilLog2(|f| / LIMIT)
  {
    hide CeilLog2, Pairwise, Fold;
    var leaves := Map((x: T) => Leaf(x), f);
    PairwiseHeight(leaves[|f| % LIMIT..]);
  }

  // The same tree, element by element.

  /** One of sixteen accumulators: every sixteenth element from `start + j` on, added to zero one by one. */
  function Lane<F>(a: Arith<F>, x: seq<F>, start: nat, j: nat, chunks: nat): F
    requires j < 16 && start + 16 * chunks <= |x|
  {
    if chunks == 0 then a.zero else a.add(Lane(a, x, start, j, chunks - 1), x[start + 16 * (chunks - 1) + j])
  }

  function Quarter<F>(a: Arith<F>, x: seq<F>, start: nat, k: nat): F
    requires k < 4 && start + 128 <= |x|
  {
    a.add(a.add(Lane(a, x, start, k, 8), Lane(a, x, start, k + 8, 8)),
          a.add(Lane(a, x, start, k + 4, 8), Lane(a, x, start, k + 12, 8)))
  }

  /** The sum of the 128 elements from `start` on. */
  function OneBlock<F>(a: Arith<F>, x: seq<F>, start: nat): F
    requires start + 128 <= |x|
  {
    a.add(a.add(Quarter(a, x, start, 0), Quarter(a, x, start, 2)), a.add(Quarter(a, x, start, 1), Quarter(a, x, start, 3)))
  }

  /** The sum of `count` blocks from `start` on: the left half of the blocks, rounded down, and the rest. */
  function ManyBlocks<F>(a: Arith<F>, x: seq<F>, start: nat, count: nat): F
    requires count > 0 && start + 128 * count <= |x|
    decreases count
  {
    if count == 1 then OneBlock(a, x, start)
    else a.add(ManyBlocks(a, x, start, count / 2), ManyBlocks(a, x, start + 128 * (count / 2), count - count / 2))
  }

  lemma {:induction false} LanesAre<F>(a: Arith<F>, x: seq<F>, start: nat, j: nat, chunks: nat)
    requires j < 16 && chunks <= 8 && start + 128 <= |x|
    ensures Lanes(a, x[start..start + 128], chunks)[j] == Lane(a, x, start, j, chunks)
  {
    var block := x[start..start + 128];
    if chunks > 0 {
      LanesAre(a, x, start, j, chunks - 1);
      assert block[(chunks - 1) * STRIPE..chunks * STRIPE][j] == x[start + 16 * (chunks - 1) + j];
    }
  }

  lemma HorizontalIs<F>(a: Arith<F>, v: seq<F>)
    requires |v| == 16
    ensures HorizontalSum(a, v) ==
            a.add(a.add(a.add(a.add(v[0], v[8]), a.add(v[4], v[12])), a.add(a.add(v[2], v[10]), a.add(v[6], v[14]))),
                  a.add(a.add(a.add(v[1], v[9]), a.add(v[5], v[13])), a.add(a.add(v[3], v[11]), a.add(v[7], v[15]))))
  {
    var h := Halve(a, v);
    assert forall j :: 0 <= j < 8 ==> h[j] == a.add(v[j], v[8 + j]);
    var w := Halve(a, h);
    assert forall j :: 0 <= j < 4 ==> w[j] == a.add(h[j], h[4 + j]);
  }

  lemma BlockIs<F>(a: Arith<F>, x: seq<F>, start: nat)
    requires start + 128 <= |x|
    ensures BlockSum(a, x[start..start + 128]) == OneBlock(a, x, start)
  {
    hide HorizontalSum, Lanes, Lane;
    var v := Lanes(a, x[start..start + 128], 8);
    forall j | 0 <= j < 16
      ensures v[j] == Lane(a, x, start, j, 8)
    {
      LanesAre(a, x, start, j, 8);
    }
    HorizontalIs(a, v);
  }

  lemma {:induction false} PairwiseIs<F>(a: Arith<F>, x: seq<F>, start: nat, count: nat)
    requires count > 0 && start + 128 * count <= |x|
    ensures Blocked(128 * count) && Pairwise(a, x[start..start + 128 * count]) == ManyBlocks(a, x, start, count)
    decreases count
  {
    hide BlockSum, OneBlock, LeftLength, Pairwise;
    if count == 1 {
      BlockIs(a, x, start);
      SinglePairwise(a, x[start..start + 128]);
    } else {
      var half := count / 2;
      SplitBlocks(count);
      PairwiseIs(a, x, start, half);
      PairwiseIs(a, x, start + 128 * half, count - half);
      hide ManyBlocks, Blocked;
      SliceHalves(x, start, 128 * half, 128 * (count - half));
      PairwiseSplit(a, x[start..start + 128 * count]);
    }
  }

  lemma SinglePairwise<F>(a: Arith<F>, x: seq<F>)
    requires |x| == LIMIT
    ensures Blocked(|x|) && Pairwise(a, x) == BlockSum(a, x)
  {
  }

  lemma SliceHalves<T>(x: seq<T>, start: nat, m: nat, n: nat)
    requires start + m + n <= |x|
    ensures x[start..start + (m + n)][..m] == x[start..start + m]
    ensures x[start..start + (m + n)][m..] == x[start + m..start + m + n]
  {
  }

  /**
   * The sum, element by element: whole blocks behind the remainder, halved down to single blocks, plus the
   * remainder at the front added from left to right.
   */
  lemma SumLayout<F>(a: Arith<F>, x: seq<F>)
    ensures Sum(a, x) == a.add(if |x| < 128 then a.zero else ManyBlocks(a, x, |x| % 128, |x| / 128), Fold(a, x[..|x| % 128]))
  {
    hide Pairwise, ManyBlocks, Fold;
    var remainder := |x| % 128;
    if |x| >= 128 {
      PairwiseIs(a, x, remainder, |x| / 128);
      assert remainder + 128 * (|x| / 128) == |x|;
      assert x[remainder..|x|] == x[remainder..];
    }
  }

  // Every addition computes the tree, and the tree uses every element once.

  /** The value of a tree under some addition. */
  function Eval<T, F>(a: Arith<F>, cast: T -> F, t: Tree<T>): F {
    match t
    case Zero => a.zero
    case Leaf(x) => cast(x)
    case Plus(l, r) => a.add(Eval(a, cast, l), Eval(a, cast, r))
  }

  function EvalAll<T, F>(a: Arith<F>, cast: T -> F, ts: seq<Tree<T>>): (r: seq<F>)
    ensures |r| == |ts|
    ensures forall i :: 0 <= i < |ts| ==> r[i] == Eval(a, cast, ts[i])
  {
    seq(|ts|, i requires 0 <= i < |ts| => Eval(a, cast, ts[i]))
  }

  lemma EvalSlice<T, F>(a: Arith<F>, cast: T -> F, ts: seq<Tree<T>>, lo: nat, hi: nat)
    requires lo <= hi <= |ts|
    ensures EvalAll(a, cast, ts[lo..hi]) == EvalAll(a, cast, ts)[lo..hi]
  {
  }

  lemma EvalAddLanes<T, F>(a: Arith<F>, cast: T -> F, x: seq<Tree<T>>, y: seq<Tree<T>>)
    requires |x| == |y|
    ensures EvalAll(a, cast, AddLanes(TreeArith(), x, y)) == AddLanes(a, EvalAll(a, cast, x), EvalAll(a, cast, y))
  {
  }

  lemma EvalHalve<T, F>(a: Arith<F>, cast: T -> F, v: seq<Tree<T>>)
    requires |v| % 2 == 0
    ensures EvalAll(a, cast, Halve(TreeArith(), v)) == Halve(a, EvalAll(a, cast, v))
  {
    var k := |v| / 2;
    EvalAddLanes(a, cast, v[..k], v[k..]);
    EvalSlice(a, cast, v, 0, k);
    EvalSlice(a, cast, v, k, |v|);
    Halves(v, k);
    Halves(EvalAll(a, cast, v), k);
  }

  lemma EvalHorizontal<T, F>(a: Arith<F>, cast: T -> F, v: seq<Tree<T>>)
    requires |v| == STRIPE
    ensures Eval(a, cast, HorizontalSum(TreeArith(), v)) == HorizontalSum(a, EvalAll(a, cast, v))
  {
    var w := Halve(TreeArith(), v);
    EvalHalve(a, cast, v);
    EvalHalve(a, cast, w);
    var u := Halve(TreeArith(), w);
    assert EvalAll(a, cast, u) == Halve(a, Halve(a, EvalAll(a, cast, v)));
  }

  lemma {:induction false} EvalLanes<T, F>(a: Arith<F>, cast: T -> F, x: seq<Tree<T>>, chunks: nat)
    requires |x| >= chunks * STRIPE
    ensures EvalAll(a, cast, Lanes(TreeArith(), x, chunks)) == Lanes(a, EvalAll(a, cast, x), chunks)
  {
    if chunks > 0 {
      var stripe := x[(chunks - 1) * STRIPE..chunks * STRIPE];
      EvalLanes(a, cast, x, chunks - 1);
      EvalAddLanes(a, cast, Lanes(TreeArith(), x, chunks - 1), stripe);
      EvalSlice(a, cast, x, (chunks - 1) * STRIPE, chunks * STRIPE);
    }
  }

  lemma {:induction false} EvalPairwise<T, F>(a: Arith<F>, cast: T -> F, x: seq<Tree<T>>)
    requires Blocked(|x|)
    ensures Eval(a, cast, Pairwise(TreeArith(), x)) == Pairwise(a, EvalAll(a, cast, x))
    decreases |x|
  {
    if |x| == LIMIT {
      EvalLanes(a, cast, x, LIMIT / STRIPE);
      EvalHorizontal(a, cast, Lanes(TreeArith(), x, LIMIT / STRIPE));
    } else {
      var left := LeftLength(|x|);
      EvalPairwise(a, cast, x[..left]);
      EvalPairwise(a, cast, x[left..]);
      EvalSlice(a, cast, x, 0, left);
      EvalSlice(a, cast, x, left, |x|);
      Halves(x, left);
      Halves(EvalAll(a, cast, x), left);
    }
  }

  lemma {:induction false} EvalFold<T, F>(a: Arith<F>, cast: T -> F, x: seq<Tree<T>>)
    ensures Eval(a, cast, Fold(TreeArith(), x)) == Fold(a, EvalAll(a, cast, x))
  {
    if x != [] {
      var k := |x| - 1;
      EvalFold(a, cast, x[..k]);
      EvalSlice(a, cast, x, 0, k);
      Halves(x, k);
      Halves(EvalAll(a, cast, x), k);
    }
  }

  /** The sum under any addition is the value of one tree that depends on the elements only. */
  lemma SumIsTree<T, F>(a: Arith<F>, cast: T -> F, f: seq<T>)
    ensures Sum(a, Map(cast, f)) == Eval(a, cast, Sum(TreeArith(), Map((x: T) => Leaf(x), f)))
  {
    var leaves := Map((x: T) => Leaf(x), f);
    var x := EvalAll(a, cast, leaves);
    assert x == Map(cast, f);
    var remainder := |f| % LIMIT;
    EvalSlice(a, cast, leaves, 0, remainder);
    EvalSlice(a, cast, leaves, remainder, |f|);
    Halves(leaves, remainder);
    Halves(x, remainder);
    EvalFold(a, cast, leaves[..remainder]);
    if |f| > remainder {
      EvalPairwise(a, cast, leaves[remainder..]);
    }
  }

  function BagArith<T(==)>(): Arith<multiset<T>> {
    Arith(multiset{}, (x: multiset<T>, y: multiset<T>) => x + y)
  }

  lemma BagsAreMonoid<T(!new)>()
    ensures CommutativeMonoid(BagArith<T>())
  {
    var a := BagArith<T>();
    forall x: multiset<T>, y: multiset<T>
      ensures a.add(x, y) == a.add(y, x)
    {
      assert x + y == y + x;
    }
    forall x: multiset<T>, y: multiset<T>, z: multiset<T>
      ensures a.add(a.add(x, y), z) == a.add(x, a.add(y, z))
    {
      assert (x + y) + z == x + (y + z);
    }
    forall x: multiset<T>
      ensures a.add(x, a.zero) == x
    {
      assert x + multiset{} == x;
    }
  }

  lemma {:induction false} FoldBag<T(!new)>(f: seq<T>)
    ensures Fold(BagArith(), Map((x: T) => multiset{x}, f)) == multiset(f)
  {
    if f != [] {
      var k := |f| - 1;
      FoldBag(f[..k]);
      assert Map((x: T) => multiset{x}, f)[..k] == Map((x: T) => multiset{x}, f[..k]);
      assert f == f[..k] + [f[k]];
    }
  }

  /** The addition tree has every element as a leaf exactly as often as the input has it. */
  lemma EveryElementOnce<T(!new)>(f: seq<T>)
    ensures Eval(BagArith(), (x: T) => multiset{x}, Sum(TreeArith(), Map((x: T) => Leaf(x), f))) == multiset(f)
  {
    hide CommutativeMonoid, Fold, Sum;
    SumIsTree(BagArith(), (x: T) => multiset{x}, f);
    BagsAreMonoid<T>();
    SumExact(BagArith(), Map((x: T) => multiset{x}, f));
    FoldBag(f);
  }
}
