/** The shuffle helper of main.js: an in-place Fisher–Yates (Knuth) shuffle.
    Its only dependency, the random number generator, is a parameter. */
module Shuffle {

  /** Math.random() returns a value in [0, 1). The model, by its own choice,
      restricts the draws to the grid of multiples of 1 / Resolution (2^-53):
      each draw is u / Resolution for a natural u below Resolution. Doubles that
      lie off this grid, and the rounding of the product with i + 1, are not
      modelled (README, "Left out"). */
  const Resolution: nat := 0x20_0000_0000_0000

  type Fraction = u: nat | u < Resolution

  /** The random source: the k-th call to Math.random() during one shuffle
      (counting from 0) returns random(k) / Resolution. */
  type RandomSource = nat -> Fraction

  /** The swap partner drawn for index i: the floor of the draw times i + 1,
      that is u * (i + 1) / Resolution. The product is taken as repeated
      addition and the quotient as repeated subtraction, so that unfolding the
      definition brings only linear arithmetic into the proofs about the
      shuffle. The partner always lies in [0, i], so both array accesses of the
      swap are in bounds. */
  function Partner(u: Fraction, i: nat): (j: nat)
    ensures j <= i
  {
    PartnerBound(u, i);
    Quotient(Times(u, i + 1))
  }

  /** The quotient x / Resolution, by repeated subtraction. */
  function Quotient(x: nat): (q: nat)
    decreases x
  {
    if x < Resolution then 0 else 1 + Quotient(x - Resolution)
  }

  lemma {:induction false} QuotientBelow(x: nat, n: nat)
    requires x < Resolution * n
    ensures Quotient(x) < n
    decreases x
  {
    if x >= Resolution {
      QuotientBelow(x - Resolution, n - 1);
    }
  }

  lemma {:induction false} QuotientBetween(x: nat, q: nat)
    requires q * Resolution <= x < (q + 1) * Resolution
    ensures Quotient(x) == q
    decreases q
  {
    if q > 0 {
      QuotientBetween(x - Resolution, q - 1);
    }
  }

  /** The product a * b, as b-fold addition. */
  function Times(a: nat, b: nat): (p: nat)
    decreases b
  {
    if b == 0 then 0 else Times(a, b - 1) + a
  }

  lemma {:induction false} TimesIsProduct(a: nat, b: nat)
    ensures Times(a, b) == a * b
    decreases b
  {
    if b > 0 {
      TimesIsProduct(a, b - 1);
    }
  }

  /** The partner is the floor of u / Resolution times i + 1. */
  lemma PartnerIsFloor(u: Fraction, i: nat)
    ensures Partner(u, i) == u * (i + 1) / Resolution
  {
    var x := u * (i + 1);
    TimesIsProduct(u, i + 1);
    QuotientBetween(x, x / Resolution);
  }

  lemma PartnerBound(u: Fraction, i: nat)
    ensures Quotient(Times(u, i + 1)) <= i
  {
    TimesIsProduct(u, i + 1);
    MulMonotone(u, Resolution - 1, i + 1);
    QuotientBelow(Times(u, i + 1), i + 1);
  }

  /** The draw that selects partner j for index i: the least u with
      u * (i + 1) >= j * Resolution. */
  lemma DrawFor(j: nat, i: nat) returns (u: Fraction)
    requires j <= i < Resolution
    ensures Partner(u, i) == j
  {
    var v := (j * Resolution + i) / (i + 1);
    DrawForBounds(j, i, v);
    u := v;
  }

  lemma DrawForBounds(j: nat, i: nat, u: nat)
    requires j <= i < Resolution
    requires u == (j * Resolution + i) / (i + 1)
    ensures u < Resolution
    ensures Quotient(Times(u, i + 1)) == j
  {
    var x, d := j * Resolution + i, i + 1;
    var y := u * d;
    assert y <= x < y + d && y >= x - i by {
      assert x == u * d + x % d && 0 <= x % d < d;
    }
    assert x < d * Resolution by {
      assert j * Resolution <= i * Resolution;
    }
    MulMonotone(Resolution, u, d);
    assert j * Resolution <= y < (j + 1) * Resolution;
    TimesIsProduct(u, d);
    QuotientBetween(y, j);
  }

  lemma MulMonotone(a: nat, b: nat, c: nat)
    ensures a <= b ==> a * c <= b * c
  {
  }

  /** The destructuring swap of array[i] and array[j], on the array's contents:
      the two entries trade places and nothing else changes. */
  function Swap<T>(s: seq<T>, i: nat, j: nat): (r: seq<T>)
    requires i < |s| && j < |s|
    ensures |r| == |s|
  {
    s[i := s[j]][j := s[i]]
  }

  /** A swap keeps every element: it permutes the contents. */
  lemma SwapPermutes<T>(s: seq<T>, i: nat, j: nat)
    requires i < |s| && j < |s|
    ensures multiset(Swap(s, i, j)) == multiset(s)
  {
  }

  /** The contents after the loop has run its iterations for i, i - 1, ..., 1
      on s. The iteration for index i uses call number |s| - 1 - i of the
      random source, as the loop starts at the last index. */
  function ShuffleFrom<T>(s: seq<T>, i: int, random: RandomSource): seq<T>
    requires i < |s|
    decreases i
  {
    if i <= 0 then s
    else ShuffleFrom(Swap(s, i, Partner(random(|s| - 1 - i), i)), i - 1, random)
  }

  /** One iteration of the loop, for an index i above 0. */
  lemma ShuffleFromStep<T>(s: seq<T>, i: int, random: RandomSource)
    requires 0 < i < |s|
    ensures ShuffleFrom(s, i, random) == ShuffleFrom(Swap(s, i, Partner(random(|s| - 1 - i), i)), i - 1, random)
  {
  }

  /** With no iteration left, the contents stay as they are. */
  lemma ShuffleFromDone<T>(s: seq<T>, i: int, random: RandomSource)
    requires i <= 0 && i < |s|
    ensures ShuffleFrom(s, i, random) == s
  {
  }

  /** The contents of the array after the whole shuffle. */
  function Shuffled<T>(s: seq<T>, random: RandomSource): seq<T>
  {
    ShuffleFrom(s, |s| - 1, random)
  }

  /** The shuffle only swaps, so what it returns is a permutation of its input. */
  lemma {:induction false} ShuffleFromPermutes<T>(s: seq<T>, i: int, random: RandomSource)
    requires i < |s|
    ensures |ShuffleFrom(s, i, random)| == |s|
    ensures multiset(ShuffleFrom(s, i, random)) == multiset(s)
    decreases i
  {
    if i > 0 {
      var j := Partner(random(|s| - 1 - i), i);
      SwapPermutes(s, i, j);
      ShuffleFromPermutes(Swap(s, i, j), i - 1, random);
    }
  }

  lemma ShuffledPermutes<T>(s: seq<T>, random: RandomSource)
    ensures |Shuffled(s, random)| == |s|
    ensures multiset(Shuffled(s, random)) == multiset(s)
  {
    ShuffleFromPermutes(s, |s| - 1, random);
  }

  /** With fewer than two elements the loop body never runs. */
  lemma ShortUnchanged<T>(s: seq<T>, random: RandomSource)
    requires |s| <= 1
    ensures Shuffled(s, random) == s
  {
  }

  /** The iterations from index i down only read the draws from call
      |s| - 1 - i on. */
  lemma {:induction false} ShuffleFromUsesLaterDraws<T>(s: seq<T>, i: int, r1: RandomSource, r2: RandomSource)
    requires i < |s|
    requires forall k: nat :: |s| - 1 - i <= k ==> r1(k) == r2(k)
    ensures ShuffleFrom(s, i, r1) == ShuffleFrom(s, i, r2)
    decreases i
  {
    if i > 0 {
      ShuffleFromUsesLaterDraws(Swap(s, i, Partner(r1(|s| - 1 - i), i)), i - 1, r1, r2);
    }
  }

  /** With only the first element left to place, two arrangements of the same
      elements that agree beyond index 0 are equal. */
  lemma AgreeingArrangementsEqual<T>(s: seq<T>, t: seq<T>)
    requires 0 < |s| == |t|
    requires multiset(s) == multiset(t)
    requires s[1..] == t[1..]
    ensures s == t
  {
    assert s == [s[0]] + s[1..];
    assert t == [t[0]] + t[1..];
    assert multiset{s[0]} == multiset(s) - multiset(s[1..]);
    assert multiset{t[0]} == multiset(t) - multiset(t[1..]);
    assert s[0] in multiset{t[0]};
  }

  /** Some position up to i of s holds the element t has at index i, when the
      two are arrangements of the same elements that agree beyond index i. */
  lemma SourcePosition<T>(s: seq<T>, t: seq<T>, i: nat) returns (j: nat)
    requires i < |s| == |t|
    requires multiset(s) == multiset(t)
    requires s[i + 1..] == t[i + 1..]
    ensures j <= i && s[j] == t[i]
  {
    assert s == s[..i + 1] + s[i + 1..];
    assert t == t[..i + 1] + t[i + 1..];
    assert multiset(s[..i + 1]) == multiset(s) - multiset(s[i + 1..]);
    assert multiset(t[..i + 1]) == multiset(t) - multiset(t[i + 1..]);
    assert t[i] in multiset(s[..i + 1]) by {
      assert t[..i + 1][i] == t[i];
    }
    j :| 0 <= j < i + 1 && s[..i + 1][j] == t[i];
  }

  /** Swapping that element into place makes the two agree from index i on. */
  lemma SwapIntoPlace<T>(s: seq<T>, t: seq<T>, i: nat, j: nat)
    requires j <= i < |s| == |t|
    requires s[i + 1..] == t[i + 1..]
    requires s[j] == t[i]
    ensures Swap(s, i, j)[i..] == t[i..]
  {
    var s' := Swap(s, i, j);
    assert s'[i + 1..] == s[i + 1..];
    assert s'[i..] == [t[i]] + s'[i + 1..];
    assert t[i..] == [t[i]] + t[i + 1..];
  }

  /** The random source r answers the calls from number start on with the
      draws ds, in order. */
  predicate Follows(r: RandomSource, start: nat, ds: seq<Fraction>)
  {
    forall k :: 0 <= k < |ds| ==> r(start + k) == ds[k]
  }

  /** Every random source that answers the calls of the iterations from index
      i down with the draws ds takes s to t. */
  ghost predicate DrawsReach<T>(s: seq<T>, i: int, ds: seq<Fraction>, t: seq<T>)
    requires i < |s|
  {
    forall r: RandomSource :: Follows(r, |s| - 1 - i, ds) ==> ShuffleFrom(s, i, r) == t
  }

  /** Every arrangement t of the elements of s that agrees with s beyond
      index i is produced from index i by some draws: the ones returned. */
  lemma {:induction false} ShuffleFromReaches<T>(s: seq<T>, t: seq<T>, i: int) returns (ds: seq<Fraction>)
    requires -1 <= i < |s| == |t| <= Resolution
    requires multiset(s) == multiset(t)
    requires s[i + 1..] == t[i + 1..]
    ensures DrawsReach(s, i, ds, t)
    decreases i + 1
  {
    if i <= 0 {
      PlacedArrangementsEqual(s, t, i);
      NoIterationLeft(s, i);
      ds := [];
    } else {
      var j := SourcePosition(s, t, i);
      var s' := Swap(s, i, j);
      SwapIntoPlace(s, t, i, j);
      SwapPermutes(s, i, j);
      var ds' := ShuffleFromReaches(s', t, i - 1);
      var u := DrawFor(j, i);
      PrependDraw(s, t, i, j, u, ds');
      ds := [u] + ds';
    }
  }

  /** With no iteration left, two arrangements of the same elements that agree
      beyond index i are equal. */
  lemma PlacedArrangementsEqual<T>(s: seq<T>, t: seq<T>, i: int)
    requires -1 <= i <= 0 && i < |s| == |t|
    requires multiset(s) == multiset(t)
    requires s[i + 1..] == t[i + 1..]
    ensures s == t
  {
    if i == 0 {
      AgreeingArrangementsEqual(s, t);
    } else {
      WholeSlicesEqual(s, t);
    }
  }

  lemma WholeSlicesEqual<T>(s: seq<T>, t: seq<T>)
    requires s[0..] == t[0..]
    ensures s == t
  {
    assert s == s[0..] && t == t[0..];
  }

  /** With no iteration left, no draw is made and s stays as it is. */
  lemma NoIterationLeft<T>(s: seq<T>, i: int)
    requires -1 <= i <= 0 && i < |s|
    ensures DrawsReach(s, i, [], s)
  {
    forall r: RandomSource | Follows(r, |s| - 1 - i, [])
      ensures ShuffleFrom(s, i, r) == s
    {
    }
  }

  /** If the draws ds take Swap(s, i, j) to t from index i - 1, then the draw u
      for partner j followed by ds takes s to t from index i. */
  lemma PrependDraw<T>(s: seq<T>, t: seq<T>, i: nat, j: nat, u: Fraction, ds: seq<Fraction>)
    requires 0 < i < |s| && j <= i
    requires Partner(u, i) == j
    requires DrawsReach(Swap(s, i, j), i - 1, ds, t)
    ensures DrawsReach(s, i, [u] + ds, t)
  {
    forall r: RandomSource | Follows(r, |s| - 1 - i, [u] + ds)
      ensures ShuffleFrom(s, i, r) == t
    {
      FollowsTail(r, |s| - 1 - i, u, ds);
      ShuffleFromStep(s, i, r);
    }
  }

  /** A source that answers the calls from start on with u and then ds
      answers the calls from start + 1 on with ds. */
  lemma FollowsTail(r: RandomSource, start: nat, u: Fraction, ds: seq<Fraction>)
    requires Follows(r, start, [u] + ds)
    ensures r(start) == u && Follows(r, start + 1, ds)
  {
    assert r(start + 0) == ([u] + ds)[0];
    forall k | 0 <= k < |ds|
      ensures r(start + 1 + k) == ds[k]
    {
      assert r(start + (k + 1)) == ([u] + ds)[k + 1];
    }
  }

  /** The random source that answers with ds and then with 0. */
  function FromDraws(ds: seq<Fraction>): (r: RandomSource)
    ensures Follows(r, 0, ds)
  {
    (k: nat) => if k < |ds| then ds[k] else 0
  }

  /** The shuffle's outcomes are exactly the permutations of its input: every
      outcome permutes it, and every permutation is the outcome of some random
      source (for arrays of at most 2^53 elements, which JavaScript's arrays
      always are). */
  lemma ShuffledOutcomes<T>(s: seq<T>, t: seq<T>)
    requires |s| <= Resolution
    ensures (exists random: RandomSource :: Shuffled(s, random) == t) <==> multiset(t) == multiset(s)
  {
    if multiset(t) == multiset(s) {
      assert |t| == |multiset(t)| == |multiset(s)| == |s|;
      assert s[|s|..] == [] == t[|t|..];
      var ds := ShuffleFromReaches(s, t, |s| - 1);
      assert Shuffled(s, FromDraws(ds)) == t;
    }
    if random: RandomSource :| Shuffled(s, random) == t {
      ShuffledPermutes(s, random);
    }
  }

  /** The destructuring swap of a[i] and a[j], in place. */
  method SwapEntries<T>(a: array<T>, i: nat, j: nat)
    requires i < a.Length && j < a.Length
    modifies a
    ensures a[..] == Swap(old(a[..]), i, j)
  {
    a[i], a[j] := a[j], a[i];
  }

  /** The shuffle of main.js, in place on the array, returning that same array.
      The index runs from the last position down to 1, and each iteration swaps
      it with its drawn partner. */
  method ShuffleArray<T>(a: array<T>, random: RandomSource) returns (r: array<T>)
    modifies a
    ensures r == a
    ensures a[..] == Shuffled(old(a[..]), random)
    ensures multiset(a[..]) == multiset(old(a[..]))
  {
    var i := a.Length - 1;
    while i > 0
      invariant -1 <= i < a.Length
      invariant ShuffleFrom(a[..], i, random) == Shuffled(old(a[..]), random)
      decreases i
    {
      var j := Partner(random(a.Length - 1 - i), i);
      ghost var before := a[..];
      ShuffleFromStep(before, i, random);
      SwapEntries(a, i, j);
      i := i - 1;
    }
    ShuffleFromDone(a[..], i, random);
    ShuffledPermutes(old(a[..]), random);
    return a;
  }
}
