/** The mathematics behind the permutation generator `permutations` of code.py.

    The generator keeps an index list `indices` and a counter list `cycles`.
    Reading `cycles[i]` as the digit `ks[i] = n - i - cycles[i]` (how many
    times position i has advanced since it was last reset) turns `cycles` into
    a mixed-radix counter whose digit i ranges over 0..n-i-1, and makes
    `indices` a function of that counter (Decode below).  Every emission adds
    one to the counter (Rank), so the q-th emitted tuple is Listing(n, r)[q].
    This module defines these functions and proves what the generator
    promises about its output: n!/(n-r)! tuples, in strictly increasing
    lexicographic order, exactly the r-tuples of distinct indices below n. */
module Arrangements {

  /** The index list [0, 1, ..., n-1] (Python's `list(range(n))`). */
  function Range(n: nat): seq<int> {
    seq(n, i => i)
  }

  /** s with the element at position k taken out. */
  function Remove(s: seq<int>, k: nat): seq<int>
    requires k < |s|
  {
    s[..k] + s[k + 1..]
  }

  predicate Distinct(s: seq<int>) {
    forall i, j :: 0 <= i < j < |s| ==> s[i] != s[j]
  }

  predicate StrictlySorted(s: seq<int>) {
    forall i, j :: 0 <= i < j < |s| ==> s[i] < s[j]
  }

  /** x is an ordered r-tuple of distinct indices drawn from 0..n-1. */
  predicate IsArrangement(n: nat, r: nat, x: seq<int>) {
    |x| == r && Distinct(x) && forall i :: 0 <= i < |x| ==> 0 <= x[i] < n
  }

  /** Python's tuple comparison a < b (for tuples of equal length). */
  predicate LexLess(a: seq<int>, b: seq<int>)
    decreases |a|
  {
    |a| > 0 && |b| > 0 && (a[0] < b[0] || (a[0] == b[0] && LexLess(a[1..], b[1..])))
  }

  /** ks is a counter for choosing from m items: digit i lies in 0..m-i-1. */
  predicate FitsRadix(m: nat, ks: seq<int>) {
    |ks| <= m && forall i :: 0 <= i < |ks| ==> 0 <= ks[i] < m - i
  }

  function Zeros(z: nat): seq<int> {
    seq(z, _ => 0)
  }

  /** The largest counter of length z for m items: m-1, m-2, ..., m-z. */
  function MaxDigits(m: nat, z: nat): seq<int> {
    seq(z, i => m - i - 1)
  }

  /** m * (m-1) * ... * (m-r+1): the number of r-tuples of distinct items out
      of m, which is 0 when r > m. */
  function Falling(m: nat, r: nat): nat {
    if r == 0 then 1 else if m == 0 then 0 else m * Falling(m - 1, r - 1)
  }

  function Fact(m: nat): nat {
    if m == 0 then 1 else m * Fact(m - 1)
  }

  /** The index list the generator holds under counter ks: at each position i
      the ks[i]-th index still unused, then the unused indices in their
      original order.  (A digit out of range, which FitsRadix rules out, ends
      the decoding.) */
  function Decode(avail: seq<int>, ks: seq<int>): (s: seq<int>)
    ensures |s| == |avail|
    decreases |ks|
  {
    if ks == [] || !(0 <= ks[0] < |avail|) then avail
    else [avail[ks[0]]] + Decode(Remove(avail, ks[0]), ks[1..])
  }

  /** The position of counter ks among all counters of its length in
      increasing order: digit i weighs as much as all the ways to fill the
      positions after it. */
  function Rank(m: nat, ks: seq<int>): int
    decreases |ks|
  {
    if ks == [] || m == 0 then 0
    else ks[0] * Falling(m - 1, |ks| - 1) + Rank(m - 1, ks[1..])
  }

  /** The counter of length r with rank q. */
  function Unrank(m: nat, r: nat, q: nat): (ks: seq<int>)
    requires q < Falling(m, r)
    ensures |ks| == r && FitsRadix(m, ks) && Rank(m, ks) == q
    decreases r
  {
    if r == 0 then []
    else
      var w := Falling(m - 1, r - 1);
      DivBelow(q, m, w);
      var d := q / w;
      var rest := Unrank(m - 1, r - 1, q % w);
      FitsCons(m, d, rest);
      [d] + rest
  }

  /** The r-tuples of indices the generator emits, in emission order. */
  function Listing(n: nat, r: nat): (l: seq<seq<int>>)
    ensures |l| == Falling(n, r)
  {
    seq(Falling(n, r), q requires 0 <= q < Falling(n, r) => Decode(Range(n), Unrank(n, r, q))[..r])
  }

  // ---------------------------------------------------------------------
  // Arithmetic and sequence helpers, each stated without other context

  lemma MulMonotone(a: int, b: int, w: nat)
    requires 0 <= a <= b
    ensures 0 <= a * w <= b * w
  {
  }

  /** One step of Decode. */
  lemma DecodeCons(avail: seq<int>, k: int, rest: seq<int>)
    requires 0 <= k < |avail|
    ensures Decode(avail, [k] + rest) == [avail[k]] + Decode(Remove(avail, k), rest)
  {
    assert ([k] + rest)[0] == k && ([k] + rest)[1..] == rest;
  }

  lemma ZerosCons(z: nat)
    requires z > 0
    ensures Zeros(z)[0] == 0 && Zeros(z)[1..] == Zeros(z - 1)
  {
  }

  lemma MulAssoc(a: int, b: int, c: int)
    ensures (a * b) * c == a * (b * c)
  {
  }

  lemma MulSucc(a: int, w: int)
    ensures (a + 1) * w == a * w + w
  {
  }

  lemma DivBelow(q: nat, m: nat, w: nat)
    requires q < m * w
    ensures m > 0 && w > 0
    ensures 0 <= q / w < m && q == (q / w) * w + q % w && 0 <= q % w < w
  {
    if m == 0 || w == 0 {
      assert false;
    }
    if q / w >= m {
      MulMonotone(m, q / w, w);
    }
  }

  lemma DigitBound(x: int, m: nat, w: nat, rx: int)
    requires 0 <= x < m && 0 <= rx < w
    ensures 0 <= x * w + rx < m * w
  {
    MulMonotone(x + 1, m, w);
  }

  lemma HeadsEqual(x: int, y: int, w: nat, rx: int, ry: int)
    requires 0 <= x && 0 <= y && 0 <= rx < w && 0 <= ry < w && x * w + rx == y * w + ry
    ensures x == y && rx == ry
  {
    if x < y { MulMonotone(x + 1, y, w); }
    else if y < x { MulMonotone(y + 1, x, w); }
  }

  lemma HeadDecides(x: int, y: int, w: nat, rx: int, ry: int)
    requires 0 <= x < y && rx < w && 0 <= ry
    ensures x * w + rx < y * w + ry
  {
    MulMonotone(x + 1, y, w);
  }

  lemma ConcatAssoc(a: seq<int>, b: seq<int>, c: seq<int>)
    ensures a + (b + c) == a + b + c
  {
  }

  lemma RemovePermutes(s: seq<int>, k: nat)
    requires k < |s|
    ensures multiset(Remove(s, k)) + multiset{s[k]} == multiset(s)
  {
    assert s == s[..k] + [s[k]] + s[k + 1..];
  }

  lemma RemoveKeeps(s: seq<int>, k: nat, t: nat)
    requires k < |s| && t < |s| && t != k
    ensures s[t] in Remove(s, k)
  {
    if t < k {
      assert Remove(s, k)[t] == s[t];
    } else {
      assert Remove(s, k)[t - 1] == s[t];
    }
  }

  lemma RemoveDistinct(s: seq<int>, k: nat)
    requires k < |s| && Distinct(s)
    ensures Distinct(Remove(s, k)) && s[k] !in Remove(s, k)
  {
    var t := Remove(s, k);
    forall i, j | 0 <= i < j < |t| ensures t[i] != t[j] {
      var i' := if i < k then i else i + 1;
      var j' := if j < k then j else j + 1;
      assert t[i] == s[i'] && t[j] == s[j'];
    }
    forall i | 0 <= i < |t| ensures t[i] != s[k] {
      assert t[i] == s[if i < k then i else i + 1];
    }
  }

  lemma RemoveSorted(s: seq<int>, k: nat)
    requires k < |s| && StrictlySorted(s)
    ensures StrictlySorted(Remove(s, k))
  {
    var t := Remove(s, k);
    forall i, j | 0 <= i < j < |t| ensures t[i] < t[j] {
      var i' := if i < k then i else i + 1;
      var j' := if j < k then j else j + 1;
      assert t[i] == s[i'] && t[j] == s[j'];
    }
  }

  /** A counter's tail is a counter for one item fewer. */
  lemma FitsTail(m: nat, ks: seq<int>)
    requires FitsRadix(m, ks) && ks != []
    ensures m > 0 && 0 <= ks[0] < m && FitsRadix(m - 1, ks[1..])
  {
    forall i | 0 <= i < |ks| - 1 ensures 0 <= ks[1..][i] < m - 1 - i {
      assert ks[1..][i] == ks[i + 1];
    }
  }

  lemma FitsCons(m: nat, d: int, rest: seq<int>)
    requires m > 0 && 0 <= d < m && FitsRadix(m - 1, rest)
    ensures FitsRadix(m, [d] + rest) && ([d] + rest)[1..] == rest
  {
    var ks := [d] + rest;
    forall i | 0 <= i < |ks| ensures 0 <= ks[i] < m - i {
      if i > 0 { assert ks[i] == rest[i - 1]; }
    }
  }

  /** A prefix of a counter is a counter. */
  lemma FitsPrefix(m: nat, ks: seq<int>, i: nat)
    requires FitsRadix(m, ks) && i <= |ks|
    ensures FitsRadix(m, ks[..i])
  {
    forall j | 0 <= j < i ensures 0 <= ks[..i][j] < m - j {
      assert ks[..i][j] == ks[j];
    }
  }

  /** The counters the generator's scan passes through stay counters. */
  lemma FitsShapeOf(m: nat, pre: seq<int>, d: int, z: nat)
    requires FitsRadix(m, pre) && 0 <= d < m - |pre| && |pre| + 1 + z <= m
    ensures FitsRadix(m, pre + [d] + Zeros(z))
  {
    var ks := pre + [d] + Zeros(z);
    forall j | 0 <= j < |ks| ensures 0 <= ks[j] < m - j {
      if j < |pre| { assert ks[j] == pre[j]; }
      else if j > |pre| { assert ks[j] == 0; }
    }
  }

  // ---------------------------------------------------------------------
  // Counting

  /** Falling(n, r) is n!/(n-r)!. */
  lemma {:induction false} FallingIsFactorialQuotient(n: nat, r: nat)
    requires r <= n
    ensures Falling(n, r) * Fact(n - r) == Fact(n)
    decreases r
  {
    if r > 0 {
      FallingIsFactorialQuotient(n - 1, r - 1);
      assert (n - 1) - (r - 1) == n - r;
      MulAssoc(n, Falling(n - 1, r - 1), Fact(n - r));
    }
  }

  /** With r <= n there is at least one tuple; with r > n there is none. */
  lemma {:induction false} FallingPositiveExactly(n: nat, r: nat)
    ensures Falling(n, r) > 0 <==> r <= n
    decreases r
  {
    if r > 0 && n > 0 {
      FallingPositiveExactly(n - 1, r - 1);
    }
  }

  // ---------------------------------------------------------------------
  // Rank is a bijection between counters of length r and 0..Falling(m, r)-1

  lemma {:induction false} RankBounds(m: nat, ks: seq<int>)
    requires FitsRadix(m, ks)
    ensures 0 <= Rank(m, ks) < Falling(m, |ks|)
    decreases |ks|
  {
    if ks != [] {
      FitsTail(m, ks);
      RankBounds(m - 1, ks[1..]);
      DigitBound(ks[0], m, Falling(m - 1, |ks| - 1), Rank(m - 1, ks[1..]));
    }
  }

  lemma {:induction false} RankInjective(m: nat, a: seq<int>, b: seq<int>)
    requires FitsRadix(m, a) && FitsRadix(m, b) && |a| == |b|
    requires Rank(m, a) == Rank(m, b)
    ensures a == b
    decreases |a|
  {
    if a != [] {
      FitsTail(m, a);
      FitsTail(m, b);
      var w := Falling(m - 1, |a| - 1);
      RankBounds(m - 1, a[1..]);
      RankBounds(m - 1, b[1..]);
      HeadsEqual(a[0], b[0], w, Rank(m - 1, a[1..]), Rank(m - 1, b[1..]));
      RankInjective(m - 1, a[1..], b[1..]);
      assert a == [a[0]] + a[1..];
      assert b == [b[0]] + b[1..];
    }
  }

  lemma UnrankRank(m: nat, ks: seq<int>)
    requires FitsRadix(m, ks)
    ensures 0 <= Rank(m, ks) < Falling(m, |ks|)
    ensures Unrank(m, |ks|, Rank(m, ks)) == ks
  {
    RankBounds(m, ks);
    RankInjective(m, Unrank(m, |ks|, Rank(m, ks)), ks);
  }

  /** A lexicographically smaller counter has a smaller rank. */
  lemma {:induction false} RankMonotone(m: nat, a: seq<int>, b: seq<int>)
    requires FitsRadix(m, a) && FitsRadix(m, b) && |a| == |b|
    requires LexLess(a, b)
    ensures Rank(m, a) < Rank(m, b)
    decreases |a|
  {
    FitsTail(m, a);
    FitsTail(m, b);
    var w := Falling(m - 1, |a| - 1);
    if a[0] < b[0] {
      RankBounds(m - 1, a[1..]);
      RankBounds(m - 1, b[1..]);
      HeadDecides(a[0], b[0], w, Rank(m - 1, a[1..]), Rank(m - 1, b[1..]));
    } else {
      RankMonotone(m - 1, a[1..], b[1..]);
    }
  }

  lemma {:induction false} LexTotal(a: seq<int>, b: seq<int>)
    requires |a| == |b| && a != b
    ensures LexLess(a, b) || LexLess(b, a)
    decreases |a|
  {
    if a[0] == b[0] {
      assert a == [a[0]] + a[1..];
      assert b == [b[0]] + b[1..];
      LexTotal(a[1..], b[1..]);
    }
  }

  lemma {:induction false} LexIrreflexive(a: seq<int>)
    ensures !LexLess(a, a)
    decreases |a|
  {
    if |a| > 0 {
      LexIrreflexive(a[1..]);
    }
  }

  lemma {:induction false} LexAsymmetric(a: seq<int>, b: seq<int>)
    ensures LexLess(a, b) ==> !LexLess(b, a)
    decreases |a|
  {
    if |a| > 0 && |b| > 0 && a[0] == b[0] {
      LexAsymmetric(a[1..], b[1..]);
    }
  }

  // ---------------------------------------------------------------------
  // Decode: what it keeps and how it splits

  /** Decode only rearranges. */
  lemma {:induction false} DecodePermutes(avail: seq<int>, ks: seq<int>)
    ensures multiset(Decode(avail, ks)) == multiset(avail)
    decreases |ks|
  {
    if ks != [] && 0 <= ks[0] < |avail| {
      RemovePermutes(avail, ks[0]);
      DecodePermutes(Remove(avail, ks[0]), ks[1..]);
    }
  }

  lemma {:induction false} DecodeDistinct(avail: seq<int>, ks: seq<int>)
    requires Distinct(avail)
    ensures Distinct(Decode(avail, ks))
    decreases |ks|
  {
    if ks != [] && 0 <= ks[0] < |avail| {
      var k := ks[0];
      var left := Remove(avail, k);
      var d := Decode(left, ks[1..]);
      assert Distinct(d) && avail[k] !in multiset(d) by {
        RemoveDistinct(avail, k);
        DecodeDistinct(left, ks[1..]);
        DecodePermutes(left, ks[1..]);
      }
      ConsDistinct(avail[k], d);
    }
  }

  lemma ConsDistinct(x: int, d: seq<int>)
    requires Distinct(d) && x !in multiset(d)
    ensures Distinct([x] + d)
  {
    var s := [x] + d;
    forall i, j | 0 <= i < j < |s| ensures s[i] != s[j] {
      if i == 0 {
        assert s[j] == d[j - 1] && d[j - 1] in multiset(d);
      } else {
        assert s[i] == d[i - 1] && s[j] == d[j - 1];
      }
    }
  }

  /** Decoding a longer counter first decodes its prefix, then decodes the
      rest of the counter over what the prefix left unused. */
  lemma {:induction false} DecodeAppend(avail: seq<int>, pre: seq<int>, rest: seq<int>)
    requires FitsRadix(|avail|, pre)
    ensures Decode(avail, pre + rest)
         == Decode(avail, pre)[..|pre|] + Decode(Decode(avail, pre)[|pre|..], rest)
    decreases |pre|
  {
    if pre == [] {
      assert pre + rest == rest;
    } else {
      var k, p := pre[0], pre[1..];
      var left := Remove(avail, k);
      assert 0 <= k < |avail| && FitsRadix(|left|, p) by {
        FitsTail(|avail|, pre);
      }
      var d := Decode(left, p);
      var tail := Decode(d[|p|..], rest);
      assert Decode(avail, pre + rest) == [avail[k]] + Decode(left, p + rest) by {
        assert pre + rest == [k] + (p + rest);
        DecodeCons(avail, k, p + rest);
      }
      assert Decode(left, p + rest) == d[..|p|] + tail by {
        DecodeAppend(left, p, rest);
      }
      assert Decode(avail, pre) == [avail[k]] + d by {
        assert pre == [k] + p;
        DecodeCons(avail, k, p);
      }
      ConcatAssoc([avail[k]], d[..|p|], tail);
      SplitAfterHead(avail[k], d, |p|, |pre|, Decode(avail, pre));
    }
  }

  lemma SplitAfterHead(x: int, d: seq<int>, m: nat, m': nat, s: seq<int>)
    requires m <= |d| && m' == m + 1 && s == [x] + d
    ensures s[..m'] == [x] + d[..m] && s[m'..] == d[m..]
  {
  }

  /** Decoding an all-zero counter changes nothing. */
  lemma {:induction false} DecodeZeros(avail: seq<int>, z: nat)
    ensures Decode(avail, Zeros(z)) == avail
    decreases z
  {
    if z > 0 && |avail| > 0 {
      var t := Remove(avail, 0);
      assert Decode(avail, Zeros(z)) == [avail[0]] + Decode(t, Zeros(z - 1)) by {
        ZerosCons(z);
      }
      DecodeZeros(t, z - 1);
      assert avail == [avail[0]] + t;
    }
  }

  /** One digit followed by zeros picks one element and keeps the rest in order. */
  lemma DecodeDigitThenZeros(avail: seq<int>, k: int, z: nat)
    requires 0 <= k < |avail|
    ensures Decode(avail, [k] + Zeros(z)) == [avail[k]] + Remove(avail, k)
  {
    var ks := [k] + Zeros(z);
    assert ks[1..] == Zeros(z);
    DecodeZeros(Remove(avail, k), z);
  }

  /** The counter pre + [d] + zeros decodes to: the choices of pre, the d-th
      index pre left unused, then the other unused indices in order. */
  lemma DecodeShape(avail: seq<int>, pre: seq<int>, d: int, z: nat, s: seq<int>, c: seq<int>, l: seq<int>)
    requires FitsRadix(|avail|, pre) && 0 <= d < |avail| - |pre|
    requires c == Decode(avail, pre)[..|pre|] && l == Decode(avail, pre)[|pre|..]
    requires s == Decode(avail, pre + [d] + Zeros(z))
    ensures |c| == |pre| && |l| == |avail| - |pre| && s == c + [l[d]] + Remove(l, d)
  {
    var rest := [d] + Zeros(z);
    ConcatAssoc(pre, [d], Zeros(z));
    DecodeAppend(avail, pre, rest);
    DecodeDigitThenZeros(l, d, z);
    ConcatAssoc(c, [l[d]], Remove(l, d));
  }

  // ---------------------------------------------------------------------
  // The two moves of the generator's scan, on index lists

  /** Python's `s[a], s[b] = s[b], s[a]`. */
  function Swap(s: seq<int>, a: nat, b: nat): seq<int>
    requires a < |s| && b < |s|
  {
    s[a := s[b]][b := s[a]]
  }

  /** Python's `s[i:] = s[i+1:] + s[i:i+1]`. */
  function RotateLeftAt(s: seq<int>, i: nat): seq<int>
    requires i < |s|
  {
    s[..i] + s[i + 1..] + [s[i]]
  }

  lemma SwapSeq(c: seq<int>, l: seq<int>, d: nat, i: nat, j: nat, before: seq<int>, after: seq<int>)
    requires d + 1 < |l| && i == |c| && j == i + d + 1
    requires before == c + [l[d]] + Remove(l, d) && after == c + [l[d + 1]] + Remove(l, d + 1)
    ensures |before| == |c| + |l| && j < |before| && Swap(before, i, j) == after
  {
    var swapped := Swap(before, i, j);
    forall t | 0 <= t < |before| ensures swapped[t] == after[t] {
      if t < i {
      } else if t == i {
        assert before[i + d + 1] == Remove(l, d)[d] == l[d + 1];
      } else if t < i + d + 1 {
        assert before[t] == l[t - i - 1] == after[t];
      } else if t == i + d + 1 {
        assert after[t] == Remove(l, d + 1)[d] == l[d];
      } else {
        assert before[t] == l[t - i] == after[t];
      }
    }
  }

  lemma RotateSeq(c: seq<int>, l: seq<int>, d: nat, i: nat, before: seq<int>, after: seq<int>)
    requires |l| > 0 && d == |l| - 1 && i == |c|
    requires before == c + [l[d]] + Remove(l, d) && after == c + [l[0]] + Remove(l, 0)
    ensures i < |before| && RotateLeftAt(before, i) == after
  {
    RotateLast(c, l, d, i, before);
    HeadBack(c, l, after);
  }

  /** Rotating the last unused index back to the end restores the order. */
  lemma RotateLast(c: seq<int>, l: seq<int>, d: nat, i: nat, before: seq<int>)
    requires |l| > 0 && d == |l| - 1 && i == |c|
    requires before == c + [l[d]] + Remove(l, d)
    ensures i < |before| && RotateLeftAt(before, i) == c + l
  {
    assert before[..i] == c && before[i] == l[d] && before[i + 1..] == l[..d];
    ConcatAssoc(c, l[..d], [l[d]]);
    assert l[..d] + [l[d]] == l;
  }

  lemma HeadBack(c: seq<int>, l: seq<int>, after: seq<int>)
    requires |l| > 0 && after == c + [l[0]] + Remove(l, 0)
    ensures after == c + l
  {
    ConcatAssoc(c, [l[0]], l[1..]);
    assert [l[0]] + l[1..] == l;
  }

  /** Advancing digit |pre| from d to d+1 (zeros after it) is the swap of
      position |pre| with position |pre| + d + 1, which is `indices[-j]` for
      j = n - |pre| - d - 1, the new value of `cycles[|pre|]`. */
  lemma SwapAdvances(avail: seq<int>, pre: seq<int>, d: int, z: nat, s: seq<int>, t: seq<int>, i: nat, j: nat)
    requires FitsRadix(|avail|, pre) && 0 <= d && |pre| + d + 1 < |avail|
    requires s == Decode(avail, pre + [d] + Zeros(z)) && t == Decode(avail, pre + [d + 1] + Zeros(z))
    requires i == |pre| && j == i + d + 1
    ensures |s| == |avail| && i < j < |s| && Swap(s, i, j) == t
  {
    var c, l := Decode(avail, pre)[..|pre|], Decode(avail, pre)[|pre|..];
    DecodeShape(avail, pre, d, z, s, c, l);
    DecodeShape(avail, pre, d + 1, z, t, c, l);
    SwapSeq(c, l, d, i, j, s, t);
  }

  /** When digit |pre| is at its maximum, rotating the suffix left by one
      resets that digit to zero: the suffix returns to its original order. */
  lemma RotateResets(avail: seq<int>, pre: seq<int>, top: int, z: nat, s: seq<int>, t: seq<int>, i: nat)
    requires FitsRadix(|avail|, pre) && |pre| < |avail| && i == |pre| && top == |avail| - |pre| - 1
    requires s == Decode(avail, pre + [top] + Zeros(z)) && t == Decode(avail, pre + [0] + Zeros(z))
    ensures i < |s| && RotateLeftAt(s, i) == t
  {
    var c, l := Decode(avail, pre)[..|pre|], Decode(avail, pre)[|pre|..];
    DecodeShape(avail, pre, top, z, s, c, l);
    DecodeShape(avail, pre, 0, z, t, c, l);
    RotateSeq(c, l, top, i, s, t);
  }

  // ---------------------------------------------------------------------
  // Rank: the scan adds one to the counter

  lemma {:induction false} RankZeros(m: nat, z: nat)
    ensures Rank(m, Zeros(z)) == 0
    decreases z
  {
    if z > 0 && m > 0 {
      assert Zeros(z)[1..] == Zeros(z - 1);
      RankZeros(m - 1, z - 1);
    }
  }

  lemma {:induction false} RankMax(m: nat, z: nat)
    requires z <= m
    ensures Rank(m, MaxDigits(m, z)) == Falling(m, z) - 1
    decreases z
  {
    if z > 0 {
      assert MaxDigits(m, z)[1..] == MaxDigits(m - 1, z - 1);
      RankMax(m - 1, z - 1);
      MulSucc(m - 1, Falling(m - 1, z - 1));
    }
  }

  /** The rank of pre + rest is that of pre padded with zeros plus the rank of rest. */
  lemma {:induction false} RankSplit(m: nat, pre: seq<int>, rest: seq<int>)
    requires |pre| <= m
    ensures Rank(m, pre + rest) == Rank(m, pre + Zeros(|rest|)) + Rank(m - |pre|, rest)
    decreases |pre|
  {
    if pre == [] {
      assert pre + rest == rest;
      assert pre + Zeros(|rest|) == Zeros(|rest|);
      RankZeros(m, |rest|);
    } else {
      var ks := pre + rest;
      var ks0 := pre + Zeros(|rest|);
      assert ks[0] == ks0[0] == pre[0];
      assert ks[1..] == pre[1..] + rest;
      assert ks0[1..] == pre[1..] + Zeros(|rest|);
      RankSplit(m - 1, pre[1..], rest);
    }
  }

  /** One emission: digit |pre| goes up by one and the maximal digits after
      it go back to zero, which adds exactly one to the rank. */
  lemma AdvanceRank(m: nat, pre: seq<int>, d: int, z: nat, w: nat, next: seq<int>, last: seq<int>)
    requires |pre| < m && z < m - |pre| && w == m - |pre| - 1
    requires next == pre + [d + 1] + Zeros(z) && last == pre + [d] + MaxDigits(w, z)
    ensures Rank(m, next) == Rank(m, last) + 1
  {
    var up := [d + 1] + Zeros(z);
    var down := [d] + MaxDigits(w, z);
    ConcatAssoc(pre, [d + 1], Zeros(z));
    ConcatAssoc(pre, [d], MaxDigits(w, z));
    RankSplit(m, pre, up);
    RankSplit(m, pre, down);
    DigitStep(m - |pre|, d, z, up, down);
  }

  /** Raising a digit by one and clearing the positions after it moves the
      rank one step past the digit with every later position at its maximum. */
  lemma DigitStep(m: nat, d: int, z: nat, up: seq<int>, down: seq<int>)
    requires 0 < m && z < m
    requires up == [d + 1] + Zeros(z) && down == [d] + MaxDigits(m - 1, z)
    ensures Rank(m, up) == Rank(m, down) + 1
  {
    assert up[1..] == Zeros(z);
    assert down[1..] == MaxDigits(m - 1, z);
    RankZeros(m - 1, z);
    RankMax(m - 1, z);
    MulSucc(d, Falling(m - 1, z));
  }

  // ---------------------------------------------------------------------
  // What the listing contains, and its order

  /** The first tuple is `indices[:r]` of the initial index list: 0, 1, ..., r-1. */
  lemma ListingFirst(n: nat, r: nat)
    requires r <= n
    ensures |Listing(n, r)| > 0 && Listing(n, r)[0] == Range(r)
  {
    FallingPositiveExactly(n, r);
    assert FitsRadix(n, Zeros(r));
    RankZeros(n, r);
    UnrankRank(n, Zeros(r));
    DecodeZeros(Range(n), r);
  }

  /** With r = 0 (for any n, including n = 0) the listing is one empty tuple. */
  lemma ListingOfEmptyTuple(n: nat)
    ensures Listing(n, 0) == [[]]
  {
  }

  /** Python's `permutations(range(3), 2)` --> (0,1) (0,2) (1,0) (1,2) (2,0) (2,1). */
  lemma ListingThreeTwo()
    ensures Listing(3, 2) == [[0, 1], [0, 2], [1, 0], [1, 2], [2, 0], [2, 1]]
  {
    var n, r := 3, 2;
    ListingThreeTwoAt(n, r, 0, 0, 1);
    ListingThreeTwoAt(n, r, 0, 1, 2);
    ListingThreeTwoAt(n, r, 1, 0, 0);
    ListingThreeTwoAt(n, r, 1, 1, 2);
    ListingThreeTwoAt(n, r, 2, 0, 0);
    ListingThreeTwoAt(n, r, 2, 1, 1);
    SixEqual(Listing(n, r), [[0, 1], [0, 2], [1, 0], [1, 2], [2, 0], [2, 1]]);
  }

  lemma SixEqual(l: seq<seq<int>>, w: seq<seq<int>>)
    requires |l| == |w| == 6
    requires l[0] == w[0] && l[1] == w[1] && l[2] == w[2] && l[3] == w[3] && l[4] == w[4] && l[5] == w[5]
    ensures l == w
  {
  }

  /** Entry 2a + b of Listing(3, 2) is [a, c], where c is entry b of what
      choosing a leaves of [0, 1, 2]. */
  lemma ListingThreeTwoAt(n: nat, r: nat, a: int, b: int, c: int)
    requires n == 3 && r == 2 && 0 <= a < 3 && 0 <= b < 2
    requires c == if a == 0 then b + 1 else if a == 1 then 2 * b else b
    ensures |Listing(n, r)| == 6
    ensures Listing(n, r)[2 * a + b] == [a, c]
  {
    var ks := [a] + [b];
    RankTwo(a, b, ks);
    assert FitsRadix(n, ks);
    ListingEntry(n, r, ks);
    var avail := Range(n);
    assert avail == [0, 1, 2];
    DecodeTwo(avail, a, b);
    assert Remove(avail, a)[b] == c;
  }

  lemma RankTwo(a: int, b: int, ks: seq<int>)
    requires ks == [a] + [b]
    ensures Rank(3, ks) == 2 * a + b
  {
    var tl := ks[1..];
    assert tl == [b] && tl[1..] == [];
    assert Falling(1, 0) == 1 && Falling(2, 1) == 2;
    assert Rank(2, tl) == b * Falling(1, 0) + Rank(1, tl[1..]);
  }

  lemma DecodeTwo(avail: seq<int>, a: int, b: int)
    requires 0 <= a < |avail| && 0 <= b < |avail| - 1
    ensures Decode(avail, [a] + [b])[..2] == [avail[a], Remove(avail, a)[b]]
  {
    var rest := Remove(avail, a);
    var tail := Decode(rest, [b]);
    DecodeCons(avail, a, [b]);
    DecodeOne(rest, b);
    HeadTwo(avail[a], rest[b], Remove(rest, b), tail, Decode(avail, [a] + [b]));
  }

  lemma HeadTwo(x: int, y: int, z: seq<int>, t: seq<int>, s: seq<int>)
    requires t == [y] + z && s == [x] + t
    ensures s[..2] == [x, y]
  {
  }

  lemma DecodeOne(avail: seq<int>, b: int)
    requires 0 <= b < |avail|
    ensures Decode(avail, [b]) == [avail[b]] + Remove(avail, b)
  {
    assert [b][1..] == [];
  }

  /** The tuple listed at the rank of counter ks. */
  lemma ListingEntry(n: nat, r: nat, ks: seq<int>)
    requires FitsRadix(n, ks) && |ks| == r
    ensures 0 <= Rank(n, ks) < |Listing(n, r)|
    ensures Listing(n, r)[Rank(n, ks)] == Decode(Range(n), ks)[..r]
  {
    UnrankRank(n, ks);
  }

  /** Every listed tuple is an r-tuple of distinct indices below n; when
      r = n it is a permutation of 0..n-1. */
  lemma ListingSound(n: nat, r: nat, q: nat)
    requires q < |Listing(n, r)|
    ensures IsArrangement(n, r, Listing(n, r)[q])
    ensures r == n ==> multiset(Listing(n, r)[q]) == multiset(Range(n))
  {
    FallingPositiveExactly(n, r);
    var ks := Unrank(n, r, q);
    var s := Decode(Range(n), ks);
    assert Listing(n, r)[q] == s[..r];
    DecodeDistinct(Range(n), ks);
    DecodePermutes(Range(n), ks);
    PrefixArrangement(n, r, s);
  }

  /** The first r entries of a rearrangement of 0..n-1. */
  lemma PrefixArrangement(n: nat, r: nat, s: seq<int>)
    requires r <= n && |s| == n && Distinct(s) && multiset(s) == multiset(Range(n))
    ensures IsArrangement(n, r, s[..r])
    ensures r == n ==> multiset(s[..r]) == multiset(Range(n))
  {
    forall i | 0 <= i < r ensures 0 <= s[i] < n {
      assert s[i] in multiset(Range(n));
    }
    if r == n {
      assert s[..r] == s;
    }
  }

  /** Decoding is monotone: over a sorted index list, lexicographically
      smaller counters give lexicographically smaller tuples. */
  lemma {:induction false} DecodeMonotone(avail: seq<int>, a: seq<int>, b: seq<int>)
    requires StrictlySorted(avail)
    requires FitsRadix(|avail|, a) && FitsRadix(|avail|, b) && |a| == |b|
    requires LexLess(a, b)
    ensures LexLess(Decode(avail, a)[..|a|], Decode(avail, b)[..|b|])
    decreases |a|
  {
    FitsTail(|avail|, a);
    FitsTail(|avail|, b);
    DecodeHead(avail, a);
    DecodeHead(avail, b);
    if a[0] == b[0] {
      RemoveSorted(avail, a[0]);
      DecodeMonotone(Remove(avail, a[0]), a[1..], b[1..]);
    }
  }

  /** The head and tail of a decoded prefix. */
  lemma DecodeHead(avail: seq<int>, a: seq<int>)
    requires a != [] && 0 <= a[0] < |avail| && |a| <= |avail|
    ensures var da := Decode(avail, a)[..|a|];
            da[0] == avail[a[0]] && da[1..] == Decode(Remove(avail, a[0]), a[1..])[..|a| - 1]
  {
  }

  /** The listing is strictly increasing in lexicographic order, so no tuple repeats. */
  lemma ListingSorted(n: nat, r: nat, p: nat, q: nat)
    requires p < q < |Listing(n, r)|
    ensures LexLess(Listing(n, r)[p], Listing(n, r)[q])
    ensures Listing(n, r)[p] != Listing(n, r)[q]
  {
    var a, b := Unrank(n, r, p), Unrank(n, r, q);
    assert a != b;
    LexTotal(a, b);
    if LexLess(b, a) {
      RankMonotone(n, b, a);
    }
    assert StrictlySorted(Range(n));
    DecodeMonotone(Range(n), a, b);
    if Listing(n, r)[p] == Listing(n, r)[q] {
      LexIrreflexive(Listing(n, r)[p]);
    }
  }

  function IndexOf(s: seq<int>, v: int): (k: nat)
    requires v in s
    ensures k < |s| && s[k] == v
  {
    if s[0] == v then 0 else 1 + IndexOf(s[1..], v)
  }

  /** The counter under which Decode starts with the tuple x. */
  function Encode(avail: seq<int>, x: seq<int>): (ks: seq<int>)
    requires Distinct(avail) && Distinct(x)
    requires forall i :: 0 <= i < |x| ==> x[i] in avail
    ensures |ks| == |x| && FitsRadix(|avail|, ks)
    ensures Decode(avail, ks)[..|x|] == x
    decreases |x|
  {
    if x == [] then []
    else
      var k := IndexOf(avail, x[0]);
      EncodeTail(avail, x, k);
      var rest := Encode(Remove(avail, k), x[1..]);
      EncodeHead(avail, x, k, rest);
      [k] + rest
  }

  /** After choosing x[0], the rest of x is drawn from what is left. */
  lemma EncodeTail(avail: seq<int>, x: seq<int>, k: nat)
    requires Distinct(avail) && Distinct(x) && x != []
    requires forall i :: 0 <= i < |x| ==> x[i] in avail
    requires k < |avail| && avail[k] == x[0]
    ensures Distinct(Remove(avail, k)) && Distinct(x[1..])
    ensures forall i :: 0 <= i < |x| - 1 ==> x[1..][i] in Remove(avail, k)
  {
    RemoveDistinct(avail, k);
    forall i | 0 <= i < |x| - 1 ensures x[1..][i] in Remove(avail, k) {
      var t := IndexOf(avail, x[i + 1]);
      assert x[i + 1] != x[0];
      RemoveKeeps(avail, k, t);
    }
  }

  lemma EncodeHead(avail: seq<int>, x: seq<int>, k: nat, rest: seq<int>)
    requires x != [] && k < |avail| && avail[k] == x[0]
    requires |rest| == |x| - 1 && FitsRadix(|avail| - 1, rest)
    requires Decode(Remove(avail, k), rest)[..|x| - 1] == x[1..]
    ensures FitsRadix(|avail|, [k] + rest)
    ensures Decode(avail, [k] + rest)[..|x|] == x
  {
    FitsCons(|avail|, k, rest);
    DecodeCons(avail, k, rest);
    var d := Decode(Remove(avail, k), rest);
    assert ([x[0]] + d)[..|x|] == [x[0]] + d[..|x| - 1];
    assert x == [x[0]] + x[1..];
  }

  /** Every r-tuple of distinct indices below n is listed. */
  lemma ListingComplete(n: nat, r: nat, x: seq<int>)
    requires IsArrangement(n, r, x)
    ensures x in Listing(n, r)
  {
    assert forall i :: 0 <= i < |x| ==> x[i] in Range(n) by {
      forall i | 0 <= i < |x| ensures x[i] in Range(n) {
        assert Range(n)[x[i]] == x[i];
      }
    }
    var ks := Encode(Range(n), x);
    UnrankRank(n, ks);
    var q := Rank(n, ks);
    assert Listing(n, r)[q] == x;
  }

  /** The listing holds exactly the r-tuples of distinct indices below n. */
  lemma ListingExactly(n: nat, r: nat, x: seq<int>)
    ensures x in Listing(n, r) <==> IsArrangement(n, r, x)
  {
    if x in Listing(n, r) {
      var q :| 0 <= q < |Listing(n, r)| && Listing(n, r)[q] == x;
      ListingSound(n, r, q);
    }
    if IsArrangement(n, r, x) {
      ListingComplete(n, r, x);
    }
  }
}
