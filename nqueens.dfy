/** The N-Queens solver `n_queens(queen_count)` of code.py, lines 86-94: it
    runs through `permutations(range(queen_count))` and keeps the candidates
    whose queens share no diagonal, in the order the generator yields them. */
module NQueens {
  import opened Wrappers
  import opened Arrangements
  import opened Generator

  /** `set(w)` for a sequence of ints. */
  function Values(w: seq<int>): set<int> {
    set k | 0 <= k < |w| :: w[k]
  }

  /** `vec[i] + i for i in cols`: the rising diagonal of each queen. */
  function Sums(vec: seq<int>): seq<int> {
    seq(|vec|, i requires 0 <= i < |vec| => vec[i] + i)
  }

  /** `vec[i] - i for i in cols`: the falling diagonal of each queen. */
  function Diffs(vec: seq<int>): seq<int> {
    seq(|vec|, i requires 0 <= i < |vec| => vec[i] - i)
  }

  /** The test of `n_queens`: queen_count equals the number of distinct
      rising diagonals and the number of distinct falling diagonals.  Every
      candidate is a permutation of `cols`, so `i in cols` runs over all its
      positions. */
  predicate Accepts(q: nat, vec: seq<int>) {
    q == |Values(Sums(vec))| == |Values(Diffs(vec))|
  }

  /** No two queens (row i, column vec[i]) on a common diagonal. */
  predicate NoSharedDiagonal(vec: seq<int>) {
    forall i, j :: 0 <= i < j < |vec| ==> vec[i] + i != vec[j] + j && vec[i] - i != vec[j] - j
  }

  /** A sequence has as many distinct values as entries exactly when its
      entries are pairwise distinct; otherwise it has fewer. */
  lemma {:induction false} ValuesCount(w: seq<int>)
    ensures |Values(w)| <= |w|
    ensures |Values(w)| == |w| <==> Distinct(w)
    decreases |w|
  {
    if w != [] {
      var p, x := w[..|w| - 1], w[|w| - 1];
      ValuesCount(p);
      assert Values(w) == Values(p) + {x} by {
        forall v | v in Values(w) ensures v in Values(p) + {x} {
          var k :| 0 <= k < |w| && w[k] == v;
          if k < |p| {
            assert p[k] == v;
          }
        }
        forall v | v in Values(p) ensures v in Values(w) {
          var k :| 0 <= k < |p| && p[k] == v;
          assert w[k] == v;
        }
      }
      if x in Values(p) {
        var k :| 0 <= k < |p| && p[k] == x;
        assert w[k] == w[|w| - 1];
        assert !Distinct(w);
      } else {
        assert |Values(w)| == |Values(p)| + 1;
        if Distinct(p) {
          forall i, j | 0 <= i < j < |w| ensures w[i] != w[j] {
            if j < |p| {
              assert w[i] == p[i] && w[j] == p[j];
            } else {
              assert w[i] == p[i];
            }
          }
        } else {
          var i, j :| 0 <= i < j < |p| && p[i] == p[j];
          assert w[i] == w[j];
        }
      }
    }
  }

  /** What the set-size test means: both diagonal counts reach queen_count
      exactly when no two queens share a diagonal. */
  lemma AcceptsMeans(q: nat, vec: seq<int>)
    requires |vec| == q
    ensures Accepts(q, vec) <==> NoSharedDiagonal(vec)
  {
    var s, d := Sums(vec), Diffs(vec);
    ValuesCount(s);
    ValuesCount(d);
    if NoSharedDiagonal(vec) {
      forall i, j | 0 <= i < j < |s| ensures s[i] != s[j] && d[i] != d[j] {
        assert s[i] == vec[i] + i && s[j] == vec[j] + j;
        assert d[i] == vec[i] - i && d[j] == vec[j] - j;
      }
    }
    if Distinct(s) && Distinct(d) {
      forall i, j | 0 <= i < j < |vec| ensures vec[i] + i != vec[j] + j && vec[i] - i != vec[j] - j {
        assert s[i] != s[j] && d[i] != d[j];
      }
    }
  }

  /** The candidates of l that pass the test, in their order in l. */
  function Solutions(q: nat, l: seq<seq<int>>): seq<seq<int>>
    decreases |l|
  {
    if l == [] then []
    else
      var x := l[|l| - 1];
      Solutions(q, l[..|l| - 1]) + (if Accepts(q, x) then [x] else [])
  }

  /** A board is a solution in l exactly when it is a candidate of l that
      passes the test. */
  lemma {:induction false} SolutionsMember(q: nat, l: seq<seq<int>>, x: seq<int>)
    ensures x in Solutions(q, l) <==> x in l && Accepts(q, x)
    decreases |l|
  {
    if l != [] {
      var p := l[..|l| - 1];
      SolutionsMember(q, p, x);
      assert l == p + [l[|l| - 1]];
    }
  }

  /** The solutions keep the order of the candidates: from a strictly
      increasing list they come out strictly increasing. */
  lemma {:induction false} SolutionsOrdered(q: nat, l: seq<seq<int>>)
    requires forall i, j :: 0 <= i < j < |l| ==> LexLess(l[i], l[j])
    ensures forall i, j :: 0 <= i < j < |Solutions(q, l)| ==> LexLess(Solutions(q, l)[i], Solutions(q, l)[j])
    decreases |l|
  {
    if l != [] {
      var p, x := l[..|l| - 1], l[|l| - 1];
      SolutionsOrdered(q, p);
      var sp := Solutions(q, p);
      if Accepts(q, x) {
        var s := sp + [x];
        forall i, j | 0 <= i < j < |s| ensures LexLess(s[i], s[j]) {
          if j == |sp| {
            SolutionsMember(q, p, s[i]);
            var k :| 0 <= k < |p| && p[k] == s[i];
            assert l[k] == s[i] && l[|l| - 1] == x;
          } else {
            assert s[i] == sp[i] && s[j] == sp[j];
          }
        }
      }
    }
  }

  /** Mapping index tuples through `range(n)` changes nothing, so the pool
      `range(q)` yields the index tuples themselves. */
  lemma EmissionsOfRange(n: nat, r: nat)
    ensures Emissions(Range(n), r) == Listing(n, r)
  {
    var e, l := Emissions(Range(n), r), Listing(n, r);
    forall k | 0 <= k < |l| ensures e[k] == l[k] {
      ListingSound(n, r, k);
      assert Select(Range(n), l[k]) == l[k];
    }
  }

  /** The loop `for vec in candidates: if <test>: yield vec`, collected
      into a list. */
  method KeepSolutions(q: nat, candidates: seq<seq<int>>) returns (sols: seq<seq<int>>)
    ensures sols == Solutions(q, candidates)
  {
    sols := [];
    for k := 0 to |candidates|
      invariant sols == Solutions(q, candidates[..k])
    {
      var vec := candidates[k];
      assert candidates[..k + 1][..k] == candidates[..k];
      if Accepts(q, vec) {
        sols := sols + [vec];
      }
    }
    assert candidates[..|candidates|] == candidates;
  }

  /** `list(n_queens(queen_count))`: the candidates are what the permutation
      generator over `cols = range(queen_count)` yields, in its order. */
  method NQueens(q: nat) returns (sols: seq<seq<int>>)
    ensures sols == Solutions(q, Listing(q, q))
  {
    var candidates := Collect(Range(q), None);
    EmissionsOfRange(q, q);
    sols := KeepSolutions(q, candidates);
  }

  /** `n_queens(q)` yields exactly the permutations of range(q) with no two
      queens on a shared diagonal. */
  lemma NQueensExactly(q: nat, x: seq<int>)
    ensures x in Solutions(q, Listing(q, q)) <==> IsArrangement(q, q, x) && NoSharedDiagonal(x)
  {
    SolutionsMember(q, Listing(q, q), x);
    ListingExactly(q, q, x);
    if |x| == q {
      AcceptsMeans(q, x);
    }
  }

  /** Every solution is a rearrangement of range(q). */
  lemma NQueensPermutations(q: nat, k: nat)
    requires k < |Solutions(q, Listing(q, q))|
    ensures multiset(Solutions(q, Listing(q, q))[k]) == multiset(Range(q))
  {
    var x := Solutions(q, Listing(q, q))[k];
    SolutionsMember(q, Listing(q, q), x);
    var p :| 0 <= p < |Listing(q, q)| && Listing(q, q)[p] == x;
    ListingSound(q, q, p);
  }

  /** The solutions come out in the generator's order: lexicographically
      increasing, so without repeats. */
  lemma NQueensOrdered(q: nat)
    ensures forall i, j :: 0 <= i < j < |Solutions(q, Listing(q, q))| ==>
              LexLess(Solutions(q, Listing(q, q))[i], Solutions(q, Listing(q, q))[j])
  {
    forall i, j | 0 <= i < j < |Listing(q, q)| ensures LexLess(Listing(q, q)[i], Listing(q, q)[j]) {
      ListingSorted(q, q, i, j);
    }
    SolutionsOrdered(q, Listing(q, q));
  }

  /** With no queens, the one empty board is the one solution. */
  lemma NQueensZero()
    ensures Solutions(0, Listing(0, 0)) == [[]]
  {
    ListingOfEmptyTuple(0);
    var l := Listing(0, 0);
    assert l[..0] == [];
    assert Values(Sums([])) == {} && Values(Diffs([])) == {};
  }

  /** A list in strictly increasing tuple order is fixed by its members:
      two such lists with the same members are equal. */
  lemma {:induction false} SortedUnique(s: seq<seq<int>>, t: seq<seq<int>>)
    requires forall i, j :: 0 <= i < j < |s| ==> LexLess(s[i], s[j])
    requires forall i, j :: 0 <= i < j < |t| ==> LexLess(t[i], t[j])
    requires forall x :: x in s <==> x in t
    ensures s == t
    decreases |s|
  {
    if s != [] {
      assert s[0] in t;
    }
    if t != [] {
      assert t[0] in s;
    }
    if s != [] && t != [] {
      var i :| 0 <= i < |s| && s[i] == t[0];
      var j :| 0 <= j < |t| && t[j] == s[0];
      LexIrreflexive(s[0]);
      LexAsymmetric(s[0], s[i]);
      assert s[0] == t[0];
      forall x ensures x in s[1..] <==> x in t[1..] {
        LexIrreflexive(x);
        if x in s[1..] {
          var k :| 1 <= k < |s| && s[k] == x;
          assert LexLess(s[0], s[k]) && x in t;
          var l :| 0 <= l < |t| && t[l] == x;
          assert l != 0 && t[1..][l - 1] == x;
        }
        if x in t[1..] {
          var k :| 1 <= k < |t| && t[k] == x;
          assert LexLess(t[0], t[k]) && x in s;
          var l :| 0 <= l < |s| && s[l] == x;
          assert l != 0 && s[1..][l - 1] == x;
        }
      }
      SortedUnique(s[1..], t[1..]);
      assert s == [s[0]] + s[1..] && t == [t[0]] + t[1..];
    }
  }

  /** The two four-queen boards, in tuple order. */
  function FourBoards(): seq<seq<int>> {
    [[1, 3, 0, 2], [2, 0, 3, 1]]
  }

  /** Every four-queen board is one of FourBoards, and each of those is one. */
  lemma FourCases(x: seq<int>)
    ensures IsArrangement(4, 4, x) && NoSharedDiagonal(x) <==> x in FourBoards()
  {
    if |x| == 4 {
      assert x == [x[0], x[1], x[2], x[3]];
    }
  }

  /** `n_queens(4)` yields exactly the two boards [1, 3, 0, 2] and
      [2, 0, 3, 1], in that order. */
  lemma QueensFour(q: nat, s: seq<seq<int>>)
    requires q == 4 && s == Solutions(q, Listing(q, q))
    ensures s == FourBoards() && |s| == 2
  {
    NQueensOrdered(q);
    forall x ensures x in s <==> x in FourBoards() {
      NQueensExactly(q, x);
      FourCases(x);
    }
    SortedUnique(s, FourBoards());
  }

  /** The ten five-queen boards, in tuple order. */
  function FiveBoards(): seq<seq<int>> {
    [[0, 2, 4, 1, 3], [0, 3, 1, 4, 2], [1, 3, 0, 2, 4], [1, 4, 2, 0, 3], [2, 0, 3, 1, 4],
     [2, 4, 1, 3, 0], [3, 0, 2, 4, 1], [3, 1, 4, 2, 0], [4, 1, 3, 0, 2], [4, 2, 0, 3, 1]]
  }

  /** Every five-queen board is one of FiveBoards, and each of those is one. */
  lemma FiveCases(x: seq<int>)
    ensures IsArrangement(5, 5, x) && NoSharedDiagonal(x) <==> x in FiveBoards()
  {
    if x in FiveBoards() {
      FiveBoardsValid(x);
    }
    if IsArrangement(5, 5, x) && NoSharedDiagonal(x) {
      FiveBoardsComplete(x);
    }
  }

  lemma FiveBoardsValid(x: seq<int>)
    requires x in FiveBoards()
    ensures IsArrangement(5, 5, x) && NoSharedDiagonal(x)
  {
    FiveColumns(0, 2, 4, 1, 3);
    FiveColumns(0, 3, 1, 4, 2);
    FiveColumns(1, 3, 0, 2, 4);
    FiveColumns(1, 4, 2, 0, 3);
    FiveColumns(2, 0, 3, 1, 4);
    FiveColumns(2, 4, 1, 3, 0);
    FiveColumns(3, 0, 2, 4, 1);
    FiveColumns(3, 1, 4, 2, 0);
    FiveColumns(4, 1, 3, 0, 2);
    FiveColumns(4, 2, 0, 3, 1);
  }

  /** Five queens in columns a..e of rows 0..4, pairwise apart in column and
      both diagonals, make a board. */
  lemma FiveColumns(a: int, b: int, c: int, d: int, e: int)
    requires 0 <= a < 5 && 0 <= b < 5 && 0 <= c < 5 && 0 <= d < 5 && 0 <= e < 5
    requires a != b && a + 0 != b + 1 && a - 0 != b - 1
    requires a != c && a + 0 != c + 2 && a - 0 != c - 2
    requires a != d && a + 0 != d + 3 && a - 0 != d - 3
    requires a != e && a + 0 != e + 4 && a - 0 != e - 4
    requires b != c && b + 1 != c + 2 && b - 1 != c - 2
    requires b != d && b + 1 != d + 3 && b - 1 != d - 3
    requires b != e && b + 1 != e + 4 && b - 1 != e - 4
    requires c != d && c + 2 != d + 3 && c - 2 != d - 3
    requires c != e && c + 2 != e + 4 && c - 2 != e - 4
    requires d != e && d + 3 != e + 4 && d - 3 != e - 4
    ensures IsArrangement(5, 5, [a, b, c, d, e]) && NoSharedDiagonal([a, b, c, d, e])
  {
  }

  lemma FiveBoardsComplete(x: seq<int>)
    requires IsArrangement(5, 5, x) && NoSharedDiagonal(x)
    ensures x in FiveBoards()
  {
    assert forall i :: 0 <= i < 5 ==> 0 <= x[i] < 5;
    assert x[0] != x[1] && x[0] + 0 != x[1] + 1 && x[0] - 0 != x[1] - 1;
    assert x[0] != x[2] && x[0] + 0 != x[2] + 2 && x[0] - 0 != x[2] - 2;
    assert x[0] != x[3] && x[0] + 0 != x[3] + 3 && x[0] - 0 != x[3] - 3;
    assert x[0] != x[4] && x[0] + 0 != x[4] + 4 && x[0] - 0 != x[4] - 4;
    assert x[1] != x[2] && x[1] + 1 != x[2] + 2 && x[1] - 1 != x[2] - 2;
    assert x[1] != x[3] && x[1] + 1 != x[3] + 3 && x[1] - 1 != x[3] - 3;
    assert x[1] != x[4] && x[1] + 1 != x[4] + 4 && x[1] - 1 != x[4] - 4;
    assert x[2] != x[3] && x[2] + 2 != x[3] + 3 && x[2] - 2 != x[3] - 3;
    assert x[2] != x[4] && x[2] + 2 != x[4] + 4 && x[2] - 2 != x[4] - 4;
    assert x[3] != x[4] && x[3] + 3 != x[4] + 4 && x[3] - 3 != x[4] - 4;
    assert x == [x[0], x[1], x[2], x[3], x[4]];
  }

  /** FiveBoards is listed in strictly increasing tuple order. */
  lemma FiveBoardsSorted()
    ensures forall i, j :: 0 <= i < j < |FiveBoards()| ==> LexLess(FiveBoards()[i], FiveBoards()[j])
  {
  }

  /** `n_queens(5)`, the workload of `bm_run(100, 100)`, yields exactly the
      ten boards of FiveBoards, in that order. */
  lemma QueensFive(q: nat, s: seq<seq<int>>)
    requires q == 5 && s == Solutions(q, Listing(q, q))
    ensures s == FiveBoards() && |s| == 10
  {
    NQueensOrdered(q);
    FiveBoardsSorted();
    forall x ensures x in s <==> x in FiveBoards() {
      NQueensExactly(q, x);
      FiveCases(x);
    }
    SortedUnique(s, FiveBoards());
  }
}
