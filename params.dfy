/** The choice of benchmark parameters in `bm_run(N, M)` of code.py, lines
    145-163: each of the two tables maps a key (n, m) to the parameters of
    one workload, and the scan keeps the largest key, in Python's tuple
    order, among those that fit N and M. */
module Params {
  import opened Wrappers

  /** One entry `nm: p` of a parameter table. */
  type Entry = ((int, int), (int, int))

  /** `bm_params_float`, in the order it is written; a dict, so its keys are
      distinct. */
  function FloatTable(): (t: seq<Entry>)
    ensures |t| == 4 && DistinctKeys(t)
  {
    [((50, 25), (1, 150)),
     ((100, 100), (1, 50)),
     ((1000, 1000), (10, 1500)),
     ((5000, 1000), (20, 3000))]
  }

  /** `bm_params_nqueens`, in the order it is written; a dict, so its keys
      are distinct. */
  function NQueensTable(): (t: seq<Entry>)
    ensures |t| == 4 && DistinctKeys(t)
  {
    [((50, 25), (1, 5)),
     ((100, 25), (1, 5)),
     ((1000, 100), (1, 7)),
     ((5000, 100), (1, 8))]
  }

  /** Python's `a > b` on pairs: compare first components, then second. */
  predicate Greater(a: (int, int), b: (int, int)) {
    a.0 > b.0 || (a.0 == b.0 && a.1 > b.1)
  }

  /** A key the scan can take: it fits N and M and lies above the starting
      value `cur_nm = (0, 0)`. */
  predicate Qualifies(nm: (int, int), n: int, m: int) {
    10 * nm.0 <= 12 * n && nm.1 <= m && Greater(nm, (0, 0))
  }

  /** Entry k has the largest qualifying key of the table. */
  predicate IsBest(table: seq<Entry>, n: int, m: int, k: int) {
    0 <= k < |table| && Qualifies(table[k].0, n, m) &&
    forall j :: 0 <= j < |table| && Qualifies(table[j].0, n, m) ==> !Greater(table[j].0, table[k].0)
  }

  /** No two entries share a key, as in a Python dict. */
  predicate DistinctKeys(table: seq<Entry>) {
    forall i, j :: 0 <= i < j < |table| ==> table[i].0 != table[j].0
  }

  /** One of the two scans: `cur_nm = (0, 0); param = None; for nm, p in
      table: if 10 * nm[0] <= 12 * N and nm[1] <= M and nm > cur_nm: ...`.
      None is the `param is None` case that reports "no matching params". */
  method PickParams(table: seq<Entry>, n: int, m: int) returns (param: Option<(int, int)>)
    ensures param.None? <==> forall k :: 0 <= k < |table| ==> !Qualifies(table[k].0, n, m)
    ensures param.Some? ==> exists k :: IsBest(table, n, m, k) && param.value == table[k].1
  {
    var cur := (0, 0);
    param := None;
    for k := 0 to |table|
      invariant param.None? ==> cur == (0, 0) && forall j :: 0 <= j < k ==> !Qualifies(table[j].0, n, m)
      invariant param.Some? ==> exists i :: 0 <= i < k && Qualifies(table[i].0, n, m) &&
                                           cur == table[i].0 && param.value == table[i].1
      invariant forall j :: 0 <= j < k && Qualifies(table[j].0, n, m) ==> !Greater(table[j].0, cur)
    {
      var (nm, p) := table[k];
      if 10 * nm.0 <= 12 * n && nm.1 <= m && Greater(nm, cur) {
        GreaterTransitive(nm, cur, (0, 0));
        forall j | 0 <= j < k && Qualifies(table[j].0, n, m) ensures !Greater(table[j].0, nm) {
          GreaterTransitive(table[j].0, nm, cur);
        }
        cur := nm;
        param := Some(p);
      }
    }
  }

  /** Python's tuple order is transitive; with `(0, 0)` as the start this is
      why a key taken by the scan stays above every key seen before it. */
  lemma GreaterTransitive(a: (int, int), b: (int, int), c: (int, int))
    ensures Greater(a, b) && Greater(b, c) ==> Greater(a, c)
    ensures !Greater(a, b) && !Greater(b, c) ==> !Greater(a, c)
    ensures Greater(a, b) && !Greater(c, b) ==> Greater(a, c)
  {
  }

  /** Python's tuple order is total: two pairs neither above the other are equal. */
  lemma GreaterTotal(a: (int, int), b: (int, int))
    ensures !Greater(a, b) && !Greater(b, a) <==> a == b
  {
  }

  /** What the scan picks does not depend on the order it visits the table:
      over two listings of the same entries with distinct keys, the best
      entries coincide, and both tables have a qualifying key or neither. */
  lemma BestIgnoresOrder(t1: seq<Entry>, t2: seq<Entry>, n: int, m: int, i: int, j: int)
    requires DistinctKeys(t1) && multiset(t1) == multiset(t2)
    requires IsBest(t1, n, m, i) && IsBest(t2, n, m, j)
    ensures t1[i] == t2[j]
  {
    assert t2[j] in multiset(t1) && t1[i] in multiset(t2);
    var a :| 0 <= a < |t1| && t1[a] == t2[j];
    var b :| 0 <= b < |t2| && t2[b] == t1[i];
    assert !Greater(t1[a].0, t1[i].0) && !Greater(t2[b].0, t2[j].0);
    GreaterTotal(t1[i].0, t2[j].0);
    assert t1[a].0 == t1[i].0;
  }

  /** Whether some key qualifies does not depend on the order of the table. */
  lemma NoneIgnoresOrder(t1: seq<Entry>, t2: seq<Entry>, n: int, m: int)
    requires multiset(t1) == multiset(t2)
    ensures (forall k :: 0 <= k < |t1| ==> !Qualifies(t1[k].0, n, m)) <==>
            (forall k :: 0 <= k < |t2| ==> !Qualifies(t2[k].0, n, m))
  {
    forall k | 0 <= k < |t1| && Qualifies(t1[k].0, n, m)
      ensures exists l :: 0 <= l < |t2| && Qualifies(t2[l].0, n, m)
    {
      assert t1[k] in multiset(t2);
      var l :| 0 <= l < |t2| && t2[l] == t1[k];
    }
    forall k | 0 <= k < |t2| && Qualifies(t2[k].0, n, m)
      ensures exists l :: 0 <= l < |t1| && Qualifies(t1[l].0, n, m)
    {
      assert t2[k] in multiset(t1);
      var l :| 0 <= l < |t1| && t1[l] == t2[k];
    }
  }

  /** The outcome of the parameter choice in `bm_run`. */
  datatype Choice = NoMatch | Run(float: (int, int), nqueens: (int, int))

  /** Both scans of `bm_run`: the float table first, and the N-Queens table
      only when the float table had a match. */
  method ChooseParams(n: int, m: int) returns (c: Choice)
    ensures c.NoMatch? <==> (forall k :: 0 <= k < |FloatTable()| ==> !Qualifies(FloatTable()[k].0, n, m)) ||
                            (forall k :: 0 <= k < |NQueensTable()| ==> !Qualifies(NQueensTable()[k].0, n, m))
    ensures c.Run? ==> (exists k :: IsBest(FloatTable(), n, m, k) && c.float == FloatTable()[k].1) &&
                       (exists k :: IsBest(NQueensTable(), n, m, k) && c.nqueens == NQueensTable()[k].1)
  {
    var pf := PickParams(FloatTable(), n, m);
    if pf.None? {
      return NoMatch;
    }
    var pq := PickParams(NQueensTable(), n, m);
    if pq.None? {
      return NoMatch;
    }
    c := Run(pf.value, pq.value);
  }

  /** `bm_run(100, 100)`: the float workload takes key (100, 100) and so
      parameters (1, 50); the N-Queens workload takes key (100, 25) and so
      parameters (1, 5).  Each is the one best entry of its table, so by
      ChooseParams the run gets exactly these. */
  lemma DefaultRun()
    ensures IsBest(FloatTable(), 100, 100, 1) && FloatTable()[1] == ((100, 100), (1, 50))
    ensures IsBest(NQueensTable(), 100, 100, 1) && NQueensTable()[1] == ((100, 25), (1, 5))
    ensures forall k :: IsBest(FloatTable(), 100, 100, k) ==> k == 1
    ensures forall k :: IsBest(NQueensTable(), 100, 100, k) ==> k == 1
  {
    assert Qualifies(FloatTable()[1].0, 100, 100) && Qualifies(NQueensTable()[1].0, 100, 100);
  }

  /** A board too small for every key: `bm_run(40, 100)` finds no float
      parameters (50 * 10 > 40 * 12), so it reports "no matching params". */
  lemma TooSmall()
    ensures forall k :: 0 <= k < |FloatTable()| ==> !Qualifies(FloatTable()[k].0, 40, 100)
  {
  }
}
