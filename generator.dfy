/** The generator `permutations(iterable, r=None)` of code.py, lines 61-82,
    as an object: each call of Next() runs the generator body up to its next
    `yield` (or to its end) and answers with the yielded tuple or None. */
module Generator {
  import opened Wrappers
  import opened Arrangements

  /** Where the generator body is suspended: before its first statement, at
      a `yield`, or finished. */
  datatype Phase = Created | Suspended | Finished

  /** The counter digits that the list `cycles` encodes: digit i is
      n - i - cycles[i], the number of times position i has advanced. */
  function DigitsOf(n: nat, cycles: seq<int>): seq<int> {
    seq(|cycles|, i requires 0 <= i < |cycles| => n - i - cycles[i])
  }

  /** `tuple(pool[i] for i in idx)`. */
  function Select<T>(pool: seq<T>, idx: seq<int>): seq<T>
    requires forall k :: 0 <= k < |idx| ==> 0 <= idx[k] < |pool|
  {
    seq(|idx|, k requires 0 <= k < |idx| => pool[idx[k]])
  }

  /** Everything `list(permutations(pool, r))` holds, in order. */
  function Emissions<T>(pool: seq<T>, r: nat): (e: seq<seq<T>>)
    ensures |e| == Falling(|pool|, r)
  {
    seq(Falling(|pool|, r), q requires 0 <= q < Falling(|pool|, r) =>
      ListingSound(|pool|, r, q);
      Select(pool, Listing(|pool|, r)[q]))
  }

  /** `list(range(n - r + 1, n + 1))[::-1]`: n, n - 1, ..., n - r + 1. */
  function InitialCycles(n: nat, r: nat): (c: seq<int>)
    ensures |c| == r && DigitsOf(n, c) == Zeros(r)
  {
    seq(r, i => n - i)
  }

  class Permutations<T> {
    const pool: seq<T>
    const n: nat
    const r: nat
    var indices: seq<int>
    var cycles: seq<int>
    var phase: Phase
    /** How many tuples have been yielded so far. */
    ghost var count: nat

    ghost predicate Valid()
      reads this
    {
      |pool| == n && Consistent(n, r, phase, count, cycles, indices)
    }

    /** `permutations(iterable, r)`: r = None stands for the whole length.
        An r larger than the pool gives a generator that yields nothing. */
    constructor (iterable: seq<T>, r: Option<nat>)
      ensures Valid() && count == 0
      ensures pool == iterable && n == |iterable| && this.r == r.GetOr(|iterable|)
      ensures indices == Range(n)
      ensures phase == (if this.r > n then Finished else Created)
    {
      pool := iterable;
      n := |iterable|;
      var rr := r.GetOr(|iterable|);
      this.r := rr;
      indices := Range(|iterable|);
      cycles := InitialCycles(|iterable|, rr);
      phase := if rr > |iterable| then Finished else Created;
      count := 0;
      new;
      if rr <= |iterable| {
        DecodeZeros(Range(|iterable|), rr);
      } else {
        FallingPositiveExactly(|iterable|, rr);
      }
    }

    /** Resume the generator: the next tuple of Listing(n, r), mapped through
        the pool, or None once all Falling(n, r) tuples have been yielded. */
    method Next() returns (t: Option<seq<T>>)
      requires Valid()
      modifies this
      ensures Valid()
      ensures old(count) < Falling(n, r) ==> IsArrangement(n, r, Listing(n, r)[old(count)])
      ensures old(count) < Falling(n, r) ==>
                count == old(count) + 1 && t == Some(Select(pool, Listing(n, r)[old(count)]))
      ensures old(count) == Falling(n, r) ==> count == old(count) && t == None
      ensures t == None ==> phase == Finished
    {
      if phase == Finished {
        return None;
      } else if phase == Created {
        t := Start();
      } else {
        t := Resume();
      }
    }

    /** The generator body up to its first `yield`: the first r indices. */
    method Start() returns (t: Option<seq<T>>)
      requires phase == Created
      requires Valid()
      modifies this
      ensures Valid()
      ensures old(count) < Falling(n, r) ==> IsArrangement(n, r, Listing(n, r)[old(count)])
      ensures old(count) < Falling(n, r) ==>
                count == old(count) + 1 && t == Some(Select(pool, Listing(n, r)[old(count)]))
      ensures old(count) == Falling(n, r) ==> count == old(count) && t == None
      ensures t == None ==> phase == Finished
    {
      FallingPositiveExactly(n, r);
      RankZeros(n, r);
      ListingFirst(n, r);
      ListingSound(n, r, 0);
      DecodeZeros(Range(n), r);
      assert indices[..r] == Listing(n, r)[0];
      t := Some(Select(pool, indices[..r]));
      phase := Suspended;
      count := 1;
    }

    /** One turn of the `while n:` loop after a `yield`: scan `cycles` from
        the right, rotating `indices[i:]` wherever `cycles[i]` runs out, until
        one position can advance by a swap; no such position ends the
        generator. */
    method Resume() returns (t: Option<seq<T>>)
      requires phase == Suspended
      requires Valid()
      modifies this
      ensures Valid()
      ensures old(count) < Falling(n, r) ==> IsArrangement(n, r, Listing(n, r)[old(count)])
      ensures old(count) < Falling(n, r) ==>
                count == old(count) + 1 && t == Some(Select(pool, Listing(n, r)[old(count)]))
      ensures old(count) == Falling(n, r) ==> count == old(count) && t == None
      ensures t == None ==> phase == Finished
    {
      FallingPositiveExactly(n, r);
      if n == 0 {
        phase := Finished;
        return None;
      }
      var advanced;
      advanced, cycles, indices := Scan(n, r, count, cycles, indices);
      if advanced {
        count := count + 1;
        t := Some(Select(pool, indices[..r]));
      } else {
        phase := Finished;
        t := None;
      }
    }

  }

  /** The `for i in reversed(range(r))` loop, on the generator's lists
      `cycles` and `indices` after the q-th yield: true with the updated
      lists when it stopped at a swap (`break`), false when it ran out
      (`else: return`). */
  method Scan(n: nat, r: nat, ghost q: nat, cycles: seq<int>, indices: seq<int>)
    returns (advanced: bool, cycles': seq<int>, indices': seq<int>)
    requires n > 0 && Consistent(n, r, Suspended, q, cycles, indices)
    ensures advanced ==> Advanced(n, r, q, cycles', indices')
    ensures !advanced ==> q == Falling(n, r) && Consistent(n, r, Finished, q, cycles', indices')
  {
    ghost var ks := DigitsOf(n, cycles);
    ScanStart(n, r, q, cycles, indices);
    cycles', indices' := cycles, indices;
    for i := r downto 0
      invariant |cycles'| == r && |indices'| == n
      invariant ScanState(n, r, ks, i, cycles', indices')
    {
      ghost var before, shuffled := cycles', indices';
      CycleBounds(n, r, ks, i, cycles', indices');
      cycles' := cycles'[i := cycles'[i] - 1];
      if cycles'[i] == 0 {
        indices' := RotateLeftAt(indices', i);
        cycles' := cycles'[i := n - i];
        ResetStep(n, r, ks, i, before, shuffled, cycles', indices');
      } else {
        var j := cycles'[i];
        indices' := Swap(indices', i, n - j);
        AdvanceStep(n, r, ks, q, i, before, shuffled, cycles', indices');
        return true, cycles', indices';
      }
    }
    ScanEnd(n, r, ks, q, cycles', indices');
    return false, cycles', indices';
  }

  /** The generator's state agrees with its count of yielded tuples:
      `cycles` is a counter, `indices` is what that counter decodes to, and
      after the q-th yield the counter has rank q - 1. */
  ghost predicate Consistent(n: nat, r: nat, phase: Phase, count: nat, cycles: seq<int>, indices: seq<int>) {
    |indices| == n && |cycles| == r && count <= Falling(n, r) &&
    (r <= n ==> FitsRadix(n, DigitsOf(n, cycles)) && indices == Decode(Range(n), DigitsOf(n, cycles))) &&
    (r > n ==> phase == Finished) &&
    (phase == Created ==> count == 0 && DigitsOf(n, cycles) == Zeros(r)) &&
    (phase == Suspended ==> count == Rank(n, DigitsOf(n, cycles)) + 1) &&
    (phase == Finished ==> count == Falling(n, r))
  }

  /** Between two calls of next, `indices` is a rearrangement of 0..n-1 and
      each `cycles[i]` lies in 1..n-i. */
  lemma ConsistentBounds(n: nat, r: nat, phase: Phase, count: nat, cycles: seq<int>, indices: seq<int>)
    requires Consistent(n, r, phase, count, cycles, indices) && r <= n
    ensures multiset(indices) == multiset(Range(n))
    ensures forall i :: 0 <= i < r ==> 1 <= cycles[i] <= n - i
  {
    DecodePermutes(Range(n), DigitsOf(n, cycles));
    forall i | 0 <= i < r ensures 1 <= cycles[i] <= n - i {
      assert DigitsOf(n, cycles)[i] == n - i - cycles[i];
    }
  }

  /** The scan stopped at a swap: `indices[:r]` is the tuple of rank q, and
      the state is consistent with q + 1 tuples yielded. */
  ghost predicate Advanced(n: nat, r: nat, q: nat, cycles: seq<int>, indices: seq<int>) {
    q < Falling(n, r) && r <= n && |indices| == n &&
    indices[..r] == Listing(n, r)[q] && IsArrangement(n, r, indices[..r]) &&
    Consistent(n, r, Suspended, q + 1, cycles, indices)
  }

  /** Halfway through the scan of `cycles` from the right: positions i and
      beyond held maximal digits and have been reset, the rest are untouched. */
  ghost predicate ScanState(n: nat, r: nat, ks: seq<int>, i: int, cycles: seq<int>, indices: seq<int>) {
    0 <= i <= r <= n && |ks| == r && FitsRadix(n, ks) &&
    DigitsOf(n, cycles) == ks[..i] + Zeros(r - i) &&
    (forall j :: i <= j < r ==> ks[j] == n - j - 1) &&
    indices == Decode(Range(n), DigitsOf(n, cycles))
  }

  /** Digit i of the counter is read off `cycles[i]`. */
  lemma DigitAt(n: nat, r: nat, ks: seq<int>, i: nat, cycles: seq<int>)
    requires i < r == |cycles| == |ks|
    requires DigitsOf(n, cycles) == ks[..i + 1] + Zeros(r - i - 1)
    ensures ks[i] == n - i - cycles[i]
  {
    assert DigitsOf(n, cycles)[i] == ks[i];
  }

  /** Setting `cycles[i]` to v sets digit i to d = n - i - v. */
  lemma SetDigit(n: nat, r: nat, ks: seq<int>, i: nat, cycles: seq<int>, v: int, d: int)
    requires i < r == |cycles| == |ks| && d == n - i - v
    requires DigitsOf(n, cycles) == ks[..i + 1] + Zeros(r - i - 1)
    ensures DigitsOf(n, cycles[i := v]) == ks[..i] + [d] + Zeros(r - i - 1)
  {
    var e := DigitsOf(n, cycles[i := v]);
    var want := ks[..i] + [d] + Zeros(r - i - 1);
    forall t | 0 <= t < r ensures e[t] == want[t] {
      if t < i {
        assert DigitsOf(n, cycles)[t] == ks[t];
      } else if t > i {
        assert DigitsOf(n, cycles)[t] == 0;
      }
    }
  }

  /** Before the scan: the counter after the last yield. */
  lemma ScanStart(n: nat, r: nat, count: nat, cycles: seq<int>, indices: seq<int>)
    requires Consistent(n, r, Suspended, count, cycles, indices)
    ensures r <= n && count == Rank(n, DigitsOf(n, cycles)) + 1
    ensures ScanState(n, r, DigitsOf(n, cycles), r, cycles, indices)
  {
    var ks := DigitsOf(n, cycles);
    assert ks[..r] + Zeros(0) == ks;
  }

  /** While position i is scanned, `cycles[i]` lies in 1..n-i. */
  lemma CycleBounds(n: nat, r: nat, ks: seq<int>, i: nat, cycles: seq<int>, indices: seq<int>)
    requires i < r && ScanState(n, r, ks, i + 1, cycles, indices)
    ensures |cycles| == r && 1 <= cycles[i] <= n - i
  {
    assert DigitsOf(n, cycles)[i] == (ks[..i + 1] + Zeros(r - i - 1))[i] == ks[i];
  }

  /** `cycles[i]` has reached zero: the rotation of `indices[i:]` and the
      reset of `cycles[i]` carry into position i - 1. */
  lemma ResetStep(n: nat, r: nat, ks: seq<int>, i: nat, cycles: seq<int>, indices: seq<int>,
                  cycles': seq<int>, indices': seq<int>)
    requires i < r && |cycles| == r && cycles[i] - 1 == 0
    requires ScanState(n, r, ks, i + 1, cycles, indices)
    requires cycles' == cycles[i := cycles[i] - 1][i := n - i]
    requires i < |indices| && indices' == RotateLeftAt(indices, i)
    ensures ScanState(n, r, ks, i, cycles', indices')
  {
    var next := ks[..i] + [0] + Zeros(r - i - 1);
    assert r - (i + 1) == r - i - 1;
    assert cycles' == cycles[i := n - i];
    ResetDigits(n, r, ks, i, cycles, cycles', next);
    ResetIndices(n, r, ks, i, cycles, indices, indices', next);
  }

  /** Setting an exhausted `cycles[i]` back to n - i clears digit i, which
      was at its maximum n - i - 1. */
  lemma ResetDigits(n: nat, r: nat, ks: seq<int>, i: nat, cycles: seq<int>, cycles': seq<int>, next: seq<int>)
    requires i < r <= n && |cycles| == r && |ks| == r && cycles[i] == 1
    requires DigitsOf(n, cycles) == ks[..i + 1] + Zeros(r - i - 1)
    requires cycles' == cycles[i := n - i] && next == ks[..i] + [0] + Zeros(r - i - 1)
    ensures ks[i] == n - i - 1
    ensures DigitsOf(n, cycles') == next && next == ks[..i] + Zeros(r - i)
  {
    DigitAt(n, r, ks, i, cycles);
    SetDigit(n, r, ks, i, cycles, n - i, 0);
    ZerosCons(r - i);
    assert [0] + Zeros(r - i - 1) == Zeros(r - i);
    ConcatAssoc(ks[..i], [0], Zeros(r - i - 1));
  }

  /** Rotating the suffix at i turns the index list into the decoding of the
      counter with digit i cleared. */
  lemma ResetIndices(n: nat, r: nat, ks: seq<int>, i: nat, cycles: seq<int>, indices: seq<int>,
                     indices': seq<int>, next: seq<int>)
    requires i < r <= n && |ks| == r && FitsRadix(n, ks) && ks[i] == n - i - 1
    requires DigitsOf(n, cycles) == ks[..i + 1] + Zeros(r - i - 1)
    requires indices == Decode(Range(n), DigitsOf(n, cycles))
    requires i < |indices| && indices' == RotateLeftAt(indices, i)
    requires next == ks[..i] + [0] + Zeros(r - i - 1)
    ensures indices' == Decode(Range(n), next)
  {
    FitsPrefix(n, ks, i);
    assert ks[..i + 1] == ks[..i] + [ks[i]];
    RotateResets(Range(n), ks[..i], ks[i], r - i - 1, indices, Decode(Range(n), next), i);
  }

  /** `cycles[i]` is still positive: the swap of `indices[i]` with
      `indices[-j]` moves the counter to its successor, whose rank is the
      number of tuples yielded so far. */
  lemma AdvanceStep(n: nat, r: nat, ks: seq<int>, q: nat, i: nat, cycles: seq<int>, indices: seq<int>,
                    cycles': seq<int>, indices': seq<int>)
    requires i < r && |cycles| == r && cycles[i] - 1 != 0
    requires ScanState(n, r, ks, i + 1, cycles, indices) && q == Rank(n, ks) + 1
    requires cycles' == cycles[i := cycles[i] - 1]
    requires i < |indices| && 0 < cycles'[i] <= n && indices' == Swap(indices, i, n - cycles'[i])
    ensures Advanced(n, r, q, cycles', indices')
  {
    var next := ks[..i] + [ks[i] + 1] + Zeros(r - i - 1);
    assert r - (i + 1) == r - i - 1;
    AdvanceDigits(n, r, ks, i, cycles, cycles', next);
    AdvanceIndices(n, r, ks, i, cycles, indices, cycles', indices', next);
    AdvanceCount(n, r, ks, i, q, next);
    ListingEntry(n, r, next);
    ListingSound(n, r, q);
  }

  /** Lowering cycles[i] raises digit i by one and leaves a counter that
      still fits the radix. */
  lemma AdvanceDigits(n: nat, r: nat, ks: seq<int>, i: nat, cycles: seq<int>, cycles': seq<int>, next: seq<int>)
    requires i < r <= n && |cycles| == r && |ks| == r && FitsRadix(n, ks)
    requires DigitsOf(n, cycles) == ks[..i + 1] + Zeros(r - i - 1)
    requires cycles' == cycles[i := cycles[i] - 1] && 0 < cycles'[i]
    requires next == ks[..i] + [ks[i] + 1] + Zeros(r - i - 1)
    ensures FitsRadix(n, next)
    ensures DigitsOf(n, cycles') == next
  {
    FitsPrefix(n, ks, i);
    DigitAt(n, r, ks, i, cycles);
    SetDigit(n, r, ks, i, cycles, cycles[i] - 1, ks[i] + 1);
    FitsShapeOf(n, ks[..i], ks[i] + 1, r - i - 1);
  }

  /** The swap turns the index list into the decoding of the raised counter. */
  lemma AdvanceIndices(n: nat, r: nat, ks: seq<int>, i: nat, cycles: seq<int>, indices: seq<int>,
                       cycles': seq<int>, indices': seq<int>, next: seq<int>)
    requires i < r <= n && |cycles| == r && |ks| == r && FitsRadix(n, ks)
    requires DigitsOf(n, cycles) == ks[..i + 1] + Zeros(r - i - 1)
    requires indices == Decode(Range(n), DigitsOf(n, cycles))
    requires cycles' == cycles[i := cycles[i] - 1]
    requires 0 < cycles'[i] <= n && indices' == Swap(indices, i, n - cycles'[i])
    requires next == ks[..i] + [ks[i] + 1] + Zeros(r - i - 1)
    ensures indices' == Decode(Range(n), next)
  {
    FitsPrefix(n, ks, i);
    DigitAt(n, r, ks, i, cycles);
    assert ks[..i + 1] == ks[..i] + [ks[i]];
    SwapAdvances(Range(n), ks[..i], ks[i], r - i - 1, indices, Decode(Range(n), next), i, n - cycles'[i]);
  }

  /** The raised counter with the positions after i reset ranks one above
      the counter whose positions after i were all at their maximum. */
  lemma AdvanceCount(n: nat, r: nat, ks: seq<int>, i: nat, q: nat, next: seq<int>)
    requires i < r <= n && |ks| == r && FitsRadix(n, next)
    requires forall j :: i + 1 <= j < r ==> ks[j] == n - j - 1
    requires q == Rank(n, ks) + 1
    requires next == ks[..i] + [ks[i] + 1] + Zeros(r - i - 1)
    ensures Rank(n, next) == q
    ensures q < Falling(n, r)
  {
    var pre, z, w := ks[..i], r - i - 1, n - i - 1;
    var down := pre + [ks[i]] + MaxDigits(w, z);
    MaxTail(n, r, ks, i, down);
    RankAfter(n, r, pre, ks[i], z, w, q, next, down);
  }

  /** The rank step of AdvanceCount, once the digits after position |pre|
      are known to be maximal. */
  lemma RankAfter(n: nat, r: nat, pre: seq<int>, d: int, z: nat, w: nat, q: nat, next: seq<int>, down: seq<int>)
    requires |pre| < n && w == n - |pre| - 1 && z <= w && r == |pre| + 1 + z
    requires FitsRadix(n, next) && next == pre + [d + 1] + Zeros(z)
    requires down == pre + [d] + MaxDigits(w, z) && q == Rank(n, down) + 1
    ensures Rank(n, next) == q && q < Falling(n, r)
  {
    AdvanceRank(n, pre, d, z, w, next, down);
    RankBounds(n, next);
  }

  lemma MaxTail(n: nat, r: nat, ks: seq<int>, i: nat, down: seq<int>)
    requires i < r <= n && |ks| == r
    requires forall j :: i + 1 <= j < r ==> ks[j] == n - j - 1
    requires down == ks[..i] + [ks[i]] + MaxDigits(n - i - 1, r - i - 1)
    ensures Rank(n, ks) == Rank(n, down)
  {
    forall j | 0 <= j < r ensures ks[j] == down[j] {
      if j > i {
        assert down[j] == MaxDigits(n - i - 1, r - i - 1)[j - i - 1];
      }
    }
    assert ks == down;
  }

  /** The scan found every digit at its maximum: that was the last tuple. */
  lemma ScanEnd(n: nat, r: nat, ks: seq<int>, q: nat, cycles: seq<int>, indices: seq<int>)
    requires ScanState(n, r, ks, 0, cycles, indices) && q == Rank(n, ks) + 1
    ensures q == Falling(n, r)
    ensures |cycles| == r ==> Consistent(n, r, Finished, q, cycles, indices)
  {
    assert ks == MaxDigits(n, r);
    RankMax(n, r);
  }

  /** `next(gen)` read against the whole list of emissions e: the tuple at
      the generator's count, or None once all have been yielded. */
  method Pull<T>(gen: Permutations<T>, ghost e: seq<seq<T>>) returns (t: Option<seq<T>>)
    requires gen.Valid() && e == Emissions(gen.pool, gen.r)
    modifies gen
    ensures gen.Valid() && gen.count <= |e|
    ensures old(gen.count) < |e| ==> gen.count == old(gen.count) + 1 && t == Some(e[old(gen.count)])
    ensures old(gen.count) == |e| ==> gen.count == old(gen.count) && t == None
  {
    ghost var c := gen.count;
    t := gen.Next();
    if c < |e| {
      ListingSound(gen.n, gen.r, c);
    }
  }

  lemma PrefixGrows<T>(s: seq<T>, k: nat)
    requires k < |s|
    ensures s[..k + 1] == s[..k] + [s[k]]
  {
  }

  /** `list(permutations(iterable, r))`: drains a fresh generator. */
  method Collect<T>(iterable: seq<T>, r: Option<nat>) returns (out: seq<seq<T>>)
    ensures out == Emissions(iterable, r.GetOr(|iterable|))
    ensures r.GetOr(|iterable|) > |iterable| ==> out == []
  {
    var gen := new Permutations(iterable, r);
    ghost var e := Emissions(iterable, gen.r);
    out := [];
    var t := Pull(gen, e);
    while t.Some?
      invariant gen.Valid() && gen.pool == iterable && gen.r == r.GetOr(|iterable|)
      invariant t.Some? ==> 1 <= gen.count <= |e| && out + [t.value] == e[..gen.count]
      invariant t.None? ==> gen.count == |e| && out == e[..gen.count]
      decreases |e| - gen.count + (if t.Some? then 1 else 0)
    {
      out := out + [t.value];
      ghost var c := gen.count;
      t := Pull(gen, e);
      if t.Some? {
        PrefixGrows(e, c);
      }
    }
    FallingPositiveExactly(|iterable|, gen.r);
  }

  /** The first tuple the generator body yields as written, with no check of
      r against n: `indices[:r]` of `list(range(n))`, which Python cuts short
      at n. */
  function FirstYieldAsWritten(n: nat, r: nat): (t: seq<int>)
    ensures |t| == if r <= n then r else n
  {
    Range(n)[..if r <= n then r else n]
  }

  /** For r <= n the first yield as written is the first tuple of the listing. */
  lemma FirstYieldAgrees(n: nat, r: nat)
    requires r <= n
    ensures |Listing(n, r)| > 0 && FirstYieldAsWritten(n, r) == Listing(n, r)[0]
  {
    ListingFirst(n, r);
  }

  /** For r > n the body as written misbehaves where itertools returns at
      once: its first yield is the whole index list, of length n and not r,
      although there is no r-tuple at all; with n = 0 the `while n:` loop then
      ends, so `permutations([], 1)` yields one empty tuple; with n > 0 the
      scan starts at position r - 1, past the end of `indices`, where the
      cycle count drops below zero instead of to zero, so the swap branch
      reads `indices[-j]`, which is `indices[r - n]`, and then `indices[r - 1]`,
      which lies past the end: it raises IndexError on the second read, or
      already on the first when r >= 2n. */
  lemma OverlongAsWritten(n: nat, r: nat)
    requires r > n
    ensures Listing(n, r) == []
    ensures FirstYieldAsWritten(n, r) == Range(n) && !IsArrangement(n, r, FirstYieldAsWritten(n, r))
    ensures n > 0 ==> InitialCycles(n, r)[r - 1] - 1 < 0 && r - 1 >= |Range(n)|
  {
    FallingPositiveExactly(n, r);
  }
}
