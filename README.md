# N-Queens benchmark core, modelled in Dafny

`code.py` is a MicroPython benchmark script. It holds three pieces of
integer logic, and this project models each of them and proves what they
promise.

- **The permutation generator.** `permutations(iterable, r=None)` is a
  pure-Python copy of `itertools.permutations`. It keeps an index list
  `indices` and a countdown list `cycles`. For each new tuple it scans the
  positions from right to left:
  - a position whose countdown runs out rotates the suffix of `indices`
    and resets its countdown;
  - the first position that does not run out swaps two entries of
    `indices` and yields.

  `Generator.Permutations` is a class with those two lists as fields.
  `Next()` runs the body up to its next `yield`, and the scan loop is the
  method `Generator.Scan`. The countdowns are read as a mixed-radix counter:
  digit i is `n - i - cycles[i]`, which runs from 0 to n-i-1. `indices` is a
  function of that counter (`Arrangements.Decode`), and every emission adds
  one to the counter's rank (`Arrangements.Rank`). So the q-th tuple the
  generator yields is `Arrangements.Listing(n, r)[q]`, mapped through the
  pool.

  The properties of `Listing` are proved once:
  - it holds n!/(n-r)! tuples;
  - they are in strictly increasing lexicographic order;
  - they are exactly the r-tuples of distinct indices below n;
  - its first tuple is 0..r-1;
  - the documented example `permutations(range(3), 2)` comes out as
    written.
- **The N-Queens filter.** `n_queens(queen_count)` keeps the permutations
  of `range(queen_count)` whose rising diagonals `vec[i] + i` and falling
  diagonals `vec[i] - i` are all distinct. The test compares the sizes of
  two sets. It is proved to mean "no two queens share a diagonal", and the
  solutions are proved to be exactly those permutations, in the
  generator's order.
- **The parameter choice in `bm_run`.** Each of the two tables
  `bm_params_float` and `bm_params_nqueens` is scanned for the largest key
  that fits the board, in Python's tuple order. The scan is proved to
  return:
  - that key's parameters;
  - None exactly when no key fits.

  Because the comparison is strict and a dict has distinct keys, the
  choice does not depend on the order of the table.

Files:
- `wrappers.dfy`: the Option type.
- `arrangements.dfy`: the counter, `Decode`, `Rank`/`Unrank` and
  `Listing`.
- `generator.dfy`: the generator class, its scan, and draining it into a
  list.
- `nqueens.dfy`: the filter and its solutions.
- `params.dfy`: the tables and the parameter choice.

## Model

| member | source | states |
|---|---|---|
| Arrangements.FallingIsFactorialQuotient | code.py:60-62 | the number of tuples, Falling(n, r), times (n-r)! is n!, so it is n!/(n-r)! |
| Arrangements.FallingPositiveExactly | code.py:61-82 | there is at least one r-tuple exactly when r <= n |
| Arrangements.UnrankRank | code.py:68-79 | every counter that `cycles` can encode has a rank below Falling(n, r), and Unrank gives the counter back from its rank |
| Arrangements.RankMonotone | code.py:71-79 | a lexicographically smaller counter has a smaller rank |
| Arrangements.DecodePermutes | code.py:74-78 | whatever the counter, `indices` is a rearrangement of `range(n)` |
| Arrangements.DecodeDistinct | code.py:74-78 | the entries of `indices` never repeat |
| Arrangements.Swap | code.py:78 | the swap `indices[i], indices[-j] = indices[-j], indices[i]` as a sequence update, as Scan applies it; SwapAdvances states what it does to the counter |
| Arrangements.RotateLeftAt | code.py:74 | the slice assignment `indices[i:] = indices[i + 1:] + indices[i:i + 1]` as a sequence, as Scan applies it; RotateResets states what it does to the counter |
| Arrangements.SwapAdvances | code.py:76-78 | swapping `indices[i]` with `indices[-j]`, where j is the new `cycles[i]`, is exactly raising digit i by one (zeros after it) |
| Arrangements.RotateResets | code.py:73-75 | rotating `indices[i:]` left by one when digit i is at its maximum is exactly resetting digit i to zero |
| Arrangements.AdvanceRank | code.py:71-79 | raising a digit and clearing the maximal digits after it adds exactly one to the rank |
| Arrangements.ListingFirst | code.py:67-69 | the first tuple is `indices[:r]` of `range(n)`, that is 0, 1, ..., r-1 |
| Arrangements.ListingOfEmptyTuple | code.py:69-71 | with r = 0, for any n including 0, the generator yields one empty tuple |
| Arrangements.ListingThreeTwo | code.py:62 | `permutations(range(3), 2)` is (0,1) (0,2) (1,0) (1,2) (2,0) (2,1) |
| Arrangements.ListingSound | code.py:69-79 | every yielded tuple is r distinct indices below n; when r = n it is a permutation of `range(n)` |
| Arrangements.ListingSorted | code.py:60-62 | the tuples come out in strictly increasing lexicographic order, so none repeats |
| Arrangements.ListingComplete | code.py:60-62 | every r-tuple of distinct indices below n is yielded |
| Arrangements.ListingExactly | code.py:60-62 | a tuple is yielded if and only if it is r distinct indices below n |
| Generator.Select | code.py:69 | `tuple(pool[i] for i in indices[:r])`, also at code.py:79: the pool entries at the given indices |
| Generator.Pull | code.py:61-82 | `next(gen)` read against the whole list of emissions: after q calls it returns entry q, and None once all are out |
| Generator.Emissions | code.py:61-82 | `list(permutations(pool, r))` has Falling(len(pool), r) entries |
| Generator.InitialCycles | code.py:68 | `list(range(n - r + 1, n + 1))[::-1]` has r entries and encodes the all-zero counter |
| Generator.Permutations.constructor | code.py:63-68 | `pool`, `n`, `r` (None means n), `indices = range(n)` and `cycles`; with r > n nothing will be yielded |
| Generator.Permutations.Next | code.py:61-82 | the call after q yields returns the pool entries at `Listing(n, r)[q]`, which are r distinct indices; after Falling(n, r) yields it returns None and the generator is finished |
| Generator.Permutations.Start | code.py:69 | the first resumption yields `pool[i] for i in indices[:r]` from the initial state |
| Generator.Permutations.Resume | code.py:70-82 | a later resumption: `while n:` ends at once when n = 0, otherwise one scan yields the next tuple or ends the generator |
| Generator.Scan | code.py:71-82 | the scan from the right stops at a swap with `indices[:r]` equal to the tuple of the next rank, or runs out exactly when all Falling(n, r) tuples have been yielded |
| Generator.ConsistentBounds | code.py:67-75 | between yields, `indices` is a rearrangement of `range(n)` and each `cycles[i]` lies in 1..n-i |
| Generator.CycleBounds | code.py:72-77 | while position i is scanned `cycles[i]` lies in 1..n-i, so after the decrement `indices[-j]` is in range |
| Generator.ResetStep | code.py:73-75 | a countdown that reaches zero rotates the suffix and resets to n-i, which carries into the position on its left |
| Generator.AdvanceStep | code.py:76-79 | a countdown that stays positive swaps, and the new `indices[:r]` is the tuple of the next rank |
| Generator.ScanEnd | code.py:80-82 | a scan that finds every position at its maximum happens exactly after the last tuple |
| Generator.Collect | code.py:61-82 | draining a fresh generator gives `Emissions(pool, r)`, which is empty when r > len(pool) |
| Generator.FirstYieldAsWritten | code.py:67-69 | the first tuple as written, `indices[:r]` of `range(n)`, has length r when r <= n and length n otherwise |
| Generator.FirstYieldAgrees | code.py:67-69 | for r <= n the first tuple as written is the first tuple of the listing |
| Generator.OverlongAsWritten | code.py:67-82 | for r > n the code as written yields the whole index list, of the wrong length, and with n > 0 then indexes past the end of `indices` |
| NQueens.Accepts | code.py:93 | the test `queen_count == len(set(vec[i] + i for i in cols)) == len(set(vec[i] - i for i in cols))`; the candidates have length queen_count, so `cols` runs over all their positions |
| NQueens.Solutions | code.py:92-94 | the candidates that pass the test, in candidate order (the generator body of `n_queens`, as a list) |
| NQueens.ValuesCount | code.py:93 | `len(set(w))` is at most `len(w)`, with equality exactly when the entries of w are distinct |
| NQueens.AcceptsMeans | code.py:93 | for a vector of length queen_count, the two set-size tests pass exactly when no two queens share a diagonal |
| NQueens.SolutionsMember | code.py:92-94 | a vector is kept exactly when it is a candidate and passes the test |
| NQueens.SolutionsOrdered | code.py:92-94 | the kept vectors stay in the order of the candidates |
| NQueens.EmissionsOfRange | code.py:91-92 | the generator over `range(q)` yields the index tuples themselves |
| NQueens.KeepSolutions | code.py:92-94 | the filtering loop keeps exactly the candidates that pass the test, in order |
| NQueens.NQueens | code.py:86-94 | `list(n_queens(q))` is the solutions among `Listing(q, q)` |
| NQueens.NQueensExactly | code.py:86-94 | a board is yielded if and only if it is a permutation of `range(q)` with no shared diagonal |
| NQueens.NQueensPermutations | code.py:91-94 | every yielded board is a rearrangement of `range(q)` |
| NQueens.NQueensOrdered | code.py:91-94 | the boards come out in strictly increasing lexicographic order |
| NQueens.NQueensZero | code.py:91-94 | `n_queens(0)` yields exactly the empty board |
| NQueens.SortedUnique | code.py:91-94 | two lists in strictly increasing tuple order with the same members are equal, so the solution set fixes the yielded list |
| NQueens.FourCases | code.py:93 | a 4-vector is a permutation of `range(4)` with no shared diagonal exactly when it is [1, 3, 0, 2] or [2, 0, 3, 1] |
| NQueens.QueensFour | code.py:86-94 | `list(n_queens(4))` is exactly [[1, 3, 0, 2], [2, 0, 3, 1]], so 2 solutions |
| NQueens.FiveCases | code.py:93 | a 5-vector is a permutation of `range(5)` with no shared diagonal exactly when it is one of the ten boards of FiveBoards |
| NQueens.QueensFive | code.py:86-94 | `list(n_queens(5))`, the workload `bm_run(100, 100)` runs with parameters (1, 5), is exactly the ten boards of FiveBoards in tuple order, so 10 solutions |
| Params.PickParams | code.py:145-151 | the scan returns the parameters of the largest key, in tuple order, with `10 * nm[0] <= 12 * N`, `nm[1] <= M` and `nm > (0, 0)`, and None exactly when no key has these |
| Params.BestIgnoresOrder | code.py:145-163 | over two orderings of the same distinct-key table, the largest qualifying entry is the same |
| Params.NoneIgnoresOrder | code.py:145-163 | whether some key qualifies does not depend on the order of the table |
| Params.FloatTable | code.py:51-56 | `bm_params_float` in its written order; as a dict its four keys are distinct |
| Params.NQueensTable | code.py:98-103 | `bm_params_nqueens` in its written order; as a dict its four keys are distinct |
| Params.Greater | code.py:148 | Python's `nm > cur_nm` on pairs: the first components decide, and on a tie the second |
| Params.Qualifies | code.py:148 | the condition `10 * nm[0] <= 12 * N and nm[1] <= M`, together with lying above the start `cur_nm = (0, 0)` |
| Params.ChooseParams | code.py:145-163 | "no matching params" happens exactly when one of the two tables has no qualifying key; otherwise each workload gets the parameters of its table's largest qualifying key |
| Params.DefaultRun | code.py:194 | for `bm_run(100, 100)` the float workload gets (1, 50) from key (100, 100) and the N-Queens workload gets (1, 5) from key (100, 25) |
| Params.TooSmall | code.py:145-153 | for `bm_run(40, 100)` no float key qualifies, so the run reports "no matching params" |

## Left out

- `Point`, `normalize`, `maximize` and `benchmark` (code.py:6-46) are floating-point numerics over `sin`, `cos` and `sqrt`. They are not modelled.
- The clock is not modelled: the `utime`/`time` import fallback (code.py:134-141) and the ten timed runs with their average (code.py:167-188).
- The closures of `bm_setup_float` and `bm_setup_nqueens` (code.py:105-130) only repeat a workload and format its result. The N-Queens one counts `len(list(n_queens(...)))`, which is the length of what `NQueens.NQueens` returns.
- Console output and the board constants (code.py:152, 162, 176, 188, 190-193) are not modelled. The "no matching params" print is `Params.Choice.NoMatch`.
- Generator.Permutations.Next: the generator's lists are `seq` fields replaced whole, not Python lists mutated in place. The scan takes and returns them as values. No one else holds these lists, so no aliasing is lost.
- Generator.Permutations.Next: `indices[-j]` is written `indices[n - j]`. The two agree because 1 <= j <= n - i.
- A negative `r` is not covered: the model's `r` is a natural number. `code.py` does not check the sign. With r < 0, `cycles` is empty (code.py:68), the generator yields `indices[:r]` once, which is Python's negative slice of length max(0, n + r) (code.py:69), and then stops: when n = 0 at `while n:` (code.py:70), and otherwise because the empty `for i in reversed(range(r))` runs its `else: return` (code.py:71, 81-82).
- A negative `queen_count` is not covered: `NQueens.NQueens` takes a natural number. In `code.py`, `range(queen_count)` is then empty, the one empty candidate fails `queen_count == 0`, and nothing is yielded (code.py:91-94).
- The solution counts for six queens (4) and eight queens (92) are not proved: the case analysis over all 6^6 and 8^8 vectors is beyond what the solver does within its resource limit. The counts for zero, four and five queens are proved (NQueensZero, QueensFour, QueensFive), and NQueensExactly characterises the solutions for every size.
- NQueens.NQueens: the candidates are collected into a list and then filtered. `code.py` filters them one at a time as the generator yields them. The sequence of boards is the same; the interleaving is not modelled.
- The pool entries are of any type `T`. Python's `tuple(iterable)` over a general iterable (rather than a sequence) is not modelled.

## Findings

| source | as written | input that shows it | evidently intended | confidence | as-written member | corrected member |
|---|---|---|---|---|---|---|
| code.py:67-82 | nothing checks r against n, unlike `itertools.permutations`, which returns at once when r > n | `permutations([], 1)` yields one empty tuple; `permutations([7], 2)` yields `(7,)` and then raises IndexError reading `indices[1]` | yield nothing when r > n | high, not executed | Generator.OverlongAsWritten | Generator.Collect |
