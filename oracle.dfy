/** The CDCL SAT oracle (oracle/oracle.cpp): one object keeping a clause arena with watched
    literals, the assignment and its trail, an activity heap, learned-clause metadata, a cache of
    found solutions and the restart counter, queried with `Solve` under assumptions. */
module Oracle {
  import opened OracleBase
  import opened OracleLuby
  import opened OracleHeap
  import opened OracleSort

  /** No cache column disagrees with the polarity of any assumption at line `i`: a positive
      assumption needs a non-zero entry, a negative one an entry other than 1. */
  ghost predicate LineAgrees(cache: seq<seq<int>>, i: nat, assumps: seq<nat>)
  {
    forall k :: 0 <= k < |assumps| ==> Agrees(cache, i, assumps[k])
  }

  ghost predicate Agrees(cache: seq<seq<int>>, i: nat, l: nat)
  {
    VarOf(l) < |cache| && i < |cache[VarOf(l)]| &&
    (if IsPos(l) then cache[VarOf(l)][i] != 0 else cache[VarOf(l)][i] != 1)
  }

  /** Some cached solution agrees with every assumption. */
  ghost predicate CachedSat(cache: seq<seq<int>>, assumps: seq<nat>)
  {
    |cache| > 1 && exists i :: 0 <= i < |cache[1]| && LineAgrees(cache, i, assumps)
  }

  /** The value table `lv` after a decision on `l`: `l` true and its opposite false. */
  function SetLit(lv: seq<int>, l: nat): seq<int> {
    if l < |lv| && Neg(l) < |lv| then lv[l := 1][Neg(l) := -1] else lv
  }

  /** Deciding the assumptions in order, each while it is still unassigned, reaches one that is
      already false. */
  ghost predicate Clashes(lv: seq<int>, assumps: seq<nat>)
    decreases |assumps|
  {
    && |assumps| > 0
    && (|| Value(lv, assumps[0]) == -1
        || Clashes(if Value(lv, assumps[0]) == 0 then SetLit(lv, assumps[0]) else lv, assumps[1..]))
  }

  /** `Clashes` read from the `k`-th assumption on. */
  lemma ClashStep(lv: seq<int>, assumps: seq<nat>, k: nat)
    requires k < |assumps|
    ensures Clashes(lv, assumps[k..]) <==>
              || Value(lv, assumps[k]) == -1
              || Clashes(if Value(lv, assumps[k]) == 0 then SetLit(lv, assumps[k]) else lv, assumps[k + 1..])
  {
    assert assumps[k..][1..] == assumps[k + 1..];
  }

  /** A decision on an unassigned literal keeps every true literal true. */
  lemma SetLitKeeps(lv: seq<int>, l: nat, x: nat)
    requires Value(lv, l) == 0 && Value(lv, Neg(l)) == 0 && Value(lv, x) == 1
    ensures Value(SetLit(lv, l), x) == 1
  {
  }

  /** The clauses of the arena `c` from offset `p` on, in arena order (an empty run between two
      terminators gives an empty clause). */
  function ClausesFrom(c: seq<nat>, p: nat): seq<seq<nat>>
    decreases |c| - p
  {
    if p >= |c| then [] else [ClauseAt(c, p)] + ClausesFrom(c, p + |ClauseAt(c, p)| + 1)
  }

  /** `out` lists the clauses of `cls` in the same order, each with its literals sorted by id. */
  ghost predicate SortedCopies(out: seq<seq<nat>>, cls: seq<seq<nat>>) {
    && |out| == |cls|
    && forall k :: 0 <= k < |cls| ==> SortedBy(out[k], LitKey) && multiset(out[k]) == multiset(cls[k])
  }

  /** The unit clause of every assigned variable among `1..n`, in variable order: the positive
      literal of a true variable, the negative literal of a false one. */
  function Units(lv: seq<int>, n: nat): seq<seq<nat>>
  {
    if n == 0 then []
    else Units(lv, n - 1)
         + (if Value(lv, PosLit(n)) == 1 then [[PosLit(n)]]
            else if Value(lv, PosLit(n)) == -1 then [[NegLit(n)]] else [])
  }

  /** The clause at every offset `q` that starts a run after `p` is listed by `ClausesFrom`. */
  lemma {:induction false} ClausesFromListed(c: seq<nat>, p: nat, q: nat)
    requires p <= q < |c| && (q == p || c[q - 1] == 0)
    ensures ClauseAt(c, q) in ClausesFrom(c, p)
    decreases |c| - p
  {
    var n := |ClauseAt(c, p)|;
    ClausesFromUnfold(c, p);
    if q != p {
      RunEnd(c, p, q);
      ClausesFromListed(c, p + n + 1, q);
    }
  }

  /** One step of `ClausesFrom`. */
  lemma ClausesFromUnfold(c: seq<nat>, p: nat)
    requires p < |c|
    ensures ClausesFrom(c, p) == [ClauseAt(c, p)] + ClausesFrom(c, p + |ClauseAt(c, p)| + 1)
  {
  }

  /** A terminator after `p` lies at or past the end of the clause at `p`. */
  lemma RunEnd(c: seq<nat>, p: nat, q: nat)
    requires p < q < |c| && c[q - 1] == 0
    ensures q >= p + |ClauseAt(c, p)| + 1
  {
    if q - 1 < p + |ClauseAt(c, p)| {
      ClauseAtNonZero(c, p, q - 1 - p);
      assert false;
    }
  }

  /** Every literal of the clause at `p` is nonzero in the arena. */
  lemma ClauseAtNonZero(c: seq<nat>, p: nat, k: nat)
    ensures k < |ClauseAt(c, p)| ==> p + k < |c| && c[p + k] != 0
  {
    var r := ClauseAt(c, p);
    if k < |r| {
      assert r[k] == c[p + k];
    }
  }

  /** `ClausesFrom` at a run of literals closed by a terminator at `i`. */
  lemma ClausesFromRun(c: seq<nat>, p: nat, i: nat)
    requires p <= i < |c| && c[i] == 0 && forall k :: p <= k < i ==> c[k] != 0
    ensures ClausesFrom(c, p) == [c[p..i]] + ClausesFrom(c, i + 1)
  {
    ClauseAtRun(c, p, i);
    ClausesFromUnfold(c, p);
  }

  /** Every listed unit is a single true literal of a variable among `1..n`. */
  lemma {:induction false} UnitsTrue(lv: seq<int>, vars: nat, n: nat)
    requires Consistent(lv, vars) && n <= vars
    ensures forall k :: 0 <= k < |Units(lv, n)| ==>
              |Units(lv, n)[k]| == 1 && 1 <= VarOf(Units(lv, n)[k][0]) <= n && Value(lv, Units(lv, n)[k][0]) == 1
  {
    if n > 0 {
      UnitsTrue(lv, vars, n - 1);
    }
  }

  /** Every assigned variable among `1..n` has its true literal listed as a unit. */
  lemma {:induction false} UnitsComplete(lv: seq<int>, n: nat, v: nat)
    requires 1 <= v <= n && (Value(lv, PosLit(v)) == 1 || Value(lv, PosLit(v)) == -1)
    ensures [MkLit(v, Value(lv, PosLit(v)))] in Units(lv, n)
  {
    if v < n {
      UnitsComplete(lv, n - 1, v);
    } else {
      var u := [MkLit(v, Value(lv, PosLit(v)))];
      assert Units(lv, n) == Units(lv, n - 1) + [u];
      assert Units(lv, n)[|Units(lv, n)| - 1] == u;
    }
  }

  /** No terminator among `c[a..b]`. */
  ghost predicate NoZeros(c: seq<nat>, a: nat, b: nat)
    requires a <= b <= |c|
  {
    forall k :: a <= k < b ==> c[k] != 0
  }

  /** The walk of `SplitSorted` at `i`: `cur` is the open run from `start`, `done` the clauses
      completed so far, and `ret` their sorted copies. */
  ghost predicate SplitAt(c: seq<nat>, p: nat, start: nat, i: nat, cur: seq<nat>,
                          done: seq<seq<nat>>, ret: seq<seq<nat>>)
  {
    && p <= start <= i <= |c|
    && cur == c[start..i] && NoZeros(c, start, i)
    && done + ClausesFrom(c, start) == ClausesFrom(c, p)
    && SortedCopies(ret, done)
  }

  /** One completed clause of the arena walk: the run `c[p..i]` moves from what is left to
      what is done. */
  lemma RegionStep(c: seq<nat>, p: nat, i: nat, orig: nat, done: seq<seq<nat>>)
    requires p <= i < |c| && c[i] == 0 && forall k :: p <= k < i ==> c[k] != 0
    requires done + ClausesFrom(c, p) == ClausesFrom(c, orig)
    ensures (done + [c[p..i]]) + ClausesFrom(c, i + 1) == ClausesFrom(c, orig)
  {
    ClausesFromRun(c, p, i);
    assert (done + [c[p..i]]) + ClausesFrom(c, i + 1) == done + ([c[p..i]] + ClausesFrom(c, i + 1));
  }

  /** Sorting one more clause keeps `SortedCopies`. */
  lemma SortedCopiesAppend(out: seq<seq<nat>>, cls: seq<seq<nat>>, x: seq<nat>)
    requires SortedCopies(out, cls)
    ensures SortedCopies(out + [Sort(x, LitKey)], cls + [x])
  {
    var out', cls' := out + [Sort(x, LitKey)], cls + [x];
    forall k | 0 <= k < |cls'|
      ensures SortedBy(out'[k], LitKey) && multiset(out'[k]) == multiset(cls'[k])
    {
      if k < |cls| {
        assert out'[k] == out[k] && cls'[k] == cls[k];
      }
    }
  }

  /** The walk starts with nothing done and nothing open. */
  lemma SplitStart(c: seq<nat>, p: nat)
    requires p <= |c|
    ensures SplitAt(c, p, p, p, [], [], [])
  {
    assert c[p..p] == [];
  }

  /** A literal extends the open run. */
  lemma SplitExtend(c: seq<nat>, p: nat, start: nat, i: nat, cur: seq<nat>,
                    done: seq<seq<nat>>, ret: seq<seq<nat>>)
    requires SplitAt(c, p, start, i, cur, done, ret) && i < |c| && c[i] != 0
    ensures SplitAt(c, p, start, i + 1, cur + [c[i]], done, ret)
  {
    assert c[start..i + 1] == cur + [c[i]];
  }

  /** A terminator closes the open run, which joins the completed clauses. */
  lemma SplitClose(c: seq<nat>, p: nat, start: nat, i: nat, cur: seq<nat>,
                   done: seq<seq<nat>>, ret: seq<seq<nat>>)
    requires SplitAt(c, p, start, i, cur, done, ret) && i < |c| && c[i] == 0
    ensures SplitAt(c, p, i + 1, i + 1, [], done + [cur], ret + [Sort(cur, LitKey)])
  {
    RegionStep(c, start, i, p, done);
    SortedCopiesAppend(ret, done, cur);
  }

  /** At the end of an arena that closes with a terminator, nothing is left open. */
  lemma SplitEnd(c: seq<nat>, p: nat, start: nat, cur: seq<nat>,
                 done: seq<seq<nat>>, ret: seq<seq<nat>>)
    requires SplitAt(c, p, start, |c|, cur, done, ret) && (p < |c| ==> c[|c| - 1] == 0)
    ensures SortedCopies(ret, ClausesFrom(c, p))
  {
    assert start == |c|;
    assert done == ClausesFrom(c, p);
  }

  /** One position of the walk of `SplitSorted`: a terminator closes and sorts the open run,
      a literal extends it. */
  method SplitStep(c: seq<nat>, p: nat, ghost start: nat, i: nat, cur: seq<nat>,
                   ghost done: seq<seq<nat>>, ret: seq<seq<nat>>)
    returns (ghost start': nat, cur': seq<nat>, ghost done': seq<seq<nat>>, ret': seq<seq<nat>>)
    requires SplitAt(c, p, start, i, cur, done, ret) && i < |c|
    ensures SplitAt(c, p, start', i + 1, cur', done', ret')
  {
    if c[i] == 0 {
      SplitClose(c, p, start, i, cur, done, ret);
      start', cur', done', ret' := i + 1, [], done + [cur], ret + [Sort(cur, LitKey)];
    } else {
      SplitExtend(c, p, start, i, cur, done, ret);
      start', cur', done', ret' := start, cur + [c[i]], done, ret;
    }
  }

  /** The arena `c` from offset `p` on, cut at its terminators, each clause sorted as it is
      completed. */
  method SplitSorted(c: seq<nat>, p: nat) returns (ret: seq<seq<nat>>)
    requires p <= |c| && (p < |c| ==> c[|c| - 1] == 0)
    ensures SortedCopies(ret, ClausesFrom(c, p))
  {
    ret := [];
    ghost var done: seq<seq<nat>> := [];
    var cur: seq<nat> := [];
    ghost var start: nat := p;
    var i: nat := p;
    SplitStart(c, p);
    while i < |c|
      invariant SplitAt(c, p, start, i, cur, done, ret)
      decreases |c| - i
    {
      start, cur, done, ret := SplitStep(c, p, start, i, cur, done, ret);
      i := i + 1;
    }
    SplitEnd(c, p, start, cur, done, ret);
  }

  /** A run of literals closed by a terminator at `i` is the clause at its start. */
  lemma {:induction false} ClauseAtRun(c: seq<nat>, p: nat, i: nat)
    requires p <= i < |c| && c[i] == 0 && forall k :: p <= k < i ==> c[k] != 0
    ensures ClauseAt(c, p) == c[p..i]
    decreases i - p
  {
    if p < i {
      ClauseAtRun(c, p + 1, i);
      ClauseAtStep(c, p);
      assert c[p..i] == [c[p]] + c[p + 1..i];
    }
  }

  /** The size loop of the constructor: the smallest power of two above `vars`. */
  method HeapSize(vars: nat) returns (n: nat)
    ensures Pow2(n) && n > vars && (n == 1 || n / 2 <= vars)
  {
    n := 1;
    while n <= vars
      invariant n >= 1 && Pow2(n) && (n == 1 || n / 2 <= vars)
    {
      n := n * 2;
    }
  }

  /** The activity tree of a new oracle over `2n` slots: the leaf of each variable `v` holds
      `inc` times its draw `acts[v]`, every other leaf 0, and every internal node is then set to
      the larger of its children, from the last one up to the root. */
  method BuildHeap(vars: nat, n: nat, inc: int, acts: seq<int>) returns (h: seq<int>)
    requires n > vars && inc > 0 && |acts| == vars + 1 && forall v :: 1 <= v <= vars ==> acts[v] > 0
    ensures HeapOk(h, n)
    ensures forall v :: 1 <= v <= vars ==> h[n + v] == inc * acts[v]
    ensures forall j :: n < j <= n + vars ==> h[j] > 0
    ensures forall j :: n <= j < 2 * n && !ValidVar(j - n, vars) ==> h[j] == 0
  {
    h := seq(2 * n, _ => 0);
    var v := 1;
    while v <= vars
      invariant 1 <= v <= vars + 1 && |h| == 2 * n
      invariant forall j :: 0 <= j < 2 * n ==> h[j] == (if n < j < n + v then inc * acts[j - n] else 0)
      invariant forall j :: n < j < n + v ==> h[j] > 0
    {
      MulPos(inc, acts[v]);
      h := h[n + v := inc * acts[v]];
      v := v + 1;
    }
    var i := n - 1;
    while i >= 1
      invariant 0 <= i < n && BuiltAbove(h, n, i)
      invariant forall j :: n <= j < 2 * n ==> h[j] == (if n < j <= n + vars then inc * acts[j - n] else 0)
      invariant forall j :: n < j <= n + vars ==> h[j] > 0
    {
      BuildStep(h, n, i);
      h := h[i := Max(h[2 * i], h[2 * i + 1])];
      i := i - 1;
    }
  }

  /** The arena of a new oracle: one terminator, no watch, no reason, no learned clause. */
  lemma InitArena(vars: nat, c: seq<nat>, w: seq<seq<Watch>>, vss: seq<VarState>)
    requires c == [0] && (forall l :: 0 <= l < |w| ==> w[l] == []) && forall v :: 0 <= v < |vss| ==> vss[v].reason == 0
    ensures WatchesIn(c, vars, w) && ReasonsIn(c, vss) && InfoIn(c, 1, [])
  {
    forall p | 1 <= p && HeadIn(c, p)
      ensures false
    {
    }
  }

  /** Positive leaves for all variables cover every variable, whatever the assignment. */
  lemma LeavesCover(vars: nat, n: nat, h: seq<int>, lv: seq<int>)
    requires |h| == 2 * n && n > vars && forall j :: n < j <= n + vars ==> h[j] > 0
    ensures Covers(vars, n, h, lv)
  {
    forall v | ValidVar(v, vars)
      ensures LeafOf(h, n, v) > 0
    {
      assert h[n + v] > 0;
    }
  }

  lemma MulPos(a: int, b: int)
    requires a > 0 && b > 0
    ensures a * b > 0
  {
  }

  /** The leaf of variable `v` in a tree whose leaves start at `n`. */
  function LeafOf(h: seq<int>, n: nat, v: nat): int {
    if n + v < |h| then h[n + v] else 0
  }

  function Abs(x: int): int { if x > 0 then x else -x }

  /** The state (`d`, `lv`, `vss`, `h`) after popping the trail `d0` of the state (`lv0`, `vs0`,
      `h0`): every popped variable had a level of at least `level` and is now unassigned with no
      reason or level and with an active leaf; every other variable is as it was. */
  ghost predicate UndoneFrom(vars: nat, n: nat, d: seq<nat>, lv: seq<int>, vss: seq<VarState>, h: seq<int>,
                             d0: seq<nat>, lv0: seq<int>, vs0: seq<VarState>, h0: seq<int>, level: int)
  {
    && |d| <= |d0| && d == d0[..|d|]
    && |lv0| == |lv| == 2 * vars + 2 && |vs0| == |vss| == vars + 1
    && forall v: nat :: ValidVar(v, vars) ==>
         if v in d0[|d|..] then
           && vs0[v].level >= level && lv[PosLit(v)] == 0 && lv[NegLit(v)] == 0
           && vss[v] == vs0[v].(reason := 0, level := 0) && LeafOf(h, n, v) == Abs(LeafOf(h0, n, v))
         else
           && lv[PosLit(v)] == lv0[PosLit(v)] && lv[NegLit(v)] == lv0[NegLit(v)]
           && vss[v] == vs0[v] && LeafOf(h, n, v) == LeafOf(h0, n, v)
  }

  /** The heap knows every free variable: each variable's leaf is non-zero, and positive
      (active) while the variable is unassigned. */
  ghost predicate Covers(vars: nat, n: nat, h: seq<int>, lv: seq<int>) {
    CoversExcept(vars, n, h, lv, 0)
  }

  /** `Covers`, except that the variable `x` may be free with an inactive leaf. */
  ghost predicate CoversExcept(vars: nat, n: nat, h: seq<int>, lv: seq<int>, x: nat) {
    forall v :: ValidVar(v, vars) ==>
      LeafOf(h, n, v) != 0 && (v != x && Value(lv, PosLit(v)) == 0 ==> LeafOf(h, n, v) > 0)
  }

  /** Popping the variable `r` from the heap: its leaf is negated. `Covers` then holds except
      for `r`, and fully when `r` is assigned. */
  lemma CoversPop(vars: nat, n: nat, h0: seq<int>, h: seq<int>, lv: seq<int>, r: nat)
    requires Covers(vars, n, h0, lv) && ValidVar(r, vars) && LeafOf(h, n, r) == -LeafOf(h0, n, r)
    requires forall u :: u != r ==> LeafOf(h, n, u) == LeafOf(h0, n, u)
    ensures CoversExcept(vars, n, h, lv, r)
    ensures Value(lv, PosLit(r)) != 0 ==> Covers(vars, n, h, lv)
  {
  }

  /** Deciding the excepted variable restores `Covers`. */
  lemma CoversDecided(vars: nat, n: nat, h: seq<int>, lv: seq<int>, l: nat)
    requires CoversExcept(vars, n, h, lv, VarOf(l)) && ValidLit(l, vars) && |lv| == 2 * vars + 2
    ensures Covers(vars, n, h, lv[l := 1][Neg(l) := -1])
  {
    var lv' := lv[l := 1][Neg(l) := -1];
    LitVarPair(l, vars);
    forall v | ValidVar(v, vars) && Value(lv', PosLit(v)) == 0
      ensures LeafOf(h, n, v) > 0
    {
      assert PosLit(v) != l && PosLit(v) != Neg(l);
      assert Value(lv, PosLit(v)) == 0;
    }
  }

  /** With `Covers`, no active leaf means that every variable is assigned. */
  lemma CoversAllAssigned(vars: nat, n: nat, h: seq<int>, lv: seq<int>)
    requires Covers(vars, n, h, lv) && forall v :: ValidVar(v, vars) ==> LeafOf(h, n, v) <= 0
    ensures forall v :: ValidVar(v, vars) ==> Value(lv, PosLit(v)) != 0
  {
  }

  /** What remains of the budget `b` of memory accesses at count `m`, 0 once it is exceeded. */
  function Budget(b: int, m: int): nat {
    if m > b then 0 else b - m + 1
  }

  /** The measure of the `HardSolve` loop: twice the budget left, plus one while nothing waits
      to be propagated. */
  function RoundMeasure(b: int, m: int, idle: bool): nat {
    2 * Budget(b, m) + if idle then 1 else 0
  }

  /** A round that propagates (spending at least one access unless the queue was empty), stays
      within the budget, and then either spends more or leaves work queued, lowers the measure. */
  lemma RoundDecreases(b: int, m0: int, m1: int, m2: int, idle0: bool, idle2: bool)
    requires m0 <= m1 <= b && (!idle0 ==> m1 > m0) && m2 >= m1 && (idle2 ==> m2 > m1)
    ensures RoundMeasure(b, m2, idle2) < RoundMeasure(b, m0, idle0)
  {
  }

  /** The variables with an active leaf. */
  ghost function Active(vars: nat, n: nat, h: seq<int>): set<nat> {
    set v: nat | 1 <= v <= vars && LeafOf(h, n, v) > 0
  }

  /** Popping an active variable makes the active set smaller. */
  lemma ActiveShrinks(vars: nat, n: nat, h0: seq<int>, h: seq<int>, r: nat)
    requires ValidVar(r, vars) && LeafOf(h0, n, r) > 0 && LeafOf(h, n, r) == -LeafOf(h0, n, r)
    requires forall u :: u != r ==> LeafOf(h, n, u) == LeafOf(h0, n, u)
    ensures |Active(vars, n, h)| < |Active(vars, n, h0)|
  {
    assert Active(vars, n, h) == Active(vars, n, h0) - {r};
  }

  /** No leaf of a variable changes sign from `h0` to `h`. */
  ghost predicate SignsKept(vars: nat, n: nat, h0: seq<int>, h: seq<int>) {
    forall v :: ValidVar(v, vars) ==>
      && (LeafOf(h0, n, v) > 0 ==> LeafOf(h, n, v) > 0)
      && (LeafOf(h0, n, v) < 0 ==> LeafOf(h, n, v) < 0)
  }

  lemma SignsTrans(vars: nat, n: nat, h0: seq<int>, h1: seq<int>, h: seq<int>)
    requires SignsKept(vars, n, h0, h1) && SignsKept(vars, n, h1, h)
    ensures SignsKept(vars, n, h0, h)
  {
  }

  /** Leaves keeping their signs keep `Covers`. */
  lemma CoversSigns(vars: nat, n: nat, h0: seq<int>, h: seq<int>, lv: seq<int>)
    requires Covers(vars, n, h0, lv) && SignsKept(vars, n, h0, h)
    ensures Covers(vars, n, h, lv)
  {
  }

  /** Assigning keeps `Covers`: a literal that is now unassigned was unassigned before. */
  lemma CoversAssigned(vars: nat, n: nat, h: seq<int>, lv0: seq<int>, lv: seq<int>)
    requires Covers(vars, n, h, lv0) && |lv0| == 2 * vars + 2 && KeepsAssigned(lv0, lv)
    ensures Covers(vars, n, h, lv)
  {
    forall v | ValidVar(v, vars) && Value(lv, PosLit(v)) == 0
      ensures LeafOf(h, n, v) > 0
    {
      assert Value(lv0, PosLit(v)) == 0;
    }
  }

  /** Making `l` true and its opposite false keeps `Covers`. */
  lemma CoversSetTrue(vars: nat, n: nat, h: seq<int>, lv: seq<int>, l: nat)
    requires Covers(vars, n, h, lv) && ValidLit(l, vars) && |lv| == 2 * vars + 2
    ensures Covers(vars, n, h, lv[l := 1][Neg(l) := -1])
  {
    var lv' := lv[l := 1][Neg(l) := -1];
    forall v | ValidVar(v, vars) && Value(lv', PosLit(v)) == 0
      ensures LeafOf(h, n, v) > 0
    {
      assert PosLit(v) != l && PosLit(v) != Neg(l);
      assert Value(lv, PosLit(v)) == 0;
    }
  }

  /** Backtracking keeps `Covers`: a popped variable's leaf is made active again. */
  lemma CoversUndone(vars: nat, n: nat, d: seq<nat>, lv: seq<int>, vss: seq<VarState>, h: seq<int>,
                     d0: seq<nat>, lv0: seq<int>, vs0: seq<VarState>, h0: seq<int>, level: int)
    requires UndoneFrom(vars, n, d, lv, vss, h, d0, lv0, vs0, h0, level) && Covers(vars, n, h0, lv0)
    ensures Covers(vars, n, h, lv)
  {
    forall v | ValidVar(v, vars)
      ensures LeafOf(h, n, v) != 0 && (Value(lv, PosLit(v)) == 0 ==> LeafOf(h, n, v) > 0)
    {
      if v in d0[|d|..] {
      } else {
        assert Value(lv, PosLit(v)) == Value(lv0, PosLit(v));
      }
    }
  }

  /** Popping one more variable whose level is at least `level` keeps `UndoneFrom`. */
  lemma UndoneStep(vars: nat, n: nat, d: seq<nat>, lv: seq<int>, vss: seq<VarState>, h: seq<int>, h': seq<int>,
                   d0: seq<nat>, lv0: seq<int>, vs0: seq<VarState>, h0: seq<int>, level: int)
    requires UndoneFrom(vars, n, d, lv, vss, h, d0, lv0, vs0, h0, level)
    requires |d| > 0 && ValidVar(d[|d| - 1], vars) && vss[d[|d| - 1]].level >= level
    requires LeafOf(h', n, d[|d| - 1]) == Abs(LeafOf(h, n, d[|d| - 1]))
    requires forall u :: u != d[|d| - 1] ==> LeafOf(h', n, u) == LeafOf(h, n, u)
    ensures var v := d[|d| - 1];
            UndoneFrom(vars, n, d[..|d| - 1], lv[PosLit(v) := 0][NegLit(v) := 0],
                       vss[v := vss[v].(reason := 0, level := 0)], h', d0, lv0, vs0, h0, level)
  {
    var v := d[|d| - 1];
    assert d0[|d| - 1..] == [v] + d0[|d|..];
    var lv' := lv[PosLit(v) := 0][NegLit(v) := 0];
    var vss' := vss[v := vss[v].(reason := 0, level := 0)];
    forall u: nat | ValidVar(u, vars)
      ensures if u in d0[|d| - 1..] then
           && vs0[u].level >= level && lv'[PosLit(u)] == 0 && lv'[NegLit(u)] == 0
           && vss'[u] == vs0[u].(reason := 0, level := 0) && LeafOf(h', n, u) == Abs(LeafOf(h0, n, u))
         else
           && lv'[PosLit(u)] == lv0[PosLit(u)] && lv'[NegLit(u)] == lv0[NegLit(u)]
           && vss'[u] == vs0[u] && LeafOf(h', n, u) == LeafOf(h0, n, u)
    {
      if u != v {
        assert PosLit(u) != PosLit(v) && PosLit(u) != NegLit(v) && NegLit(u) != PosLit(v) && NegLit(u) != NegLit(v);
      }
    }
  }

  // ---------------------------------------------------------------------------------------------
  // Watch lists over the arena

  /** `p` is the offset of a clause of at least two literals: a terminator precedes it. */
  ghost predicate StartIn(c: seq<nat>, p: nat) {
    HeadIn(c, p) && p + 1 < |c| && c[p + 1] != 0
  }

  /** `p` is the offset of a clause: a literal right after a terminator. */
  ghost predicate HeadIn(c: seq<nat>, p: nat) {
    1 <= p < |c| && c[p - 1] == 0 && c[p] != 0
  }

  /** The slots `p` and `p + 1` hold `a` and `b`, in either order. */
  ghost predicate PairAt(c: seq<nat>, p: nat, a: nat, b: nat) {
    p + 1 < |c| && ((c[p] == a && c[p + 1] == b) || (c[p] == b && c[p + 1] == a))
  }

  /** `p` is the offset of a clause of exactly two literals. */
  ghost predicate BinAt(c: seq<nat>, p: nat) {
    StartIn(c, p) && p + 2 < |c| && c[p + 2] == 0
  }

  /** A watch record in the list of `l` names a literal and a clause of at least two literals,
      and its size says whether that clause is binary; the record of a binary clause names
      exactly its two literals, `l` and the blocker. */
  ghost predicate WatchIn(c: seq<nat>, vars: nat, l: nat, w: Watch) {
    && ValidLit(w.blit, vars) && StartIn(c, w.cls) && w.cls + 2 < |c|
    && (w.size == 2 <==> c[w.cls + 2] == 0)
    && (w.size == 2 ==> PairAt(c, w.cls, l, w.blit))
  }

  ghost predicate ListIn(c: seq<nat>, vars: nat, l: nat, ws: seq<Watch>) {
    forall k :: 0 <= k < |ws| ==> WatchIn(c, vars, l, ws[k])
  }

  lemma ListInAppend(c: seq<nat>, vars: nat, l: nat, a: seq<Watch>, b: seq<Watch>)
    requires ListIn(c, vars, l, a) && ListIn(c, vars, l, b)
    ensures ListIn(c, vars, l, a + b)
  {
    forall k | 0 <= k < |a + b|
      ensures WatchIn(c, vars, l, (a + b)[k])
    {
      if k < |a| { assert WatchIn(c, vars, l, a[k]); } else { assert WatchIn(c, vars, l, b[k - |a|]); }
    }
  }

  lemma ListInSplit(c: seq<nat>, vars: nat, l: nat, a: seq<Watch>)
    requires ListIn(c, vars, l, a) && |a| > 0
    ensures WatchIn(c, vars, l, a[0]) && ListIn(c, vars, l, a[1..])
  {
    forall k | 0 <= k < |a| - 1
      ensures WatchIn(c, vars, l, a[1..][k])
    {
      assert a[1..][k] == a[k + 1];
    }
  }

  ghost predicate WatchesIn(c: seq<nat>, vars: nat, w: seq<seq<Watch>>) {
    forall l :: 0 <= l < |w| ==> ListIn(c, vars, l, w[l])
  }

  /** The offsets of the clauses that `ci` describes. */
  function Pts(ci: seq<CInfo>): set<nat> {
    set k | 0 <= k < |ci| :: ci[k].pt
  }

  /** `ci` describes clauses of the arena `c` after its original region `..orig`, by strictly
      increasing offset, every clause there is described, and glues are -1 or more. */
  ghost predicate InfoIn(c: seq<nat>, orig: nat, ci: seq<CInfo>) {
    && (forall k :: 0 <= k < |ci| ==> StartIn(c, ci[k].pt) && ci[k].pt >= orig && ci[k].glue >= -1)
    && (forall k, k' :: 0 <= k < k' < |ci| ==> ci[k].pt < ci[k'].pt)
    && (forall p :: orig <= p && HeadIn(c, p) ==> p in Pts(ci))
  }

  /** A registered learned clause lies past the original region and inside the arena. */
  lemma InfoFirst(c: seq<nat>, orig: nat, ci: seq<CInfo>)
    requires InfoIn(c, orig, ci)
    ensures |ci| > 0 ==> orig <= ci[0].pt && ci[0].pt + 1 < |c|
  {
  }

  /** `c'` keeps every clause of `c` where it was: the same shape, or `c` extended at the end. */
  ghost predicate Keeps(c: seq<nat>, c': seq<nat>) {
    SameShape(c, c') || c <= c'
  }

  lemma ShapeKeepsStart(c: seq<nat>, c': seq<nat>, p: nat)
    requires Keeps(c, c') && StartIn(c, p)
    ensures StartIn(c', p)
  {
  }

  lemma ShapeKeepsInfo(c: seq<nat>, c': seq<nat>, orig: nat, ci: seq<CInfo>)
    requires SameShape(c, c') && InfoIn(c, orig, ci)
    ensures InfoIn(c', orig, ci)
  {
    forall k | 0 <= k < |ci|
      ensures StartIn(c', ci[k].pt)
    {
      ShapeKeepsStart(c, c', ci[k].pt);
    }
  }

  /** Two arenas of the same length with terminators at the same places and the same two
      literals in every binary clause: the literals of a longer clause may have been permuted or
      replaced, but no clause has moved, grown or shrunk. */
  ghost predicate SameShape(c: seq<nat>, c': seq<nat>) {
    && |c| == |c'| && (forall k :: 0 <= k < |c| ==> (c[k] == 0 <==> c'[k] == 0))
    && forall p: nat :: BinAt(c, p) ==> PairAt(c', p, c[p], c[p + 1])
  }

  lemma SameShapeTrans(c: seq<nat>, c': seq<nat>, c'': seq<nat>)
    requires SameShape(c, c') && SameShape(c', c'')
    ensures SameShape(c, c'')
  {
    forall p: nat | BinAt(c, p)
      ensures PairAt(c'', p, c[p], c[p + 1])
    {
      assert BinAt(c', p);
    }
  }

  /** A slot of the clause at `p`: every slot from `p` to `a` holds a literal. */
  ghost predicate Inside(c: seq<nat>, p: nat, a: nat) {
    p <= a < |c| && forall k :: p <= k <= a ==> c[k] != 0
  }

  /** A slot of one clause is no slot of a different binary clause. */
  lemma BinApart(c: seq<nat>, p: nat, a: nat, q: nat)
    requires HeadIn(c, p) && Inside(c, p, a) && BinAt(c, q) && q != p
    ensures a != q && a != q + 1
  {
  }

  /** Writing literals into two slots of the clause at `p` keeps the shape of the arena when the
      clause is longer than two, or when the write swaps the two literals of a binary clause. */
  lemma WriteKeepsShape(c: seq<nat>, p: nat, a: nat, x: nat, b: nat, y: nat)
    requires HeadIn(c, p) && Inside(c, p, a) && Inside(c, p, b) && x != 0 && y != 0
    requires BinAt(c, p) ==> a != b && x == c[b] && y == c[a]
    ensures SameShape(c, c[a := x][b := y])
  {
    var c' := c[a := x][b := y];
    forall q: nat | BinAt(c, q)
      ensures PairAt(c', q, c[q], c[q + 1])
    {
      if q != p {
        BinApart(c, p, a, q);
        BinApart(c, p, b, q);
      } else {
        assert a <= p + 1 && b <= p + 1;
      }
    }
  }

  lemma ShapeKeepsList(c: seq<nat>, c': seq<nat>, vars: nat, l: nat, ws: seq<Watch>)
    requires Keeps(c, c') && ListIn(c, vars, l, ws)
    ensures ListIn(c', vars, l, ws)
  {
    forall k | 0 <= k < |ws|
      ensures WatchIn(c', vars, l, ws[k])
    {
      var w := ws[k];
      assert WatchIn(c, vars, l, w);
      ShapeKeepsStart(c, c', w.cls);
      if SameShape(c, c') && w.size == 2 {
        assert BinAt(c, w.cls);
      }
    }
  }

  lemma ShapeKeepsWatches(c: seq<nat>, c': seq<nat>, vars: nat, w: seq<seq<Watch>>)
    requires Keeps(c, c') && WatchesIn(c, vars, w)
    ensures WatchesIn(c', vars, w)
  {
    forall l | 0 <= l < |w|
      ensures ListIn(c', vars, l, w[l])
    {
      ShapeKeepsList(c, c', vars, l, w[l]);
    }
  }

  /** The number of watch records over all lists. */
  function Total(w: seq<seq<Watch>>): nat {
    if w == [] then 0 else Total(w[..|w| - 1]) + |w[|w| - 1]|
  }

  lemma {:induction false} TotalUpdate(w: seq<seq<Watch>>, l: nat, x: seq<Watch>)
    requires l < |w|
    ensures Total(w[l := x]) == Total(w) - |w[l]| + |x|
    decreases |w|
  {
    var w' := w[l := x];
    if l < |w| - 1 {
      assert w'[..|w'| - 1] == w[..|w| - 1][l := x];
      TotalUpdate(w[..|w| - 1], l, x);
    } else {
      assert w'[..|w'| - 1] == w[..|w| - 1];
    }
  }

  /** The number of variables among `1..v` whose literals are unassigned. */
  function CountUnassigned(lv: seq<int>, v: nat): nat
    requires |lv| >= 2 * v + 2
  {
    if v == 0 then 0 else CountUnassigned(lv, v - 1) + (if lv[PosLit(v)] == 0 then 1 else 0)
  }

  /** Both literals of every variable up to `vars` carry opposite values. */
  ghost predicate Consistent(lv: seq<int>, vars: nat) {
    |lv| == 2 * vars + 2 && forall v :: 1 <= v <= vars ==> lv[NegLit(v)] == -lv[PosLit(v)]
  }

  /** Assigning an unassigned literal lowers the count of unassigned variables by one. */
  lemma {:induction false} AssignCounts(lv: seq<int>, vars: nat, v: nat, dec: nat)
    requires Consistent(lv, vars) && ValidLit(dec, vars) && lv[dec] == 0 && v <= vars
    ensures VarOf(dec) <= v ==> CountUnassigned(lv[dec := 1][Neg(dec) := -1], v) == CountUnassigned(lv, v) - 1
    ensures VarOf(dec) > v ==> CountUnassigned(lv[dec := 1][Neg(dec) := -1], v) == CountUnassigned(lv, v)
    decreases v
  {
    LitVarPair(dec, vars);
    if v > 0 {
      AssignCounts(lv, vars, v - 1, dec);
      if VarOf(dec) == v {
        assert lv[PosLit(v)] == 0;
      }
    }
  }

  /** Values only ever change from unassigned. */
  ghost predicate KeepsAssigned(lv0: seq<int>, lv: seq<int>) {
    |lv| == |lv0| && forall l :: 0 <= l < |lv0| && lv0[l] != 0 ==> lv[l] == lv0[l]
  }

  /** The literals of `cl` other than `tp`, in order. */
  function Others(cl: seq<nat>, tp: nat): (r: seq<nat>)
    ensures tp !in r && forall x :: x in r ==> x in cl
    ensures forall x :: x in cl && x != tp ==> x in r
    ensures |r| + multiset(cl)[tp] == |cl|
  {
    if cl == [] then []
    else
      assert cl == cl[..|cl| - 1] + [cl[|cl| - 1]];
      Others(cl[..|cl| - 1], tp) + (if cl[|cl| - 1] == tp then [] else [cl[|cl| - 1]])
  }

  lemma OthersSnoc(cl: seq<nat>, tp: nat, k: nat)
    requires k < |cl|
    ensures Others(cl[..k + 1], tp) == Others(cl[..k], tp) + if cl[k] == tp then [] else [cl[k]]
  {
    assert cl[..k + 1][..k] == cl[..k];
  }

  /** The outcome of a strengthening probe: the probed literal can be dropped, is implied by
      the negation of the others, or is needed. */
  datatype Probe = Dropped | Implied | Needed

  /** What an outcome means, given the conflict the probe's propagation found (0 for none) and
      the value `v` the probed literal then had: a conflict or a false literal lets it be
      dropped, a true one is implied, an unassigned one is needed. */
  predicate Outcome(res: Probe, confl: nat, v: int) {
    && (res.Dropped? <==> confl != 0 || v == -1)
    && (res.Implied? <==> confl == 0 && v == 1)
    && (res.Needed? <==> confl == 0 && v != 1 && v != -1)
  }

  /** What one call of `AddClauseIfNeededAndStr` for a learned input did: its result `r`, the
      clause `added` it placed, the arena and values before, and the unsat flag, values and arena
      after. */
  datatype Strengthened = Strengthened(r: bool, added: seq<nat>, before: seq<nat>, lvBefore: seq<int>,
                                       unsat: bool, lv: seq<int>, arena: seq<nat>)

  /** `cl`, added to an arena of length `n`, is in force in the state (`u`, `lv`, `c`): the
      oracle is unsatisfiable, a literal of `cl` is true, or `cl` is the last clause, at `n`. */
  ghost predicate InForceIn(u: bool, lv: seq<int>, c: seq<nat>, n: nat, cl: seq<nat>) {
    || u
    || (exists k :: 0 <= k < |cl| && Value(lv, cl[k]) == 1)
    || (|c| == n + |cl| + 1 && ClauseAt(c, n) == cl)
  }

  /** A true result placed a clause made of the open literals of `cl` (each at most as often as
      in `cl`) and in force afterwards; a false result appended nothing. */
  ghost predicate StrengthenedOk(cl: seq<nat>, s: Strengthened) {
    && (s.r ==> && FilterFrom(s.lvBefore, cl, 0).Remaining?
                && multiset(s.added) <= multiset(FilterFrom(s.lvBefore, cl, 0).lits)
                && multiset(s.added) <= multiset(cl)
                && InForceIn(s.unsat, s.lv, s.arena, |s.before|, s.added))
    && (!s.r ==> SameShape(s.before, s.arena))
  }

  /** The calls follow each other: each starts from the state the previous one left, the first
      from (`c0`, `lv0`), and the last leaves (`c`, `lv`). */
  ghost predicate Chained(log: seq<Strengthened>, c0: seq<nat>, lv0: seq<int>, c: seq<nat>, lv: seq<int>) {
    && (log == [] ==> c == c0 && lv == lv0)
    && (log != [] ==> log[0].before == c0 && log[0].lvBefore == lv0 && log[|log| - 1].arena == c && log[|log| - 1].lv == lv)
    && forall i :: 0 < i < |log| ==> log[i].before == log[i - 1].arena && log[i].lvBefore == log[i - 1].lv
  }

  /** The log of the first `|log|` learned clauses, from (`c0`, `lv0`) to the state (`u`, `c`, `lv`):
      chained, each entry as `StrengthenedOk` says, and any entry that saw the oracle
      unsatisfiable followed by an unsatisfiable state. */
  ghost predicate Logged(learned: seq<seq<nat>>, log: seq<Strengthened>, c0: seq<nat>, lv0: seq<int>,
                         u: bool, c: seq<nat>, lv: seq<int>) {
    && |log| <= |learned| && Chained(log, c0, lv0, c, lv)
    && (forall k :: 0 <= k < |log| ==> StrengthenedOk(learned[k], log[k]))
    && (forall k :: 0 <= k < |log| && log[k].unsat ==> u)
  }

  lemma LogSnoc(learned: seq<seq<nat>>, log: seq<Strengthened>, s: Strengthened, c0: seq<nat>, lv0: seq<int>, u0: bool)
    requires |log| < |learned| && Logged(learned, log, c0, lv0, u0, s.before, s.lvBefore)
    requires StrengthenedOk(learned[|log|], s) && (u0 ==> s.unsat)
    ensures Logged(learned, log + [s], c0, lv0, s.unsat, s.arena, s.lv)
  {
    ChainedSnoc(log, s, c0, lv0);
    forall k | 0 <= k < |log + [s]|
      ensures StrengthenedOk(learned[k], (log + [s])[k]) && ((log + [s])[k].unsat ==> s.unsat)
    {
      if k < |log| { assert (log + [s])[k] == log[k]; }
    }
  }

  lemma ChainedSnoc(log: seq<Strengthened>, s: Strengthened, c0: seq<nat>, lv0: seq<int>)
    requires Chained(log, c0, lv0, s.before, s.lvBefore)
    ensures Chained(log + [s], c0, lv0, s.arena, s.lv)
  {
    var log' := log + [s];
    forall i | 0 < i < |log'|
      ensures log'[i].before == log'[i - 1].arena && log'[i].lvBefore == log'[i - 1].lv
    {
      if i < |log| {
        assert log'[i] == log[i] && log'[i - 1] == log[i - 1];
      }
    }
  }

  /** The outcome of a probe from the conflict found and the value `v` of the probed literal. */
  function Classify(confl: nat, v: int): (r: Probe)
    ensures Outcome(r, confl, v)
  {
    if confl != 0 || v == -1 then Probe.Dropped
    else if v == 1 then Probe.Implied
    else Probe.Needed
  }

  /** No literal of `cl` is the negation of another. */
  ghost predicate NoClash(cl: seq<nat>) {
    forall j :: 0 <= j < |cl| ==> Neg(cl[j]) !in cl
  }

  /** What one probe saw before it was undone: the conflict, the values and the arena. */
  datatype Trial = Trial(confl: nat, lv: seq<int>, arena: seq<nat>)

  /** The probe of `tp` refuted the other literals of `cl`: each of them is false, and a
      conflict names a clause whose literals are all false. */
  ghost predicate Refuted(cl: seq<nat>, tp: nat, t: Trial) {
    && (forall j :: 0 <= j < |cl| && cl[j] != tp ==> Value(t.lv, cl[j]) == -1)
    && (t.confl != 0 ==> Falsified(t.arena, t.lv, t.confl))
  }

  /** The probes in `trials`, of the literals of `cl` in order, found outcome `res` for the one
      at `i` and `Implied` for those before it. */
  ghost predicate Outcomes(cl: seq<nat>, trials: seq<Trial>, i: nat, res: Probe) {
    |trials| <= |cl| && forall k :: 0 <= k < |trials| ==>
      Outcome(if k < i then Probe.Implied else res, trials[k].confl, Value(trials[k].lv, cl[k]))
  }

  /** Each probe in `trials` refuted the literals of `cl` other than its own. */
  ghost predicate AllRefuted(cl: seq<nat>, trials: seq<Trial>) {
    |trials| <= |cl| && forall k :: 0 <= k < |trials| ==> Refuted(cl, cl[k], trials[k])
  }

  /** One more probe, of the next literal, keeps `Outcomes`. */
  lemma OutcomesSnoc(cl: seq<nat>, trials: seq<Trial>, t: Trial, i: nat, res: Probe)
    requires i == |trials| < |cl| && Outcomes(cl, trials, i, Probe.Implied)
    requires Outcome(res, t.confl, Value(t.lv, cl[i]))
    ensures Outcomes(cl, trials + [t], i, res)
    ensures res.Implied? ==> Outcomes(cl, trials + [t], i + 1, Probe.Implied)
  {
    var ts := trials + [t];
    forall k | 0 <= k < |ts|
      ensures Outcome(if k < i then Probe.Implied else res, ts[k].confl, Value(ts[k].lv, cl[k]))
    {
      if k < i {
        assert ts[k] == trials[k];
      }
    }
  }

  /** One more refuting probe, of the next literal, keeps `AllRefuted`. */
  lemma RefutedSnoc(cl: seq<nat>, trials: seq<Trial>, t: Trial)
    requires |trials| < |cl| && AllRefuted(cl, trials) && Refuted(cl, cl[|trials|], t)
    ensures AllRefuted(cl, trials + [t])
  {
    var ts := trials + [t];
    forall k | 0 <= k < |ts|
      ensures Refuted(cl, cl[k], ts[k])
    {
      if k < |trials| {
        assert ts[k] == trials[k];
      }
    }
  }

  /** The literals of `Others(cl, tp)` all false is every literal of `cl` but `tp` false. */
  /** A probe whose decisions left the other literals false refutes them, and its conflict too. */
  lemma ProbeRefuted(cl: seq<nat>, tp: nat, lv1: seq<int>, t: Trial)
    requires AllFalse(lv1, Others(cl, tp)) && KeepsAssigned(lv1, t.lv)
    requires t.confl != 0 ==> Falsified(t.arena, t.lv, t.confl)
    ensures Refuted(cl, tp, t)
  {
    FalseKept(lv1, t.lv, Others(cl, tp));
    OthersFalse(t.lv, cl, tp);
  }

  lemma OthersFalse(lv: seq<int>, cl: seq<nat>, tp: nat)
    requires AllFalse(lv, Others(cl, tp))
    ensures forall j :: 0 <= j < |cl| && cl[j] != tp ==> Value(lv, cl[j]) == -1
  {
    var o := Others(cl, tp);
    forall j | 0 <= j < |cl| && cl[j] != tp
      ensures Value(lv, cl[j]) == -1
    {
      assert cl[j] in o;
      var m :| 0 <= m < |o| && o[m] == cl[j];
    }
  }

  /** Deciding the negation of a literal `o` of a clause without clashes makes `o` false and
      keeps false the literals of the clause already false. */
  lemma DecideKeepsFalse(lv: seq<int>, cl: seq<nat>, s: seq<nat>, o: nat)
    requires NoClash(cl) && o in cl && AllFalse(lv, s) && forall x :: x in s ==> x in cl
    requires o < |lv| && Neg(o) < |lv|
    ensures AllFalse(lv[Neg(o) := 1][o := -1], s + [o])
  {
    var lv' := lv[Neg(o) := 1][o := -1];
    forall k | 0 <= k < |s + [o]|
      ensures Value(lv', (s + [o])[k]) == -1
    {
      if k < |s| {
        var i :| 0 <= i < |cl| && cl[i] == o;
        assert s[k] in cl && Neg(cl[i]) !in cl;
      }
    }
  }

  /** The literals drawn from a prefix of `cl` are literals of `cl`. */
  lemma InPrefix(cl: seq<nat>, k: nat, s: seq<nat>)
    requires k <= |cl| && forall x :: x in s ==> x in cl[..k]
    ensures forall x :: x in s ==> x in cl
  {
    forall x | x in s
      ensures x in cl
    {
      var j :| 0 <= j < k && cl[..k][j] == x;
      assert cl[j] == x;
    }
  }

  /** A filtered clause has at most the literals of the clause, with multiplicity. */
  lemma OpenSub(lv: seq<int>, cl: seq<nat>, r: seq<nat>)
    requires KeepsOpen(lv, cl, r)
    ensures multiset(r) <= multiset(cl)
  {
    forall x
      ensures multiset(r)[x] <= multiset(cl)[x]
    {
    }
  }

  /** Literals collected by `LearnUip`: literals of the problem above level 1. */
  ghost predicate Tail(vss: seq<VarState>, t: seq<nat>, vars: nat) {
    forall k :: 0 <= k < |t| ==> ValidLit(t[k], vars) && LevelIn(vss, t[k]) >= 2
  }

  /** No literal of `t` is at `level`. */
  ghost predicate Apart(vss: seq<VarState>, t: seq<nat>, level: int) {
    forall k :: 0 <= k < |t| ==> LevelIn(vss, t[k]) != level
  }

  /** `SwapDel` at a slot after the first keeps the literals after the first apart from `level`. */
  lemma ApartSwapDel(vss: seq<VarState>, cc: seq<nat>, level: int, i: nat)
    requires 1 <= i < |cc| && Apart(vss, cc[1..], level)
    ensures Apart(vss, SwapDel(cc, i)[1..], level)
  {
    var r := SwapDel(cc, i);
    forall k | 0 <= k < |r[1..]|
      ensures LevelIn(vss, r[1..][k]) != level
    {
      if k + 1 == i {
        assert r[k + 1] == cc[|cc| - 1] == cc[1..][|cc| - 2];
      } else {
        assert r[k + 1] == cc[k + 1] == cc[1..][k];
      }
    }
  }

  /** The assertion level of a learned clause: the level of its second literal, 1 for a unit. */
  function AssLevel(vss: seq<VarState>, cl: seq<nat>): int {
    if |cl| <= 1 then 1 else LevelIn(vss, cl[1])
  }

  /** Sorted by level, a permutation of a learned clause of three literals or more has its second
      literal above level 1: only one literal, the first before sorting, can be lower. */
  lemma SecondLevel(vss: seq<VarState>, cc: seq<nat>, cl: seq<nat>, vars: nat)
    requires Learnt(vss, cc, vars) && multiset(cl) == multiset(cc) && SortedBy(cl, LevelOrder(vss))
    ensures |cl| >= 3 ==> LevelIn(vss, cl[1]) >= 2
  {
    if |cl| >= 3 {
      assert KeyLe(LevelOrder(vss)(cl[1]), LevelOrder(vss)(cl[2]));
      assert cl[1] in multiset(cc) && cl[2] in multiset(cc);
      if cl[1] == cl[2] {
        assert cl == cl[..1] + [cl[1], cl[1]] + cl[3..];
        TwiceHigh(vss, cc, vars, cl[1]);
      } else if cl[1] != cc[0] {
        NotFirstHigh(vss, cc, vars, cl[1]);
      } else {
        NotFirstHigh(vss, cc, vars, cl[2]);
      }
    }
  }

  /** A literal of a learned clause other than its first is above level 1. */
  lemma NotFirstHigh(vss: seq<VarState>, cc: seq<nat>, vars: nat, x: nat)
    requires Learnt(vss, cc, vars) && x in multiset(cc) && x != cc[0]
    ensures LevelIn(vss, x) >= 2
  {
    var j :| 0 <= j < |cc| && cc[j] == x;
  }

  /** A literal occurring twice in a learned clause is above level 1. */
  lemma TwiceHigh(vss: seq<VarState>, cc: seq<nat>, vars: nat, x: nat)
    requires Learnt(vss, cc, vars) && multiset(cc)[x] >= 2
    ensures LevelIn(vss, x) >= 2
  {
    assert cc == [cc[0]] + cc[1..];
    assert x in multiset(cc[1..]);
    var j :| 0 <= j < |cc[1..]| && cc[1..][j] == x;
    assert cc[j + 1] == x;
  }

  /** A saved decision: the literal of the variable's saved phase and its level, above `ass`. */
  ghost predicate Entry(e: (nat, int), v: nat, vss: seq<VarState>, vars: nat, ass: int) {
    ValidVar(v, vars) && v < |vss| && e == (MkLit(v, vss[v].phase), vss[v].level) && e.1 > ass && ValidLit(e.0, vars)
  }

  /** `decs` lists the maximal top of the trail `d` whose levels exceed `ass`, bottom first. */
  ghost predicate Saved(decs: seq<(nat, int)>, d: seq<nat>, vss: seq<VarState>, vars: nat, ass: int) {
    && |decs| <= |d|
    && (forall k :: 0 <= k < |decs| ==> Entry(decs[k], d[|d| - |decs| + k], vss, vars, ass))
    && (|decs| < |d| ==> d[|d| - |decs| - 1] < |vss| && vss[d[|d| - |decs| - 1]].level <= ass)
  }

  /** No literal after the first of `clause` carries an `inCc` mark. */
  ghost predicate Unmarked(inCc: seq<bool>, clause: seq<nat>) {
    forall k :: 1 <= k < |clause| ==> clause[k] < |inCc| && !inCc[clause[k]]
  }

  /** A learned clause before sorting: a literal of the problem, then literals above level 1. */
  ghost predicate Learnt(vss: seq<VarState>, cc: seq<nat>, vars: nat) {
    |cc| >= 1 && ValidLit(cc[0], vars) && forall k :: 1 <= k < |cc| ==> ValidLit(cc[k], vars) && LevelIn(vss, cc[k]) >= 2
  }

  /** A learned clause as `LearnUip` returns it: literals of the problem, by level descending. */
  ghost predicate LearntSorted(vss: seq<VarState>, cl: seq<nat>, vars: nat) {
    && |cl| >= 1 && SortedBy(cl, LevelOrder(vss))
    && forall k :: 0 <= k < |cl| ==> ValidLit(cl[k], vars)
  }

  /** The UIP in front of a tail gives a learned clause; the tail stays apart from `level`. */
  lemma LearntCons(vss: seq<VarState>, uip: nat, more: seq<nat>, vars: nat, level: int)
    requires ValidLit(uip, vars) && Tail(vss, more, vars) && Apart(vss, more, level)
    ensures Learnt(vss, [uip] + more, vars) && ([uip] + more)[1..] == more
    ensures Apart(vss, ([uip] + more)[1..], level)
  {
    assert ([uip] + more)[1..] == more;
  }

  lemma LearntSwapDel(vss: seq<VarState>, cc: seq<nat>, vars: nat, i: nat)
    requires Learnt(vss, cc, vars) && 1 <= i < |cc|
    ensures Learnt(vss, SwapDel(cc, i), vars) && SwapDel(cc, i)[0] == cc[0]
    ensures multiset(SwapDel(cc, i)) <= multiset(cc)
  {
  }

  /** A permutation of a learned clause holds literals of the problem only. */
  lemma LearntValid(vss: seq<VarState>, cc: seq<nat>, cl: seq<nat>, vars: nat)
    requires Learnt(vss, cc, vars) && multiset(cl) == multiset(cc)
    ensures forall k :: 0 <= k < |cl| ==> ValidLit(cl[k], vars)
  {
    forall k | 0 <= k < |cl|
      ensures ValidLit(cl[k], vars)
    {
      assert cl[k] in multiset(cc);
      var j :| 0 <= j < |cc| && cc[j] == cl[k];
    }
  }

  /** `LearnUip`'s order, on the levels of `vss`. */
  function LevelOrder(vss: seq<VarState>): nat -> Key {
    LearntKey((l: nat) => LevelIn(vss, l))
  }

  /** The literals the filter leaves come from the clause. */
  lemma RemainingValid(lv: seq<int>, clause: seq<nat>, cl: seq<nat>, vars: nat)
    requires KeepsOpen(lv, clause, cl) && forall k :: 0 <= k < |clause| ==> ValidLit(clause[k], vars)
    ensures forall k :: 0 <= k < |cl| ==> ValidLit(cl[k], vars)
  {
    forall k | 0 <= k < |cl|
      ensures ValidLit(cl[k], vars)
    {
      assert multiset(cl)[cl[k]] > 0;
      assert cl[k] in clause;
    }
  }

  lemma KeepsTrans(lv0: seq<int>, lv1: seq<int>, lv: seq<int>)
    requires KeepsAssigned(lv0, lv1) && KeepsAssigned(lv1, lv)
    ensures KeepsAssigned(lv0, lv)
  {
  }

  /** What propagation may do to the state (`c0`, `lv0`, `d0`, `p0`, `s0`) on its way to
      (`c`, `lv`, `d`, `p`, `s`): permute literals inside clauses, assign unassigned variables,
      each assignment extending the trail and the queue (with the literal made false) and
      lowering the unassigned count by one, and count memory accesses. */
  ghost predicate ProgressFrom(vars: nat, c0: seq<nat>, lv0: seq<int>, d0: seq<nat>, p0: seq<nat>, s0: Stats,
                               c: seq<nat>, lv: seq<int>, d: seq<nat>, p: seq<nat>, s: Stats)
  {
    && SameShape(c0, c) && KeepsAssigned(lv0, lv) && |lv0| == 2 * vars + 2
    && |d| >= |d0| && d[..|d0|] == d0 && |p| >= |p0| && p[..|p0|] == p0
    && (forall k :: |p0| <= k < |p| ==> Value(lv, p[k]) == -1)
    && CountUnassigned(lv, vars) + |p| == CountUnassigned(lv0, vars) + |p0|
    && s.mems >= s0.mems && s == s0.(mems := s.mems)
  }

  /** Every literal of `cl` is false under `lv`. */
  ghost predicate AllFalse(lv: seq<int>, cl: seq<nat>) {
    forall k :: 0 <= k < |cl| ==> Value(lv, cl[k]) == -1
  }

  /** Writing `other` and `ff` to the two watch slots of the clause at `cls` and then swapping
      the literal at `fo` with the second slot gives `other`, the literal from `fo`, and `ff`
      at `fo`; the slots in between are untouched. */
  lemma SwapInto(c: seq<nat>, c1: seq<nat>, c2: seq<nat>, cls: nat, other: nat, ff: nat, fo: nat)
    requires cls + 2 <= fo < |c| && c1 == c[cls := other][cls + 1 := ff]
    requires c2 == c1[cls + 1 := c1[fo]][fo := ff]
    ensures c2 == c[cls := other][cls + 1 := c[fo]][fo := ff]
    ensures forall k :: cls + 2 <= k < fo ==> c2[k] == c1[k]
  {
  }

  /** The clause at `p` is falsified by `lv`: a conflict. */
  ghost predicate Falsified(c: seq<nat>, lv: seq<int>, p: nat) {
    AllFalse(lv, ClauseAt(c, p))
  }

  /** False literals stay false while values only change from unassigned. */
  lemma FalseKept(lv0: seq<int>, lv: seq<int>, cl: seq<nat>)
    requires AllFalse(lv0, cl) && KeepsAssigned(lv0, lv)
    ensures AllFalse(lv, cl)
  {
    forall k | 0 <= k < |cl|
      ensures Value(lv, cl[k]) == -1
    {
      assert Value(lv0, cl[k]) == -1;
    }
  }

  /** Assigned literals stay assigned while values only change from unassigned. */
  lemma UnitsKept(lv0: seq<int>, lv: seq<int>, cl: seq<nat>)
    requires KeepsAssigned(lv0, lv) && forall k :: 0 <= k < |cl| ==> Value(lv0, cl[k]) != 0
    ensures forall k :: 0 <= k < |cl| ==> Value(lv, cl[k]) != 0
  {
    forall k | 0 <= k < |cl|
      ensures Value(lv, cl[k]) != 0
    {
      assert Value(lv0, cl[k]) != 0;
    }
  }

  /** A queue of false literals, extended by propagation, holds false literals only. */
  lemma QueueFalse(vars: nat, c0: seq<nat>, lv0: seq<int>, d0: seq<nat>, p0: seq<nat>, s0: Stats,
                   c: seq<nat>, lv: seq<int>, d: seq<nat>, p: seq<nat>, s: Stats)
    requires ProgressFrom(vars, c0, lv0, d0, p0, s0, c, lv, d, p, s) && AllFalse(lv0, p0)
    ensures AllFalse(lv, p)
  {
    FalseKept(lv0, lv, p0);
    forall k | 0 <= k < |p|
      ensures Value(lv, p[k]) == -1
    {
      if k < |p0| {
        assert p[k] == p[..|p0|][k] == p0[k];
      }
    }
  }

  /** A clause whose first two literals are false and whose later literals, read from the third
      slot, are false is falsified. */
  lemma FalsifiedFromTail(c: seq<nat>, lv: seq<int>, p: nat)
    requires StartIn(c, p) && Value(lv, c[p]) == -1 && Value(lv, c[p + 1]) == -1
    requires forall k :: p + 2 <= k < p + 2 + |ClauseAt(c, p + 2)| ==> Value(lv, c[k]) == -1
    ensures Falsified(c, lv, p)
  {
    ClauseAtStep(c, p);
    ClauseAtStep(c, p + 1);
    var cl := ClauseAt(c, p);
    forall k | 0 <= k < |cl|
      ensures Value(lv, cl[k]) == -1
    {
      if k >= 2 {
        assert cl[k] == ClauseAt(c, p + 2)[k - 2] == c[p + k];
      }
    }
  }

  /** A binary clause holding the false literals `a` and `b` is falsified. */
  lemma FalsifiedPair(c: seq<nat>, lv: seq<int>, p: nat, a: nat, b: nat)
    requires BinAt(c, p) && PairAt(c, p, a, b) && Value(lv, a) == -1 && Value(lv, b) == -1
    ensures Falsified(c, lv, p)
  {
    ClauseTwo(c, p);
  }

  lemma ProgressRefl(vars: nat, c: seq<nat>, lv: seq<int>, d: seq<nat>, p: seq<nat>, s: Stats)
    requires |lv| == 2 * vars + 2
    ensures ProgressFrom(vars, c, lv, d, p, s, c, lv, d, p, s)
  {
  }

  /** Permuting literals and counting memory accesses alone is progress. */
  lemma ProgressShape(vars: nat, c0: seq<nat>, lv: seq<int>, d: seq<nat>, p: seq<nat>, s0: Stats, c: seq<nat>, s: Stats)
    requires SameShape(c0, c) && |lv| == 2 * vars + 2 && s.mems >= s0.mems && s == s0.(mems := s.mems)
    ensures ProgressFrom(vars, c0, lv, d, p, s0, c, lv, d, p, s)
  {
  }

  lemma ProgressTrans(vars: nat, c0: seq<nat>, lv0: seq<int>, d0: seq<nat>, p0: seq<nat>, s0: Stats,
                      c1: seq<nat>, lv1: seq<int>, d1: seq<nat>, p1: seq<nat>, s1: Stats,
                      c: seq<nat>, lv: seq<int>, d: seq<nat>, p: seq<nat>, s: Stats)
    requires ProgressFrom(vars, c0, lv0, d0, p0, s0, c1, lv1, d1, p1, s1)
    requires ProgressFrom(vars, c1, lv1, d1, p1, s1, c, lv, d, p, s)
    ensures ProgressFrom(vars, c0, lv0, d0, p0, s0, c, lv, d, p, s)
  {
    assert d[..|d0|] == d[..|d1|][..|d0|];
    assert p[..|p0|] == p[..|p1|][..|p0|];
    SameShapeTrans(c0, c1, c);
    forall k | |p0| <= k < |p|
      ensures Value(lv, p[k]) == -1
    {
      if k < |p1| {
        assert p[k] == p[..|p1|][k] == p1[k];
        assert Value(lv1, p1[k]) == -1;
      }
    }
  }

  /** An assignment of an unassigned literal is progress. */
  lemma AssignProgress(vars: nat, c: seq<nat>, lv: seq<int>, d: seq<nat>, p: seq<nat>, s: Stats, dec: nat)
    requires Consistent(lv, vars) && ValidLit(dec, vars) && lv[dec] == 0
    ensures ProgressFrom(vars, c, lv, d, p, s, c, lv[dec := 1][Neg(dec) := -1], d + [VarOf(dec)], p + [Neg(dec)], s)
  {
    LitVarPair(dec, vars);
    AssignCounts(lv, vars, vars, dec);
    assert lv[Neg(dec)] == 0;
    assert (d + [VarOf(dec)])[..|d|] == d;
    assert (p + [Neg(dec)])[..|p|] == p;
  }

  /** The decision level recorded for the variable of `l`, 0 out of range. */
  function LevelIn(vss: seq<VarState>, l: nat): int {
    if VarOf(l) < |vss| then vss[VarOf(l)].level else 0
  }

  /** The levels of the literals of `cl`. */
  function Levels(vss: seq<VarState>, cl: seq<nat>): (r: seq<int>)
    ensures |r| == |cl| && forall k :: 0 <= k < |cl| ==> r[k] == LevelIn(vss, cl[k])
  {
    seq(|cl|, k requires 0 <= k < |cl| => LevelIn(vss, cl[k]))
  }

  lemma LevelsSnoc(vss: seq<VarState>, cl: seq<nat>, i: nat)
    requires 1 <= i < |cl|
    ensures Levels(vss, cl[1..i + 1]) == Levels(vss, cl[1..i]) + [LevelIn(vss, cl[i])]
  {
    assert cl[1..i + 1] == cl[1..i] + [cl[i]];
  }

  lemma GlueStep(vss: seq<VarState>, cl: seq<nat>, i: nat)
    requires 1 <= i < |cl|
    ensures Descents(Levels(vss, cl[1..i + 1]))
         == Descents(Levels(vss, cl[1..i])) + (if i >= 2 && LevelIn(vss, cl[i]) < LevelIn(vss, cl[i - 1]) then 1 else 0)
  {
    LevelsSnoc(vss, cl, i);
    DescentsSnoc(Levels(vss, cl[1..i]), LevelIn(vss, cl[i]));
  }

  /** The glue of a clause sorted by level: 2, plus one for every literal from index 2 on whose
      level is below its predecessor's. */
  function GlueOf(vss: seq<VarState>, cl: seq<nat>): nat
    decreases |cl|
  {
    if |cl| <= 2 then 2
    else GlueOf(vss, cl[..|cl| - 1])
         + (if LevelIn(vss, cl[|cl| - 1]) < LevelIn(vss, cl[|cl| - 2]) then 1 else 0)
  }

  lemma GlueOfStep(vss: seq<VarState>, cl: seq<nat>, i: nat)
    requires 1 <= i < |cl|
    ensures GlueOf(vss, cl[..i + 1])
         == GlueOf(vss, cl[..i]) + (if i >= 2 && LevelIn(vss, cl[i]) < LevelIn(vss, cl[i - 1]) then 1 else 0)
  {
    assert cl[..i + 1][..i] == cl[..i];
  }

  /** The glue is 2 plus the descents of the levels after the first literal. */
  lemma {:induction false} GlueOfDescents(vss: seq<VarState>, cl: seq<nat>)
    requires |cl| >= 1
    ensures GlueOf(vss, cl) == 2 + Descents(Levels(vss, cl[1..]))
    decreases |cl|
  {
    var n := |cl|;
    if n > 2 {
      GlueOfDescents(vss, cl[..n - 1]);
      assert cl[..n - 1][1..] == cl[1..n - 1];
      GlueStep(vss, cl, n - 1);
      assert cl[1..n] == cl[1..];
    }
  }

  /** With the literals after the first sorted by level, highest first, the glue is one more than
      the number of distinct levels among them: the levels of the whole clause when the first
      literal's level is above all of theirs. */
  lemma GlueCountsLevels(vss: seq<VarState>, cl: seq<nat>)
    requires |cl| >= 2 && NonIncreasing(Levels(vss, cl[1..]))
    ensures GlueOf(vss, cl) == 1 + |Distinct(Levels(vss, cl[1..]))|
  {
    GlueOfDescents(vss, cl);
    DescentsCount(Levels(vss, cl[1..]));
  }

  /** The number of strict decreases along `s`. */
  function Descents(s: seq<int>): nat
    decreases |s|
  {
    if |s| <= 1 then 0
    else Descents(s[..|s| - 1]) + (if s[|s| - 1] < s[|s| - 2] then 1 else 0)
  }

  lemma DescentsSnoc(s: seq<int>, y: int)
    ensures Descents(s + [y]) == Descents(s) + (if |s| >= 1 && y < s[|s| - 1] then 1 else 0)
  {
    assert (s + [y])[..|s|] == s;
  }

  ghost predicate NonIncreasing(s: seq<int>) {
    forall i, j :: 0 <= i <= j < |s| ==> s[j] <= s[i]
  }

  /** The values occurring in `s`. */
  ghost function Distinct(s: seq<int>): set<int> {
    set x | x in s
  }

  lemma DistinctSnoc(s: seq<int>, x: int)
    ensures Distinct(s + [x]) == Distinct(s) + {x}
  {
  }

  lemma CardAdd(A: set<int>, x: int)
    requires x !in A
    ensures |A + {x}| == |A| + 1
  {
  }

  /** On a non-increasing sequence, the descents plus one count the distinct values: with the
      literals sorted by level, `AddLearnedClause`'s glue is the number of distinct levels. */
  lemma {:induction false} DescentsCount(s: seq<int>)
    requires |s| >= 1 && NonIncreasing(s)
    ensures |Distinct(s)| == Descents(s) + 1
    decreases |s|
  {
    var n := |s|;
    if n == 1 {
      assert Distinct(s) == {s[0]};
    } else {
      var q := s[..n - 1];
      var x := s[n - 1];
      assert s == q + [x];
      assert NonIncreasing(q);
      DescentsCount(q);
      DistinctSnoc(q, x);
      var A := Distinct(q);
      assert Distinct(s) == A + {x};
      if x < s[n - 2] {
        assert x !in q;
        CardAdd(A, x);
        assert Descents(s) == Descents(q) + 1;
      } else {
        assert q[n - 2] == x;
        assert A + {x} == A;
        assert Descents(s) == Descents(q);
      }
    }
  }

  /** Literals `cl` without a 0, appended with a terminator after `c`: the clause at `|c| + k`
      is what follows `cl[k]`. */
  lemma {:induction false} ClauseAtAppend(c: seq<nat>, cl: seq<nat>, k: nat, p: nat)
    requires k <= |cl| && p == |c| + k && forall i :: 0 <= i < |cl| ==> cl[i] != 0
    ensures ClauseAt(c + cl + [0], p) == cl[k..]
    decreases |cl| - k
  {
    var c' := c + cl + [0];
    if k < |cl| {
      ClauseAtAppend(c, cl, k + 1, p + 1);
      assert c'[p] == cl[k];
      assert cl[k..] == [cl[k]] + cl[k + 1..];
    } else {
      assert c'[p] == 0;
    }
  }

  /** A clause of at least two literals appended after a terminator starts where the arena ended. */
  lemma AppendedClause(c: seq<nat>, cl: seq<nat>)
    requires |c| >= 1 && c[|c| - 1] == 0 && |cl| >= 2 && forall i :: 0 <= i < |cl| ==> cl[i] != 0
    ensures ClauseAt(c + cl + [0], |c|) == cl && StartIn(c + cl + [0], |c|)
  {
    ClauseAtAppend(c, cl, 0, |c|);
    assert cl[0..] == cl;
    var c' := c + cl + [0];
    assert c'[|c| - 1] == 0 && c'[|c|] == cl[0] && c'[|c| + 1] == cl[1];
  }

  /** Appending a clause of at least two literals, described by one more entry, keeps `InfoIn`. */
  lemma AppendInfo(c: seq<nat>, orig: nat, ci: seq<CInfo>, cl: seq<nat>, e: CInfo)
    requires InfoIn(c, orig, ci) && |c| >= 1 && c[|c| - 1] == 0 && orig <= |c|
    requires |cl| >= 2 && (forall i :: 0 <= i < |cl| ==> cl[i] != 0)
    requires e.pt == |c| && e.glue >= -1
    ensures InfoIn(c + cl + [0], orig, ci + [e])
  {
    var c' := c + cl + [0];
    var ci' := ci + [e];
    assert c' <= c' && c <= c';
    forall k | 0 <= k < |ci'|
      ensures StartIn(c', ci'[k].pt) && ci'[k].pt >= orig && ci'[k].glue >= -1
    {
      if k < |ci| {
        ShapeKeepsStart(c, c', ci[k].pt);
      } else {
        assert c'[|c|] == cl[0] && c'[|c| + 1] == cl[1];
      }
    }
    forall k, k' | 0 <= k < k' < |ci'|
      ensures ci'[k].pt < ci'[k'].pt
    {
      if k' == |ci| {
        assert StartIn(c, ci[k].pt);
      }
    }
    forall p | orig <= p && HeadIn(c', p)
      ensures p in Pts(ci')
    {
      if p < |c| {
        assert p in Pts(ci);
        var k :| 0 <= k < |ci| && ci[k].pt == p;
        assert ci'[k].pt == p;
      } else if p == |c| {
        assert ci'[|ci|].pt == p;
      }
    }
  }

  /** The watch lists after attaching the clause `cl` at `pt`: a record under `cl[0]` with
      blocking literal `cl[1]` and one under `cl[1]` with blocking literal `cl[0]`. */
  function Attach(w: seq<seq<Watch>>, pt: nat, cl: seq<nat>): (r: seq<seq<Watch>>)
    ensures |r| == |w|
  {
    if |cl| < 2 || cl[0] >= |w| || cl[1] >= |w| then w
    else
      var w1 := w[cl[0] := w[cl[0]] + [Watch(pt, cl[1], |cl|)]];
      w1[cl[1] := w1[cl[1]] + [Watch(pt, cl[0], |cl|)]]
  }

  /** The decision levels of the literals of `cl`. */
  ghost function LevelSet(vss: seq<VarState>, cl: seq<nat>): set<int>
    decreases |cl|
  {
    if cl == [] then {} else LevelSet(vss, cl[..|cl| - 1]) + {LevelIn(vss, cl[|cl| - 1])}
  }

  lemma LevelSetSnoc(vss: seq<VarState>, cl: seq<nat>, x: nat)
    ensures LevelSet(vss, cl + [x]) == LevelSet(vss, cl) + {LevelIn(vss, x)}
  {
    assert (cl + [x])[..|cl|] == cl;
  }

  /** A level is in `LevelSet` exactly when some literal has it. */
  lemma {:induction false} LevelSetMembers(vss: seq<VarState>, cl: seq<nat>, l: int)
    ensures l in LevelSet(vss, cl) <==> exists k :: 0 <= k < |cl| && LevelIn(vss, cl[k]) == l
    decreases |cl|
  {
    if cl != [] {
      var q := cl[..|cl| - 1];
      LevelSetMembers(vss, q, l);
      if l in LevelSet(vss, q) {
        var k :| 0 <= k < |q| && LevelIn(vss, q[k]) == l;
        assert cl[k] == q[k];
      }
      if exists k :: 0 <= k < |cl| && LevelIn(vss, cl[k]) == l {
        var k :| 0 <= k < |cl| && LevelIn(vss, cl[k]) == l;
        if k < |q| { assert q[k] == cl[k]; }
      }
    }
  }

  /** `ci` is `ci0` with the metadata of the clause at `cls` refreshed, unless that clause was
      added with glue -1: glue `g`, recently used, one more total use. */
  ghost predicate BumpedInfo(ci0: seq<CInfo>, ci: seq<CInfo>, cls: nat, g: int) {
    |ci| == |ci0| &&
    forall i :: 0 <= i < |ci0| ==>
      ci[i] == if ci0[i].pt == cls && ci0[i].glue != -1 then CInfo(cls, g, 1, ci0[i].totalUsed + 1) else ci0[i]
  }

  lemma BumpedOne(ci0: seq<CInfo>, i: nat, cls: nat, g: int)
    requires i < |ci0| && ci0[i].pt == cls && ci0[i].glue != -1
    requires forall k, k' :: 0 <= k < k' < |ci0| ==> ci0[k].pt < ci0[k'].pt
    ensures BumpedInfo(ci0, ci0[i := CInfo(cls, g, 1, ci0[i].totalUsed + 1)], cls, g)
  {
  }

  lemma BumpedNone(ci0: seq<CInfo>, cls: nat, g: int)
    requires forall i :: 0 <= i < |ci0| && ci0[i].pt == cls ==> ci0[i].glue == -1
    ensures BumpedInfo(ci0, ci0, cls, g)
  {
  }

  /** Replacing the metadata of one clause by metadata with the same offset keeps `InfoIn`. */
  lemma InfoUpdate(c: seq<nat>, orig: nat, ci: seq<CInfo>, i: nat, e: CInfo)
    requires InfoIn(c, orig, ci) && i < |ci| && e.pt == ci[i].pt && e.glue >= -1
    ensures InfoIn(c, orig, ci[i := e])
  {
    assert Pts(ci[i := e]) == Pts(ci) by {
      forall p | p in Pts(ci) ensures p in Pts(ci[i := e]) {
        var k :| 0 <= k < |ci| && ci[k].pt == p;
        assert ci[i := e][k].pt == p;
      }
    }
  }

  // ---------------------------------------------------------------------------------------------
  // The redundancy search of conflict minimisation

  /** The number of stamps among `rs[..n]` other than `it`. */
  function Unstamped(rs: seq<int>, it: int, n: nat): nat
    requires n <= |rs|
  {
    if n == 0 then 0 else Unstamped(rs, it, n - 1) + (if rs[n - 1] != it then 1 else 0)
  }

  /** Stamping a slot not stamped yet lowers the count by one when the slot is counted. */
  lemma {:induction false} StampCounts(rs: seq<int>, it: int, n: nat, t: nat)
    requires n <= |rs| && t < |rs| && rs[t] != it
    ensures Unstamped(rs[t := it], it, n) == Unstamped(rs, it, n) - (if t < n then 1 else 0)
    decreases n
  {
    if n > 0 {
      StampCounts(rs, it, n - 1, t);
    }
  }

  /** A literal the redundancy search need not look behind: in the learned clause, at level at
      most 1, or stamped in the round `it`. */
  ghost predicate Settled(inCc: seq<bool>, vss: seq<VarState>, rs: seq<int>, it: int, t: nat) {
    (t < |inCc| && inCc[t]) || LevelIn(vss, t) <= 1 || (t < |rs| && rs[t] == it)
  }

  /** The variable of `l` has a reason clause whose literals other than the implied `Neg(l)` are
      all settled. */
  ghost predicate Closed(c: seq<nat>, vss: seq<VarState>, inCc: seq<bool>, rs: seq<int>, it: int, l: nat) {
    1 <= VarOf(l) < |vss| && vss[VarOf(l)].reason != 0 &&
    forall t :: t in ClauseAt(c, vss[VarOf(l)].reason) ==> t == Neg(l) || Settled(inCc, vss, rs, it, t)
  }

  /** The stamp of slot `t` is not newer than `it`. */
  ghost predicate StampAtMost(rs: seq<int>, t: nat, it: int) {
    t < |rs| ==> rs[t] <= it
  }

  /** Stamps of the round `it` are only ever added. */
  ghost predicate StampsGrow(rs: seq<int>, rs': seq<int>, it: int) {
    |rs'| == |rs| && forall t :: 0 <= t < |rs| && rs[t] == it ==> rs'[t] == it
  }

  /** Neither of the first two literals of the reason clause of `l` is the implied `Neg(l)`. */
  ghost predicate Misoriented(c: seq<nat>, vss: seq<VarState>, l: nat) {
    VarOf(l) < |vss| && At(c, vss[VarOf(l)].reason) != Neg(l) && At(c, vss[VarOf(l)].reason + 1) != Neg(l)
  }

  /** Closedness survives permuting the reason clause and adding stamps. */
  lemma ClosedKeeps(c: seq<nat>, c': seq<nat>, vss: seq<VarState>, inCc: seq<bool>, rs: seq<int>, rs': seq<int>,
                    it: int, l: nat)
    requires Closed(c, vss, inCc, rs, it, l) && StampsGrow(rs, rs', it)
    requires multiset(ClauseAt(c', vss[VarOf(l)].reason)) == multiset(ClauseAt(c, vss[VarOf(l)].reason))
    ensures Closed(c', vss, inCc, rs', it, l)
  {
    var rc := vss[VarOf(l)].reason;
    forall t | t in ClauseAt(c', rc)
      ensures t == Neg(l) || Settled(inCc, vss, rs', it, t)
    {
      assert t in multiset(ClauseAt(c', rc));
      assert t in ClauseAt(c, rc);
    }
  }

  /** Every slot of the clause at `p` holds a literal. */
  lemma ClauseAtLiteral(c: seq<nat>, p: nat, j: nat)
    requires j < |ClauseAt(c, p)|
    ensures p + j < |c| && c[p + j] != 0
  {
    assert ClauseAt(c, p)[j] == c[p + j];
  }

  /** The clause at `p` only depends on the slots from `p` to its terminator. */
  lemma {:induction false} ClauseAtAgree(c: seq<nat>, c': seq<nat>, p: nat)
    requires |c'| == |c| && forall k :: p <= k <= p + |ClauseAt(c, p)| && k < |c| ==> c'[k] == c[k]
    ensures ClauseAt(c', p) == ClauseAt(c, p)
    decreases |c| - p
  {
    if p < |c| && c[p] != 0 {
      ClauseAtAgree(c, c', p + 1);
    }
  }

  /** Swapping the first two literals of the clause at `rc` permutes that clause and leaves every
      other clause as it was. */
  lemma SwapKeepsClauses(c: seq<nat>, rc: nat, p: nat)
    requires StartIn(c, rc) && StartIn(c, p)
    ensures multiset(ClauseAt(c[rc := c[rc + 1]][rc + 1 := c[rc]], p)) == multiset(ClauseAt(c, p))
  {
    if p == rc {
      SwapFront(c, rc);
    } else if p < rc {
      SwapAfter(c, rc, p);
    } else {
      assert p != rc + 1;
      ClauseAtAgree(c, c[rc := c[rc + 1]][rc + 1 := c[rc]], p);
    }
  }

  lemma SwapFront(c: seq<nat>, rc: nat)
    requires StartIn(c, rc)
    ensures multiset(ClauseAt(c[rc := c[rc + 1]][rc + 1 := c[rc]], rc)) == multiset(ClauseAt(c, rc))
  {
    var c' := c[rc := c[rc + 1]][rc + 1 := c[rc]];
    ClauseAtStep(c, rc);
    ClauseAtStep(c, rc + 1);
    ClauseAtStep(c', rc);
    ClauseAtStep(c', rc + 1);
    ClauseAtAgree(c, c', rc + 2);
    assert ClauseAt(c', rc) == [c[rc + 1]] + ([c[rc]] + ClauseAt(c, rc + 2));
    assert ClauseAt(c, rc) == [c[rc]] + ([c[rc + 1]] + ClauseAt(c, rc + 2));
  }

  /** A clause before `rc` ends before the terminator in front of `rc`, so the swap misses it. */
  lemma SwapAfter(c: seq<nat>, rc: nat, p: nat)
    requires StartIn(c, rc) && p < rc
    ensures ClauseAt(c[rc := c[rc + 1]][rc + 1 := c[rc]], p) == ClauseAt(c, p)
  {
    var e := p + |ClauseAt(c, p)|;
    assert e <= rc - 1 by {
      if e > rc - 1 {
        ClauseAtLiteral(c, p, rc - 1 - p);
        assert false;
      }
    }
    ClauseAtAgree(c, c[rc := c[rc + 1]][rc + 1 := c[rc]], p);
  }

  /** The literals of a redundancy stack have variables with reasons. */
  ghost predicate StackIn(s: seq<nat>, vars: nat, vss: seq<VarState>) {
    forall j :: 0 <= j < |s| ==> ValidLit(s[j], vars) && VarOf(s[j]) < |vss| && vss[VarOf(s[j])].reason != 0
  }

  /** A scan of the reason clause at `rc` that has read the slots `rc+1..k`, having started from
      the stack `s0`, the stamps `rs0` and `u0` unstamped slots: the stack only grew, by stamped
      literals, every newly stamped literal is on it, stamped and unstamped are conserved, and
      every literal read is settled. */
  ghost predicate ScanIn(c: seq<nat>, vars: nat, vss: seq<VarState>, inCc: seq<bool>, rs: seq<int>, it: int,
                         s: seq<nat>, rc: nat, k: nat, s0: seq<nat>, rs0: seq<int>, u0: nat) {
    && ScanPos(c, rc, k) && StackIn(s, vars, vss) && StampsGrow(rs0, rs, it)
    && Pushed(s, s0, rs, rs0, it) && Unstamped(rs, it, |rs|) + |s| == u0 + |s0|
    && SettledUpTo(c, vss, inCc, rs, it, rc, k)
  }

  ghost predicate ScanPos(c: seq<nat>, rc: nat, k: nat) {
    rc + 1 <= k <= |c| && ClauseAt(c, rc + 1) == c[rc + 1..k] + ClauseAt(c, k)
  }

  ghost predicate Pushed(s: seq<nat>, s0: seq<nat>, rs: seq<int>, rs0: seq<int>, it: int) {
    && |s0| <= |s| && s[..|s0|] == s0
    && (forall j :: |s0| <= j < |s| ==> s[j] < |rs| && rs[s[j]] == it)
    && (forall t :: 0 <= t < |rs| && t < |rs0| && rs[t] == it && rs0[t] != it ==> t in s)
  }

  ghost predicate SettledUpTo(c: seq<nat>, vss: seq<VarState>, inCc: seq<bool>, rs: seq<int>, it: int, rc: nat, k: nat) {
    forall j :: rc + 1 <= j < k && j < |c| ==> Settled(inCc, vss, rs, it, c[j])
  }

  /** A finished scan: the stack, stamps and count as in `ScanIn`, and every literal of the
      clause at `rc + 1` settled. */
  ghost predicate ScanOut(c: seq<nat>, vars: nat, vss: seq<VarState>, inCc: seq<bool>, rs: seq<int>, it: int,
                          s: seq<nat>, rc: nat, s0: seq<nat>, rs0: seq<int>, u0: nat) {
    && StackIn(s, vars, vss) && StampsGrow(rs0, rs, it)
    && Pushed(s, s0, rs, rs0, it) && Unstamped(rs, it, |rs|) + |s| == u0 + |s0|
    && forall t :: t in ClauseAt(c, rc + 1) ==> Settled(inCc, vss, rs, it, t)
  }

  /** A scan starts at the slot after the reason's first literal, with nothing read yet. */
  lemma ScanBegins(c: seq<nat>, vars: nat, vss: seq<VarState>, inCc: seq<bool>, rs: seq<int>, it: int,
                   s: seq<nat>, rc: nat)
    requires StartIn(c, rc) && StackIn(s, vars, vss)
    ensures ScanIn(c, vars, vss, inCc, rs, it, s, rc, rc + 1, s, rs, Unstamped(rs, it, |rs|))
  {
    assert c[rc + 1..rc + 1] == [];
    assert s[..|s|] == s;
  }

  /** The scan has reached the terminator. */
  lemma ScanDone(c: seq<nat>, vars: nat, vss: seq<VarState>, inCc: seq<bool>, rs: seq<int>, it: int,
                 s: seq<nat>, rc: nat, k: nat, s0: seq<nat>, rs0: seq<int>, u0: nat)
    requires ScanIn(c, vars, vss, inCc, rs, it, s, rc, k, s0, rs0, u0) && At(c, k) == 0
    ensures ScanOut(c, vars, vss, inCc, rs, it, s, rc, s0, rs0, u0)
  {
    assert ClauseAt(c, k) == [];
    forall t | t in ClauseAt(c, rc + 1)
      ensures Settled(inCc, vss, rs, it, t)
    {
      var j :| 0 <= j < |ClauseAt(c, rc + 1)| && ClauseAt(c, rc + 1)[j] == t;
      assert t == c[rc + 1 + j];
    }
  }

  /** Every saved phase is 0 or 1. */
  ghost predicate PhasesIn(vss: seq<VarState>) {
    forall v :: 0 <= v < |vss| ==> vss[v].phase == 0 || vss[v].phase == 1
  }

  /** Every reason is 0 or the offset of a clause. */
  ghost predicate ReasonsIn(c: seq<nat>, vss: seq<VarState>) {
    forall v :: 1 <= v < |vss| ==> vss[v].reason == 0 || StartIn(c, vss[v].reason)
  }

  /** Each clause of `c0` holds, in `c`, the same literals in some order. */
  ghost predicate Permutes(c0: seq<nat>, c: seq<nat>) {
    forall p :: StartIn(c0, p) ==> multiset(ClauseAt(c, p)) == multiset(ClauseAt(c0, p))
  }

  /** Every literal of `P` is closed. */
  ghost predicate ClosedAll(c: seq<nat>, vss: seq<VarState>, inCc: seq<bool>, rs: seq<int>, it: int, P: set<nat>) {
    forall l :: l in P ==> Closed(c, vss, inCc, rs, it, l)
  }

  /** Every literal stamped in round `it` has been processed (`P`) or waits on the stack `s`. */
  ghost predicate Tracked(rs: seq<int>, it: int, P: set<nat>, s: seq<nat>) {
    forall t :: 0 <= t < |rs| && rs[t] == it ==> t in P || t in s
  }

  /** A search whose stack ran empty: everything stamped was processed, so it is closed. */
  lemma SearchDone(c: seq<nat>, vss: seq<VarState>, inCc: seq<bool>, rs: seq<int>, it: int, P: set<nat>, lit: nat)
    requires ClosedAll(c, vss, inCc, rs, it, P) && Tracked(rs, it, P, []) && lit in P
    ensures Closed(c, vss, inCc, rs, it, lit)
    ensures forall l: nat :: l < |rs| && rs[l] == it ==> Closed(c, vss, inCc, rs, it, l)
  {
    forall l: nat | l < |rs| && rs[l] == it
      ensures Closed(c, vss, inCc, rs, it, l)
    {
      assert l in P;
    }
  }

  /** Processing `l`: its reason clause starts with `Neg(l)` and the rest is settled, so `l` joins
      the closed literals, and the clauses permuted meanwhile keep the others closed. */
  lemma ClosedStep(c0: seq<nat>, c: seq<nat>, vss: seq<VarState>, inCc: seq<bool>, rs0: seq<int>, rs: seq<int>,
                   it: int, P: set<nat>, l: nat)
    requires ClosedAll(c0, vss, inCc, rs0, it, P) && StampsGrow(rs0, rs, it)
    requires ReasonsIn(c0, vss) && Permutes(c0, c)
    requires 1 <= VarOf(l) < |vss| && vss[VarOf(l)].reason != 0 && StartIn(c, vss[VarOf(l)].reason)
    requires c[vss[VarOf(l)].reason] == Neg(l)
    requires forall t :: t in ClauseAt(c, vss[VarOf(l)].reason + 1) ==> Settled(inCc, vss, rs, it, t)
    ensures ClosedAll(c, vss, inCc, rs, it, P + {l})
  {
    ClosedNew(c, vss, inCc, rs, it, l);
    forall l' | l' in P
      ensures Closed(c, vss, inCc, rs, it, l')
    {
      assert Closed(c0, vss, inCc, rs0, it, l');
      var rc := vss[VarOf(l')].reason;
      assert StartIn(c0, rc);
      ClosedKeeps(c0, c, vss, inCc, rs0, rs, it, l');
    }
  }

  /** A reason clause led by the implied literal, its other literals settled, closes `l`. */
  lemma ClosedNew(c: seq<nat>, vss: seq<VarState>, inCc: seq<bool>, rs: seq<int>, it: int, l: nat)
    requires 1 <= VarOf(l) < |vss| && vss[VarOf(l)].reason != 0 && StartIn(c, vss[VarOf(l)].reason)
    requires c[vss[VarOf(l)].reason] == Neg(l)
    requires forall t :: t in ClauseAt(c, vss[VarOf(l)].reason + 1) ==> Settled(inCc, vss, rs, it, t)
    ensures Closed(c, vss, inCc, rs, it, l)
  {
    ClauseAtStep(c, vss[VarOf(l)].reason);
  }

  /** After processing `l`, popped from `s0 + [l]`, the stamps are still tracked. */
  lemma TrackStep(rs0: seq<int>, rs: seq<int>, it: int, P: set<nat>, l: nat, s0: seq<nat>, s: seq<nat>)
    requires Tracked(rs0, it, P, s0 + [l]) && Pushed(s, s0, rs, rs0, it) && StampsGrow(rs0, rs, it)
    ensures Tracked(rs, it, P + {l}, s)
    ensures forall t :: t in s0 + [l] ==> t in P + {l} || t in s
  {
    forall t | t in s0 + [l]
      ensures t in P + {l} || t in s
    {
      if t != l {
        var j :| 0 <= j < |s0| && s0[j] == t;
        assert s[..|s0|][j] == t;
      }
    }
    forall t | 0 <= t < |rs| && rs[t] == it
      ensures t in P + {l} || t in s
    {
      if rs0[t] == it {
        assert t in P || t in s0 + [l];
      }
    }
  }

  /** The state of a redundancy search from `lit`: the stack holds literals with reasons, the
      processed literals `P` are closed, every stamped literal is processed or waiting, and
      `lit` is one or the other. */
  ghost predicate SearchIn(c: seq<nat>, vars: nat, vss: seq<VarState>, inCc: seq<bool>, rs: seq<int>, it: int,
                           P: set<nat>, s: seq<nat>, lit: nat) {
    && StackIn(s, vars, vss) && ClosedAll(c, vss, inCc, rs, it, P) && Tracked(rs, it, P, s)
    && (lit in P || lit in s)
  }

  /** The pair (unstamped slots, stack height) went down lexicographically. */
  ghost predicate Lower(u: nat, n: nat, u0: nat, n0: nat) {
    u < u0 || (u == u0 && n < n0)
  }

  /** A round that popped `l` from `sOld == s0 + [l]`, oriented its reason clause and scanned it
      keeps the search state, with `l` processed, and lowers the measure. */
  lemma RoundStep(c0: seq<nat>, c: seq<nat>, vars: nat, vss: seq<VarState>, inCc: seq<bool>, rs0: seq<int>,
                  rs: seq<int>, it: int, P: set<nat>, l: nat, lit: nat, s0: seq<nat>, s: seq<nat>, sOld: seq<nat>,
                  uOld: nat)
    requires sOld == s0 + [l] && uOld == Unstamped(rs0, it, |rs0|)
    requires ClosedAll(c0, vss, inCc, rs0, it, P) && Tracked(rs0, it, P, sOld) && (lit in P || lit in sOld)
    requires ReasonsIn(c0, vss) && Permutes(c0, c)
    requires 1 <= VarOf(l) < |vss| && vss[VarOf(l)].reason != 0 && StartIn(c, vss[VarOf(l)].reason)
    requires c[vss[VarOf(l)].reason] == Neg(l)
    requires ScanOut(c, vars, vss, inCc, rs, it, s, vss[VarOf(l)].reason, s0, rs0, uOld)
    ensures SearchIn(c, vars, vss, inCc, rs, it, P + {l}, s, lit)
    ensures Lower(Unstamped(rs, it, |rs|), |s|, uOld, |sOld|)
  {
    ClosedStep(c0, c, vss, inCc, rs0, rs, it, P, l);
    TrackStep(rs0, rs, it, P, l, s0, s);
    assert lit in sOld ==> lit in P + {l} || lit in s;
  }

  /** A settled literal is read past. */
  lemma ScanSettled(c: seq<nat>, vars: nat, vss: seq<VarState>, inCc: seq<bool>, rs: seq<int>, it: int,
                    s: seq<nat>, rc: nat, k: nat, s0: seq<nat>, rs0: seq<int>, u0: nat)
    requires ScanIn(c, vars, vss, inCc, rs, it, s, rc, k, s0, rs0, u0) && k < |c| && c[k] != 0
    requires Settled(inCc, vss, rs, it, c[k])
    ensures ScanIn(c, vars, vss, inCc, rs, it, s, rc, k + 1, s0, rs0, u0)
  {
    ClauseAtAdvance(c, rc + 1, k);
  }

  /** An unstamped literal with a reason is read, stamped and pushed. */
  lemma ScanPushed(c: seq<nat>, vars: nat, vss: seq<VarState>, inCc: seq<bool>, rs: seq<int>, it: int,
                   s: seq<nat>, rc: nat, k: nat, s0: seq<nat>, rs0: seq<int>, u0: nat)
    requires ScanIn(c, vars, vss, inCc, rs, it, s, rc, k, s0, rs0, u0) && k < |c| && c[k] != 0
    requires c[k] < |rs| && rs[c[k]] != it && ValidLit(c[k], vars) && VarOf(c[k]) < |vss| && vss[VarOf(c[k])].reason != 0
    ensures ScanIn(c, vars, vss, inCc, rs[c[k] := it], it, s + [c[k]], rc, k + 1, s0, rs0, u0)
  {
    ClauseAtAdvance(c, rc + 1, k);
    StampCounts(rs, it, |rs|, c[k]);
    var s' := s + [c[k]];
    assert s'[..|s0|] == s0 by {
      assert s'[..|s|] == s;
    }
  }

  // ---------------------------------------------------------------------------------------------
  // Rebuilding the clause database (ResizeClauseDb)

  /** The order `ResizeClauseDb` sorts the metadata by (see `InfoKey`). */
  function InfoOrder(e: CInfo): Key {
    InfoKey(e.glue, e.used, e.totalUsed)
  }

  /** The reason recorded for the variable of `l`, 0 out of range. */
  function ReasonOf(vss: seq<VarState>, l: nat): nat {
    if VarOf(l) < |vss| then vss[VarOf(l)].reason else 0
  }

  /** The clause at `pt` as it is copied: its first two literals swapped when the variable of the
      second has this clause as its reason. */
  function Oriented(c: seq<nat>, vss: seq<VarState>, pt: nat): (r: seq<nat>)
    ensures |r| == |ClauseAt(c, pt)| && multiset(r) == multiset(ClauseAt(c, pt))
    ensures var cl := ClauseAt(c, pt);
            if |cl| >= 2 && ReasonOf(vss, cl[1]) == pt then
              r[0] == cl[1] && r[1] == cl[0] && forall k :: 2 <= k < |r| ==> r[k] == cl[k]
            else r == cl
  {
    var cl := ClauseAt(c, pt);
    if |cl| >= 2 && ReasonOf(vss, cl[1]) == pt then
      assert cl == [cl[0], cl[1]] + cl[2..];
      [cl[1], cl[0]] + cl[2..]
    else cl
  }

  /** The literal the clause at `pt` implies (`impll`): its first literal once oriented, when the
      clause is the reason of that literal's variable; 0 otherwise. */
  function Implied(c: seq<nat>, vss: seq<VarState>, pt: nat): nat {
    var cl := Oriented(c, vss, pt);
    if |cl| >= 1 && ReasonOf(vss, cl[0]) == pt then cl[0] else 0
  }

  /** `frozen_sat`: a literal of `cl` is true and its variable was assigned at level 1. */
  predicate FrozenSat(lv: seq<int>, vss: seq<VarState>, cl: seq<nat>) {
    exists k :: 0 <= k < |cl| && Value(lv, cl[k]) == 1 && LevelIn(vss, cl[k]) == 1
  }

  lemma FrozenSnoc(lv: seq<int>, vss: seq<VarState>, cl: seq<nat>, x: nat)
    ensures FrozenSat(lv, vss, cl + [x]) <==> FrozenSat(lv, vss, cl) || (Value(lv, x) == 1 && LevelIn(vss, x) == 1)
  {
    var cl' := cl + [x];
    if FrozenSat(lv, vss, cl) {
      var k :| 0 <= k < |cl| && Value(lv, cl[k]) == 1 && LevelIn(vss, cl[k]) == 1;
      assert cl'[k] == cl[k];
    }
    if Value(lv, x) == 1 && LevelIn(vss, x) == 1 {
      assert cl'[|cl|] == x;
    }
    if FrozenSat(lv, vss, cl') {
      var k :| 0 <= k < |cl'| && Value(lv, cl'[k]) == 1 && LevelIn(vss, cl'[k]) == 1;
      if k < |cl| { assert cl'[k] == cl[k]; }
    }
  }

  /** `num_lbd2_red_cls` after the first `n` entries: those of glue 2 or less. */
  function Lbd2Count(order: seq<CInfo>, n: nat): (r: nat)
    requires n <= |order|
    ensures r <= n
  {
    if n == 0 then 0 else Lbd2Count(order, n - 1) + if order[n - 1].glue <= 2 then 1 else 0
  }

  /** `num_used_red_cls` after the first `n` entries: those of glue above 2 used since the last
      rebuild. */
  function UsedCount(order: seq<CInfo>, n: nat): (r: nat)
    requires n <= |order|
    ensures r <= n
  {
    if n == 0 then 0 else UsedCount(order, n - 1) + if order[n - 1].glue > 2 && order[n - 1].used != 0 then 1 else 0
  }

  /** Whether `ResizeClauseDb` forgets entry `i` of the sorted metadata: its clause is satisfied
      at level 1, or it implies nothing, was not added, is not kept by its glue, and comes after
      the first 10000 entries plus those of glue 2 or less seen so far. */
  predicate Forgotten(c: seq<nat>, vss: seq<VarState>, lv: seq<int>, order: seq<CInfo>, i: nat)
    requires i < |order|
  {
    var e := order[i];
    || FrozenSat(lv, vss, ClauseAt(c, e.pt))
    || (Implied(c, vss, e.pt) == 0 && e.glue != -1 && !Keep(e) && i > 10000 + Lbd2Count(order, i + 1))
  }

  /** How many entries are forgotten. */
  function Drops(kept: seq<bool>): (r: nat)
    ensures r <= |kept|
  {
    if kept == [] then 0 else Drops(kept[..|kept| - 1]) + if kept[|kept| - 1] then 0 else 1
  }

  /** The statistics after `i` entries of the rebuild loop, `kept` holding their decisions:
      one memory access per entry, one forgotten clause per entry dropped. */
  function Tally(s0: Stats, i: nat, kept: seq<bool>): (r: Stats)
    ensures r.mems == s0.mems + i && r.forgotClauses == s0.forgotClauses + Drops(kept)
    ensures r.(mems := s0.mems, forgotClauses := s0.forgotClauses) == s0
  {
    s0.(mems := s0.mems + i, forgotClauses := s0.forgotClauses + Drops(kept))
  }

  /** One more entry tallied. */
  lemma TallyStep(s0: Stats, s: Stats, i: nat, kept: seq<bool>, b: bool)
    requires s == Tally(s0, i, kept)
    ensures (if b then s.(mems := s.mems + 1) else s.(mems := s.mems + 1).(forgotClauses := s.forgotClauses + 1))
            == Tally(s0, i + 1, kept + [b])
  {
    assert (kept + [b])[..|kept|] == kept;
  }

  /** The offsets of the metadata entries. */
  function PtsOf(order: seq<CInfo>, n: nat): set<nat>
    requires n <= |order|
  {
    set j | 0 <= j < n :: order[j].pt
  }

  /** The new metadata after the first `n` entries: one entry per kept clause that was not added,
      at its new offset, its recent-use counter one less. */
  function Renew(order: seq<CInfo>, kept: seq<bool>, fw: map<nat, nat>, n: nat): seq<CInfo>
    requires n <= |order| && n <= |kept| && forall j :: 0 <= j < n ==> order[j].pt in fw
  {
    if n == 0 then []
    else
      var e := order[n - 1];
      Renew(order, kept, fw, n - 1) + if kept[n - 1] && e.glue != -1 then [CInfo(fw[e.pt], e.glue, e.used - 1, e.totalUsed)] else []
  }

  lemma {:induction false} RenewFrame(order: seq<CInfo>, kept: seq<bool>, fw: map<nat, nat>, kept': seq<bool>, fw': map<nat, nat>, n: nat)
    requires n <= |order| && n <= |kept| && n <= |kept'| && kept[..n] == kept'[..n]
    requires forall j :: 0 <= j < n ==> order[j].pt in fw && order[j].pt in fw' && fw[order[j].pt] == fw'[order[j].pt]
    ensures Renew(order, kept, fw, n) == Renew(order, kept', fw', n)
  {
    if n > 0 {
      assert kept[n - 1] == kept[..n][n - 1] == kept'[..n][n - 1] == kept'[n - 1];
      assert kept[..n - 1] == kept[..n][..n - 1] && kept'[..n - 1] == kept'[..n][..n - 1];
      RenewFrame(order, kept, fw, kept', fw', n - 1);
    }
  }

  /** Where an offset of the old arena goes: the original region stays, a learned clause follows
      the forwarding map (0 once forgotten). */
  function Redirect(fw: map<nat, nat>, prevOrig: nat, p: nat): nat {
    if p < prevOrig || p !in fw then p else fw[p]
  }

  /** A watch record after the rebuild: kept as it is in the original region, re-pointed for a
      moved clause, gone for a forgotten one. */
  function RemapWatch(w: Watch, prevOrig: nat, fw: map<nat, nat>): seq<Watch> {
    if w.cls < prevOrig then [w]
    else if Redirect(fw, prevOrig, w.cls) == 0 then []
    else [w.(cls := Redirect(fw, prevOrig, w.cls))]
  }

  /** A watch list after the rebuild, in its order. */
  function RemapList(ws: seq<Watch>, prevOrig: nat, fw: map<nat, nat>): seq<Watch> {
    if ws == [] then [] else RemapList(ws[..|ws| - 1], prevOrig, fw) + RemapWatch(ws[|ws| - 1], prevOrig, fw)
  }

  /** The new arena `nc` against the old `c0`: the original region is copied, every learned
      clause of `c0` has an entry in `fw`, and every entry other than 0 starts a clause of `nc`
      with the same literals. */
  ghost predicate Forwards(c0: seq<nat>, prevOrig: nat, nc: seq<nat>, fw: map<nat, nat>) {
    && 1 <= prevOrig <= |c0| && c0[prevOrig - 1] == 0 && prevOrig <= |nc| && nc[..prevOrig] == c0[..prevOrig]
    && nc[|nc| - 1] == 0
    && (forall p :: prevOrig <= p && HeadIn(c0, p) ==> p in fw)
    && (forall p :: p in fw && fw[p] != 0 ==> StartIn(nc, fw[p]) && multiset(ClauseAt(nc, fw[p])) == multiset(ClauseAt(c0, p)))
  }

  /** A clause of the old arena is, after redirection, a clause of the new one or 0. */
  lemma RedirectStart(c0: seq<nat>, prevOrig: nat, nc: seq<nat>, fw: map<nat, nat>, p: nat)
    requires Forwards(c0, prevOrig, nc, fw) && StartIn(c0, p)
    ensures Redirect(fw, prevOrig, p) == 0 || StartIn(nc, Redirect(fw, prevOrig, p))
    ensures p < prevOrig ==> Redirect(fw, prevOrig, p) == p && StartIn(nc, p)
  {
    if p < prevOrig {
      assert p + 1 != prevOrig - 1;
      assert nc[p - 1] == nc[..prevOrig][p - 1] && nc[p] == nc[..prevOrig][p] && nc[p + 1] == nc[..prevOrig][p + 1];
    }
  }

  /** The first two literals of a clause, and whether there are no more. */
  lemma ClauseTwo(c: seq<nat>, p: nat)
    requires StartIn(c, p) && p + 2 < |c|
    ensures |ClauseAt(c, p)| >= 2 && ClauseAt(c, p)[0] == c[p] && ClauseAt(c, p)[1] == c[p + 1]
    ensures c[p + 2] == 0 <==> |ClauseAt(c, p)| == 2
  {
    ClauseAtStep(c, p);
    ClauseAtStep(c, p + 1);
  }

  /** Two literals that make the same multiset as two others are those two, in some order. */
  lemma PairOfMultiset(a: nat, b: nat, x: nat, y: nat)
    requires multiset{a, b} == multiset{x, y}
    ensures (a == x && b == y) || (a == y && b == x)
  {
    assert x in multiset{a, b};
    if x == a {
      assert multiset{b} == multiset{a, b} - multiset{a} == multiset{x, y} - multiset{x} == multiset{y};
      assert y in multiset{b};
    } else {
      assert multiset{a} == multiset{a, b} - multiset{b} == multiset{x, y} - multiset{x} == multiset{y};
      assert y in multiset{a};
    }
  }

  /** A watch record, re-pointed, is a watch record of the new arena. */
  lemma RemapWatchIn(c0: seq<nat>, prevOrig: nat, nc: seq<nat>, fw: map<nat, nat>, vars: nat, l: nat, w: Watch)
    requires Forwards(c0, prevOrig, nc, fw) && WatchIn(c0, vars, l, w)
    ensures ListIn(nc, vars, l, RemapWatch(w, prevOrig, fw))
  {
    RedirectStart(c0, prevOrig, nc, fw, w.cls);
    if w.cls < prevOrig {
      OrigWatchIn(c0, prevOrig, nc, fw, vars, l, w);
    } else if Redirect(fw, prevOrig, w.cls) != 0 {
      MovedWatchIn(c0, nc, vars, l, w, fw[w.cls]);
    }
  }

  /** A record of a clause of the original region, which the new arena copies. */
  lemma OrigWatchIn(c0: seq<nat>, prevOrig: nat, nc: seq<nat>, fw: map<nat, nat>, vars: nat, l: nat, w: Watch)
    requires Forwards(c0, prevOrig, nc, fw) && WatchIn(c0, vars, l, w) && w.cls < prevOrig
    ensures WatchIn(nc, vars, l, w)
  {
    var p := w.cls;
    assert p + 2 < prevOrig;
    assert nc[p - 1] == nc[..prevOrig][p - 1] && nc[p] == nc[..prevOrig][p];
    assert nc[p + 1] == nc[..prevOrig][p + 1] && nc[p + 2] == nc[..prevOrig][p + 2];
  }

  /** A record of a clause moved to `q` with the same literals. */
  lemma MovedWatchIn(c0: seq<nat>, nc: seq<nat>, vars: nat, l: nat, w: Watch, q: nat)
    requires WatchIn(c0, vars, l, w) && StartIn(nc, q) && nc[|nc| - 1] == 0
    requires multiset(ClauseAt(nc, q)) == multiset(ClauseAt(c0, w.cls))
    ensures WatchIn(nc, vars, l, w.(cls := q))
  {
    var p := w.cls;
    ClauseTwo(c0, p);
    ClauseTwo(nc, q);
    var cl, ncl := ClauseAt(c0, p), ClauseAt(nc, q);
    assert |ncl| == |multiset(ncl)| == |multiset(cl)| == |cl|;
    if w.size == 2 {
      PairOfTwo(ncl);
      PairOfTwo(cl);
      PairOfMultiset(nc[q], nc[q + 1], c0[p], c0[p + 1]);
    }
  }

  /** The multiset of a sequence of two. */
  lemma PairOfTwo(cl: seq<nat>)
    requires |cl| == 2
    ensures multiset(cl) == multiset{cl[0], cl[1]}
  {
    assert cl == [cl[0], cl[1]];
  }

  lemma {:induction false} RemapListIn(c0: seq<nat>, prevOrig: nat, nc: seq<nat>, fw: map<nat, nat>, vars: nat, l: nat, ws: seq<Watch>)
    requires Forwards(c0, prevOrig, nc, fw) && ListIn(c0, vars, l, ws)
    ensures ListIn(nc, vars, l, RemapList(ws, prevOrig, fw))
    decreases |ws|
  {
    if ws != [] {
      var w := ws[|ws| - 1];
      assert WatchIn(c0, vars, l, w);
      var pre := ws[..|ws| - 1];
      assert ListIn(c0, vars, l, pre) by {
        forall k | 0 <= k < |pre| ensures WatchIn(c0, vars, l, pre[k]) { assert pre[k] == ws[k]; }
      }
      RemapListIn(c0, prevOrig, nc, fw, vars, l, ws[..|ws| - 1]);
      RemapWatchIn(c0, prevOrig, nc, fw, vars, l, w);
      ListInAppend(nc, vars, l, RemapList(ws[..|ws| - 1], prevOrig, fw), RemapWatch(w, prevOrig, fw));
    }
  }

  /** A reason, redirected, is 0 or a clause of the new arena. */
  lemma RedirectStartOr0(c0: seq<nat>, prevOrig: nat, nc: seq<nat>, fw: map<nat, nat>, r: nat)
    requires Forwards(c0, prevOrig, nc, fw) && (r == 0 || StartIn(c0, r))
    ensures Redirect(fw, prevOrig, r) == 0 || StartIn(nc, Redirect(fw, prevOrig, r))
  {
    if r != 0 {
      RedirectStart(c0, prevOrig, nc, fw, r);
    }
  }

  /** After the last entry, the new arena and the forwarding map are as `Forwards` says. */
  lemma RebuiltForwards(c0: seq<nat>, vss: seq<VarState>, lv: seq<int>, vars: nat, order: seq<CInfo>, prevOrig: nat,
                        orig: nat, nc: seq<nat>, ni: seq<CInfo>, fw: map<nat, nat>, kept: seq<bool>)
    requires RebuiltUpTo(c0, vss, lv, vars, order, prevOrig, |order|, orig, nc, ni, fw, kept)
    requires OrderIn(c0, prevOrig, order) && prevOrig <= |c0| && c0[prevOrig - 1] == 0
    ensures Forwards(c0, prevOrig, nc, fw)
  {
    forall p | p in fw && fw[p] != 0
      ensures StartIn(nc, fw[p]) && multiset(ClauseAt(nc, fw[p])) == multiset(ClauseAt(c0, p))
    {
      var j :| 0 <= j < |order| && order[j].pt == p;
      assert kept[j];
    }
  }

  /** The sorted metadata of valid metadata: entries of learned clauses at distinct offsets,
      covering every learned clause. */
  ghost predicate OrderIn(c: seq<nat>, orig: nat, order: seq<CInfo>) {
    && (forall j :: 0 <= j < |order| ==> StartIn(c, order[j].pt) && order[j].pt >= orig && order[j].glue >= -1)
    && (forall j, k :: 0 <= j < k < |order| ==> order[j].pt != order[k].pt)
    && (forall p :: orig <= p && HeadIn(c, p) ==> p in PtsOf(order, |order|))
  }

  lemma PermutedInfo(c: seq<nat>, orig: nat, ci: seq<CInfo>, order: seq<CInfo>)
    requires InfoIn(c, orig, ci) && multiset(order) == multiset(ci)
    ensures OrderIn(c, orig, order)
  {
    forall j | 0 <= j < |order|
      ensures StartIn(c, order[j].pt) && order[j].pt >= orig && order[j].glue >= -1
    {
      assert order[j] in multiset(ci);
      var a :| 0 <= a < |ci| && ci[a] == order[j];
    }
    forall j, k | 0 <= j < k < |order|
      ensures order[j].pt != order[k].pt
    {
      DistinctPts(ci, order, j, k);
    }
    forall p | orig <= p && HeadIn(c, p)
      ensures p in PtsOf(order, |order|)
    {
      assert p in Pts(ci);
      var k :| 0 <= k < |ci| && ci[k].pt == p;
      assert ci[k] in multiset(order);
      var j :| 0 <= j < |order| && order[j] == ci[k];
    }
  }

  /** A permutation of metadata with strictly increasing offsets has distinct offsets. */
  lemma DistinctPts(ci: seq<CInfo>, order: seq<CInfo>, j: nat, k: nat)
    requires (forall a, b :: 0 <= a < b < |ci| ==> ci[a].pt < ci[b].pt) && multiset(order) == multiset(ci)
    requires j < k < |order|
    ensures order[j].pt != order[k].pt
  {
    assert order[j] in multiset(ci) && order[k] in multiset(ci);
    var a :| 0 <= a < |ci| && ci[a] == order[j];
    var b :| 0 <= b < |ci| && ci[b] == order[k];
    if order[j].pt == order[k].pt {
      assert a == b;
      TwoCopies(order, j, k);
      OneCopy(ci, a);
      assert false;
    }
  }

  lemma TwoCopies<T>(s: seq<T>, j: nat, k: nat)
    requires j < k < |s| && s[j] == s[k]
    ensures multiset(s)[s[j]] >= 2
  {
    assert s == s[..j] + [s[j]] + s[j + 1..k] + [s[k]] + s[k + 1..];
  }

  lemma OneCopy(ci: seq<CInfo>, a: nat)
    requires (forall x, y :: 0 <= x < y < |ci| ==> ci[x].pt < ci[y].pt) && a < |ci|
    ensures multiset(ci)[ci[a]] == 1
  {
    var pre, suf := ci[..a], ci[a + 1..];
    assert ci == pre + [ci[a]] + suf;
    assert ci[a] !in pre by {
      forall t | 0 <= t < |pre| ensures pre[t] != ci[a] { assert pre[t].pt == ci[t].pt < ci[a].pt; }
    }
    assert ci[a] !in suf by {
      forall t | 0 <= t < |suf| ensures suf[t] != ci[a] { assert suf[t].pt == ci[a + 1 + t].pt > ci[a].pt; }
    }
  }

  /** In the sorted order, the entries of added clauses (glue -1) come first. */
  lemma AddedFirst(order: seq<CInfo>, i: nat, j: nat)
    requires SortedBy(order, InfoOrder) && i < j < |order| && order[j].glue == -1
    ensures order[i].glue == -1
  {
    assert KeyLe(InfoOrder(order[i]), InfoOrder(order[j]));
  }

  /** The state of the rebuild loop after the first `i` sorted entries: the new arena `nc` copies
      the original region and ends with a terminator at the new original size `orig` and at its
      end; `ni` describes it; `fw` maps the offsets seen so far to where their clause went
      (0 when forgotten); `kept` records the decisions, and a kept clause sits at its new offset,
      oriented. */
  ghost predicate RebuiltUpTo(c0: seq<nat>, vss: seq<VarState>, lv: seq<int>, vars: nat, order: seq<CInfo>,
                              prevOrig: nat, i: nat, orig: nat, nc: seq<nat>, ni: seq<CInfo>, fw: map<nat, nat>,
                              kept: seq<bool>) {
    && i <= |order| && |kept| == i
    && NewArena(c0, vars, prevOrig, orig, nc)
    && NewInfo(order, i, orig, nc, ni)
    && Decided(c0, vss, lv, order, i, fw, kept)
    && Placed(c0, vss, order, i, nc, fw, kept)
    && ni == Renew(order, kept, fw, i)
  }

  /** The new arena so far: the original region of `c0`, a terminator at the end of the new
      original region and at the end, literals of the problem in between. */
  ghost predicate NewArena(c0: seq<nat>, vars: nat, prevOrig: nat, orig: nat, nc: seq<nat>) {
    && 1 <= prevOrig <= orig <= |nc| && prevOrig <= |c0| && nc[..prevOrig] == c0[..prevOrig]
    && nc[orig - 1] == 0 && nc[|nc| - 1] == 0 && LitsIn(nc, vars)
  }

  /** The new metadata describes the new arena, and once it is not empty no added clause is left. */
  ghost predicate NewInfo(order: seq<CInfo>, i: nat, orig: nat, nc: seq<nat>, ni: seq<CInfo>) {
    && InfoIn(nc, orig, ni)
    && (ni != [] ==> forall j :: i <= j < |order| ==> order[j].glue != -1)
  }

  /** The decisions so far, and where they sent each offset. */
  ghost predicate Decided(c0: seq<nat>, vss: seq<VarState>, lv: seq<int>, order: seq<CInfo>, i: nat,
                          fw: map<nat, nat>, kept: seq<bool>) {
    && i <= |order| && |kept| == i
    && fw.Keys == PtsOf(order, i)
    && (forall j :: 0 <= j < i ==> kept[j] == !Forgotten(c0, vss, lv, order, j))
    && (forall j :: 0 <= j < i ==> order[j].pt in fw && (kept[j] <==> fw[order[j].pt] != 0))
  }

  /** Each kept clause sits at its new offset, oriented. */
  ghost predicate Placed(c0: seq<nat>, vss: seq<VarState>, order: seq<CInfo>, i: nat, nc: seq<nat>,
                         fw: map<nat, nat>, kept: seq<bool>) {
    && i <= |order| && |kept| == i
    && forall j :: 0 <= j < i && kept[j] ==>
         (order[j].pt in fw && StartIn(nc, fw[order[j].pt]) && ClauseAt(nc, fw[order[j].pt]) == Oriented(c0, vss, order[j].pt))
  }

  /** An offset not seen before. */
  lemma FreshPt(c0: seq<nat>, prevOrig: nat, order: seq<CInfo>, i: nat)
    requires OrderIn(c0, prevOrig, order) && i < |order|
    ensures order[i].pt !in PtsOf(order, i)
  {
    forall j | 0 <= j < i
      ensures order[j].pt != order[i].pt
    {
    }
  }

  /** Extending an arena that ends with a terminator leaves its clauses as they were. */
  lemma {:induction false} ClauseAtPrefix(c: seq<nat>, d: seq<nat>, p: nat)
    requires c <= d && p < |c| && c[|c| - 1] == 0
    ensures ClauseAt(d, p) == ClauseAt(c, p)
    decreases |c| - p
  {
    if c[p] != 0 {
      assert p + 1 < |c|;
      ClauseAtPrefix(c, d, p + 1);
    }
  }


  /** Every slot of the arena is a terminator or a literal of the problem. */
  ghost predicate LitsIn(c: seq<nat>, vars: nat) {
    forall k :: 0 <= k < |c| ==> c[k] == 0 || ValidLit(c[k], vars)
  }

  /** A forgotten entry: its offset maps to 0 and nothing else changes. */
  lemma DropStep(c0: seq<nat>, vss: seq<VarState>, lv: seq<int>, vars: nat, order: seq<CInfo>, prevOrig: nat,
                 i: nat, orig: nat, nc: seq<nat>, ni: seq<CInfo>, fw: map<nat, nat>, kept: seq<bool>)
    requires RebuiltUpTo(c0, vss, lv, vars, order, prevOrig, i, orig, nc, ni, fw, kept)
    requires i < |order| && OrderIn(c0, prevOrig, order) && Forgotten(c0, vss, lv, order, i)
    ensures RebuiltUpTo(c0, vss, lv, vars, order, prevOrig, i + 1, orig, nc, ni, fw[order[i].pt := 0], kept + [false])
  {
    var pt := order[i].pt;
    var fw', kept' := fw[pt := 0], kept + [false];
    FreshPt(c0, prevOrig, order, i);
    DecideStep(c0, vss, lv, order, i, fw, kept, 0, false);
    PlacedStep(c0, vss, order, i, nc, nc, fw, kept, 0, false);
    RenewFrame(order, kept, fw, kept', fw', i);
  }

  /** The decision on entry `i` recorded: `kept` grows by it and `fw` sends the offset to `to`. */
  lemma DecideStep(c0: seq<nat>, vss: seq<VarState>, lv: seq<int>, order: seq<CInfo>, i: nat,
                   fw: map<nat, nat>, kept: seq<bool>, to: nat, keep: bool)
    requires Decided(c0, vss, lv, order, i, fw, kept) && i < |order| && order[i].pt !in PtsOf(order, i)
    requires keep == !Forgotten(c0, vss, lv, order, i) && (keep <==> to != 0)
    ensures Decided(c0, vss, lv, order, i + 1, fw[order[i].pt := to], kept + [keep])
    ensures (kept + [keep])[..i] == kept[..i]
    ensures forall j :: 0 <= j < i ==> fw[order[i].pt := to][order[j].pt] == fw[order[j].pt]
  {
    assert fw[order[i].pt := to].Keys == PtsOf(order, i + 1);
  }

  /** The kept clauses stay where they were when the arena grows, and a new one sits at `to`. */
  lemma PlacedStep(c0: seq<nat>, vss: seq<VarState>, order: seq<CInfo>, i: nat, nc: seq<nat>, nc': seq<nat>,
                   fw: map<nat, nat>, kept: seq<bool>, to: nat, keep: bool)
    requires Placed(c0, vss, order, i, nc, fw, kept) && i < |order| && order[i].pt !in PtsOf(order, i)
    requires nc <= nc' && |nc| >= 1 && nc[|nc| - 1] == 0
    requires keep ==> StartIn(nc', to) && ClauseAt(nc', to) == Oriented(c0, vss, order[i].pt)
    ensures Placed(c0, vss, order, i + 1, nc', fw[order[i].pt := to], kept + [keep])
  {
    var fw', kept' := fw[order[i].pt := to], kept + [keep];
    forall j | 0 <= j < i + 1 && kept'[j]
      ensures order[j].pt in fw' && StartIn(nc', fw'[order[j].pt]) && ClauseAt(nc', fw'[order[j].pt]) == Oriented(c0, vss, order[j].pt)
    {
      if j < i {
        assert kept[j] && order[j].pt != order[i].pt;
        ShapeKeepsStart(nc, nc', fw[order[j].pt]);
        ClauseAtPrefix(nc, nc', fw[order[j].pt]);
      }
    }
  }

  /** A kept entry: its clause, oriented, is appended at the end of the new arena. An added
      clause extends the original region; any other gets a new metadata entry. */
  lemma KeepStep(c0: seq<nat>, vss: seq<VarState>, lv: seq<int>, vars: nat, order: seq<CInfo>, prevOrig: nat,
                 i: nat, orig: nat, nc: seq<nat>, ni: seq<CInfo>, fw: map<nat, nat>, kept: seq<bool>)
    requires RebuiltUpTo(c0, vss, lv, vars, order, prevOrig, i, orig, nc, ni, fw, kept)
    requires i < |order| && OrderIn(c0, prevOrig, order) && SortedBy(order, InfoOrder) && LitsIn(c0, vars)
    requires !Forgotten(c0, vss, lv, order, i)
    ensures var e, nc' := order[i], nc + Oriented(c0, vss, order[i].pt) + [0];
            RebuiltUpTo(c0, vss, lv, vars, order, prevOrig, i + 1, if e.glue == -1 then |nc'| else orig, nc',
                        if e.glue == -1 then ni else ni + [CInfo(|nc|, e.glue, e.used - 1, e.totalUsed)],
                        fw[e.pt := |nc|], kept + [true])
  {
    var e := order[i];
    var cl := Oriented(c0, vss, e.pt);
    var nc' := nc + cl + [0];
    var fw', kept' := fw[e.pt := |nc|], kept + [true];
    var orig' := if e.glue == -1 then |nc'| else orig;
    var ni' := if e.glue == -1 then ni else ni + [CInfo(|nc|, e.glue, e.used - 1, e.totalUsed)];
    KeepArena(c0, vss, vars, e.pt, nc);
    FreshPt(c0, prevOrig, order, i);
    DecideStep(c0, vss, lv, order, i, fw, kept, |nc|, true);
    PlacedStep(c0, vss, order, i, nc, nc', fw, kept, |nc|, true);
    RenewFrame(order, kept, fw, kept', fw', i);
    ArenaStep(c0, vars, prevOrig, orig, nc, cl, e.glue == -1);
    InfoStep(order, i, orig, nc, ni, cl);
  }

  lemma ArenaStep(c0: seq<nat>, vars: nat, prevOrig: nat, orig: nat, nc: seq<nat>, cl: seq<nat>, added: bool)
    requires NewArena(c0, vars, prevOrig, orig, nc) && LitsIn(nc + cl + [0], vars)
    ensures NewArena(c0, vars, prevOrig, if added then |nc + cl + [0]| else orig, nc + cl + [0])
  {
    var nc' := nc + cl + [0];
    assert nc'[..prevOrig] == nc[..prevOrig];
    assert nc'[orig - 1] == nc[orig - 1];
  }

  lemma InfoStep(order: seq<CInfo>, i: nat, orig: nat, nc: seq<nat>, ni: seq<CInfo>, cl: seq<nat>)
    requires NewInfo(order, i, orig, nc, ni) && i < |order| && SortedBy(order, InfoOrder) && order[i].glue >= -1
    requires 1 <= orig <= |nc| && nc[|nc| - 1] == 0
    requires |cl| >= 2 && forall k :: 0 <= k < |cl| ==> cl[k] != 0
    ensures var e, nc' := order[i], nc + cl + [0];
            NewInfo(order, i + 1, if e.glue == -1 then |nc'| else orig, nc',
                    if e.glue == -1 then ni else ni + [CInfo(|nc|, e.glue, e.used - 1, e.totalUsed)])
  {
    if order[i].glue == -1 {
      InfoStepAdded(order, i, orig, nc, ni, cl);
    } else {
      InfoStepLearnt(order, i, orig, nc, ni, cl);
    }
  }

  /** An added clause comes while the new metadata is still empty; it ends the original region. */
  lemma InfoStepAdded(order: seq<CInfo>, i: nat, orig: nat, nc: seq<nat>, ni: seq<CInfo>, cl: seq<nat>)
    requires NewInfo(order, i, orig, nc, ni) && i < |order| && order[i].glue == -1
    ensures ni == [] && NewInfo(order, i + 1, |nc + cl + [0]|, nc + cl + [0], ni)
  {
    var nc' := nc + cl + [0];
    assert InfoIn(nc', |nc'|, []);
  }

  lemma InfoStepLearnt(order: seq<CInfo>, i: nat, orig: nat, nc: seq<nat>, ni: seq<CInfo>, cl: seq<nat>)
    requires NewInfo(order, i, orig, nc, ni) && i < |order| && SortedBy(order, InfoOrder) && order[i].glue >= 0
    requires 1 <= orig <= |nc| && nc[|nc| - 1] == 0
    requires |cl| >= 2 && forall k :: 0 <= k < |cl| ==> cl[k] != 0
    ensures var e := order[i];
            NewInfo(order, i + 1, orig, nc + cl + [0], ni + [CInfo(|nc|, e.glue, e.used - 1, e.totalUsed)])
  {
    var e := order[i];
    AppendInfo(nc, orig, ni, cl, CInfo(|nc|, e.glue, e.used - 1, e.totalUsed));
    forall j | i + 1 <= j < |order|
      ensures order[j].glue != -1
    {
      if order[j].glue == -1 {
        AddedFirst(order, i, j);
      }
    }
  }

  /** The clause appended by `KeepStep`: at least two literals of the problem, then a
      terminator, and it starts where the arena ended. */
  lemma KeepArena(c0: seq<nat>, vss: seq<VarState>, vars: nat, pt: nat, nc: seq<nat>)
    requires StartIn(c0, pt) && LitsIn(c0, vars) && |nc| >= 1 && nc[|nc| - 1] == 0 && LitsIn(nc, vars)
    ensures var cl := Oriented(c0, vss, pt);
            && |cl| >= 2 && (forall k :: 0 <= k < |cl| ==> cl[k] != 0 && ValidLit(cl[k], vars))
            && ClauseAt(nc + cl + [0], |nc|) == cl && StartIn(nc + cl + [0], |nc|) && LitsIn(nc + cl + [0], vars)
  {
    var cl := Oriented(c0, vss, pt);
    OrientedLits(c0, vss, vars, pt);
    AppendedClause(nc, cl);
    AppendLits(nc, cl, vars);
  }

  /** The oriented clause at `pt` has at least two literals, all of the problem. */
  lemma OrientedLits(c0: seq<nat>, vss: seq<VarState>, vars: nat, pt: nat)
    requires StartIn(c0, pt) && LitsIn(c0, vars)
    ensures var cl := Oriented(c0, vss, pt);
            |cl| >= 2 && forall k :: 0 <= k < |cl| ==> cl[k] != 0 && ValidLit(cl[k], vars)
  {
    var raw := ClauseAt(c0, pt);
    var cl := Oriented(c0, vss, pt);
    ClauseAtStep(c0, pt);
    ClauseAtStep(c0, pt + 1);
    assert |raw| >= 2;
    forall j | 0 <= j < |raw|
      ensures raw[j] != 0 && ValidLit(raw[j], vars)
    {
      assert raw[j] == c0[pt + j];
    }
    if ReasonOf(vss, raw[1]) == pt {
      forall k | 0 <= k < |cl|
        ensures cl[k] != 0 && ValidLit(cl[k], vars)
      {
        var j := if k == 0 then 1 else if k == 1 then 0 else k;
        assert cl[k] == raw[j];
      }
    }
  }

  lemma AppendLits(nc: seq<nat>, cl: seq<nat>, vars: nat)
    requires LitsIn(nc, vars) && forall k :: 0 <= k < |cl| ==> ValidLit(cl[k], vars)
    ensures LitsIn(nc + cl + [0], vars)
  {
    var nc' := nc + cl + [0];
    forall k | 0 <= k < |nc'|
      ensures nc'[k] == 0 || ValidLit(nc'[k], vars)
    {
      if k < |nc| { assert nc'[k] == nc[k]; } else if k < |nc| + |cl| { assert nc'[k] == cl[k - |nc|]; }
    }
  }

  /** The verdict on each sorted entry: kept unless `Forgotten`. */
  ghost function Verdicts(c0: seq<nat>, vs0: seq<VarState>, lv: seq<int>, order: seq<CInfo>): (r: seq<bool>)
    ensures |r| == |order|
    ensures forall j :: 0 <= j < |order| ==> r[j] == !Forgotten(c0, vs0, lv, order, j)
  {
    seq(|order|, j requires 0 <= j < |order| => !Forgotten(c0, vs0, lv, order, j))
  }

  /** What `ResizeClauseDb` leaves in the arena `c` with original size `orig`, against the arena
      `c0`, reasons `vs0`, values `lv` and original size `prevOrig` it started from: the original
      region kept, the verdicts `kept`, each forgotten entry's offset sent to 0 and each kept
      clause at its new offset, oriented. */
  ghost predicate Decisions(c0: seq<nat>, vs0: seq<VarState>, lv: seq<int>, prevOrig: nat, order: seq<CInfo>,
                            fw: map<nat, nat>, kept: seq<bool>, c: seq<nat>, orig: nat) {
    && kept == Verdicts(c0, vs0, lv, order) && prevOrig <= orig <= |c| && prevOrig <= |c0|
    && c[..prevOrig] == c0[..prevOrig]
    && (forall j :: 0 <= j < |order| ==> order[j].pt in fw && (kept[j] <==> fw[order[j].pt] != 0))
    && (forall j {:trigger Oriented(c0, vs0, order[j].pt)} :: 0 <= j < |order| && kept[j] ==>
          order[j].pt in fw && ClauseAt(c, fw[order[j].pt]) == Oriented(c0, vs0, order[j].pt))
  }

  lemma RebuiltDecisions(c0: seq<nat>, vss: seq<VarState>, lv: seq<int>, vars: nat, order: seq<CInfo>, prevOrig: nat,
                         orig: nat, nc: seq<nat>, ni: seq<CInfo>, fw: map<nat, nat>, kept: seq<bool>)
    requires RebuiltUpTo(c0, vss, lv, vars, order, prevOrig, |order|, orig, nc, ni, fw, kept)
    ensures Decisions(c0, vss, lv, prevOrig, order, fw, kept, nc, orig)
  {
  }

  /** The rebuilt arena starts and ends with a terminator, as does its original region, and
      the new metadata describes it. */
  lemma RebuiltArena(c0: seq<nat>, vss: seq<VarState>, lv: seq<int>, vars: nat, order: seq<CInfo>, prevOrig: nat,
                     orig: nat, nc: seq<nat>, ni: seq<CInfo>, fw: map<nat, nat>, kept: seq<bool>)
    requires RebuiltUpTo(c0, vss, lv, vars, order, prevOrig, |order|, orig, nc, ni, fw, kept)
    requires |c0| > 0 && c0[0] == 0
    ensures |nc| >= 1 && nc[0] == 0 && nc[|nc| - 1] == 0 && 1 <= orig <= |nc| && nc[orig - 1] == 0
    ensures LitsIn(nc, vars) && InfoIn(nc, orig, ni)
  {
    assert nc[0] == nc[..prevOrig][0];
  }

  /** The variables with every reason but that of the unused slot 0 re-pointed by `Redirect`. */
  function Repoint(vs0: seq<VarState>, prevOrig: nat, fw: map<nat, nat>): (r: seq<VarState>)
    ensures |r| == |vs0| && (|r| > 0 ==> r[0] == vs0[0])
    ensures forall v :: 1 <= v < |r| ==> r[v] == vs0[v].(reason := Redirect(fw, prevOrig, vs0[v].reason))
  {
    seq(|vs0|, v requires 0 <= v < |vs0| => if v == 0 then vs0[0] else vs0[v].(reason := Redirect(fw, prevOrig, vs0[v].reason)))
  }

  /** Every watch list re-pointed by `RemapList`. */
  function RemapAll(w0: seq<seq<Watch>>, prevOrig: nat, fw: map<nat, nat>): (r: seq<seq<Watch>>)
    ensures |r| == |w0| && forall l :: 0 <= l < |w0| ==> r[l] == RemapList(w0[l], prevOrig, fw)
  {
    seq(|w0|, l requires 0 <= l < |w0| => RemapList(w0[l], prevOrig, fw))
  }

  /** One entry of the rebuild placed: a forgotten entry's offset maps to 0; a kept entry's
      clause, oriented, is appended to the new arena, an added clause extending the original
      region and any other getting its metadata entry, its recent use one less. */
  method Place(c0: seq<nat>, vss: seq<VarState>, lv: seq<int>, vars: nat, order: seq<CInfo>, prevOrig: nat,
               i: nat, orig: nat, nc: seq<nat>, ni: seq<CInfo>, fw: map<nat, nat>, ghost kept: seq<bool>, forget: bool)
    returns (nc': seq<nat>, ni': seq<CInfo>, fw': map<nat, nat>, orig': nat)
    requires i < |order| && OrderIn(c0, prevOrig, order) && SortedBy(order, InfoOrder) && LitsIn(c0, vars)
    requires RebuiltUpTo(c0, vss, lv, vars, order, prevOrig, i, orig, nc, ni, fw, kept)
    requires forget == Forgotten(c0, vss, lv, order, i)
    ensures RebuiltUpTo(c0, vss, lv, vars, order, prevOrig, i + 1, orig', nc', ni', fw', kept + [!forget])
  {
    var e := order[i];
    if forget {
      DropStep(c0, vss, lv, vars, order, prevOrig, i, orig, nc, ni, fw, kept);
      nc', ni', fw', orig' := nc, ni, fw[e.pt := 0], orig;
    } else {
      var cl := Oriented(c0, vss, e.pt);
      nc' := nc + cl + [0];
      ni' := if e.glue == -1 then ni else ni + [CInfo(|nc|, e.glue, e.used - 1, e.totalUsed)];
      fw' := fw[e.pt := |nc|];
      orig' := if e.glue == -1 then |nc'| else orig;
      KeepPlaced(c0, vss, lv, vars, order, prevOrig, i, orig, nc, ni, fw, kept, nc', ni', fw', orig');
    }
  }

  /** `KeepStep` with the new state named. */
  lemma KeepPlaced(c0: seq<nat>, vss: seq<VarState>, lv: seq<int>, vars: nat, order: seq<CInfo>, prevOrig: nat,
                   i: nat, orig: nat, nc: seq<nat>, ni: seq<CInfo>, fw: map<nat, nat>, kept: seq<bool>,
                   nc': seq<nat>, ni': seq<CInfo>, fw': map<nat, nat>, orig': nat)
    requires RebuiltUpTo(c0, vss, lv, vars, order, prevOrig, i, orig, nc, ni, fw, kept)
    requires i < |order| && OrderIn(c0, prevOrig, order) && SortedBy(order, InfoOrder) && LitsIn(c0, vars)
    requires !Forgotten(c0, vss, lv, order, i)
    requires nc' == nc + Oriented(c0, vss, order[i].pt) + [0] && fw' == fw[order[i].pt := |nc|]
    requires ni' == if order[i].glue == -1 then ni else ni + [CInfo(|nc|, order[i].glue, order[i].used - 1, order[i].totalUsed)]
    requires orig' == if order[i].glue == -1 then |nc'| else orig
    ensures RebuiltUpTo(c0, vss, lv, vars, order, prevOrig, i + 1, orig', nc', ni', fw', kept + [true])
  {
    KeepStep(c0, vss, lv, vars, order, prevOrig, i, orig, nc, ni, fw, kept);
  }

  /** The loop of `ResizeClauseDb` over the sorted metadata `order`, against the arena `c0`, the
      variables `vss` and the values `lv`: the new arena, the new metadata, where each learned
      clause went, the verdicts, the new original size, the two counters and the statistics. */
  method RebuildDb(c0: seq<nat>, vss: seq<VarState>, lv: seq<int>, vars: nat, order: seq<CInfo>, prevOrig: nat, s0: Stats)
    returns (nc: seq<nat>, ni: seq<CInfo>, fw: map<nat, nat>, ghost kept: seq<bool>, orig: nat, n2: int, nu: int, st: Stats)
    requires OrderIn(c0, prevOrig, order) && SortedBy(order, InfoOrder) && LitsIn(c0, vars)
    requires 1 <= prevOrig <= |c0| && c0[0] == 0 && c0[prevOrig - 1] == 0
    ensures RebuiltUpTo(c0, vss, lv, vars, order, prevOrig, |order|, orig, nc, ni, fw, kept)
    ensures st == Tally(s0, |order|, kept) && n2 == Lbd2Count(order, |order|) && nu == UsedCount(order, |order|)
  {
    nc, ni, fw, kept, orig, n2, nu, st := c0[..prevOrig], [], map[], [], prevOrig, 0, 0, s0;
    assert RebuiltUpTo(c0, vss, lv, vars, order, prevOrig, 0, orig, nc, ni, fw, kept);
    var i := 0;
    while i < |order|
      invariant i <= |order| && RebuiltUpTo(c0, vss, lv, vars, order, prevOrig, i, orig, nc, ni, fw, kept)
      invariant st == Tally(s0, i, kept) && n2 == Lbd2Count(order, i) && nu == UsedCount(order, i)
    {
      nc, ni, fw, kept, orig, n2, nu, st := RebuildStep(c0, vss, lv, vars, order, prevOrig, i, nc, ni, fw, kept, orig, n2, nu, st, s0);
      i := i + 1;
    }
  }

  /** One entry of the rebuild loop: one memory access, the decision (counted when the entry
      is forgotten), then the clause placed in the new arena or dropped. */
  method RebuildStep(c0: seq<nat>, vss: seq<VarState>, lv: seq<int>, vars: nat, order: seq<CInfo>, prevOrig: nat, i: nat,
                     nc: seq<nat>, ni: seq<CInfo>, fw: map<nat, nat>, ghost kept: seq<bool>, orig: nat, n2: int, nu: int,
                     st: Stats, ghost s0: Stats)
    returns (nc': seq<nat>, ni': seq<CInfo>, fw': map<nat, nat>, ghost kept': seq<bool>, orig': nat, n2': int, nu': int, st': Stats)
    requires i < |order| && OrderIn(c0, prevOrig, order) && SortedBy(order, InfoOrder) && LitsIn(c0, vars)
    requires RebuiltUpTo(c0, vss, lv, vars, order, prevOrig, i, orig, nc, ni, fw, kept)
    requires st == Tally(s0, i, kept) && n2 == Lbd2Count(order, i) && nu == UsedCount(order, i)
    ensures RebuiltUpTo(c0, vss, lv, vars, order, prevOrig, i + 1, orig', nc', ni', fw', kept')
    ensures st' == Tally(s0, i + 1, kept') && n2' == Lbd2Count(order, i + 1) && nu' == UsedCount(order, i + 1)
  {
    var forget;
    forget, n2', nu' := Judge(c0, vss, lv, vars, order, i, n2, nu);
    st' := if !forget then st.(mems := st.mems + 1) else st.(mems := st.mems + 1).(forgotClauses := st.forgotClauses + 1);
    TallyStep(s0, st, i, kept, !forget);
    kept' := kept + [!forget];
    nc', ni', fw', orig' := Place(c0, vss, lv, vars, order, prevOrig, i, orig, nc, ni, fw, kept, forget);
  }

  /** The finished rebuild: every learned clause forwarded, the decisions, and the new arena
      and metadata well formed. */
  lemma RebuiltAll(c0: seq<nat>, vss: seq<VarState>, lv: seq<int>, vars: nat, order: seq<CInfo>, prevOrig: nat,
                   orig: nat, nc: seq<nat>, ni: seq<CInfo>, fw: map<nat, nat>, kept: seq<bool>)
    requires RebuiltUpTo(c0, vss, lv, vars, order, prevOrig, |order|, orig, nc, ni, fw, kept)
    requires OrderIn(c0, prevOrig, order) && 1 <= prevOrig <= |c0| && c0[0] == 0 && c0[prevOrig - 1] == 0
    ensures Forwards(c0, prevOrig, nc, fw) && Decisions(c0, vss, lv, prevOrig, order, fw, kept, nc, orig)
    ensures nc[0] == 0 && nc[|nc| - 1] == 0 && nc[orig - 1] == 0 && LitsIn(nc, vars) && InfoIn(nc, orig, ni)
  {
    RebuiltForwards(c0, vss, lv, vars, order, prevOrig, orig, nc, ni, fw, kept);
    RebuiltDecisions(c0, vss, lv, vars, order, prevOrig, orig, nc, ni, fw, kept);
    RebuiltArena(c0, vss, lv, vars, order, prevOrig, orig, nc, ni, fw, kept);
  }

  /** The carry loop of `NextLuby`: while the last two entries are equal they merge into one of
      twice the size, so the sequence for `n - 1` with a 1 pushed becomes the sequence for `n`. */
  method Carry(s: seq<nat>, ghost n: nat) returns (s': seq<nat>)
    requires n >= 1 && s == Bits(n - 1, 1) + [1]
    ensures s' == Bits(n, 1)
  {
    s' := s;
    ghost var y: nat := n - 1;
    ghost var p: nat := 1;
    while |s'| >= 2 && s'[|s'| - 1] == s'[|s'| - 2]
      invariant p > 0 && s' == Bits(y, p) + [p] && Bits(y + 1, p) == Bits(n, 1)
      decreases |s'|
    {
      assert Bits(y, p) == s'[..|s'| - 1];
      CarryStep(y, p);
      var top := s'[|s'| - 1];
      s' := s'[..|s'| - 2] + [2 * top];
      assert s' == Bits(y / 2, 2 * p) + [2 * p];
      y, p := y / 2, 2 * p;
    }
    assert Bits(y, p) == s'[..|s'| - 1];
    CarryDone(y, p);
  }

  /** `ResizeClauseDb` on the values of the arena `c0` with original size `prevOrig`, its metadata
      `ci`, the variables `vs0`, the values `lv`, the watch lists `w0` and the statistics `s0`:
      the metadata sorted, the new arena and metadata, the forwarding map, the verdicts, the new
      original size, the two counters, the statistics, and the re-pointed reasons and watches. */
  method ResizeDb(c0: seq<nat>, vs0: seq<VarState>, lv: seq<int>, vars: nat, ci: seq<CInfo>, prevOrig: nat,
                  w0: seq<seq<Watch>>, s0: Stats)
    returns (order: seq<CInfo>, nc: seq<nat>, ni: seq<CInfo>, fw: map<nat, nat>, ghost kept: seq<bool>, orig: nat,
             n2: int, nu: int, st: Stats, vs': seq<VarState>, ws': seq<seq<Watch>>)
    requires InfoIn(c0, prevOrig, ci) && LitsIn(c0, vars) && 1 <= prevOrig <= |c0| && c0[0] == 0 && c0[prevOrig - 1] == 0
    requires ReasonsIn(c0, vs0) && |w0| >= 2 && w0[0] == [] && w0[1] == [] && WatchesIn(c0, vars, w0)
    requires PhasesIn(vs0)
    ensures |vs'| == |vs0| && PhasesIn(vs')
    ensures multiset(order) == multiset(ci) && SortedBy(order, InfoOrder)
    ensures Decisions(c0, vs0, lv, prevOrig, order, fw, kept, nc, orig)
    ensures vs' == Repoint(vs0, prevOrig, fw) && ws' == RemapAll(w0, prevOrig, fw)
    ensures ni == Renew(order, kept, fw, |order|)
    ensures st == Tally(s0, |order|, kept) && n2 == Lbd2Count(order, |order|) && nu == UsedCount(order, |order|)
    ensures |nc| >= 1 && nc[0] == 0 && nc[|nc| - 1] == 0 && 1 <= orig <= |nc| && nc[orig - 1] == 0
    ensures LitsIn(nc, vars) && InfoIn(nc, orig, ni)
    ensures ReasonsIn(nc, vs') && |ws'| == |w0| && ws'[0] == [] && ws'[1] == [] && WatchesIn(nc, vars, ws')
  {
    order := Sort(ci, InfoOrder);
    PermutedInfo(c0, prevOrig, ci, order);
    nc, ni, fw, kept, orig, n2, nu, st := RebuildDb(c0, vs0, lv, vars, order, prevOrig, s0);
    RebuiltAll(c0, vs0, lv, vars, order, prevOrig, orig, nc, ni, fw, kept);
    vs' := RepointAll(c0, vs0, prevOrig, nc, fw);
    ws' := RemapAllLists(c0, vars, w0, prevOrig, nc, fw);
    RepointPhases(vs0, prevOrig, fw);
  }

  /** Re-pointing reasons keeps the saved phases. */
  lemma RepointPhases(vs0: seq<VarState>, prevOrig: nat, fw: map<nat, nat>)
    requires PhasesIn(vs0)
    ensures PhasesIn(Repoint(vs0, prevOrig, fw))
  {
    var r := Repoint(vs0, prevOrig, fw);
    forall v | 0 <= v < |r|
      ensures r[v].phase == 0 || r[v].phase == 1
    {
      assert r[v].phase == vs0[v].phase;
    }
  }

  /** The decision on entry `i` and the counters of glue 2 or less and of used clauses: a
      binary clause whose second literal is implied by it is turned first, the implied literal
      is read off, and the clause is scanned for a literal true at level 1. */
  method Judge(c0: seq<nat>, vss: seq<VarState>, lv: seq<int>, vars: nat, order: seq<CInfo>, i: nat, n2: int, nu: int)
    returns (forget: bool, n2': int, nu': int)
    requires i < |order| && StartIn(c0, order[i].pt) && LitsIn(c0, vars)
    requires n2 == Lbd2Count(order, i) && nu == UsedCount(order, i)
    ensures n2' == Lbd2Count(order, i + 1) && nu' == UsedCount(order, i + 1)
    ensures forget == Forgotten(c0, vss, lv, order, i)
  {
    var e := order[i];
    var pt := e.pt;
    OrientedLits(c0, vss, vars, pt);
    var cl := ClauseAt(c0, pt);
    if ReasonOf(vss, cl[1]) == pt {
      cl := [cl[1], cl[0]] + cl[2..];
    }
    assert cl == Oriented(c0, vss, pt);
    var impll := if ReasonOf(vss, cl[0]) == pt then cl[0] else 0;
    var added := e.glue == -1;
    var frozen := ScanClause(c0, vss, lv, pt);
    n2', nu' := n2, nu;
    if e.glue <= 2 {
      n2' := n2 + 1;
    } else if e.used != 0 {
      nu' := nu + 1;
    }
    forget := frozen || (impll == 0 && !added && !Keep(e) && i > 10000 + n2');
  }

  /** One more literal of the clause at `pt` scanned. */
  lemma ScanAdvance(c0: seq<nat>, vss: seq<VarState>, lv: seq<int>, pt: nat, len: nat)
    requires pt + len < |c0| && c0[pt + len] != 0 && ClauseAt(c0, pt) == c0[pt..pt + len] + ClauseAt(c0, pt + len)
    ensures ClauseAt(c0, pt) == c0[pt..pt + len + 1] + ClauseAt(c0, pt + len + 1)
    ensures FrozenSat(lv, vss, c0[pt..pt + len + 1]) <==>
              FrozenSat(lv, vss, c0[pt..pt + len]) || (Value(lv, c0[pt + len]) == 1 && LevelIn(vss, c0[pt + len]) == 1)
  {
    FrozenSnoc(lv, vss, c0[pt..pt + len], c0[pt + len]);
    assert c0[pt..pt + len + 1] == c0[pt..pt + len] + [c0[pt + len]];
    ClauseAtAdvance(c0, pt, pt + len);
  }

  /** The scan of the clause at `pt` to its terminator: whether a literal of it is true with
      its variable assigned at level 1. */
  method ScanClause(c0: seq<nat>, vss: seq<VarState>, lv: seq<int>, pt: nat) returns (frozen: bool)
    requires 1 <= pt <= |c0|
    ensures frozen == FrozenSat(lv, vss, ClauseAt(c0, pt))
  {
    var len := 0;
    frozen := false;
    while At(c0, pt + len) != 0
      invariant pt + len <= |c0|
      invariant ClauseAt(c0, pt) == c0[pt..pt + len] + ClauseAt(c0, pt + len)
      invariant frozen == FrozenSat(lv, vss, c0[pt..pt + len])
      decreases |c0| - (pt + len)
    {
      var l := c0[pt + len];
      if !frozen && Value(lv, l) == 1 && LevelIn(vss, l) == 1 {
        frozen := true;
      }
      ScanAdvance(c0, vss, lv, pt, len);
      len := len + 1;
    }
    assert ClauseAt(c0, pt + len) == [];
    assert c0[pt..pt + len] == ClauseAt(c0, pt);
  }

  /** The reasons of variables 1 on re-pointed into the new arena `nc` (`Redirect`). */
  method RepointAll(c0: seq<nat>, vss: seq<VarState>, prevOrig: nat, nc: seq<nat>, fw: map<nat, nat>)
    returns (vss': seq<VarState>)
    requires ReasonsIn(c0, vss) && Forwards(c0, prevOrig, nc, fw)
    ensures vss' == Repoint(vss, prevOrig, fw) && ReasonsIn(nc, vss')
  {
    vss' := vss;
    var v := 1;
    while v < |vss'|
      invariant 1 <= v && |vss'| == |vss| && (|vss| > 0 ==> vss'[0] == vss[0])
      invariant forall u :: 1 <= u < |vss| && u < v ==> vss'[u] == vss[u].(reason := Redirect(fw, prevOrig, vss[u].reason))
      invariant forall u :: v <= u < |vss| ==> vss'[u] == vss[u]
      invariant forall u :: 1 <= u < |vss| && u < v ==> vss'[u].reason == 0 || StartIn(nc, vss'[u].reason)
    {
      RedirectStartOr0(c0, prevOrig, nc, fw, vss[v].reason);
      vss' := vss'[v := vss'[v].(reason := Redirect(fw, prevOrig, vss'[v].reason))];
      v := v + 1;
    }
  }

  /** The watch lists of literals 2 on re-pointed into the new arena `nc`, list by list
      (`RemapList`); lists 0 and 1 are empty. */
  method RemapAllLists(c0: seq<nat>, vars: nat, w: seq<seq<Watch>>, prevOrig: nat, nc: seq<nat>, fw: map<nat, nat>)
    returns (w': seq<seq<Watch>>)
    requires |w| >= 2 && w[0] == [] && w[1] == [] && WatchesIn(c0, vars, w) && Forwards(c0, prevOrig, nc, fw)
    ensures w' == RemapAll(w, prevOrig, fw) && WatchesIn(nc, vars, w')
  {
    w' := w;
    var l := 2;
    while l < |w|
      invariant 2 <= l <= |w| && |w'| == |w| && w'[0] == [] && w'[1] == []
      invariant forall k :: 2 <= k < l ==> w'[k] == RemapList(w[k], prevOrig, fw)
      invariant forall k :: l <= k < |w| ==> w'[k] == w[k]
      invariant forall k :: 0 <= k < l ==> ListIn(nc, vars, k, w'[k])
    {
      RemapListIn(c0, prevOrig, nc, fw, vars, l, w[l]);
      var ws := RemapOneList(w[l], prevOrig, fw);
      w' := w'[l := ws];
      l := l + 1;
    }
  }

  /** One watch list re-pointed in order: a record of the original region stays, one of a
      moved clause follows it, one of a forgotten clause is dropped. */
  method RemapOneList(ws: seq<Watch>, prevOrig: nat, fw: map<nat, nat>) returns (out: seq<Watch>)
    ensures out == RemapList(ws, prevOrig, fw)
  {
    out := [];
    var i := 0;
    while i < |ws|
      invariant i <= |ws| && out == RemapList(ws[..i], prevOrig, fw)
    {
      var w := ws[i];
      if w.cls >= prevOrig {
        var to := Redirect(fw, prevOrig, w.cls);
        if to != 0 {
          out := out + [w.(cls := to)];
        }
      } else {
        out := out + [w];
      }
      assert ws[..i + 1][..i] == ws[..i];
      i := i + 1;
    }
    assert ws[..i] == ws;
  }

  class Oracle {
    const vars: nat
    /** Number of internal nodes plus one: leaves of the activity tree start at `heapN`. */
    const heapN: nat
    /** The activity added by `BumpVar`. */
    const varInc: int
    const restartFactor: int

    var clauses: seq<nat>
    var origClausesSize: nat
    var watches: seq<seq<Watch>>
    var litVal: seq<int>
    var vs: seq<VarState>
    var decided: seq<nat>
    var propQ: seq<nat>
    var heap: seq<int>
    var claInfo: seq<CInfo>
    var solCache: seq<seq<int>>
    var unsat: bool
    var luby: seq<nat>
    /** How many times `NextLuby` has been called since `InitLuby`. */
    ghost var lubyCalls: nat
    var learnedUnits: seq<nat>
    var stats: Stats
    var totalConfls: int
    var lastDbClean: int
    var numLbd2RedCls: int
    var numUsedRedCls: int
    var seen: seq<bool>
    var inCc: seq<bool>
    var lvlSeen: map<int, int>
    var lvlIt: int
    var reduSeen: seq<int>
    var reduIt: int
    var reduS: seq<nat>

    /** A new oracle over the variables `1..n`: empty watch lists, every literal unassigned,
        every phase 0, an empty solution cache, an activity tree whose leaves hold `inc` times
        each variable's draw `acts[v]` (taken from 95..105) over the smallest power of two above
        `n`, and then the clauses `cls` added one by one as clauses of the problem. No learned
        clause exists afterwards and the cache stays empty. */
    constructor (n: nat, cls: seq<seq<nat>>, inc: int, acts: seq<int>)
      requires n >= 1 && inc > 0 && |acts| == n + 1 && forall v :: 1 <= v <= n ==> 95 <= acts[v] <= 105
      requires forall i, k :: 0 <= i < |cls| && 0 <= k < |cls[i]| ==> ValidLit(cls[i][k], n)
      ensures vars == n && varInc == inc && restartFactor == 100
      ensures Valid() && HeapCovers()
      ensures Pow2(heapN) && heapN > vars && heapN / 2 <= vars
      ensures forall v :: 1 <= v <= vars ==> heap[heapN + v] == inc * acts[v]
      ensures origClausesSize == |clauses| && claInfo == [] && CacheCleared()
    {
      vars := n;
      varInc := inc;
      restartFactor := 100;
      var hn := HeapSize(n);
      heapN := hn;
      var h := BuildHeap(n, hn, inc, acts);
      heap := h;
      clauses := [0];
      origClausesSize := 1;
      watches := seq(2 * n + 2, _ => []);
      litVal := seq(2 * n + 2, _ => 0);
      vs := seq(n + 1, _ => VarState(0, 0, 0));
      decided := [];
      propQ := [];
      claInfo := [];
      solCache := seq(n + 1, _ => []);
      unsat := false;
      luby := [];
      lubyCalls := 0;
      learnedUnits := [];
      stats := NoStats;
      totalConfls := 0;
      lastDbClean := 0;
      numLbd2RedCls := 0;
      numUsedRedCls := 0;
      seen := seq(n + 1, _ => false);
      inCc := seq(2 * n + 2, _ => false);
      lvlSeen := map[];
      lvlIt := 1;
      reduSeen := seq(2 * n + 2, _ => 0);
      reduIt := 1;
      reduS := [];
      new;
      InitValid();
      AddInputs(cls);
    }

    /** The state the constructor builds before its clauses is valid: an arena holding only the
        leading terminator, empty watch lists, trail, caches and stamps, every value unassigned,
        and a heap whose variable leaves are positive. */
    lemma InitValid()
      requires vars >= 1 && heapN > vars && varInc > 0 && HeapOk(heap, heapN)
      requires forall j :: heapN <= j < 2 * heapN && !ValidVar(j - heapN, vars) ==> heap[j] == 0
      requires forall j :: heapN < j <= heapN + vars ==> heap[j] > 0
      requires clauses == [0] && origClausesSize == 1 && claInfo == []
      requires watches == seq(2 * vars + 2, _ => []) && litVal == seq(2 * vars + 2, _ => 0)
      requires vs == seq(vars + 1, _ => VarState(0, 0, 0)) && decided == [] && propQ == [] && learnedUnits == []
      requires solCache == seq(vars + 1, _ => []) && luby == [] && lubyCalls == 0
      requires seen == seq(vars + 1, _ => false) && inCc == seq(2 * vars + 2, _ => false)
      requires lvlSeen == map[] && reduSeen == seq(2 * vars + 2, _ => 0) && reduIt == 1
      ensures Valid() && HeapCovers() && CacheCleared()
    {
      assert ArenaPart() by {
        InitArena(vars, clauses, watches, vs);
      }
      assert AssignPart();
      assert OtherPart();
      LeavesCover(vars, heapN, heap, litVal);
    }

    /** The clause loop of the constructor: each clause added as a clause of the problem. While
        no learned clause exists every clause joins the original region, and the cache stays
        empty. */
    method AddInputs(cls: seq<seq<nat>>)
      requires Valid() && HeapCovers() && origClausesSize == |clauses| && claInfo == [] && CacheCleared()
      requires forall i, k :: 0 <= i < |cls| && 0 <= k < |cls[i]| ==> ValidLit(cls[i][k], vars)
      modifies this`unsat, this`solCache, this`clauses, this`origClausesSize, this`claInfo, this`watches,
               this`litVal, this`vs, this`decided, this`propQ, this`stats
      ensures Valid() && HeapCovers() && origClausesSize == |clauses| && claInfo == [] && CacheCleared()
    {
      var i := 0;
      while i < |cls|
        invariant i <= |cls| && Valid() && HeapCovers()
        invariant origClausesSize == |clauses| && claInfo == [] && CacheCleared()
      {
        AddOrigClause(cls[i], false);
        i := i + 1;
      }
    }

    /** The constructor that also takes learned clauses: after the construction above, each of
        `learned` is added as an entailed clause, strengthened by the clauses already present,
        unless the oracle is unsatisfiable. */
    method AddLearnedInputs(learned: seq<seq<nat>>) returns (ghost log: seq<Strengthened>)
      requires Valid() && HeapCovers()
      requires forall i, k :: 0 <= i < |learned| && 0 <= k < |learned[i]| ==> ValidLit(learned[i][k], vars)
      modifies this`unsat, this`solCache, this`clauses, this`origClausesSize, this`claInfo, this`watches,
               this`litVal, this`vs, this`decided, this`propQ, this`stats, this`heap
      ensures Valid() && HeapCovers()
      ensures old(unsat) ==> clauses == old(clauses) && litVal == old(litVal)
      ensures |log| == |learned| && Chained(log, old(clauses), old(litVal), clauses, litVal)
      ensures forall i :: 0 <= i < |log| ==> StrengthenedOk(learned[i], log[i])
      ensures forall i :: 0 <= i < |log| && log[i].unsat ==> unsat
    {
      var i := 0;
      log := [];
      while i < |learned|
        invariant i <= |learned| && Valid() && HeapCovers()
        invariant old(unsat) ==> unsat && clauses == old(clauses) && litVal == old(litVal)
        invariant |log| == i && Logged(learned, log, old(clauses), old(litVal), unsat, clauses, litVal)
      {
        ghost var u0 := unsat;
        ghost var s := AddLearnedOne(learned[i]);
        LogSnoc(learned, log, s, old(clauses), old(litVal), u0);
        log := log + [s];
        i := i + 1;
      }
    }

    /** One clause of `AddLearnedInputs`, with what the call did recorded in `s`. */
    method AddLearnedOne(cl: seq<nat>) returns (ghost s: Strengthened)
      requires Valid() && HeapCovers() && forall k :: 0 <= k < |cl| ==> ValidLit(cl[k], vars)
      modifies this`unsat, this`solCache, this`clauses, this`origClausesSize, this`claInfo, this`watches,
               this`litVal, this`vs, this`decided, this`propQ, this`stats, this`heap
      ensures Valid() && HeapCovers() && (old(unsat) ==> unsat && clauses == old(clauses) && litVal == old(litVal))
      ensures s.before == old(clauses) && s.lvBefore == old(litVal) && s.arena == clauses && s.lv == litVal
      ensures s.unsat == unsat
      ensures StrengthenedOk(cl, s)
    {
      ghost var c0, lv0, u0 := clauses, litVal, unsat;
      var r, added := AddClauseIfNeededAndStr(cl, true);
      s := Strengthened(r, added, c0, lv0, unsat, litVal, clauses);
      if r {
        FilterMeaning(lv0, cl);
        OpenSub(lv0, cl, FilterFrom(lv0, cl, 0).lits);
        InForceSnap(|c0|, added);
      }
    }

    /** `InForce` restated on the values of the fields. */
    lemma InForceSnap(n: nat, cl: seq<nat>)
      requires InForce(n, cl)
      ensures InForceIn(unsat, litVal, clauses, n, cl)
    {
      if !unsat && !(|clauses| == n + |cl| + 1 && ClauseAt(clauses, n) == cl) {
        var k :| 0 <= k < |cl| && LitVal(cl[k]) == 1;
        assert Value(litVal, cl[k]) == 1;
      }
    }

    // -------------------------------------------------------------------------------------------
    // The object invariant, one part per group of fields

    ghost predicate SizesOk()
      reads this`vs, this`seen, this`inCc
    {
      && vars >= 1 && |vs| == vars + 1 && |seen| == vars + 1
      && |inCc| == 2 * vars + 2
    }

    /** Both literals of a variable carry opposite values in {-1, 0, 1}. */
    ghost predicate LitValsOk()
      reads this`litVal
    {
      && |litVal| == 2 * vars + 2
      && (forall v :: 1 <= v <= vars ==>
            -1 <= litVal[PosLit(v)] <= 1 && litVal[NegLit(v)] == -litVal[PosLit(v)])
    }

    /** The literal values as `LitValsOk` says, and phases 0 or 1. */
    ghost predicate ValsOk()
      reads this`litVal, this`vs
    {
      LitValsOk() && |vs| == vars + 1 && PhasesIn(vs)
    }

    /** The activity tree and its leaves: leaves of non-variables stay 0. */
    ghost predicate HeapInv()
      reads this`heap
    {
      && heapN > vars && varInc > 0 && HeapOk(heap, heapN)
      && forall j :: heapN <= j < 2 * heapN && !ValidVar(j - heapN, vars) ==> heap[j] == 0
    }

    /** The arena starts and ends with a terminator and holds only literals of the problem. */
    ghost predicate ArenaOk()
      reads this`clauses, this`origClausesSize
    {
      && |clauses| >= 1 && clauses[0] == 0 && clauses[|clauses| - 1] == 0
      && 1 <= origClausesSize <= |clauses| && clauses[origClausesSize - 1] == 0
      && forall k :: 0 <= k < |clauses| ==> clauses[k] == 0 || ValidLit(clauses[k], vars)
    }

    /** One list per literal id; ids 0 and 1 name no literal and their lists stay empty. */
    ghost predicate WatchesOk()
      reads this`watches, this`clauses
    {
      |watches| == 2 * vars + 2 && watches[0] == [] && watches[1] == [] && WatchesIn(clauses, vars, watches)
    }

    /** The trail holds variables, the queues hold literals. */
    ghost predicate TrailOk()
      reads this`decided, this`propQ, this`learnedUnits
    {
      && (forall k :: 0 <= k < |decided| ==> ValidVar(decided[k], vars))
      && (forall k :: 0 <= k < |propQ| ==> ValidLit(propQ[k], vars))
      && (forall k :: 0 <= k < |learnedUnits| ==> ValidLit(learnedUnits[k], vars))
    }

    /** One cache column per variable, all of the same length. */
    ghost predicate CacheOk()
      reads this`solCache
    {
      && |solCache| == vars + 1
      && forall v :: 1 <= v <= vars ==> |solCache[v]| == |solCache[1]|
    }

    ghost predicate LubyOk()
      reads this`luby, this`lubyCalls
    {
      luby == Bits(lubyCalls, 1)
    }

    /** Every reason is 0 or the offset of a clause. */
    ghost predicate ReasonsOk()
      reads this`vs, this`clauses
    {
      ReasonsIn(clauses, vs)
    }

    /** The metadata describes exactly the clauses after the original region, in arena order. */
    ghost predicate InfoOk()
      reads this`claInfo, this`clauses, this`origClausesSize
    {
      InfoIn(clauses, origClausesSize, claInfo)
    }

    /** No level stamp is newer than the current one. */
    ghost predicate LvlOk()
      reads this`lvlSeen, this`lvlIt
    {
      forall l :: l in lvlSeen ==> lvlSeen[l] <= lvlIt
    }

    /** The invariant of the clause database. */
    ghost predicate ArenaPart()
      reads this`clauses, this`origClausesSize, this`watches, this`vs, this`claInfo
    {
      ArenaOk() && WatchesOk() && ReasonsOk() && InfoOk()
    }

    /** The invariant of the assignment and its trail. */
    ghost predicate AssignPart()
      reads this`vs, this`seen, this`inCc, this`litVal, this`decided, this`propQ
      reads this`learnedUnits
    {
      SizesOk() && ValsOk() && TrailOk()
    }

    /** One redundancy stamp per literal id, none newer than the current one. */
    ghost predicate ReduOk()
      reads this`reduSeen, this`reduIt
    {
      && |reduSeen| == 2 * vars + 2
      && forall t :: 0 <= t < |reduSeen| ==> StampAtMost(reduSeen, t, reduIt)
    }

    /** The invariant of the heap, the cache, the restart counter and the stamps. */
    ghost predicate OtherPart()
      reads this`heap, this`solCache, this`luby, this`lubyCalls, this`lvlSeen, this`lvlIt
      reads this`reduSeen, this`reduIt
    {
      HeapInv() && CacheOk() && LubyOk() && LvlOk() && ReduOk()
    }

    ghost predicate Valid()
      reads this`vs, this`seen, this`inCc, this`reduSeen, this`litVal, this`heap, this`clauses
      reads this`origClausesSize, this`watches, this`decided, this`propQ, this`learnedUnits
      reads this`solCache, this`luby, this`lubyCalls, this`claInfo, this`lvlSeen, this`lvlIt, this`reduIt
    {
      ArenaPart() && AssignPart() && OtherPart()
    }

    ghost predicate Progress(c0: seq<nat>, lv0: seq<int>, d0: seq<nat>, p0: seq<nat>, s0: Stats)
      reads this`clauses, this`litVal, this`decided, this`propQ, this`stats
    {
      ProgressFrom(vars, c0, lv0, d0, p0, s0, clauses, litVal, decided, propQ, stats)
    }

    /** `p` is the offset of a clause with at least two literals. */
    ghost predicate ClauseStart(p: nat)
      reads this`clauses
    {
      StartIn(clauses, p)
    }

    /** The value of a literal. */
    function LitVal(l: nat): int
      reads this`litVal
    {
      Value(litVal, l)
    }

    /** A literal is true, false or unassigned: 1, -1 or 0. */
    lemma ValueRange(l: nat)
      requires LitValsOk() && ValidLit(l, vars)
      ensures -1 <= LitVal(l) <= 1
    {
      LitVarPair(l, vars);
    }

    /** Every free variable is active in the heap (see `Covers`). */
    ghost predicate HeapCovers()
      reads this`heap, this`litVal
    {
      Covers(vars, heapN, heap, litVal)
    }

    /** What `HardSolve`'s loop keeps between rounds: the oracle is valid with every free
        variable in the heap, and before the first conflict the variables below the scan
        position `nv` are assigned and no restart is due. */
    ghost predicate Searching(nv: nat, confls: int, nextRestart: int)
      reads this
    {
      && Valid() && HeapCovers() && 1 <= nv <= vars + 1 && confls >= 0
      && (confls == 0 ==> nextRestart == 1 && forall v :: 1 <= v < nv ==> LitVal(PosLit(v)) != 0)
    }

    /** No leaf has changed sign since `h0`. */
    ghost predicate SignsFrom(h0: seq<int>)
      reads this`heap
    {
      SignsKept(vars, heapN, h0, heap)
    }

    /** The activity leaf of variable `v`. */
    function Leaf(v: nat): int
      reads this`heap
    {
      LeafOf(heap, heapN, v)
    }

    // -------------------------------------------------------------------------------------------
    // Solution cache

    /** Appends the current phase of every variable to its cache column. */
    method AddSolToCache()
      requires Valid()
      modifies this`solCache, this`stats
      ensures Valid()
      ensures solCache[0] == old(solCache[0])
      ensures forall v :: 1 <= v <= vars ==> solCache[v] == old(solCache[v]) + [vs[v].phase]
      ensures stats == old(stats).(cacheAdded := old(stats).cacheAdded + 1)
    {
      var i := 1;
      while i <= vars
        invariant 1 <= i <= vars + 1 && |solCache| == vars + 1
        invariant solCache[0] == old(solCache[0])
        invariant forall v :: 1 <= v < i ==> solCache[v] == old(solCache[v]) + [vs[v].phase]
        invariant forall v :: i <= v <= vars ==> solCache[v] == old(solCache[v])
        invariant stats == old(stats)
      {
        solCache := solCache[i := solCache[i] + [vs[i].phase]];
        i := i + 1;
      }
      stats := stats.(cacheAdded := stats.cacheAdded + 1);
    }

    /** Empties every column. */
    method ClearSolCache()
      requires Valid()
      modifies this`solCache
      ensures Valid()
      ensures solCache[0] == old(solCache[0])
      ensures CacheCleared()
    {
      if |solCache[1]| == 0 {
        return;
      }
      var v := 1;
      while v <= vars
        invariant 1 <= v <= vars + 1 && |solCache| == vars + 1
        invariant solCache[0] == old(solCache[0])
        invariant forall u :: 1 <= u < v ==> solCache[u] == []
      {
        solCache := solCache[v := []];
        v := v + 1;
      }
    }

    /** Whether some cached solution agrees with every assumption. */
    method SatByCache(assumps: seq<nat>) returns (r: bool)
      requires Valid()
      requires forall k :: 0 <= k < |assumps| ==> ValidLit(assumps[k], vars)
      ensures r <==> exists i :: 0 <= i < |solCache[1]| && LineAgrees(solCache, i, assumps)
    {
      var cs := |solCache[1]|;
      var i: nat := 0;
      while i < cs
        invariant 0 <= i <= cs
        invariant forall i' :: 0 <= i' < i ==> !LineAgrees(solCache, i', assumps)
      {
        var ok := true;
        var k := 0;
        while k < |assumps|
          invariant 0 <= k <= |assumps|
          invariant ok ==> forall k' :: 0 <= k' < k ==> Agrees(solCache, i, assumps[k'])
          invariant !ok ==> !LineAgrees(solCache, i, assumps)
        {
          var l := assumps[k];
          LitVarPair(l, vars);
          if IsPos(l) {
            if solCache[VarOf(l)][i] == 0 { ok := false; break; }
          } else {
            if solCache[VarOf(l)][i] == 1 { ok := false; break; }
          }
          k := k + 1;
        }
        if ok {
          assert LineAgrees(solCache, i, assumps);
          return true;
        }
        i := i + 1;
      }
      return false;
    }

    // -------------------------------------------------------------------------------------------
    // Restart schedule

    method InitLuby()
      modifies this`luby, this`lubyCalls
      ensures luby == [] && lubyCalls == 0 && LubyOk()
    {
      luby := [];
      lubyCalls := 0;
    }

    /** One more step of the binary counter: the stack becomes the binary digits of the number of
        calls `n`, and the result is the largest power of two dividing `n`. */
    method NextLuby() returns (r: nat)
      requires LubyOk()
      modifies this`luby, this`lubyCalls
      ensures lubyCalls == old(lubyCalls) + 1 && LubyOk()
      ensures r == LowPow(lubyCalls)
    {
      lubyCalls := lubyCalls + 1;
      luby := Carry(luby + [1], lubyCalls);
      BitsTopIsLowPow(lubyCalls, 1);
      r := luby[|luby| - 1];
    }

    // -------------------------------------------------------------------------------------------
    // Activity heap

    /** The repair walk: every node from `i0` up to the root is recomputed as the maximum of its
        children, which restores the invariant when only that path was disturbed. */
    method RepairFrom(i0: nat)
      requires FixedOffPath(heap, heapN, i0) && i0 < heapN
      modifies this`heap
      ensures HeapOk(heap, heapN)
      ensures forall j :: heapN <= j < 2 * heapN ==> heap[j] == old(heap[j])
    {
      var i: nat := i0;
      while i >= 1
        invariant i < heapN && FixedOffPath(heap, heapN, i)
        invariant forall j :: heapN <= j < 2 * heapN ==> heap[j] == old(heap[j])
        decreases i
      {
        RepairStep(heap, heapN, i);
        heap := heap[i := Max(heap[2 * i], heap[2 * i + 1])];
        i := i / 2;
      }
      FixedOffPathIsHeap(heap, heapN);
    }

    /** Takes the most active unassigned variable off the heap: returns 0 when the root is not
        positive, and otherwise a variable whose leaf holds the root's value (the maximum over all
        leaves, found by walking down from the root, preferring the left child on a tie),
        negating that leaf. */
    method PopVarHeap() returns (r: nat)
      requires Valid()
      modifies this`heap
      ensures Valid()
      ensures r == 0 <==> old(heap[1]) <= 0
      ensures r == 0 ==> heap == old(heap)
      ensures r != 0 ==> ValidVar(r, vars) && old(Leaf(r)) == old(heap[1]) && Leaf(r) == -old(Leaf(r))
      ensures forall v :: ValidVar(v, vars) ==> old(Leaf(v)) <= old(heap[1])
      ensures forall v :: v != r ==> Leaf(v) == old(Leaf(v))
    {
      assert HeapOk(heap, heapN);
      if heap[1] <= 0 {
        forall v | ValidVar(v, vars)
          ensures Leaf(v) <= heap[1]
        {
          BelowRoot(heap, heapN, heapN + v);
        }
        return 0;
      }
      var i := 1;
      while i < heapN
        invariant heap == old(heap) && 1 <= i < 2 * heapN && heap[i] == heap[1]
        decreases 2 * heapN - i
      {
        DescendStep(heap, heapN, i);
        if heap[2 * i] == heap[i] {
          i := 2 * i;
        } else {
          i := 2 * i + 1;
        }
      }
      r := i - heapN;
      forall v | ValidVar(v, vars)
        ensures Leaf(v) <= heap[1]
      {
        BelowRoot(heap, heapN, heapN + v);
      }
      LeafChange(heap, heapN, i, -heap[i]);
      heap := heap[i := -heap[i]];
      RepairFrom(i / 2);
    }

    /** Puts an unassigned variable back: a positive leaf is left alone, otherwise the leaf is
        negated back and the path above it repaired. */
    method ActivateActivity(v: nat)
      requires Valid() && ValidVar(v, vars)
      modifies this`heap
      ensures Valid()
      ensures old(Leaf(v)) > 0 ==> heap == old(heap)
      ensures Leaf(v) == Abs(old(Leaf(v)))
      ensures forall u :: u != v ==> Leaf(u) == old(Leaf(u))
    {
      var j := heapN + v;
      if heap[j] > 0 {
        return;
      }
      LeafChange(heap, heapN, j, -heap[j]);
      heap := heap[j := -heap[j]];
      RepairFrom(j / 2);
    }

    /** Raises the activity of `v` by `varInc`: a negative (assigned) leaf moves further from
        zero without any repair, a positive one grows and the path above it is repaired. */
    method BumpVar(v: nat)
      requires Valid() && ValidVar(v, vars)
      modifies this`heap, this`stats
      ensures SignsFrom(old(heap))
      ensures Valid()
      ensures Leaf(v) == if old(Leaf(v)) < 0 then old(Leaf(v)) - varInc else old(Leaf(v)) + varInc
      ensures forall u :: u != v ==> Leaf(u) == old(Leaf(u))
      ensures stats == old(stats).(mems := old(stats).mems + 1)
    {
      CountMem();
      BumpLeaf(v);
      forall u | ValidVar(u, vars)
        ensures (LeafOf(old(heap), heapN, u) > 0 ==> Leaf(u) > 0) && (LeafOf(old(heap), heapN, u) < 0 ==> Leaf(u) < 0)
      {
        if u != v {
          assert Leaf(u) == old(Leaf(u));
        }
      }
    }

    /** The heap part of `BumpVar`: the leaf of `v` moves `varInc` away from zero, and the
        internal nodes above an active leaf are repaired. */
    method BumpLeaf(v: nat)
      requires Valid() && ValidVar(v, vars)
      modifies this`heap
      ensures Valid()
      ensures Leaf(v) == if old(Leaf(v)) < 0 then old(Leaf(v)) - varInc else old(Leaf(v)) + varInc
      ensures forall u :: u != v ==> Leaf(u) == old(Leaf(u))
    {
      var j := heapN + v;
      if heap[j] < 0 {
        LowerNegativeLeaf(heap, heapN, j, heap[j] - varInc);
        heap := heap[j := heap[j] - varInc];
      } else {
        LeafChange(heap, heapN, j, heap[j] + varInc);
        heap := heap[j := heap[j] + varInc];
        RepairFrom(j / 2);
      }
    }

    // -------------------------------------------------------------------------------------------
    // The trail

    /** Makes `dec` true at `level` with the given reason (forced to 0 at levels up to 1), saves
        its phase, and queues the now-false opposite literal for propagation. */
    method Assign(dec: nat, reasonClause: nat, level: int)
      requires Valid() && ValidLit(dec, vars) && (level <= 1 || reasonClause == 0 || ClauseStart(reasonClause))
      modifies this`litVal, this`vs, this`decided, this`propQ
      ensures old(HeapCovers()) ==> HeapCovers()
      ensures Valid() && LitVal(dec) == 1
      ensures litVal == old(litVal)[dec := 1][Neg(dec) := -1]
      ensures vs == old(vs)[VarOf(dec) := VarState(if level <= 1 then 0 else reasonClause, level, if IsPos(dec) then 1 else 0)]
      ensures decided == old(decided) + [VarOf(dec)]
      ensures propQ == old(propQ) + [Neg(dec)]
    {
      var reason := if level <= 1 then 0 else reasonClause;
      var v := VarOf(dec);
      LitVarPair(dec, vars);
      SetTrue(dec);
      SetVarState(v, VarState(reason, level, if IsPos(dec) then 1 else 0));
      PushTrail(v, Neg(dec));
      if old(HeapCovers()) {
        CoversSetTrue(vars, heapN, heap, old(litVal), dec);
      }
    }

    /** Makes `l` true and its opposite false. */
    method SetTrue(l: nat)
      requires Valid() && ValidLit(l, vars)
      modifies this`litVal
      ensures Valid() && litVal == old(litVal)[l := 1][Neg(l) := -1]
    {
      LitVarPair(l, vars);
      litVal := litVal[l := 1][Neg(l) := -1];
    }

    method SetVarState(v: nat, st: VarState)
      requires Valid() && ValidVar(v, vars) && (st.phase == 0 || st.phase == 1)
      requires st.reason == 0 || ClauseStart(st.reason)
      modifies this`vs
      ensures Valid() && vs == old(vs)[v := st]
    {
      vs := vs[v := st];
    }

    /** Appends `v` to the trail and `l` to the propagation queue. */
    method PushTrail(v: nat, l: nat)
      requires Valid() && ValidVar(v, vars) && ValidLit(l, vars)
      modifies this`decided, this`propQ
      ensures Valid() && decided == old(decided) + [v] && propQ == old(propQ) + [l]
    {
      decided := decided + [v];
      propQ := propQ + [l];
    }

    /** A decision: an assignment without a reason. */
    method Decide(dec: nat, level: int)
      requires Valid() && ValidLit(dec, vars)
      modifies this`litVal, this`vs, this`decided, this`propQ
      ensures old(HeapCovers()) ==> HeapCovers()
      ensures Valid() && LitVal(dec) == 1
      ensures litVal == old(litVal)[dec := 1][Neg(dec) := -1]
      ensures vs == old(vs)[VarOf(dec) := VarState(0, level, if IsPos(dec) then 1 else 0)]
      ensures decided == old(decided) + [VarOf(dec)]
      ensures propQ == old(propQ) + [Neg(dec)]
    {
      Assign(dec, 0, level);
    }

    /** The state after popping the trail of `d0` down to `decided` (see `UndoneFrom`). */
    ghost predicate Undone(d0: seq<nat>, lv0: seq<int>, vs0: seq<VarState>, h0: seq<int>, level: int)
      reads this`decided, this`litVal, this`vs, this`heap
    {
      UndoneFrom(vars, heapN, decided, litVal, vs, heap, d0, lv0, vs0, h0, level)
    }

    /** Backtracks: pops every trail entry from the top whose level is at least `level`. */
    method UnDecide(level: int)
      requires Valid() && propQ == []
      modifies this`decided, this`litVal, this`vs, this`heap, this`stats
      ensures old(HeapCovers()) ==> HeapCovers()
      ensures Valid()
      ensures Undone(old(decided), old(litVal), old(vs), old(heap), level)
      ensures decided == [] || vs[decided[|decided| - 1]].level < level
      ensures stats == old(stats).(mems := old(stats).mems + |old(decided)| - |decided|)
    {
      ghost var d0, lv0, vs0, h0 := decided, litVal, vs, heap;
      PopAbove(level);
      if old(HeapCovers()) {
        CoversUndone(vars, heapN, decided, litVal, vs, heap, d0, lv0, vs0, h0, level);
      }
    }

    /** The loop of `UnDecide`. */
    method PopAbove(level: int)
      requires Valid()
      modifies this`decided, this`litVal, this`vs, this`heap, this`stats
      ensures Valid()
      ensures Undone(old(decided), old(litVal), old(vs), old(heap), level)
      ensures decided == [] || vs[decided[|decided| - 1]].level < level
      ensures stats == old(stats).(mems := old(stats).mems + |old(decided)| - |decided|)
    {
      ghost var d0, lv0, vs0, h0, s0 := decided, litVal, vs, heap, stats;
      while |decided| > 0 && vs[decided[|decided| - 1]].level >= level
        invariant Valid() && Undone(d0, lv0, vs0, h0, level)
        invariant stats == s0.(mems := s0.mems + |d0| - |decided|)
        decreases |decided|
      {
        PopCounted(d0, lv0, vs0, h0, level);
      }
    }

    /** `PopOne` with its memory access counted. */
    method PopCounted(ghost d0: seq<nat>, ghost lv0: seq<int>, ghost vs0: seq<VarState>, ghost h0: seq<int>, level: int)
      requires Valid() && Undone(d0, lv0, vs0, h0, level)
      requires |decided| > 0 && vs[decided[|decided| - 1]].level >= level
      modifies this`decided, this`litVal, this`vs, this`heap, this`stats
      ensures Valid() && Undone(d0, lv0, vs0, h0, level)
      ensures |decided| == old(|decided|) - 1 && stats == old(stats).(mems := old(stats).mems + 1)
    {
      CountMem();
      PopOne(d0, lv0, vs0, h0, level);
    }

    /** One step of `UnDecide`: the top variable is unassigned and reactivated. */
    method PopOne(ghost d0: seq<nat>, ghost lv0: seq<int>, ghost vs0: seq<VarState>, ghost h0: seq<int>, level: int)
      requires Valid() && Undone(d0, lv0, vs0, h0, level)
      requires |decided| > 0 && vs[decided[|decided| - 1]].level >= level
      modifies this`decided, this`litVal, this`vs, this`heap
      ensures Valid() && Undone(d0, lv0, vs0, h0, level)
      ensures |decided| == old(|decided|) - 1
    {
      ghost var d, lv, vss, h := decided, litVal, vs, heap;
      var v := PopTrail();
      Unassign(v);
      ActivateActivity(v);
      assert forall u :: u != v ==> LeafOf(heap, heapN, u) == LeafOf(h, heapN, u) by {
        forall u | u != v
          ensures LeafOf(heap, heapN, u) == LeafOf(h, heapN, u)
        {
          assert Leaf(u) == old(Leaf(u));
        }
      }
      UndoneStep(vars, heapN, d, lv, vss, h, heap, d0, lv0, vs0, h0, level);
    }

    /** One more memory access. */
    method CountMem()
      modifies this`stats
      ensures stats == old(stats).(mems := old(stats).mems + 1)
    {
      stats := stats.(mems := stats.mems + 1);
    }

    /** Removes the top of the trail. */
    method PopTrail() returns (v: nat)
      requires Valid() && |decided| > 0
      modifies this`decided
      ensures Valid() && ValidVar(v, vars)
      ensures v == old(decided[|decided| - 1]) && decided == old(decided[..|decided| - 1])
    {
      v := decided[|decided| - 1];
      decided := decided[..|decided| - 1];
    }

    /** Clears the value, reason and level of `v`. */
    method Unassign(v: nat)
      requires Valid() && ValidVar(v, vars)
      modifies this`litVal, this`vs
      ensures Valid()
      ensures litVal == old(litVal)[PosLit(v) := 0][NegLit(v) := 0]
      ensures vs == old(vs)[v := old(vs[v]).(reason := 0, level := 0)]
    {
      litVal := litVal[PosLit(v) := 0][NegLit(v) := 0];
      vs := vs[v := vs[v].(reason := 0, level := 0)];
    }

    // -------------------------------------------------------------------------------------------
    // Propagation

    /** The first literal from offset `from` to the end of its clause that is not false, or 0. */
    method FindNonFalse(from: nat) returns (fo: nat)
      requires 1 <= from <= |clauses|
      ensures fo == 0 ==> forall k :: from <= k < from + |ClauseAt(clauses, from)| ==> LitVal(clauses[k]) == -1
      ensures fo != 0 ==> from <= fo < |clauses| && clauses[fo] != 0 && LitVal(clauses[fo]) != -1
      ensures fo != 0 ==> forall k :: from <= k < fo ==> clauses[k] != 0 && LitVal(clauses[k]) == -1
    {
      var k := from;
      while At(clauses, k) != 0
        invariant from <= k <= |clauses|
        invariant ClauseAt(clauses, from) == clauses[from..k] + ClauseAt(clauses, k)
        invariant forall k' :: from <= k' < k ==> clauses[k'] != 0 && LitVal(clauses[k']) == -1
        decreases |clauses| - k
      {
        if LitVal(clauses[k]) != -1 {
          return k;
        }
        ClauseAtAdvance(clauses, from, k);
        k := k + 1;
      }
      assert ClauseAt(clauses, k) == [];
      assert |ClauseAt(clauses, from)| == k - from;
      return 0;
    }

    /** A watch of the falsified `ff` on a clause longer than two whose blocking literal is not
        true: the blocking literal becomes the other watched literal if that one is true;
        otherwise the two watched literals are swapped so that `ff` is second, and the watch
        moves to the first non-false literal after them (swapped into the second slot), or the
        clause is a conflict (first literal assigned) or unit (first literal assigned true). A
        conflict found while `ff` is false is a clause all of whose literals are false. */
    method VisitLong(ff: nat, w: Watch, level: int) returns (keep: bool, w': Watch, confl: nat)
      requires Valid() && ValidLit(ff, vars) && WatchIn(clauses, vars, ff, w) && w.size != 2
      modifies this`clauses, this`watches, this`litVal, this`vs, this`decided, this`propQ
      ensures Valid()
      ensures Progress(old(clauses), old(litVal), old(decided), old(propQ), stats)
      ensures Total(watches) == old(Total(watches)) + (if keep then 0 else 1)
      ensures keep ==> WatchIn(clauses, vars, ff, w') && w'.cls == w.cls && w'.size == w.size
      ensures confl != 0 ==> confl == w.cls && keep && ClauseStart(confl)
      ensures confl != 0 && old(LitVal(ff)) == -1 ==> Falsified(clauses, litVal, confl)
    {
      ghost var c0, lv0, d0, p0 := clauses, litVal, decided, propQ;
      var cls := w.cls;
      var other := if clauses[cls] == ff then clauses[cls + 1] else clauses[cls];
      if LitVal(other) > 0 {
        ProgressRefl(vars, clauses, litVal, decided, propQ, stats);
        return true, w.(blit := other), 0;
      }
      keep, confl := MoveOrSettle(cls, ff, other, w.size, level);
      return keep, w, confl;
    }

    /** The part of `VisitLong` after the blocking literal was found not true: the watch moves to
        a non-false literal, or the clause is settled. */
    method MoveOrSettle(cls: nat, ff: nat, other: nat, size: int, level: int) returns (keep: bool, confl: nat)
      requires Valid() && ValidLit(ff, vars) && ValidLit(other, vars) && ClauseStart(cls) && LitVal(other) <= 0
      requires size != 2 && cls + 2 < |clauses| && clauses[cls + 2] != 0
      modifies this`clauses, this`watches, this`litVal, this`vs, this`decided, this`propQ
      ensures Valid()
      ensures Progress(old(clauses), old(litVal), old(decided), old(propQ), stats)
      ensures Total(watches) == old(Total(watches)) + (if keep then 0 else 1)
      ensures keep ==> ClauseStart(cls)
      ensures confl != 0 ==> confl == cls && keep && ClauseStart(confl)
      ensures confl != 0 && old(LitVal(ff)) == -1 ==> Falsified(clauses, litVal, confl)
    {
      ghost var c0, lv0, d0, p0 := clauses, litVal, decided, propQ;
      var moved, _ := MoveWatch(cls, ff, other, size);
      ProgressShape(vars, c0, lv0, d0, p0, stats, clauses, stats);
      if moved {
        return false, 0;
      }
      ghost var c1 := clauses;
      confl := SettleLong(cls, ff, level);
      ProgressTrans(vars, c0, lv0, d0, p0, stats, c1, lv0, d0, p0, stats, clauses, litVal, decided, propQ, stats);
      return true, confl;
    }

    /** `Settle` on a clause longer than two whose later literals are all false, `ff` second:
        a conflict found while `ff` is false is falsified. */
    method SettleLong(cls: nat, ff: nat, level: int) returns (confl: nat)
      requires Valid() && ClauseStart(cls) && clauses[cls + 1] == ff && ValidLit(clauses[cls], vars)
      requires forall k :: cls + 2 <= k < cls + 2 + |ClauseAt(clauses, cls + 2)| ==> LitVal(clauses[k]) == -1
      modifies this`litVal, this`vs, this`decided, this`propQ
      ensures Valid()
      ensures Progress(old(clauses), old(litVal), old(decided), old(propQ), stats)
      ensures confl != 0 ==> confl == cls
      ensures confl != 0 && old(LitVal(ff)) == -1 && old(LitVal(clauses[cls])) <= 0 ==> Falsified(clauses, litVal, confl)
    {
      ValueRange(clauses[cls]);
      confl := Settle(cls, level);
      if confl != 0 && old(LitVal(ff)) == -1 && old(LitVal(clauses[cls])) <= 0 {
        FalsifiedFromTail(clauses, litVal, cls);
      }
    }

    /** The end of `VisitLong` when no literal can take over the watch: the clause is a conflict
        when its first literal is assigned (it is then false), and otherwise that literal is
        implied, with the clause as its reason. */
    method Settle(cls: nat, level: int) returns (confl: nat)
      requires Valid() && ClauseStart(cls)
      modifies this`litVal, this`vs, this`decided, this`propQ
      ensures Valid()
      ensures Progress(old(clauses), old(litVal), old(decided), old(propQ), stats)
      ensures confl != 0 <==> old(LitVal(clauses[cls])) != 0
      ensures confl != 0 ==> confl == cls && litVal == old(litVal) && decided == old(decided)
      ensures confl == 0 ==> LitVal(clauses[cls]) == 1 && decided == old(decided) + [VarOf(clauses[cls])]
    {
      if LitVal(clauses[cls]) != 0 {
        ProgressRefl(vars, clauses, litVal, decided, propQ, stats);
        return cls;
      }
      Imply(clauses[cls], cls, level);
      return 0;
    }

    /** An assignment found by propagation, of an unassigned literal with its reason clause. */
    method Imply(dec: nat, reasonClause: nat, level: int)
      requires Valid() && ValidLit(dec, vars) && LitVal(dec) == 0 && ClauseStart(reasonClause)
      modifies this`litVal, this`vs, this`decided, this`propQ
      ensures Valid()
      ensures Progress(old(clauses), old(litVal), old(decided), old(propQ), stats)
      ensures litVal == old(litVal)[dec := 1][Neg(dec) := -1]
      ensures decided == old(decided) + [VarOf(dec)] && propQ == old(propQ) + [Neg(dec)]
    {
      AssignProgress(vars, clauses, litVal, decided, propQ, stats, dec);
      Assign(dec, reasonClause, level);
    }

    /** Unit propagation of the queue: the watch list of every queued falsified literal is
        visited in queue order, the queue growing as literals are implied, until it is exhausted
        or a conflict is found; the queue is then emptied. Returns the arena offset of the
        conflicting clause, or 0. When every queued literal is false, as it is after `Assign`, a
        conflict is a clause all of whose literals are false. */
    method Propagate(level: int) returns (conflict: nat)
      requires Valid()
      modifies this`clauses, this`watches, this`litVal, this`vs, this`decided, this`propQ, this`stats
      ensures old(HeapCovers()) ==> HeapCovers()
      ensures Valid() && propQ == []
      ensures conflict != 0 ==> ClauseStart(conflict)
      ensures conflict != 0 && old(AllFalse(litVal, propQ)) ==> Falsified(clauses, litVal, conflict)
      ensures Total(watches) == old(Total(watches))
      ensures SameShape(old(clauses), clauses) && KeepsAssigned(old(litVal), litVal)
      ensures |decided| >= |old(decided)| && decided[..|old(decided)|] == old(decided)
      ensures stats == old(stats).(mems := stats.mems)
      ensures stats.mems >= old(stats).mems + (if old(propQ) == [] then 0 else 1)
      ensures old(propQ) == [] ==> conflict == 0
    {
      conflict := PropagateQueue(level);
      ClearQueue();
      if old(HeapCovers()) {
        CoversAssigned(vars, heapN, heap, old(litVal), litVal);
      }
    }

    /** The loop of `Propagate`, before the queue is emptied. */
    method PropagateQueue(level: int) returns (conflict: nat)
      requires Valid()
      modifies this`clauses, this`watches, this`litVal, this`vs, this`decided, this`propQ, this`stats
      ensures Valid() && Progress(old(clauses), old(litVal), old(decided), old(propQ), old(stats))
      ensures conflict != 0 ==> ClauseStart(conflict)
      ensures conflict != 0 && old(AllFalse(litVal, propQ)) ==> Falsified(clauses, litVal, conflict)
      ensures Total(watches) == old(Total(watches))
      ensures stats.mems >= old(stats).mems + (if old(propQ) == [] then 0 else 1)
      ensures old(propQ) == [] ==> conflict == 0
    {
      ghost var c0, lv0, d0, p0, s0 := clauses, litVal, decided, propQ, stats;
      ProgressRefl(vars, c0, lv0, d0, p0, s0);
      conflict := 0;
      var i := 0;
      while i < |propQ|
        invariant 0 <= i <= |propQ| && Valid()
        invariant ProgressFrom(vars, c0, lv0, d0, p0, s0, clauses, litVal, decided, propQ, stats)
        invariant Total(watches) == old(Total(watches))
        invariant stats.mems >= s0.mems + (if i > 0 then 1 else 0)
        invariant conflict == 0 && (p0 == [] ==> propQ == [])
        decreases CountUnassigned(litVal, vars), |propQ| - i
      {
        if AllFalse(lv0, p0) {
          QueueFalse(vars, c0, lv0, d0, p0, s0, clauses, litVal, decided, propQ, stats);
        }
        conflict := PropagateAt(i, level, c0, lv0, d0, p0, s0);
        if conflict != 0 {
          break;
        }
        i := i + 1;
      }
    }

    method ClearQueue()
      requires Valid()
      modifies this`propQ
      ensures Valid() && propQ == []
    {
      propQ := [];
    }

    /** One round of `Propagate`: the watch list of the `i`-th queued literal. */
    method PropagateAt(i: nat, level: int, ghost c0: seq<nat>, ghost lv0: seq<int>, ghost d0: seq<nat>,
                       ghost p0: seq<nat>, ghost s0: Stats) returns (conflict: nat)
      requires Valid() && i < |propQ|
      requires ProgressFrom(vars, c0, lv0, d0, p0, s0, clauses, litVal, decided, propQ, stats)
      modifies this`clauses, this`watches, this`litVal, this`vs, this`decided, this`propQ, this`stats
      ensures Valid() && ProgressFrom(vars, c0, lv0, d0, p0, s0, clauses, litVal, decided, propQ, stats)
      ensures Total(watches) == old(Total(watches)) && stats.mems > old(stats.mems)
      ensures |propQ| >= old(|propQ|)
      ensures CountUnassigned(litVal, vars) + |propQ| == old(CountUnassigned(litVal, vars) + |propQ|)
      ensures conflict != 0 ==> ClauseStart(conflict)
      ensures conflict != 0 && old(LitVal(propQ[i])) == -1 ==> Falsified(clauses, litVal, conflict)
    {
      ghost var c1, lv1, d1, p1 := clauses, litVal, decided, propQ;
      stats := stats.(mems := stats.mems + 1);
      ghost var s1 := stats;
      conflict := ScanWatches(propQ[i], level);
      ProgressTrans(vars, c0, lv0, d0, p0, s0, c1, lv1, d1, p1, s1, clauses, litVal, decided, propQ, stats);
    }

    /** Visits the watch list of the falsified literal `ff`: binary clauses whose other literal
        is false are conflicts and those whose other literal is unassigned imply it; longer
        clauses are handled by `VisitLong` until a conflict is known. Records that move to
        another list leave this one; the rest keep their order. */
    method ScanWatches(ff: nat, level: int) returns (confl: nat)
      requires Valid() && ValidLit(ff, vars)
      modifies this`clauses, this`watches, this`litVal, this`vs, this`decided, this`propQ, this`stats
      ensures Valid()
      ensures Progress(old(clauses), old(litVal), old(decided), old(propQ), old(stats))
      ensures Total(watches) == old(Total(watches))
      ensures confl != 0 ==> ClauseStart(confl)
      ensures confl != 0 && old(LitVal(ff)) == -1 ==> Falsified(clauses, litVal, confl)
    {
      var src := watches[ff];
      assert ListIn(clauses, vars, ff, src);
      TotalUpdate(watches, ff, []);
      watches := watches[ff := []];
      var rest;
      rest, confl := ScanList(ff, src, level);
      Restore(ff, rest);
    }

    /** The loop of `ScanWatches` over the records `src` taken off the list of `ff`: `rest` is
        what goes back, the records kept in their order followed by those not visited. */
    method ScanList(ff: nat, src: seq<Watch>, level: int) returns (rest: seq<Watch>, confl: nat)
      requires Valid() && ValidLit(ff, vars) && ListIn(clauses, vars, ff, src)
      modifies this`clauses, this`watches, this`litVal, this`vs, this`decided, this`propQ, this`stats
      ensures Valid() && ListIn(clauses, vars, ff, rest)
      ensures Progress(old(clauses), old(litVal), old(decided), old(propQ), old(stats))
      ensures Total(watches) + |rest| == old(Total(watches)) + |src|
      ensures confl != 0 ==> ClauseStart(confl)
      ensures confl != 0 && old(LitVal(ff)) == -1 ==> Falsified(clauses, litVal, confl)
    {
      ghost var c0, lv0, d0, p0, s0 := clauses, litVal, decided, propQ, stats;
      ghost var isFalse := LitVal(ff) == -1;
      ProgressRefl(vars, c0, lv0, d0, p0, s0);
      var kept: seq<Watch> := [];
      var j := 0;
      confl := 0;
      while j < |src|
        invariant 0 <= j <= |src| && Valid()
        invariant ListIn(clauses, vars, ff, kept) && ListIn(clauses, vars, ff, src[j..])
        invariant Total(watches) + |kept| + |src| - j == old(Total(watches)) + |src|
        invariant ProgressFrom(vars, c0, lv0, d0, p0, s0, clauses, litVal, decided, propQ, stats)
        invariant confl != 0 ==> ClauseStart(confl)
        invariant isFalse ==> LitVal(ff) == -1
        invariant confl != 0 && isFalse ==> Falsified(clauses, litVal, confl)
      {
        var stop;
        kept, confl, stop := ScanOne(ff, src, j, kept, level, confl, c0, lv0, d0, p0, s0);
        j := j + 1;
        if stop {
          break;
        }
      }
      ListInAppend(clauses, vars, ff, kept, src[j..]);
      rest := kept + src[j..];
    }

    /** The body of `ScanList` for the record `src[j]`, with the records `kept` so far. */
    method ScanOne(ff: nat, src: seq<Watch>, j: nat, kept: seq<Watch>, level: int, confl: nat,
                   ghost c0: seq<nat>, ghost lv0: seq<int>, ghost d0: seq<nat>, ghost p0: seq<nat>, ghost s0: Stats)
      returns (kept': seq<Watch>, confl': nat, stop: bool)
      requires j < |src| && Valid() && ValidLit(ff, vars)
      requires ListIn(clauses, vars, ff, kept) && ListIn(clauses, vars, ff, src[j..])
      requires ProgressFrom(vars, c0, lv0, d0, p0, s0, clauses, litVal, decided, propQ, stats)
      requires confl != 0 ==> ClauseStart(confl)
      modifies this`clauses, this`watches, this`litVal, this`vs, this`decided, this`propQ, this`stats
      ensures Valid() && ListIn(clauses, vars, ff, kept') && ListIn(clauses, vars, ff, src[j + 1..])
      ensures Total(watches) + |kept'| == old(Total(watches)) + |kept| + 1
      ensures ProgressFrom(vars, c0, lv0, d0, p0, s0, clauses, litVal, decided, propQ, stats)
      ensures confl' != 0 ==> ClauseStart(confl')
      ensures old(LitVal(ff)) == -1 && (confl != 0 ==> old(Falsified(clauses, litVal, confl))) && confl' != 0
              ==> Falsified(clauses, litVal, confl')
    {
      var w := src[j];
      ListInSplit(clauses, vars, ff, src[j..]);
      assert src[j..][1..] == src[j + 1..];
      ghost var c1, lv1, d1, p1, s1 := clauses, litVal, decided, propQ, stats;
      var keep, w';
      keep, w', confl', stop := StepWatch(ff, w, level, confl);
      ProgressTrans(vars, c0, lv0, d0, p0, s0, c1, lv1, d1, p1, s1, clauses, litVal, decided, propQ, stats);
      ShapeKeepsList(c1, clauses, vars, ff, kept);
      ShapeKeepsList(c1, clauses, vars, ff, src[j + 1..]);
      kept' := kept;
      if keep {
        ListInAppend(clauses, vars, ff, kept, [w']);
        kept' := kept + [w'];
      }
    }

    /** One record of `ScanWatches`, with the conflict found so far: whether the record stays
        (as `w'`), the conflict now known, and whether the scan stops here. Once a conflict is
        known the arena is left alone. */
    method StepWatch(ff: nat, w: Watch, level: int, confl: nat) returns (keep: bool, w': Watch, confl': nat, stop: bool)
      requires Valid() && ValidLit(ff, vars) && WatchIn(clauses, vars, ff, w)
      requires confl != 0 ==> ClauseStart(confl)
      modifies this`clauses, this`watches, this`litVal, this`vs, this`decided, this`propQ, this`stats
      ensures Valid()
      ensures Progress(old(clauses), old(litVal), old(decided), old(propQ), old(stats))
      ensures Total(watches) == old(Total(watches)) + (if keep then 0 else 1)
      ensures keep ==> WatchIn(clauses, vars, ff, w')
      ensures confl' != 0 ==> ClauseStart(confl')
      ensures old(LitVal(w.blit)) > 0 ==> keep && w' == w && confl' == confl && !stop
      ensures w.size == 2 ==> keep && w' == w && !stop
      ensures w.size == 2 && old(LitVal(w.blit)) < 0 ==> confl' == w.cls
      ensures w.size != 2 && old(LitVal(w.blit)) <= 0 && confl != 0 ==> keep && w' == w && stop && confl' == confl
      ensures confl != 0 ==> clauses == old(clauses)
      ensures old(LitVal(ff)) == -1 && (confl != 0 ==> old(Falsified(clauses, litVal, confl))) && confl' != 0
              ==> Falsified(clauses, litVal, confl')
    {
      var bv := LitVal(w.blit);
      if bv > 0 || (w.size != 2 && confl != 0) {
        ProgressRefl(vars, clauses, litVal, decided, propQ, stats);
        return true, w, confl, bv <= 0;
      }
      if w.size == 2 {
        ghost var lv0 := litVal;
        confl' := StepBinary(ff, w, level, confl);
        if confl' != 0 && confl' == confl && old(LitVal(ff)) == -1 && old(Falsified(clauses, litVal, confl)) {
          FalseKept(lv0, litVal, ClauseAt(clauses, confl));
        }
        return true, w, confl', false;
      }
      keep, w', confl' := StepLong(ff, w, level);
      stop := confl' != 0;
    }

    /** `StepWatch` on a binary clause whose other literal is not true: a conflict when it is
        false, otherwise it is implied. The conflict is falsified when `ff` is false. */
    method StepBinary(ff: nat, w: Watch, level: int, confl: nat) returns (confl': nat)
      requires Valid() && WatchIn(clauses, vars, ff, w) && w.size == 2 && LitVal(w.blit) <= 0
      requires confl != 0 ==> ClauseStart(confl)
      modifies this`litVal, this`vs, this`decided, this`propQ
      ensures Valid()
      ensures Progress(old(clauses), old(litVal), old(decided), old(propQ), stats)
      ensures confl' != 0 ==> ClauseStart(confl')
      ensures old(LitVal(w.blit)) < 0 ==> confl' == w.cls && litVal == old(litVal)
      ensures old(LitVal(w.blit)) < 0 && LitVal(ff) == -1 ==> Falsified(clauses, litVal, confl')
      ensures old(LitVal(w.blit)) == 0 ==> confl' == confl
    {
      if LitVal(w.blit) < 0 {
        ProgressRefl(vars, clauses, litVal, decided, propQ, stats);
        ValueRange(w.blit);
        if LitVal(ff) == -1 {
          FalsifiedPair(clauses, litVal, w.cls, ff, w.blit);
        }
        return w.cls;
      }
      Imply(w.blit, w.cls, level);
      return confl;
    }

    /** `StepWatch` on a longer clause whose blocking literal is not true: one memory access,
        then `VisitLong`. */
    method StepLong(ff: nat, w: Watch, level: int) returns (keep: bool, w': Watch, confl': nat)
      requires Valid() && ValidLit(ff, vars) && WatchIn(clauses, vars, ff, w) && w.size != 2
      modifies this`clauses, this`watches, this`litVal, this`vs, this`decided, this`propQ, this`stats
      ensures Valid()
      ensures Progress(old(clauses), old(litVal), old(decided), old(propQ), old(stats))
      ensures Total(watches) == old(Total(watches)) + (if keep then 0 else 1)
      ensures keep ==> WatchIn(clauses, vars, ff, w')
      ensures confl' != 0 ==> ClauseStart(confl')
      ensures confl' != 0 && old(LitVal(ff)) == -1 ==> Falsified(clauses, litVal, confl')
    {
      CountMem();
      ghost var c0, lv0, d0, p0 := clauses, litVal, decided, propQ;
      keep, w', confl' := VisitLong(ff, w, level);
      ProgressTrans(vars, c0, lv0, d0, p0, old(stats), c0, lv0, d0, p0, stats, clauses, litVal, decided, propQ, stats);
    }

    /** Puts the records `ws` back in front of the list of `ff`. */
    method Restore(ff: nat, ws: seq<Watch>)
      requires Valid() && ValidLit(ff, vars) && ListIn(clauses, vars, ff, ws)
      modifies this`watches
      ensures Valid() && watches == old(watches)[ff := ws + old(watches[ff])]
      ensures Total(watches) == old(Total(watches)) + |ws|
    {
      assert ListIn(clauses, vars, ff, watches[ff]);
      ListInAppend(clauses, vars, ff, ws, watches[ff]);
      TotalUpdate(watches, ff, ws + watches[ff]);
      watches := watches[ff := ws + watches[ff]];
    }

    /** The search half of `VisitLong`: `ff` goes to the second slot and `other` to the first;
        when a later literal of the clause is not false it is swapped into the second slot and
        the clause is now watched by it (`moved`); otherwise every later literal is false. */
    method MoveWatch(cls: nat, ff: nat, other: nat, size: int) returns (moved: bool, ghost fo: nat)
      requires Valid() && ValidLit(ff, vars) && ValidLit(other, vars)
      requires ClauseStart(cls) && size != 2 && cls + 2 < |clauses| && clauses[cls + 2] != 0
      modifies this`clauses, this`watches
      ensures Valid() && SameShape(old(clauses), clauses)
      ensures Total(watches) == old(Total(watches)) + (if moved then 1 else 0)
      ensures clauses[cls] == other && clauses[cls + 1] != 0
      ensures moved ==> LitVal(clauses[cls + 1]) != -1
      ensures moved ==> && cls + 2 <= fo < |clauses| && clauses == old(clauses)[cls := other][cls + 1 := old(clauses)[fo]][fo := ff]
                        && forall k :: cls + 2 <= k < fo ==> LitVal(clauses[k]) == -1
      ensures moved ==> watches == old(watches)[clauses[cls + 1] := old(watches)[clauses[cls + 1]] + [Watch(cls, other, size)]]
      ensures !moved ==> clauses == old(clauses)[cls := other][cls + 1 := ff] && watches == old(watches)
      ensures !moved ==> forall k :: cls + 2 <= k < cls + 2 + |ClauseAt(clauses, cls + 2)| ==> LitVal(clauses[k]) == -1
    {
      PutFirst(cls, other, ff);
      var at := FindNonFalse(cls + 2);
      fo := at;
      if at == 0 {
        return false, fo;
      }
      ghost var c1 := clauses;
      MoveTo(cls, ff, other, size, at);
      SameShapeTrans(old(clauses), c1, clauses);
      SwapInto(old(clauses), c1, clauses, cls, other, ff, fo);
      return true, fo;
    }

    /** The first half of `MoveWatch`: `other` to the first slot and `ff` to the second. */
    method PutFirst(cls: nat, other: nat, ff: nat)
      requires Valid() && ValidLit(ff, vars) && ValidLit(other, vars) && ClauseStart(cls)
      requires cls + 2 < |clauses| && clauses[cls + 2] != 0
      modifies this`clauses
      ensures Valid() && SameShape(old(clauses), clauses) && ClauseStart(cls)
      ensures clauses == old(clauses)[cls := other][cls + 1 := ff]
    {
      assert Inside(clauses, cls, cls + 1);
      WriteTwo(cls, cls, other, cls + 1, ff);
    }

    /** The move of `MoveWatch` once the non-false literal at `fo` is found: it is swapped into
        the second slot, and the clause is now watched by it. */
    method MoveTo(cls: nat, ff: nat, other: nat, size: int, fo: nat)
      requires Valid() && ValidLit(ff, vars) && ValidLit(other, vars) && ClauseStart(cls) && size != 2
      requires cls + 2 <= fo < |clauses| && clauses[fo] != 0 && LitVal(clauses[fo]) != -1
      requires forall k :: cls + 2 <= k < fo ==> clauses[k] != 0
      modifies this`clauses, this`watches
      ensures Valid() && SameShape(old(clauses), clauses)
      ensures clauses == old(clauses)[cls + 1 := old(clauses[fo])][fo := ff]
      ensures watches == old(watches)[clauses[cls + 1] := old(watches)[clauses[cls + 1]] + [Watch(cls, other, size)]]
      ensures Total(watches) == old(Total(watches)) + 1
    {
      var nl := clauses[fo];
      assert Inside(clauses, cls, fo);
      WriteTwo(cls, cls + 1, nl, fo, ff);
      ShapeKeepsStart(old(clauses), clauses, cls);
      PushWatch(nl, Watch(cls, other, size));
    }

    /** Overwrites two literal slots of the clause at `p` with literals; a binary clause only has
        its two literals swapped. */
    method WriteTwo(ghost p: nat, a: nat, x: nat, b: nat, y: nat)
      requires Valid() && HeadIn(clauses, p) && Inside(clauses, p, a) && Inside(clauses, p, b)
      requires ValidLit(x, vars) && ValidLit(y, vars)
      requires BinAt(clauses, p) ==> a != b && x == clauses[b] && y == clauses[a]
      modifies this`clauses
      ensures Valid() && clauses == old(clauses)[a := x][b := y] && SameShape(old(clauses), clauses)
    {
      ghost var c0 := clauses;
      WriteKeepsShape(c0, p, a, x, b, y);
      clauses := clauses[a := x][b := y];
      ShapeKeepsWatches(c0, clauses, vars, watches);
      ShapeKeepsInfo(c0, clauses, origClausesSize, claInfo);
      forall v | 1 <= v < |vs| && vs[v].reason != 0
        ensures StartIn(clauses, vs[v].reason)
      {
        ShapeKeepsStart(c0, clauses, vs[v].reason);
      }
    }

    /** Appends a watch record for a clause of the arena to the list of `l`. */
    method PushWatch(l: nat, w: Watch)
      requires Valid() && ValidLit(l, vars) && WatchIn(clauses, vars, l, w)
      modifies this`watches
      ensures Valid() && watches == old(watches)[l := old(watches[l]) + [w]]
      ensures Total(watches) == old(Total(watches)) + 1
    {
      TotalUpdate(watches, l, watches[l] + [w]);
      watches := watches[l := watches[l] + [w]];
    }

    // -------------------------------------------------------------------------------------------
    // Adding clauses

    /** Appends `cl` and a terminator to the arena as a learned clause with the given metadata. */
    method AppendLearned(cl: seq<nat>, glue: int, used: int, totalUsed: int)
      requires Valid() && |cl| >= 2 && glue >= -1 && forall k :: 0 <= k < |cl| ==> ValidLit(cl[k], vars)
      modifies this`clauses, this`claInfo
      ensures Valid() && clauses == old(clauses) + cl + [0]
      ensures claInfo == old(claInfo) + [CInfo(old(|clauses|), glue, used, totalUsed)]
    {
      ghost var c := clauses;
      var e := CInfo(|clauses|, glue, used, totalUsed);
      AppendInfo(clauses, origClausesSize, claInfo, cl, e);
      clauses := clauses + cl + [0];
      claInfo := claInfo + [e];
      assert c <= clauses;
      ShapeKeepsWatches(c, clauses, vars, watches);
      forall v | 1 <= v < |vs| && vs[v].reason != 0
        ensures StartIn(clauses, vs[v].reason)
      {
        ShapeKeepsStart(c, clauses, vs[v].reason);
      }
      forall k | 0 <= k < |clauses|
        ensures clauses[k] == 0 || ValidLit(clauses[k], vars)
      {
        if k >= |c| && k < |c| + |cl| { assert clauses[k] == cl[k - |c|]; }
      }
    }

    /** Appends `cl` and a terminator to the arena while it holds no learned clause: the
        original region grows to the whole arena. */
    method AppendOrig(cl: seq<nat>)
      requires Valid() && |clauses| == origClausesSize
      requires |cl| >= 2 && forall k :: 0 <= k < |cl| ==> ValidLit(cl[k], vars)
      modifies this`clauses, this`origClausesSize
      ensures Valid() && clauses == old(clauses) + cl + [0] && origClausesSize == |clauses|
    {
      ghost var c := clauses;
      InfoFirst(clauses, origClausesSize, claInfo);
      clauses := clauses + cl + [0];
      origClausesSize := |clauses|;
      assert c <= clauses;
      ShapeKeepsWatches(c, clauses, vars, watches);
      forall v | 1 <= v < |vs| && vs[v].reason != 0
        ensures StartIn(clauses, vs[v].reason)
      {
        ShapeKeepsStart(c, clauses, vs[v].reason);
      }
      forall k | 0 <= k < |clauses|
        ensures clauses[k] == 0 || ValidLit(clauses[k], vars)
      {
        if k >= |c| && k < |c| + |cl| { assert clauses[k] == cl[k - |c|]; }
      }
    }

    /** Watches the clause of at least two literals at `pt` by its first two literals. */
    method AttachWatches(pt: nat, cl: seq<nat>)
      requires Valid() && |cl| >= 2 && ValidLit(cl[0], vars) && ValidLit(cl[1], vars) && ClauseStart(pt)
      requires ClauseAt(clauses, pt) == cl
      modifies this`watches
      ensures Valid() && watches == Attach(old(watches), pt, cl)
      ensures Total(watches) == old(Total(watches)) + 2
    {
      ClauseTwo(clauses, pt);
      PushWatch(cl[0], Watch(pt, cl[1], |cl|));
      PushWatch(cl[1], Watch(pt, cl[0], |cl|));
    }

    /** The glue `AddLearnedClause` records (by `GlueCountsLevels`, on a clause sorted by level,
        one more than the number of distinct levels of `clause[1..]`). */
    method CountGlue(clause: seq<nat>) returns (glue: int)
      requires |clause| >= 2
      ensures glue == GlueOf(vs, clause)
    {
      glue := 2;
      var i := 1;
      while i < |clause|
        invariant 1 <= i <= |clause| && glue == GlueOf(vs, clause[..i])
      {
        GlueOfStep(vs, clause, i);
        if i >= 2 && LevelIn(vs, clause[i]) < LevelIn(vs, clause[i - 1]) {
          glue := glue + 1;
        }
        i := i + 1;
      }
      assert clause[..|clause|] == clause;
    }

    /** Adds a learned clause at the end of the arena, watched by its first two literals, with
        metadata recording its glue, a recent use and no total use. Returns its offset. */
    method AddLearnedClause(clause: seq<nat>) returns (pt: nat)
      requires Valid() && |clause| >= 2 && forall k :: 0 <= k < |clause| ==> ValidLit(clause[k], vars)
      modifies this`clauses, this`claInfo, this`watches, this`stats
      ensures Valid() && ClauseStart(pt)
      ensures pt == old(|clauses|) && clauses == old(clauses) + clause + [0] && ClauseAt(clauses, pt) == clause
      ensures watches == Attach(old(watches), pt, clause) && Total(watches) == old(Total(watches)) + 2
      ensures claInfo == old(claInfo) + [CInfo(pt, GlueOf(vs, clause), 1, 0)]
      ensures stats == old(stats).(learnedClauses := old(stats).learnedClauses + 1,
                                   learnedBinClauses := old(stats).learnedBinClauses + if |clause| == 2 then 1 else 0)
    {
      var glue := CountGlue(clause);
      pt := StoreLearned(clause, glue);
    }

    /** Appends a learned clause with the given glue, watches its first two literals and counts it. */
    method StoreLearned(clause: seq<nat>, glue: int) returns (pt: nat)
      requires Valid() && |clause| >= 2 && forall k :: 0 <= k < |clause| ==> ValidLit(clause[k], vars)
      requires glue >= -1
      modifies this`clauses, this`claInfo, this`watches, this`stats
      ensures Valid() && ClauseStart(pt)
      ensures pt == old(|clauses|) && clauses == old(clauses) + clause + [0] && ClauseAt(clauses, pt) == clause
      ensures watches == Attach(old(watches), pt, clause) && Total(watches) == old(Total(watches)) + 2
      ensures claInfo == old(claInfo) + [CInfo(pt, glue, 1, 0)]
      ensures stats == old(stats).(learnedClauses := old(stats).learnedClauses + 1,
                                   learnedBinClauses := old(stats).learnedBinClauses + if |clause| == 2 then 1 else 0)
    {
      CountLearned(|clause| == 2);
      ghost var c0 := clauses;
      pt := |clauses|;
      AppendLearned(clause, glue, 1, 0);
      AppendedClause(c0, clause);
      AttachWatches(pt, clause);
    }

    method CountLearned(bin: bool)
      requires Valid()
      modifies this`stats
      ensures Valid()
      ensures stats == old(stats).(learnedClauses := old(stats).learnedClauses + 1,
                                   learnedBinClauses := old(stats).learnedBinClauses + if bin then 1 else 0)
    {
      stats := stats.(learnedClauses := stats.learnedClauses + 1);
      if bin {
        stats := stats.(learnedBinClauses := stats.learnedBinClauses + 1);
      }
    }

    // -------------------------------------------------------------------------------------------
    // Conflict analysis

    /** The index of the metadata of the learned clause at `cls`, found by a galloping search
        over the offsets, which increase strictly. */
    method FindInfo(cls: nat) returns (i: nat)
      requires Valid() && ClauseStart(cls) && cls >= origClausesSize
      ensures i < |claInfo| && claInfo[i].pt == cls
    {
      assert cls in Pts(claInfo);
      ghost var a :| 0 <= a < |claInfo| && claInfo[a].pt == cls;
      i := 0;
      var b := |claInfo| / 2;
      while b >= 1
        invariant i <= a && a - i <= 2 * b
        decreases b
      {
        while i + b < |claInfo| && claInfo[i + b].pt <= cls
          invariant i <= a
          decreases a - i
        {
          i := i + b;
        }
        b := b / 2;
      }
    }

    /** Stamps the decision levels of the literals of the clause at `cls` with a fresh stamp and
        counts the distinct ones. */
    method ClauseLevels(cls: nat) returns (glue: int)
      requires Valid() && ClauseStart(cls)
      modifies this`lvlSeen, this`lvlIt
      ensures Valid() && lvlIt == old(lvlIt) + 1
      ensures glue == |LevelSet(vs, ClauseAt(clauses, cls))|
      ensures forall l :: l in LevelSet(vs, ClauseAt(clauses, cls)) <==> l in lvlSeen && lvlSeen[l] == lvlIt
    {
      NewStamp();
      glue := CountLevels(cls);
    }

    /** The loop of `ClauseLevels`, over the part of the object invariant it needs. */
    method CountLevels(cls: nat) returns (glue: int)
      requires LvlOk() && cls <= |clauses| && forall l :: !(l in lvlSeen && lvlSeen[l] == lvlIt)
      modifies this`lvlSeen
      ensures LvlOk()
      ensures glue == |LevelSet(vs, ClauseAt(clauses, cls))|
      ensures forall l :: l in LevelSet(vs, ClauseAt(clauses, cls)) <==> l in lvlSeen && lvlSeen[l] == lvlIt
    {
      glue := 0;
      var k := cls;
      assert clauses[cls..k] == [];
      while At(clauses, k) != 0
        invariant cls <= k <= |clauses| && LvlOk()
        invariant ClauseAt(clauses, cls) == clauses[cls..k] + ClauseAt(clauses, k)
        invariant forall l :: l in lvlSeen && lvlSeen[l] == lvlIt <==> l in LevelSet(vs, clauses[cls..k])
        invariant glue == |LevelSet(vs, clauses[cls..k])|
        decreases |clauses| - k
      {
        glue := StampLevel(cls, k, glue);
        k := k + 1;
      }
      assert ClauseAt(clauses, k) == [];
      assert ClauseAt(clauses, cls) == clauses[cls..k];
    }

    /** Starts a new round of level stamps: no level carries the new stamp yet. */
    method NewStamp()
      requires Valid()
      modifies this`lvlIt
      ensures Valid() && lvlIt == old(lvlIt) + 1
      ensures forall l :: !(l in lvlSeen && lvlSeen[l] == lvlIt)
    {
      lvlIt := lvlIt + 1;
    }

    /** One step of `ClauseLevels`: the level of the literal at `k` is stamped, and counted when
        it was not stamped yet. */
    method StampLevel(cls: nat, k: nat, glue: int) returns (glue': int)
      requires LvlOk() && cls <= k < |clauses| && clauses[k] != 0
      requires forall l :: l in lvlSeen && lvlSeen[l] == lvlIt <==> l in LevelSet(vs, clauses[cls..k])
      requires glue == |LevelSet(vs, clauses[cls..k])|
      requires ClauseAt(clauses, cls) == clauses[cls..k] + ClauseAt(clauses, k)
      modifies this`lvlSeen
      ensures LvlOk() && ClauseAt(clauses, cls) == clauses[cls..k + 1] + ClauseAt(clauses, k + 1)
      ensures forall l :: l in lvlSeen && lvlSeen[l] == lvlIt <==> l in LevelSet(vs, clauses[cls..k + 1])
      ensures glue' == |LevelSet(vs, clauses[cls..k + 1])|
    {
      var lev := LevelIn(vs, clauses[k]);
      ClauseAtAdvance(clauses, cls, k);
      ghost var S := LevelSet(vs, clauses[cls..k]);
      assert clauses[cls..k + 1] == clauses[cls..k] + [clauses[k]];
      LevelSetSnoc(vs, clauses[cls..k], clauses[k]);
      assert LevelSet(vs, clauses[cls..k + 1]) == S + {lev};
      if lev !in lvlSeen || lvlSeen[lev] != lvlIt {
        CardAdd(S, lev);
        glue' := glue + 1;
      } else {
        assert S + {lev} == S;
        glue' := glue;
      }
      SetStamp(lev);
    }

    method SetStamp(lev: int)
      requires LvlOk()
      modifies this`lvlSeen
      ensures LvlOk() && lvlSeen == old(lvlSeen)[lev := lvlIt]
    {
      lvlSeen := lvlSeen[lev := lvlIt];
    }

    /** Records the new glue `glue` of the learned clause `claInfo[i]`, marks it used and counts
        the use. */
    method SetBumped(i: nat, cls: nat, glue: int)
      requires Valid() && i < |claInfo| && claInfo[i].pt == cls && claInfo[i].glue != -1 && glue >= -1
      modifies this`claInfo
      ensures Valid() && BumpedInfo(old(claInfo), claInfo, cls, glue)
    {
      BumpedOne(claInfo, i, cls, glue);
      SetInfo(i, CInfo(cls, glue, 1, claInfo[i].totalUsed + 1));
    }

    method SetInfo(i: nat, e: CInfo)
      requires Valid() && i < |claInfo| && e.pt == claInfo[i].pt && e.glue >= -1
      modifies this`claInfo
      ensures Valid() && claInfo == old(claInfo)[i := e]
    {
      InfoUpdate(clauses, origClausesSize, claInfo, i, e);
      claInfo := claInfo[i := e];
    }

    /** Refreshes the metadata of a clause used in conflict analysis. Nothing changes for an
        original clause or a clause added with glue -1; otherwise the glue becomes the number of
        distinct decision levels among its literals, it is marked as recently used and its total
        use grows by one. */
    method BumpClause(cls: nat)
      requires Valid() && ClauseStart(cls)
      modifies this`claInfo, this`lvlSeen, this`lvlIt
      ensures Valid()
      ensures BumpedInfo(old(claInfo), claInfo, cls, |LevelSet(vs, ClauseAt(clauses, cls))|)
    {
      if cls < origClausesSize {
        BumpedNone(claInfo, cls, |LevelSet(vs, ClauseAt(clauses, cls))|);
        return;
      }
      var i := FindInfo(cls);
      if claInfo[i].glue == -1 {
        BumpedNone(claInfo, cls, |LevelSet(vs, ClauseAt(clauses, cls))|);
        return;
      }
      BumpLearned(cls, i);
    }

    /** `BumpClause` on the learned clause described by `claInfo[i]`. */
    method BumpLearned(cls: nat, i: nat)
      requires Valid() && ClauseStart(cls) && i < |claInfo| && claInfo[i].pt == cls && claInfo[i].glue != -1
      modifies this`claInfo, this`lvlSeen, this`lvlIt
      ensures Valid()
      ensures BumpedInfo(old(claInfo), claInfo, cls, |LevelSet(vs, ClauseAt(clauses, cls))|)
    {
      var glue := ClauseLevels(cls);
      SetBumped(i, cls, glue);
    }

    // -------------------------------------------------------------------------------------------
    // The redundancy search of conflict minimisation

    /** The stack of the redundancy search holds literals whose variables have reasons. */
    ghost predicate StackOk()
      reads this`reduS, this`vs
    {
      StackIn(reduS, vars, vs)
    }

    /** A literal that makes a search fail: not in the learned clause, above level 1, and a
        decision (no reason). */
    ghost predicate Blocking(t: nat)
      reads this`inCc, this`vs
    {
      ValidLit(t, vars) && t < |inCc| && !inCc[t] && LevelIn(vs, t) > 1 && VarOf(t) < |vs| && vs[VarOf(t)].reason == 0
    }

    /** Why a redundancy search fails: a blocking literal, or a reason clause that does not start
        with the literal it implies. */
    ghost predicate Stuck()
      reads this`inCc, this`vs, this`clauses
    {
      (exists t :: Blocking(t)) || (exists l :: ValidLit(l, vars) && Misoriented(clauses, vs, l))
    }

    /** Whether `lit` is implied by the literals of the learned clause and those at level at most
        1: a depth-first search over reason clauses from `lit`, stamping each literal it pushes.
        On success every stamped literal, and `lit`, has a reason whose other literals are all
        settled; on failure a blocking literal was met (or a reason clause did not start with its
        implied literal). Each round counts one memory access; a search of two rounds or more that
        succeeds is counted as non-trivial. */
    method LitReduntant(lit: nat) returns (r: bool)
      requires Valid() && ValidLit(lit, vars) && VarOf(lit) < |vs| && vs[VarOf(lit)].reason != 0
      modifies this`clauses, this`reduIt, this`reduSeen, this`reduS, this`stats
      ensures Valid() && SameShape(old(clauses), clauses) && reduS == [] && reduIt == old(reduIt) + 1
      ensures r ==> Closed(clauses, vs, inCc, reduSeen, reduIt, lit)
      ensures r ==> forall l: nat :: l < |reduSeen| && reduSeen[l] == reduIt ==> Closed(clauses, vs, inCc, reduSeen, reduIt, l)
      ensures !r ==> Stuck()
      ensures stats == old(stats).(mems := stats.mems, nontrivRedu := stats.nontrivRedu) && stats.mems > old(stats.mems)
      ensures stats.nontrivRedu == old(stats.nontrivRedu) + (if r && stats.mems >= old(stats.mems) + 2 then 1 else 0)
    {
      StartRedu(lit);
      var its;
      r, its := ReduSearch(lit);
      CountRedu(its, r);
    }

    /** The counters of a redundancy search of `its` rounds with outcome `r`. */
    method CountRedu(its: nat, r: bool)
      requires Valid()
      modifies this`stats
      ensures Valid()
      ensures stats == old(stats).(mems := old(stats).mems + its,
                                   nontrivRedu := old(stats).nontrivRedu + (if r && its >= 2 then 1 else 0))
    {
      stats := stats.(mems := stats.mems + its);
      if r && its >= 2 {
        stats := stats.(nontrivRedu := stats.nontrivRedu + 1);
      }
    }

    /** The loop of `LitReduntant`, from the stack `[lit]` and a fresh stamp; `its` counts the
        rounds. */
    method ReduSearch(lit: nat) returns (r: bool, its: nat)
      requires Valid() && reduS == [lit] && StackOk()
      requires forall t :: 0 <= t < |reduSeen| ==> reduSeen[t] != reduIt
      modifies this`clauses, this`reduSeen, this`reduS
      ensures Valid() && SameShape(old(clauses), clauses) && reduS == [] && its >= 1
      ensures r ==> Closed(clauses, vs, inCc, reduSeen, reduIt, lit)
      ensures r ==> forall l: nat :: l < |reduSeen| && reduSeen[l] == reduIt ==> Closed(clauses, vs, inCc, reduSeen, reduIt, l)
      ensures !r ==> Stuck()
    {
      ghost var c0 := clauses;
      ghost var P: set<nat> := {};
      its := 0;
      while reduS != []
        invariant Valid() && SameShape(c0, clauses)
        invariant SearchIn(clauses, vars, vs, inCc, reduSeen, reduIt, P, reduS, lit) && (its == 0 ==> reduS != [])
        decreases Unstamped(reduSeen, reduIt, |reduSeen|), |reduS|
      {
        its := its + 1;
        ghost var c1 := clauses;
        var fail;
        fail, P := ReduStep(P, lit);
        SameShapeTrans(c0, c1, clauses);
        if fail {
          return false, its;
        }
      }
      SearchDone(clauses, vs, inCc, reduSeen, reduIt, P, lit);
      return true, its;
    }

    /** Starts a redundancy search at `lit`: a fresh stamp, and `lit` alone on the stack. */
    method StartRedu(lit: nat)
      requires Valid() && ValidLit(lit, vars) && VarOf(lit) < |vs| && vs[VarOf(lit)].reason != 0
      modifies this`reduIt, this`reduS
      ensures Valid() && reduIt == old(reduIt) + 1 && reduS == [lit] && StackOk()
      ensures forall t :: 0 <= t < |reduSeen| ==> reduSeen[t] != reduIt
    {
      reduIt := reduIt + 1;
      reduS := [lit];
      forall t | 0 <= t < |reduSeen|
        ensures StampAtMost(reduSeen, t, reduIt) && reduSeen[t] != reduIt
      {
        assert StampAtMost(reduSeen, t, reduIt - 1);
      }
    }

    method ClearRedu()
      requires Valid() && Stuck()
      modifies this`reduS
      ensures Valid() && Stuck() && reduS == []
    {
      reduS := [];
    }

    /** One round of `LitReduntant`: the top literal is popped, its reason clause is oriented and
        its literals scanned. On success the search state is kept with the popped literal
        processed, and the pair (unstamped slots, stack height) decreases; on failure the stack
        is cleared. */
    method ReduStep(ghost P: set<nat>, ghost lit: nat) returns (fail: bool, ghost P': set<nat>)
      requires Valid() && reduS != [] && SearchIn(clauses, vars, vs, inCc, reduSeen, reduIt, P, reduS, lit)
      modifies this`clauses, this`reduSeen, this`reduS
      ensures Valid() && SameShape(old(clauses), clauses)
      ensures fail ==> Stuck() && reduS == []
      ensures !fail ==> SearchIn(clauses, vars, vs, inCc, reduSeen, reduIt, P', reduS, lit)
      ensures !fail ==> Lower(Unstamped(reduSeen, reduIt, |reduSeen|), |reduS|,
                              old(Unstamped(reduSeen, reduIt, |reduSeen|)), old(|reduS|))
    {
      ghost var sOld, uOld := reduS, Unstamped(reduSeen, reduIt, |reduSeen|);
      var l := PopRedu();
      fail, P' := ReduRound(l, P, lit, sOld, uOld);
    }

    /** The round of `ReduStep` after `l` was popped off `sOld`. */
    method ReduRound(l: nat, ghost P: set<nat>, ghost lit: nat, ghost sOld: seq<nat>, ghost uOld: nat)
      returns (fail: bool, ghost P': set<nat>)
      requires Valid() && StackOk() && sOld == reduS + [l] && uOld == Unstamped(reduSeen, reduIt, |reduSeen|)
      requires ValidLit(l, vars) && VarOf(l) < |vs| && vs[VarOf(l)].reason != 0
      requires ClosedAll(clauses, vs, inCc, reduSeen, reduIt, P) && Tracked(reduSeen, reduIt, P, sOld)
      requires lit in P || lit in sOld
      modifies this`clauses, this`reduSeen, this`reduS
      ensures Valid() && SameShape(old(clauses), clauses)
      ensures fail ==> Stuck() && reduS == []
      ensures !fail ==> SearchIn(clauses, vars, vs, inCc, reduSeen, reduIt, P', reduS, lit)
      ensures !fail ==> Lower(Unstamped(reduSeen, reduIt, |reduSeen|), |reduS|, uOld, |sOld|)
    {
      ghost var c0 := clauses;
      assert ReasonsOk();
      var ok := OrientReason(l);
      if !ok {
        ClearRedu();
        return true, P;
      }
      fail, P' := ScanRound(l, P, lit, sOld, uOld, c0);
    }

    /** The scan of the reason clause of `l`, oriented from `c0`, in the round of `ReduRound`. */
    method ScanRound(l: nat, ghost P: set<nat>, ghost lit: nat, ghost sOld: seq<nat>, ghost uOld: nat,
                     ghost c0: seq<nat>) returns (fail: bool, ghost P': set<nat>)
      requires Valid() && StackOk() && sOld == reduS + [l] && uOld == Unstamped(reduSeen, reduIt, |reduSeen|)
      requires ValidLit(l, vars) && VarOf(l) < |vs| && vs[VarOf(l)].reason != 0
      requires ClosedAll(c0, vs, inCc, reduSeen, reduIt, P) && Tracked(reduSeen, reduIt, P, sOld)
      requires lit in P || lit in sOld
      requires ReasonsIn(c0, vs) && Permutes(c0, clauses)
      requires StartIn(clauses, vs[VarOf(l)].reason) && clauses[vs[VarOf(l)].reason] == Neg(l)
      modifies this`reduSeen, this`reduS
      ensures Valid()
      ensures fail ==> Stuck() && reduS == []
      ensures !fail ==> SearchIn(clauses, vars, vs, inCc, reduSeen, reduIt, P', reduS, lit)
      ensures !fail ==> Lower(Unstamped(reduSeen, reduIt, |reduSeen|), |reduS|, uOld, |sOld|)
    {
      P' := P;
      ghost var rs0, s0 := reduSeen, reduS;
      var blocked := ScanReason(vs[VarOf(l)].reason, s0, rs0, uOld);
      if blocked {
        ClearRedu();
        return true, P';
      }
      fail, P' := false, P + {l};
      RoundStep(c0, clauses, vars, vs, inCc, rs0, reduSeen, reduIt, P, l, lit, s0, reduS, sOld, uOld);
    }

    /** Pops the top of the redundancy stack. */
    method PopRedu() returns (l: nat)
      requires StackOk() && reduS != []
      modifies this`reduS
      ensures StackOk() && old(reduS) == reduS + [l]
      ensures ValidLit(l, vars) && VarOf(l) < |vs| && vs[VarOf(l)].reason != 0
    {
      l := reduS[|reduS| - 1];
      reduS := reduS[..|reduS| - 1];
      assert old(reduS) == reduS + [l];
    }

    /** Brings the implied literal `Neg(l)` to the front of the reason clause of `l` when it is
        not there, by swapping the first two literals, and tells whether it is now first. */
    method OrientReason(l: nat) returns (ok: bool)
      requires Valid() && ValidLit(l, vars) && VarOf(l) < |vs| && vs[VarOf(l)].reason != 0
      modifies this`clauses
      ensures Valid() && SameShape(old(clauses), clauses)
      ensures Permutes(old(clauses), clauses)
      ensures StartIn(clauses, vs[VarOf(l)].reason)
      ensures ok <==> clauses[vs[VarOf(l)].reason] == Neg(l)
      ensures !ok ==> Stuck()
    {
      var rc := vs[VarOf(l)].reason;
      LitVarPair(l, vars);
      assert StartIn(clauses, rc);
      if clauses[rc] != Neg(l) {
        ghost var c0 := clauses;
        WriteTwo(rc, rc, clauses[rc + 1], rc + 1, clauses[rc]);
        forall p | StartIn(c0, p)
          ensures multiset(ClauseAt(clauses, p)) == multiset(ClauseAt(c0, p))
        {
          SwapKeepsClauses(c0, rc, p);
        }
      }
      ok := clauses[rc] == Neg(l);
      if !ok {
        assert ValidLit(l, vars) && Misoriented(clauses, vs, l);
      }
    }

    /** The state of a scan of the reason clause at `rc` after its slots `rc+1..k` were read. */
    ghost predicate ReduScan(rc: nat, k: nat, s0: seq<nat>, rs0: seq<int>, u0: nat)
      reads this`clauses, this`vs, this`reduS, this`reduSeen, this`reduIt, this`inCc
    {
      ScanIn(clauses, vars, vs, inCc, reduSeen, reduIt, reduS, rc, k, s0, rs0, u0)
    }

    /** Reads the literals of the reason clause at `rc` after its first: each literal outside the
        learned clause and above level 1 either blocks the search (it has no reason) or is pushed
        and stamped unless stamped already. */
    method ScanReason(rc: nat, ghost s0: seq<nat>, ghost rs0: seq<int>, ghost u0: nat) returns (blocked: bool)
      requires Valid() && StartIn(clauses, rc) && StackOk()
      requires s0 == reduS && rs0 == reduSeen && u0 == Unstamped(reduSeen, reduIt, |reduSeen|)
      modifies this`reduSeen, this`reduS
      ensures Valid()
      ensures blocked ==> Stuck()
      ensures !blocked ==> ScanOut(clauses, vars, vs, inCc, reduSeen, reduIt, reduS, rc, s0, rs0, u0)
    {
      blocked := ScanLits(rc);
    }

    /** The loop of `ScanReason`, over the parts of the object invariant it needs. */
    method ScanLits(rc: nat) returns (blocked: bool)
      requires ArenaOk() && SizesOk() && ReduOk() && StartIn(clauses, rc) && StackOk()
      modifies this`reduSeen, this`reduS
      ensures ReduOk()
      ensures blocked ==> exists t :: Blocking(t)
      ensures !blocked ==> ScanOut(clauses, vars, vs, inCc, reduSeen, reduIt, reduS, rc, old(reduS), old(reduSeen),
                                   old(Unstamped(reduSeen, reduIt, |reduSeen|)))
    {
      ghost var s0, rs0, u0 := reduS, reduSeen, Unstamped(reduSeen, reduIt, |reduSeen|);
      ScanBegins(clauses, vars, vs, inCc, reduSeen, reduIt, reduS, rc);
      var k;
      k, blocked := ScanFrom(rc, s0, rs0, u0);
      if !blocked {
        ScanDone(clauses, vars, vs, inCc, reduSeen, reduIt, reduS, rc, k, s0, rs0, u0);
      }
    }

    /** Visits the literals of the reason clause at `rc` until the terminator or a blocking one. */
    method ScanFrom(rc: nat, ghost s0: seq<nat>, ghost rs0: seq<int>, ghost u0: nat) returns (k: nat, blocked: bool)
      requires ArenaOk() && SizesOk() && ReduOk() && ReduScan(rc, rc + 1, s0, rs0, u0)
      modifies this`reduSeen, this`reduS
      ensures ReduOk()
      ensures blocked ==> exists t :: Blocking(t)
      ensures !blocked ==> ReduScan(rc, k, s0, rs0, u0) && At(clauses, k) == 0
    {
      k := rc + 1;
      while At(clauses, k) != 0
        invariant ReduOk() && ReduScan(rc, k, s0, rs0, u0)
        decreases |clauses| - k
      {
        blocked := ReduVisit(rc, k, s0, rs0, u0);
        if blocked {
          return;
        }
        k := k + 1;
      }
      return k, false;
    }

    /** One literal of `ScanLits`. */
    method ReduVisit(rc: nat, k: nat, ghost s0: seq<nat>, ghost rs0: seq<int>, ghost u0: nat) returns (blocked: bool)
      requires ArenaOk() && SizesOk() && ReduOk() && ReduScan(rc, k, s0, rs0, u0) && k < |clauses| && clauses[k] != 0
      modifies this`reduSeen, this`reduS
      ensures ReduOk()
      ensures blocked ==> exists t :: Blocking(t)
      ensures !blocked ==> ReduScan(rc, k + 1, s0, rs0, u0)
    {
      var t := clauses[k];
      LitVarPair(t, vars);
      if !inCc[t] && vs[VarOf(t)].level > 1 {
        if vs[VarOf(t)].reason == 0 {
          assert Blocking(t);
          return true;
        }
        if reduSeen[t] != reduIt {
          ScanPushed(clauses, vars, vs, inCc, reduSeen, reduIt, reduS, rc, k, s0, rs0, u0);
          PushStamped(t);
          return false;
        }
      }
      ScanSettled(clauses, vars, vs, inCc, reduSeen, reduIt, reduS, rc, k, s0, rs0, u0);
      return false;
    }

    /** Stamps `t` with the current round and pushes it. */
    method PushStamped(t: nat)
      requires ReduOk() && StackOk() && ValidLit(t, vars) && VarOf(t) < |vs| && vs[VarOf(t)].reason != 0 && t < |reduSeen|
      modifies this`reduSeen, this`reduS
      ensures ReduOk() && StackOk()
      ensures reduSeen == old(reduSeen)[t := reduIt] && reduS == old(reduS) + [t]
    {
      ghost var rs0 := reduSeen;
      reduSeen := reduSeen[t := reduIt];
      reduS := reduS + [t];
      forall t' | 0 <= t' < |reduSeen|
        ensures StampAtMost(reduSeen, t', reduIt)
      {
        assert StampAtMost(rs0, t', reduIt);
      }
    }
  
    // -------------------------------------------------------------------------------------------
    // Clause ingestion

    /** Makes `unit` a fact of level 1. An oracle that is already unsatisfiable fails at once; a
        false unit makes it unsatisfiable; a true unit changes nothing; otherwise the unit is
        decided at level 1, counted as a learned unit and propagated, and a conflict makes the
        oracle unsatisfiable. The result says whether the oracle is still satisfiable. */
    method FreezeUnit(unit: nat) returns (ok: bool)
      requires Valid() && ValidLit(unit, vars)
      modifies this`unsat, this`clauses, this`watches, this`litVal, this`vs, this`decided, this`propQ, this`stats
      ensures Valid() && (ok <==> !unsat) && (old(unsat) ==> unsat)
      ensures old(HeapCovers()) ==> HeapCovers()
      ensures old(propQ) == [] ==> propQ == []
      ensures stats.mems >= old(stats.mems) && |clauses| == |old(clauses)|
      ensures ok ==> LitVal(unit) == 1
      ensures !old(unsat) && old(LitVal(unit)) == -1 ==> !ok
      ensures !old(unsat) && old(LitVal(unit)) == 1 ==> ok
      ensures old(unsat) || old(LitVal(unit)) != 0 ==>
                litVal == old(litVal) && decided == old(decided) && propQ == old(propQ) && stats == old(stats)
      ensures KeepsAssigned(old(litVal), litVal)
      ensures stats.learnedUnits == old(stats.learnedUnits) + (if old(unsat) || old(LitVal(unit)) != 0 then 0 else 1)
    {
      if unsat {
        return false;
      }
      if LitVal(unit) == -1 {
        unsat := true;
        return false;
      }
      if LitVal(unit) == 1 {
        return true;
      }
      LitVarPair(unit, vars);
      ok := FreezeNew(unit);
    }

    /** `FreezeUnit` of an unassigned unit. */
    method FreezeNew(unit: nat) returns (ok: bool)
      requires Valid() && ValidLit(unit, vars) && !unsat && LitVal(unit) == 0
      modifies this`unsat, this`clauses, this`watches, this`litVal, this`vs, this`decided, this`propQ, this`stats
      ensures Valid() && propQ == [] && (ok <==> !unsat)
      ensures old(HeapCovers()) ==> HeapCovers()
      ensures stats.mems >= old(stats.mems) && |clauses| == |old(clauses)|
      ensures ok ==> LitVal(unit) == 1
      ensures KeepsAssigned(old(litVal), litVal)
      ensures stats.learnedUnits == old(stats.learnedUnits) + 1
    {
      ghost var lv0 := litVal;
      DecideUnit(unit);
      ghost var lv1 := litVal;
      var confl := Propagate(1);
      KeepsTrans(lv0, lv1, litVal);
      ok := confl == 0;
      unsat := !ok;
    }

    /** The decision of `FreezeNew`, counted as a learned unit. */
    method DecideUnit(unit: nat)
      requires Valid() && ValidLit(unit, vars) && LitVal(unit) == 0
      modifies this`litVal, this`vs, this`decided, this`propQ, this`stats
      ensures Valid() && LitVal(unit) == 1 && KeepsAssigned(old(litVal), litVal)
      ensures old(HeapCovers()) ==> HeapCovers()
      ensures stats == old(stats).(learnedUnits := old(stats).learnedUnits + 1)
    {
      LitVarPair(unit, vars);
      Decide(unit, 1);
      CountUnit();
    }

    method CountUnit()
      modifies this`stats
      ensures stats == old(stats).(learnedUnits := old(stats).learnedUnits + 1)
    {
      stats := stats.(learnedUnits := stats.learnedUnits + 1);
    }

    /** The filter loop of clause ingestion on a copy of `clause`: whether a literal is true,
        and otherwise what remains once the false literals are deleted. */
    method StripClause(clause: seq<nat>) returns (sat: bool, cl: seq<nat>)
      ensures sat <==> FilterFrom(litVal, clause, 0) == Satisfied
      ensures !sat ==> FilterFrom(litVal, clause, 0) == Remaining(cl) && |cl| <= |clause|
    {
      cl := clause;
      var i := 0;
      while i < |cl|
        invariant i <= |cl| <= |clause| && FilterFrom(litVal, cl, i) == FilterFrom(litVal, clause, 0)
        decreases |cl| - i
      {
        if LitVal(cl[i]) == 1 {
          return true, cl;
        }
        if LitVal(cl[i]) == -1 {
          cl := SwapDel(cl, i);
        } else {
          i := i + 1;
        }
      }
      return false, cl;
    }

    /** Adds a clause of the problem, or one it entails, at level 1. A clause with a true literal
        changes nothing. Otherwise its false literals are deleted and a clause that is not
        entailed empties the solution cache; then no remaining literal makes the oracle
        unsatisfiable, one is frozen as a unit, and two or more are appended to the arena and
        watched by their first two literals: the clause extends the original region while no
        learned clause follows it, and is registered as a learned clause of glue -1 and use -1
        otherwise. */
    method AddOrigClause(clause: seq<nat>, entailed: bool)
      requires Valid() && forall k :: 0 <= k < |clause| ==> ValidLit(clause[k], vars)
      modifies this`unsat, this`solCache, this`clauses, this`origClausesSize, this`claInfo, this`watches,
               this`litVal, this`vs, this`decided, this`propQ, this`stats
      ensures Valid()
      ensures old(HeapCovers()) ==> HeapCovers()
      ensures FilterFrom(old(litVal), clause, 0) == Satisfied ==>
                && clauses == old(clauses) && watches == old(watches) && claInfo == old(claInfo)
                && unsat == old(unsat) && solCache == old(solCache) && litVal == old(litVal)
      ensures FilterFrom(old(litVal), clause, 0).Remaining? ==>
                var cl := FilterFrom(old(litVal), clause, 0).lits;
                && KeepsOpen(old(litVal), clause, cl)
                && (!entailed ==> CacheCleared())
                && (|cl| == 0 ==> unsat)
                && (|cl| == 1 ==> (!unsat ==> LitVal(cl[0]) == 1))
                && (|cl| >= 2 ==> AddedOrig(old(clauses), old(origClausesSize), old(claInfo), old(watches), cl) && unsat == old(unsat))
      ensures old(origClausesSize) == old(|clauses|) ==> origClausesSize == |clauses| && claInfo == old(claInfo)
    {
      var sat, cl := StripClause(clause);
      FilterMeaning(litVal, clause);
      if sat {
        return;
      }
      RemainingValid(litVal, clause, cl, vars);
      AddRemaining(cl, entailed);
    }

    /** Every cache column is empty. */
    ghost predicate CacheCleared()
      reads this`solCache
    {
      forall v :: 1 <= v <= vars ==> v < |solCache| && solCache[v] == []
    }

    /** The part of `AddOrigClause` after filtering: `cl` is what remains; the cache is cleared
        unless the clause is `entailed`. */
    method AddRemaining(cl: seq<nat>, entailed: bool)
      requires Valid() && forall k :: 0 <= k < |cl| ==> ValidLit(cl[k], vars)
      modifies this`unsat, this`solCache, this`clauses, this`origClausesSize, this`claInfo, this`watches,
               this`litVal, this`vs, this`decided, this`propQ, this`stats
      ensures Valid() && (!entailed ==> CacheCleared())
      ensures old(HeapCovers()) ==> HeapCovers()
      ensures |cl| == 0 ==> unsat
      ensures |cl| == 1 ==> (!unsat ==> LitVal(cl[0]) == 1)
      ensures |cl| >= 2 ==> AddedOrig(old(clauses), old(origClausesSize), old(claInfo), old(watches), cl) && unsat == old(unsat)
      ensures old(origClausesSize) == old(|clauses|) ==> origClausesSize == |clauses| && claInfo == old(claInfo)
    {
      if !entailed {
        ClearSolCache();
      }
      PlaceClause(cl);
    }

    /** `AddRemaining` once the cache is settled. */
    method PlaceClause(cl: seq<nat>)
      requires Valid() && forall k :: 0 <= k < |cl| ==> ValidLit(cl[k], vars)
      modifies this`unsat, this`clauses, this`origClausesSize, this`claInfo, this`watches,
               this`litVal, this`vs, this`decided, this`propQ, this`stats
      ensures Valid()
      ensures old(HeapCovers()) ==> HeapCovers()
      ensures |cl| == 0 ==> unsat
      ensures |cl| == 1 ==> (!unsat ==> LitVal(cl[0]) == 1)
      ensures |cl| >= 2 ==> AddedOrig(old(clauses), old(origClausesSize), old(claInfo), old(watches), cl) && unsat == old(unsat)
      ensures old(origClausesSize) == old(|clauses|) ==> origClausesSize == |clauses| && claInfo == old(claInfo)
    {
      if |cl| == 0 {
        unsat := true;
        return;
      }
      if |cl| == 1 {
        var ok := FreezeUnit(cl[0]);
        return;
      }
      AttachNew(cl);
    }

    /** The arena, original region, metadata and watches after adding the clause `cl` of at
        least two literals at level 1 (see `AddOrigClause`). */
    ghost predicate AddedOrig(c0: seq<nat>, orig0: nat, ci0: seq<CInfo>, w0: seq<seq<Watch>>, cl: seq<nat>)
      reads this`clauses, this`origClausesSize, this`claInfo, this`watches
    {
      && clauses == c0 + cl + [0] && watches == Attach(w0, |c0|, cl) && ClauseAt(clauses, |c0|) == cl
      && (|c0| == orig0 ==> origClausesSize == |clauses| && claInfo == ci0)
      && (|c0| != orig0 ==> origClausesSize == orig0 && claInfo == ci0 + [CInfo(|c0|, -1, -1, 0)])
    }

    /** Appends a filtered clause of at least two literals and watches it. */
    method AttachNew(cl: seq<nat>)
      requires Valid() && |cl| >= 2 && forall k :: 0 <= k < |cl| ==> ValidLit(cl[k], vars)
      modifies this`clauses, this`origClausesSize, this`claInfo, this`watches
      ensures Valid() && AddedOrig(old(clauses), old(origClausesSize), old(claInfo), old(watches), cl)
    {
      ghost var c0 := clauses;
      var pt := |clauses|;
      if |clauses| == origClausesSize {
        AppendOrig(cl);
      } else {
        AppendLearned(cl, -1, -1, 0);
      }
      AppendedClause(c0, cl);
      AttachWatches(pt, cl);
    }

    /** Adds a clause after trying to shorten it. Nothing is added when the oracle is
        unsatisfiable or a literal of the clause is true; false literals are deleted, and at most
        one remaining literal goes to `AddOrigClause`. Otherwise, for each literal `tp` in turn,
        the negations of all the others are decided at level 2 and propagated: a conflict or a
        false `tp` shows that the clause without `tp` is entailed, which is added instead (by
        recursion, as an entailed clause); a true `tp` moves on to the next literal; an
        unassigned `tp` adds the clause as it is. The result says whether a clause was added;
        `added` is that clause, literals of the filtered clause with at most their
        multiplicity there. */
    method AddClauseIfNeededAndStr(clause: seq<nat>, entailed: bool) returns (r: bool, ghost added: seq<nat>)
      requires Valid() && forall k :: 0 <= k < |clause| ==> ValidLit(clause[k], vars)
      modifies this`unsat, this`solCache, this`clauses, this`origClausesSize, this`claInfo, this`watches,
               this`litVal, this`vs, this`decided, this`propQ, this`stats, this`heap
      ensures Valid()
      ensures old(HeapCovers()) ==> HeapCovers()
      ensures old(unsat) ==> !r && clauses == old(clauses) && litVal == old(litVal)
      ensures !old(unsat) && FilterFrom(old(litVal), clause, 0) == Satisfied ==> !r && clauses == old(clauses)
      ensures r ==> && !old(unsat) && FilterFrom(old(litVal), clause, 0).Remaining?
                    && multiset(added) <= multiset(FilterFrom(old(litVal), clause, 0).lits)
                    && InForce(old(|clauses|), added)
      ensures !r ==> && SameShape(old(clauses), clauses) && origClausesSize == old(origClausesSize)
                     && claInfo == old(claInfo) && unsat == old(unsat)
      decreases |clause|, 4
    {
      if unsat {
        return false, [];
      }
      var sat, cl := StripClause(clause);
      FilterMeaning(litVal, clause);
      if sat {
        return false, [];
      }
      RemainingValid(litVal, clause, cl, vars);
      r, added := AddFiltered(cl, entailed);
      if r {
        OpenSub(old(litVal), clause, cl);
      }
    }

    /** The clause `cl`, added to an arena of length `n`, is in force: the oracle is
        unsatisfiable, a literal of `cl` is true, or `cl` sits at `n` as the last clause. */
    ghost predicate InForce(n: nat, cl: seq<nat>)
      reads this`unsat, this`litVal, this`clauses
    {
      || unsat
      || (exists k :: 0 <= k < |cl| && LitVal(cl[k]) == 1)
      || (|clauses| == n + |cl| + 1 && ClauseAt(clauses, n) == cl)
    }

    /** `AddClauseIfNeededAndStr` once no literal of `cl` is true or false. */
    method AddFiltered(cl: seq<nat>, entailed: bool) returns (r: bool, ghost added: seq<nat>)
      requires Valid() && !unsat && forall k :: 0 <= k < |cl| ==> ValidLit(cl[k], vars)
      modifies this`unsat, this`solCache, this`clauses, this`origClausesSize, this`claInfo, this`watches,
               this`litVal, this`vs, this`decided, this`propQ, this`stats, this`heap
      ensures Valid()
      ensures old(HeapCovers()) ==> HeapCovers()
      ensures r ==> multiset(added) <= multiset(cl) && InForce(old(|clauses|), added)
      ensures !r ==> && SameShape(old(clauses), clauses) && origClausesSize == old(origClausesSize)
                     && claInfo == old(claInfo) && unsat == old(unsat)
      decreases |cl|, 3
    {
      if |cl| <= 1 {
        added := AddKept(cl, entailed);
        return true, added;
      }
      r, added := Strengthen(cl, entailed);
    }

    /** The probes of `AddFiltered` on a clause of two literals or more, and what follows. */
    method Strengthen(cl: seq<nat>, entailed: bool) returns (r: bool, ghost added: seq<nat>)
      requires Valid() && forall k :: 0 <= k < |cl| ==> ValidLit(cl[k], vars)
      modifies this`unsat, this`solCache, this`clauses, this`origClausesSize, this`claInfo, this`watches,
               this`litVal, this`vs, this`decided, this`propQ, this`stats, this`heap
      ensures Valid()
      ensures old(HeapCovers()) ==> HeapCovers()
      ensures r ==> multiset(added) <= multiset(cl) && InForce(old(|clauses|), added)
      ensures !r ==> && SameShape(old(clauses), clauses) && origClausesSize == old(origClausesSize)
                     && claInfo == old(claInfo) && unsat == old(unsat)
      decreases |cl|, 2
    {
      ghost var c0 := clauses;
      var res, i, trials := ProbeAll(cl);
      r, added := AddProbed(cl, entailed, res, i, c0);
    }

    /** The end of `AddFiltered` once the probes found `res` at `i`: a dropped literal goes to
        `AddDropped`, a needed one adds `cl` as it is, and nothing is added when all are
        implied. */
    method AddProbed(cl: seq<nat>, entailed: bool, res: Probe, i: nat, ghost c0: seq<nat>) returns (r: bool, ghost added: seq<nat>)
      requires Valid() && forall k :: 0 <= k < |cl| ==> ValidLit(cl[k], vars)
      requires res != Implied ==> i < |cl|
      requires SameShape(c0, clauses)
      modifies this`unsat, this`solCache, this`clauses, this`origClausesSize, this`claInfo, this`watches,
               this`litVal, this`vs, this`decided, this`propQ, this`stats, this`heap
      ensures Valid()
      ensures old(HeapCovers()) ==> HeapCovers()
      ensures r ==> multiset(added) <= multiset(cl) && InForce(|c0|, added)
      ensures !r ==> && SameShape(c0, clauses) && origClausesSize == old(origClausesSize)
                     && claInfo == old(claInfo) && unsat == old(unsat)
      decreases |cl|, 1
    {
      if res == Dropped {
        ghost var c1 := clauses;
        r, added := AddDropped(cl, i);
        if !r {
          SameShapeTrans(c0, c1, clauses);
        }
        return;
      }
      if res == Needed {
        added := AddKept(cl, entailed);
        return true, added;
      }
      return false, [];
    }

    /** The recursion of `AddFiltered` once the probe of `cl[i]` dropped it. */
    method AddDropped(cl: seq<nat>, i: nat) returns (r: bool, ghost added: seq<nat>)
      requires Valid() && i < |cl| && forall k :: 0 <= k < |cl| ==> ValidLit(cl[k], vars)
      modifies this`unsat, this`solCache, this`clauses, this`origClausesSize, this`claInfo, this`watches,
               this`litVal, this`vs, this`decided, this`propQ, this`stats, this`heap
      ensures Valid()
      ensures old(HeapCovers()) ==> HeapCovers()
      ensures r ==> multiset(added) <= multiset(cl) && InForce(old(|clauses|), added)
      ensures !r ==> && SameShape(old(clauses), clauses) && origClausesSize == old(origClausesSize)
                     && claInfo == old(claInfo) && unsat == old(unsat)
      decreases |cl|, 0
    {
      ghost var lv1 := litVal;
      r, added := AddClauseIfNeededAndStr(SwapDel(cl, i), true);
      if r {
        FilterMeaning(lv1, SwapDel(cl, i));
        OpenSub(lv1, SwapDel(cl, i), FilterFrom(lv1, SwapDel(cl, i), 0).lits);
      }
    }

    /** `AddOrigClause` on `cl`: what it places is `cl` without the literals false by then. */
    method AddKept(cl: seq<nat>, entailed: bool) returns (ghost added: seq<nat>)
      requires Valid() && forall k :: 0 <= k < |cl| ==> ValidLit(cl[k], vars)
      modifies this`unsat, this`solCache, this`clauses, this`origClausesSize, this`claInfo, this`watches,
               this`litVal, this`vs, this`decided, this`propQ, this`stats
      ensures Valid()
      ensures old(HeapCovers()) ==> HeapCovers()
      ensures multiset(added) <= multiset(cl) && InForce(old(|clauses|), added)
      ensures FilterFrom(old(litVal), cl, 0).Remaining? ==> added == FilterFrom(old(litVal), cl, 0).lits
    {
      ghost var lv0 := litVal;
      AddOrigClause(cl, entailed);
      FilterMeaning(lv0, cl);
      if FilterFrom(lv0, cl, 0).Remaining? {
        added := FilterFrom(lv0, cl, 0).lits;
        OpenSub(lv0, cl, added);
        if |added| == 1 && !unsat {
          assert LitVal(added[0]) == 1;
        }
      } else {
        added := cl;
        var k :| 0 <= k < |cl| && Value(lv0, cl[k]) == 1;
        assert LitVal(cl[k]) == 1;
      }
    }

    /** The strengthening probes of `AddClauseIfNeededAndStr`, literal by literal, until one
        finds a literal to drop or one that is needed (at index `i`), or all are implied.
        `trials` holds what each probe saw: every probe before `i` found its literal implied
        and the one at `i` found `res`. When the queue starts empty, each probe of a clause
        without clashes refuted the literals other than its own. */
    method ProbeAll(cl: seq<nat>) returns (res: Probe, i: nat, ghost trials: seq<Trial>)
      requires Valid() && forall k :: 0 <= k < |cl| ==> ValidLit(cl[k], vars)
      modifies this`clauses, this`watches, this`litVal, this`vs, this`decided, this`propQ, this`stats, this`heap
      ensures Valid() && SameShape(old(clauses), clauses)
      ensures old(HeapCovers()) ==> HeapCovers()
      ensures res != Implied ==> i < |cl| && |trials| == i + 1
      ensures res == Implied ==> i == |cl| && |trials| == i
      ensures Outcomes(cl, trials, i, res)
      ensures old(propQ) == [] && NoClash(cl) ==> AllRefuted(cl, trials)
    {
      ghost var c0 := clauses;
      ghost var refuted := propQ == [] && NoClash(cl);
      i := 0;
      trials := [];
      while i < |cl|
        invariant 0 <= i <= |cl| && Valid() && SameShape(c0, clauses)
        invariant old(HeapCovers()) ==> HeapCovers()
        invariant |trials| == i && (refuted ==> propQ == [] && AllRefuted(cl, trials))
        invariant Outcomes(cl, trials, i, Implied)
      {
        ghost var c1 := clauses;
        ghost var t;
        res, t := TryLiteral(cl, i);
        OutcomesSnoc(cl, trials, t, i, res);
        if refuted {
          RefutedSnoc(cl, trials, t);
        }
        trials := trials + [t];
        SameShapeTrans(c0, c1, clauses);
        if res != Implied {
          return;
        }
        i := i + 1;
      }
      res := Implied;
    }

    /** One strengthening probe of `AddClauseIfNeededAndStr` on `cl[i]`, undone before it
        returns: the negations of the other literals are decided at level 2 and propagated.
        `t` is what the probe saw before it was undone. */
    method TryLiteral(cl: seq<nat>, i: nat) returns (res: Probe, ghost t: Trial)
      requires Valid() && i < |cl| && forall k :: 0 <= k < |cl| ==> ValidLit(cl[k], vars)
      modifies this`clauses, this`watches, this`litVal, this`vs, this`decided, this`propQ, this`stats, this`heap
      ensures Valid() && propQ == [] && SameShape(old(clauses), clauses)
      ensures old(HeapCovers()) ==> HeapCovers()
      ensures Outcome(res, t.confl, Value(t.lv, cl[i])) && SameShape(old(clauses), t.arena)
      ensures old(propQ) == [] && NoClash(cl) ==> Refuted(cl, cl[i], t)
    {
      var confl;
      res, confl := ProbeLiteral(cl, cl[i]);
      t := Trial(confl, litVal, clauses);
      UnDecide(2);
    }

    /** The probe of `TryLiteral` on `tp`, before it is undone: `confl` is the conflict that
        propagation found, 0 for none. */
    method ProbeLiteral(cl: seq<nat>, tp: nat) returns (res: Probe, confl: nat)
      requires Valid() && forall k :: 0 <= k < |cl| ==> ValidLit(cl[k], vars)
      modifies this`clauses, this`watches, this`litVal, this`vs, this`decided, this`propQ, this`stats
      ensures Valid() && propQ == [] && SameShape(old(clauses), clauses)
      ensures old(HeapCovers()) ==> HeapCovers()
      ensures Outcome(res, confl, LitVal(tp)) && (confl != 0 ==> ClauseStart(confl))
      ensures old(propQ) == [] && NoClash(cl) ==> Refuted(cl, tp, Trial(confl, litVal, clauses))
    {
      DecideAllBut(cl, tp);
      ghost var lv1 := litVal;
      confl := Propagate(2);
      if old(propQ) == [] && NoClash(cl) {
        ProbeRefuted(cl, tp, lv1, Trial(confl, litVal, clauses));
      }
      res := Classify(confl, LitVal(tp));
    }

    /** The negation of every literal of `cl` other than `tp` is decided at level 2, in order;
        in a clause without clashes, those literals are then all false. */
    method DecideAllBut(cl: seq<nat>, tp: nat)
      requires Valid() && forall k :: 0 <= k < |cl| ==> ValidLit(cl[k], vars)
      modifies this`litVal, this`vs, this`decided, this`propQ
      ensures Valid() && propQ == old(propQ) + Others(cl, tp)
      ensures old(HeapCovers()) ==> HeapCovers()
      ensures |decided| == old(|decided|) + |Others(cl, tp)|
      ensures NoClash(cl) ==> AllFalse(litVal, Others(cl, tp))
    {
      var k := 0;
      assert cl[..0] == [];
      while k < |cl|
        invariant k <= |cl| && Valid() && DecidedTo(cl, tp, k, old(propQ), old(|decided|))
        invariant old(HeapCovers()) ==> HeapCovers()
      {
        DecideOther(cl, tp, k, old(propQ), old(|decided|));
        k := k + 1;
      }
      assert cl[..|cl|] == cl;
    }

    /** The state after `DecideAllBut` has handled the first `k` literals of `cl`: the others
        among them are queued after `p0`, counted on the trail and, without complementary
        literals, false. */
    ghost predicate DecidedTo(cl: seq<nat>, tp: nat, k: nat, p0: seq<nat>, n0: nat)
      requires k <= |cl|
      reads this`propQ, this`decided, this`litVal
    {
      && propQ == p0 + Others(cl[..k], tp)
      && |decided| == n0 + |Others(cl[..k], tp)|
      && (NoClash(cl) ==> AllFalse(litVal, Others(cl[..k], tp)))
    }

    /** One step of `DecideAllBut`, at `cl[k]`. */
    method DecideOther(cl: seq<nat>, tp: nat, k: nat, ghost p0: seq<nat>, ghost n0: nat)
      requires Valid() && k < |cl| && ValidLit(cl[k], vars)
      requires DecidedTo(cl, tp, k, p0, n0)
      modifies this`litVal, this`vs, this`decided, this`propQ
      ensures Valid() && DecidedTo(cl, tp, k + 1, p0, n0)
      ensures old(HeapCovers()) ==> HeapCovers()
    {
      OthersSnoc(cl, tp, k);
      if cl[k] != tp {
        LitVarPair(cl[k], vars);
        NegInvolution(cl[k]);
        ghost var lv0 := litVal;
        Decide(Neg(cl[k]), 2);
        if NoClash(cl) {
          InPrefix(cl, k, Others(cl[..k], tp));
          DecideKeepsFalse(lv0, cl, Others(cl[..k], tp), cl[k]);
        }
      }
    }

    // -------------------------------------------------------------------------------------------
    // First-UIP learning

    /** First-UIP conflict analysis of the clause at `confl`, whose first literal gives the level
        `level` of the conflict. Every clause used is refreshed by `BumpClause` and every variable
        met is bumped. Walking the conflict clause and then the reasons of the trail from its top,
        variables at `level` are counted as open and marked seen, and the other literals above
        level 1 are collected once each (marked `inCc`); the last open variable gives the UIP,
        whose negation takes slot 0. Collected literals with a reason are then dropped when
        `LitReduntant` finds them implied, the clause is sorted by level descending and then
        literal id, and the `inCc` marks of slots 1 onward are cleared. `cc` is the clause before
        sorting: its literals after the first all have levels of at least 2 and none is at the
        level of the conflict. */
    method LearnUip(confl: nat) returns (clause: seq<nat>, ghost cc: seq<nat>)
      requires Valid() && ClauseStart(confl)
      modifies this`claInfo, this`lvlSeen, this`lvlIt, this`heap, this`stats, this`seen, this`inCc,
               this`clauses, this`reduIt, this`reduSeen, this`reduS
      ensures SignsFrom(old(heap))
      ensures Valid() && SameShape(old(clauses), clauses)
      ensures Learnt(vs, cc, vars) && multiset(clause) == multiset(cc) && SortedBy(clause, LevelOrder(vs))
      ensures Apart(vs, cc[1..], LevelIn(vs, old(clauses)[confl]))
      ensures forall k :: 0 <= k < |clause| ==> ValidLit(clause[k], vars)
      ensures Unmarked(inCc, clause)
      ensures stats == old(stats).(mems := stats.mems, nontrivRedu := stats.nontrivRedu)
      ensures stats.mems > old(stats.mems)
    {
      BumpClause(confl);
      var level := LevelIn(vs, clauses[confl]);
      var uip, more := WalkConflict(confl, level);
      LearntCons(vs, uip, more, vars, level);
      clause, cc := MinimizeAndSort([uip] + more, level);
    }

    /** The walks of `LearnUip` before minimisation: the conflict clause, then the trail. */
    method WalkConflict(confl: nat, level: int) returns (uip: nat, more: seq<nat>)
      requires Valid() && ClauseStart(confl)
      modifies this`claInfo, this`lvlSeen, this`lvlIt, this`heap, this`stats, this`seen, this`inCc
      ensures SignsFrom(old(heap))
      ensures Valid() && Tail(vs, more, vars) && Apart(vs, more, level) && ValidLit(uip, vars)
      ensures stats == old(stats).(mems := stats.mems) && stats.mems > old(stats.mems)
    {
      var open, tail := CollectConflict(confl, level);
      ghost var h1 := heap;
      uip, more := WalkTrail(confl, level, open, tail);
      SignsTrans(vars, heapN, old(heap), h1, heap);
    }

    /** The end of `LearnUip`: minimisation, the sort by level and the clearing of the marks. */
    method MinimizeAndSort(cc: seq<nat>, ghost level: int) returns (clause: seq<nat>, ghost m: seq<nat>)
      requires Valid() && Learnt(vs, cc, vars) && Apart(vs, cc[1..], level)
      modifies this`clauses, this`reduIt, this`reduSeen, this`reduS, this`stats, this`inCc
      ensures Valid() && SameShape(old(clauses), clauses)
      ensures Learnt(vs, m, vars) && m[0] == cc[0] && multiset(m) <= multiset(cc) && Apart(vs, m[1..], level)
      ensures multiset(clause) == multiset(m) && SortedBy(clause, LevelOrder(vs))
      ensures forall k :: 0 <= k < |clause| ==> ValidLit(clause[k], vars)
      ensures Unmarked(inCc, clause)
      ensures stats == old(stats).(mems := stats.mems, nontrivRedu := stats.nontrivRedu)
      ensures stats.mems >= old(stats.mems)
    {
      var mm := Minimize(cc, level);
      m := mm;
      clause := Sort(mm, LevelOrder(vs));
      LearntValid(vs, mm, clause, vars);
      ClearLearnt(clause);
    }

    method SetSeen(v: nat, b: bool)
      requires Valid() && ValidVar(v, vars)
      modifies this`seen
      ensures Valid() && seen == old(seen)[v := b]
    {
      seen := seen[v := b];
    }

    method SetInCc(l: nat, b: bool)
      requires Valid() && ValidLit(l, vars)
      modifies this`inCc
      ensures Valid() && inCc == old(inCc)[l := b]
    {
      inCc := inCc[l := b];
    }

    /** The walk over the conflict clause at `confl`: every variable is bumped; those at `level`
        are counted and marked seen, the other literals above level 1 are collected. */
    method CollectConflict(confl: nat, level: int) returns (open: nat, tail: seq<nat>)
      requires Valid() && ClauseStart(confl)
      modifies this`heap, this`stats, this`seen, this`inCc
      ensures SignsFrom(old(heap))
      ensures Valid() && Tail(vs, tail, vars) && Apart(vs, tail, level)
      ensures stats == old(stats).(mems := stats.mems) && stats.mems > old(stats.mems)
    {
      var k := confl;
      open, tail := 0, [];
      while At(clauses, k) != 0
        invariant confl <= k <= |clauses| && Valid() && Tail(vs, tail, vars) && SignsFrom(old(heap))
        invariant Apart(vs, tail, level)
        invariant stats == old(stats).(mems := stats.mems) && stats.mems >= old(stats.mems) + (k - confl)
        decreases |clauses| - k
      {
        ghost var h1 := heap;
        open, tail := CollectLit(clauses[k], level, open, tail);
        SignsTrans(vars, heapN, old(heap), h1, heap);
        k := k + 1;
      }
    }

    /** One literal of the conflict clause. */
    method CollectLit(lit: nat, level: int, open: nat, tail: seq<nat>) returns (open': nat, tail': seq<nat>)
      requires Valid() && ValidLit(lit, vars) && Tail(vs, tail, vars) && Apart(vs, tail, level)
      modifies this`heap, this`stats, this`seen, this`inCc
      ensures SignsFrom(old(heap))
      ensures Valid() && Tail(vs, tail', vars) && Apart(vs, tail', level)
      ensures stats == old(stats).(mems := old(stats).mems + 1)
    {
      var v := VarOf(lit);
      LitVarPair(lit, vars);
      BumpVar(v);
      open', tail' := open, tail;
      if vs[v].level == level {
        open' := open + 1;
        SetSeen(v, true);
      } else if vs[v].level > 1 {
        tail' := tail + [lit];
        SetInCc(lit, true);
      }
    }

    /** The walk down the trail while variables are open: a seen variable closes; if others stay
        open its reason is expanded (one memory access), otherwise its negation is the UIP. When
        the trail runs out first, the conflict clause's first literal stands in slot 0. */
    method WalkTrail(confl: nat, level: int, open: nat, tail: seq<nat>) returns (uip: nat, tail': seq<nat>)
      requires Valid() && ClauseStart(confl) && Tail(vs, tail, vars) && Apart(vs, tail, level)
      modifies this`claInfo, this`lvlSeen, this`lvlIt, this`heap, this`stats, this`seen, this`inCc
      ensures SignsFrom(old(heap))
      ensures Valid() && Tail(vs, tail', vars) && Apart(vs, tail', level) && ValidLit(uip, vars)
      ensures stats == old(stats).(mems := stats.mems) && stats.mems >= old(stats.mems)
    {
      var i := |decided| - 1;
      var op := open;
      uip, tail' := clauses[confl], tail;
      while op > 0 && i >= 0
        invariant -1 <= i < |decided| && Valid() && Tail(vs, tail', vars) && ValidLit(uip, vars)
        invariant Apart(vs, tail', level)
        invariant stats == old(stats).(mems := stats.mems) && stats.mems >= old(stats.mems)
        invariant SignsFrom(old(heap))
        decreases i + 1
      {
        var v := decided[i];
        if seen[v] {
          ghost var h1 := heap;
          op, uip, tail' := CloseVar(v, level, op, uip, tail');
          SignsTrans(vars, heapN, old(heap), h1, heap);
        }
        i := i - 1;
      }
    }

    /** One seen variable of `WalkTrail`: it closes; its reason is expanded if others stay open,
        otherwise its negation is the UIP; its seen mark is cleared. */
    method CloseVar(v: nat, level: int, op: nat, uip: nat, tail: seq<nat>) returns (op': nat, uip': nat, tail': seq<nat>)
      requires Valid() && ValidVar(v, vars) && Tail(vs, tail, vars) && Apart(vs, tail, level)
      requires ValidLit(uip, vars) && op > 0
      modifies this`claInfo, this`lvlSeen, this`lvlIt, this`heap, this`stats, this`seen, this`inCc
      ensures SignsFrom(old(heap))
      ensures Valid() && Tail(vs, tail', vars) && Apart(vs, tail', level) && ValidLit(uip', vars)
      ensures stats == old(stats).(mems := stats.mems) && stats.mems >= old(stats.mems)
    {
      op', uip', tail' := op - 1, uip, tail;
      if op' > 0 {
        CountMem();
        op', tail' := ExpandReason(v, level, op', tail');
      } else {
        uip' := Neg(MkLit(v, vs[v].phase));
      }
      SetSeen(v, false);
    }

    /** The reason of the closed variable `v`: its clause is refreshed, and each literal whose
        variable is not seen is bumped, opened at `level` or collected above level 1. */
    method ExpandReason(v: nat, level: int, open: nat, tail: seq<nat>) returns (open': nat, tail': seq<nat>)
      requires Valid() && ValidVar(v, vars) && Tail(vs, tail, vars) && Apart(vs, tail, level)
      modifies this`claInfo, this`lvlSeen, this`lvlIt, this`heap, this`stats, this`seen, this`inCc
      ensures SignsFrom(old(heap))
      ensures Valid() && Tail(vs, tail', vars) && Apart(vs, tail', level) && open' >= open
      ensures stats == old(stats).(mems := stats.mems) && stats.mems >= old(stats.mems)
    {
      var rc := vs[v].reason;
      open', tail' := open, tail;
      if rc == 0 {
        return;
      }
      BumpClause(rc);
      var k := rc;
      while At(clauses, k) != 0
        invariant rc <= k <= |clauses| && Valid() && Tail(vs, tail', vars) && open' >= open
        invariant Apart(vs, tail', level)
        invariant stats == old(stats).(mems := stats.mems) && stats.mems >= old(stats.mems)
        invariant SignsFrom(old(heap))
        decreases |clauses| - k
      {
        ghost var h1 := heap;
        open', tail' := ReasonLit(clauses[k], level, open', tail');
        SignsTrans(vars, heapN, old(heap), h1, heap);
        k := k + 1;
      }
    }

    /** One literal of a reason clause. */
    method ReasonLit(lit: nat, level: int, open: nat, tail: seq<nat>) returns (open': nat, tail': seq<nat>)
      requires Valid() && ValidLit(lit, vars) && Tail(vs, tail, vars) && Apart(vs, tail, level)
      modifies this`heap, this`stats, this`seen, this`inCc
      ensures SignsFrom(old(heap))
      ensures Valid() && Tail(vs, tail', vars) && Apart(vs, tail', level) && open' >= open
      ensures stats == old(stats).(mems := stats.mems) && stats.mems >= old(stats.mems)
    {
      var tv := VarOf(lit);
      LitVarPair(lit, vars);
      open', tail' := open, tail;
      if seen[tv] {
        return;
      }
      BumpVar(tv);
      if vs[tv].level == level {
        open' := open + 1;
        SetSeen(tv, true);
      } else if !inCc[lit] && vs[tv].level > 1 {
        tail' := tail + [lit];
        SetInCc(lit, true);
      }
    }

    /** Conflict minimisation: each collected literal with a reason that `LitReduntant` finds
        implied loses its `inCc` mark and is deleted by `SwapDel`, the same slot being read again. */
    method Minimize(cc: seq<nat>, ghost level: int) returns (m: seq<nat>)
      requires Valid() && Learnt(vs, cc, vars) && Apart(vs, cc[1..], level)
      modifies this`clauses, this`reduIt, this`reduSeen, this`reduS, this`stats, this`inCc
      ensures Valid() && SameShape(old(clauses), clauses)
      ensures Learnt(vs, m, vars) && m[0] == cc[0] && multiset(m) <= multiset(cc) && Apart(vs, m[1..], level)
      ensures stats == old(stats).(mems := stats.mems, nontrivRedu := stats.nontrivRedu)
      ensures stats.mems >= old(stats.mems)
    {
      ghost var c0 := clauses;
      m := cc;
      var i := 1;
      while i < |m|
        invariant 1 <= i <= |m| && Valid() && SameShape(c0, clauses)
        invariant Learnt(vs, m, vars) && m[0] == cc[0] && multiset(m) <= multiset(cc) && Apart(vs, m[1..], level)
        invariant stats == old(stats).(mems := stats.mems, nontrivRedu := stats.nontrivRedu)
        invariant stats.mems >= old(stats.mems)
        decreases |m| - i
      {
        ghost var c1 := clauses;
        var red := TryMinimize(m[i]);
        SameShapeTrans(c0, c1, clauses);
        if red {
          LearntSwapDel(vs, m, vars, i);
          ApartSwapDel(vs, m, level, i);
          m := SwapDel(m, i);
        } else {
          i := i + 1;
        }
      }
    }

    /** One literal of `Minimize`: whether it has a reason and is found redundant, in which case
        its `inCc` mark is cleared. */
    method TryMinimize(l: nat) returns (red: bool)
      requires Valid() && ValidLit(l, vars)
      modifies this`clauses, this`reduIt, this`reduSeen, this`reduS, this`stats, this`inCc
      ensures Valid() && SameShape(old(clauses), clauses)
      ensures stats == old(stats).(mems := stats.mems, nontrivRedu := stats.nontrivRedu)
      ensures stats.mems >= old(stats.mems)
    {
      LitVarPair(l, vars);
      if vs[VarOf(l)].reason == 0 {
        return false;
      }
      CountMem();
      red := LitReduntant(l);
      if red {
        SetInCc(l, false);
      }
    }

    /** Clears the `inCc` marks of slots 1 onward of the sorted clause. */
    method ClearLearnt(clause: seq<nat>)
      requires Valid() && forall k :: 0 <= k < |clause| ==> ValidLit(clause[k], vars)
      modifies this`inCc
      ensures Valid() && Unmarked(inCc, clause)
    {
      var i := 1;
      while i < |clause|
        invariant 1 <= i <= |clause| || |clause| == 0
        invariant Valid() && forall k :: 1 <= k < i && k < |clause| ==> !inCc[clause[k]]
      {
        SetInCc(clause[i], false);
        i := i + 1;
      }
    }

    // -------------------------------------------------------------------------------------------
    // Conflict handling and backjumping

    /** Handles the conflict at `confl`: counts it, learns a clause by `LearnUip` and backjumps.
        A learned clause of one literal, or whose second literal is at level 1, makes its first
        literal a level-2 unit that is also queued in `learnedUnits`; the level returned is 2.
        Otherwise the level `ass` of the second literal is the assertion level: when it is at least
        `minLevel`, the trail is cut back to it, the clause is added with its first literal
        asserted by it, and `ass` is returned; when it is lower, the decisions above `ass` and up
        to `minLevel` are saved and replayed after the assertion (see `BacktrackReplay`). */
    method CDCLBT(confl: nat, minLevel: int) returns (r: int, ghost learnt: seq<nat>)
      requires Valid() && ClauseStart(confl) && propQ == []
      modifies this`claInfo, this`lvlSeen, this`lvlIt, this`heap, this`stats, this`seen, this`inCc,
               this`clauses, this`reduIt, this`reduSeen, this`reduS, this`decided, this`litVal,
               this`vs, this`propQ, this`learnedUnits, this`watches
      ensures old(HeapCovers()) ==> HeapCovers()
      ensures Valid() && LearntSorted(old(vs), learnt, vars)
      ensures Backjumped(old(vs), old(learnedUnits), old(|clauses|), learnt, minLevel, r)
      ensures stats.conflicts == old(stats.conflicts) + 1 && stats.mems > old(stats.mems)
      ensures stats.restarts == old(stats.restarts) && stats.forgotClauses == old(stats.forgotClauses)
    {
      var clause := Analyze(confl);
      learnt := clause;
      r := Backjump(clause, minLevel);
    }

    /** `LearnUip` on the conflict at `confl`, with what `Backjump` needs of the clause. */
    method Analyze(confl: nat) returns (clause: seq<nat>)
      requires Valid() && ClauseStart(confl)
      modifies this`claInfo, this`lvlSeen, this`lvlIt, this`heap, this`stats, this`seen, this`inCc,
               this`clauses, this`reduIt, this`reduSeen, this`reduS
      ensures old(HeapCovers()) ==> HeapCovers()
      ensures Valid() && |clauses| == old(|clauses|)
      ensures |clause| >= 1 && SortedBy(clause, LevelOrder(vs))
      ensures forall k :: 0 <= k < |clause| ==> ValidLit(clause[k], vars)
      ensures |clause| >= 3 ==> LevelIn(vs, clause[1]) >= 2
      ensures stats.conflicts == old(stats.conflicts) + 1 && stats.mems > old(stats.mems)
      ensures stats.restarts == old(stats.restarts) && stats.forgotClauses == old(stats.forgotClauses)
    {
      CountConflict();
      ghost var cc;
      clause, cc := LearnUip(confl);
      SecondLevel(vs, cc, clause, vars);
      if old(HeapCovers()) {
        CoversSigns(vars, heapN, old(heap), heap, litVal);
      }
    }

    /** The outcome of `CDCLBT` having learned `cl`, from the levels `vs0`, the learned units
        `lu0` and an arena of `n` slots: in the unit case level 2 is returned and the first
        literal holds and is recorded; otherwise the clause is appended to the arena, and when its
        assertion level is at least `minLevel` that level is returned with the first literal
        holding there, else the level returned is at least `minLevel - 1` with nothing left to
        propagate. The level returned is at least 2 except when the clause has two literals and
        its second one is unassigned. */
    ghost predicate Backjumped(vs0: seq<VarState>, lu0: seq<nat>, n: nat, cl: seq<nat>, minLevel: int, r: int)
      reads this`learnedUnits, this`litVal, this`clauses, this`vs, this`propQ
    {
      && |cl| >= 1
      && (AssLevel(vs0, cl) == 1 ==> r == 2 && learnedUnits == lu0 + [cl[0]] && LitVal(cl[0]) == 1)
      && (AssLevel(vs0, cl) != 1 ==> learnedUnits == lu0 && |clauses| == n + |cl| + 1)
      && (AssLevel(vs0, cl) != 1 && AssLevel(vs0, cl) >= minLevel ==>
            && r == AssLevel(vs0, cl) && clauses[n..] == cl + [0]
            && LitVal(cl[0]) == 1 && VarOf(cl[0]) < |vs| && vs[VarOf(cl[0])].level == r)
      && (AssLevel(vs0, cl) != 1 && AssLevel(vs0, cl) < minLevel ==> r >= minLevel - 1 && propQ == [])
      && (r >= 2 || (|cl| == 2 && LevelIn(vs0, cl[1]) < 1))
    }

    /** The backjump of `CDCLBT` once `clause` is learned, in its three cases. */
    method Backjump(clause: seq<nat>, minLevel: int) returns (r: int)
      requires Valid() && propQ == [] && |clause| >= 1
      requires forall k :: 0 <= k < |clause| ==> ValidLit(clause[k], vars)
      requires |clause| >= 3 ==> LevelIn(vs, clause[1]) >= 2
      modifies this`heap, this`stats, this`clauses, this`decided, this`litVal, this`vs, this`propQ,
               this`learnedUnits, this`watches, this`claInfo
      ensures old(HeapCovers()) ==> HeapCovers()
      ensures Valid()
      ensures Backjumped(old(vs), old(learnedUnits), old(|clauses|), clause, minLevel, r)
      ensures stats.conflicts == old(stats.conflicts) && stats.mems >= old(stats.mems)
      ensures stats.restarts == old(stats.restarts) && stats.forgotClauses == old(stats.forgotClauses)
    {
      if |clause| == 1 || LevelIn(vs, clause[1]) == 1 {
        r := BacktrackUnit(clause[0]);
      } else {
        r := BackjumpLearnt(clause, minLevel);
      }
    }

    /** `Backjump` for a clause that is not a unit at level 1: the clause is added. */
    method BackjumpLearnt(clause: seq<nat>, minLevel: int) returns (r: int)
      requires Valid() && propQ == [] && |clause| >= 2 && LevelIn(vs, clause[1]) != 1
      requires forall k :: 0 <= k < |clause| ==> ValidLit(clause[k], vars)
      requires |clause| >= 3 ==> LevelIn(vs, clause[1]) >= 2
      modifies this`heap, this`stats, this`clauses, this`decided, this`litVal, this`vs, this`propQ,
               this`watches, this`claInfo
      ensures old(HeapCovers()) ==> HeapCovers()
      ensures Valid()
      ensures Backjumped(old(vs), learnedUnits, old(|clauses|), clause, minLevel, r)
      ensures stats.conflicts == old(stats.conflicts) && stats.mems >= old(stats.mems)
      ensures stats.restarts == old(stats.restarts) && stats.forgotClauses == old(stats.forgotClauses)
    {
      var ass := LevelIn(vs, clause[1]);
      if ass >= minLevel {
        ghost var c0 := clauses;
        BacktrackAssert(clause, ass);
        assert clauses[|c0|..] == clause + [0];
        r := ass;
      } else {
        r := BacktrackReplay(clause, ass, minLevel);
      }
    }

    method CountConflict()
      modifies this`stats
      ensures stats == old(stats).(conflicts := old(stats).conflicts + 1)
    {
      stats := stats.(conflicts := stats.conflicts + 1);
    }

    /** The unit case of `CDCLBT`: back to level 2, where `unit` is assigned without a reason and
        recorded as a learned unit. */
    method BacktrackUnit(unit: nat) returns (r: int)
      requires Valid() && ValidLit(unit, vars) && propQ == []
      modifies this`decided, this`litVal, this`vs, this`heap, this`stats, this`propQ, this`learnedUnits
      ensures old(HeapCovers()) ==> HeapCovers()
      ensures Valid() && r == 2 && LitVal(unit) == 1 && learnedUnits == old(learnedUnits) + [unit]
      ensures vs[VarOf(unit)] == VarState(0, 2, if IsPos(unit) then 1 else 0)
      ensures stats == old(stats).(mems := stats.mems, learnedUnits := old(stats).learnedUnits + 1)
      ensures stats.mems >= old(stats.mems)
    {
      UnDecide(3);
      RecordUnit(unit);
      r := 2;
    }

    /** `unit` assigned at level 2 without a reason, and recorded as a learned unit. */
    method RecordUnit(unit: nat)
      requires Valid() && ValidLit(unit, vars)
      modifies this`decided, this`litVal, this`vs, this`stats, this`propQ, this`learnedUnits
      ensures old(HeapCovers()) ==> HeapCovers()
      ensures Valid() && LitVal(unit) == 1 && learnedUnits == old(learnedUnits) + [unit]
      ensures vs[VarOf(unit)] == VarState(0, 2, if IsPos(unit) then 1 else 0)
      ensures stats == old(stats).(learnedUnits := old(stats).learnedUnits + 1)
    {
      Assign(unit, 0, 2);
      learnedUnits := learnedUnits + [unit];
      CountUnit();
    }

    /** Back to level `ass`, where the learned clause is added and its first literal asserted by it. */
    method BacktrackAssert(clause: seq<nat>, ass: int)
      requires Valid() && propQ == [] && |clause| >= 2
      requires forall k :: 0 <= k < |clause| ==> ValidLit(clause[k], vars)
      modifies this`decided, this`litVal, this`vs, this`heap, this`stats, this`propQ, this`clauses,
               this`claInfo, this`watches
      ensures old(HeapCovers()) ==> HeapCovers()
      ensures Valid() && clauses == old(clauses) + clause + [0]
      ensures LitVal(clause[0]) == 1 && propQ == [Neg(clause[0])]
      ensures vs[VarOf(clause[0])] == VarState(if ass <= 1 then 0 else old(|clauses|), ass, if IsPos(clause[0]) then 1 else 0)
      ensures stats == old(stats).(mems := stats.mems, learnedClauses := old(stats).learnedClauses + 1,
                                   learnedBinClauses := stats.learnedBinClauses)
      ensures stats.mems >= old(stats.mems)
    {
      UnDecide(ass + 1);
      AddAsserting(clause, ass);
    }

    /** The learned clause added, and its first literal assigned at `ass` with it as reason. */
    method AddAsserting(clause: seq<nat>, ass: int)
      requires Valid() && |clause| >= 2
      requires forall k :: 0 <= k < |clause| ==> ValidLit(clause[k], vars)
      modifies this`decided, this`litVal, this`vs, this`propQ, this`clauses, this`claInfo, this`watches, this`stats
      ensures old(HeapCovers()) ==> HeapCovers()
      ensures Valid() && clauses == old(clauses) + clause + [0]
      ensures LitVal(clause[0]) == 1 && propQ == old(propQ) + [Neg(clause[0])]
      ensures vs[VarOf(clause[0])] == VarState(if ass <= 1 then 0 else old(|clauses|), ass, if IsPos(clause[0]) then 1 else 0)
      ensures stats == old(stats).(learnedClauses := old(stats).learnedClauses + 1,
                                   learnedBinClauses := stats.learnedBinClauses)
    {
      var pt := AddLearnedClause(clause);
      Assign(clause[0], pt, ass);
    }

    /** The case of `CDCLBT` whose assertion level `ass` is below `minLevel`: the decisions on the
        trail above `ass` once it is cut back to `minLevel` are saved, the clause is asserted at
        `ass` and propagated, then the saved decisions are replayed in trail order. Any conflict,
        or a saved decision now false, gives `minLevel - 1`. */
    method BacktrackReplay(clause: seq<nat>, ass: int, minLevel: int) returns (r: int)
      requires Valid() && propQ == [] && |clause| >= 2 && ass < minLevel
      requires forall k :: 0 <= k < |clause| ==> ValidLit(clause[k], vars)
      modifies this`decided, this`litVal, this`vs, this`heap, this`stats, this`propQ, this`clauses,
               this`claInfo, this`watches
      ensures old(HeapCovers()) ==> HeapCovers()
      ensures Valid() && propQ == [] && r >= minLevel - 1
      ensures |clauses| == old(|clauses|) + |clause| + 1
      ensures stats == old(stats).(mems := stats.mems, learnedClauses := old(stats).learnedClauses + 1,
                                   learnedBinClauses := stats.learnedBinClauses)
      ensures stats.mems >= old(stats.mems)
    {
      UnDecide(minLevel + 1);
      var decs := SavedDecisions(ass);
      r := AssertAndReplay(clause, ass, minLevel, decs);
    }

    /** The part of `BacktrackReplay` after the decisions are saved. */
    method AssertAndReplay(clause: seq<nat>, ass: int, minLevel: int, decs: seq<(nat, int)>) returns (r: int)
      requires Valid() && propQ == [] && |clause| >= 2 && ass < minLevel
      requires forall k :: 0 <= k < |clause| ==> ValidLit(clause[k], vars)
      requires forall k :: 0 <= k < |decs| ==> ValidLit(decs[k].0, vars)
      modifies this`decided, this`litVal, this`vs, this`heap, this`stats, this`propQ, this`clauses,
               this`claInfo, this`watches
      ensures old(HeapCovers()) ==> HeapCovers()
      ensures Valid() && propQ == [] && r >= minLevel - 1
      ensures |clauses| == old(|clauses|) + |clause| + 1
      ensures r >= minLevel ==> forall k :: 0 <= k < |decs| ==> LitVal(decs[k].0) == 1
      ensures stats == old(stats).(mems := stats.mems, learnedClauses := old(stats).learnedClauses + 1,
                                   learnedBinClauses := stats.learnedBinClauses)
      ensures stats.mems >= old(stats.mems)
    {
      BacktrackAssert(clause, ass);
      var c := Propagate(ass);
      if c != 0 {
        return minLevel - 1;
      }
      r := Replay(decs, ass, minLevel);
    }

    /** The top of the trail whose levels exceed `ass`, bottom first, as (literal of the saved
        phase, level) pairs. */
    method SavedDecisions(ass: int) returns (decs: seq<(nat, int)>)
      requires Valid()
      ensures Saved(decs, decided, vs, vars, ass)
    {
      var i := |decided| - 1;
      decs := [];
      while i >= 0 && vs[decided[i]].level > ass
        invariant -1 <= i < |decided| && |decs| == |decided| - 1 - i
        invariant forall k :: 0 <= k < |decs| ==> Entry(decs[k], decided[i + 1 + k], vs, vars, ass)
        decreases i + 1
      {
        var v := decided[i];
        decs := [(MkLit(v, vs[v].phase), vs[v].level)] + decs;
        i := i - 1;
      }
    }

    /** Replays the saved decisions after the assertion: a false one stops the replay with
        `minLevel - 1`; an unassigned one is decided at its level and propagated, a conflict
        stopping the replay with `minLevel - 1`; a true one is skipped. At the end the level of the
        last decision replayed, or `minLevel` if higher, is returned; every saved literal then
        holds. */
    method Replay(decs: seq<(nat, int)>, ass: int, minLevel: int) returns (r: int)
      requires Valid() && propQ == [] && ass < minLevel && forall k :: 0 <= k < |decs| ==> ValidLit(decs[k].0, vars)
      modifies this`decided, this`litVal, this`vs, this`propQ, this`clauses, this`watches, this`stats
      ensures old(HeapCovers()) ==> HeapCovers()
      ensures Valid() && propQ == [] && SameShape(old(clauses), clauses)
      ensures r == minLevel - 1 || r >= minLevel
      ensures r >= minLevel ==> forall k :: 0 <= k < |decs| ==> LitVal(decs[k].0) == 1
      ensures stats == old(stats).(mems := stats.mems) && stats.mems >= old(stats.mems)
    {
      ghost var c0 := clauses;
      var level := ass;
      var i := 0;
      while i < |decs|
        invariant 0 <= i <= |decs| && Valid() && propQ == [] && SameShape(c0, clauses)
        invariant old(HeapCovers()) ==> HeapCovers()
        invariant forall k :: 0 <= k < i ==> LitVal(decs[k].0) == 1
        invariant stats == old(stats).(mems := stats.mems) && stats.mems >= old(stats.mems)
      {
        var ok;
        ghost var c1 := clauses;
        ok, level := ReplayOne(decs, i, level);
        SameShapeTrans(c0, c1, clauses);
        if !ok {
          return minLevel - 1;
        }
        i := i + 1;
      }
      r := if level > minLevel then level else minLevel;
    }

    /** Decides the unassigned `l` at `level` and propagates: what was assigned stays, and `l`
        holds. */
    method DecideAndPropagate(l: nat, level: int) returns (c: nat)
      requires Valid() && propQ == [] && ValidLit(l, vars) && LitVal(l) == 0
      modifies this`decided, this`litVal, this`vs, this`propQ, this`clauses, this`watches, this`stats
      ensures old(HeapCovers()) ==> HeapCovers()
      ensures Valid() && propQ == [] && SameShape(old(clauses), clauses)
      ensures KeepsAssigned(old(litVal), litVal) && LitVal(l) == 1
      ensures stats == old(stats).(mems := stats.mems) && stats.mems >= old(stats.mems)
    {
      LitVarPair(l, vars);
      ghost var lv0 := litVal;
      Decide(l, level);
      ghost var lv1 := litVal;
      assert KeepsAssigned(lv0, lv1);
      c := Propagate(level);
      KeepsTrans(lv0, lv1, litVal);
    }

    /** One saved decision of `Replay`. */
    method ReplayOne(decs: seq<(nat, int)>, i: nat, level: int) returns (ok: bool, level': int)
      requires Valid() && propQ == [] && i < |decs| && forall k :: 0 <= k < |decs| ==> ValidLit(decs[k].0, vars)
      requires forall k :: 0 <= k < i ==> LitVal(decs[k].0) == 1
      modifies this`decided, this`litVal, this`vs, this`propQ, this`clauses, this`watches, this`stats
      ensures old(HeapCovers()) ==> HeapCovers()
      ensures Valid() && propQ == [] && SameShape(old(clauses), clauses)
      ensures ok ==> forall k :: 0 <= k <= i ==> LitVal(decs[k].0) == 1
      ensures stats == old(stats).(mems := stats.mems) && stats.mems >= old(stats.mems)
    {
      var l := decs[i].0;
      ghost var lv0 := litVal;
      LitVarPair(l, vars);
      level' := level;
      if LitVal(l) == -1 {
        return false, level;
      }
      if LitVal(l) == 0 {
        var c := DecideAndPropagate(l, decs[i].1);
        if c != 0 {
          return false, level;
        }
        forall k | 0 <= k < i
          ensures LitVal(decs[k].0) == 1
        {
          assert lv0[decs[k].0] == 1;
        }
        level' := decs[i].1;
      }
      ok := true;
    }

    // -------------------------------------------------------------------------------------------
    // The search loop

    /** CDCL search above level 2 within a budget of `maxMems` memory accesses. Each round
        propagates at the current level; once the budget is exceeded the answer is `Unknown`. A
        conflict at level 2 or below gives `False`; a higher one is handled by `CDCLBT` (with a
        minimum level of 0) and the search continues at the level it returns. Without a conflict,
        a restart is due once the conflicts reach `nextRestart`: the next Luby number times the
        restart factor is added to the conflicts, the trail is cut back to level 2, and the clause
        database is resized when more than 10000 conflicts have passed since the last time.
        Then a variable is chosen: before the first conflict the lowest unassigned variable at
        or after `nv`, afterwards the heap's most active free variable. When there is none the
        answer is `True` with every variable assigned; otherwise it is decided one level up, with
        its saved phase. */
    method HardSolve(maxMems: int) returns (sol: TriState)
      requires Valid() && HeapCovers()
      modifies this`claInfo, this`lvlSeen, this`lvlIt, this`heap, this`stats, this`seen, this`inCc,
               this`clauses, this`reduIt, this`reduSeen, this`reduS, this`decided, this`litVal,
               this`vs, this`propQ, this`learnedUnits, this`watches, this`luby, this`lubyCalls,
               this`totalConfls, this`lastDbClean, this`origClausesSize, this`numLbd2RedCls,
               this`numUsedRedCls
      ensures Valid() && HeapCovers() && propQ == []
      ensures sol == Unknown ==> stats.mems > old(stats.mems) + maxMems
      ensures sol == False ==> stats.mems <= old(stats.mems) + maxMems
      ensures sol == True ==> propQ == [] && forall v :: ValidVar(v, vars) ==> LitVal(PosLit(v)) != 0
    {
      InitLuby();
      var confls := 0;
      var nextRestart := 1;
      var memsStartup := stats.mems;
      var curLevel := 2;
      var nv := 1;
      while true
        invariant Searching(nv, confls, nextRestart)
        invariant memsStartup == old(stats.mems) && stats.mems >= memsStartup
        decreases RoundMeasure(memsStartup + maxMems, stats.mems, propQ == [])
      {
        var done;
        done, sol, curLevel, confls, nextRestart, nv := Round(memsStartup + maxMems, curLevel, confls, nextRestart, nv);
        if done {
          return;
        }
      }
    }

    /** One round of `HardSolve`'s loop: propagation, the budget check, then the conflict or the
        next decision. `done` says the search ended with `sol`; otherwise the measure of the loop
        has dropped. */
    method Round(limit: int, curLevel: int, confls: int, nextRestart: int, nv: nat)
      returns (done: bool, sol: TriState, curLevel': int, confls': int, nextRestart': int, nv': nat)
      requires Searching(nv, confls, nextRestart)
      modifies this`claInfo, this`lvlSeen, this`lvlIt, this`heap, this`stats, this`seen, this`inCc,
               this`clauses, this`reduIt, this`reduSeen, this`reduS, this`decided, this`litVal,
               this`vs, this`propQ, this`learnedUnits, this`watches, this`luby, this`lubyCalls,
               this`totalConfls, this`lastDbClean, this`origClausesSize, this`numLbd2RedCls,
               this`numUsedRedCls
      ensures Searching(nv', confls', nextRestart') && Valid() && HeapCovers()
      ensures stats.mems >= old(stats.mems)
      ensures !done ==> RoundMeasure(limit, stats.mems, propQ == []) < old(RoundMeasure(limit, stats.mems, propQ == []))
      ensures done ==> propQ == []
      ensures done && sol == Unknown ==> stats.mems > limit
      ensures done && sol == False ==> stats.mems <= limit
      ensures done && sol == True ==> propQ == [] && forall v :: ValidVar(v, vars) ==> LitVal(PosLit(v)) != 0
    {
      ghost var lv0, m0, idle0 := litVal, stats.mems, propQ == [];
      var confl := Propagate(curLevel);
      ghost var m1 := stats.mems;
      if confls == 0 {
        AssignedKept(lv0, litVal, nv);
      }
      if stats.mems > limit {
        return true, Unknown, curLevel, confls, nextRestart, nv;
      }
      done, sol, curLevel', confls', nextRestart', nv' := FinishRound(confl, curLevel, confls, nextRestart, nv);
      if !done {
        RoundDecreases(limit, m0, m1, stats.mems, idle0, propQ == []);
      }
    }

    /** The rest of a round within the budget: a conflict at level 2 or below ends the search with
        `False`, a deeper one is analysed; without a conflict the next variable is decided, or
        the search ends with `True`. A round that goes on spends memory accesses or leaves the
        decision to propagate. */
    method FinishRound(confl: nat, curLevel: int, confls: int, nextRestart: int, nv: nat)
      returns (done: bool, sol: TriState, curLevel': int, confls': int, nextRestart': int, nv': nat)
      requires Valid() && HeapCovers() && propQ == [] && 1 <= nv <= vars + 1 && confls >= 0
      requires confl != 0 ==> ClauseStart(confl)
      requires confls == 0 ==> nextRestart == 1 && forall v :: 1 <= v < nv ==> LitVal(PosLit(v)) != 0
      modifies this`claInfo, this`lvlSeen, this`lvlIt, this`heap, this`stats, this`seen, this`inCc,
               this`clauses, this`reduIt, this`reduSeen, this`reduS, this`decided, this`litVal,
               this`vs, this`propQ, this`learnedUnits, this`watches, this`luby, this`lubyCalls,
               this`totalConfls, this`lastDbClean, this`origClausesSize, this`numLbd2RedCls,
               this`numUsedRedCls
      ensures Valid() && HeapCovers() && 1 <= nv' <= vars + 1 && confls' >= 0
      ensures stats.mems >= old(stats.mems)
      ensures confls' == 0 ==> nextRestart' == 1 && forall v :: 1 <= v < nv' ==> LitVal(PosLit(v)) != 0
      ensures !done ==> propQ != [] || stats.mems > old(stats.mems)
      ensures done ==> sol != Unknown && propQ == [] && (sol == False ==> stats.mems == old(stats.mems))
      ensures done && sol == True ==> propQ == [] && forall v :: ValidVar(v, vars) ==> LitVal(PosLit(v)) != 0
    {
      curLevel', confls', nextRestart', nv', sol := curLevel, confls, nextRestart, nv, Unknown;
      if confl != 0 {
        confls' := confls + 1;
        CountConflictTotal();
        if curLevel <= 2 {
          return true, False, curLevel', confls', nextRestart', nv';
        }
        curLevel' := OnConflict(confl);
        return false, sol, curLevel', confls', nextRestart', nv';
      }
      var decv;
      decv, curLevel', nextRestart', nv' := Advance(curLevel, confls, nextRestart, nv);
      done := decv == 0;
      if done {
        sol := True;
      }
    }

    /** No conflict: the restart when due, then the decision on the chosen variable, one level
        above the current one (or above level 2 after a restart); `decv` is 0, and nothing is
        decided, when every variable is assigned. */
    method Advance(curLevel: int, confls: int, nextRestart: int, nv: nat)
      returns (decv: nat, curLevel': int, nextRestart': int, nv': nat)
      requires Valid() && HeapCovers() && propQ == [] && 1 <= nv <= vars + 1
      requires confls == 0 ==> nextRestart == 1 && forall v :: 1 <= v < nv ==> LitVal(PosLit(v)) != 0
      modifies this`claInfo, this`heap, this`stats, this`clauses, this`decided, this`litVal, this`vs,
               this`propQ, this`watches, this`luby, this`lubyCalls, this`lastDbClean,
               this`origClausesSize, this`numLbd2RedCls, this`numUsedRedCls
      ensures Valid() && HeapCovers() && 1 <= nv' <= vars + 1
      ensures stats.mems >= old(stats.mems)
      ensures confls == 0 ==> nextRestart' == 1 && forall v :: 1 <= v < nv' ==> LitVal(PosLit(v)) != 0
      ensures decv != 0 ==> propQ != []
      ensures decv == 0 ==> propQ == [] && forall v :: ValidVar(v, vars) ==> LitVal(PosLit(v)) != 0
    {
      var restarted;
      decv, nv', nextRestart', restarted := Choose(confls, nextRestart, nv);
      curLevel' := curLevel;
      if decv != 0 {
        curLevel' := (if restarted then 2 else curLevel) + 1;
        DecideVar(decv, curLevel');
      }
    }

    /** A conflict above level 2: `CDCLBT` with a minimum level of 0. */
    method OnConflict(confl: nat) returns (level: int)
      requires Valid() && HeapCovers() && ClauseStart(confl) && propQ == []
      modifies this`claInfo, this`lvlSeen, this`lvlIt, this`heap, this`stats, this`seen, this`inCc,
               this`clauses, this`reduIt, this`reduSeen, this`reduS, this`decided, this`litVal,
               this`vs, this`propQ, this`learnedUnits, this`watches
      ensures Valid() && HeapCovers() && stats.mems > old(stats.mems)
    {
      ghost var learnt;
      level, learnt := CDCLBT(confl, 0);
    }

    /** The part of a round of `HardSolve` without a conflict: the restart when it is due (the
        next limit is the conflicts plus the next Luby number times the restart factor), then the
        choice of the decision variable, 0 when every variable is assigned. */
    method Choose(confls: int, nextRestart: int, nv: nat) returns (decv: nat, nv': nat, nextRestart': int, restarted: bool)
      requires Valid() && HeapCovers() && propQ == [] && 1 <= nv <= vars + 1
      requires confls == 0 ==> nextRestart == 1 && forall v :: 1 <= v < nv ==> LitVal(PosLit(v)) != 0
      modifies this`claInfo, this`heap, this`stats, this`clauses, this`decided, this`litVal, this`vs,
               this`watches, this`luby, this`lubyCalls, this`lastDbClean, this`origClausesSize,
               this`numLbd2RedCls, this`numUsedRedCls
      ensures Valid() && propQ == [] && stats.mems >= old(stats.mems) && 1 <= nv' <= vars + 1
      ensures restarted <==> confls >= nextRestart
      ensures restarted ==> lubyCalls == old(lubyCalls) + 1 && nextRestart' == confls + LowPow(lubyCalls) * restartFactor
      ensures !restarted ==> nextRestart' == nextRestart
      ensures confls == 0 ==> nextRestart' == 1 && (forall v :: 1 <= v < nv' ==> LitVal(PosLit(v)) != 0)
      ensures confls == 0 && decv != 0 ==> decv == nv'
      ensures decv == 0 ==> HeapCovers() && forall v :: ValidVar(v, vars) ==> LitVal(PosLit(v)) != 0
      ensures decv != 0 ==> ValidVar(decv, vars) && CoversExcept(vars, heapN, heap, litVal, decv)
    {
      nextRestart' := nextRestart;
      restarted := confls >= nextRestart;
      if restarted {
        var nl := NextLuby();
        nextRestart' := confls + nl * restartFactor;
        Restart();
      }
      decv, nv' := PickVar(confls, nv);
    }

    /** The decision variable: before the first conflict by scanning from `nv`, afterwards from
        the heap. */
    method PickVar(confls: int, nv: nat) returns (decv: nat, nv': nat)
      requires Valid() && HeapCovers() && 1 <= nv <= vars + 1
      requires confls == 0 ==> forall v :: 1 <= v < nv ==> LitVal(PosLit(v)) != 0
      modifies this`heap
      ensures Valid() && 1 <= nv' <= vars + 1
      ensures confls == 0 ==> forall v :: 1 <= v < nv' ==> LitVal(PosLit(v)) != 0
      ensures confls == 0 && decv != 0 ==> decv == nv'
      ensures decv == 0 ==> HeapCovers() && forall v :: ValidVar(v, vars) ==> LitVal(PosLit(v)) != 0
      ensures decv != 0 ==> ValidVar(decv, vars) && CoversExcept(vars, heapN, heap, litVal, decv)
    {
      nv' := nv;
      if confls == 0 {
        nv' := ScanFree(nv);
        decv := if nv' <= vars then nv' else 0;
        CoversExceptFrom(decv);
      } else {
        decv := PickFromHeap();
      }
    }

    /** `Covers` implies `CoversExcept` for any variable. */
    lemma CoversExceptFrom(x: nat)
      requires HeapCovers()
      ensures CoversExcept(vars, heapN, heap, litVal, x)
    {
    }

    /** Variables below `nv` that were assigned stay assigned. */
    lemma AssignedKept(lv0: seq<int>, lv: seq<int>, nv: nat)
      requires KeepsAssigned(lv0, lv) && |lv0| == 2 * vars + 2
      requires forall v :: 1 <= v < nv ==> Value(lv0, PosLit(v)) != 0
      ensures forall v :: 1 <= v < nv ==> Value(lv, PosLit(v)) != 0
    {
      forall v | 1 <= v < nv
        ensures Value(lv, PosLit(v)) != 0
      {
        assert Value(lv0, PosLit(v)) != 0;
      }
    }

    method CountConflictTotal()
      modifies this`totalConfls
      ensures totalConfls == old(totalConfls) + 1
    {
      totalConfls := totalConfls + 1;
    }

    /** A restart: the trail is cut back to level 2, and more than 10000 conflicts since the
        last resize trigger `ResizeClauseDb`. */
    method Restart()
      requires Valid() && HeapCovers() && propQ == []
      modifies this`claInfo, this`heap, this`stats, this`clauses, this`decided, this`litVal, this`vs,
               this`watches, this`lastDbClean, this`origClausesSize, this`numLbd2RedCls, this`numUsedRedCls
      ensures Valid() && HeapCovers() && propQ == []
      ensures totalConfls > old(lastDbClean) + 10000 ==> lastDbClean == totalConfls
      ensures totalConfls <= old(lastDbClean) + 10000 ==> lastDbClean == old(lastDbClean)
      ensures stats.mems >= old(stats.mems) && stats.restarts == old(stats.restarts) + 1
    {
      CutToLevel2();
      MaybeResize();
    }

    /** `ResizeClauseDb` once more than 10000 conflicts have passed since the last one. */
    method MaybeResize()
      requires Valid()
      modifies this`claInfo, this`stats, this`clauses, this`vs, this`watches, this`lastDbClean,
               this`origClausesSize, this`numLbd2RedCls, this`numUsedRedCls
      ensures Valid()
      ensures totalConfls > old(lastDbClean) + 10000 ==> lastDbClean == totalConfls
      ensures totalConfls <= old(lastDbClean) + 10000 ==> lastDbClean == old(lastDbClean)
      ensures stats.mems >= old(stats.mems) && stats.restarts == old(stats.restarts)
    {
      if totalConfls > lastDbClean + 10000 {
        ghost var order, fw, kept := ResizeClauseDb();
        lastDbClean := totalConfls;
      }
    }

    /** The backtrack of a restart, counted. */
    method CutToLevel2()
      requires Valid() && HeapCovers() && propQ == []
      modifies this`decided, this`litVal, this`vs, this`heap, this`stats
      ensures Valid() && HeapCovers()
      ensures decided == [] || vs[decided[|decided| - 1]].level < 3
      ensures stats.mems >= old(stats.mems) && stats.restarts == old(stats.restarts) + 1
    {
      UnDecide(3);
      CountRestart();
    }

    method CountRestart()
      modifies this`stats
      ensures stats == old(stats).(restarts := old(stats).restarts + 1)
    {
      stats := stats.(restarts := stats.restarts + 1);
    }

    /** The lowest unassigned variable at or after `nv`, or `vars + 1` when there is none. */
    method ScanFree(nv: nat) returns (nv': nat)
      requires Valid() && 1 <= nv <= vars + 1
      ensures nv <= nv' <= vars + 1
      ensures forall v :: nv <= v < nv' ==> LitVal(PosLit(v)) != 0
      ensures nv' <= vars ==> LitVal(PosLit(nv')) == 0
    {
      nv' := nv;
      while nv' <= vars && LitVal(PosLit(nv')) != 0
        invariant nv <= nv' <= vars + 1
        invariant forall v :: nv <= v < nv' ==> LitVal(PosLit(v)) != 0
      {
        nv' := nv' + 1;
      }
    }

    /** Pops the heap until it yields an unassigned variable, or 0 when no leaf is active; in the
        latter case every variable is assigned. */
    method PickFromHeap() returns (decv: nat)
      requires Valid() && HeapCovers()
      modifies this`heap
      ensures Valid()
      ensures decv == 0 ==> HeapCovers() && forall v :: ValidVar(v, vars) ==> LitVal(PosLit(v)) != 0
      ensures decv != 0 ==> ValidVar(decv, vars) && LitVal(PosLit(decv)) == 0
      ensures decv != 0 ==> CoversExcept(vars, heapN, heap, litVal, decv)
    {
      while true
        invariant Valid() && HeapCovers()
        decreases |Active(vars, heapN, heap)|
      {
        ghost var h0 := heap;
        decv := PopVarHeap();
        if decv == 0 {
          CoversAllAssigned(vars, heapN, heap, litVal);
          return;
        }
        CoversPop(vars, heapN, h0, heap, litVal, decv);
        if LitVal(PosLit(decv)) == 0 {
          return;
        }
        ActiveShrinks(vars, heapN, h0, heap, decv);
      }
    }

    /** Decides the free variable `v` at `level` with its saved phase. */
    method DecideVar(v: nat, level: int)
      requires Valid() && ValidVar(v, vars) && CoversExcept(vars, heapN, heap, litVal, v)
      modifies this`litVal, this`vs, this`decided, this`propQ
      ensures Valid() && HeapCovers() && propQ != []
      ensures forall u :: ValidVar(u, vars) && u != v ==> LitVal(PosLit(u)) == old(LitVal(PosLit(u)))
    {
      var l := MkLit(v, vs[v].phase);
      LitVarPair(l, vars);
      CoversDecided(vars, heapN, heap, litVal, l);
      Decide(l, level);
    }

    // -------------------------------------------------------------------------------------------
    // Queries

    /** A query under the assumption literals `assumps`, with a budget of `maxMems` memory
        accesses for the search. An unsatisfiable oracle answers `False` and changes nothing;
        with `usecache`, a cached solution agreeing with every assumption answers `True` and is
        counted. Otherwise the assumptions are decided at level 2 in order: one already false
        answers `False`, and so does a conflict when they are propagated. Only then does the
        search run (`searched`); its assignments above level 1 are undone afterwards, and the
        units it learned become facts of level 1, which may make the oracle unsatisfiable and
        the answer `False`. A `True` answer is added to the cache when `usecache` is set; a
        `False` answer of the search under a single assumption freezes that assumption's
        negation. */
    method Solve(assumps: seq<nat>, usecache: bool, maxMems: int) returns (sol: TriState, ghost searched: bool)
      requires Valid() && HeapCovers() && forall k :: 0 <= k < |assumps| ==> ValidLit(assumps[k], vars)
      modifies this`claInfo, this`lvlSeen, this`lvlIt, this`heap, this`stats, this`seen, this`inCc,
               this`clauses, this`reduIt, this`reduSeen, this`reduS, this`decided, this`litVal,
               this`vs, this`propQ, this`learnedUnits, this`watches, this`luby, this`lubyCalls,
               this`totalConfls, this`lastDbClean, this`origClausesSize, this`numLbd2RedCls,
               this`numUsedRedCls, this`unsat, this`solCache
      ensures Valid() && HeapCovers()
      ensures old(unsat) ==> && sol == False && !searched && unsat
                             && litVal == old(litVal) && clauses == old(clauses) && stats == old(stats)
      ensures !old(unsat) && usecache && CachedSat(old(solCache), assumps) ==>
                && sol == True && !searched && litVal == old(litVal) && clauses == old(clauses)
                && stats == old(stats).(cacheUseful := old(stats).cacheUseful + 1)
      ensures !old(unsat) && !(usecache && CachedSat(old(solCache), assumps)) && Clashes(old(litVal), assumps) ==>
                sol == False && !searched && propQ == []
      ensures unsat ==> sol == False
      ensures !searched ==> solCache == old(solCache)
      ensures sol == Unknown ==> searched && stats.mems > old(stats.mems) + maxMems
      ensures searched ==> !old(unsat) && propQ == []
      ensures searched && sol == True && usecache ==>
                forall v :: 1 <= v <= vars ==> solCache[v] == old(solCache[v]) + [vs[v].phase]
      ensures searched && sol == False && |assumps| == 1 ==> unsat || LitVal(Neg(assumps[0])) == 1
    {
      if unsat {
        return False, false;
      }
      if usecache {
        var hit := SatByCache(assumps);
        if hit {
          CountCacheUseful();
          return True, false;
        }
      }
      sol, searched := SolveUnder(assumps, usecache, maxMems);
    }

    method CountCacheUseful()
      modifies this`stats
      ensures stats == old(stats).(cacheUseful := old(stats).cacheUseful + 1)
    {
      stats := stats.(cacheUseful := stats.cacheUseful + 1);
    }

    /** `Solve` past the unsatisfiable flag and the cache: assumptions, search, and the
        recording of the answer. */
    method SolveUnder(assumps: seq<nat>, usecache: bool, maxMems: int) returns (sol: TriState, ghost searched: bool)
      requires Valid() && HeapCovers() && !unsat && forall k :: 0 <= k < |assumps| ==> ValidLit(assumps[k], vars)
      modifies this`claInfo, this`lvlSeen, this`lvlIt, this`heap, this`stats, this`seen, this`inCc,
               this`clauses, this`reduIt, this`reduSeen, this`reduS, this`decided, this`litVal,
               this`vs, this`propQ, this`learnedUnits, this`watches, this`luby, this`lubyCalls,
               this`totalConfls, this`lastDbClean, this`origClausesSize, this`numLbd2RedCls,
               this`numUsedRedCls, this`unsat, this`solCache
      ensures Valid() && HeapCovers() && propQ == []
      ensures Clashes(old(litVal), assumps) ==> sol == False && !searched
      ensures unsat ==> sol == False
      ensures !searched ==> solCache == old(solCache)
      ensures sol == Unknown ==> searched && stats.mems > old(stats.mems) + maxMems
      ensures searched && sol == True && usecache ==>
                forall v :: 1 <= v <= vars ==> solCache[v] == old(solCache[v]) + [vs[v].phase]
      ensures searched && sol == False && |assumps| == 1 ==> unsat || LitVal(Neg(assumps[0])) == 1
    {
      var clash := DecideAssumps(assumps);
      if clash {
        Retract();
        return False, false;
      }
      sol, searched := PropagateAndSearch(assumps, usecache, maxMems);
    }

    /** The queue is dropped and every assignment above level 1 undone. */
    method Retract()
      requires Valid()
      modifies this`propQ, this`decided, this`litVal, this`vs, this`heap, this`stats
      ensures Valid() && propQ == [] && (old(HeapCovers()) ==> HeapCovers())
    {
      ClearQueue();
      UnDecide(2);
    }

    /** `SolveUnder` once the assumptions are decided: their propagation, and without a
        conflict the search and the recording of its answer. */
    method PropagateAndSearch(assumps: seq<nat>, usecache: bool, maxMems: int) returns (sol: TriState, ghost searched: bool)
      requires Valid() && HeapCovers() && !unsat && forall k :: 0 <= k < |assumps| ==> ValidLit(assumps[k], vars)
      modifies this`claInfo, this`lvlSeen, this`lvlIt, this`heap, this`stats, this`seen, this`inCc,
               this`clauses, this`reduIt, this`reduSeen, this`reduS, this`decided, this`litVal,
               this`vs, this`propQ, this`learnedUnits, this`watches, this`luby, this`lubyCalls,
               this`totalConfls, this`lastDbClean, this`origClausesSize, this`numLbd2RedCls,
               this`numUsedRedCls, this`unsat, this`solCache
      ensures Valid() && HeapCovers() && propQ == []
      ensures unsat ==> sol == False
      ensures !searched ==> sol == False && solCache == old(solCache)
      ensures sol == Unknown ==> stats.mems > old(stats.mems) + maxMems
      ensures searched && sol == True && usecache ==>
                forall v :: 1 <= v <= vars ==> solCache[v] == old(solCache[v]) + [vs[v].phase]
      ensures searched && sol == False && |assumps| == 1 ==> unsat || LitVal(Neg(assumps[0])) == 1
    {
      var confl := Propagate(2);
      if confl != 0 {
        UnDecide(2);
        return False, false;
      }
      sol := SearchAndRecord(assumps, usecache, maxMems);
      searched := true;
    }

    /** The search of `PropagateAndSearch` after a propagation without conflict, and the
        recording of its answer. */
    method SearchAndRecord(assumps: seq<nat>, usecache: bool, maxMems: int) returns (sol: TriState)
      requires Valid() && HeapCovers() && !unsat && propQ == [] && forall k :: 0 <= k < |assumps| ==> ValidLit(assumps[k], vars)
      modifies this`claInfo, this`lvlSeen, this`lvlIt, this`heap, this`stats, this`seen, this`inCc,
               this`clauses, this`reduIt, this`reduSeen, this`reduS, this`decided, this`litVal,
               this`vs, this`propQ, this`learnedUnits, this`watches, this`luby, this`lubyCalls,
               this`totalConfls, this`lastDbClean, this`origClausesSize, this`numLbd2RedCls,
               this`numUsedRedCls, this`unsat, this`solCache
      ensures Valid() && HeapCovers() && propQ == []
      ensures unsat ==> sol == False
      ensures sol == Unknown ==> stats.mems > old(stats.mems) + maxMems
      ensures sol == True && usecache ==>
                forall v :: 1 <= v <= vars ==> solCache[v] == old(solCache[v]) + [vs[v].phase]
      ensures sol == False && |assumps| == 1 ==> unsat || LitVal(Neg(assumps[0])) == 1
    {
      sol := Search(maxMems);
      Record(sol, assumps, usecache);
    }

    /** The end of `Solve` after a search: a `True` answer is cached when `usecache` is set, and
        a `False` answer under a single assumption freezes its negation. */
    method Record(sol: TriState, assumps: seq<nat>, usecache: bool)
      requires Valid() && HeapCovers() && propQ == [] && (unsat ==> sol == False)
      requires forall k :: 0 <= k < |assumps| ==> ValidLit(assumps[k], vars)
      modifies this`unsat, this`solCache, this`clauses, this`watches, this`litVal, this`vs, this`decided,
               this`propQ, this`stats
      ensures Valid() && HeapCovers() && propQ == [] && (unsat ==> sol == False)
      ensures stats.mems >= old(stats.mems)
      ensures sol == True && usecache ==>
                forall v :: 1 <= v <= vars ==> solCache[v] == old(solCache[v]) + [vs[v].phase]
      ensures sol == False && |assumps| == 1 ==> unsat || LitVal(Neg(assumps[0])) == 1
    {
      if sol == True {
        if usecache {
          AddSolToCache();
        }
      } else if sol == False && |assumps| == 1 {
        LitVarPair(assumps[0], vars);
        var ok := FreezeUnit(Neg(assumps[0]));
      }
    }

    /** The assumption loop of `Solve`: each assumption in turn is decided at level 2 while it is
        unassigned, until one is found false (`clash`). Without a clash every assumption is
        true afterwards. */
    method DecideAssumps(assumps: seq<nat>) returns (clash: bool)
      requires Valid() && forall k :: 0 <= k < |assumps| ==> ValidLit(assumps[k], vars)
      modifies this`litVal, this`vs, this`decided, this`propQ
      ensures Valid() && (old(HeapCovers()) ==> HeapCovers())
      ensures clash <==> Clashes(old(litVal), assumps)
      ensures !clash ==> forall k :: 0 <= k < |assumps| ==> LitVal(assumps[k]) == 1
    {
      var k := 0;
      while k < |assumps|
        invariant k <= |assumps| && Valid() && (old(HeapCovers()) ==> HeapCovers())
        invariant Clashes(old(litVal), assumps) == Clashes(litVal, assumps[k..])
        invariant forall j :: 0 <= j < k ==> LitVal(assumps[j]) == 1
      {
        ClashStep(litVal, assumps, k);
        if LitVal(assumps[k]) == -1 {
          return true;
        }
        DecideAssump(assumps, k);
        k := k + 1;
      }
      return false;
    }

    /** One step of `DecideAssumps` at a non-false assumption. */
    method DecideAssump(assumps: seq<nat>, k: nat)
      requires Valid() && k < |assumps| && ValidLit(assumps[k], vars) && LitVal(assumps[k]) != -1
      requires forall j :: 0 <= j < k ==> LitVal(assumps[j]) == 1
      modifies this`litVal, this`vs, this`decided, this`propQ
      ensures Valid() && (old(HeapCovers()) ==> HeapCovers())
      ensures litVal == if old(LitVal(assumps[k])) == 0 then SetLit(old(litVal), assumps[k]) else old(litVal)
      ensures forall j :: 0 <= j <= k ==> LitVal(assumps[j]) == 1
    {
      var l := assumps[k];
      LitVarPair(l, vars);
      if LitVal(l) == 0 {
        assert LitVal(Neg(l)) == 0;
        ghost var lv := litVal;
        Decide(l, 2);
        forall j | 0 <= j < k
          ensures LitVal(assumps[j]) == 1
        {
          SetLitKeeps(lv, l, assumps[j]);
        }
      }
    }

    /** The search of `Solve` once the assumptions hold, and what follows it: the trail is cut
        back below level 2 and, as the oracle is still satisfiable, the units learned during the
        search are decided at level 1, last first, and propagated; a conflict then makes the
        oracle unsatisfiable and the answer `False`. */
    method Search(maxMems: int) returns (sol: TriState)
      requires Valid() && HeapCovers() && !unsat
      modifies this`claInfo, this`lvlSeen, this`lvlIt, this`heap, this`stats, this`seen, this`inCc,
               this`clauses, this`reduIt, this`reduSeen, this`reduS, this`decided, this`litVal,
               this`vs, this`propQ, this`learnedUnits, this`watches, this`luby, this`lubyCalls,
               this`totalConfls, this`lastDbClean, this`origClausesSize, this`numLbd2RedCls,
               this`numUsedRedCls, this`unsat
      ensures Valid() && HeapCovers() && propQ == []
      ensures unsat ==> sol == False
      ensures !unsat ==> learnedUnits == []
      ensures sol == Unknown ==> stats.mems > old(stats.mems) + maxMems
    {
      sol := HardSolve(maxMems);
      UnDecide(2);
      var frozen := FreezeLearned();
      if !frozen {
        sol := False;
      }
    }

    /** The learned units, last first, are decided at level 1 and propagated; a conflict makes
        the oracle unsatisfiable (`ok` false). Each unit is assigned afterwards. */
    method FreezeLearned() returns (ok: bool)
      requires Valid() && HeapCovers() && propQ == [] && !unsat
      modifies this`learnedUnits, this`litVal, this`vs, this`decided, this`propQ, this`clauses,
               this`watches, this`stats, this`unsat
      ensures Valid() && HeapCovers() && propQ == [] && (ok <==> !unsat)
      ensures learnedUnits == [] && stats.mems >= old(stats.mems)
      ensures forall k :: 0 <= k < |old(learnedUnits)| ==> LitVal(old(learnedUnits)[k]) != 0
    {
      ghost var lu := learnedUnits;
      DecideLearned();
      var confl := PropagateLearned(lu);
      ok := confl == 0;
      if !ok {
        BecomeUnsat();
      }
    }

    /** A conflict at level 1: the oracle is unsatisfiable from now on. */
    method BecomeUnsat()
      requires Valid()
      modifies this`unsat
      ensures Valid() && unsat
    {
      unsat := true;
    }

    /** The propagation at level 1 that ends `FreezeLearned`; assigned units stay assigned. */
    method PropagateLearned(ghost lu: seq<nat>) returns (confl: nat)
      requires Valid() && HeapCovers() && forall k :: 0 <= k < |lu| ==> LitVal(lu[k]) != 0
      modifies this`clauses, this`watches, this`litVal, this`vs, this`decided, this`propQ, this`stats
      ensures Valid() && HeapCovers() && propQ == [] && stats.mems >= old(stats.mems)
      ensures forall k :: 0 <= k < |lu| ==> LitVal(lu[k]) != 0
    {
      ghost var lv := litVal;
      confl := Propagate(1);
      UnitsKept(lv, litVal, lu);
    }

    /** The loop of `FreezeLearned`: every learned unit, last first, is decided at level 1. */
    method DecideLearned()
      requires Valid() && HeapCovers()
      modifies this`learnedUnits, this`litVal, this`vs, this`decided, this`propQ
      ensures Valid() && HeapCovers() && learnedUnits == []
      ensures forall k :: 0 <= k < |old(learnedUnits)| ==> LitVal(old(learnedUnits)[k]) != 0
    {
      ghost var lu := learnedUnits;
      while learnedUnits != []
        invariant Valid() && HeapCovers()
        invariant |learnedUnits| <= |lu| && learnedUnits == lu[..|learnedUnits|]
        invariant forall k :: |learnedUnits| <= k < |lu| ==> LitVal(lu[k]) != 0
        decreases |learnedUnits|
      {
        DecideLastUnit();
      }
    }

    /** One step of `DecideLearned`: the last learned unit is decided at level 1 and dropped. */
    method DecideLastUnit()
      requires Valid() && HeapCovers() && learnedUnits != []
      modifies this`learnedUnits, this`litVal, this`vs, this`decided, this`propQ
      ensures Valid() && HeapCovers() && learnedUnits == old(learnedUnits[..|learnedUnits| - 1])
      ensures LitVal(old(learnedUnits[|learnedUnits| - 1])) == 1
      ensures forall l :: old(LitVal(l)) != 0 ==> LitVal(l) != 0
    {
      var u := learnedUnits[|learnedUnits| - 1];
      LitVarPair(u, vars);
      Decide(u, 1);
      learnedUnits := learnedUnits[..|learnedUnits| - 1];
    }

    /** The learned clauses and the facts: every clause of the arena after the original region,
        in arena order and each with its literals sorted by id, then the unit clause of every
        assigned variable, in variable order. */
    method GetLearnedClauses() returns (ret: seq<seq<nat>>)
      requires ArenaOk()
      ensures |ret| == |ClausesFrom(clauses, origClausesSize)| + |Units(litVal, vars)|
      ensures SortedCopies(ret[..|ClausesFrom(clauses, origClausesSize)|], ClausesFrom(clauses, origClausesSize))
      ensures ret[|ClausesFrom(clauses, origClausesSize)|..] == Units(litVal, vars)
    {
      var learned := LearnedRegion();
      var units := UnitClauses();
      ret := learned + units;
      assert ret[..|learned|] == learned && ret[|learned|..] == units;
    }

    /** The first loop of `GetLearnedClauses`: the arena after the original region cut at
        its terminators, each clause sorted as it is completed. */
    method LearnedRegion() returns (ret: seq<seq<nat>>)
      requires ArenaOk()
      ensures SortedCopies(ret, ClausesFrom(clauses, origClausesSize))
    {
      ret := SplitSorted(clauses, origClausesSize);
    }

    /** The second loop of `GetLearnedClauses`: a unit clause per assigned variable. */
    method UnitClauses() returns (ret: seq<seq<nat>>)
      ensures ret == Units(litVal, vars)
    {
      ret := [];
      var v := 1;
      while v <= vars
        invariant 1 <= v <= vars + 1
        invariant ret == Units(litVal, v - 1)
      {
        if LitVal(PosLit(v)) == 1 {
          ret := ret + [[PosLit(v)]];
        } else if LitVal(PosLit(v)) == -1 {
          ret := ret + [[NegLit(v)]];
        }
        v := v + 1;
      }
    }

    /** Every clause the learned-clause metadata describes is one of the clauses
        `GetLearnedClauses` reports. */
    lemma LearnedListed()
      requires ArenaOk() && InfoOk()
      ensures forall k :: 0 <= k < |claInfo| ==> ClauseAt(clauses, claInfo[k].pt) in ClausesFrom(clauses, origClausesSize)
    {
      forall k | 0 <= k < |claInfo|
        ensures ClauseAt(clauses, claInfo[k].pt) in ClausesFrom(clauses, origClausesSize)
      {
        ClausesFromListed(clauses, origClausesSize, claInfo[k].pt);
      }
    }

    // -------------------------------------------------------------------------------------------
    // Fixing an assumption literal

    /** `SetAssumpLit`: makes `lit` true for good, at level 1 when `freeze` and at level 2
        otherwise, without a reason and outside the trail and the propagation queue. First every
        clause watched by a literal of `lit`'s variable moves that watch to its last free literal
        past the first two, which takes the watched slot (see `ReleaseWatch`); each of the two
        watch lists is cleared once it has been walked. */
    method SetAssumpLit(lit: nat, freeze: bool)
      requires Valid() && ValidLit(lit, vars) && propQ == []
      modifies this`clauses, this`watches, this`litVal, this`vs, this`decided, this`propQ, this`stats
      ensures Valid() && (old(HeapCovers()) ==> HeapCovers())
      ensures SameShape(old(clauses), clauses) && Total(watches) <= old(Total(watches))
      ensures watches[NegLit(VarOf(lit))] == []
      ensures litVal == old(litVal)[lit := 1][Neg(lit) := -1]
      ensures vs == old(vs)[VarOf(lit) := VarState(0, if freeze then 1 else 2, if IsPos(lit) then 1 else 0)]
      ensures decided == old(decided) && propQ == []
      ensures stats == old(stats).(mems := stats.mems)
      ensures stats.mems >= old(stats.mems) + |old(watches[PosLit(VarOf(lit))])| + |old(watches[NegLit(VarOf(lit))])|
    {
      var v := VarOf(lit);
      LitVarPair(lit, vars);
      ghost var c0 := clauses;
      ReleaseList(PosLit(v), NegLit(v));
      ghost var c1 := clauses;
      ReleaseList(NegLit(v), NegLit(v));
      SameShapeTrans(c0, c1, clauses);
      PlaceAssump(lit, if freeze then 1 else 2);
    }

    /** The assignment of `SetAssumpLit`: `lit` true at `level` with no reason, taken off the
        trail and the queue again. */
    method PlaceAssump(lit: nat, level: int)
      requires Valid() && ValidLit(lit, vars) && propQ == []
      modifies this`litVal, this`vs, this`decided, this`propQ
      ensures Valid() && (old(HeapCovers()) ==> HeapCovers())
      ensures litVal == old(litVal)[lit := 1][Neg(lit) := -1]
      ensures vs == old(vs)[VarOf(lit) := VarState(0, level, if IsPos(lit) then 1 else 0)]
      ensures decided == old(decided) && propQ == []
    {
      Assign(lit, 0, level);
      var v := PopTrail();
      ClearQueue();
    }

    /** Walks the watch list of `tl` (a copy taken before the walk, as every push goes to
        another list) with `ReleaseWatch`, then clears it. No other list loses a record, in
        particular not that of `keep`. */
    method ReleaseList(tl: nat, keep: nat)
      requires Valid() && ValidLit(tl, vars) && keep < |watches|
      modifies this`clauses, this`watches, this`stats
      ensures Valid() && SameShape(old(clauses), clauses) && watches[tl] == []
      ensures Total(watches) <= old(Total(watches))
      ensures keep != tl ==> |watches[keep]| >= |old(watches[keep])|
      ensures stats == old(stats).(mems := old(stats.mems) + |old(watches[tl])|)
    {
      var src := watches[tl];
      var j := 0;
      while j < |src|
        invariant j <= |src| && Valid() && SameShape(old(clauses), clauses)
        invariant ListIn(clauses, vars, tl, src)
        invariant Total(watches) <= old(Total(watches)) + j
        invariant |watches[tl]| >= |src| && |watches[keep]| >= |old(watches[keep])|
        invariant stats == old(stats).(mems := old(stats.mems) + j)
      {
        ghost var c1 := clauses;
        ReleaseStep(tl, keep, src, j);
        SameShapeTrans(old(clauses), c1, clauses);
        j := j + 1;
      }
      ClearList(tl);
    }

    /** The loop body of `ReleaseList`: the `j`-th watch of the copy `src`. */
    method ReleaseStep(tl: nat, keep: nat, src: seq<Watch>, j: nat)
      requires Valid() && ListIn(clauses, vars, tl, src) && j < |src| && tl < |watches| && keep < |watches|
      modifies this`clauses, this`watches, this`stats
      ensures Valid() && SameShape(old(clauses), clauses) && ListIn(clauses, vars, tl, src)
      ensures Total(watches) <= old(Total(watches)) + 1
      ensures |watches[tl]| >= |old(watches[tl])| && |watches[keep]| >= |old(watches[keep])|
      ensures stats == old(stats).(mems := old(stats.mems) + 1)
    {
      ghost var to, blit := ReleaseWatch(tl, src[j]);
      ShapeKeepsList(old(clauses), clauses, vars, tl, src);
    }

    /** Empties the watch list of `tl`. */
    method ClearList(tl: nat)
      requires Valid() && ValidLit(tl, vars)
      modifies this`watches
      ensures Valid() && watches == old(watches)[tl := []]
      ensures Total(watches) == old(Total(watches)) - |old(watches[tl])|
    {
      TotalUpdate(watches, tl, []);
      watches := watches[tl := []];
    }

    /** One watch `w` from the list of `tl`: the watched slot holding `tl` is the first one
        unless the first literal differs from `tl`; the last free literal past the first two is
        swapped into it and the watch, with the other watched literal as blocker, is pushed to
        that literal's list. A clause with no such literal is left alone. */
    method ReleaseWatch(tl: nat, w: Watch) returns (ghost to: nat, ghost blit: nat)
      requires Valid() && WatchIn(clauses, vars, tl, w)
      modifies this`clauses, this`watches, this`stats
      ensures Valid() && SameShape(old(clauses), clauses)
      ensures stats == old(stats).(mems := old(stats.mems) + 1)
      ensures to == 0 ==> watches == old(watches) && clauses == old(clauses)
      ensures to != 0 ==> && LitVal(to) == 0 && to < |watches|
                          && ((clauses[w.cls] == to && clauses[w.cls + 1] == blit) || (clauses[w.cls] == blit && clauses[w.cls + 1] == to))
                          && watches == old(watches)[to := old(watches[to]) + [Watch(w.cls, blit, w.size)]]
      ensures Total(watches) == old(Total(watches)) + (if to == 0 then 0 else 1)
    {
      CountMem();
      var pos, opos := w.cls, w.cls + 1;
      if At(clauses, pos) != tl {
        pos, opos := pos + 1, opos - 1;
      }
      var f := LastFree(w.cls + 2);
      if f == 0 {
        return 0, 0;
      }
      to, blit := MoveToFree(tl, w, pos, opos, f);
    }

    /** The move of `ReleaseWatch` once the free literal at `f` is found: it is swapped into the
        watched slot `pos` and the watch goes to its list, blocked by the literal at `opos`. */
    method MoveToFree(tl: nat, w: Watch, pos: nat, opos: nat, f: nat) returns (to: nat, blit: nat)
      requires Valid() && WatchIn(clauses, vars, tl, w)
      requires (pos == w.cls && opos == w.cls + 1) || (pos == w.cls + 1 && opos == w.cls)
      requires w.cls + 2 <= f < |clauses| && LitVal(clauses[f]) == 0
      requires forall k :: w.cls + 2 <= k <= f ==> clauses[k] != 0
      modifies this`clauses, this`watches
      ensures Valid() && SameShape(old(clauses), clauses)
      ensures to != 0 && LitVal(to) == 0 && to < |watches| && to == old(clauses[f])
      ensures (clauses[w.cls] == to && clauses[w.cls + 1] == blit) || (clauses[w.cls] == blit && clauses[w.cls + 1] == to)
      ensures watches == old(watches)[to := old(watches[to]) + [Watch(w.cls, blit, w.size)]]
      ensures Total(watches) == old(Total(watches)) + 1
    {
      SwapFree(w.cls, pos, f);
      to, blit := clauses[pos], clauses[opos];
      PushWatch(to, Watch(w.cls, blit, w.size));
    }

    /** The swap of `MoveToFree`: the unassigned literal at `f` and the watch slot `pos` of the
        clause at `cls` trade places. */
    method SwapFree(cls: nat, pos: nat, f: nat)
      requires Valid() && StartIn(clauses, cls) && cls + 2 < |clauses| && (pos == cls || pos == cls + 1)
      requires cls + 2 <= f < |clauses| && forall k :: cls + 2 <= k <= f ==> clauses[k] != 0
      modifies this`clauses
      ensures Valid() && SameShape(old(clauses), clauses) && StartIn(clauses, cls)
      ensures clauses == old(clauses)[f := old(clauses[pos])][pos := old(clauses[f])]
    {
      var a, b := clauses[f], clauses[pos];
      WriteTwo(cls, f, b, pos, a);
      ShapeKeepsStart(old(clauses), clauses, cls);
    }

    /** The scan of `ReleaseWatch`: the last literal from offset `from` to the end of its clause
        that is unassigned, or 0. */
    method LastFree(from: nat) returns (f: nat)
      requires 1 <= from <= |clauses|
      ensures f == 0 ==> forall k :: from <= k < from + |ClauseAt(clauses, from)| ==> LitVal(clauses[k]) != 0
      ensures f != 0 ==> from <= f < from + |ClauseAt(clauses, from)| && f < |clauses| && clauses[f] != 0
      ensures f != 0 ==> LitVal(clauses[f]) == 0 && forall k :: from <= k <= f ==> clauses[k] != 0
      ensures f != 0 ==> forall k :: f < k < from + |ClauseAt(clauses, from)| ==> LitVal(clauses[k]) != 0
    {
      f := 0;
      var k := from;
      while At(clauses, k) != 0
        invariant from <= k <= |clauses|
        invariant ClauseAt(clauses, from) == clauses[from..k] + ClauseAt(clauses, k)
        invariant f == 0 ==> forall k' :: from <= k' < k ==> LitVal(clauses[k']) != 0
        invariant f != 0 ==> from <= f < k && clauses[f] != 0 && LitVal(clauses[f]) == 0
        invariant f != 0 ==> forall k' :: f < k' < k ==> LitVal(clauses[k']) != 0
        invariant forall k' :: from <= k' < k ==> clauses[k'] != 0
        decreases |clauses| - k
      {
        if LitVal(clauses[k]) == 0 {
          f := k;
        }
        ClauseAtAdvance(clauses, from, k);
        k := k + 1;
      }
      assert ClauseAt(clauses, k) == [];
      assert |ClauseAt(clauses, from)| == k - from;
    }

    // -------------------------------------------------------------------------------------------
    // Rebuilding the clause database

    /** `ResizeClauseDb`: the metadata sorted (added clauses first, then by recent use and total
        use, both descending); a new arena made of the original region followed by each clause
        not forgotten, in that order, with a binary reason turned to put its implied literal first;
        added clauses join the original region; every other kept clause gets its metadata at its
        new offset, its recent use one less; reasons and watch records are re-pointed, records of
        forgotten clauses dropped. `fw` maps each learned clause's old offset to its new one, 0
        when forgotten, and `kept` holds the decision for each sorted entry. */
    method ResizeClauseDb() returns (ghost order: seq<CInfo>, ghost fw: map<nat, nat>, ghost kept: seq<bool>)
      requires Valid()
      modifies this`claInfo, this`stats, this`clauses, this`vs, this`watches, this`origClausesSize,
               this`numLbd2RedCls, this`numUsedRedCls
      ensures Valid()
      ensures multiset(order) == multiset(old(claInfo)) && SortedBy(order, InfoOrder)
      ensures Decisions(old(clauses), old(vs), litVal, old(origClausesSize), order, fw, kept, clauses, origClausesSize)
      ensures vs == Repoint(old(vs), old(origClausesSize), fw) && watches == RemapAll(old(watches), old(origClausesSize), fw)
      ensures claInfo == Renew(order, kept, fw, |order|)
      ensures stats == Tally(old(stats), |order|, kept)
      ensures numLbd2RedCls == Lbd2Count(order, |order|) && numUsedRedCls == UsedCount(order, |order|)
    {
      var ord, nc, ni, fwd, orig, n2, nu, st, vs', ws';
      ord, nc, ni, fwd, kept, orig, n2, nu, st, vs', ws' :=
        ResizeDb(clauses, vs, litVal, vars, claInfo, origClausesSize, watches, stats);
      order, fw := ord, fwd;
      Install(nc, orig, ni, vs', ws', st, n2, nu);
    }

    /** The rebuilt database put in place. */
    method Install(nc: seq<nat>, orig: nat, ni: seq<CInfo>, vs': seq<VarState>, ws': seq<seq<Watch>>, st: Stats, n2: int, nu: int)
      requires Valid()
      requires |nc| >= 1 && nc[0] == 0 && nc[|nc| - 1] == 0 && 1 <= orig <= |nc| && nc[orig - 1] == 0
      requires LitsIn(nc, vars) && InfoIn(nc, orig, ni) && ReasonsIn(nc, vs')
      requires |ws'| == 2 * vars + 2 && ws'[0] == [] && ws'[1] == [] && WatchesIn(nc, vars, ws')
      requires |vs'| == vars + 1 && PhasesIn(vs')
      modifies this`claInfo, this`stats, this`clauses, this`vs, this`watches, this`origClausesSize,
               this`numLbd2RedCls, this`numUsedRedCls
      ensures Valid()
      ensures clauses == nc && origClausesSize == orig && claInfo == ni && vs == vs' && watches == ws'
      ensures stats == st && numLbd2RedCls == n2 && numUsedRedCls == nu
    {
      PutDb(nc, ni, vs', ws', orig, st, n2, nu);
      Untouched();
      Installed(nc, orig, ni, vs', ws');
    }

    /** The fields of the clause database set to these values. */
    method PutDb(nc: seq<nat>, ni: seq<CInfo>, vs': seq<VarState>, ws': seq<seq<Watch>>, orig: nat, st: Stats, n2: int, nu: int)
      modifies this`claInfo, this`stats, this`clauses, this`vs, this`watches, this`origClausesSize,
               this`numLbd2RedCls, this`numUsedRedCls
      ensures clauses == nc && origClausesSize == orig && claInfo == ni && vs == vs' && watches == ws'
      ensures stats == st && numLbd2RedCls == n2 && numUsedRedCls == nu
    {
      clauses, claInfo, vs, watches := nc, ni, vs', ws';
      origClausesSize, stats, numLbd2RedCls, numUsedRedCls := orig, st, n2, nu;
    }

    /** The parts of the invariant over fields the rebuild does not write still hold. */
    twostate lemma Untouched()
      requires old(LitValsOk() && TrailOk() && OtherPart() && SizesOk())
      requires old(litVal) == litVal && old(decided) == decided && old(propQ) == propQ && old(learnedUnits) == learnedUnits
      requires old(heap) == heap && old(solCache) == solCache && old(luby) == luby && old(lubyCalls) == lubyCalls
      requires old(lvlSeen) == lvlSeen && old(lvlIt) == lvlIt && old(reduSeen) == reduSeen && old(reduIt) == reduIt
      requires old(seen) == seen && old(inCc) == inCc
      ensures LitValsOk() && TrailOk() && OtherPart() && vars >= 1 && |seen| == vars + 1 && |inCc| == 2 * vars + 2
    {
    }

    /** The oracle with these arena, metadata, variables and watches, the rest as it was,
        satisfies its invariant. */
    lemma Installed(nc: seq<nat>, orig: nat, ni: seq<CInfo>, vs': seq<VarState>, ws': seq<seq<Watch>>)
      requires clauses == nc && origClausesSize == orig && claInfo == ni && vs == vs' && watches == ws'
      requires |nc| >= 1 && nc[0] == 0 && nc[|nc| - 1] == 0 && 1 <= orig <= |nc| && nc[orig - 1] == 0
      requires LitsIn(nc, vars) && InfoIn(nc, orig, ni) && ReasonsIn(nc, vs')
      requires |ws'| == 2 * vars + 2 && ws'[0] == [] && ws'[1] == [] && WatchesIn(nc, vars, ws')
      requires vars >= 1 && |vs'| == vars + 1 && |seen| == vars + 1 && |inCc| == 2 * vars + 2 && PhasesIn(vs')
      requires LitValsOk() && TrailOk() && OtherPart()
      ensures Valid()
    {
    }

}
}
