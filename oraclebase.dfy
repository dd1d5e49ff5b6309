/** Literals, records and the clause arena of the CDCL oracle (oracle/oracle.cpp).
    Variable `v` (1 <= v <= vars) has the positive literal `2v` and the negative literal `2v+1`;
    literal id `0` terminates a clause in the arena and never names a literal. */
module OracleBase {

  /** The variable of a literal. */
  function VarOf(l: nat): nat { l / 2 }

  function PosLit(v: nat): (r: nat)
    ensures VarOf(r) == v && r % 2 == 0
  { 2 * v }

  function NegLit(v: nat): (r: nat)
    ensures VarOf(r) == v && r % 2 == 1
  { 2 * v + 1 }

  /** The opposite literal of the same variable. */
  function Neg(l: nat): (r: nat)
    ensures VarOf(r) == VarOf(l) && r != l && r % 2 != l % 2
  { if l % 2 == 0 then l + 1 else l - 1 }

  predicate IsPos(l: nat) { l % 2 == 0 }

  /** The literal of `v` with polarity `phase` (1 is positive, as `Assign` stores it). */
  function MkLit(v: nat, phase: int): (r: nat)
    ensures VarOf(r) == v && (IsPos(r) <==> phase == 1)
  { if phase == 1 then PosLit(v) else NegLit(v) }

  lemma NegInvolution(l: nat)
    ensures Neg(Neg(l)) == l
  {
  }

  /** Literal ids of a problem with `vars` variables run from 2 to `2*vars+1`. */
  predicate ValidLit(l: nat, vars: nat) { 2 <= l < 2 * vars + 2 }

  predicate ValidVar(v: nat, vars: nat) { 1 <= v <= vars }

  lemma LitVarPair(l: nat, vars: nat)
    requires ValidLit(l, vars)
    ensures ValidVar(VarOf(l), vars) && ValidLit(Neg(l), vars)
    ensures l == PosLit(VarOf(l)) || l == NegLit(VarOf(l))
    ensures Neg(l) == PosLit(VarOf(l)) || Neg(l) == NegLit(VarOf(l))
  {
  }

  /** Per-variable assignment data (`vs[v]`): the offset of the reason clause (0 for none), the
      decision level (0 when unassigned) and the saved phase. */
  datatype VarState = VarState(reason: nat, level: int, phase: int)

  /** A watch record: the clause's arena offset, a blocking literal and the clause's size. */
  datatype Watch = Watch(cls: nat, blit: nat, size: int)

  /** Metadata of a learned clause: arena offset, glue (-1 for a clause added after learning had
      begun), the recent-use counter and the total-use counter. */
  datatype CInfo = CInfo(pt: nat, glue: int, used: int, totalUsed: int)

  /** `CInfo::Keep`, taken as "glue at most 2": the header declaring it is not part of this model,
      and this reading agrees with the `num_lbd2_red_cls` protection in `ResizeClauseDb`. */
  predicate Keep(c: CInfo) { c.glue <= 2 }

  datatype TriState = True | False | Unknown

  /** The oracle's counters. */
  datatype Stats = Stats(mems: int, conflicts: int, learnedClauses: int, learnedBinClauses: int,
                         learnedUnits: int, forgotClauses: int, nontrivRedu: int, restarts: int,
                         cacheAdded: int, cacheUseful: int)

  const NoStats := Stats(0, 0, 0, 0, 0, 0, 0, 0, 0, 0)

  // ---------------------------------------------------------------------------------------------
  // The clause arena: literals of each clause back to back, each clause followed by a 0

  /** The arena read at `k`, reading 0 past the end (the arena always ends with a terminator). */
  function At(c: seq<nat>, k: nat): (r: nat)
    ensures k < |c| ==> r == c[k]
    ensures k >= |c| ==> r == 0
  { if k < |c| then c[k] else 0 }

  /** The literals of the clause starting at offset `p`, up to its terminator. */
  function ClauseAt(c: seq<nat>, p: nat): (r: seq<nat>)
    ensures r != [] ==> p + |r| <= |c|
    ensures forall k :: 0 <= k < |r| ==> p + k < |c| && r[k] == c[p + k] && r[k] != 0
    ensures p + |r| < |c| ==> c[p + |r|] == 0
    decreases |c| - p
  {
    if p >= |c| || c[p] == 0 then [] else [c[p]] + ClauseAt(c, p + 1)
  }

  lemma ClauseAtStep(c: seq<nat>, p: nat)
    requires p < |c| && c[p] != 0
    ensures ClauseAt(c, p) == [c[p]] + ClauseAt(c, p + 1)
  {
  }

  /** One more literal of the clause at `p` read: the part read so far grows by `c[k]`. */
  lemma ClauseAtAdvance(c: seq<nat>, p: nat, k: nat)
    requires p <= k < |c| && c[k] != 0 && ClauseAt(c, p) == c[p..k] + ClauseAt(c, k)
    ensures ClauseAt(c, p) == c[p..k + 1] + ClauseAt(c, k + 1)
  {
    ClauseAtStep(c, k);
    assert c[p..k + 1] == c[p..k] + [c[k]];
  }

  /** What remains of `s` after `SwapDel(s, i)`: the last element moved into slot `i`. */
  function SwapDel<T>(s: seq<T>, i: nat): (r: seq<T>)
    requires i < |s|
    ensures |r| == |s| - 1
    ensures multiset(r) == multiset(s) - multiset{s[i]}
    ensures forall k :: 0 <= k < |r| && k != i ==> r[k] == s[k]
    ensures i < |r| ==> r[i] == s[|s| - 1]
  {
    if i == |s| - 1 then
      assert s == s[..i] + [s[i]];
      s[..i]
    else
      assert s == s[..i] + [s[i]] + s[i + 1..|s| - 1] + [s[|s| - 1]];
      s[..i] + [s[|s| - 1]] + s[i + 1..|s| - 1]
  }

  // ---------------------------------------------------------------------------------------------
  // Filtering a clause against the assignment

  /** The value of literal `l` in the value table `lv` (0 past its end). */
  function Value(lv: seq<int>, l: nat): int {
    if l < |lv| then lv[l] else 0
  }

  /** The outcome of filtering a clause: it is satisfied, or these literals remain. */
  datatype Filtered = Satisfied | Remaining(lits: seq<nat>)

  /** The filter loop that starts clause ingestion, from index `i`: a true literal ends it with
      `Satisfied`; a false literal is deleted by `SwapDel` and the same index is read again;
      any other literal is kept. */
  function FilterFrom(lv: seq<int>, cl: seq<nat>, i: nat): Filtered
    requires i <= |cl|
    decreases |cl| - i
  {
    if i == |cl| then Remaining(cl)
    else if Value(lv, cl[i]) == 1 then Satisfied
    else if Value(lv, cl[i]) == -1 then FilterFrom(lv, SwapDel(cl, i), i)
    else FilterFrom(lv, cl, i + 1)
  }

  /** Neither true nor false. */
  predicate Open(lv: seq<int>, l: nat) {
    Value(lv, l) != 1 && Value(lv, l) != -1
  }

  /** The filter is satisfied exactly when a literal from `i` on is true. */
  lemma {:induction false} FilterFromSat(lv: seq<int>, cl: seq<nat>, i: nat)
    requires i <= |cl|
    ensures FilterFrom(lv, cl, i) == Satisfied <==> exists k :: i <= k < |cl| && Value(lv, cl[k]) == 1
    decreases |cl| - i
  {
    if i == |cl| || Value(lv, cl[i]) == 1 {
    } else if Value(lv, cl[i]) == -1 {
      FilterFromSat(lv, SwapDel(cl, i), i);
      SwapDelTrue(lv, cl, i);
    } else {
      FilterFromSat(lv, cl, i + 1);
    }
  }

  /** Deleting the false literal at `i` keeps whether a literal from `i` on is true. */
  lemma SwapDelTrue(lv: seq<int>, cl: seq<nat>, i: nat)
    requires i < |cl| && Value(lv, cl[i]) == -1
    ensures (exists k :: i <= k < |cl| && Value(lv, cl[k]) == 1) <==> (exists k :: i <= k < |SwapDel(cl, i)| && Value(lv, SwapDel(cl, i)[k]) == 1)
  {
    var cl' := SwapDel(cl, i);
    if k :| i <= k < |cl| && Value(lv, cl[k]) == 1 {
      if k == |cl| - 1 { assert cl'[i] == cl[k]; } else { assert cl'[k] == cl[k]; }
    }
    if k :| i <= k < |cl'| && Value(lv, cl'[k]) == 1 {
      if k == i { assert cl'[i] == cl[|cl| - 1]; } else { assert cl'[k] == cl[k]; }
    }
  }

  /** The multiplicities the filter leaves: those of `cl`, with false literals removed. */
  ghost predicate KeepsOpen(lv: seq<int>, cl: seq<nat>, r: seq<nat>) {
    && (forall k :: 0 <= k < |r| ==> Open(lv, r[k]))
    && forall x :: multiset(r)[x] == if Value(lv, x) == -1 then 0 else multiset(cl)[x]
  }

  /** Once the literals before `i` are known to be open, the literals that remain are all open,
      and they are the literals of `cl` that are not false, with multiplicity. */
  lemma {:induction false} FilterFromRest(lv: seq<int>, cl: seq<nat>, i: nat)
    requires i <= |cl| && forall k :: 0 <= k < i ==> Open(lv, cl[k])
    ensures FilterFrom(lv, cl, i).Remaining? ==> KeepsOpen(lv, cl, FilterFrom(lv, cl, i).lits)
    decreases |cl| - i
  {
    if i == |cl| {
      forall x | Value(lv, x) == -1
        ensures multiset(cl)[x] == 0
      {
        assert x !in cl;
      }
    } else if Value(lv, cl[i]) == 1 {
    } else if Value(lv, cl[i]) == -1 {
      var cl' := SwapDel(cl, i);
      FilterFromRest(lv, cl', i);
      if FilterFrom(lv, cl', i).Remaining? {
        DropFalse(lv, cl, cl', FilterFrom(lv, cl', i).lits, cl[i]);
      }
    } else {
      FilterFromRest(lv, cl, i + 1);
    }
  }

  /** Removing one false literal does not change what `KeepsOpen` asks of the result. */
  lemma DropFalse(lv: seq<int>, cl: seq<nat>, cl': seq<nat>, r: seq<nat>, y: nat)
    requires multiset(cl') == multiset(cl) - multiset{y} && Value(lv, y) == -1 && KeepsOpen(lv, cl', r)
    ensures KeepsOpen(lv, cl, r)
  {
    forall x
      ensures multiset(r)[x] == if Value(lv, x) == -1 then 0 else multiset(cl)[x]
    {
      if x != y {
        assert multiset(cl')[x] == multiset(cl)[x];
      }
    }
  }

  /** The filter from the first literal. */
  lemma FilterMeaning(lv: seq<int>, cl: seq<nat>)
    ensures FilterFrom(lv, cl, 0) == Satisfied <==> exists k :: 0 <= k < |cl| && Value(lv, cl[k]) == 1
    ensures FilterFrom(lv, cl, 0).Remaining? ==>
              KeepsOpen(lv, cl, FilterFrom(lv, cl, 0).lits)
  {
    FilterFromSat(lv, cl, 0);
    FilterFromRest(lv, cl, 0);
  }
}
