/** Implicit subsumption (subsumeimplicit.cpp): removes duplicate binary clauses by scanning each
    literal's watch list, sorted so that binaries with the same other literal are adjacent, and
    dropping every binary watch whose other literal equals that of the last binary kept. */
module SubsumeImplicit {

  datatype Option<T> = None | Some(value: T)

  /** A watch record in the list of a literal: a long clause, a BNN constraint, or a binary clause
      whose other literal is `lit2`, redundant when `red`, with clause ID `id`. */
  datatype Watch = Clause(offset: nat) | Bnn(index: nat) | Binary(lit2: nat, red: bool, id: nat)

  /** The variable of a literal: literals `2v` and `2v+1` belong to variable `v`. */
  function VarOf(lit: nat): nat { lit / 2 }

  /** What the sort of a watch list guarantees and the scan relies on: binaries with the same
      `lit2` are contiguous, and among them the irredundant ones come first. */
  ghost predicate Grouped(ws: seq<Watch>) {
    && (forall i, k, j :: 0 <= i < k < j < |ws| && ws[i].Binary? && ws[j].Binary? && ws[i].lit2 == ws[j].lit2
          ==> ws[k].Binary? && ws[k].lit2 == ws[i].lit2)
    && (forall i, j :: 0 <= i < j < |ws| && ws[i].Binary? && ws[j].Binary? && ws[i].lit2 == ws[j].lit2 && ws[i].red
          ==> ws[j].red)
  }

  /** Every binary watch names a literal of another variable, within the table. */
  ghost predicate WellFormed(watches: seq<seq<Watch>>) {
    forall l, k :: 0 <= l < |watches| && 0 <= k < |watches[l]| && watches[l][k].Binary? ==>
      watches[l][k].lit2 < |watches| && VarOf(watches[l][k].lit2) != VarOf(l)
  }

  // ---------------------------------------------------------------------------------------------
  // The scan of one sorted list, as a function of the part scanned with budget left

  /** The scan's state: the watches kept and removed so far, and the `lit2` and red flag of the last
      binary kept (`lastLit2`, `lastRed`). */
  datatype ScanState = ScanState(kept: seq<Watch>, removed: seq<Watch>, last: Option<nat>, lastRed: bool)

  /** One watch through `try_subsume_bin` (binaries) or copied through (clauses, BNNs). */
  function Next(s: ScanState, w: Watch): ScanState {
    if w.Binary? && s.last == Some(w.lit2) then ScanState(s.kept, s.removed + [w], s.last, s.lastRed)
    else if w.Binary? then ScanState(s.kept + [w], s.removed, Some(w.lit2), w.red)
    else ScanState(s.kept + [w], s.removed, s.last, s.lastRed)
  }

  /** The scan of `ws` from a cleared state. */
  function Scan(ws: seq<Watch>): ScanState {
    if ws == [] then ScanState([], [], None, false) else Next(Scan(ws[..|ws| - 1]), ws[|ws| - 1])
  }

  lemma ScanStep(ws: seq<Watch>, k: nat)
    requires k < |ws|
    ensures Scan(ws[..k + 1]) == Next(Scan(ws[..k]), ws[k])
  {
    assert ws[..k + 1][..k] == ws[..k];
  }

  /** The non-binary watches of a list, in order. */
  function NonBinaries(ws: seq<Watch>): seq<Watch> {
    if ws == [] then []
    else NonBinaries(ws[..|ws| - 1]) + (if ws[|ws| - 1].Binary? then [] else [ws[|ws| - 1]])
  }

  /** The number of redundant watches in a list. */
  function CountRed(ws: seq<Watch>): nat {
    if ws == [] then 0
    else CountRed(ws[..|ws| - 1]) + (if ws[|ws| - 1].Binary? && ws[|ws| - 1].red then 1 else 0)
  }

  /** The positions in `ws` of the watches the scan keeps. */
  function KeptAt(ws: seq<Watch>): seq<nat> {
    if ws == [] then []
    else
      var init := ws[..|ws| - 1];
      var w := ws[|ws| - 1];
      KeptAt(init) + (if w.Binary? && Scan(init).last == Some(w.lit2) then [] else [|ws| - 1])
  }

  /** The scan splits the list: the sizes of what it keeps and what it removes add up, and it removes
      binaries only. */
  lemma {:induction false} ScanSizes(ws: seq<Watch>)
    ensures |Scan(ws).kept| + |Scan(ws).removed| == |ws|
    ensures forall k :: 0 <= k < |Scan(ws).removed| ==> Scan(ws).removed[k].Binary?
  {
    if ws != [] {
      ScanSizes(ws[..|ws| - 1]);
    }
  }

  /** What the scan keeps is an order-preserving subsequence of the list: the watches at strictly
      increasing positions `KeptAt(ws)`. */
  lemma {:induction false} ScanKeepsOrder(ws: seq<Watch>)
    ensures var kept, at := Scan(ws).kept, KeptAt(ws);
      && |at| == |kept|
      && (forall k :: 0 <= k < |kept| ==> at[k] < |ws| && kept[k] == ws[at[k]])
      && (forall k, l :: 0 <= k < l < |kept| ==> at[k] < at[l])
  {
    if ws != [] {
      var n := |ws| - 1;
      var init, w := ws[..n], ws[n];
      ScanKeepsOrder(init);
      var kept0, at0 := Scan(init).kept, KeptAt(init);
      var kept, at := Scan(ws).kept, KeptAt(ws);
      if w.Binary? && Scan(init).last == Some(w.lit2) {
        assert kept == kept0 && at == at0;
        assert forall k :: 0 <= k < |kept| ==> at[k] < n && kept[k] == init[at[k]] == ws[at[k]];
      } else {
        assert kept == kept0 + [w] && at == at0 + [n];
        forall k | 0 <= k < |kept|
          ensures at[k] < |ws| && kept[k] == ws[at[k]]
        {
          if k < |kept0| {
            assert kept[k] == kept0[k] == init[at0[k]];
          }
        }
      }
    }
  }

  /** Every clause and BNN watch is kept, in order. */
  lemma {:induction false} ScanKeepsNonBinaries(ws: seq<Watch>)
    ensures NonBinaries(Scan(ws).kept) == NonBinaries(ws)
  {
    if ws != [] {
      var init := ws[..|ws| - 1];
      var w := ws[|ws| - 1];
      ScanKeepsNonBinaries(init);
      var s, s' := Scan(init), Scan(ws);
      if s'.kept != s.kept {
        assert s'.kept == s.kept + [w];
        assert s'.kept[..|s'.kept| - 1] == s.kept;
      }
    }
  }

  /** The last binary of a list, if any, has the `lit2` the scan ends with as `last`: removed
      binaries repeat it, kept ones set it. */
  function LastBinary(ws: seq<Watch>): Option<nat> {
    if ws == [] then None
    else if ws[|ws| - 1].Binary? then Some(ws[|ws| - 1].lit2)
    else LastBinary(ws[..|ws| - 1])
  }

  lemma {:induction false} ScanLast(ws: seq<Watch>)
    ensures Scan(ws).last == LastBinary(ws)
  {
    if ws != [] {
      ScanLast(ws[..|ws| - 1]);
    }
  }

  /** The red flag `lastRed` belongs to a binary of the list with the `lit2` of `last`. */
  lemma {:induction false} ScanLastRed(ws: seq<Watch>)
    ensures var s := Scan(ws);
      s.last.Some? ==> exists p :: 0 <= p < |ws| && ws[p].Binary? && ws[p].lit2 == s.last.value && ws[p].red == s.lastRed
  {
    if ws != [] {
      var init := ws[..|ws| - 1];
      ScanLastRed(init);
      var s := Scan(init);
      if s.last.Some? && Next(s, ws[|ws| - 1]).last == s.last && Next(s, ws[|ws| - 1]).lastRed == s.lastRed {
        var p :| 0 <= p < |init| && init[p].Binary? && init[p].lit2 == s.last.value && init[p].red == s.lastRed;
        assert ws[p] == init[p];
      }
    }
  }

  /** Every watch kept or removed comes from the list. */
  lemma {:induction false} ScanFrom(ws: seq<Watch>)
    ensures forall x :: x in Scan(ws).kept ==> x in ws
    ensures forall x :: x in Scan(ws).removed ==> x in ws
  {
    if ws != [] {
      ScanFrom(ws[..|ws| - 1]);
    }
  }

  /** No two binary watches of the list share their other literal. */
  ghost predicate Deduplicated(ws: seq<Watch>) {
    forall a, b :: 0 <= a < b < |ws| && ws[a].Binary? && ws[b].Binary? ==> ws[a].lit2 != ws[b].lit2
  }

  /** On a sorted list no two binaries kept share their `lit2`: the scan removes every duplicate. */
  lemma {:induction false} ScanDistinct(ws: seq<Watch>)
    requires Grouped(ws)
    ensures Deduplicated(Scan(ws).kept)
  {
    if ws != [] {
      var n := |ws| - 1;
      var init := ws[..n];
      var w := ws[n];
      assert Grouped(init);
      ScanDistinct(init);
      var s := Scan(init);
      if w.Binary? && s.last != Some(w.lit2) {
        ScanLast(init);
        ScanFrom(init);
        forall a | 0 <= a < |s.kept| && s.kept[a].Binary?
          ensures s.kept[a].lit2 != w.lit2
        {
          assert s.kept[a] in init;
          var i :| 0 <= i < n && init[i] == s.kept[a];
          NotLastBinary(ws, i);
        }
      }
    }
  }

  /** `ws` holds a binary watch whose other literal is `l`. */
  ghost predicate HasBinary(ws: seq<Watch>, l: nat) {
    exists k :: 0 <= k < |ws| && ws[k].Binary? && ws[k].lit2 == l
  }

  /** Nothing is lost by the scan: every binary it removes has a kept twin with the same `lit2`,
      and so has the `last` it ends with. */
  lemma {:induction false} ScanRemovedHasTwin(ws: seq<Watch>)
    ensures Scan(ws).last.Some? ==> HasBinary(Scan(ws).kept, Scan(ws).last.value)
    ensures forall r :: r in Scan(ws).removed ==> r.Binary? && HasBinary(Scan(ws).kept, r.lit2)
  {
    if ws != [] {
      var init, w := ws[..|ws| - 1], ws[|ws| - 1];
      ScanRemovedHasTwin(init);
      var s, s' := Scan(init), Scan(ws);
      if !(w.Binary? && s.last == Some(w.lit2)) {
        assert s'.kept == s.kept + [w] && s'.removed == s.removed;
        HasBinaryGrows(s.kept, [w]);
        if w.Binary? {
          assert s'.kept[|s.kept|] == w;
        }
      }
    }
  }

  /** The list the scan leaves, `kept + sorted[m..]`: deduplicated when the scan went through, and
      holding a twin of every binary removed. */
  lemma CompactedList(sorted: seq<Watch>, m: nat)
    requires Grouped(sorted) && m <= |sorted|
    ensures var s := Scan(sorted[..m]);
      && (m == |sorted| ==> Deduplicated(s.kept + sorted[m..]))
      && forall r :: r in s.removed ==> r.Binary? && HasBinary(s.kept + sorted[m..], r.lit2)
  {
    if m == |sorted| {
      assert sorted[..m] == sorted && sorted[m..] == [];
      assert Scan(sorted[..m]).kept + sorted[m..] == Scan(sorted).kept;
      ScanDistinct(sorted);
    }
    ScanRemovedHasTwin(sorted[..m]);
    HasBinaryGrows(Scan(sorted[..m]).kept, sorted[m..]);
  }

  lemma HasBinaryGrows(ws: seq<Watch>, more: seq<Watch>)
    ensures forall l :: HasBinary(ws, l) ==> HasBinary(ws + more, l)
  {
    forall l | HasBinary(ws, l)
      ensures HasBinary(ws + more, l)
    {
      var k :| 0 <= k < |ws| && ws[k].Binary? && ws[k].lit2 == l;
      assert (ws + more)[k] == ws[k];
    }
  }

  /** On a sorted list, an earlier binary with the same `lit2` as the final binary makes that `lit2`
      the last binary before the final one. */
  lemma NotLastBinary(ws: seq<Watch>, i: nat)
    requires Grouped(ws) && i < |ws| - 1
    requires ws[i].Binary? && ws[|ws| - 1].Binary?
    ensures ws[i].lit2 == ws[|ws| - 1].lit2 ==> LastBinary(ws[..|ws| - 1]) == Some(ws[i].lit2)
  {
    var n := |ws| - 1;
    var init := ws[..n];
    if ws[i].lit2 == ws[n].lit2 {
      if i < n - 1 {
        assert ws[n - 1].Binary? && ws[n - 1].lit2 == ws[i].lit2;
      }
      assert init[n - 1] == ws[n - 1];
    }
  }

  // ---------------------------------------------------------------------------------------------
  // Removal of the partner watch

  /** The position of the first occurrence of `w` in `ws`, or `|ws|` when there is none. */
  function IndexOf(ws: seq<Watch>, w: Watch): (p: nat)
    ensures p <= |ws|
    ensures p < |ws| ==> ws[p] == w
    ensures forall k :: 0 <= k < p ==> ws[k] != w
  {
    if ws == [] then 0 else if ws[0] == w then 0 else 1 + IndexOf(ws[1..], w)
  }

  /** `removeWBin`: the list with the first occurrence of `w` removed (unchanged when absent). */
  function RemoveFirst(ws: seq<Watch>, w: Watch): seq<Watch>
  {
    var p := IndexOf(ws, w);
    if p == |ws| then ws else ws[..p] + ws[p + 1..]
  }

  // ---------------------------------------------------------------------------------------------
  // The partner removals and their cost

  /** Removes the partner of the binary `b` of `lit`'s list: `Binary(lit, red, id)` in the list of
      `b.lit2`. */
  function RemoveOne(w: seq<seq<Watch>>, lit: nat, b: Watch): (r: seq<seq<Watch>>)
    ensures |r| == |w|
  {
    if !b.Binary? || b.lit2 >= |w| then w
    else w[b.lit2 := RemoveFirst(w[b.lit2], Binary(lit, b.red, b.id))]
  }

  /** The budget that removal costs: 30 plus the size of the partner's list before the removal. */
  function RemoveCost(w: seq<seq<Watch>>, b: Watch): int {
    if !b.Binary? || b.lit2 >= |w| then 0 else 30 + |w[b.lit2]|
  }

  /** The watch lists after the partner removals of the binaries `rs` of `lit`'s list, in order. */
  function Partnered(w: seq<seq<Watch>>, lit: nat, rs: seq<Watch>): (r: seq<seq<Watch>>)
    ensures |r| == |w|
  {
    if rs == [] then w else RemoveOne(Partnered(w, lit, rs[..|rs| - 1]), lit, rs[|rs| - 1])
  }

  /** The budget the partner removals of `rs` cost altogether. */
  function PartnerCost(w: seq<seq<Watch>>, lit: nat, rs: seq<Watch>): int {
    if rs == [] then 0
    else PartnerCost(w, lit, rs[..|rs| - 1]) + RemoveCost(Partnered(w, lit, rs[..|rs| - 1]), rs[|rs| - 1])
  }

  lemma PartneredStep(w: seq<seq<Watch>>, lit: nat, rs: seq<Watch>, b: Watch)
    ensures Partnered(w, lit, rs + [b]) == RemoveOne(Partnered(w, lit, rs), lit, b)
    ensures PartnerCost(w, lit, rs + [b]) == PartnerCost(w, lit, rs) + RemoveCost(Partnered(w, lit, rs), b)
  {
    var rs' := rs + [b];
    assert rs' != [] && rs'[..|rs'| - 1] == rs && rs'[|rs'| - 1] == b;
  }

  // ---------------------------------------------------------------------------------------------
  // What the removals take away, as multisets

  /** Each binary clause is watched from both of its literals: in every list `l`, the binary
      `Binary(l2, red, id)` occurs as often as `Binary(l, red, id)` occurs in the list of `l2`. */
  ghost predicate Symmetric(w: seq<seq<Watch>>) {
    forall l, l2, red, id :: 0 <= l < |w| && 0 <= l2 < |w| ==>
      multiset(w[l])[Binary(l2, red, id)] == multiset(w[l2])[Binary(l, red, id)]
  }

  /** The partners that the removals of `rs` (binaries of `lit`'s list) take from the list `l`. */
  function PartnerSet(lit: nat, rs: seq<Watch>, l: nat): multiset<Watch> {
    if rs == [] then multiset{}
    else
      var b := rs[|rs| - 1];
      PartnerSet(lit, rs[..|rs| - 1], l) + (if b.Binary? && b.lit2 == l then multiset{Binary(lit, b.red, b.id)} else multiset{})
  }

  /** The list `l` loses one `Binary(lit, red, id)` per `Binary(l, red, id)` among the removed, and
      nothing else. */
  lemma {:induction false} PartnerSetCount(lit: nat, rs: seq<Watch>, l: nat, x: Watch)
    ensures PartnerSet(lit, rs, l)[x] == if x.Binary? && x.lit2 == lit then multiset(rs)[Binary(l, x.red, x.id)] else 0
  {
    if rs != [] {
      var init, b := rs[..|rs| - 1], rs[|rs| - 1];
      PartnerSetCount(lit, init, l, x);
      var add := if b.Binary? && b.lit2 == l then multiset{Binary(lit, b.red, b.id)} else multiset{};
      assert PartnerSet(lit, rs, l) == PartnerSet(lit, init, l) + add;
      if x.Binary? && x.lit2 == lit {
        var y := Binary(l, x.red, x.id);
        CountSnoc(init, b, y);
        assert rs == init + [b];
        assert add[x] == if b == y then 1 else 0;
      } else {
        assert add[x] == 0;
      }
    }
  }

  lemma CountSnoc(s: seq<Watch>, b: Watch, y: Watch)
    ensures multiset(s + [b])[y] == multiset(s)[y] + if b == y then 1 else 0
  {
    assert multiset(s + [b]) == multiset(s) + multiset{b};
  }

  /** Removing a watch takes one occurrence of it away, if there is one. */
  lemma RemoveFirstMultiset(ws: seq<Watch>, w: Watch)
    ensures multiset(RemoveFirst(ws, w)) == multiset(ws) - multiset{w}
  {
    var p := IndexOf(ws, w);
    if p < |ws| {
      assert ws == ws[..p] + [w] + ws[p + 1..];
    } else {
      assert w !in ws;
    }
  }

  /** The partner removals take exactly `PartnerSet` from each list. */
  lemma {:induction false} PartneredMultiset(w: seq<seq<Watch>>, lit: nat, rs: seq<Watch>, l: nat)
    requires l < |w|
    ensures multiset(Partnered(w, lit, rs)[l]) == multiset(w[l]) - PartnerSet(lit, rs, l)
  {
    if rs != [] {
      var init := rs[..|rs| - 1];
      var b := rs[|rs| - 1];
      PartneredMultiset(w, lit, init, l);
      var p := Partnered(w, lit, init);
      assert Partnered(w, lit, rs) == RemoveOne(p, lit, b);
      if b.Binary? && b.lit2 == l {
        assert Partnered(w, lit, rs)[l] == RemoveFirst(p[l], Binary(lit, b.red, b.id));
        RemoveFirstMultiset(p[l], Binary(lit, b.red, b.id));
        assert PartnerSet(lit, rs, l) == PartnerSet(lit, init, l) + multiset{Binary(lit, b.red, b.id)};
        MinusTwice(multiset(w[l]), PartnerSet(lit, init, l), multiset{Binary(lit, b.red, b.id)});
      } else {
        assert Partnered(w, lit, rs)[l] == p[l];
        assert PartnerSet(lit, rs, l) == PartnerSet(lit, init, l);
      }
    }
  }

  lemma MinusTwice(A: multiset<Watch>, B: multiset<Watch>, C: multiset<Watch>)
    ensures (A - B) - C == A - (B + C)
  {
    assert forall x :: ((A - B) - C)[x] == (A - (B + C))[x];
  }

  /** The scan hands every watch of the list to exactly one of kept and removed. */
  lemma {:induction false} ScanMultiset(ws: seq<Watch>)
    ensures multiset(Scan(ws).kept) + multiset(Scan(ws).removed) == multiset(ws)
  {
    if ws != [] {
      var init := ws[..|ws| - 1];
      ScanMultiset(init);
      assert ws == init + [ws[|ws| - 1]];
    }
  }

  // ---------------------------------------------------------------------------------------------
  // The effect of one `subsume_at_watch`

  /** The watch table after the list of `at` is sorted into `sorted` and scanned up to position `m`
      (where the budget ran out, or the end): the partners of the removed binaries are gone from
      the other lists, and the list of `at` is what was kept followed by the part left unscanned. */
  function AfterWatch(w: seq<seq<Watch>>, at: nat, sorted: seq<Watch>, m: nat): (r: seq<seq<Watch>>)
    requires at < |w| && m <= |sorted|
    ensures |r| == |w|
  {
    var s := Scan(sorted[..m]);
    Partnered(w[at := sorted], at, s.removed)[at := s.kept + sorted[m..]]
  }

  /** The list of `at` loses exactly the removed binaries and every other list exactly their
      partners. */
  lemma AfterWatchMultiset(w: seq<seq<Watch>>, at: nat, sorted: seq<Watch>, m: nat, l: nat)
    requires at < |w| && m <= |sorted| && multiset(sorted) == multiset(w[at]) && l < |w|
    ensures var R := Scan(sorted[..m]).removed;
      multiset(AfterWatch(w, at, sorted, m)[l]) == multiset(w[l]) - (if l == at then multiset(R) else PartnerSet(at, R, l))
  {
    if l == at {
      AtListMultiset(sorted, m);
    } else {
      PartneredMultiset(w[at := sorted], at, Scan(sorted[..m]).removed, l);
    }
  }

  /** The list scanned keeps everything but the removed binaries. */
  lemma AtListMultiset(sorted: seq<Watch>, m: nat)
    requires m <= |sorted|
    ensures multiset(Scan(sorted[..m]).kept + sorted[m..]) == multiset(sorted) - multiset(Scan(sorted[..m]).removed)
  {
    var s := Scan(sorted[..m]);
    ScanMultiset(sorted[..m]);
    assert sorted == sorted[..m] + sorted[m..];
    var K, R, T := multiset(s.kept), multiset(s.removed), multiset(sorted[m..]);
    assert forall x :: (K + T)[x] == ((K + R + T) - R)[x];
    assert K + T == (K + R + T) - R;
  }

  /** `w'` is `w` with some binary watches removed and nothing added. */
  ghost predicate OnlyBinariesRemoved(w: seq<seq<Watch>>, w': seq<seq<Watch>>) {
    && |w'| == |w|
    && forall l :: 0 <= l < |w| ==> ListShrinks(w[l], w'[l])
  }

  /** Every watch occurs in `b` at most as often as in `a`, and non-binary watches equally often. */
  ghost predicate ListShrinks(a: seq<Watch>, b: seq<Watch>) {
    forall x :: multiset(b)[x] <= multiset(a)[x] && (!x.Binary? ==> multiset(b)[x] == multiset(a)[x])
  }

  /** `subsume_at_watch` removes binary watches only: clause and BNN watches all survive. */
  lemma AfterWatchOnlyBinaries(w: seq<seq<Watch>>, at: nat, sorted: seq<Watch>, m: nat)
    requires at < |w| && m <= |sorted| && multiset(sorted) == multiset(w[at])
    ensures OnlyBinariesRemoved(w, AfterWatch(w, at, sorted, m))
  {
    var R := Scan(sorted[..m]).removed;
    var w' := AfterWatch(w, at, sorted, m);
    ScanSizes(sorted[..m]);
    forall l | 0 <= l < |w|
      ensures ListShrinks(w[l], w'[l])
    {
      forall x
        ensures multiset(w'[l])[x] <= multiset(w[l])[x] && (!x.Binary? ==> multiset(w'[l])[x] == multiset(w[l])[x])
      {
        AfterWatchMultiset(w, at, sorted, m, l);
        PartnerSetCount(at, R, l, x);
        if !x.Binary? {
          assert x !in R;
        }
      }
    }
  }

  lemma OnlyBinariesRemovedTrans(w: seq<seq<Watch>>, w': seq<seq<Watch>>, w'': seq<seq<Watch>>)
    requires OnlyBinariesRemoved(w, w') && OnlyBinariesRemoved(w', w'')
    ensures OnlyBinariesRemoved(w, w'')
  {
    forall l | 0 <= l < |w|
      ensures ListShrinks(w[l], w''[l])
    {
      assert ListShrinks(w[l], w'[l]) && ListShrinks(w'[l], w''[l]);
    }
  }

  /** Removing only watches keeps every binary naming a literal of another variable. */
  lemma OnlyBinariesRemovedWellFormed(w: seq<seq<Watch>>, w': seq<seq<Watch>>)
    requires OnlyBinariesRemoved(w, w') && WellFormed(w)
    ensures WellFormed(w')
  {
    forall l, k | 0 <= l < |w'| && 0 <= k < |w'[l]| && w'[l][k].Binary?
      ensures w'[l][k].lit2 < |w'| && VarOf(w'[l][k].lit2) != VarOf(l)
    {
      var x := w'[l][k];
      assert ListShrinks(w[l], w'[l]);
      assert multiset(w'[l])[x] > 0;
      assert x in w[l];
    }
  }

  /** Removing a duplicate binary together with its partner keeps every binary clause watched from
      both of its literals. */
  lemma AfterWatchSymmetric(w: seq<seq<Watch>>, at: nat, sorted: seq<Watch>, m: nat)
    requires at < |w| && m <= |sorted| && multiset(sorted) == multiset(w[at]) && Symmetric(w)
    ensures Symmetric(AfterWatch(w, at, sorted, m))
  {
    var R := Scan(sorted[..m]).removed;
    var w' := AfterWatch(w, at, sorted, m);
    forall l, l2, red, id | 0 <= l < |w'| && 0 <= l2 < |w'|
      ensures multiset(w'[l])[Binary(l2, red, id)] == multiset(w'[l2])[Binary(l, red, id)]
    {
      AfterWatchMultiset(w, at, sorted, m, l);
      AfterWatchMultiset(w, at, sorted, m, l2);
      PartnerSetCount(at, R, l, Binary(l2, red, id));
      PartnerSetCount(at, R, l2, Binary(l, red, id));
    }
  }

  // ---------------------------------------------------------------------------------------------
  // Facts the scan of one list relies on

  /** The source asserts that an irredundant duplicate never follows a redundant kept binary: on a
      sorted list the kept binary with the same `lit2` comes earlier, and the sort puts irredundant
      binaries first. */
  lemma LastRedBefore(ws: seq<Watch>, i: nat)
    requires Grouped(ws) && i < |ws| && ws[i].Binary?
    requires Scan(ws[..i]).last == Some(ws[i].lit2) && Scan(ws[..i]).lastRed
    ensures ws[i].red
  {
    ScanLastRed(ws[..i]);
    var p :| 0 <= p < i && ws[..i][p].Binary? && ws[..i][p].lit2 == ws[i].lit2 && ws[..i][p].red;
    assert ws[p] == ws[..i][p];
  }

  /** The sorted list holds the watches of the list it sorts, so its binaries name literals of
      other variables within the table. */
  lemma SortedWellFormed(w: seq<seq<Watch>>, at: nat, sorted: seq<Watch>, i: nat)
    requires WellFormed(w) && at < |w| && multiset(sorted) == multiset(w[at])
    requires i < |sorted| && sorted[i].Binary?
    ensures sorted[i].lit2 < |w| && VarOf(sorted[i].lit2) != VarOf(at)
  {
    assert sorted[i] in multiset(w[at]);
  }

  lemma CountRedStep(rs: seq<Watch>, b: Watch)
    ensures CountRed(rs + [b]) == CountRed(rs) + (if b.Binary? && b.red then 1 else 0)
  {
    var rs' := rs + [b];
    assert rs'[..|rs'| - 1] == rs;
  }

  /** The budget the sort takes: `size * ceil(log(size)) + 20` for lists of two or more watches.
      The product is computed in floating point; `sizeLog` stands for its value. */
  function SortCost(n: nat, sizeLog: nat): int {
    if n > 1 then sizeLog + 20 else 0
  }

  /** The budget left when the scan of `sorted` reaches position `k`, from `t` after the sort. */
  function Budget(w: seq<seq<Watch>>, at: nat, sorted: seq<Watch>, t: int, k: nat): int
    requires k <= |sorted|
  {
    t - PartnerCost(w, at, Scan(sorted[..k]).removed)
  }

  /** The scan of `sorted` stopped at position `m`: the budget was non-negative before each of the
      first `m` watches and, unless the list was done, negative before the `m`th. */
  ghost predicate StoppedAt(w: seq<seq<Watch>>, at: nat, sorted: seq<Watch>, t: int, m: nat)
    requires m <= |sorted|
  {
    && (forall k :: 0 <= k < m ==> Budget(w, at, sorted, t, k) >= 0)
    && (m < |sorted| ==> Budget(w, at, sorted, t, m) < 0)
  }

  /** The first position from `k` on where the scan of `sorted` finds the budget negative, or the
      end of the list. */
  function StopPoint(w: seq<seq<Watch>>, at: nat, sorted: seq<Watch>, t: int, k: nat): (m: nat)
    requires k <= |sorted|
    ensures k <= m <= |sorted|
    decreases |sorted| - k
  {
    if k == |sorted| || Budget(w, at, sorted, t, k) < 0 then k else StopPoint(w, at, sorted, t, k + 1)
  }

  /** The scan stops at `m` exactly when `m` is the first position with the budget negative. */
  lemma {:induction false} StopPointMeaning(w: seq<seq<Watch>>, at: nat, sorted: seq<Watch>, t: int, k: nat, m: nat)
    requires k <= m <= |sorted| && forall i :: 0 <= i < k ==> Budget(w, at, sorted, t, i) >= 0
    ensures m == StopPoint(w, at, sorted, t, k) <==> StoppedAt(w, at, sorted, t, m)
    decreases |sorted| - k
  {
    if k < |sorted| && Budget(w, at, sorted, t, k) >= 0 {
      if k < m {
        StopPointMeaning(w, at, sorted, t, k + 1, m);
      } else {
        assert !StoppedAt(w, at, sorted, t, m);
        assert StopPoint(w, at, sorted, t, k) > k by {
          assert StopPoint(w, at, sorted, t, k) == StopPoint(w, at, sorted, t, k + 1);
        }
      }
    }
  }

  /** The counters of one run. */
  datatype Stats = Stats(numCalled: nat, timeOut: nat, remBins: nat, numWatchesLooked: nat)

  const NoStats := Stats(0, 0, 0, 0)

  /** `Stats::operator+=`. */
  function Plus(a: Stats, b: Stats): Stats {
    Stats(a.numCalled + b.numCalled, a.timeOut + b.timeOut, a.remBins + b.remBins, a.numWatchesLooked + b.numWatchesLooked)
  }

  /** The position `(start + k) % n` of the `k`th list visited, using `start < n` and `k < n`. */
  lemma CyclicPosition(start: nat, n: nat, k: nat)
    requires start < n && k < n
    ensures (start + k) % n == if start + k < n then start + k else start + k - n
  {
    var s := start + k;
    if s >= n {
      assert s - n < n;
      assert s == 1 * n + (s - n);
    }
  }

  /** Distinct `k < n` visit distinct lists. */
  lemma CyclicDistinct(start: nat, n: nat, k1: nat, k2: nat)
    requires start < n && k1 < k2 < n
    ensures (start + k1) % n != (start + k2) % n
  {
    CyclicPosition(start, n, k1);
    CyclicPosition(start, n, k2);
  }

  // ---------------------------------------------------------------------------------------------
  // The subsumer

  /** The implicit subsumer and the part of the solver it works on: the watch table `watches`
      (`solver->watches`), the binary counts `redBins` and `irredBins` (`solver->binTri`), the scan
      state `lastLit2`/`lastRed`, the budget `timeAvailable` and the statistics. */
  class SubsumeImplicit {
    var watches: seq<seq<Watch>>
    var redBins: int
    var irredBins: int
    var lastLit2: Option<nat>
    var lastRed: bool
    var timeAvailable: int
    var runStats: Stats
    var globalStats: Stats

    ghost predicate Valid()
      reads this
    {
      WellFormed(watches) && Symmetric(watches)
    }

    constructor(w: seq<seq<Watch>>, red: int, irred: int)
      requires WellFormed(w) && Symmetric(w)
      ensures Valid() && watches == w && redBins == red && irredBins == irred
      ensures lastLit2 == None && !lastRed && timeAvailable == 0 && runStats == NoStats && globalStats == NoStats
    {
      watches, redBins, irredBins := w, red, irred;
      lastLit2, lastRed, timeAvailable := None, false, 0;
      runStats, globalStats := NoStats, NoStats;
    }

    /** `try_subsume_bin` on the binary `a[i]` of `lit`'s list, with `j` the write position: a
        binary with the `lit2` of the last kept one is removed together with its partner in the list
        of `lit2`, which costs `30 + size` of that list; any other binary is kept at `j` and becomes
        the last one. */
    method TrySubsumeBin(lit: nat, a: array<Watch>, i: nat, j: nat) returns (j': nat)
      requires j <= i < a.Length && a[i].Binary? && a[i].lit2 < |watches| && VarOf(a[i].lit2) != VarOf(lit)
      requires lastLit2 == Some(a[i].lit2) && lastRed ==> a[i].red
      modifies this`watches, this`timeAvailable, this`runStats, this`redBins, this`irredBins, this`lastLit2, this`lastRed, a
      ensures var w := old(a[i]);
        if old(lastLit2) == Some(w.lit2) then
          && watches == RemoveOne(old(watches), lit, w)
          && timeAvailable == old(timeAvailable) - RemoveCost(old(watches), w)
          && runStats == old(runStats).(remBins := old(runStats).remBins + 1)
          && redBins == old(redBins) - (if w.red then 1 else 0)
          && irredBins == old(irredBins) - (if w.red then 0 else 1)
          && a[..] == old(a[..]) && j' == j && lastLit2 == old(lastLit2) && lastRed == old(lastRed)
        else
          && a[..] == old(a[..])[j := w] && j' == j + 1 && lastLit2 == Some(w.lit2) && lastRed == w.red
          && watches == old(watches) && timeAvailable == old(timeAvailable) && runStats == old(runStats)
          && redBins == old(redBins) && irredBins == old(irredBins)
    {
      var w := a[i];
      if lastLit2 == Some(w.lit2) {
        assert !(!w.red && lastRed);
        runStats := runStats.(remBins := runStats.remBins + 1);
        assert VarOf(w.lit2) != VarOf(lit);
        timeAvailable := timeAvailable - 30;
        timeAvailable := timeAvailable - |watches[w.lit2]|;
        watches := watches[w.lit2 := RemoveFirst(watches[w.lit2], Binary(lit, w.red, w.id))];
        if w.red {
          redBins := redBins - 1;
        } else {
          irredBins := irredBins - 1;
        }
        j' := j;
      } else {
        lastLit2 := Some(w.lit2);
        lastRed := w.red;
        a[j] := w;
        j' := j + 1;
      }
    }

    /** `subsume_at_watch`: sorts the list of `at` into `sorted` (given, as the sort is not part of
        this model) and charges the sort to the budget, then scans it, copying every watch through
        unchanged once the budget is negative. The ghost `m` is where the scan stopped: the budget
        was non-negative before each of the first `m` watches and negative before the `m`th. The
        list loses exactly its removed duplicates, returned as `removed`. */
    method SubsumeAtWatch(at: nat, sorted: seq<Watch>, sizeLog: nat) returns (removed: nat, ghost m: nat)
      requires Valid() && at < |watches|
      requires multiset(sorted) == multiset(watches[at]) && Grouped(sorted)
      modifies this`watches, this`timeAvailable, this`runStats, this`redBins, this`irredBins, this`lastLit2, this`lastRed
      ensures Valid()
      ensures m <= |sorted|
      ensures var w1, t1 := old(watches)[at := sorted], old(timeAvailable) - SortCost(|sorted|, sizeLog);
        && m == StopPoint(w1, at, sorted, t1, 0)
        && timeAvailable == t1 - PartnerCost(w1, at, Scan(sorted[..m]).removed)
      ensures watches == AfterWatch(old(watches), at, sorted, m)
      ensures m == |sorted| ==> Deduplicated(watches[at])
      ensures var rs := Scan(sorted[..m]).removed;
        && removed == |rs|
        && redBins == old(redBins) - CountRed(rs)
        && irredBins == old(irredBins) - (|rs| - CountRed(rs))
        && runStats.remBins == old(runStats).remBins + |rs|
        && runStats.numWatchesLooked == old(runStats).numWatchesLooked + 1
        && runStats.numCalled == old(runStats).numCalled && runStats.timeOut == old(runStats).timeOut
      ensures forall r :: r in Scan(sorted[..m]).removed ==> r.Binary? && HasBinary(watches[at], r.lit2)
      ensures lastLit2 == Scan(sorted[..m]).last && lastRed == Scan(sorted[..m]).lastRed
    {
      runStats := runStats.(numWatchesLooked := runStats.numWatchesLooked + 1);
      // the sort and its cost, both only for lists of two or more watches
      timeAvailable := timeAvailable - SortCost(|sorted|, sizeLog);
      watches := watches[at := sorted];
      lastLit2, lastRed := None, false;
      ghost var w1, t1, r1 := watches, timeAvailable, runStats;
      assert w1 == old(watches)[at := sorted] && t1 == old(timeAvailable) - SortCost(|sorted|, sizeLog);
      removed, m := CompactSorted(at, sorted, old(watches));
      ghost var rs := Scan(sorted[..m]).removed;
      assert m == StopPoint(w1, at, sorted, t1, 0);
      assert timeAvailable == t1 - PartnerCost(w1, at, rs);
      assert runStats == r1.(remBins := r1.remBins + |rs|);
    }

    /** The scan of the sorted list `at` and the write-back of what it keeps; `w0` is the table
        before the sort. */
    method CompactSorted(at: nat, sorted: seq<Watch>, ghost w0: seq<seq<Watch>>) returns (removed: nat, ghost m: nat)
      requires SortedFrom(w0, at, sorted) && Symmetric(w0) && watches == w0[at := sorted]
      requires lastLit2 == None && !lastRed
      modifies this`watches, this`timeAvailable, this`runStats, this`redBins, this`irredBins, this`lastLit2, this`lastRed
      ensures Valid() && m <= |sorted|
      ensures m == StopPoint(w0[at := sorted], at, sorted, old(timeAvailable), 0)
      ensures var rs := Scan(sorted[..m]).removed;
        && timeAvailable == old(timeAvailable) - PartnerCost(w0[at := sorted], at, rs)
        && watches == AfterWatch(w0, at, sorted, m)
        && removed == |rs|
        && redBins == old(redBins) - CountRed(rs)
        && irredBins == old(irredBins) - (|rs| - CountRed(rs))
        && runStats == old(runStats).(remBins := old(runStats).remBins + |rs|)
      ensures m == |sorted| ==> Deduplicated(watches[at])
      ensures forall r :: r in Scan(sorted[..m]).removed ==> r.Binary? && HasBinary(watches[at], r.lit2)
      ensures lastLit2 == Scan(sorted[..m]).last && lastRed == Scan(sorted[..m]).lastRed
    {
      var n := |sorted|;
      var a := ToArray(sorted);
      var j;
      ghost var s1 := Snapshot(watches, timeAvailable, runStats, redBins, irredBins);
      j, m := Compact(at, a, sorted, w0, s1);
      watches := watches[at := a[..j]];
      removed := n - j;
      assert removed == |Scan(sorted[..m]).removed| by {
        ScanSizes(sorted[..m]);
      }
      assert Valid() by {
        AtWatchValid(w0, at, sorted, m);
      }
      CompactedList(sorted, m);
    }

    /** `subsume_implicit`: with a fresh budget `timeLimit` and cleared run statistics, visits the
        watch lists in cyclic order from `rndStart` (drawn at random in the source), each at most
        once, until all are done or the budget is no longer positive, and adds the run statistics to
        the global ones. An empty table returns straight away. `sortBy` stands for the sort of a
        watch list and `sizeLog` for the floating-point `size * ceil(log(size))`. The ghost `visited`
        lists the lists visited, in order. */
    method SubsumeImplicitRun(timeLimit: int, rndStart: nat, sortBy: seq<Watch> -> seq<Watch>, sizeLog: nat -> nat)
      returns (ghost visited: seq<nat>)
      requires Valid()
      requires |watches| == 0 || rndStart < |watches|
      requires forall ws :: multiset(sortBy(ws)) == multiset(ws) && Grouped(sortBy(ws))
      modifies this
      ensures Valid() && OnlyBinariesRemoved(old(watches), watches)
      ensures |visited| <= |watches|
      ensures forall k :: 0 <= k < |visited| ==> visited[k] == (rndStart + k) % |watches|
      ensures forall k1, k2 :: 0 <= k1 < k2 < |visited| ==> visited[k1] != visited[k2]
      ensures |visited| < |watches| ==> timeAvailable <= 0
      ensures redBins + irredBins == old(redBins + irredBins) - runStats.remBins
      ensures |watches| == 0 ==>
        watches == old(watches) && timeAvailable == timeLimit && runStats == NoStats && globalStats == old(globalStats)
      ensures |watches| > 0 ==>
        && runStats.numCalled == 1 && runStats.numWatchesLooked == |visited|
        && runStats.timeOut == (if timeAvailable <= 0 then 1 else 0)
        && globalStats == Plus(old(globalStats), runStats)
    {
      timeAvailable := timeLimit;
      runStats := NoStats;
      visited := [];
      if |watches| == 0 {
        return;
      }
      visited := VisitAll(rndStart, sortBy, sizeLog);
      var timeOut := timeAvailable <= 0;
      runStats := runStats.(numCalled := runStats.numCalled + 1, timeOut := runStats.timeOut + if timeOut then 1 else 0);
      globalStats := Plus(globalStats, runStats);
    }

    /** The visiting loop of `subsume_implicit`: list `(rndStart + k) % n` in round `k`, while lists
        are left and the budget is positive. */
    method VisitAll(rndStart: nat, sortBy: seq<Watch> -> seq<Watch>, sizeLog: nat -> nat) returns (ghost visited: seq<nat>)
      requires Valid() && rndStart < |watches|
      requires forall ws :: multiset(sortBy(ws)) == multiset(ws) && Grouped(sortBy(ws))
      modifies this`watches, this`timeAvailable, this`runStats, this`redBins, this`irredBins, this`lastLit2, this`lastRed
      ensures Valid() && OnlyBinariesRemoved(old(watches), watches)
      ensures |visited| <= |watches|
      ensures forall k :: 0 <= k < |visited| ==> visited[k] == (rndStart + k) % |watches|
      ensures forall k1, k2 :: 0 <= k1 < k2 < |visited| ==> visited[k1] != visited[k2]
      ensures |visited| < |watches| ==> timeAvailable <= 0
      ensures redBins + irredBins == old(redBins + irredBins) - (runStats.remBins - old(runStats).remBins)
      ensures runStats == old(runStats).(remBins := runStats.remBins,
                                         numWatchesLooked := old(runStats).numWatchesLooked + |visited|)
    {
      var n := |watches|;
      var numDone := 0;
      visited := [];
      while numDone < n && timeAvailable > 0
        invariant Valid() && |watches| == n && OnlyBinariesRemoved(old(watches), watches)
        invariant numDone == |visited| <= n
        invariant forall k :: 0 <= k < |visited| ==> visited[k] == (rndStart + k) % n
        invariant redBins + irredBins == old(redBins + irredBins) - (runStats.remBins - old(runStats).remBins)
        invariant runStats == old(runStats).(remBins := runStats.remBins,
                                             numWatchesLooked := old(runStats).numWatchesLooked + numDone)
      {
        var at := (rndStart + numDone) % n;
        ghost var w0 := watches;
        VisitOne(at, sortBy, sizeLog);
        OnlyBinariesRemovedTrans(old(watches), w0, watches);
        visited := visited + [at];
        numDone := numDone + 1;
      }
      forall k1, k2 | 0 <= k1 < k2 < |visited|
        ensures visited[k1] != visited[k2]
      {
        CyclicDistinct(rndStart, n, k1, k2);
      }
    }

    /** One round of the visiting loop: the list of `at`, sorted by `sortBy`, through
        `subsume_at_watch`. */
    method VisitOne(at: nat, sortBy: seq<Watch> -> seq<Watch>, sizeLog: nat -> nat)
      requires Valid() && at < |watches|
      requires forall ws :: multiset(sortBy(ws)) == multiset(ws) && Grouped(sortBy(ws))
      modifies this`watches, this`timeAvailable, this`runStats, this`redBins, this`irredBins, this`lastLit2, this`lastRed
      ensures Valid() && OnlyBinariesRemoved(old(watches), watches)
      ensures redBins + irredBins == old(redBins + irredBins) - (runStats.remBins - old(runStats).remBins)
      ensures runStats == old(runStats).(remBins := runStats.remBins, numWatchesLooked := old(runStats).numWatchesLooked + 1)
    {
      var sorted := sortBy(watches[at]);
      ghost var w0 := watches;
      var removed;
      ghost var m;
      removed, m := SubsumeAtWatch(at, sorted, sizeLog(|sorted|));
      AfterWatchOnlyBinaries(w0, at, sorted, m);
    }

    /** The scan loop of `subsume_at_watch` over the sorted list in `a`, with the read position `i`
        and the write position `j` of the source: `a[..j]` ends up holding what was kept followed by
        the watches copied once the budget was negative. */
    method Compact(at: nat, a: array<Watch>, ghost sorted: seq<Watch>, ghost w0: seq<seq<Watch>>, ghost s1: Snapshot)
      returns (j: nat, ghost m: nat)
      requires a[..] == sorted && SortedFrom(w0, at, sorted)
      requires s1 == Snapshot(w0[at := sorted], timeAvailable, runStats, redBins, irredBins)
      requires watches == s1.watches && lastLit2 == None && !lastRed
      modifies this`watches, this`timeAvailable, this`runStats, this`redBins, this`irredBins, this`lastLit2, this`lastRed, a
      ensures m <= |sorted| && j <= a.Length == |sorted| && a[..j] == Scan(sorted[..m]).kept + sorted[m..]
      ensures m == StopPoint(s1.watches, at, sorted, s1.time, 0)
      ensures Tracks(at, s1, Scan(sorted[..m]))
    {
      ghost var st;
      j, m, st := CompactLoop(at, a, sorted, w0, s1);
      assert m < |sorted| ==> Budget(s1.watches, at, sorted, s1.time, m) < 0 by {
        if m < |sorted| {
          assert timeAvailable < 0 && st == Scan(sorted[..m]) && Tracks(at, s1, st);
        }
      }
      assert StoppedAt(s1.watches, at, sorted, s1.time, m);
      StopPointMeaning(s1.watches, at, sorted, s1.time, 0, m);
    }

    /** The loop of `Compact`: every watch read, with the budget non-negative before each scanned one. */
    method CompactLoop(at: nat, a: array<Watch>, ghost sorted: seq<Watch>, ghost w0: seq<seq<Watch>>, ghost s1: Snapshot)
      returns (j: nat, ghost m: nat, ghost st: ScanState)
      requires a[..] == sorted && SortedFrom(w0, at, sorted)
      requires s1 == Snapshot(w0[at := sorted], timeAvailable, runStats, redBins, irredBins)
      requires watches == s1.watches && lastLit2 == None && !lastRed
      modifies this`watches, this`timeAvailable, this`runStats, this`redBins, this`irredBins, this`lastLit2, this`lastRed, a
      ensures a.Length == |sorted| && Scanned(at, a, |sorted|, j, m, sorted, s1, st)
      ensures forall k :: 0 <= k < m ==> Budget(s1.watches, at, sorted, s1.time, k) >= 0
    {
      var n := a.Length;
      var i := 0;
      j, m := 0, 0;
      st := Scan(sorted[..0]);
      while i < n
        invariant i <= n == |sorted| && Scanned(at, a, i, j, m, sorted, s1, st)
        invariant forall k :: 0 <= k < m ==> Budget(s1.watches, at, sorted, s1.time, k) >= 0
      {
        j, m, st := CompactStep(at, a, i, j, m, sorted, w0, s1, st);
        i := i + 1;
      }
    }

    /** One round of the scan loop at read position `i`: with the budget negative the watch is
        copied through, otherwise it is scanned. */
    method CompactStep(at: nat, a: array<Watch>, i: nat, j: nat, ghost m: nat, ghost sorted: seq<Watch>,
                       ghost w0: seq<seq<Watch>>, ghost s1: Snapshot, ghost st: ScanState)
      returns (j': nat, ghost m': nat, ghost st': ScanState)
      requires i < a.Length && Scanned(at, a, i, j, m, sorted, s1, st)
      requires SortedFrom(w0, at, sorted) && |s1.watches| == |w0|
      modifies this`watches, this`timeAvailable, this`runStats, this`redBins, this`irredBins, this`lastLit2, this`lastRed, a
      ensures Scanned(at, a, i + 1, j', m', sorted, s1, st')
      ensures m' == m || (m' == i + 1 && m == i && Budget(s1.watches, at, sorted, s1.time, i) >= 0)
    {
      if timeAvailable < 0 {
        CopyThrough(at, a, i, j, m, sorted, s1, st);
        j', m', st' := j + 1, m, st;
      } else {
        j' := ScanNext(at, a, i, j, m, sorted, w0, s1, st);
        m', st' := i + 1, Next(st, sorted[i]);
      }
    }

    /** `CompactStep` with the budget negative: the watch at `i` is copied to `j`. */
    method CopyThrough(at: nat, a: array<Watch>, i: nat, j: nat, ghost m: nat, ghost sorted: seq<Watch>,
                       ghost s1: Snapshot, ghost st: ScanState)
      requires i < a.Length && Scanned(at, a, i, j, m, sorted, s1, st) && timeAvailable < 0
      modifies a
      ensures Scanned(at, a, i + 1, j + 1, m, sorted, s1, st)
    {
      ghost var A := a[..];
      a[j] := a[i];
      assert a[..j + 1] == st.kept + sorted[m..i + 1] && a[i + 1..] == sorted[i + 1..] by {
        CopyStep(A, sorted, j, i, m, st.kept);
      }
    }

    /** `CompactStep` with budget left: the watch at `i` is scanned. */
    method ScanNext(at: nat, a: array<Watch>, i: nat, j: nat, ghost m: nat, ghost sorted: seq<Watch>,
                    ghost w0: seq<seq<Watch>>, ghost s1: Snapshot, ghost st: ScanState) returns (j': nat)
      requires i < a.Length && Scanned(at, a, i, j, m, sorted, s1, st) && timeAvailable >= 0
      requires SortedFrom(w0, at, sorted) && |s1.watches| == |w0|
      modifies this`watches, this`timeAvailable, this`runStats, this`redBins, this`irredBins, this`lastLit2, this`lastRed, a
      ensures m == i && Budget(s1.watches, at, sorted, s1.time, i) >= 0
      ensures Scanned(at, a, i + 1, j', i + 1, sorted, s1, Next(st, sorted[i]))
    {
      assert sorted[m..i] == [];
      assert Scan(sorted[..i + 1]) == Next(st, sorted[i]) by {
        ScanStep(sorted, i);
      }
      j' := ScanWatch(at, a, i, j, sorted, w0, s1, st);
      assert sorted[i + 1..i + 1] == [];
    }

    /** The loop state of the scan at read position `i`, write position `j` and scan position `m`:
        `a` holds what was kept, then the watches copied once the budget was negative, then the
        unread rest; the fields track the scan state `st` of the first `m` watches. */
    ghost predicate Scanned(at: nat, a: array<Watch>, i: nat, j: nat, m: nat, sorted: seq<Watch>, s1: Snapshot, st: ScanState)
      reads this, a
    {
      && j <= i <= a.Length && m <= i <= |sorted|
      && a[i..] == sorted[i..] && a[..j] == st.kept + sorted[m..i]
      && (m < i ==> timeAvailable < 0)
      && st == Scan(sorted[..m])
      && Tracks(at, s1, st)
    }

    /** The scan state held in the fields, against the state `s1` where the scan began: what the
        removals of `st.removed` cost and changed. */
    ghost predicate Tracks(at: nat, s1: Snapshot, st: ScanState)
      reads this
    {
      && timeAvailable == s1.time - PartnerCost(s1.watches, at, st.removed)
      && watches == Partnered(s1.watches, at, st.removed)
      && lastLit2 == st.last && lastRed == st.lastRed
      && redBins == s1.redBins - CountRed(st.removed)
      && irredBins == s1.irredBins - (|st.removed| - CountRed(st.removed))
      && runStats == s1.stats.(remBins := s1.stats.remBins + |st.removed|)
    }

    /** One watch of the scan with budget left: binaries go through `try_subsume_bin`, clauses and
        BNNs are kept. */
    method ScanWatch(at: nat, a: array<Watch>, i: nat, j: nat, ghost sorted: seq<Watch>, ghost w0: seq<seq<Watch>>,
                     ghost s1: Snapshot, ghost st: ScanState) returns (j': nat)
      requires j <= i < a.Length && i < |sorted| && a[i..] == sorted[i..] && a[..j] == st.kept
      requires SortedFrom(w0, at, sorted)
      requires |s1.watches| == |w0| && st == Scan(sorted[..i]) && Tracks(at, s1, st)
      modifies this`watches, this`timeAvailable, this`runStats, this`redBins, this`irredBins, this`lastLit2, this`lastRed, a
      ensures j' <= i + 1 && a[..j'] == Next(st, sorted[i]).kept && a[i + 1..] == sorted[i + 1..]
      ensures Tracks(at, s1, Next(st, sorted[i]))
    {
      ghost var A := a[..];
      var w := a[i];
      assert w == sorted[i] by { assert A[i..][0] == sorted[i..][0]; }
      if w.Binary? {
        j' := ScanBinary(at, a, i, j, sorted, w0, s1, st);
      } else {
        a[j] := a[i];
        CopyStep(A, sorted, j, i, i, st.kept);
        j' := j + 1;
      }
    }

    /** `ScanWatch` on a binary watch. */
    method ScanBinary(at: nat, a: array<Watch>, i: nat, j: nat, ghost sorted: seq<Watch>, ghost w0: seq<seq<Watch>>,
                      ghost s1: Snapshot, ghost st: ScanState) returns (j': nat)
      requires j <= i < a.Length && i < |sorted| && a[i..] == sorted[i..] && a[..j] == st.kept
      requires SortedFrom(w0, at, sorted) && sorted[i].Binary?
      requires |s1.watches| == |w0| && st == Scan(sorted[..i]) && Tracks(at, s1, st)
      modifies this`watches, this`timeAvailable, this`runStats, this`redBins, this`irredBins, this`lastLit2, this`lastRed, a
      ensures j' <= i + 1 && a[..j'] == Next(st, sorted[i]).kept && a[i + 1..] == sorted[i + 1..]
      ensures Tracks(at, s1, Next(st, sorted[i]))
    {
      assert a[i] == sorted[i] by { assert a[i..][0] == sorted[i..][0]; }
      if lastLit2 == Some(a[i].lit2) {
        j' := DropBinary(at, a, i, j, sorted, w0, s1, st);
      } else {
        j' := KeepBinary(at, a, i, j, sorted, w0, s1, st);
      }
    }

    /** `ScanBinary` on a binary with the same partner as the one before it: it is removed. */
    method DropBinary(at: nat, a: array<Watch>, i: nat, j: nat, ghost sorted: seq<Watch>, ghost w0: seq<seq<Watch>>,
                      ghost s1: Snapshot, ghost st: ScanState) returns (j': nat)
      requires j <= i < a.Length && i < |sorted| && a[i..] == sorted[i..] && a[..j] == st.kept
      requires SortedFrom(w0, at, sorted) && sorted[i].Binary? && st.last == Some(sorted[i].lit2)
      requires |s1.watches| == |w0| && st == Scan(sorted[..i]) && Tracks(at, s1, st)
      modifies this`watches, this`timeAvailable, this`runStats, this`redBins, this`irredBins, this`lastLit2, this`lastRed, a
      ensures j' <= i + 1 && a[..j'] == Next(st, sorted[i]).kept && a[i + 1..] == sorted[i + 1..]
      ensures Tracks(at, s1, Next(st, sorted[i]))
    {
      ghost var A := a[..];
      var w := sorted[i];
      assert a[i] == w by { assert A[i..][0] == sorted[i..][0]; }
      SortedWellFormed(w0, at, sorted, i);
      if st.lastRed {
        LastRedBefore(sorted, i);
      }
      PartneredStep(s1.watches, at, st.removed, w);
      CountRedStep(st.removed, w);
      DropStep(A, sorted, i);
      j' := TrySubsumeBin(at, a, i, j);
    }

    /** `ScanBinary` on a binary with a new partner: it is kept and becomes the last one seen. */
    method KeepBinary(at: nat, a: array<Watch>, i: nat, j: nat, ghost sorted: seq<Watch>, ghost w0: seq<seq<Watch>>,
                      ghost s1: Snapshot, ghost st: ScanState) returns (j': nat)
      requires j <= i < a.Length && i < |sorted| && a[i..] == sorted[i..] && a[..j] == st.kept
      requires SortedFrom(w0, at, sorted) && sorted[i].Binary? && st.last != Some(sorted[i].lit2)
      requires |s1.watches| == |w0| && st == Scan(sorted[..i]) && Tracks(at, s1, st)
      modifies this`watches, this`timeAvailable, this`runStats, this`redBins, this`irredBins, this`lastLit2, this`lastRed, a
      ensures j' <= i + 1 && a[..j'] == Next(st, sorted[i]).kept && a[i + 1..] == sorted[i + 1..]
      ensures Tracks(at, s1, Next(st, sorted[i]))
    {
      ghost var A := a[..];
      var w := sorted[i];
      assert a[i] == w by { assert A[i..][0] == sorted[i..][0]; }
      SortedWellFormed(w0, at, sorted, i);
      CopyStep(A, sorted, j, i, i, st.kept);
      j' := TrySubsumeBin(at, a, i, j);
    }
  }

  /** `sorted` is a sorted permutation of the list of `at` in a well-formed table. */
  ghost predicate SortedFrom(w: seq<seq<Watch>>, at: nat, sorted: seq<Watch>) {
    WellFormed(w) && at < |w| && multiset(sorted) == multiset(w[at]) && Grouped(sorted)
  }

  /** The state of the subsumer where a scan begins. */
  datatype Snapshot = Snapshot(watches: seq<seq<Watch>>, time: int, stats: Stats, redBins: int, irredBins: int)

  /** The watch list as the array the scan compacts in place. */
  method ToArray(ws: seq<Watch>) returns (a: array<Watch>)
    ensures fresh(a) && a[..] == ws
  {
    a := new Watch[|ws|](k requires 0 <= k < |ws| => ws[k]);
  }

  /** Writing the watch at the read position `i` to the write position `j` extends the written part
      by it. */
  lemma CopyStep(A: seq<Watch>, sorted: seq<Watch>, j: nat, i: nat, m: nat, kept: seq<Watch>)
    requires j <= i < |A| && m <= i <= |sorted| && A[..j] == kept + sorted[m..i] && A[i..] == sorted[i..]
    ensures A[j := A[i]][..j + 1] == kept + sorted[m..i + 1] && A[j := A[i]][i + 1..] == sorted[i + 1..]
  {
    assert A[i] == sorted[i] by { assert A[i..][0] == sorted[i..][0]; }
    assert sorted[m..i + 1] == sorted[m..i] + [sorted[i]];
    assert A[i + 1..] == A[i..][1..];
  }

  lemma DropStep(A: seq<Watch>, sorted: seq<Watch>, i: nat)
    requires i < |A| && i <= |sorted| && A[i..] == sorted[i..]
    ensures A[i + 1..] == sorted[i + 1..]
  {
    assert A[i + 1..] == A[i..][1..];
    assert sorted[i + 1..] == sorted[i..][1..];
  }

  /** The table after `subsume_at_watch` is well formed and symmetric again. */
  lemma AtWatchValid(w: seq<seq<Watch>>, at: nat, sorted: seq<Watch>, m: nat)
    requires WellFormed(w) && Symmetric(w) && at < |w| && m <= |sorted| && multiset(sorted) == multiset(w[at])
    ensures WellFormed(AfterWatch(w, at, sorted, m)) && Symmetric(AfterWatch(w, at, sorted, m))
  {
    AfterWatchOnlyBinaries(w, at, sorted, m);
    OnlyBinariesRemovedWellFormed(w, AfterWatch(w, at, sorted, m));
    AfterWatchSymmetric(w, at, sorted, m);
  }
}
