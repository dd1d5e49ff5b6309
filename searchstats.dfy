/** Componentwise arithmetic on the search counters of the CDCL search (searchstats.cpp).
    Every counter of `SearchStats` is modelled as an unbounded integer; the width of each
    counter is declared in a header that is not part of this model, so the wrap-around laws
    are stated separately, for 64-bit unsigned counters (modulus 2^64). */
module SearchStats {

  /** A snapshot of all counters, one field per counter of the record, in source order. */
  datatype Counters = Counters(
    numRestarts: int,
    blockedRestart: int,
    blockedRestartSame: int,
    decisions: int,
    decisionsAssump: int,
    decisionsRand: int,
    decisionFlippedPolar: int,
    litsRedNonMin: int,
    litsRedFinal: int,
    recMinCl: int,
    recMinLitRem: int,
    permDiffAttempt: int,
    permDiffRemLits: int,
    permDiffSuccess: int,
    furtherShrinkAttempt: int,
    binTriShrinkedClause: int,
    furtherShrinkedSuccess: int,
    moreMinimLitsStart: int,
    moreMinimLitsEnd: int,
    recMinimCost: int,
    learntUnits: int,
    learntBins: int,
    learntLongs: int,
    otfSubsumed: int,
    otfSubsumedImplicit: int,
    otfSubsumedLong: int,
    otfSubsumedRed: int,
    otfSubsumedLitsGained: int,
    redClInWhich0: int,
    advancedPropCalled: int,
    hyperBinAdded: int,
    transReduRemIrred: int,
    transReduRemRed: int,
    resolvs: int,
    conflicts: int
  )

  /** Each counter of `a` plus the same-named counter of `b`. */
  function Sum(a: Counters, b: Counters): Counters {
    Counters(
      a.numRestarts + b.numRestarts,
      a.blockedRestart + b.blockedRestart,
      a.blockedRestartSame + b.blockedRestartSame,
      a.decisions + b.decisions,
      a.decisionsAssump + b.decisionsAssump,
      a.decisionsRand + b.decisionsRand,
      a.decisionFlippedPolar + b.decisionFlippedPolar,
      a.litsRedNonMin + b.litsRedNonMin,
      a.litsRedFinal + b.litsRedFinal,
      a.recMinCl + b.recMinCl,
      a.recMinLitRem + b.recMinLitRem,
      a.permDiffAttempt + b.permDiffAttempt,
      a.permDiffRemLits + b.permDiffRemLits,
      a.permDiffSuccess + b.permDiffSuccess,
      a.furtherShrinkAttempt + b.furtherShrinkAttempt,
      a.binTriShrinkedClause + b.binTriShrinkedClause,
      a.furtherShrinkedSuccess + b.furtherShrinkedSuccess,
      a.moreMinimLitsStart + b.moreMinimLitsStart,
      a.moreMinimLitsEnd + b.moreMinimLitsEnd,
      a.recMinimCost + b.recMinimCost,
      a.learntUnits + b.learntUnits,
      a.learntBins + b.learntBins,
      a.learntLongs + b.learntLongs,
      a.otfSubsumed + b.otfSubsumed,
      a.otfSubsumedImplicit + b.otfSubsumedImplicit,
      a.otfSubsumedLong + b.otfSubsumedLong,
      a.otfSubsumedRed + b.otfSubsumedRed,
      a.otfSubsumedLitsGained + b.otfSubsumedLitsGained,
      a.redClInWhich0 + b.redClInWhich0,
      a.advancedPropCalled + b.advancedPropCalled,
      a.hyperBinAdded + b.hyperBinAdded,
      a.transReduRemIrred + b.transReduRemIrred,
      a.transReduRemRed + b.transReduRemRed,
      a.resolvs + b.resolvs,
      a.conflicts + b.conflicts
    )
  }

  /** Each counter of `a` minus the same-named counter of `b`. */
  function Difference(a: Counters, b: Counters): Counters {
    Counters(
      a.numRestarts - b.numRestarts,
      a.blockedRestart - b.blockedRestart,
      a.blockedRestartSame - b.blockedRestartSame,
      a.decisions - b.decisions,
      a.decisionsAssump - b.decisionsAssump,
      a.decisionsRand - b.decisionsRand,
      a.decisionFlippedPolar - b.decisionFlippedPolar,
      a.litsRedNonMin - b.litsRedNonMin,
      a.litsRedFinal - b.litsRedFinal,
      a.recMinCl - b.recMinCl,
      a.recMinLitRem - b.recMinLitRem,
      a.permDiffAttempt - b.permDiffAttempt,
      a.permDiffRemLits - b.permDiffRemLits,
      a.permDiffSuccess - b.permDiffSuccess,
      a.furtherShrinkAttempt - b.furtherShrinkAttempt,
      a.binTriShrinkedClause - b.binTriShrinkedClause,
      a.furtherShrinkedSuccess - b.furtherShrinkedSuccess,
      a.moreMinimLitsStart - b.moreMinimLitsStart,
      a.moreMinimLitsEnd - b.moreMinimLitsEnd,
      a.recMinimCost - b.recMinimCost,
      a.learntUnits - b.learntUnits,
      a.learntBins - b.learntBins,
      a.learntLongs - b.learntLongs,
      a.otfSubsumed - b.otfSubsumed,
      a.otfSubsumedImplicit - b.otfSubsumedImplicit,
      a.otfSubsumedLong - b.otfSubsumedLong,
      a.otfSubsumedRed - b.otfSubsumedRed,
      a.otfSubsumedLitsGained - b.otfSubsumedLitsGained,
      a.redClInWhich0 - b.redClInWhich0,
      a.advancedPropCalled - b.advancedPropCalled,
      a.hyperBinAdded - b.hyperBinAdded,
      a.transReduRemIrred - b.transReduRemIrred,
      a.transReduRemRed - b.transReduRemRed,
      a.resolvs - b.resolvs,
      a.conflicts - b.conflicts
    )
  }

  /** The number of values of a 64-bit unsigned counter. */
  const Modulus: int := 0x1_0000_0000_0000_0000

  /** Every counter lies in [0, Modulus): the values a 64-bit unsigned counter can hold. */
  predicate InRange(a: Counters) {
    && 0 <= a.numRestarts < Modulus
    && 0 <= a.blockedRestart < Modulus
    && 0 <= a.blockedRestartSame < Modulus
    && 0 <= a.decisions < Modulus
    && 0 <= a.decisionsAssump < Modulus
    && 0 <= a.decisionsRand < Modulus
    && 0 <= a.decisionFlippedPolar < Modulus
    && 0 <= a.litsRedNonMin < Modulus
    && 0 <= a.litsRedFinal < Modulus
    && 0 <= a.recMinCl < Modulus
    && 0 <= a.recMinLitRem < Modulus
    && 0 <= a.permDiffAttempt < Modulus
    && 0 <= a.permDiffRemLits < Modulus
    && 0 <= a.permDiffSuccess < Modulus
    && 0 <= a.furtherShrinkAttempt < Modulus
    && 0 <= a.binTriShrinkedClause < Modulus
    && 0 <= a.furtherShrinkedSuccess < Modulus
    && 0 <= a.moreMinimLitsStart < Modulus
    && 0 <= a.moreMinimLitsEnd < Modulus
    && 0 <= a.recMinimCost < Modulus
    && 0 <= a.learntUnits < Modulus
    && 0 <= a.learntBins < Modulus
    && 0 <= a.learntLongs < Modulus
    && 0 <= a.otfSubsumed < Modulus
    && 0 <= a.otfSubsumedImplicit < Modulus
    && 0 <= a.otfSubsumedLong < Modulus
    && 0 <= a.otfSubsumedRed < Modulus
    && 0 <= a.otfSubsumedLitsGained < Modulus
    && 0 <= a.redClInWhich0 < Modulus
    && 0 <= a.advancedPropCalled < Modulus
    && 0 <= a.hyperBinAdded < Modulus
    && 0 <= a.transReduRemIrred < Modulus
    && 0 <= a.transReduRemRed < Modulus
    && 0 <= a.resolvs < Modulus
    && 0 <= a.conflicts < Modulus
  }

  /** Each counter reduced modulo 2^64, as the machine's unsigned arithmetic leaves it. */
  function Wrap(a: Counters): Counters {
    Counters(
      a.numRestarts % Modulus,
      a.blockedRestart % Modulus,
      a.blockedRestartSame % Modulus,
      a.decisions % Modulus,
      a.decisionsAssump % Modulus,
      a.decisionsRand % Modulus,
      a.decisionFlippedPolar % Modulus,
      a.litsRedNonMin % Modulus,
      a.litsRedFinal % Modulus,
      a.recMinCl % Modulus,
      a.recMinLitRem % Modulus,
      a.permDiffAttempt % Modulus,
      a.permDiffRemLits % Modulus,
      a.permDiffSuccess % Modulus,
      a.furtherShrinkAttempt % Modulus,
      a.binTriShrinkedClause % Modulus,
      a.furtherShrinkedSuccess % Modulus,
      a.moreMinimLitsStart % Modulus,
      a.moreMinimLitsEnd % Modulus,
      a.recMinimCost % Modulus,
      a.learntUnits % Modulus,
      a.learntBins % Modulus,
      a.learntLongs % Modulus,
      a.otfSubsumed % Modulus,
      a.otfSubsumedImplicit % Modulus,
      a.otfSubsumedLong % Modulus,
      a.otfSubsumedRed % Modulus,
      a.otfSubsumedLitsGained % Modulus,
      a.redClInWhich0 % Modulus,
      a.advancedPropCalled % Modulus,
      a.hyperBinAdded % Modulus,
      a.transReduRemIrred % Modulus,
      a.transReduRemRed % Modulus,
      a.resolvs % Modulus,
      a.conflicts % Modulus
    )
  }

  /** Subtracting what was added restores the counter record exactly (unbounded counters). */
  lemma DifferenceUndoesSum(a: Counters, b: Counters)
    ensures Difference(Sum(a, b), b) == a
  {
  }

  /** On one wrap-around counter, adding then subtracting the same amount gives the start value back. */
  lemma WrapCancels(x: int, y: int)
    requires 0 <= x < Modulus
    ensures ((x + y) % Modulus - y) % Modulus == x
  {
  }

  /** The wrap-around cancellation for the restart counters. */
  lemma WrappedCancelsRestart(a: Counters, b: Counters)
    requires InRange(a)
    ensures Wrap(Difference(Wrap(Sum(a, b)), b)).numRestarts == a.numRestarts
    ensures Wrap(Difference(Wrap(Sum(a, b)), b)).blockedRestart == a.blockedRestart
    ensures Wrap(Difference(Wrap(Sum(a, b)), b)).blockedRestartSame == a.blockedRestartSame
  {
    WrapCancels(a.numRestarts, b.numRestarts);
    WrapCancels(a.blockedRestart, b.blockedRestart);
    WrapCancels(a.blockedRestartSame, b.blockedRestartSame);
  }

  /** The wrap-around cancellation for the decision counters. */
  lemma WrappedCancelsDecision(a: Counters, b: Counters)
    requires InRange(a)
    ensures Wrap(Difference(Wrap(Sum(a, b)), b)).decisions == a.decisions
    ensures Wrap(Difference(Wrap(Sum(a, b)), b)).decisionsAssump == a.decisionsAssump
    ensures Wrap(Difference(Wrap(Sum(a, b)), b)).decisionsRand == a.decisionsRand
    ensures Wrap(Difference(Wrap(Sum(a, b)), b)).decisionFlippedPolar == a.decisionFlippedPolar
  {
    WrapCancels(a.decisions, b.decisions);
    WrapCancels(a.decisionsAssump, b.decisionsAssump);
    WrapCancels(a.decisionsRand, b.decisionsRand);
    WrapCancels(a.decisionFlippedPolar, b.decisionFlippedPolar);
  }

  /** The wrap-around cancellation for the minimisation counters. */
  lemma WrappedCancelsMinimisation(a: Counters, b: Counters)
    requires InRange(a)
    ensures Wrap(Difference(Wrap(Sum(a, b)), b)).litsRedNonMin == a.litsRedNonMin
    ensures Wrap(Difference(Wrap(Sum(a, b)), b)).litsRedFinal == a.litsRedFinal
    ensures Wrap(Difference(Wrap(Sum(a, b)), b)).recMinCl == a.recMinCl
    ensures Wrap(Difference(Wrap(Sum(a, b)), b)).recMinLitRem == a.recMinLitRem
  {
    WrapCancels(a.litsRedNonMin, b.litsRedNonMin);
    WrapCancels(a.litsRedFinal, b.litsRedFinal);
    WrapCancels(a.recMinCl, b.recMinCl);
    WrapCancels(a.recMinLitRem, b.recMinLitRem);
  }

  /** The wrap-around cancellation for the permdiff counters. */
  lemma WrappedCancelsPermDiff(a: Counters, b: Counters)
    requires InRange(a)
    ensures Wrap(Difference(Wrap(Sum(a, b)), b)).permDiffAttempt == a.permDiffAttempt
    ensures Wrap(Difference(Wrap(Sum(a, b)), b)).permDiffRemLits == a.permDiffRemLits
    ensures Wrap(Difference(Wrap(Sum(a, b)), b)).permDiffSuccess == a.permDiffSuccess
  {
    WrapCancels(a.permDiffAttempt, b.permDiffAttempt);
    WrapCancels(a.permDiffRemLits, b.permDiffRemLits);
    WrapCancels(a.permDiffSuccess, b.permDiffSuccess);
  }

  /** The wrap-around cancellation for the furthershrink counters. */
  lemma WrappedCancelsFurtherShrink(a: Counters, b: Counters)
    requires InRange(a)
    ensures Wrap(Difference(Wrap(Sum(a, b)), b)).furtherShrinkAttempt == a.furtherShrinkAttempt
    ensures Wrap(Difference(Wrap(Sum(a, b)), b)).binTriShrinkedClause == a.binTriShrinkedClause
    ensures Wrap(Difference(Wrap(Sum(a, b)), b)).furtherShrinkedSuccess == a.furtherShrinkedSuccess
  {
    WrapCancels(a.furtherShrinkAttempt, b.furtherShrinkAttempt);
    WrapCancels(a.binTriShrinkedClause, b.binTriShrinkedClause);
    WrapCancels(a.furtherShrinkedSuccess, b.furtherShrinkedSuccess);
  }

  /** The wrap-around cancellation for the moreminim counters. */
  lemma WrappedCancelsMoreMinim(a: Counters, b: Counters)
    requires InRange(a)
    ensures Wrap(Difference(Wrap(Sum(a, b)), b)).moreMinimLitsStart == a.moreMinimLitsStart
    ensures Wrap(Difference(Wrap(Sum(a, b)), b)).moreMinimLitsEnd == a.moreMinimLitsEnd
    ensures Wrap(Difference(Wrap(Sum(a, b)), b)).recMinimCost == a.recMinimCost
  {
    WrapCancels(a.moreMinimLitsStart, b.moreMinimLitsStart);
    WrapCancels(a.moreMinimLitsEnd, b.moreMinimLitsEnd);
    WrapCancels(a.recMinimCost, b.recMinimCost);
  }

  /** The wrap-around cancellation for the learnt counters. */
  lemma WrappedCancelsLearnt(a: Counters, b: Counters)
    requires InRange(a)
    ensures Wrap(Difference(Wrap(Sum(a, b)), b)).learntUnits == a.learntUnits
    ensures Wrap(Difference(Wrap(Sum(a, b)), b)).learntBins == a.learntBins
    ensures Wrap(Difference(Wrap(Sum(a, b)), b)).learntLongs == a.learntLongs
  {
    WrapCancels(a.learntUnits, b.learntUnits);
    WrapCancels(a.learntBins, b.learntBins);
    WrapCancels(a.learntLongs, b.learntLongs);
  }

  /** The wrap-around cancellation for the otf counters. */
  lemma WrappedCancelsOtf(a: Counters, b: Counters)
    requires InRange(a)
    ensures Wrap(Difference(Wrap(Sum(a, b)), b)).otfSubsumed == a.otfSubsumed
    ensures Wrap(Difference(Wrap(Sum(a, b)), b)).otfSubsumedImplicit == a.otfSubsumedImplicit
    ensures Wrap(Difference(Wrap(Sum(a, b)), b)).otfSubsumedLong == a.otfSubsumedLong
    ensures Wrap(Difference(Wrap(Sum(a, b)), b)).otfSubsumedRed == a.otfSubsumedRed
    ensures Wrap(Difference(Wrap(Sum(a, b)), b)).otfSubsumedLitsGained == a.otfSubsumedLitsGained
    ensures Wrap(Difference(Wrap(Sum(a, b)), b)).redClInWhich0 == a.redClInWhich0
  {
    WrapCancels(a.otfSubsumed, b.otfSubsumed);
    WrapCancels(a.otfSubsumedImplicit, b.otfSubsumedImplicit);
    WrapCancels(a.otfSubsumedLong, b.otfSubsumedLong);
    WrapCancels(a.otfSubsumedRed, b.otfSubsumedRed);
    WrapCancels(a.otfSubsumedLitsGained, b.otfSubsumedLitsGained);
    WrapCancels(a.redClInWhich0, b.redClInWhich0);
  }

  /** The wrap-around cancellation for the hyperbin counters. */
  lemma WrappedCancelsHyperBin(a: Counters, b: Counters)
    requires InRange(a)
    ensures Wrap(Difference(Wrap(Sum(a, b)), b)).advancedPropCalled == a.advancedPropCalled
    ensures Wrap(Difference(Wrap(Sum(a, b)), b)).hyperBinAdded == a.hyperBinAdded
    ensures Wrap(Difference(Wrap(Sum(a, b)), b)).transReduRemIrred == a.transReduRemIrred
    ensures Wrap(Difference(Wrap(Sum(a, b)), b)).transReduRemRed == a.transReduRemRed
  {
    WrapCancels(a.advancedPropCalled, b.advancedPropCalled);
    WrapCancels(a.hyperBinAdded, b.hyperBinAdded);
    WrapCancels(a.transReduRemIrred, b.transReduRemIrred);
    WrapCancels(a.transReduRemRed, b.transReduRemRed);
  }

  /** The wrap-around cancellation for the struct counters. */
  lemma WrappedCancelsStruct(a: Counters, b: Counters)
    requires InRange(a)
    ensures Wrap(Difference(Wrap(Sum(a, b)), b)).resolvs == a.resolvs
    ensures Wrap(Difference(Wrap(Sum(a, b)), b)).conflicts == a.conflicts
  {
    WrapCancels(a.resolvs, b.resolvs);
    WrapCancels(a.conflicts, b.conflicts);
  }

  /** `(a += b) -= b` restores every counter of `a` when the counters wrap around modulo 2^64. */
  lemma WrappedDifferenceUndoesSum(a: Counters, b: Counters)
    requires InRange(a)
    ensures Wrap(Difference(Wrap(Sum(a, b)), b)) == a
  {
    WrappedCancelsRestart(a, b);
    WrappedCancelsDecision(a, b);
    WrappedCancelsMinimisation(a, b);
    WrappedCancelsPermDiff(a, b);
    WrappedCancelsFurtherShrink(a, b);
    WrappedCancelsMoreMinim(a, b);
    WrappedCancelsLearnt(a, b);
    WrappedCancelsOtf(a, b);
    WrappedCancelsHyperBin(a, b);
    WrappedCancelsStruct(a, b);
  }

  /** The counter record of the search, updated in place by `+=` and `-=`. */
  class SearchStats {
    var numRestarts: int
    var blockedRestart: int
    var blockedRestartSame: int
    var decisions: int
    var decisionsAssump: int
    var decisionsRand: int
    var decisionFlippedPolar: int
    var litsRedNonMin: int
    var litsRedFinal: int
    var recMinCl: int
    var recMinLitRem: int
    var permDiffAttempt: int
    var permDiffRemLits: int
    var permDiffSuccess: int
    var furtherShrinkAttempt: int
    var binTriShrinkedClause: int
    var furtherShrinkedSuccess: int
    var moreMinimLitsStart: int
    var moreMinimLitsEnd: int
    var recMinimCost: int
    var learntUnits: int
    var learntBins: int
    var learntLongs: int
    var otfSubsumed: int
    var otfSubsumedImplicit: int
    var otfSubsumedLong: int
    var otfSubsumedRed: int
    var otfSubsumedLitsGained: int
    var redClInWhich0: int
    var advancedPropCalled: int
    var hyperBinAdded: int
    var transReduRemIrred: int
    var transReduRemRed: int
    var resolvs: int
    var conflicts: int

    /** The current counters as a value. */
    function Value(): Counters
      reads this
    {
      Counters(
        numRestarts,
        blockedRestart,
        blockedRestartSame,
        decisions,
        decisionsAssump,
        decisionsRand,
        decisionFlippedPolar,
        litsRedNonMin,
        litsRedFinal,
        recMinCl,
        recMinLitRem,
        permDiffAttempt,
        permDiffRemLits,
        permDiffSuccess,
        furtherShrinkAttempt,
        binTriShrinkedClause,
        furtherShrinkedSuccess,
        moreMinimLitsStart,
        moreMinimLitsEnd,
        recMinimCost,
        learntUnits,
        learntBins,
        learntLongs,
        otfSubsumed,
        otfSubsumedImplicit,
        otfSubsumedLong,
        otfSubsumedRed,
        otfSubsumedLitsGained,
        redClInWhich0,
        advancedPropCalled,
        hyperBinAdded,
        transReduRemIrred,
        transReduRemRed,
        resolvs,
        conflicts
      )
    }

    /** A record holding the given counters (the copy made by `operator-`). */
    constructor (v: Counters)
      ensures numRestarts == v.numRestarts
      ensures blockedRestart == v.blockedRestart
      ensures blockedRestartSame == v.blockedRestartSame
      ensures decisions == v.decisions
      ensures decisionsAssump == v.decisionsAssump
      ensures decisionsRand == v.decisionsRand
      ensures decisionFlippedPolar == v.decisionFlippedPolar
      ensures litsRedNonMin == v.litsRedNonMin
      ensures litsRedFinal == v.litsRedFinal
      ensures recMinCl == v.recMinCl
      ensures recMinLitRem == v.recMinLitRem
      ensures permDiffAttempt == v.permDiffAttempt
      ensures permDiffRemLits == v.permDiffRemLits
      ensures permDiffSuccess == v.permDiffSuccess
      ensures furtherShrinkAttempt == v.furtherShrinkAttempt
      ensures binTriShrinkedClause == v.binTriShrinkedClause
      ensures furtherShrinkedSuccess == v.furtherShrinkedSuccess
      ensures moreMinimLitsStart == v.moreMinimLitsStart
      ensures moreMinimLitsEnd == v.moreMinimLitsEnd
      ensures recMinimCost == v.recMinimCost
      ensures learntUnits == v.learntUnits
      ensures learntBins == v.learntBins
      ensures learntLongs == v.learntLongs
      ensures otfSubsumed == v.otfSubsumed
      ensures otfSubsumedImplicit == v.otfSubsumedImplicit
      ensures otfSubsumedLong == v.otfSubsumedLong
      ensures otfSubsumedRed == v.otfSubsumedRed
      ensures otfSubsumedLitsGained == v.otfSubsumedLitsGained
      ensures redClInWhich0 == v.redClInWhich0
      ensures advancedPropCalled == v.advancedPropCalled
      ensures hyperBinAdded == v.hyperBinAdded
      ensures transReduRemIrred == v.transReduRemIrred
      ensures transReduRemRed == v.transReduRemRed
      ensures resolvs == v.resolvs
      ensures conflicts == v.conflicts
    {
      numRestarts := v.numRestarts;
      blockedRestart := v.blockedRestart;
      blockedRestartSame := v.blockedRestartSame;
      decisions := v.decisions;
      decisionsAssump := v.decisionsAssump;
      decisionsRand := v.decisionsRand;
      decisionFlippedPolar := v.decisionFlippedPolar;
      litsRedNonMin := v.litsRedNonMin;
      litsRedFinal := v.litsRedFinal;
      recMinCl := v.recMinCl;
      recMinLitRem := v.recMinLitRem;
      permDiffAttempt := v.permDiffAttempt;
      permDiffRemLits := v.permDiffRemLits;
      permDiffSuccess := v.permDiffSuccess;
      furtherShrinkAttempt := v.furtherShrinkAttempt;
      binTriShrinkedClause := v.binTriShrinkedClause;
      furtherShrinkedSuccess := v.furtherShrinkedSuccess;
      moreMinimLitsStart := v.moreMinimLitsStart;
      moreMinimLitsEnd := v.moreMinimLitsEnd;
      recMinimCost := v.recMinimCost;
      learntUnits := v.learntUnits;
      learntBins := v.learntBins;
      learntLongs := v.learntLongs;
      otfSubsumed := v.otfSubsumed;
      otfSubsumedImplicit := v.otfSubsumedImplicit;
      otfSubsumedLong := v.otfSubsumedLong;
      otfSubsumedRed := v.otfSubsumedRed;
      otfSubsumedLitsGained := v.otfSubsumedLitsGained;
      redClInWhich0 := v.redClInWhich0;
      advancedPropCalled := v.advancedPropCalled;
      hyperBinAdded := v.hyperBinAdded;
      transReduRemIrred := v.transReduRemIrred;
      transReduRemRed := v.transReduRemRed;
      resolvs := v.resolvs;
      conflicts := v.conflicts;
    }

    /** Overwrites the restart counters in place with the values in `v`. */
    method SetRestarts(v: Counters)
      modifies this`numRestarts, this`blockedRestart, this`blockedRestartSame
      ensures numRestarts == v.numRestarts
      ensures blockedRestart == v.blockedRestart
      ensures blockedRestartSame == v.blockedRestartSame
    {
      numRestarts := v.numRestarts;
      blockedRestart := v.blockedRestart;
      blockedRestartSame := v.blockedRestartSame;
    }

    /** Overwrites the decision counters in place with the values in `v`. */
    method SetDecisions(v: Counters)
      modifies this`decisions, this`decisionsAssump, this`decisionsRand, this`decisionFlippedPolar
      ensures decisions == v.decisions
      ensures decisionsAssump == v.decisionsAssump
      ensures decisionsRand == v.decisionsRand
      ensures decisionFlippedPolar == v.decisionFlippedPolar
    {
      decisions := v.decisions;
      decisionsAssump := v.decisionsAssump;
      decisionsRand := v.decisionsRand;
      decisionFlippedPolar := v.decisionFlippedPolar;
    }

    /** Overwrites the conflict-minimisation counters in place with the values in `v`. */
    method SetMinimisation(v: Counters)
      modifies this`litsRedNonMin, this`litsRedFinal, this`recMinCl, this`recMinLitRem, this`permDiffAttempt, this`permDiffRemLits, this`permDiffSuccess, this`furtherShrinkAttempt, this`binTriShrinkedClause, this`furtherShrinkedSuccess, this`moreMinimLitsStart, this`moreMinimLitsEnd, this`recMinimCost
      ensures litsRedNonMin == v.litsRedNonMin
      ensures litsRedFinal == v.litsRedFinal
      ensures recMinCl == v.recMinCl
      ensures recMinLitRem == v.recMinLitRem
      ensures permDiffAttempt == v.permDiffAttempt
      ensures permDiffRemLits == v.permDiffRemLits
      ensures permDiffSuccess == v.permDiffSuccess
      ensures furtherShrinkAttempt == v.furtherShrinkAttempt
      ensures binTriShrinkedClause == v.binTriShrinkedClause
      ensures furtherShrinkedSuccess == v.furtherShrinkedSuccess
      ensures moreMinimLitsStart == v.moreMinimLitsStart
      ensures moreMinimLitsEnd == v.moreMinimLitsEnd
      ensures recMinimCost == v.recMinimCost
    {
      litsRedNonMin := v.litsRedNonMin;
      litsRedFinal := v.litsRedFinal;
      recMinCl := v.recMinCl;
      recMinLitRem := v.recMinLitRem;
      permDiffAttempt := v.permDiffAttempt;
      permDiffRemLits := v.permDiffRemLits;
      permDiffSuccess := v.permDiffSuccess;
      furtherShrinkAttempt := v.furtherShrinkAttempt;
      binTriShrinkedClause := v.binTriShrinkedClause;
      furtherShrinkedSuccess := v.furtherShrinkedSuccess;
      moreMinimLitsStart := v.moreMinimLitsStart;
      moreMinimLitsEnd := v.moreMinimLitsEnd;
      recMinimCost := v.recMinimCost;
    }

    /** Overwrites the learnt-clause counters in place with the values in `v`. */
    method SetRedundant(v: Counters)
      modifies this`learntUnits, this`learntBins, this`learntLongs, this`otfSubsumed, this`otfSubsumedImplicit, this`otfSubsumedLong, this`otfSubsumedRed, this`otfSubsumedLitsGained, this`redClInWhich0
      ensures learntUnits == v.learntUnits
      ensures learntBins == v.learntBins
      ensures learntLongs == v.learntLongs
      ensures otfSubsumed == v.otfSubsumed
      ensures otfSubsumedImplicit == v.otfSubsumedImplicit
      ensures otfSubsumedLong == v.otfSubsumedLong
      ensures otfSubsumedRed == v.otfSubsumedRed
      ensures otfSubsumedLitsGained == v.otfSubsumedLitsGained
      ensures redClInWhich0 == v.redClInWhich0
    {
      learntUnits := v.learntUnits;
      learntBins := v.learntBins;
      learntLongs := v.learntLongs;
      otfSubsumed := v.otfSubsumed;
      otfSubsumedImplicit := v.otfSubsumedImplicit;
      otfSubsumedLong := v.otfSubsumedLong;
      otfSubsumedRed := v.otfSubsumedRed;
      otfSubsumedLitsGained := v.otfSubsumedLitsGained;
      redClInWhich0 := v.redClInWhich0;
    }

    /** Overwrites the hyper-binary and transitive-reduction counters in place with the values in `v`. */
    method SetHyperBin(v: Counters)
      modifies this`advancedPropCalled, this`hyperBinAdded, this`transReduRemIrred, this`transReduRemRed
      ensures advancedPropCalled == v.advancedPropCalled
      ensures hyperBinAdded == v.hyperBinAdded
      ensures transReduRemIrred == v.transReduRemIrred
      ensures transReduRemRed == v.transReduRemRed
    {
      advancedPropCalled := v.advancedPropCalled;
      hyperBinAdded := v.hyperBinAdded;
      transReduRemIrred := v.transReduRemIrred;
      transReduRemRed := v.transReduRemRed;
    }

    /** Overwrites the resolution and conflict counters in place with the values in `v`. */
    method SetStructs(v: Counters)
      modifies this`resolvs, this`conflicts
      ensures resolvs == v.resolvs
      ensures conflicts == v.conflicts
    {
      resolvs := v.resolvs;
      conflicts := v.conflicts;
    }

    /** Overwrites the restart, decision and minimisation counters in place with the values in `v`. */
    method SetSearch(v: Counters)
      modifies this`numRestarts, this`blockedRestart, this`blockedRestartSame, this`decisions, this`decisionsAssump, this`decisionsRand, this`decisionFlippedPolar, this`litsRedNonMin, this`litsRedFinal, this`recMinCl, this`recMinLitRem, this`permDiffAttempt, this`permDiffRemLits, this`permDiffSuccess, this`furtherShrinkAttempt, this`binTriShrinkedClause, this`furtherShrinkedSuccess, this`moreMinimLitsStart, this`moreMinimLitsEnd, this`recMinimCost
      ensures numRestarts == v.numRestarts
      ensures blockedRestart == v.blockedRestart
      ensures blockedRestartSame == v.blockedRestartSame
      ensures decisions == v.decisions
      ensures decisionsAssump == v.decisionsAssump
      ensures decisionsRand == v.decisionsRand
      ensures decisionFlippedPolar == v.decisionFlippedPolar
      ensures litsRedNonMin == v.litsRedNonMin
      ensures litsRedFinal == v.litsRedFinal
      ensures recMinCl == v.recMinCl
      ensures recMinLitRem == v.recMinLitRem
      ensures permDiffAttempt == v.permDiffAttempt
      ensures permDiffRemLits == v.permDiffRemLits
      ensures permDiffSuccess == v.permDiffSuccess
      ensures furtherShrinkAttempt == v.furtherShrinkAttempt
      ensures binTriShrinkedClause == v.binTriShrinkedClause
      ensures furtherShrinkedSuccess == v.furtherShrinkedSuccess
      ensures moreMinimLitsStart == v.moreMinimLitsStart
      ensures moreMinimLitsEnd == v.moreMinimLitsEnd
      ensures recMinimCost == v.recMinimCost
    {
      SetRestarts(v);
      SetDecisions(v);
      SetMinimisation(v);
    }

    /** Overwrites the learnt-clause, hyper-binary and structural counters in place with the values in `v`. */
    method SetLearning(v: Counters)
      modifies this`learntUnits, this`learntBins, this`learntLongs, this`otfSubsumed, this`otfSubsumedImplicit, this`otfSubsumedLong, this`otfSubsumedRed, this`otfSubsumedLitsGained, this`redClInWhich0, this`advancedPropCalled, this`hyperBinAdded, this`transReduRemIrred, this`transReduRemRed, this`resolvs, this`conflicts
      ensures learntUnits == v.learntUnits
      ensures learntBins == v.learntBins
      ensures learntLongs == v.learntLongs
      ensures otfSubsumed == v.otfSubsumed
      ensures otfSubsumedImplicit == v.otfSubsumedImplicit
      ensures otfSubsumedLong == v.otfSubsumedLong
      ensures otfSubsumedRed == v.otfSubsumedRed
      ensures otfSubsumedLitsGained == v.otfSubsumedLitsGained
      ensures redClInWhich0 == v.redClInWhich0
      ensures advancedPropCalled == v.advancedPropCalled
      ensures hyperBinAdded == v.hyperBinAdded
      ensures transReduRemIrred == v.transReduRemIrred
      ensures transReduRemRed == v.transReduRemRed
      ensures resolvs == v.resolvs
      ensures conflicts == v.conflicts
    {
      SetRedundant(v);
      SetHyperBin(v);
      SetStructs(v);
    }

    /** Overwrites every counter in place, group by group as the source lists them. */
    method SetAll(v: Counters)
      modifies this
      ensures numRestarts == v.numRestarts
      ensures blockedRestart == v.blockedRestart
      ensures blockedRestartSame == v.blockedRestartSame
      ensures decisions == v.decisions
      ensures decisionsAssump == v.decisionsAssump
      ensures decisionsRand == v.decisionsRand
      ensures decisionFlippedPolar == v.decisionFlippedPolar
      ensures litsRedNonMin == v.litsRedNonMin
      ensures litsRedFinal == v.litsRedFinal
      ensures recMinCl == v.recMinCl
      ensures recMinLitRem == v.recMinLitRem
      ensures permDiffAttempt == v.permDiffAttempt
      ensures permDiffRemLits == v.permDiffRemLits
      ensures permDiffSuccess == v.permDiffSuccess
      ensures furtherShrinkAttempt == v.furtherShrinkAttempt
      ensures binTriShrinkedClause == v.binTriShrinkedClause
      ensures furtherShrinkedSuccess == v.furtherShrinkedSuccess
      ensures moreMinimLitsStart == v.moreMinimLitsStart
      ensures moreMinimLitsEnd == v.moreMinimLitsEnd
      ensures recMinimCost == v.recMinimCost
      ensures learntUnits == v.learntUnits
      ensures learntBins == v.learntBins
      ensures learntLongs == v.learntLongs
      ensures otfSubsumed == v.otfSubsumed
      ensures otfSubsumedImplicit == v.otfSubsumedImplicit
      ensures otfSubsumedLong == v.otfSubsumedLong
      ensures otfSubsumedRed == v.otfSubsumedRed
      ensures otfSubsumedLitsGained == v.otfSubsumedLitsGained
      ensures redClInWhich0 == v.redClInWhich0
      ensures advancedPropCalled == v.advancedPropCalled
      ensures hyperBinAdded == v.hyperBinAdded
      ensures transReduRemIrred == v.transReduRemIrred
      ensures transReduRemRed == v.transReduRemRed
      ensures resolvs == v.resolvs
      ensures conflicts == v.conflicts
    {
      SetSearch(v);
      SetLearning(v);
    }

    /** `this += other`: each counter of `other` is added to the same-named counter of `this`; `other` may be `this`. */
    method AddAssign(other: SearchStats)
      modifies this
      ensures Value() == Sum(old(Value()), old(other.Value()))
    {
      SetAll(Sum(Value(), other.Value()));
    }

    /** `this -= other`: each counter of `other` is subtracted from the same-named counter of `this`; `other` may be `this`. */
    method SubtractAssign(other: SearchStats)
      modifies this
      ensures Value() == Difference(old(Value()), old(other.Value()))
    {
      SetAll(Difference(Value(), other.Value()));
    }

    /** `this - other`: a fresh copy of `this` with `other` subtracted; `this` is not modified. */
    method Subtract(other: SearchStats) returns (result: SearchStats)
      ensures fresh(result)
      ensures result.Value() == Difference(Value(), other.Value())
    {
      result := new SearchStats(Value());
      result.SubtractAssign(other);
    }
  }

  /** `(a += b) -= b` on records restores `a` when `b` is another record. When `b` is `a` itself,
      both steps read the record already updated, so `a` ends as the doubled record minus itself. */
  method AddThenSubtract(a: SearchStats, b: SearchStats)
    modifies a
    ensures b != a ==> a.Value() == old(a.Value())
    ensures b == a ==> a.Value() == Difference(Sum(old(a.Value()), old(a.Value())), Sum(old(a.Value()), old(a.Value())))
  {
    a.AddAssign(b);
    a.SubtractAssign(b);
    if b != a {
      DifferenceUndoesSum(old(a.Value()), b.Value());
    }
  }
}
