/** The NumberShuffler widget: a pool of the numbers 1..66 from which a two-phase draw
    (start a shuffle, then finish it when the shuffle's timeout fires) removes one number
    at a time, until a reset restores the full pool. The React state hooks are the fields
    of a class; each event handler or timer callback is a method. */
module NumberShufflerComponent {

  import opened Wrappers
  import opened Pool

  class NumberShuffler {
    var availableNumbers: seq<int>
    var excludedNumbers: seq<int>
    var currentNumber: Option<int>
    var isShuffling: bool
    var isRevealed: bool
    /** The value of `availableNumbers` that the shuffle's interval and timeout callbacks
        captured when the draw was started. */
    var drawSnapshot: seq<int>
    /** How many shuffle timeouts are scheduled and have not yet fired; the interval lives
        exactly as long as its timeout. */
    ghost var pendingFinishes: nat

    /** The pool partitions 1..66; a timeout is pending exactly while shuffling, and then
        only one; while shuffling, the captured snapshot is still the live pool (and
        non-empty); while idle, the shown number is the last one drawn, and a
        revealed number is only ever a drawn one. */
    ghost predicate Valid()
      reads this
    {
      && PoolInvariant(availableNumbers, excludedNumbers)
      && pendingFinishes == (if isShuffling then 1 else 0)
      && (isShuffling ==> drawSnapshot == availableNumbers && availableNumbers != [])
      && (!isShuffling ==> currentNumber == LastDrawn(excludedNumbers))
      && (isRevealed ==> !isShuffling && excludedNumbers != [])
      && (currentNumber.Some? ==> 1 <= currentNumber.value <= PoolSize)
    }

    /** The draw button is disabled, and `DrawNumber` ignores a click: the pool is empty or
        a shuffle is running. In a valid widget the pool is empty exactly after 66 completed
        draws since the last reset. */
    predicate DrawDisabled()
      reads this
      ensures Valid() ==> (DrawDisabled() <==> isShuffling || |excludedNumbers| == PoolSize)
    {
      ExhaustedIffAllExcluded(availableNumbers, excludedNumbers);
      |availableNumbers| == 0 || isShuffling
    }

    /** The widget shows that all numbers have been drawn: the pool is empty and no shuffle
        is running. In a valid widget that is exactly when idle after 66 completed draws. */
    predicate AllDrawnShown()
      reads this
      ensures Valid() ==> (AllDrawnShown() <==> !isShuffling && |excludedNumbers| == PoolSize)
    {
      ExhaustedIffAllExcluded(availableNumbers, excludedNumbers);
      |availableNumbers| == 0 && !isShuffling
    }

    constructor ()
      ensures Valid()
      ensures availableNumbers == InitialNumbers() && excludedNumbers == []
      ensures currentNumber == None && !isShuffling && !isRevealed
    {
      availableNumbers := InitialNumbers();
      excludedNumbers := [];
      currentNumber := None;
      isShuffling := false;
      isRevealed := false;
      drawSnapshot := [];
      pendingFinishes := 0;
      InitialPoolInvariant();
    }

    /** The click handler: ignored when the pool is empty or a shuffle is running; otherwise
        hides the number, starts the shuffle and captures the pool for its callbacks. The pool
        itself does not change. */
    method DrawNumber()
      requires Valid()
      modifies this
      ensures Valid()
      ensures old(DrawDisabled()) ==> unchanged(this)
      ensures !old(DrawDisabled()) ==>
        && isShuffling && !isRevealed
        && drawSnapshot == availableNumbers
        && availableNumbers == old(availableNumbers)
        && excludedNumbers == old(excludedNumbers)
        && currentNumber == old(currentNumber)
        && pendingFinishes == old(pendingFinishes) + 1
    {
      if |availableNumbers| == 0 || isShuffling {
        return;
      }
      isRevealed := false;
      isShuffling := true;
      drawSnapshot := availableNumbers;
      pendingFinishes := pendingFinishes + 1;
    }

    /** One tick of the shuffle interval: shows the captured pool's number at the random
        index `idx`, which is a number still in the pool; nothing else changes. */
    method ShuffleTick(idx: int)
      requires Valid() && pendingFinishes > 0
      requires 0 <= idx < |drawSnapshot|
      modifies this`currentNumber
      ensures Valid()
      ensures currentNumber == Some(old(availableNumbers)[idx])
      ensures currentNumber.value in availableNumbers
    {
      assert drawSnapshot[idx] in availableNumbers;
      currentNumber := Some(drawSnapshot[idx]);
    }

    /** The shuffle's timeout: draws the captured pool's number at the random index `idx`,
        filters it out of the pool, appends it to the excluded numbers, shows it and ends the
        shuffle. Because the snapshot is the live pool, the number drawn is the live pool's
        element at `idx`, and exactly that position leaves the pool. */
    method FinishDraw(idx: int)
      requires Valid() && pendingFinishes > 0
      requires 0 <= idx < |drawSnapshot|
      modifies this
      ensures Valid()
      ensures currentNumber == Some(old(availableNumbers)[idx])
      ensures currentNumber.value in old(availableNumbers)
      ensures currentNumber.value !in availableNumbers
      ensures availableNumbers == old(availableNumbers[..idx] + availableNumbers[idx + 1..])
      ensures |availableNumbers| == old(|availableNumbers|) - 1
      ensures excludedNumbers == old(excludedNumbers) + [currentNumber.value]
      ensures !isShuffling && isRevealed && pendingFinishes == old(pendingFinishes) - 1
    {
      var drawnNumber := drawSnapshot[idx];
      DrawPreservesPool(availableNumbers, excludedNumbers, idx);
      currentNumber := Some(drawnNumber);
      excludedNumbers := excludedNumbers + [drawnNumber];
      availableNumbers := Without(availableNumbers, drawnNumber);
      isShuffling := false;
      isRevealed := true;
      pendingFinishes := pendingFinishes - 1;
    }

    /** The reset handler: ignored while shuffling; otherwise restores the full pool, clears
        the excluded numbers and the shown number, and hides it. */
    method Reset()
      requires Valid()
      modifies this
      ensures Valid()
      ensures old(isShuffling) ==> unchanged(this)
      ensures !old(isShuffling) ==>
        && availableNumbers == InitialNumbers() && excludedNumbers == []
        && currentNumber == None && !isShuffling && !isRevealed
    {
      if isShuffling {
        return;
      }
      availableNumbers := InitialNumbers();
      currentNumber := None;
      excludedNumbers := [];
      isRevealed := false;
      InitialPoolInvariant();
    }

    /** The excluded numbers as displayed: an ascending copy, strictly increasing because no
        number is drawn twice; `excludedNumbers` itself keeps the draw order. */
    function ExcludedDisplay(): (r: seq<int>)
      reads this
      requires Valid()
      ensures Increasing(r)
      ensures multiset(r) == multiset(excludedNumbers)
    {
      SortDistinct(excludedNumbers);
      SortAscending(excludedNumbers)
    }
  }

  /** The "all drawn" message shows exactly when the excluded display is the whole of 1..66
      and no shuffle is running. */
  lemma AllDrawnShownIffDisplayComplete(w: NumberShuffler)
    requires w.Valid()
    ensures w.AllDrawnShown() <==> !w.isShuffling && w.ExcludedDisplay() == InitialNumbers()
  {
    assert |w.ExcludedDisplay()| == |multiset(w.excludedNumbers)| == |w.excludedNumbers|;
    if w.AllDrawnShown() {
      AllDrawnSortedIsInitial(w.excludedNumbers);
    }
  }
}
