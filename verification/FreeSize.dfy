/** Choosing which data files still fit into a trace file
    (ide/src/trace/SpApplication.ts:1386-1411, used at 1338-1352). Sizes are integers. */
module FreeSize {

  /** A choice of files: strictly increasing indices, none below from. */
  ghost predicate Selection(numbers: seq<int>, from: nat, sel: seq<nat>) {
    && (forall k :: 0 <= k < |sel| ==> from <= sel[k] < |numbers|)
    && (forall j, k :: 0 <= j < k < |sel| ==> sel[j] < sel[k])
  }

  function Sum(numbers: seq<int>, sel: seq<nat>): (r: int)
    requires forall k :: 0 <= k < |sel| ==> sel[k] < |numbers|
  {
    if sel == [] then 0 else Sum(numbers, sel[..|sel| - 1]) + numbers[sel[|sel| - 1]]
  }

  function Distance(a: int, b: int): (r: int) {
    if a < b then b - a else a - b
  }

  /** reBackFind from an index on, with the current choice and the best one so far: the best one
      after trying every continuation, taking the file first. */
  function Search(numbers: seq<int>, freeSize: int, index: nat, size: int, sel: seq<nat>, best: (int, seq<nat>)): (r: (int, seq<nat>))
    requires index <= |numbers|
    decreases |numbers| - index
  {
    if index == |numbers| then
      if size <= freeSize && Distance(size, freeSize) < Distance(best.0, freeSize) then (size, sel) else best
    else
      var taken := Search(numbers, freeSize, index + 1, size + numbers[index], sel + [index], best);
      Search(numbers, freeSize, index + 1, size, sel, taken)
  }

  /** The best choice so far is one, and fits. */
  ghost predicate Feasible(numbers: seq<int>, freeSize: int, best: (int, seq<nat>)) {
    Selection(numbers, 0, best.1) && best.0 == Sum(numbers, best.1) && best.0 <= freeSize
  }

  /** The choice made below an index. */
  ghost predicate Partial(numbers: seq<int>, index: nat, size: int, sel: seq<nat>) {
    && Selection(numbers, 0, sel) && size == Sum(numbers, sel)
    && forall k :: 0 <= k < |sel| ==> sel[k] < index
  }

  lemma TakeNext(numbers: seq<int>, index: nat, size: int, sel: seq<nat>)
    requires Partial(numbers, index, size, sel) && index < |numbers|
    ensures Partial(numbers, index + 1, size + numbers[index], sel + [index])
  {
    assert (sel + [index])[..|sel|] == sel;
  }

  lemma SkipNext(numbers: seq<int>, index: nat, size: int, sel: seq<nat>)
    requires Partial(numbers, index, size, sel)
    ensures Partial(numbers, index + 1, size, sel)
  {
  }

  /** A choice from an index on either takes the index first or starts after it. */
  lemma {:induction false} SplitSelection(numbers: seq<int>, index: nat, sel: seq<nat>)
    requires Selection(numbers, index, sel)
    ensures if sel != [] && sel[0] == index
            then Selection(numbers, index + 1, sel[1..]) && Sum(numbers, sel) == numbers[index] + Sum(numbers, sel[1..])
            else Selection(numbers, index + 1, sel)
  {
    if sel != [] && sel[0] == index {
      SumSplit(numbers, sel);
    }
  }

  lemma LeafFeasible(numbers: seq<int>, freeSize: int, size: int, sel: seq<nat>, best: (int, seq<nat>))
    requires Partial(numbers, |numbers|, size, sel) && Feasible(numbers, freeSize, best)
    ensures size <= freeSize ==> Feasible(numbers, freeSize, (size, sel))
    ensures size <= freeSize && Distance(size, freeSize) < Distance(best.0, freeSize) ==> best.0 <= size
  {
  }

  /** The search keeps a feasible choice and does not lose ground. */
  lemma {:induction false} SearchFeasible(numbers: seq<int>, freeSize: int, index: nat, size: int, sel: seq<nat>, best: (int, seq<nat>))
    requires index <= |numbers| && Partial(numbers, index, size, sel) && Feasible(numbers, freeSize, best)
    ensures var r := Search(numbers, freeSize, index, size, sel, best);
            Feasible(numbers, freeSize, r) && best.0 <= r.0
    decreases |numbers| - index
  {
    hide Partial, Feasible;
    if index == |numbers| {
      LeafFeasible(numbers, freeSize, size, sel, best);
    } else {
      TakeNext(numbers, index, size, sel);
      SkipNext(numbers, index, size, sel);
      SearchFeasible(numbers, freeSize, index + 1, size + numbers[index], sel + [index], best);
      var taken := Search(numbers, freeSize, index + 1, size + numbers[index], sel + [index], best);
      SearchFeasible(numbers, freeSize, index + 1, size, sel, taken);
    }
  }

  lemma {:induction false} SumSplit(numbers: seq<int>, sel: seq<nat>)
    requires sel != [] && forall k :: 0 <= k < |sel| ==> sel[k] < |numbers|
    ensures Sum(numbers, sel) == numbers[sel[0]] + Sum(numbers, sel[1..])
  {
    var n := |sel| - 1;
    if n > 0 {
      SumSplit(numbers, sel[..n]);
      assert sel[..n][1..] == sel[1..][..n - 1];
    }
  }

  /** No continuation that fits is better than what the search returns. */
  lemma {:induction false} SearchBest(numbers: seq<int>, freeSize: int, index: nat, size: int, sel: seq<nat>, best: (int, seq<nat>), more: seq<nat>)
    requires index <= |numbers| && Partial(numbers, index, size, sel) && Feasible(numbers, freeSize, best)
    requires Selection(numbers, index, more) && size + Sum(numbers, more) <= freeSize
    ensures size + Sum(numbers, more) <= Search(numbers, freeSize, index, size, sel, best).0
    decreases |numbers| - index
  {
    hide Partial, Feasible, Distance;
    if index == |numbers| {
      assert more == [];
      LeafBest(numbers, freeSize, size, sel, best);
    } else {
      var m := index + 1;
      SplitSelection(numbers, index, more);
      TakeNext(numbers, index, size, sel);
      SkipNext(numbers, index, size, sel);
      var taken := Search(numbers, freeSize, m, size + numbers[index], sel + [index], best);
      SearchFeasible(numbers, freeSize, m, size + numbers[index], sel + [index], best);
      if more != [] && more[0] == index {
        SearchBest(numbers, freeSize, m, size + numbers[index], sel + [index], best, more[1..]);
        SearchFeasible(numbers, freeSize, m, size, sel, taken);
      } else {
        SearchBest(numbers, freeSize, m, size, sel, taken, more);
      }
    }
  }

  lemma {:induction false} LeafBest(numbers: seq<int>, freeSize: int, size: int, sel: seq<nat>, best: (int, seq<nat>))
    requires Feasible(numbers, freeSize, best) && size <= freeSize
    ensures size <= Search(numbers, freeSize, |numbers|, size, sel, best).0
  {
  }

  // ---------------------------------------------------------------------------
  // Which of the best choices
  // ---------------------------------------------------------------------------

  /** At the first file on which the two differ, the first takes it. */
  ghost predicate Precedes(a: seq<nat>, b: seq<nat>) {
    exists k :: 0 <= k < |a| && k <= |b| && a[..k] == b[..k] && (k == |b| || a[k] < b[k])
  }

  /** Nothing that fits and is as large comes before the best choice, unless the choice is the empty
      one that the search starts with. */
  ghost predicate FirstBest(numbers: seq<int>, best: (int, seq<nat>), sel: seq<nat>)
    requires Selection(numbers, 0, sel)
  {
    best.1 == sel || Sum(numbers, sel) < best.0 || Precedes(best.1, sel) || best == (0, [])
  }

  lemma TakesFirst(sel: seq<nat>, index: nat, a: seq<nat>, b: seq<nat>)
    requires forall k :: 0 <= k < |b| ==> index < b[k]
    ensures Precedes(sel + [index] + a, sel + b)
  {
    var k, x, y := |sel|, sel + [index] + a, sel + b;
    assert x[..k] == sel == y[..k];
    assert x[k] == index;
    assert k < |y| ==> y[k] == b[0];
  }

  /** What the search returns continues the current choice, or is the best one so far. */
  lemma {:induction false} SearchContinues(numbers: seq<int>, freeSize: int, index: nat, size: int, sel: seq<nat>, best: (int, seq<nat>))
    requires index <= |numbers|
    ensures var r := Search(numbers, freeSize, index, size, sel, best);
            r == best || (Distance(r.0, freeSize) < Distance(best.0, freeSize) && sel <= r.1)
    decreases |numbers| - index
  {
    if index < |numbers| {
      SearchContinues(numbers, freeSize, index + 1, size + numbers[index], sel + [index], best);
      var taken := Search(numbers, freeSize, index + 1, size + numbers[index], sel + [index], best);
      SearchContinues(numbers, freeSize, index + 1, size, sel, taken);
    }
  }

  /** Every continuation that fits and is as large as the result comes after it, if the result is new. */
  lemma {:induction false} SearchFirst(numbers: seq<int>, freeSize: int, index: nat, size: int, sel: seq<nat>, best: (int, seq<nat>), more: seq<nat>)
    requires index <= |numbers| && Partial(numbers, index, size, sel) && Feasible(numbers, freeSize, best)
    requires Selection(numbers, index, more) && size + Sum(numbers, more) <= freeSize
    ensures var r := Search(numbers, freeSize, index, size, sel, best);
            r == best || size + Sum(numbers, more) < r.0 || r.1 == sel + more || Precedes(r.1, sel + more)
    decreases |numbers| - index
  {
    hide Partial, Feasible, Distance, Precedes;
    var r := Search(numbers, freeSize, index, size, sel, best);
    if index == |numbers| {
      assert more == [] && sel + more == sel;
    } else {
      var m := index + 1;
      SplitSelection(numbers, index, more);
      TakeNext(numbers, index, size, sel);
      SkipNext(numbers, index, size, sel);
      var bigger, longer := size + numbers[index], sel + [index];
      var taken := Search(numbers, freeSize, m, bigger, longer, best);
      SearchFeasible(numbers, freeSize, m, bigger, longer, best);
      SearchContinues(numbers, freeSize, m, bigger, longer, best);
      SearchContinues(numbers, freeSize, m, size, sel, taken);
      FartherIsSmaller(numbers, freeSize, index, size, sel, taken);
      if more != [] && more[0] == index {
        assert sel + more == longer + more[1..];
        SearchFirst(numbers, freeSize, m, bigger, longer, best, more[1..]);
        SearchBest(numbers, freeSize, m, bigger, longer, best, more[1..]);
      } else {
        SearchFirst(numbers, freeSize, m, size, sel, taken, more);
        if r == taken && taken != best {
          var a := taken.1[|longer|..];
          assert taken.1 == sel + [index] + a;
          TakesFirst(sel, index, a, more);
        }
      }
    }
  }

  /** A result of the second half that is new is strictly larger than that of the first. */
  lemma {:induction false} FartherIsSmaller(numbers: seq<int>, freeSize: int, index: nat, size: int, sel: seq<nat>, taken: (int, seq<nat>))
    requires index < |numbers| && Partial(numbers, index, size, sel) && Feasible(numbers, freeSize, taken)
    ensures var r := Search(numbers, freeSize, index + 1, size, sel, taken);
            r == taken || taken.0 < r.0
  {
    SkipNext(numbers, index, size, sel);
    SearchFeasible(numbers, freeSize, index + 1, size, sel, taken);
    SearchContinues(numbers, freeSize, index + 1, size, sel, taken);
  }

  /** Among the largest choices the search finds the one that takes the earlier files, and the empty
      one if nothing larger fits. */
  lemma {:induction false} FoundFirst(numbers: seq<int>, freeSize: int, sel: seq<nat>)
    requires freeSize >= 0 && Selection(numbers, 0, sel) && Sum(numbers, sel) <= freeSize
    ensures FirstBest(numbers, Search(numbers, freeSize, 0, 0, [], (0, [])), sel)
  {
    SearchFirst(numbers, freeSize, 0, 0, [], (0, []), sel);
    assert [] + sel == sel;
  }

  /** The search as it runs on its captured variables. */
  class Finder {
    const numbers: seq<int>
    const freeSize: int
    var closestSize: int
    var currentSize: int
    var finalIndex: seq<nat>
    var currentSelectIndex: seq<nat>

    constructor (numbers: seq<int>, freeSize: int)
      ensures this.numbers == numbers && this.freeSize == freeSize
      ensures closestSize == currentSize == 0 && finalIndex == currentSelectIndex == []
    {
      this.numbers, this.freeSize := numbers, freeSize;
      closestSize, currentSize, finalIndex, currentSelectIndex := 0, 0, [], [];
    }

    /** Each call restores the current size and choice. */
    method ReBackFind(index: nat)
      requires index <= |numbers|
      modifies this
      ensures currentSize == old(currentSize) && currentSelectIndex == old(currentSelectIndex)
      ensures (closestSize, finalIndex) ==
              Search(numbers, freeSize, index, old(currentSize), old(currentSelectIndex), (old(closestSize), old(finalIndex)))
      decreases |numbers| - index
    {
      if index == |numbers| {
        var sumDifference := Distance(currentSize, freeSize);
        if currentSize <= freeSize && sumDifference < Distance(closestSize, freeSize) {
          closestSize := currentSize;
          finalIndex := currentSelectIndex;
        }
        return;
      }
      currentSize := currentSize + numbers[index];
      currentSelectIndex := currentSelectIndex + [index];
      ReBackFind(index + 1);
      currentSize := currentSize - numbers[index];
      currentSelectIndex := currentSelectIndex[..|currentSelectIndex| - 1];
      ReBackFind(index + 1);
    }
  }

  /** The result is a choice that fits, and no choice that fits is larger. */
  method FindFreeSizeAlgorithm(numbers: seq<int>, freeSize: int) returns (r: seq<nat>)
    requires freeSize >= 0
    ensures Selection(numbers, 0, r) && Sum(numbers, r) <= freeSize
    ensures forall sel :: Selection(numbers, 0, sel) && Sum(numbers, sel) <= freeSize ==>
              Sum(numbers, sel) <= Sum(numbers, r) && FirstBest(numbers, (Sum(numbers, r), r), sel)
  {
    var finder := new Finder(numbers, freeSize);
    finder.ReBackFind(0);
    r := finder.finalIndex;
    SearchFeasible(numbers, freeSize, 0, 0, [], (0, []));
    forall sel | Selection(numbers, 0, sel) && Sum(numbers, sel) <= freeSize 
      ensures Sum(numbers, sel) <= Sum(numbers, r) && FirstBest(numbers, (Sum(numbers, r), r), sel)
    {
      SearchBest(numbers, freeSize, 0, 0, [], (0, []), sel);
      FoundFirst(numbers, freeSize, sel);
    }
  }
}
