/** The greedy solver of class numeric::subset (LeastNumberSolve) as a function of the
    value-to-count map: from the largest denomination down, take as many copies as fit in
    what is still to be filled and the count allows, stop once a take fills it, and give the
    answer up unless it adds up to the target. */
module SubsetGreedy {
  import opened SeqUtil
  import opened TruncArith
  import opened SubsetInventory

  /** Denominations in ascending order, all positive map keys with positive counts. */
  predicate GreedyKeys(m: map<int, int>, keys: seq<int>)
  {
    StrictlyAscending(keys) && forall j :: 0 <= j < |keys| ==> keys[j] in m && keys[j] > 0 && m[keys[j]] > 0
  }

  lemma GreedyKeysOf(m: map<int, int>)
    requires ValidInventory(m)
    ensures GreedyKeys(m, Ascending(m.Keys))
  {
    KeysInOrder(m);
  }

  /** A running total at least v holds at least one copy of v. */
  lemma DesiredAtLeastOne(running: int, v: int)
    requires v > 0 && running >= v
    ensures TruncDiv(running, v) >= 1
  {
    TruncDivMod(running, v);
  }

  /** The copies of v taken at a running total of at least v: the C++ quotient, capped at
      the count available. */
  function Retrieved(m: map<int, int>, v: int, running: int): (r: int)
    requires v in m && v > 0 && m[v] > 0 && running >= v
    ensures 1 <= r <= m[v] && r <= TruncDiv(running, v)
  {
    DesiredAtLeastOne(running, v);
    var desired := TruncDiv(running, v);
    if desired > m[v] then m[v] else desired
  }

  /** The walk over keys[..i], largest first, with `running` still to be filled and `acc`
      taken so far. A take whose C++ remainder against the running total is zero fills it
      and ends the walk; otherwise the remainder, which is the amount taken, is subtracted. */
  function GreedyWalk(m: map<int, int>, keys: seq<int>, i: nat, running: int, acc: seq<int>): seq<int>
    requires GreedyKeys(m, keys) && i <= |keys|
    decreases i
  {
    if i == 0 then acc
    else
      var v := keys[i - 1];
      if running < v then GreedyWalk(m, keys, i - 1, running, acc)
      else
        var r := Retrieved(m, v, running);
        var rem := TruncMod(r * v, running);
        if rem != 0 then GreedyWalk(m, keys, i - 1, running - rem, Repeat(v, r) + acc)
        else Repeat(v, r) + acc
  }

  /** subset::LeastNumberSolve: the walk over all denominations from the target, kept only
      if it adds up to the target. */
  function LeastNumber(m: map<int, int>, target: int): seq<int>
    requires ValidInventory(m)
  {
    GreedyKeysOf(m);
    var keys := Ascending(m.Keys);
    var w := GreedyWalk(m, keys, |keys|, target, []);
    if Sum(w) != target then [] else w
  }

  /** One greedy step from a positive running total: the copies taken fit in it, and the
      C++ remainder test tells whether they fill it exactly. */
  lemma GreedyStep(runningTotal: int, v: int, retrieved: int)
    requires v > 0 && runningTotal >= v
    requires 1 <= retrieved <= TruncDiv(runningTotal, v)
    ensures 0 < retrieved * v <= runningTotal
    ensures retrieved * v < runningTotal ==> TruncMod(retrieved * v, runningTotal) == retrieved * v
    ensures retrieved * v == runningTotal ==> TruncMod(retrieved * v, runningTotal) == 0
  {
    QuotientFits(retrieved, runningTotal, v);
    MulAtLeast(retrieved, v);
    var a := retrieved * v;
    TruncDivMod(a, runningTotal);
    if a < runningTotal {
      DivUnique(a, runningTotal, 0, a);
    } else {
      DivUnique(a, runningTotal, 1, 0);
    }
  }

  /** Whether the walk over keys[..i] from `running` ends at a take that fills it (the
      source's `break`) rather than by running out of denominations. */
  predicate GreedyFills(m: map<int, int>, keys: seq<int>, i: nat, running: int)
    requires GreedyKeys(m, keys) && i <= |keys|
    decreases i
  {
    if i == 0 then false
    else
      var v := keys[i - 1];
      if running < v then GreedyFills(m, keys, i - 1, running)
      else
        var rem := TruncMod(Retrieved(m, v, running) * v, running);
        rem == 0 || GreedyFills(m, keys, i - 1, running - rem)
  }

  /** What the walk leaves unfilled of `running`: the running total it ends with, or
      nothing after a take that fills it. */
  function GreedyLeft(m: map<int, int>, keys: seq<int>, i: nat, running: int): int
    requires GreedyKeys(m, keys) && i <= |keys|
    decreases i
  {
    if i == 0 then running
    else
      var v := keys[i - 1];
      if running < v then GreedyLeft(m, keys, i - 1, running)
      else
        var rem := TruncMod(Retrieved(m, v, running) * v, running);
        if rem != 0 then GreedyLeft(m, keys, i - 1, running - rem) else 0
  }

  /** The invariant of the LeastNumberSolve loop, `running_total + sum(ret_vector)` stays
      the target: what the walk adds to `acc` is what it takes off `running`. From a
      positive total the walk leaves a positive amount unless it ends at the `break`, so
      its answer adds up to the total exactly when it ends there. */
  lemma {:induction false} GreedyWalkTotal(m: map<int, int>, keys: seq<int>, i: nat, running: int, acc: seq<int>)
    requires GreedyKeys(m, keys) && i <= |keys|
    ensures Sum(GreedyWalk(m, keys, i, running, acc)) + GreedyLeft(m, keys, i, running) == running + Sum(acc)
    ensures running > 0 ==> GreedyLeft(m, keys, i, running) >= 0
    ensures running > 0 ==> (GreedyLeft(m, keys, i, running) == 0 <==> GreedyFills(m, keys, i, running))
    ensures running <= 0 ==> !GreedyFills(m, keys, i, running) && GreedyLeft(m, keys, i, running) == running
    decreases i
  {
    if i > 0 {
      var v := keys[i - 1];
      if running < v {
        GreedyWalkTotal(m, keys, i - 1, running, acc);
      } else {
        var r := Retrieved(m, v, running);
        var rem := TruncMod(r * v, running);
        GreedyStep(running, v, r);
        RepeatSum(v, r);
        SumAppend(Repeat(v, r), acc);
        if rem != 0 {
          GreedyWalkTotal(m, keys, i - 1, running - rem, Repeat(v, r) + acc);
        }
      }
    }
  }

  /** From a total that is not positive the walk takes nothing. */
  lemma {:induction false} GreedyWalkIdle(m: map<int, int>, keys: seq<int>, i: nat, running: int, acc: seq<int>)
    requires GreedyKeys(m, keys) && i <= |keys| && running <= 0
    ensures GreedyWalk(m, keys, i, running, acc) == acc
    decreases i
  {
    if i > 0 {
      GreedyWalkIdle(m, keys, i - 1, running, acc);
    }
  }

  /** Every element of `acc` is a denomination larger than keys[..i]. */
  predicate Above(acc: seq<int>, m: map<int, int>, keys: seq<int>, i: nat)
    requires i <= |keys|
  {
    forall x :: x in acc ==> x in m && (0 < i ==> keys[i - 1] < x)
  }

  /** Prepending the copies of keys[i] to an answer built from larger keys keeps it above
      keys[..i] ... */
  lemma TakeFrontAbove(ret: seq<int>, keys: seq<int>, i: nat, r: nat, m: map<int, int>)
    requires StrictlyAscending(keys) && i < |keys| && keys[i] in m
    requires Above(ret, m, keys, i + 1)
    ensures Above(Repeat(keys[i], r) + ret, m, keys, i)
  {
    var a := Repeat(keys[i], r);
    forall x | x in a + ret ensures x in m && (0 < i ==> keys[i - 1] < x) {
      if x in a {
        assert x == keys[i];
      }
    }
  }

  /** ... and, the answer sorted, keeps it sorted. */
  lemma TakeFrontOrder(ret: seq<int>, keys: seq<int>, i: nat, r: nat, m: map<int, int>)
    requires StrictlyAscending(keys) && i < |keys| && keys[i] in m
    requires Sorted(ret) && Above(ret, m, keys, i + 1)
    ensures Sorted(Repeat(keys[i], r) + ret)
    ensures Above(Repeat(keys[i], r) + ret, m, keys, i)
  {
    var a := Repeat(keys[i], r);
    forall p, q | 0 <= p < |a| && 0 <= q < |ret| ensures a[p] <= ret[q] {
      assert ret[q] in ret;
    }
    SortedAppend(a, ret);
    TakeFrontAbove(ret, keys, i, r, m);
  }

  /** ... and within the count of each denomination x, keys[i] being absent from it. */
  lemma TakeFrontCounts(ret: seq<int>, keys: seq<int>, i: nat, r: nat, m: map<int, int>, x: int)
    requires i < |keys| && keys[i] in m && r <= m[keys[i]] && x in m
    requires Above(ret, m, keys, i + 1)
    requires multiset(ret)[x] <= m[x]
    ensures multiset(Repeat(keys[i], r) + ret)[x] <= m[x]
  {
    var a := Repeat(keys[i], r);
    assert keys[i] !in ret;
    RepeatCopies(keys[i], r);
    assert multiset(a + ret) == multiset(a) + multiset(ret);
  }

  /** The walk keeps the answer sorted and made of denominations. */
  lemma {:induction false} GreedyWalkSorted(m: map<int, int>, keys: seq<int>, i: nat, running: int, acc: seq<int>)
    requires GreedyKeys(m, keys) && i <= |keys|
    requires Sorted(acc) && Above(acc, m, keys, i)
    ensures Sorted(GreedyWalk(m, keys, i, running, acc))
    ensures forall x :: x in GreedyWalk(m, keys, i, running, acc) ==> x in m
    decreases i
  {
    if i > 0 {
      var v := keys[i - 1];
      if running < v {
        assert GreedyWalk(m, keys, i, running, acc) == GreedyWalk(m, keys, i - 1, running, acc);
        if i > 1 {
          assert keys[i - 2] < keys[i - 1];
        }
        GreedyWalkSorted(m, keys, i - 1, running, acc);
      } else {
        var r := Retrieved(m, v, running);
        var taken := Repeat(v, r) + acc;
        TakeFrontOrder(acc, keys, i - 1, r, m);
        var rem := TruncMod(r * v, running);
        if rem != 0 {
          assert GreedyWalk(m, keys, i, running, acc) == GreedyWalk(m, keys, i - 1, running - rem, taken);
          GreedyWalkSorted(m, keys, i - 1, running - rem, taken);
        } else {
          assert GreedyWalk(m, keys, i, running, acc) == taken;
        }
      }
    }
  }

  /** The walk uses no denomination more often than its count. */
  lemma {:induction false} GreedyWalkCounts(m: map<int, int>, keys: seq<int>, i: nat, running: int,
                                            acc: seq<int>, x: int)
    requires GreedyKeys(m, keys) && i <= |keys| && x in m
    requires Above(acc, m, keys, i)
    requires multiset(acc)[x] <= m[x]
    ensures multiset(GreedyWalk(m, keys, i, running, acc))[x] <= m[x]
    decreases i
  {
    if i > 0 {
      var v := keys[i - 1];
      if running < v {
        assert GreedyWalk(m, keys, i, running, acc) == GreedyWalk(m, keys, i - 1, running, acc);
        if i > 1 {
          assert keys[i - 2] < keys[i - 1];
        }
        GreedyWalkCounts(m, keys, i - 1, running, acc, x);
      } else {
        var r := Retrieved(m, v, running);
        var taken := Repeat(v, r) + acc;
        TakeFrontCounts(acc, keys, i - 1, r, m, x);
        var rem := TruncMod(r * v, running);
        if rem != 0 {
          TakeFrontAbove(acc, keys, i - 1, r, m);
          assert GreedyWalk(m, keys, i, running, acc) == GreedyWalk(m, keys, i - 1, running - rem, taken);
          GreedyWalkCounts(m, keys, i - 1, running - rem, taken, x);
        } else {
          assert GreedyWalk(m, keys, i, running, acc) == taken;
        }
      }
    }
  }

  /** The loop of subset::LeastNumberSolve over the value map in reverse (descending) key
      order, with the final check of the sum against the target. */
  method GreedySolve(m: map<int, int>, target: int) returns (retVector: seq<int>)
    requires ValidInventory(m)
    ensures retVector == LeastNumber(m, target)
  {
    GreedyKeysOf(m);
    var keys := Ascending(m.Keys);
    ghost var walk := GreedyWalk(m, keys, |keys|, target, []);
    retVector := [];
    var runningTotal := target;
    var i := |keys|;
    while i > 0
      invariant 0 <= i <= |keys|
      invariant GreedyWalk(m, keys, i, runningTotal, retVector) == walk
      invariant runningTotal + Sum(retVector) == target
    {
      var v := keys[i - 1];
      if runningTotal >= v {
        var desiredCount := TruncDiv(runningTotal, v);
        var retrievedCount := if desiredCount > m[v] then m[v] else desiredCount;
        assert retrievedCount == Retrieved(m, v, runningTotal);
        GreedyStep(runningTotal, v, retrievedCount);
        RepeatSum(v, retrievedCount);
        SumAppend(Repeat(v, retrievedCount), retVector);
        if TruncMod(retrievedCount * v, runningTotal) != 0 {
          runningTotal := runningTotal - TruncMod(retrievedCount * v, runningTotal);
        } else {
          if retrievedCount > 0 {
            retVector := Repeat(v, retrievedCount) + retVector;
          }
          break;
        }
        if retrievedCount > 0 {
          retVector := Repeat(v, retrievedCount) + retVector;
        }
      }
      i := i - 1;
    }
    assert retVector == walk;
    if Sum(retVector) != target {
      retVector := [];
    }
  }

  /** What LeastNumberSolve promises: empty or exactly the target, in non-decreasing order,
      made of denominations, no denomination used more often than its count; nothing for a
      target that is not positive. */
  lemma LeastNumberProperties(m: map<int, int>, target: int)
    requires ValidInventory(m)
    ensures var r := LeastNumber(m, target);
            (r == [] || Sum(r) == target) && Sorted(r) &&
            (forall x :: x in r ==> x in m) &&
            (forall x :: x in m ==> multiset(r)[x] <= m[x]) &&
            (target <= 0 ==> r == [])
  {
    GreedyKeysOf(m);
    var keys := Ascending(m.Keys);
    GreedyWalkSorted(m, keys, |keys|, target, []);
    forall x | x in m ensures multiset(GreedyWalk(m, keys, |keys|, target, []))[x] <= m[x] {
      GreedyWalkCounts(m, keys, |keys|, target, [], x);
    }
    if target <= 0 {
      GreedyWalkIdle(m, keys, |keys|, target, []);
    }
  }

  /** LeastNumberSolve answers exactly when its walk ends at the `break`; every other walk
      falls short of the target and is given up. */
  lemma LeastNumberExact(m: map<int, int>, target: int)
    requires ValidInventory(m)
    ensures GreedyKeys(m, Ascending(m.Keys))
    ensures LeastNumber(m, target) != [] <==> GreedyFills(m, Ascending(m.Keys), |m.Keys|, target)
    ensures LeastNumber(m, target) != [] ==> Sum(LeastNumber(m, target)) == target
  {
    GreedyKeysOf(m);
    var keys := Ascending(m.Keys);
    GreedyWalkTotal(m, keys, |keys|, target, []);
    if target <= 0 {
      GreedyWalkIdle(m, keys, |keys|, target, []);
    }
  }
}
