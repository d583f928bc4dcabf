/** The subset solver (class numeric::subset): built from a value-to-count map, it prunes
    the empty counts, lays the copies out in a master dispenser, computes the block
    definition and carves the dispenser into whole and partial blocks; it then answers
    target queries greedily (LeastNumberSolve) or by exhaustive search over one block
    (AnilaoSolve). */
module Subsets {
  import opened Wrappers
  import opened SeqUtil
  import opened TruncArith
  import opened SubsetDefinition
  import opened SubsetInventory
  import opened SubsetBlocks
  import opened SubsetGreedy

  /** Why construction or a block builder gives up (the source throws std::exception). */
  datatype SubsetError = EmptyInventory | DefinitionMismatch

  /** `b` is `output` followed by a subsequence of `rest`: what SubsetRecurse can record
      from a call with that output buffer and that unvisited tail of the block. */
  predicate Extends(b: seq<int>, output: seq<int>, rest: seq<int>)
  {
    |output| <= |b| && b[..|output|] == output && IsSubsequence(b[|output|..], rest)
  }

  /** The include/exclude split at one block element, in both directions. */
  lemma ExtendsCases(b: seq<int>, output: seq<int>, x: int, rest: seq<int>)
    ensures Extends(b, output, [x] + rest) <==> Extends(b, output + [x], rest) || Extends(b, output, rest)
  {
    var t := [x] + rest;
    assert t[1..] == rest;
    if Extends(b, output + [x], rest) {
      var s := b[|output|..];
      assert b[..|output|] == b[..|output| + 1][..|output|];
      assert s[0] == x && s[1..] == b[|output| + 1..];
    }
    if Extends(b, output, t) {
      var s := b[|output|..];
      if s != [] && s[0] == x && IsSubsequence(s[1..], rest) {
        assert b[..|output| + 1] == output + [x];
        assert s[1..] == b[|output| + 1..];
      }
    }
  }

  /** With nothing left to visit, only the output buffer itself extends the output. */
  lemma ExtendsNothing(b: seq<int>, output: seq<int>)
    ensures Extends(b, output, []) <==> b == output
  {
    if Extends(b, output, []) {
      assert b[|output|..] == [];
      assert b == b[..|output|] + b[|output|..];
    }
  }

  /** From the top of a block, the recordable sequences are its subsequences. */
  lemma ExtendsTop(b: seq<int>, block: seq<int>)
    ensures Extends(b, [], block) <==> IsSubsequence(b, block)
  {
    assert b[0..] == b;
  }

  /** The entries SubsetRecurse leaves in `result`, in the order it records them: depth
      first, the branch that includes numbers[index] before the one that skips it, and a
      completion summing to the target appended only when it is not recorded yet. */
  function Recorded(numbers: seq<int>, result: seq<seq<int>>, target: int, output: seq<int>,
                    index: nat): seq<seq<int>>
    requires index <= |numbers|
    decreases |numbers| - index
  {
    if index == |numbers| then
      if Sum(output) == target && output !in result then result + [output] else result
    else
      var included := Recorded(numbers, result, target, output + [numbers[index]], index + 1);
      Recorded(numbers, included, target, output, index + 1)
  }

  /** The position the largest-size scan of subset::AnilaoSolve stops at: an entry of the
      largest size, and the first of them, since the scan replaces only on a strictly larger
      size. */
  function Longest(result: seq<seq<int>>): (k: nat)
    requires |result| > 0
    ensures k < |result| && forall q :: 0 <= q < |result| ==> |result[q]| <= |result[k]|
    ensures forall q :: 0 <= q < k ==> |result[q]| < |result[k]|
  {
    if |result| == 1 then 0
    else
      var front := result[..|result| - 1];
      var k := Longest(front);
      assert forall q :: 0 <= q < |front| ==> front[q] == result[q];
      if |result[|result| - 1]| > |result[k]| then |result| - 1 else k
  }

  /** Only one position is both of the largest size and the first of that size. */
  lemma LongestUnique(result: seq<seq<int>>, k: nat)
    requires k < |result| && forall q :: 0 <= q < |result| ==> |result[q]| <= |result[k]|
    requires forall q :: 0 <= q < k ==> |result[q]| < |result[k]|
    ensures k == Longest(result)
  {
    var l := Longest(result);
  }

  /** subset::SubsetRecurse: include/exclude search over numbers[index..] that records
      every completion of `output` whose sum is `target` and that is not yet recorded.
      The `sum` parameter is carried along but never read, as in the source. */
  method SubsetRecurse(numbers: seq<int>, result: seq<seq<int>>, target: int, output: seq<int>,
                       index: nat, sum: int) returns (result': seq<seq<int>>)
    requires index <= |numbers|
    requires NoDuplicates(result)
    ensures result' == Recorded(numbers, result, target, output, index)
    ensures |result| <= |result'| && result'[..|result|] == result
    ensures NoDuplicates(result')
    ensures forall b :: b in result' ==> b in result || (Sum(b) == target && Extends(b, output, numbers[index..]))
    ensures forall b :: Sum(b) == target && Extends(b, output, numbers[index..]) ==> b in result'
    decreases |numbers| - index
  {
    if index == |numbers| {
      forall b ensures Extends(b, output, numbers[index..]) <==> b == output {
        ExtendsNothing(b, output);
      }
      if Sum(output) == target && output !in result {
        result' := result + [output];
        assert result'[..|result|] == result;
      } else {
        result' := result;
        assert result'[..|result|] == result;
      }
      return;
    }
    var x := numbers[index];
    assert numbers[index..] == [x] + numbers[index + 1..];
    var p1 := output + [x];
    var r1 := SubsetRecurse(numbers, result, target, p1, index + 1, sum + x);
    result' := SubsetRecurse(numbers, r1, target, output, index + 1, sum);
    forall b ensures Extends(b, output, numbers[index..]) <==>
                     Extends(b, p1, numbers[index + 1..]) || Extends(b, output, numbers[index + 1..]) {
      ExtendsCases(b, output, x, numbers[index + 1..]);
    }
    assert result'[..|result|] == result'[..|r1|][..|result|];
    forall b | b in r1 ensures b in result' {
      var k :| 0 <= k < |r1| && r1[k] == b;
      assert result'[k] == result'[..|r1|][k];
    }
  }

  /** SubsetRecurse from the top of a block with an empty output buffer: it adds to
      `result` exactly the subsequences of the block that sum to the target and are not
      recorded yet. */
  method SearchBlock(block: seq<int>, result: seq<seq<int>>, target: int) returns (result': seq<seq<int>>)
    requires NoDuplicates(result)
    ensures result' == Recorded(block, result, target, [], 0)
    ensures NoDuplicates(result') && |result| <= |result'| && result'[..|result|] == result
    ensures forall b :: b in result ==> b in result'
    ensures forall b :: b in result' ==> b in result || (Sum(b) == target && IsSubsequence(b, block))
    ensures forall b :: IsSubsequence(b, block) && Sum(b) == target ==> b in result'
  {
    result' := SubsetRecurse(block, result, target, [], 0, 0);
    assert block[0..] == block;
    forall b ensures Extends(b, [], block) <==> IsSubsequence(b, block) {
      ExtendsTop(b, block);
    }
    forall b | b in result ensures b in result' {
      var k :| 0 <= k < |result| && result[k] == b;
      assert result'[k] == result'[..|result|][k];
    }
  }

  /** The largest-size scan of subset::AnilaoSolve: the first recorded entry of the
      largest size. */
  method LongestEntry(result: seq<seq<int>>) returns (largest: nat)
    requires |result| > 0
    ensures largest < |result| && forall q :: 0 <= q < |result| ==> |result[q]| <= |result[largest]|
    ensures forall q :: 0 <= q < largest ==> |result[q]| < |result[largest]|
    ensures largest == Longest(result)
  {
    largest := 0;
    for k := 0 to |result|
      invariant 0 <= largest < |result| && largest <= k
      invariant forall q :: 0 <= q < k ==> |result[q]| <= |result[largest]|
      invariant forall q :: 0 <= q < largest ==> |result[q]| < |result[largest]|
    {
      if |result[k]| > |result[largest]| {
        largest := k;
      }
    }
    LongestUnique(result, largest);
  }

  /** A non-empty set of positive values, in ascending order, is a denomination list. */
  lemma DenominationsOf(s: set<int>)
    requires s != {} && forall v :: v in s ==> v > 0
    ensures Denominations(Ascending(s))
  {
    AscendingFacts(s);
    var vals := Ascending(s);
    forall i | 0 <= i < |vals| ensures vals[i] > 0 {
      assert vals[i] in vals;
    }
  }

  /** The first loop of subset::Initialize: the keys, in map order, whose counts are not
      positive. */
  method EmptyCounts(m: map<int, int>) returns (toBeRemoved: seq<int>)
    ensures forall x :: x in toBeRemoved <==> x in m && m[x] <= 0
  {
    var keys := Ascending(m.Keys);
    KeysInOrder(m);
    toBeRemoved := [];
    for i := 0 to |keys|
      invariant forall x :: x in toBeRemoved ==> x in m && m[x] <= 0
      invariant forall j :: 0 <= j < i && m[keys[j]] <= 0 ==> keys[j] in toBeRemoved
    {
      if m[keys[i]] <= 0 {
        toBeRemoved := toBeRemoved + [keys[i]];
      }
    }
    forall x | x in m && m[x] <= 0 ensures x in toBeRemoved {
      KeyPosition(m, x);
      var j :| 0 <= j < |keys| && keys[j] == x;
    }
  }

  /** The second loop of subset::Initialize: std::map::erase of every collected key. */
  method EraseKeys(m: map<int, int>, keys: seq<int>) returns (pruned: map<int, int>)
    ensures forall x :: x in pruned <==> x in m && x !in keys
    ensures forall x :: x in pruned ==> pruned[x] == m[x]
  {
    pruned := m;
    for i := 0 to |keys|
      invariant forall x :: x in pruned <==> x in m && x !in keys[..i]
      invariant forall x :: x in pruned ==> pruned[x] == m[x]
    {
      assert keys[..i + 1] == keys[..i] + [keys[i]];
      pruned := pruned - {keys[i]};
    }
    assert keys[..|keys|] == keys;
  }

  /** The loop of subset::CalculateDefinition over the ascending denominations: each entry
      is the C++ quotient of the gap to the next denomination, rounded up when there is a
      remainder and raised to one when zero; the last entry is 1 and fixes the high end. */
  method DefinitionLoop(tempset: seq<int>) returns (localDefinition: seq<int>, high: int)
    requires Denominations(tempset)
    ensures localDefinition == Definition(tempset) && high == RangeHigh(tempset)
  {
    localDefinition, high := [], 0;
    DefinitionStep(tempset, 0, 0);
    assert tempset[0..] == tempset;
    var runningCount := 0;
    var n := |tempset|;
    var i := 0;
    while i != n
      invariant 0 <= i <= n
      invariant i < n ==> Denominations(tempset[i..])
      invariant i < n ==> localDefinition + DefinitionFrom(tempset[i..], runningCount) == Definition(tempset)
      invariant i < n ==> HighFrom(tempset[i..], runningCount) == RangeHigh(tempset)
      invariant i == n ==> localDefinition == Definition(tempset) && high == RangeHigh(tempset)
    {
      var v := tempset[i];
      if i + 1 == n {
        DefinitionStep(tempset, i, runningCount);
        // tempset.at(i + 1) throws: the last value gets 1 and fixes the high end.
        localDefinition := localDefinition + [1];
        high := v + runningCount;
      } else {
        var gap := tempset[i + 1] - runningCount;
        var entry;
        if TruncDiv(gap, v) == 0 {
          // A zero count is raised to one.
          entry := 1;
        } else if TruncDiv(gap, v) > 0 && TruncMod(gap, v) > 0 {
          entry := TruncDiv(gap, v) + 1;
        } else {
          entry := TruncDiv(gap, v);
        }
        RequirementCases(gap, v);
        assert entry == Requirement(gap, v);
        var next := runningCount + entry * v;
        DefinitionAdvance(tempset, i, runningCount, localDefinition, entry, next);
        runningCount := next;
        localDefinition := localDefinition + [entry];
      }
      i := i + 1;
    }
  }

  /** The state of an initialized solver: a valid inventory, its keys as the values, its
      dispenser, the definition and range of its keys, and the blocks carved from the
      dispenser (whole blocks first, partial blocks from what they leave). */
  ghost predicate Established(m: map<int, int>, values: set<int>, dispenser: seq<int>,
                              definition: seq<int>, low: int, high: int,
                              whole: seq<seq<int>>, partial: seq<seq<int>>)
  {
    ValidInventory(m) && values == m.Keys &&
    var vals := Ascending(values);
    Denominations(vals) &&
    dispenser == Dispenser(m) &&
    definition == Definition(vals) &&
    low == RangeLow(vals) && high == RangeHigh(vals) &&
    var w := Rounds(Carving([], dispenser), vals, definition, WholeRounds(m, definition), false);
    whole == w.blocks &&
    partial == Rounds(Carving([], w.rest), vals, definition, PartialRounds(m), true).blocks
  }

  /** Established, from its parts in the order Initialize produces them. */
  lemma EstablishedFrom(m: map<int, int>, values: set<int>, vals: seq<int>, dispenser: seq<int>,
                        definition: seq<int>, low: int, high: int,
                        whole: Carving, partial: Carving)
    requires ValidInventory(m) && values == m.Keys && vals == Ascending(values)
    requires Denominations(vals)
    requires dispenser == Dispenser(m)
    requires definition == Definition(vals)
    requires low == RangeLow(vals) && high == RangeHigh(vals)
    requires |definition| == |m|
    requires whole == Rounds(Carving([], dispenser), vals, definition, WholeRounds(m, definition), false)
    requires partial == Rounds(Carving([], whole.rest), vals, definition, PartialRounds(m), true)
    ensures Established(m, values, dispenser, definition, low, high, whole.blocks, partial.blocks)
  {
  }

  /** Erasing the keys EmptyCounts collects is Prune. */
  lemma PrunedBy(m: map<int, int>, toBeRemoved: seq<int>, pruned: map<int, int>)
    requires forall x :: x in toBeRemoved <==> x in m && m[x] <= 0
    requires forall x :: x in pruned <==> x in m && x !in toBeRemoved
    requires forall x :: x in pruned ==> pruned[x] == m[x]
    ensures pruned == Prune(m)
  {
    var p := Prune(m);
    forall x ensures x in pruned <==> x in p {
      if x in m {
        assert x in p <==> m[x] > 0;
      }
    }
    assert pruned.Keys == p.Keys;
    forall x | x in p ensures pruned[x] == p[x] {
    }
  }

  /** subset::CalculateDefinition: one entry per denomination, ascending, from a running
      count; low is the smallest denomination and high the running count plus the
      largest. `low0` and `high0` are what the reference parameters hold on entry: with
      no values the source leaves them untouched. */
  method CalculateDefinition(values: set<int>, low0: int, high0: int)
      returns (localDefinition: seq<int>, low: int, high: int)
    requires forall v :: v in values ==> v > 0
    ensures values == {} ==> localDefinition == [] && low == low0 && high == high0
    ensures values != {} ==>
              Denominations(Ascending(values)) && localDefinition == Definition(Ascending(values)) &&
              low == RangeLow(Ascending(values)) && high == RangeHigh(Ascending(values))
  {
    var tempset := Ascending(values);
    low, high := low0, high0;
    localDefinition := [];
    if values == {} {
      return;
    }
    DenominationsOf(values);
    // std::min_element over a std::set is its first element.
    low := tempset[0];
    localDefinition, high := DefinitionLoop(tempset);
  }

  /** The state of the lowest-weight loop after `index` positions: `lowest` holds the
      smallest weight so far, and every earlier position a strictly larger one. */
  predicate LowestSoFar(m: map<int, int>, vals: seq<int>, defs: seq<int>, index: nat, lowest: nat)
    requires |vals| == |defs| && index <= |vals|
    requires forall j :: 0 <= j < |vals| ==> vals[j] in m && defs[j] != 0
  {
    lowest < |vals| && lowest <= index && (index == 0 ==> lowest == 0) &&
    (index > 0 ==> TruncDiv(m[vals[lowest]], defs[lowest]) == MinWeight(m, vals[..index], defs[..index])) &&
    forall q :: 0 <= q < lowest ==> TruncDiv(m[vals[q]], defs[q]) > TruncDiv(m[vals[lowest]], defs[lowest])
  }

  /** One step of the lowest-weight loop: moving to `index` on a strictly smaller weight. */
  lemma LowestStep(m: map<int, int>, vals: seq<int>, defs: seq<int>, index: nat, lowest: nat)
    requires |vals| == |defs| && index < |vals|
    requires forall j :: 0 <= j < |vals| ==> vals[j] in m && defs[j] != 0
    requires LowestSoFar(m, vals, defs, index, lowest)
    ensures LowestSoFar(m, vals, defs, index + 1,
                        if TruncDiv(m[vals[index]], defs[index]) < TruncDiv(m[vals[lowest]], defs[lowest])
                        then index else lowest)
  {
    if index > 0 {
      assert vals[..index + 1][..index] == vals[..index];
      assert defs[..index + 1][..index] == defs[..index];
      assert forall q :: 0 <= q < index ==> vals[..index][q] == vals[q] && defs[..index][q] == defs[q];
    }
  }

  /** The lowest-weight loop of subset::CalculateWholeBlocks: the first position whose
      count over its definition entry (C++ division) is smallest. */
  method LowestWeight(m: map<int, int>, vals: seq<int>, defs: seq<int>) returns (lowest: nat)
    requires |vals| == |defs| > 0
    requires forall j :: 0 <= j < |vals| ==> vals[j] in m && defs[j] != 0
    ensures lowest < |vals| && TruncDiv(m[vals[lowest]], defs[lowest]) == MinWeight(m, vals, defs)
    ensures forall q :: 0 <= q < lowest ==> TruncDiv(m[vals[q]], defs[q]) > MinWeight(m, vals, defs)
  {
    lowest := 0;
    var lowestDivisor := defs[0];
    for index := 0 to |vals|
      invariant LowestSoFar(m, vals, defs, index, lowest) && lowestDivisor == defs[lowest]
    {
      var weight := TruncDiv(m[vals[index]], defs[index]);
      LowestStep(m, vals, defs, index, lowest);
      if weight < TruncDiv(m[vals[lowest]], lowestDivisor) {
        lowest := index;
        lowestDivisor := defs[index];
      }
    }
    assert vals[..|vals|] == vals && defs[..|vals|] == defs;
  }

  /** The highest-count loop of subset::CalculatePartialBlocks: the first position with the
      largest count. */
  method HighestCount(m: map<int, int>, vals: seq<int>) returns (highest: nat)
    requires |vals| > 0
    requires forall j :: 0 <= j < |vals| ==> vals[j] in m
    ensures highest < |vals| && m[vals[highest]] == MaxCount(m, vals)
    ensures forall q :: 0 <= q < highest ==> m[vals[q]] < MaxCount(m, vals)
  {
    highest := 0;
    for index := 0 to |vals|
      invariant 0 <= highest < |vals|
      invariant index > 0 ==> m[vals[highest]] == MaxCount(m, vals[..index])
      invariant index == 0 ==> highest == 0
      invariant highest <= index
      invariant forall q :: 0 <= q < highest ==> m[vals[q]] < m[vals[highest]]
    {
      assert vals[..index + 1][..index] == vals[..index];
      if m[vals[index]] > m[vals[highest]] {
        assert forall q :: 0 <= q < index ==> vals[..index][q] == vals[q];
        highest := index;
      }
    }
    assert vals[..|vals|] == vals;
  }

  /** subset::CalculateWholeBlocks: the number of rounds is the smallest count divided by
      its definition entry, and every block built is kept. */
  method CalculateWholeBlocks(valueMap: map<int, int>, definition: seq<int>, originalDispenser: seq<int>)
      returns (r: Result<Carving, SubsetError>)
    requires valueMap != map[]
    requires forall j :: 0 <= j < |definition| ==> definition[j] != 0
    ensures r.Failure? <==> |definition| != |valueMap|
    ensures r.Success? ==>
              r.value == Rounds(Carving([], originalDispenser), Ascending(valueMap.Keys), definition,
                                WholeRounds(valueMap, definition), false)
  {
    var vals := Ascending(valueMap.Keys);
    if |definition| != |valueMap| {
      return Failure(DefinitionMismatch);
    }
    KeysInOrder(valueMap);
    var lowest := LowestWeight(valueMap, vals, definition);
    var blocks, leftOver := BuildRounds(vals, definition, originalDispenser,
                                        TruncDiv(valueMap[vals[lowest]], definition[lowest]), false);
    return Success(Carving(blocks, leftOver));
  }

  /** subset::CalculatePartialBlocks: the number of rounds is the largest count in the
      value map, and empty blocks are dropped. */
  method CalculatePartialBlocks(valueMap: map<int, int>, definition: seq<int>, originalDispenser: seq<int>)
      returns (r: Result<Carving, SubsetError>)
    requires valueMap != map[]
    ensures r.Failure? <==> |definition| != |valueMap|
    ensures r.Success? ==>
              r.value == Rounds(Carving([], originalDispenser), Ascending(valueMap.Keys), definition,
                                PartialRounds(valueMap), true)
  {
    var vals := Ascending(valueMap.Keys);
    if |definition| != |valueMap| {
      return Failure(DefinitionMismatch);
    }
    KeysInOrder(valueMap);
    var highest := HighestCount(valueMap, vals);
    var blocks, leftOver := BuildRounds(vals, definition, originalDispenser,
                                        valueMap[vals[highest]], true);
    return Success(Carving(blocks, leftOver));
  }

  /** What subset::Initialize computes from a pruned non-empty map, in its order: the
      values and the master dispenser, the definition and range, the whole blocks and the
      partial blocks carved from what the whole blocks leave. */
  method Construct(valueMap: map<int, int>, low0: int, high0: int)
      returns (values: set<int>, dispenser: seq<int>, definition: seq<int>, low: int, high: int,
               wholeBlocks: seq<seq<int>>, partialBlocks: seq<seq<int>>)
    requires ValidInventory(valueMap)
    ensures Established(valueMap, values, dispenser, definition, low, high, wholeBlocks, partialBlocks)
  {
    values, dispenser := FillDispenser(valueMap);
    ghost var someKey :| someKey in valueMap;
    assert someKey in values;
    DenominationsOf(values);
    definition, low, high := CalculateDefinition(values, low0, high0);
    DefinitionShape(Ascending(values));
    assert |valueMap.Keys| == |valueMap|;
    var whole := CalculateWholeBlocks(valueMap, definition, dispenser);
    var partial := CalculatePartialBlocks(valueMap, definition, whole.value.rest);
    wholeBlocks, partialBlocks := whole.value.blocks, partial.value.blocks;
    EstablishedFrom(valueMap, values, Ascending(values), dispenser, definition, low, high,
                    whole.value, partial.value);
  }

  /** The filling loop of subset::Initialize: the values recorded and the master dispenser
      filled, keys in ascending order. */
  method FillDispenser(m: map<int, int>) returns (values: set<int>, dispenser: seq<int>)
    requires forall v :: v in m ==> m[v] >= 0
    ensures values == m.Keys
    ensures dispenser == Dispenser(m)
  {
    var vals := Ascending(m.Keys);
    KeysInOrder(m);
    values, dispenser := {}, [];
    for i := 0 to |vals|
      invariant forall x :: x in values ==> x in m
      invariant forall j :: 0 <= j < i ==> vals[j] in values
      invariant dispenser == Flatten(vals[..i], m)
    {
      assert vals[..i + 1][..i] == vals[..i];
      values := values + {vals[i]};
      dispenser := dispenser + Repeat(vals[i], m[vals[i]]);
    }
    assert vals[..|vals|] == vals;
    AllKeysRecorded(m, values);
  }

  /** A set of keys of `m` that holds every key in ascending order is the key set. */
  lemma AllKeysRecorded(m: map<int, int>, values: set<int>)
    requires forall x :: x in values ==> x in m
    requires forall j :: 0 <= j < |Ascending(m.Keys)| ==> Ascending(m.Keys)[j] in values
    ensures values == m.Keys
  {
    var vals := Ascending(m.Keys);
    forall x | x in m.Keys ensures x in values {
      KeyPosition(m, x);
      var j :| 0 <= j < |vals| && vals[j] == x;
    }
    forall x | x in values ensures x in m.Keys {
    }
  }

  /** The number of whole-block rounds: the smallest count over its definition entry. */
  function WholeRounds(m: map<int, int>, defs: seq<int>): int
    requires m != map[] && |defs| == |m| && forall j :: 0 <= j < |defs| ==> defs[j] != 0
  {
    KeysInOrder(m);
    MinWeight(m, Ascending(m.Keys), defs)
  }

  /** The number of partial-block rounds: the largest count. */
  function PartialRounds(m: map<int, int>): int
    requires m != map[]
  {
    KeysInOrder(m);
    MaxCount(m, Ascending(m.Keys))
  }

  /** Every element of every block is a positive denomination. */
  predicate PositiveBlocks(blocks: seq<seq<int>>)
  {
    forall i, j :: 0 <= i < |blocks| && 0 <= j < |blocks[i]| ==> blocks[i][j] > 0
  }

  /** Blocks made of positive denominations have positive elements. */
  lemma BlocksOfPositive(bs: seq<seq<int>>, vals: seq<int>)
    requires forall i :: 0 <= i < |bs| ==> BlockOf(bs[i], vals)
    requires forall j :: 0 <= j < |vals| ==> vals[j] > 0
    ensures PositiveBlocks(bs)
  {
    forall i, j | 0 <= i < |bs| && 0 <= j < |bs[i]| ensures bs[i][j] > 0 {
      assert bs[i][j] in bs[i];
      var k :| 0 <= k < |vals| && vals[k] == bs[i][j];
    }
  }

  /** The whole blocks carved from a dispenser, and the partial blocks carved from what they
      leave, are sorted and made of the denominations, so their elements are positive. */
  lemma CarvedBlocksPositive(vals: seq<int>, defs: seq<int>, dispenser: seq<int>, nw: int, np: int,
                             w: Carving, p: Carving)
    requires Denominations(vals) && |defs| == |vals|
    requires w == Rounds(Carving([], dispenser), vals, defs, nw, false)
    requires p == Rounds(Carving([], w.rest), vals, defs, np, true)
    ensures forall i :: 0 <= i < |w.blocks| ==> BlockOf(w.blocks[i], vals)
    ensures forall i :: 0 <= i < |p.blocks| ==> BlockOf(p.blocks[i], vals)
    ensures PositiveBlocks(w.blocks) && PositiveBlocks(p.blocks)
  {
    RoundsSorted(Carving([], dispenser), vals, defs, nw, false);
    RoundsSorted(Carving([], w.rest), vals, defs, np, true);
    BlocksOfPositive(w.blocks, vals);
    BlocksOfPositive(p.blocks, vals);
  }

  /** Every block of an initialised solver is sorted and made of its denominations, so all of
      its elements are positive: the initialised state meets what AnilaoSolve requires. */
  lemma EstablishedBlocksPositive(m: map<int, int>, values: set<int>, dispenser: seq<int>,
                                  definition: seq<int>, low: int, high: int,
                                  whole: seq<seq<int>>, partial: seq<seq<int>>)
    requires Established(m, values, dispenser, definition, low, high, whole, partial)
    ensures forall i :: 0 <= i < |whole| ==> BlockOf(whole[i], Ascending(values))
    ensures forall i :: 0 <= i < |partial| ==> BlockOf(partial[i], Ascending(values))
    ensures PositiveBlocks(whole) && PositiveBlocks(partial)
  {
    var vals := Ascending(values);
    DefinitionShape(vals);
    var w := Rounds(Carving([], dispenser), vals, definition, WholeRounds(m, definition), false);
    var p := Rounds(Carving([], w.rest), vals, definition, PartialRounds(m), true);
    CarvedBlocksPositive(vals, definition, dispenser, WholeRounds(m, definition), PartialRounds(m), w, p);
  }

  /** Carving whole blocks and then partial blocks from what is left moves copies and
      never makes or loses one. */
  lemma CarvingConserves(vals: seq<int>, defs: seq<int>, dispenser: seq<int>, nw: int, np: int,
                         w: Carving, p: Carving)
    requires |defs| == |vals| && StrictlyAscending(vals)
    requires w == Rounds(Carving([], dispenser), vals, defs, nw, false)
    requires p == Rounds(Carving([], w.rest), vals, defs, np, true)
    ensures forall x :: Copies(w.rest, x) <= Copies(dispenser, x)
    ensures forall x :: Copies(Flat(w.blocks), x) + Copies(Flat(p.blocks), x) + Copies(p.rest, x) == Copies(dispenser, x)
  {
    assert Flat([]) == [];
    forall x ensures Copies(Flat(w.blocks), x) + Copies(w.rest, x) == Copies(dispenser, x) {
      RoundsConserve(Carving([], dispenser), vals, defs, nw, false, x);
    }
    forall x ensures Copies(Flat(p.blocks), x) + Copies(p.rest, x) == Copies(w.rest, x) {
      RoundsConserve(Carving([], w.rest), vals, defs, np, true, x);
    }
  }

  /** With positive definition entries the smallest count over its entry is a number of
      whole blocks the dispenser can fill to the definition ... */
  lemma WholeExact(m: map<int, int>, vals: seq<int>, defs: seq<int>, w: Carving)
    requires ValidInventory(m) && vals == Ascending(m.Keys) && |defs| == |vals|
    requires forall j :: 0 <= j < |defs| ==> defs[j] > 0
    requires w == Rounds(Carving([], Dispenser(m)), vals, defs, WholeRounds(m, defs), false)
    ensures forall i :: 0 <= i < |w.blocks| ==> w.blocks[i] == FullBlock(vals, defs)
  {
    KeysInOrder(m);
    DispenserContents(m);
    WholeCountFits(m, vals, defs);
    RoundsExact(Carving([], Dispenser(m)), vals, defs, WholeRounds(m, defs));
  }

  /** ... and the largest count is enough partial rounds to empty whatever part of the
      dispenser the whole blocks leave. */
  lemma PartialDrains(m: map<int, int>, vals: seq<int>, defs: seq<int>, rest: seq<int>, p: Carving)
    requires ValidInventory(m) && vals == Ascending(m.Keys) && |defs| == |vals|
    requires forall j :: 0 <= j < |defs| ==> defs[j] > 0
    requires forall x :: Copies(rest, x) <= Copies(Dispenser(m), x)
    requires p == Rounds(Carving([], rest), vals, defs, PartialRounds(m), true)
    ensures p.rest == []
  {
    RestWithin(m, vals, rest);
    RoundsDrain(Carving([], rest), vals, defs, PartialRounds(m), true);
  }

  /** Part of the dispenser holds only denominations, none more often than the largest count. */
  lemma RestWithin(m: map<int, int>, vals: seq<int>, rest: seq<int>)
    requires ValidInventory(m) && vals == Ascending(m.Keys)
    requires forall x :: Copies(rest, x) <= Copies(Dispenser(m), x)
    ensures StrictlyAscending(vals)
    ensures forall x :: x in rest ==> x in vals
    ensures forall j :: 0 <= j < |vals| ==> Copies(rest, vals[j]) <= PartialRounds(m)
  {
    KeysInOrder(m);
    AscendingFacts(m.Keys);
    DispenserContents(m);
    forall x | x in rest ensures x in vals {
      assert Copies(rest, x) > 0;
    }
  }

  /** The carving of an initialised solver: its blocks hold no more copies of a denomination
      than the dispenser; with positive definition entries every whole block is one full
      block of the definition and the blocks hold exactly the dispenser. */
  lemma EstablishedCarving(m: map<int, int>, values: set<int>, dispenser: seq<int>,
                           definition: seq<int>, low: int, high: int,
                           whole: seq<seq<int>>, partial: seq<seq<int>>)
    requires Established(m, values, dispenser, definition, low, high, whole, partial)
    ensures forall x :: Copies(Flat(whole), x) + Copies(Flat(partial), x) <= Copies(dispenser, x)
    ensures (forall j :: 0 <= j < |definition| ==> definition[j] > 0) ==>
              (forall i :: 0 <= i < |whole| ==> whole[i] == FullBlock(Ascending(values), definition)) &&
              forall x :: Copies(Flat(whole), x) + Copies(Flat(partial), x) == Copies(dispenser, x)
  {
    var vals := Ascending(values);
    DefinitionShape(vals);
    var w := Rounds(Carving([], dispenser), vals, definition, WholeRounds(m, definition), false);
    var p := Rounds(Carving([], w.rest), vals, definition, PartialRounds(m), true);
    CarvingConserves(vals, definition, dispenser, WholeRounds(m, definition), PartialRounds(m), w, p);
    if forall j :: 0 <= j < |definition| ==> definition[j] > 0 {
      WholeExact(m, vals, definition, w);
      PartialDrains(m, vals, definition, w.rest, p);
    }
  }

  /** The shared triple loop of both block builders, inner two loops: one block taken from
      `dispenser`, for every denomination up to its definition entry's copies. */
  method BuildBlock(vals: seq<int>, defs: seq<int>, dispenser: seq<int>)
      returns (newBlock: seq<int>, leftOver: seq<int>)
    requires |vals| == |defs|
    ensures Carve(newBlock, leftOver) == FillBlock(Carve([], dispenser), vals, defs)
    ensures StrictlyAscending(vals) ==> newBlock == Taken(dispenser, vals, defs) && BlockOf(newBlock, vals)
    ensures StrictlyAscending(vals) ==>
              forall x :: Copies(leftOver, x) + Copies(newBlock, x) == Copies(dispenser, x)
  {
    newBlock, leftOver := [], dispenser;
    var j := 0;
    while j < |vals|
      invariant 0 <= j <= |vals|
      invariant FillBlock(Carve(newBlock, leftOver), vals[j..], defs[j..])
                == FillBlock(Carve([], dispenser), vals, defs)
    {
      ghost var start := Carve(newBlock, leftOver);
      var k := 0;
      while k < defs[j]
        invariant k == 0 || k <= defs[j]
        invariant TakeCopies(Carve(newBlock, leftOver), vals[j], defs[j] - k)
                  == TakeCopies(start, vals[j], defs[j])
        decreases defs[j] - k
      {
        TakeCopiesUnfold(Carve(newBlock, leftOver), vals[j], defs[j] - k);
        if vals[j] in leftOver {
          // std::find followed by vector::erase; the block gets the copy found.
          newBlock := newBlock + [vals[j]];
          leftOver := RemoveFirst(leftOver, vals[j]);
        }
        k := k + 1;
      }
      assert vals[j..][1..] == vals[j + 1..] && defs[j..][1..] == defs[j + 1..];
      FillBlockUnfold(start, vals[j..], defs[j..]);
      j := j + 1;
    }
    if StrictlyAscending(vals) {
      FillBlockBlock(Carve([], dispenser), vals, defs);
      assert [] + Taken(dispenser, vals, defs) == Taken(dispenser, vals, defs);
      TakenSorted(dispenser, vals, defs);
      forall x ensures Copies(leftOver, x) + Copies(newBlock, x) == Copies(dispenser, x) {
        FillBlockRest(Carve([], dispenser), vals, defs, x);
      }
    }
  }

  /** The outer loop of both block builders: n rounds, the partial builder (dropEmpty)
      keeping only non-empty blocks. */
  method BuildRounds(vals: seq<int>, defs: seq<int>, dispenser: seq<int>, n: int, dropEmpty: bool)
      returns (blocks: seq<seq<int>>, leftOver: seq<int>)
    requires |vals| == |defs|
    ensures Carving(blocks, leftOver) == Rounds(Carving([], dispenser), vals, defs, n, dropEmpty)
  {
    blocks, leftOver := [], dispenser;
    var i := 0;
    while i < n
      invariant i == 0 || i <= n
      invariant Rounds(Carving(blocks, leftOver), vals, defs, n - i, dropEmpty)
                == Rounds(Carving([], dispenser), vals, defs, n, dropEmpty)
      decreases n - i
    {
      RoundsUnfold(Carving(blocks, leftOver), vals, defs, n - i, dropEmpty);
      var newBlock, rest := BuildBlock(vals, defs, leftOver);
      if !dropEmpty || newBlock != [] {
        blocks := blocks + [newBlock];
      }
      leftOver := rest;
      i := i + 1;
    }
  }

  class Subset {
    /** The definition: copies of each denomination in one block. */
    var definition: seq<int>
    var rangeLow: int
    var rangeHigh: int
    /** The denominations. */
    var values: set<int>
    var masterDispenser: seq<int>
    /** Denomination to count. */
    var valueMap: map<int, int>
    var wholeBlocks: seq<seq<int>>
    var partialBlocks: seq<seq<int>>

    /** The state Initialize establishes. */
    ghost predicate Valid()
      reads this
    {
      Established(valueMap, values, masterDispenser, definition, rangeLow, rangeHigh,
                  wholeBlocks, partialBlocks)
    }

    /** subset::subset before Initialize runs: the map is copied, everything else empty. */
    constructor(inventory: map<int, int>)
      ensures valueMap == inventory
      ensures values == {} && masterDispenser == [] && definition == []
      ensures wholeBlocks == [] && partialBlocks == []
    {
      valueMap := inventory;
      values := {};
      masterDispenser := [];
      definition := [];
      wholeBlocks := [];
      partialBlocks := [];
    }

    /** subset::Initialize: prune the counts that are not positive, fail if nothing is
        left, then fill the dispenser, compute the definition and carve the blocks. */
    method Initialize() returns (ok: bool)
      requires values == {} && masterDispenser == []
      requires forall v :: v in valueMap && valueMap[v] > 0 ==> v > 0
      modifies this
      ensures valueMap == Prune(old(valueMap))
      ensures ok <==> valueMap != map[]
      ensures ok ==> Valid()
    {
      PruneCounts();
      if valueMap == map[] {
        // The source throws std::exception here.
        return false;
      }
      Build();
      ok := true;
    }

    /** The two pruning loops of subset::Initialize: collect the keys whose counts are not
        positive, then erase them from the map. */
    method PruneCounts()
      modifies this`valueMap
      ensures valueMap == Prune(old(valueMap))
    {
      var toBeRemoved := EmptyCounts(valueMap);
      var pruned := EraseKeys(valueMap, toBeRemoved);
      PrunedBy(valueMap, toBeRemoved, pruned);
      valueMap := pruned;
    }

    /** The rest of subset::Initialize, on a pruned non-empty map. */
    method Build()
      requires ValidInventory(valueMap)
      modifies this`values, this`masterDispenser, this`definition, this`rangeLow, this`rangeHigh
      modifies this`wholeBlocks, this`partialBlocks
      ensures Valid()
    {
      var vs, d, def, lo, hi, wb, pb := Construct(valueMap, rangeLow, rangeHigh);
      values, masterDispenser, definition, rangeLow, rangeHigh, wholeBlocks, partialBlocks :=
        vs, d, def, lo, hi, wb, pb;
    }

    /** subset::GetRange. */
    method GetRange() returns (low: int, high: int)
      requires Valid()
      ensures low == Ascending(values)[0] && forall v :: v in values ==> low <= v
      ensures high == Dot(Definition(Ascending(values)), Ascending(values))
    {
      DefinitionShape(Ascending(values));
      low, high := rangeLow, rangeHigh;
    }

    /** subset::GetBlockDefinition. */
    method GetBlockDefinition() returns (clientBlock: seq<int>)
      requires Valid()
      ensures |clientBlock| == |values| && clientBlock[|clientBlock| - 1] == 1
      ensures forall j :: 0 <= j < |clientBlock| ==> clientBlock[j] != 0
      ensures clientBlock == Definition(Ascending(values))
    {
      DefinitionShape(Ascending(values));
      clientBlock := definition;
    }

    /** subset::GetWholeBlockVector: once initialised, as many whole blocks as the smallest
        count over its definition entry, each sorted and made of denominations, and with
        positive entries each one full block of the definition. */
    method GetWholeBlockVector() returns (clientBlock: seq<seq<int>>)
      ensures clientBlock == wholeBlocks
      ensures Valid() ==> |clientBlock| == Max(WholeRounds(valueMap, definition), 0)
      ensures Valid() ==> forall i :: 0 <= i < |clientBlock| ==> BlockOf(clientBlock[i], Ascending(values))
      ensures Valid() && (forall j :: 0 <= j < |definition| ==> definition[j] > 0) ==>
                forall i :: 0 <= i < |clientBlock| ==> clientBlock[i] == FullBlock(Ascending(values), definition)
    {
      clientBlock := wholeBlocks;
      if Valid() {
        EstablishedBlocksPositive(valueMap, values, masterDispenser, definition, rangeLow, rangeHigh,
                                  wholeBlocks, partialBlocks);
        EstablishedCarving(valueMap, values, masterDispenser, definition, rangeLow, rangeHigh,
                           wholeBlocks, partialBlocks);
      }
    }

    /** subset::GetPartialBlockVector: once initialised, non-empty sorted blocks of
        denominations that, with the whole blocks, hold no more than the dispenser, and with
        positive definition entries all of it. */
    method GetPartialBlockVector() returns (clientBlock: seq<seq<int>>)
      ensures clientBlock == partialBlocks
      ensures Valid() ==> forall i :: 0 <= i < |clientBlock| ==>
                            clientBlock[i] != [] && BlockOf(clientBlock[i], Ascending(values))
      ensures Valid() ==> forall x :: Copies(Flat(wholeBlocks), x) + Copies(Flat(clientBlock), x) <= Copies(masterDispenser, x)
      ensures Valid() && (forall j :: 0 <= j < |definition| ==> definition[j] > 0) ==>
                forall x :: Copies(Flat(wholeBlocks), x) + Copies(Flat(clientBlock), x) == Copies(masterDispenser, x)
    {
      clientBlock := partialBlocks;
      if Valid() {
        EstablishedBlocksPositive(valueMap, values, masterDispenser, definition, rangeLow, rangeHigh,
                                  wholeBlocks, partialBlocks);
        EstablishedCarving(valueMap, values, masterDispenser, definition, rangeLow, rangeHigh,
                           wholeBlocks, partialBlocks);
      }
    }

    /** subset::LeastNumberSolve: greedy from the largest denomination down, taking as many
        copies as fit; the answer is dropped unless it sums to the target exactly. */
    method LeastNumberSolve(target: int) returns (retVector: seq<int>)
      requires ValidInventory(valueMap)
      ensures retVector == LeastNumber(valueMap, target)
      ensures retVector == [] || Sum(retVector) == target
      ensures Sorted(retVector)
      ensures forall x :: x in retVector ==> x in valueMap
      ensures forall x :: x in valueMap ==> multiset(retVector)[x] <= valueMap[x]
      ensures target <= 0 ==> retVector == []
    {
      retVector := GreedySolve(valueMap, target);
      LeastNumberProperties(valueMap, target);
    }

    /** What AnilaoSolve searches: the first partial block, or the first whole block when
        there are no partial blocks. */
    ghost function SearchedBlock(): seq<int>
      reads this
    {
      if |partialBlocks| > 0 then partialBlocks[0]
      else if |wholeBlocks| > 0 then wholeBlocks[0]
      else []
    }

    /** The entries AnilaoSolve scans: the target-0 and then the target search of the first
        partial block, or else the target search of the first whole block. */
    ghost function SearchResult(target: int): seq<seq<int>>
      reads this
    {
      if |partialBlocks| > 0 then
        var block := partialBlocks[0];
        Recorded(block, Recorded(block, [], 0, [], 0), target, [], 0)
      else if |wholeBlocks| > 0 then Recorded(wholeBlocks[0], [], target, [], 0)
      else []
    }

    /** subset::AnilaoSolve: the longest subsequence of the searched block that sums to the
        target, or empty. The target-0 search of a partial block always records the empty
        subset, so the scan over the partial blocks ends after the first; the source's
        `break` is the second conjunct of the loop guard. */
    method AnilaoSolve(target: int) returns (retVal: seq<int>)
      requires PositiveBlocks(partialBlocks) && PositiveBlocks(wholeBlocks)
      ensures retVal == [] || (Sum(retVal) == target && IsSubsequence(retVal, SearchedBlock()))
      ensures forall s :: IsSubsequence(s, SearchedBlock()) && Sum(s) == target ==> |s| <= |retVal|
      ensures SearchResult(target) == [] ==> retVal == []
      ensures SearchResult(target) != [] ==> retVal == SearchResult(target)[Longest(SearchResult(target))]
    {
      retVal := [];
      var result: seq<seq<int>> := [];
      ghost var searched: seq<int> := [];
      var i := 0;
      while i < |partialBlocks| && |result| == 0
        invariant i <= 1 && i <= |partialBlocks|
        invariant i == 0 ==> result == [] && searched == []
        invariant i == 1 ==> searched == partialBlocks[0] && |result| > 0 && result == SearchResult(target)
        invariant forall b :: b in result ==> b == [] || (Sum(b) == target && IsSubsequence(b, searched))
        invariant forall b :: IsSubsequence(b, searched) && Sum(b) == target ==> b in result || b == []
      {
        var block := partialBlocks[i];
        assert forall k :: 0 <= k < |block| ==> block[k] > 0;
        result := SearchBlock(block, result, 0);
        assert IsSubsequence([], block) && Sum([]) == 0;
        ghost var zeroSums := result;
        result := SearchBlock(block, result, target);
        forall b | b in result ensures b == [] || (Sum(b) == target && IsSubsequence(b, block)) {
          if b in zeroSums {
            SubsequenceSum(b, block);
          }
        }
        searched := block;
        i := i + 1;
      }
      if |result| == 0 {
        if |wholeBlocks| != 0 {
          result := SearchBlock(wholeBlocks[0], result, target);
          searched := wholeBlocks[0];
        }
      }
      assert searched == SearchedBlock();
      assert result == SearchResult(target);
      if |result| > 0 {
        var largest := LongestEntry(result);
        retVal := result[largest];
      }
    }

  }
}
