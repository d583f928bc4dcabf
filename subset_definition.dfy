/** The block "definition" of the subset solver (subset::CalculateDefinition): for each
    denomination in ascending order, how many copies are needed to reach the next one, and
    the range [low, high] one full block of copies can represent. */
module SubsetDefinition {
  import opened SeqUtil
  import opened TruncArith

  /** Ascending, distinct, positive denominations; at least one. */
  predicate Denominations(vals: seq<int>)
  {
    |vals| > 0 && StrictlyAscending(vals) && forall i :: 0 <= i < |vals| ==> vals[i] > 0
  }

  lemma DenominationsSuffix(vals: seq<int>, i: nat)
    requires Denominations(vals) && i < |vals|
    ensures Denominations(vals[i..])
  {
  }

  /** One definition entry: the number of copies of `v` needed to close `gap`, where C++
      truncating division decides the branch and a zero quotient is forced to 1.
      Outside -v < gap <= 0 it is the ceiling of gap / v, the least count whose copies
      reach the gap; inside, where the ceiling would be 0, it is 1. */
  function Requirement(gap: int, v: int): (e: int)
    requires v > 0
    ensures e != 0
    ensures e * v >= gap
    ensures gap > 0 || gap <= -v ==> (e - 1) * v < gap
    ensures -v < gap <= 0 ==> e == 1
  {
    TruncDivMod(gap, v);
    var q := TruncDiv(gap, v);
    if q == 0 then 1
    else if q > 0 && TruncMod(gap, v) > 0 then
      assert (q + 1) * v == q * v + v;
      q + 1
    else
      assert (q - 1) * v == q * v - v;
      q
  }

  /** Requirement follows the three branches of the C++ code. */
  lemma RequirementCases(gap: int, v: int)
    requires v > 0
    ensures TruncDiv(gap, v) == 0 ==> Requirement(gap, v) == 1
    ensures TruncDiv(gap, v) > 0 && TruncMod(gap, v) > 0 ==> Requirement(gap, v) == TruncDiv(gap, v) + 1
    ensures TruncDiv(gap, v) != 0 && !(TruncDiv(gap, v) > 0 && TruncMod(gap, v) > 0) ==>
              Requirement(gap, v) == TruncDiv(gap, v)
  {
  }

  /** The definition entries for `vals`, given the running count accumulated before it.
      The last denomination has no successor and gets 1. */
  function DefinitionFrom(vals: seq<int>, running: int): (r: seq<int>)
    requires Denominations(vals)
    ensures |r| == |vals|
    ensures r[|r| - 1] == 1
    ensures forall j :: 0 <= j < |r| ==> r[j] != 0
    decreases |vals|
  {
    if |vals| == 1 then [1]
    else
      var e := Requirement(vals[1] - running, vals[0]);
      [e] + DefinitionFrom(vals[1..], running + e * vals[0])
  }

  /** range_high: the largest denomination plus the running count reached before it. */
  function HighFrom(vals: seq<int>, running: int): int
    requires Denominations(vals)
    decreases |vals|
  {
    if |vals| == 1 then vals[0] + running
    else HighFrom(vals[1..], running + Requirement(vals[1] - running, vals[0]) * vals[0])
  }

  /** sum over j of defs[j] * vals[j]: the total of one block built to the definition. */
  function Dot(defs: seq<int>, vals: seq<int>): int
    requires |defs| == |vals|
  {
    if defs == [] then 0 else defs[0] * vals[0] + Dot(defs[1..], vals[1..])
  }

  /** The definition and range of a denomination set, from a zero running count. */
  function Definition(vals: seq<int>): seq<int>
    requires Denominations(vals)
  {
    DefinitionFrom(vals, 0)
  }

  function RangeLow(vals: seq<int>): int
    requires Denominations(vals)
  {
    vals[0]
  }

  function RangeHigh(vals: seq<int>): int
    requires Denominations(vals)
  {
    HighFrom(vals, 0)
  }

  /** One step of CalculateDefinition's loop at position i: the entry for vals[i] and the
      running count passed on; at the last position the entry is 1 and the high end is set. */
  lemma DefinitionStep(vals: seq<int>, i: nat, running: int)
    requires Denominations(vals) && i < |vals|
    ensures Denominations(vals[i..])
    ensures i + 1 == |vals| ==>
              DefinitionFrom(vals[i..], running) == [1] && HighFrom(vals[i..], running) == vals[i] + running
    ensures i + 1 < |vals| ==>
              Denominations(vals[i + 1..]) &&
              var e := Requirement(vals[i + 1] - running, vals[i]);
              DefinitionFrom(vals[i..], running) == [e] + DefinitionFrom(vals[i + 1..], running + e * vals[i]) &&
              HighFrom(vals[i..], running) == HighFrom(vals[i + 1..], running + e * vals[i])
  {
    DenominationsSuffix(vals, i);
    if i + 1 < |vals| {
      DenominationsSuffix(vals, i + 1);
      assert vals[i..][1..] == vals[i + 1..];
    }
  }

  /** The loop state of CalculateDefinition carried from position i to i + 1: the entries
      emitted so far followed by the entries still to come make up the whole definition, and
      the high end still to be reached is range_high. */
  lemma DefinitionAdvance(vals: seq<int>, i: nat, running: int, emitted: seq<int>, entry: int, next: int)
    requires Denominations(vals) && i + 1 < |vals|
    requires emitted + DefinitionFrom(vals[i..], running) == Definition(vals)
    requires HighFrom(vals[i..], running) == RangeHigh(vals)
    requires entry == Requirement(vals[i + 1] - running, vals[i])
    requires next == running + entry * vals[i]
    ensures Denominations(vals[i + 1..])
    ensures (emitted + [entry]) + DefinitionFrom(vals[i + 1..], next) == Definition(vals)
    ensures HighFrom(vals[i + 1..], next) == RangeHigh(vals)
  {
    DefinitionStep(vals, i, running);
    var rest := DefinitionFrom(vals[i + 1..], next);
    assert (emitted + [entry]) + rest == emitted + ([entry] + rest);
  }

  /** range_high is exactly the total of one full block: the running count accumulates
      entry * value for every denomination but the last, whose entry is 1. */
  lemma {:induction false} HighIsBlockTotal(vals: seq<int>, running: int)
    requires Denominations(vals)
    ensures HighFrom(vals, running) == running + Dot(DefinitionFrom(vals, running), vals)
    decreases |vals|
  {
    if |vals| > 1 {
      var e := Requirement(vals[1] - running, vals[0]);
      HighIsBlockTotal(vals[1..], running + e * vals[0]);
      assert DefinitionFrom(vals, running)[1..] == DefinitionFrom(vals[1..], running + e * vals[0]);
    }
  }

  /** Every prefix of a full block reaches the next denomination: the copies of the first
      j + 1 denominations add up to at least vals[j + 1]. This is why the entries exist. */
  lemma {:induction false} PrefixReachesNext(vals: seq<int>, running: int, j: nat)
    requires Denominations(vals)
    requires j < |vals| - 1
    ensures var d := DefinitionFrom(vals, running);
            running + Dot(d[..j + 1], vals[..j + 1]) >= vals[j + 1]
    decreases |vals|
  {
    var d := DefinitionFrom(vals, running);
    var e := Requirement(vals[1] - running, vals[0]);
    var running' := running + e * vals[0];
    assert d[0] == e;
    if j == 0 {
      assert d[..1][1..] == [];
      assert Dot(d[..1], vals[..1]) == e * vals[0];
    } else {
      PrefixReachesNext(vals[1..], running', j - 1);
      assert d[1..] == DefinitionFrom(vals[1..], running');
      assert d[..j + 1][1..] == d[1..][..j];
      assert vals[..j + 1][1..] == vals[1..][..j];
    }
  }

  /** The properties the solver relies on: one entry per denomination, none zero, the last
      entry 1, low the smallest denomination and high the total of one full block. */
  lemma DefinitionShape(vals: seq<int>)
    requires Denominations(vals)
    ensures |Definition(vals)| == |vals|
    ensures Definition(vals)[|vals| - 1] == 1
    ensures forall j :: 0 <= j < |vals| ==> Definition(vals)[j] != 0
    ensures RangeLow(vals) == vals[0] && forall j :: 0 <= j < |vals| ==> RangeLow(vals) <= vals[j]
    ensures RangeHigh(vals) == Dot(Definition(vals), vals)
  {
    HighIsBlockTotal(vals, 0);
  }
}
