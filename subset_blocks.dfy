/** How the subset solver carves its dispenser into blocks (subset::CalculateWholeBlocks
    and subset::CalculatePartialBlocks). Both run the same triple loop: a number of rounds,
    each building one block by taking, for every denomination j in ascending order, up to
    definition[j] copies from the dispenser with find-first-and-erase. The functions here are
    written in the loops' own accumulating form; the lemmas say what they compute. */
module SubsetBlocks {
  import opened SeqUtil
  import opened TruncArith
  import opened SubsetDefinition

  function Copies(s: seq<int>, v: int): nat
  {
    multiset(s)[v]
  }

  function Min(a: int, b: int): int
  {
    if a < b then a else b
  }

  function Max(a: int, b: int): int
  {
    if a < b then b else a
  }

  /** The block being built and what is left of the dispenser. */
  datatype Carve = Carve(block: seq<int>, rest: seq<int>)

  /** The blocks built so far and what is left of the dispenser. */
  datatype Carving = Carving(blocks: seq<seq<int>>, rest: seq<int>)

  /** The innermost loop: n times, if a copy of v is left, move the first one into the
      block. A non-positive n runs no iteration. */
  function TakeCopies(c: Carve, v: int, n: int): Carve
    decreases n
  {
    if n <= 0 then c else TakeCopies(TakeOne(c, v), v, n - 1)
  }

  /** One iteration of the innermost loop: find the first copy of v, move it to the block. */
  function TakeOne(c: Carve, v: int): Carve
  {
    if v in c.rest then Carve(c.block + [v], RemoveFirst(c.rest, v)) else c
  }

  /** One block: TakeCopies for every denomination with its definition entry. */
  function FillBlock(c: Carve, vals: seq<int>, defs: seq<int>): Carve
    requires |vals| == |defs|
    decreases |vals|
  {
    if vals == [] then c
    else FillBlock(TakeCopies(c, vals[0], defs[0]), vals[1..], defs[1..])
  }

  /** `n` rounds of the outer loop, each building one block from what is left. The
      whole-block builder keeps every block; the partial-block builder (dropEmpty) keeps
      only the non-empty ones. */
  function Rounds(acc: Carving, vals: seq<int>, defs: seq<int>, n: int, dropEmpty: bool): (r: Carving)
    requires |vals| == |defs|
    ensures |acc.blocks| <= |r.blocks| <= |acc.blocks| + Max(n, 0)
    ensures !dropEmpty ==> |r.blocks| == |acc.blocks| + Max(n, 0)
    ensures r.blocks[..|acc.blocks|] == acc.blocks
    ensures dropEmpty ==> forall i :: |acc.blocks| <= i < |r.blocks| ==> r.blocks[i] != []
    decreases n
  {
    if n <= 0 then acc
    else Rounds(Round(acc, vals, defs, dropEmpty), vals, defs, n - 1, dropEmpty)
  }

  /** One round: build a block from the left-over dispenser and record it. */
  function Round(acc: Carving, vals: seq<int>, defs: seq<int>, dropEmpty: bool): Carving
    requires |vals| == |defs|
  {
    var c := FillBlock(Carve([], acc.rest), vals, defs);
    Carving(if dropEmpty && c.block == [] then acc.blocks else acc.blocks + [c.block], c.rest)
  }

  /** All blocks laid end to end. */
  function Flat(blocks: seq<seq<int>>): seq<int>
  {
    if blocks == [] then [] else Flat(blocks[..|blocks| - 1]) + blocks[|blocks| - 1]
  }

  /** The number of whole blocks: the smallest count / definition[j] (C++ division) over the
      denominations; the source keeps the first smallest, which has the same value. */
  function MinWeight(m: map<int, int>, vals: seq<int>, defs: seq<int>): (w: int)
    requires |vals| == |defs| > 0
    requires forall j :: 0 <= j < |vals| ==> vals[j] in m && defs[j] != 0
    ensures exists j :: 0 <= j < |vals| && w == TruncDiv(m[vals[j]], defs[j])
    ensures forall j :: 0 <= j < |vals| ==> w <= TruncDiv(m[vals[j]], defs[j])
    decreases |vals|
  {
    var n := |vals| - 1;
    var w := TruncDiv(m[vals[n]], defs[n]);
    if n == 0 then w
    else
      var p := MinWeight(m, vals[..n], defs[..n]);
      assert forall j :: 0 <= j < n ==> vals[..n][j] == vals[j] && defs[..n][j] == defs[j];
      if w < p then w else p
  }

  /** The number of partial-block rounds: the largest count in the value map. */
  function MaxCount(m: map<int, int>, vals: seq<int>): (h: int)
    requires |vals| > 0
    requires forall j :: 0 <= j < |vals| ==> vals[j] in m
    ensures exists j :: 0 <= j < |vals| && h == m[vals[j]]
    ensures forall j :: 0 <= j < |vals| ==> m[vals[j]] <= h
    decreases |vals|
  {
    var n := |vals| - 1;
    if n == 0 then m[vals[0]]
    else
      var p := MaxCount(m, vals[..n]);
      assert forall j :: 0 <= j < n ==> vals[..n][j] == vals[j];
      if m[vals[n]] > p then m[vals[n]] else p
  }

  // ---------------------------------------------------------------------------------
  // What one block takes.

  /** How many copies of v one TakeCopies moves: n, or fewer if the dispenser runs out. */
  function Avail(rest: seq<int>, v: int, n: int): nat
  {
    Min(Max(n, 0), Copies(rest, v))
  }

  /** The copies one block takes, denomination by denomination, from a dispenser `rest`. */
  function Taken(rest: seq<int>, vals: seq<int>, defs: seq<int>): seq<int>
    requires |vals| == |defs|
    decreases |vals|
  {
    if vals == [] then []
    else Repeat(vals[0], Avail(rest, vals[0], defs[0])) + Taken(rest, vals[1..], defs[1..])
  }

  /** One full block of the definition: defs[j] copies of every vals[j]. */
  function FullBlock(vals: seq<int>, defs: seq<int>): seq<int>
    requires |vals| == |defs|
    requires forall j :: 0 <= j < |defs| ==> defs[j] >= 0
    decreases |vals|
  {
    if vals == [] then [] else Repeat(vals[0], defs[0]) + FullBlock(vals[1..], defs[1..])
  }

  lemma TakeCopiesUnfold(c: Carve, v: int, n: int)
    requires n > 0
    ensures TakeCopies(c, v, n) == TakeCopies(TakeOne(c, v), v, n - 1)
  {
  }

  /** One step of the innermost loop when a copy is left: one copy fewer to take. */
  lemma TakeOneStep(c: Carve, v: int, n: int)
    requires n > 0 && v in c.rest
    ensures Copies(TakeOne(c, v).rest, v) == Copies(c.rest, v) - 1
    ensures Avail(c.rest, v, n) == Avail(TakeOne(c, v).rest, v, n - 1) + 1
    ensures TakeOne(c, v).block == c.block + [v]
  {
  }

  /** With no copy of v left, the innermost loop changes nothing. */
  lemma {:induction false} TakeCopiesMiss(c: Carve, v: int, n: int)
    requires v !in c.rest
    ensures TakeCopies(c, v, n) == c
    decreases n
  {
    if n > 0 {
      TakeCopiesUnfold(c, v, n);
      TakeCopiesMiss(c, v, n - 1);
    }
  }

  /** The copies of v that TakeCopies moves into the block. */
  lemma {:induction false} TakeCopiesBlock(c: Carve, v: int, n: int)
    ensures TakeCopies(c, v, n).block == c.block + Repeat(v, Avail(c.rest, v, n))
    decreases n, 1
  {
    if n <= 0 || v !in c.rest {
      if n > 0 {
        TakeCopiesMiss(c, v, n);
      }
      assert Avail(c.rest, v, n) == 0;
      assert c.block + [] == c.block;
    } else {
      TakeCopiesHit(c, v, n);
    }
  }

  lemma {:induction false} TakeCopiesHit(c: Carve, v: int, n: int)
    requires n > 0 && v in c.rest
    ensures TakeCopies(c, v, n).block == c.block + Repeat(v, Avail(c.rest, v, n))
    decreases n, 0
  {
    var k := Avail(c.rest, v, n);
    TakeCopiesUnfold(c, v, n);
    TakeOneStep(c, v, n);
    TakeCopiesBlock(TakeOne(c, v), v, n - 1);
    RepeatSplit(v, k);
    assert c.block + [v] + Repeat(v, k - 1) == c.block + Repeat(v, k);
  }

  /** ... and those copies are gone from the dispenser, every other value untouched. */
  lemma {:induction false} TakeCopiesRest(c: Carve, v: int, n: int, x: int)
    ensures Copies(TakeCopies(c, v, n).rest, x)
            == if x == v then Copies(c.rest, x) - Avail(c.rest, v, n) else Copies(c.rest, x)
    decreases n
  {
    if n <= 0 {
    } else if v in c.rest {
      TakeCopiesUnfold(c, v, n);
      TakeOneStep(c, v, n);
      TakeCopiesRest(TakeOne(c, v), v, n - 1, x);
    } else {
      TakeCopiesUnfold(c, v, n);
      assert Copies(c.rest, v) == 0;
      TakeCopiesRest(c, v, n - 1, x);
    }
  }

  lemma TakeCopiesShape(c: Carve, v: int, n: int)
    ensures TakeCopies(c, v, n).block == c.block + Repeat(v, Avail(c.rest, v, n))
    ensures multiset(TakeCopies(c, v, n).rest) + multiset(Repeat(v, Avail(c.rest, v, n)))
            == multiset(c.rest)
  {
    TakeCopiesBlock(c, v, n);
    var a := multiset(TakeCopies(c, v, n).rest);
    var b := multiset(Repeat(v, Avail(c.rest, v, n)));
    forall x ensures (a + b)[x] == multiset(c.rest)[x] {
      TakeCopiesRest(c, v, n, x);
      RepeatCopies(v, Avail(c.rest, v, n));
    }
  }

  /** One block holds, of each denomination vals[j], its definition entry's worth of copies,
      or what is left when the dispenser runs short, ... */
  lemma {:induction false} TakenCopies(rest: seq<int>, vals: seq<int>, defs: seq<int>, j: nat)
    requires |vals| == |defs| && StrictlyAscending(vals) && j < |vals|
    ensures Copies(Taken(rest, vals, defs), vals[j]) == Avail(rest, vals[j], defs[j])
    decreases |vals|
  {
    RepeatCopies(vals[0], Avail(rest, vals[0], defs[0]));
    assert multiset(Taken(rest, vals, defs))
           == multiset(Repeat(vals[0], Avail(rest, vals[0], defs[0]))) + multiset(Taken(rest, vals[1..], defs[1..]));
    if j == 0 {
      assert vals[0] !in vals[1..];
      TakenOutside(rest, vals[1..], defs[1..], vals[0]);
    } else {
      assert vals[1..][j - 1] == vals[j] && vals[j] != vals[0];
      TakenCopies(rest, vals[1..], defs[1..], j - 1);
    }
  }

  /** ... and nothing else. */
  lemma {:induction false} TakenOutside(rest: seq<int>, vals: seq<int>, defs: seq<int>, x: int)
    requires |vals| == |defs| && x !in vals
    ensures Copies(Taken(rest, vals, defs), x) == 0
    decreases |vals|
  {
    if vals != [] {
      RepeatCopies(vals[0], Avail(rest, vals[0], defs[0]));
      assert x !in vals[1..] && x != vals[0];
      TakenOutside(rest, vals[1..], defs[1..], x);
      assert multiset(Taken(rest, vals, defs))
             == multiset(Repeat(vals[0], Avail(rest, vals[0], defs[0]))) + multiset(Taken(rest, vals[1..], defs[1..]));
    }
  }

  /** What one block takes depends only on the counts of the denominations. */
  lemma {:induction false} TakenFrame(r1: seq<int>, r2: seq<int>, vals: seq<int>, defs: seq<int>)
    requires |vals| == |defs|
    requires forall j :: 0 <= j < |vals| ==> Copies(r1, vals[j]) == Copies(r2, vals[j])
    ensures Taken(r1, vals, defs) == Taken(r2, vals, defs)
    decreases |vals|
  {
    if vals != [] {
      TakenFrame(r1, r2, vals[1..], defs[1..]);
    }
  }

  /** A block lists its copies in ascending denomination order and holds only denominations. */
  predicate BlockOf(b: seq<int>, vals: seq<int>)
  {
    Sorted(b) && forall x :: x in b ==> x in vals
  }

  lemma {:induction false} TakenSorted(rest: seq<int>, vals: seq<int>, defs: seq<int>)
    requires |vals| == |defs| && StrictlyAscending(vals)
    ensures BlockOf(Taken(rest, vals, defs), vals)
    decreases |vals|
  {
    if vals != [] {
      TakenSorted(rest, vals[1..], defs[1..]);
      var a := Repeat(vals[0], Avail(rest, vals[0], defs[0]));
      var b := Taken(rest, vals[1..], defs[1..]);
      forall i, j | 0 <= i < |a| && 0 <= j < |b| ensures a[i] <= b[j] {
        assert b[j] in b;
        assert b[j] in vals[1..];
      }
      SortedAppend(a, b);
      assert forall x :: x in a + b ==> x in a || x in b;
    }
  }

  lemma FillBlockUnfold(c: Carve, vals: seq<int>, defs: seq<int>)
    requires |vals| == |defs| && vals != []
    ensures FillBlock(c, vals, defs) == FillBlock(TakeCopies(c, vals[0], defs[0]), vals[1..], defs[1..])
  {
  }

  /** Taking the first denomination leaves the later denominations' counts alone. */
  lemma FillStepFrame(c: Carve, vals: seq<int>, defs: seq<int>)
    requires |vals| == |defs| && StrictlyAscending(vals) && vals != []
    ensures Taken(TakeCopies(c, vals[0], defs[0]).rest, vals[1..], defs[1..])
            == Taken(c.rest, vals[1..], defs[1..])
  {
    var c1 := TakeCopies(c, vals[0], defs[0]);
    forall j | 0 <= j < |vals[1..]|
      ensures Copies(c1.rest, vals[1..][j]) == Copies(c.rest, vals[1..][j])
    {
      assert vals[1..][j] == vals[j + 1] != vals[0];
      TakeCopiesRest(c, vals[0], defs[0], vals[1..][j]);
    }
    TakenFrame(c1.rest, c.rest, vals[1..], defs[1..]);
  }

  /** One block moves exactly Taken(...) from the dispenser into the block ... */
  lemma {:induction false} FillBlockBlock(c: Carve, vals: seq<int>, defs: seq<int>)
    requires |vals| == |defs| && StrictlyAscending(vals)
    ensures FillBlock(c, vals, defs).block == c.block + Taken(c.rest, vals, defs)
    decreases |vals|
  {
    if vals == [] {
      assert c.block + [] == c.block;
    } else {
      var c1 := TakeCopies(c, vals[0], defs[0]);
      FillBlockUnfold(c, vals, defs);
      TakeCopiesBlock(c, vals[0], defs[0]);
      FillBlockBlock(c1, vals[1..], defs[1..]);
      FillStepFrame(c, vals, defs);
      assert c.block + Taken(c.rest, vals, defs)
             == c.block + Repeat(vals[0], Avail(c.rest, vals[0], defs[0])) + Taken(c.rest, vals[1..], defs[1..]);
    }
  }

  /** ... and removes exactly those copies from the dispenser. */
  lemma {:induction false} FillBlockRest(c: Carve, vals: seq<int>, defs: seq<int>, x: int)
    requires |vals| == |defs| && StrictlyAscending(vals)
    ensures Copies(FillBlock(c, vals, defs).rest, x) + Copies(Taken(c.rest, vals, defs), x)
            == Copies(c.rest, x)
    decreases |vals|
  {
    if vals != [] {
      var c1 := TakeCopies(c, vals[0], defs[0]);
      var r0 := Repeat(vals[0], Avail(c.rest, vals[0], defs[0]));
      FillBlockUnfold(c, vals, defs);
      FillBlockRest(c1, vals[1..], defs[1..], x);
      FillStepFrame(c, vals, defs);
      TakeCopiesRest(c, vals[0], defs[0], x);
      RepeatCopies(vals[0], Avail(c.rest, vals[0], defs[0]));
      assert multiset(Taken(c.rest, vals, defs)) == multiset(r0) + multiset(Taken(c.rest, vals[1..], defs[1..]));
    }
  }

  /** With enough copies of every denomination, a block is one full block. */
  lemma {:induction false} TakenFull(rest: seq<int>, vals: seq<int>, defs: seq<int>)
    requires |vals| == |defs|
    requires forall j :: 0 <= j < |vals| ==> 0 <= defs[j] <= Copies(rest, vals[j])
    ensures Taken(rest, vals, defs) == FullBlock(vals, defs)
    decreases |vals|
  {
    if vals != [] {
      TakenFull(rest, vals[1..], defs[1..]);
    }
  }

  /** A full block holds exactly defs[j] copies of vals[j]. */
  lemma FullBlockCopies(vals: seq<int>, defs: seq<int>, j: nat)
    requires |vals| == |defs| && StrictlyAscending(vals) && j < |vals|
    requires forall i :: 0 <= i < |defs| ==> defs[i] >= 0
    ensures Copies(FullBlock(vals, defs), vals[j]) == defs[j]
  {
    var full := FullBlock(vals, defs);
    TakenFull(full, vals, defs) by {
      forall i | 0 <= i < |vals| ensures defs[i] <= Copies(full, vals[i]) {
        FullBlockAtLeast(vals, defs, i);
      }
    }
    TakenCopies(full, vals, defs, j);
    assert Copies(Taken(full, vals, defs), vals[j]) == Copies(full, vals[j]);
    FullBlockAtLeast(vals, defs, j);
    assert Avail(full, vals[j], defs[j]) == defs[j];
  }

  lemma {:induction false} FullBlockAtLeast(vals: seq<int>, defs: seq<int>, j: nat)
    requires |vals| == |defs| && j < |vals|
    requires forall i :: 0 <= i < |defs| ==> defs[i] >= 0
    ensures Copies(FullBlock(vals, defs), vals[j]) >= defs[j]
    decreases |vals|
  {
    RepeatCopies(vals[0], defs[0]);
    assert multiset(FullBlock(vals, defs))
           == multiset(Repeat(vals[0], defs[0])) + multiset(FullBlock(vals[1..], defs[1..]));
    if j > 0 {
      FullBlockAtLeast(vals[1..], defs[1..], j - 1);
    }
  }

  /** The total of one full block: sum over j of defs[j] * vals[j]. */
  lemma {:induction false} FullBlockSum(vals: seq<int>, defs: seq<int>)
    requires |vals| == |defs|
    requires forall i :: 0 <= i < |defs| ==> defs[i] >= 0
    ensures Sum(FullBlock(vals, defs)) == Dot(defs, vals)
    decreases |vals|
  {
    if vals != [] {
      FullBlockSum(vals[1..], defs[1..]);
      RepeatSum(vals[0], defs[0]);
      SumAppend(Repeat(vals[0], defs[0]), FullBlock(vals[1..], defs[1..]));
    }
  }

  // ---------------------------------------------------------------------------------
  // Rounds.

  lemma RoundsUnfold(acc: Carving, vals: seq<int>, defs: seq<int>, n: int, dropEmpty: bool)
    requires |vals| == |defs| && n > 0
    ensures Rounds(acc, vals, defs, n, dropEmpty)
            == Rounds(Round(acc, vals, defs, dropEmpty), vals, defs, n - 1, dropEmpty)
  {
  }

  /** One round records the block Taken(...) (unless it is empty and dropped) ... */
  lemma RoundBlocks(acc: Carving, vals: seq<int>, defs: seq<int>, dropEmpty: bool)
    requires |vals| == |defs| && StrictlyAscending(vals)
    ensures var t := Taken(acc.rest, vals, defs);
            Round(acc, vals, defs, dropEmpty).blocks
            == if dropEmpty && t == [] then acc.blocks else acc.blocks + [t]
  {
    FillBlockBlock(Carve([], acc.rest), vals, defs);
    assert [] + Taken(acc.rest, vals, defs) == Taken(acc.rest, vals, defs);
  }

  /** ... and removes its copies from the dispenser. */
  lemma RoundRest(acc: Carving, vals: seq<int>, defs: seq<int>, dropEmpty: bool, x: int)
    requires |vals| == |defs| && StrictlyAscending(vals)
    ensures Copies(Round(acc, vals, defs, dropEmpty).rest, x) + Copies(Taken(acc.rest, vals, defs), x)
            == Copies(acc.rest, x)
  {
    FillBlockRest(Carve([], acc.rest), vals, defs, x);
  }

  lemma FlatAppend(blocks: seq<seq<int>>, b: seq<int>)
    ensures Flat(blocks + [b]) == Flat(blocks) + b
  {
    assert (blocks + [b])[..|blocks|] == blocks;
  }

  lemma RoundConserve(acc: Carving, vals: seq<int>, defs: seq<int>, dropEmpty: bool, x: int)
    requires |vals| == |defs| && StrictlyAscending(vals)
    ensures var a1 := Round(acc, vals, defs, dropEmpty);
            Copies(Flat(a1.blocks), x) + Copies(a1.rest, x) == Copies(Flat(acc.blocks), x) + Copies(acc.rest, x)
  {
    var t := Taken(acc.rest, vals, defs);
    RoundBlocks(acc, vals, defs, dropEmpty);
    RoundRest(acc, vals, defs, dropEmpty, x);
    FlatAppend(acc.blocks, t);
    assert multiset(Flat(acc.blocks) + t) == multiset(Flat(acc.blocks)) + multiset(t);
  }

  /** Carving conserves the copies: every copy is in a block or left over. */
  lemma {:induction false} RoundsConserve(acc: Carving, vals: seq<int>, defs: seq<int>, n: int,
                                          dropEmpty: bool, x: int)
    requires |vals| == |defs| && StrictlyAscending(vals)
    ensures var r := Rounds(acc, vals, defs, n, dropEmpty);
            Copies(Flat(r.blocks), x) + Copies(r.rest, x) == Copies(Flat(acc.blocks), x) + Copies(acc.rest, x)
    decreases n
  {
    if n > 0 {
      RoundsUnfold(acc, vals, defs, n, dropEmpty);
      RoundsConserve(Round(acc, vals, defs, dropEmpty), vals, defs, n - 1, dropEmpty, x);
      RoundConserve(acc, vals, defs, dropEmpty, x);
    }
  }

  /** Every block recorded is in ascending order and holds only denominations. */
  lemma {:induction false} RoundsSorted(acc: Carving, vals: seq<int>, defs: seq<int>, n: int, dropEmpty: bool)
    requires |vals| == |defs| && StrictlyAscending(vals)
    ensures var r := Rounds(acc, vals, defs, n, dropEmpty);
            forall i :: |acc.blocks| <= i < |r.blocks| ==> BlockOf(r.blocks[i], vals)
    decreases n
  {
    if n > 0 {
      var a1 := Round(acc, vals, defs, dropEmpty);
      var r := Rounds(a1, vals, defs, n - 1, dropEmpty);
      RoundsUnfold(acc, vals, defs, n, dropEmpty);
      RoundsSorted(a1, vals, defs, n - 1, dropEmpty);
      RoundBlocks(acc, vals, defs, dropEmpty);
      TakenSorted(acc.rest, vals, defs);
      forall i | |acc.blocks| <= i < |a1.blocks| ensures BlockOf(r.blocks[i], vals) {
        assert r.blocks[i] == r.blocks[..|a1.blocks|][i] == a1.blocks[i];
      }
    }
  }

  /** One whole round with enough copies left builds one full block. */
  lemma RoundExactStep(acc: Carving, vals: seq<int>, defs: seq<int>, n: int)
    requires |vals| == |defs| && StrictlyAscending(vals) && n > 0
    requires forall j :: 0 <= j < |vals| ==> defs[j] > 0 && n * defs[j] <= Copies(acc.rest, vals[j])
    ensures Round(acc, vals, defs, false).blocks == acc.blocks + [FullBlock(vals, defs)]
    ensures forall j :: 0 <= j < |vals| ==>
              (n - 1) * defs[j] <= Copies(Round(acc, vals, defs, false).rest, vals[j])
  {
    forall j | 0 <= j < |vals|
      ensures defs[j] <= Copies(acc.rest, vals[j])
      ensures (n - 1) * defs[j] <= Copies(Round(acc, vals, defs, false).rest, vals[j])
    {
      ExactStepCount(acc, vals, defs, n, j);
    }
    TakenFull(acc.rest, vals, defs);
    RoundBlocks(acc, vals, defs, false);
  }

  lemma ExactStepCount(acc: Carving, vals: seq<int>, defs: seq<int>, n: int, j: nat)
    requires |vals| == |defs| && StrictlyAscending(vals) && n > 0 && j < |vals|
    requires defs[j] > 0 && n * defs[j] <= Copies(acc.rest, vals[j])
    ensures defs[j] <= Copies(acc.rest, vals[j])
    ensures (n - 1) * defs[j] <= Copies(Round(acc, vals, defs, false).rest, vals[j])
  {
    var d := defs[j];
    MulStep(n, d);
    RoundRest(acc, vals, defs, false, vals[j]);
    TakenCopies(acc.rest, vals, defs, j);
    assert Avail(acc.rest, vals[j], d) == d;
  }

  lemma MulStep(n: int, d: int)
    requires n > 0 && d > 0
    ensures n * d >= d && (n - 1) * d == n * d - d
  {
    MulAtLeast(n, d);
  }

  /** The whole blocks: with positive entries and at least n full blocks' worth of every
      denomination, each of the n rounds builds one full block. */
  lemma {:induction false} RoundsExact(acc: Carving, vals: seq<int>, defs: seq<int>, n: int)
    requires |vals| == |defs| && StrictlyAscending(vals) && n >= 0
    requires forall j :: 0 <= j < |vals| ==> defs[j] > 0 && n * defs[j] <= Copies(acc.rest, vals[j])
    ensures var r := Rounds(acc, vals, defs, n, false);
            forall i :: |acc.blocks| <= i < |r.blocks| ==> r.blocks[i] == FullBlock(vals, defs)
    decreases n
  {
    if n > 0 {
      var a1 := Round(acc, vals, defs, false);
      var r := Rounds(a1, vals, defs, n - 1, false);
      RoundExactStep(acc, vals, defs, n);
      RoundsUnfold(acc, vals, defs, n, false);
      RoundsExact(a1, vals, defs, n - 1);
      forall i | |acc.blocks| <= i < |a1.blocks| ensures r.blocks[i] == FullBlock(vals, defs) {
        assert r.blocks[i] == r.blocks[..|a1.blocks|][i] == a1.blocks[i];
      }
    }
  }

  /** The partial blocks: with positive entries, n rounds empty a dispenser that holds only
      denominations, at most n copies of each. */
  lemma {:induction false} RoundsDrain(acc: Carving, vals: seq<int>, defs: seq<int>, n: int, dropEmpty: bool)
    requires |vals| == |defs| && StrictlyAscending(vals)
    requires forall j :: 0 <= j < |vals| ==> defs[j] > 0 && Copies(acc.rest, vals[j]) <= n
    requires forall x :: x in acc.rest ==> x in vals
    ensures Rounds(acc, vals, defs, n, dropEmpty).rest == []
    decreases n
  {
    if n <= 0 {
      forall x ensures multiset(acc.rest)[x] == 0 {
        if x in vals {
          var j :| 0 <= j < |vals| && vals[j] == x;
        }
      }
      assert multiset(acc.rest) == multiset{};
    } else {
      var a1 := Round(acc, vals, defs, dropEmpty);
      forall j | 0 <= j < |vals| ensures Copies(a1.rest, vals[j]) <= n - 1 {
        RoundRest(acc, vals, defs, dropEmpty, vals[j]);
        TakenCopies(acc.rest, vals, defs, j);
      }
      forall x | x in a1.rest ensures x in vals {
        RoundRest(acc, vals, defs, dropEmpty, x);
      }
      RoundsUnfold(acc, vals, defs, n, dropEmpty);
      RoundsDrain(a1, vals, defs, n - 1, dropEmpty);
    }
  }

  /** With positive entries and non-negative counts there are never more whole rounds than
      the counts allow: W full blocks of every denomination fit in its count. */
  lemma WholeCountFits(m: map<int, int>, vals: seq<int>, defs: seq<int>)
    requires |vals| == |defs| > 0
    requires forall j :: 0 <= j < |vals| ==> vals[j] in m && m[vals[j]] >= 0 && defs[j] > 0
    ensures MinWeight(m, vals, defs) >= 0
    ensures forall j :: 0 <= j < |vals| ==> MinWeight(m, vals, defs) * defs[j] <= m[vals[j]]
  {
    var w := MinWeight(m, vals, defs);
    forall j | 0 <= j < |vals| ensures TruncDiv(m[vals[j]], defs[j]) >= 0 && w * defs[j] <= m[vals[j]] {
      QuotientFits(w, m[vals[j]], defs[j]);
    }
  }
}
