# A verified model of the subset solver, the function delegate and the decimal core

This project is a Dafny model of three parts of a small C++ header library (namespaces
`numeric` and `ftor`), with proofs of what each part promises.

- **The subset solver** (`numeric::subset`, `numeric/subset/subset.h`). The solver is built
  from a map of denominations to counts.
  - Construction drops the empty counts.
  - It lays every copy out in a sorted "master dispenser".
  - It computes the block *definition*: how many copies of each denomination bridge the gap
    to the next one.
  - It carves the dispenser into whole blocks and partial blocks.
  - Queries are answered greedily (`LeastNumberSolve`) or by exhaustive include/exclude
    search over one block (`AnilaoSolve`).

  The class, its initialisation steps and its loops are imperative Dafny. The loops are
  proved against recursive specification functions (`Definition`, `Rounds`, `LeastNumber`),
  and lemmas state what the solver promises about those functions.
- **The function delegate and the invalidation registry** (`ftor/i_function_delegate.h`,
  `ftor/i_object_function.h`, `ftor/object_function.h`).
  - An object function calls a member function on a target object.
  - The target derives from `ObjectFunctionOwner`, which keeps a registry of the object
    functions pointing into it and clears them when it is destroyed.
  - A delegate stores clones of function objects and purges the invalid ones.
  - The owner and the object function are Dafny classes with `modifies` frames. The
    delegate's vector is a `seq` field, specified by functions (`Valids`, `AddOnce`,
    `AddEach`, `RemoveEach`, `Invalidated`) whose properties are lemmas.
- **The integer core of `numeric::decimal<PRECISION>`** (`numeric/decimal/decimal.h`).
  - A 64-bit raw value is kept within `[GetMinValue(), GetMaxValue()]`.
  - `+`, `-` and assignment go through the range check.
  - The comparisons are on the raw values.
  - The rounding step of the `long double` constructor is modelled on its integer part.

C++ integer division and remainder truncate toward zero. They are modelled explicitly
(`TruncArith.TruncDiv`, `TruncArith.TruncMod`), because definition gaps can be negative.
For example, denominations 10, 11, 12, 13 give a definition entry of -1 for 12. Exceptions
the source throws become `Result`/`Outcome` failures or a `false` result.

Files:

| file | contents |
|---|---|
| `wrappers.dfy` | `Result`, `Option`, `Outcome` |
| `seq_util.dfy` | sums, runs of copies, order, subsequences, `std::find` and `vector::erase` |
| `trunc_arith.dfy` | C++ `/` and `%` |
| `subset_definition.dfy` | the definition and range |
| `subset_inventory.dfy` | key order, pruning, the dispenser |
| `subset_blocks.dfy` | block carving |
| `subset_greedy.dfy` | the greedy solver |
| `subset.dfy` | the `Subset` class, the initialisation loops and the search |
| `object_function.dfy` | `ClassFunction`, `ObjectFunction`, `ObjectFunctionOwner` |
| `function_delegate.dfy` | `FunctionDelegate` |
| `decimal.dfy` | `Decimal` |

Where the descriptive documentation of the library and the code differ, the model follows
the code:
- `AnilaoSolve` first searches the partial blocks for target 0. That search always records
  the empty subset, so only the first partial block is ever searched for the real target,
  not "the partial blocks first".
- The `decimal` range check compares the *scaled* raw value against `GetMaxValue()`, which
  its comment calls the largest whole number. The model keeps the code's check.

## Model

| member | source | states |
|---|---|---|
| SubsetDefinition.Requirement | numeric/subset/subset.h:616-644 | a definition entry is never zero; entry copies of the denomination close the gap; one copy fewer does not, except in the raised-to-one case, which is exactly the case of a gap within one denomination at or below zero |
| SubsetDefinition.RequirementCases | numeric/subset/subset.h:618-644 | the entry equals each of the three C++ branches (zero quotient raised to 1, a positive remainder rounded up, otherwise the quotient) under that branch's condition |
| SubsetDefinition.DefinitionFrom | numeric/subset/subset.h:605-654 | one entry per denomination; the last entry is 1; no entry is zero |
| SubsetDefinition.DefinitionStep | numeric/subset/subset.h:611-653 | one loop iteration: the last denomination gets 1 and fixes the high end; any other gets its Requirement and advances the running count |
| SubsetDefinition.DefinitionAdvance | numeric/subset/subset.h:616-644 | the loop state (entries emitted plus the entries still to come) is carried unchanged from one position to the next |
| SubsetDefinition.HighIsBlockTotal | numeric/subset/subset.h:651-652 | range_high equals the running count plus the total of one block built to the definition |
| SubsetDefinition.PrefixReachesNext | numeric/subset/subset.h:608-644 | the copies of the first j+1 denominations in one block add up to at least the next denomination |
| SubsetDefinition.DefinitionShape | numeric/subset/subset.h:591-657 | definition length equals the number of denominations, its last entry is 1, no entry is zero; low is the smallest denomination; high is the total of one full block |
| SubsetInventory.SetMin | numeric/subset/subset.h:597-603 | the result is an element no larger than every element of the set (std::min_element over a set) |
| SubsetInventory.Ascending | numeric/subset/subset.h:610 | the sequence has one position per element of the set |
| SubsetInventory.AscendingFacts | numeric/subset/subset.h:610 | the std::set order is strictly ascending and lists exactly the members |
| SubsetInventory.KeysInOrder | numeric/subset/subset.h:418-432 | the std::map keys are visited in strictly ascending order, and each is a key |
| SubsetInventory.KeyPosition | numeric/subset/subset.h:398-410 | every key of the map is visited by the iteration over it |
| SubsetInventory.Prune | numeric/subset/subset.h:396-418 | a key is kept iff its count is positive, with its count unchanged |
| SubsetInventory.FlattenCopies | numeric/subset/subset.h:423-435 | the dispenser holds exactly m[v] copies of each key v, and nothing else |
| SubsetInventory.FlattenSorted | numeric/subset/subset.h:423-435 | the dispenser of ascending keys is in non-decreasing order |
| SubsetInventory.DispenserContents | numeric/subset/subset.h:423-435 | for a valid inventory, the master dispenser holds exactly count copies of each denomination and is sorted |
| SubsetBlocks.TakeCopiesHit | numeric/subset/subset.h:491-503 | the inner find/erase loop moves min(n, copies left) copies of v to the end of the block |
| SubsetBlocks.TakeCopiesRest | numeric/subset/subset.h:491-503 | those copies leave the dispenser, and every other value's count is untouched |
| SubsetBlocks.TakenCopies | numeric/subset/subset.h:488-506 | one block holds, of each denomination, its definition entry's worth of copies, or all that are left |
| SubsetBlocks.TakenOutside | numeric/subset/subset.h:488-506 | one block holds no value that is not a denomination |
| SubsetBlocks.TakenSorted | numeric/subset/subset.h:487-506 | a block lists its copies in ascending denomination order |
| SubsetBlocks.FillBlockBlock | numeric/subset/subset.h:486-506 | a round appends exactly the copies Taken describes to the block |
| SubsetBlocks.FillBlockRest | numeric/subset/subset.h:486-506 | a round removes exactly those copies from the dispenser |
| SubsetBlocks.TakenFull | numeric/subset/subset.h:556-576 | with enough copies of every denomination, a block is one full block of the definition |
| SubsetBlocks.FullBlockCopies | numeric/subset/subset.h:558-576 | a full block holds exactly definition[j] copies of the j-th denomination |
| SubsetBlocks.FullBlockSum | numeric/subset/subset.h:558-576 | a full block totals the sum of definition[j] times the j-th denomination |
| SubsetBlocks.Rounds | numeric/subset/subset.h:484-509 | n rounds append at most n blocks (exactly n for the whole blocks), keep the earlier blocks, and drop empty blocks in the partial mode |
| SubsetBlocks.RoundsConserve | numeric/subset/subset.h:484-509 | carving conserves copies: every copy is in a block or left over |
| SubsetBlocks.RoundsSorted | numeric/subset/subset.h:554-579 | every block recorded is in ascending order and holds only denominations |
| SubsetBlocks.RoundsExact | numeric/subset/subset.h:554-579 | with n full blocks' worth of every denomination, each of the n whole blocks is one full block |
| SubsetBlocks.RoundsDrain | numeric/subset/subset.h:484-509 | rounding for the largest remaining count leaves the dispenser empty |
| SubsetBlocks.MinWeight | numeric/subset/subset.h:533-551 | the number of whole rounds is a C++ count/definition quotient that is no larger than any other |
| SubsetBlocks.MaxCount | numeric/subset/subset.h:468-481 | the number of partial rounds is a count no smaller than any other |
| SubsetBlocks.WholeCountFits | numeric/subset/subset.h:554 | the number of whole rounds is non-negative, and that many definition entries fit in each count |
| SubsetGreedy.Retrieved | numeric/subset/subset.h:260-267 | the copies taken are at least one, at most the count, and at most the C++ quotient of the running total |
| SubsetGreedy.GreedyStep | numeric/subset/subset.h:270-287 | the copies taken fit in the running total; the remainder test is the "not yet exact" test |
| SubsetGreedy.GreedyWalkIdle | numeric/subset/subset.h:256-297 | from a running total that is not positive, the walk takes nothing |
| SubsetGreedy.GreedyWalkSorted | numeric/subset/subset.h:256-297 | the greedy answer is sorted and made of denominations |
| SubsetGreedy.GreedyWalkCounts | numeric/subset/subset.h:256-297 | the greedy answer uses no denomination more often than its count |
| SubsetGreedy.GreedyWalkTotal | numeric/subset/subset.h:253-297 | running_total plus the sum of ret_vector stays the target through the walk; from a positive total the walk leaves something unfilled unless it ends at the break, so its answer reaches the target exactly when it breaks |
| SubsetGreedy.GreedySolve | numeric/subset/subset.h:247-307 | the reverse-order loop with its break computes LeastNumber, keeping running_total + sum(ret_vector) == target |
| SubsetGreedy.LeastNumberExact | numeric/subset/subset.h:247-307 | the greedy answer is non-empty iff the walk ends at the break, and then it sums to the target |
| SubsetGreedy.LeastNumberProperties | numeric/subset/subset.h:247-307 | the answer is empty or sums exactly to the target, is sorted, is made of denominations, respects the counts, and is empty for a target that is not positive |
| Subsets.ExtendsCases | numeric/subset/subset.h:688-696 | the recordable completions split exactly into the include branch and the exclude branch |
| Subsets.ExtendsNothing | numeric/subset/subset.h:673-686 | at the end of the block, only the output buffer itself is a completion |
| Subsets.ExtendsTop | numeric/subset/subset.h:330-355 | from the top of a block with an empty buffer, the completions are the block's subsequences |
| Subsets.Longest | numeric/subset/subset.h:369-381 | the position of an entry of the largest size, and no earlier entry has that size (the scan replaces only on a strictly larger size) |
| Subsets.LongestUnique | numeric/subset/subset.h:369-381 | a position of the largest size with no earlier one of that size is the one Longest picks |
| Subsets.SubsetRecurse | numeric/subset/subset.h:666-697 | the result is Recorded: completions appended depth first, include branch before exclude branch, each only if not recorded yet; so it keeps its old entries as a prefix, stays duplicate-free, and gains exactly the completions of output over numbers[index..] that sum to the target |
| Subsets.SearchBlock | numeric/subset/subset.h:330-355 | the result is Recorded from the top of the block; it adds exactly the subsequences of the block summing to the target, keeping the old entries first |
| Subsets.LongestEntry | numeric/subset/subset.h:359-381 | the first entry of the largest size, that is, Longest |
| Subsets.DenominationsOf | numeric/subset/subset.h:610 | a non-empty set of positive values, ascending, is a denomination list |
| Subsets.EmptyCounts | numeric/subset/subset.h:396-409 | the keys collected are exactly those whose count is not positive |
| Subsets.EraseKeys | numeric/subset/subset.h:411-417 | erasing them leaves exactly the other keys, with their counts |
| Subsets.PrunedBy | numeric/subset/subset.h:396-417 | the two loops together compute Prune |
| Subsets.DefinitionLoop | numeric/subset/subset.h:605-654 | the loop computes Definition and RangeHigh of the ascending denominations |
| Subsets.CalculateDefinition | numeric/subset/subset.h:591-657 | no values leaves low and high untouched and gives the empty definition; otherwise Definition, low the smallest denomination, high RangeHigh |
| Subsets.LowestStep | numeric/subset/subset.h:533-551 | one pass of the lowest-weight loop keeps the smallest weight so far, first occurrence kept on ties |
| Subsets.LowestWeight | numeric/subset/subset.h:533-551 | a position whose weight is MinWeight, and every earlier position has a strictly larger weight (the first such position) |
| Subsets.HighestCount | numeric/subset/subset.h:468-481 | a position whose count is MaxCount, and every earlier position has a strictly smaller count (the first such position) |
| Subsets.CalculateWholeBlocks | numeric/subset/subset.h:521-582 | fails iff the definition size differs from the map size; otherwise the whole-block rounds of the dispenser |
| Subsets.CalculatePartialBlocks | numeric/subset/subset.h:456-512 | fails iff the definition size differs from the map size; otherwise the partial-block rounds, empties dropped |
| Subsets.FillDispenser | numeric/subset/subset.h:423-435 | the values are the keys and the dispenser is Dispenser(m) |
| Subsets.AllKeysRecorded | numeric/subset/subset.h:423-432 | the values recorded are exactly the keys |
| Subsets.EstablishedFrom | numeric/subset/subset.h:437-446 | the parts computed in Initialize's order make up the initialised state |
| Subsets.Construct | numeric/subset/subset.h:423-446 | from a valid inventory, everything Initialize computes after pruning, as the initialised state |
| Subsets.CarvedBlocksPositive | numeric/subset/subset.h:437-446 | the whole blocks and the partial blocks carved from what they leave are sorted, hold only denominations, and so have positive elements |
| Subsets.EstablishedBlocksPositive | numeric/subset/subset.h:394-447 | every block of an initialised solver is sorted and made of its denominations; its elements are positive, which is what AnilaoSolve requires |
| Subsets.CarvingConserves | numeric/subset/subset.h:437-446 | the whole blocks, the partial blocks carved from their leftover and the final leftover together hold exactly the dispenser's copies of every value |
| Subsets.WholeExact | numeric/subset/subset.h:521-582 | with positive definition entries, every whole block is one full block of the definition |
| Subsets.PartialDrains | numeric/subset/subset.h:456-512 | with positive definition entries, the largest count is enough partial rounds to leave nothing over |
| Subsets.RestWithin | numeric/subset/subset.h:456-481 | a part of the dispenser holds only denominations, each no more often than the largest count |
| Subsets.EstablishedCarving | numeric/subset/subset.h:394-447 | the blocks of an initialised solver hold no more copies of a value than the dispenser; with positive definition entries, every whole block is a full block and the blocks hold exactly the dispenser |
| Subsets.BuildBlock | numeric/subset/subset.h:486-506 | one block is FillBlock of the dispenser; it is Taken, sorted, and conserves every value's copies |
| Subsets.BuildRounds | numeric/subset/subset.h:484-509 | the outer loop computes Rounds |
| Subsets.Subset.constructor | numeric/subset/subset.h:174-178 | the value map is copied and the derived state starts empty |
| Subsets.Subset.Initialize | numeric/subset/subset.h:394-447 | the map is pruned; it fails iff nothing is left; otherwise the state is the initialised state |
| Subsets.Subset.PruneCounts | numeric/subset/subset.h:396-418 | the map becomes Prune of the old map |
| Subsets.Subset.Build | numeric/subset/subset.h:423-446 | the state becomes the initialised state of the pruned map |
| Subsets.Subset.GetRange | numeric/subset/subset.h:197-202 | low is the smallest denomination; high is the total of one full block |
| Subsets.Subset.GetBlockDefinition | numeric/subset/subset.h:211-214 | the definition: one non-zero entry per denomination, ending in 1 |
| Subsets.Subset.GetWholeBlockVector | numeric/subset/subset.h:223-226 | the whole blocks; once initialised, as many as the smallest count over its entry (C++ division), or none when that quotient is negative, each sorted and made of denominations, and each a full block when the entries are positive |
| Subsets.Subset.GetPartialBlockVector | numeric/subset/subset.h:235-238 | the partial blocks; once initialised, non-empty, sorted, made of denominations, and with the whole blocks no more than the dispenser (exactly the dispenser when the entries are positive) |
| Subsets.Subset.LeastNumberSolve | numeric/subset/subset.h:247-307 | LeastNumber: empty or exactly the target, sorted, made of denominations within their counts, empty for targets that are not positive |
| Subsets.Subset.AnilaoSolve | numeric/subset/subset.h:316-385 | empty or a subsequence of the searched block summing to the target, and no such subsequence is longer; among equally long ones, the first recorded in include-first order (the entry Longest picks from SearchResult) |
| SeqUtil.SumAppend | numeric/subset/subset.h:301 | std::accumulate distributes over concatenation |
| SeqUtil.RepeatSum | numeric/subset/subset.h:280-294 | n inserted copies of v sum to n times v |
| SeqUtil.RepeatCopies | numeric/subset/subset.h:431-433 | n copies of v hold n v's and nothing else |
| SeqUtil.SubsequenceSum | numeric/subset/subset.h:675-677 | a subsequence of positive values sums to at most the whole, and positively when non-empty |
| SeqUtil.RemoveFirst | ftor/i_object_function.h:246-254 | find-then-erase removes one occurrence when there is one, and otherwise changes nothing |
| SeqUtil.RemoveFirstOrder | ftor/i_object_function.h:246-254 | the others keep their order |
| SeqUtil.RemoveFirstMembers | ftor/i_object_function.h:246-254 | the other elements are kept and nothing is added |
| SeqUtil.RemoveFirstDistinct | ftor/i_object_function.h:246-254 | without duplicates, no copy of the erased element remains |
| SeqUtil.Find | ftor/i_object_function.h:224-226 | std::find: the first position of x, or the end |
| SeqUtil.EraseFound | ftor/i_object_function.h:251-254 | erasing at the found position is RemoveFirst |
| SeqUtil.AppendIfAbsent | ftor/i_object_function.h:224-232 | the element is present afterwards; nothing but it is added, at most once, at the end; no duplicates are introduced |
| TruncArith.TruncDivMod | numeric/subset/subset.h:616-643 | the C++ quotient and remainder: quotient times divisor plus remainder gives the dividend; the remainder has the dividend's sign and is smaller than the divisor; the quotient is zero iff the dividend is smaller in magnitude |
| TruncArith.QuotientFits | numeric/subset/subset.h:554 | a round count no larger than the C++ quotient of count by entry uses no more copies than the count |
| ObjectFunctions.ClassFunction.IsValid | ftor/object_function.h:61-64 | a pair is invalid when its object pointer is NULL, and otherwise valid iff its member-function pointer is not NULL |
| ObjectFunctions.ClassFunction.Clear | ftor/object_function.h:55-58 | clear() sets both pointers to NULL, so the pair is no longer valid |
| ObjectFunctions.Deregistered | ftor/i_object_function.h:162-170 | a valid function leaves the registry (no copy remains of a duplicate-free registry), the others stay, and an invalid one changes nothing |
| ObjectFunctions.ObjectFunctionOwner.constructor | ftor/i_object_function.h:99 | the registry starts empty |
| ObjectFunctions.ObjectFunctionOwner.AddFunctionObject | ftor/i_object_function.h:220-233 | the registry becomes AppendIfAbsent of the old registry |
| ObjectFunctions.ObjectFunctionOwner.InvalidateFunctionObject | ftor/i_object_function.h:242-255 | the registry becomes RemoveFirst of the old registry |
| ObjectFunctions.ObjectFunctionOwner.Destroy | ftor/i_object_function.h:202-211 | every registered function's pair is cleared, so it is invalid; owners are unchanged |
| ObjectFunctions.ObjectFunction.IsValid | ftor/object_function.h:95-98 | a function is valid iff neither pointer of its pair is NULL |
| ObjectFunctions.ObjectFunction.Default | ftor/object_function.h:76 | no owner and a NULL pair: not valid |
| ObjectFunctions.ObjectFunction.constructor | ftor/object_function.h:79-81 | the object is the owner; its registry gains exactly this function at the end; the link holds |
| ObjectFunctions.ObjectFunction.Copy | ftor/object_function.h:84-86 | the same owner and pair; the owner's registry gains the copy at the end; a linked original gives a linked copy |
| ObjectFunctions.ObjectFunction.InvalidateInOwner | ftor/i_object_function.h:162-170 | the owner's registry becomes Deregistered of the old registry (and the destructor at ftor/object_function.h:89-92 does only this) |
| ObjectFunctions.ObjectFunction.CopyData | ftor/i_object_function.h:179-193 | it adopts the original's owner; the old owner deregisters it only if it is valid (an invalid function stays in that registry); the new owner registers it once; when they are the same owner, a valid function moves to the end and an invalid one keeps its place |
| ObjectFunctions.ObjectFunction.Assign | ftor/object_function.h:106-116 | as CopyData (deregistration only of a valid function), then the pair is copied; the right-hand side's link carries over to this function |
| ObjectFunctions.ObjectFunction.InvalidateFunction | ftor/object_function.h:121-124 | the pair is cleared, so the function is invalid; its owner is unchanged |
| FunctionDelegates.Clone | ftor/unary_function.h:89-92 | an invalid function clones to NULL; a valid one to an equal copy |
| FunctionDelegates.Valids | ftor/i_function_delegate.h:171-194 | the valid functions kept are no more than the stored ones |
| FunctionDelegates.ValidsFacts | ftor/i_function_delegate.h:171-194 | purging keeps exactly the valid functions, in their order |
| FunctionDelegates.ValidsOfValid | ftor/i_function_delegate.h:171-194 | purging a vector of valid functions changes nothing |
| FunctionDelegates.ValidsIdempotent | ftor/i_function_delegate.h:171-194 | purging twice is purging once |
| FunctionDelegates.ValidsAppend | ftor/i_function_delegate.h:171-194 | purging distributes over concatenation |
| FunctionDelegates.ValidsSkip | ftor/i_function_delegate.h:178-188 | erasing an invalid function does not change what a purge keeps, which is why restarting the scan is sound |
| FunctionDelegates.ValidsRemoveFirst | ftor/i_function_delegate.h:69-92 | removing a valid function commutes with purging; removing an invalid one leaves the purge alone |
| FunctionDelegates.AddOnce | ftor/i_function_delegate.h:95-132 | after Add, everything stored is valid; a valid function is stored; nothing new but it; every valid function already stored stays; no duplicates appear |
| FunctionDelegates.AddEachFacts | ftor/i_function_delegate.h:203-216 | adding functions that are all valid succeeds, stores each of them and keeps the valid ones already stored; no duplicates in any case |
| FunctionDelegates.RemoveEach | ftor/i_function_delegate.h:219-229 | removing adds nothing |
| FunctionDelegates.RemoveEachFacts | ftor/i_function_delegate.h:219-229 | every valid function removed is gone afterwards, and no duplicates remain |
| FunctionDelegates.Invalidated | ftor/i_object_function.h:202-211 | the destroyed target's destructor clears exactly the stored functions that call into it |
| FunctionDelegates.InvalidatedFacts | ftor/i_object_function.h:202-211 | afterwards no valid stored function calls into it, the valid ones are a subsequence of those before, and they stay duplicate-free |
| FunctionDelegates.EqualityFlagNeverReset | ftor/i_function_delegate.h:248-279 | the as-written operator== calls [a, b] and [a, c] equal although c is not stored on the left |
| FunctionDelegates.EqualIntendedIsSetEquality | ftor/i_function_delegate.h:248-279 | the corrected equality of duplicate-free delegates is non-empty set equality, and symmetric |
| FunctionDelegates.FunctionDelegate.constructor | ftor/i_function_delegate.h:53 | the delegate starts empty |
| FunctionDelegates.FunctionDelegate.Size | ftor/i_function_delegate.h:197-200 | the number of stored functions |
| FunctionDelegates.FunctionDelegate.Remove | ftor/i_function_delegate.h:69-92 | the first equal function is erased and the others keep their order |
| FunctionDelegates.FunctionDelegate.Add | ftor/i_function_delegate.h:95-132 | the vector becomes AddOnce of the old vector; it fails with ObjectFunctionException iff the function is invalid |
| FunctionDelegates.FunctionDelegate.ClearAll | ftor/i_function_delegate.h:135-147 | the vector becomes empty |
| FunctionDelegates.FunctionDelegate.IsValid | ftor/i_function_delegate.h:150-168 | the vector is purged; the answer is true iff a valid function remains |
| FunctionDelegates.FunctionDelegate.CleanOutInvalids | ftor/i_function_delegate.h:171-194 | the vector becomes exactly its valid functions in order; all of them are valid |
| FunctionDelegates.FunctionDelegate.TargetDestroyed | ftor/i_object_function.h:202-211 | the vector becomes Invalidated for the destroyed target |
| FunctionDelegates.FunctionDelegate.AddAll | ftor/i_function_delegate.h:203-216 | operator+= is AddEach of rhs's functions, stopping at the first exception; `d += d` leaves exactly the valid functions of d, in order, and throws nothing |
| FunctionDelegates.FunctionDelegate.RemoveAll | ftor/i_function_delegate.h:219-229 | operator-= is RemoveEach of rhs's functions |
| FunctionDelegates.FunctionDelegate.Assign | ftor/i_function_delegate.h:232-245 | as written: self-assignment empties the delegate; otherwise the result is AddEach of rhs's functions into an empty delegate |
| FunctionDelegates.FunctionDelegate.AssignChecked | ftor/i_function_delegate.h:232-245 | corrected: self-assignment changes nothing; otherwise as Assign |
| FunctionDelegates.FunctionDelegate.Equals | ftor/i_function_delegate.h:248-279 | as written: true iff the sizes agree, rhs is not empty, and rhs's first function is stored on the left |
| FunctionDelegates.FunctionDelegate.EqualsIntended | ftor/i_function_delegate.h:248-279 | corrected: true iff the sizes agree, rhs is not empty, and every function of rhs is stored on the left |
| FunctionDelegates.CopyOf | ftor/i_function_delegate.h:56-59 | the copy constructor: a fresh valid delegate holding AddEach of the original's functions, or the exception |
| Decimals.Pow10 | numeric/decimal/decimal.h:132 | 10^n is at least 1, and a positive multiple of ten for n > 0 |
| Decimals.Pow10AtMost | numeric/decimal/decimal.h:132 | the divisor 10^(PRECISION+1) is at most 10^18 for every supported precision |
| Decimals.Pow10Mono | numeric/decimal/decimal.h:132 | powers of ten grow with the exponent |
| Decimals.MaxValue | numeric/decimal/decimal.h:115-133 | GetMaxValue is positive and is the largest m with m times 10^(PRECISION+1) at most LLONG_MAX |
| Decimals.MinValue | numeric/decimal/decimal.h:136-154 | GetMinValue is negative and is the most negative m with m times 10^(PRECISION+1) not below LLONG_MIN (C++ division rounds toward zero) |
| Decimals.MinIsNegMax | numeric/decimal/decimal.h:136-154 | GetMinValue, LLONG_MIN truncated-divided by 10^(PRECISION+1), is exactly minus GetMaxValue |
| Decimals.NoOverflow | numeric/decimal/decimal.h:211-226 | the sum and difference of two in-range raw values fit in a long long |
| Decimals.Rounded | numeric/decimal/decimal.h:93-108 | the rounding step gives the nearest whole number to s/10, halves away from zero, with the sign of s and no larger magnitude |
| Decimals.RoundedInRange | numeric/decimal/decimal.h:108 | the second SetData of the constructor never fails |
| Decimals.Decimal.constructor | numeric/decimal/decimal.h:72-75 | the default constructor: raw value 0 |
| Decimals.Decimal.Copy | numeric/decimal/decimal.h:78-81 | the copy constructor: the same precision and raw value |
| Decimals.Decimal.SetData | numeric/decimal/decimal.h:56-67 | it stores the new value iff it lies in [GetMinValue, GetMaxValue]; otherwise it fails and the value is unchanged |
| Decimals.Decimal.Plus | numeric/decimal/decimal.h:211-217 | a fresh decimal holding the exact sum; it fails iff the sum is out of range |
| Decimals.Decimal.Minus | numeric/decimal/decimal.h:220-226 | a fresh decimal holding the exact difference; it fails iff the difference is out of range |
| Decimals.Decimal.Assign | numeric/decimal/decimal.h:243-248 | the raw value of rhs is copied, and the range check passes |
| Decimals.Decimal.Equals | numeric/decimal/decimal.h:229-233 | between decimals of one precision, == holds iff the numbers they stand for (data / 10^PRECISION) are equal |
| Decimals.Decimal.NotEquals | numeric/decimal/decimal.h:236-240 | between decimals of one precision, != holds iff the numbers they stand for differ |
| Decimals.Decimal.Greater | numeric/decimal/decimal.h:259-262 | between decimals of one precision, > holds iff this number is the larger |
| Decimals.Decimal.Less | numeric/decimal/decimal.h:265-268 | between decimals of one precision, < holds iff this number is the smaller |
| Decimals.ComparisonLaws | numeric/decimal/decimal.h:229-268 | != is the negation of ==; a < b iff b > a; == is symmetric; exactly one of <, == and > holds |
| Decimals.New | numeric/decimal/decimal.h:72-75 | construction fails iff PRECISION > 17; otherwise the raw value is 0 |
| Decimals.FromScaled | numeric/decimal/decimal.h:84-109 | it fails iff PRECISION > 17 or the scaled value is out of range; otherwise it stores Rounded of the scaled value |

## Left out

- Floating point in `decimal.h`: the `long double` multiplication by `pow(10.0, PRECISION + 1)` and its cast is a parameter (`FromScaled` takes the scaled integer). `operator*`, `operator/`, `operator=(long double)`, `operator long double`, `operator std::string`, `ToString` and `IsNaN` are not part of this model, because they compute in floating point.
- Decimals.FromScaled: the sign and magnitude computed through `double` at decimal.h:96 and 108 are taken as exact integer sign and magnitude. `double` represents every raw value in range exactly only below 2^53.
- `PRECISION` is a template argument in the source. Here it is a constant field fixed at construction, and the binary operators require both sides to have the same precision, as the template does.
- Subsets.Subset.LeastNumberSolve: the `int` products `retrieved_count * iter->first` are unbounded integers, so a 32-bit overflow for huge counts or denominations is not modelled.
- Subsets.Subset.LeastNumberSolve: requires the pruned, non-empty inventory with positive denominations that Initialize leaves behind; it is not stated for a solver whose construction threw.
- Subsets.Subset.Initialize: requires every key with a positive count to be positive. Keys whose counts are not positive are erased before anything divides by a key, so they may be anything; a kept zero key would divide by zero in CalculateDefinition, and kept negative keys are not modelled.
- Subsets.Subset.AnilaoSolve: requires positive block elements. Every initialised solver has them (Subsets.EstablishedBlocksPositive); the search over blocks with other values is not stated.
- Subsets.Subset.constructor: the C++ constructor runs Initialize itself; here the constructor copies the map and Initialize is a separate call, whose `false` result stands for the thrown exception.
- `CalculateDefinition`, `CalculateWholeBlocks` and `CalculatePartialBlocks` are module-level methods taking the fields they read as parameters, and return the blocks (the `left_over` reference parameter is the rest of the returned carving). The `index` counter in the maximum-count loop is never read and is left out.
- The 32-bit `int` arithmetic of the definition loop (`running_count`) and of the sums is unbounded here.
- Heap bookkeeping in the delegate is not modelled: `delete`, `Clone` on the heap and `dynamic_cast`. A stored clone is modelled by its (object, member function) pair, compared as the function objects' `operator==` compares them, and `Clone` returning NULL is `FunctionDelegates.Clone`.
- A stored clone becomes invalid when its target object is destroyed; the delegate sees this through `FunctionDelegate.TargetDestroyed`, not through a shared pointer.
- FunctionDelegates.FunctionDelegate.AddAll: `d += d` is excluded only when the first stored function of d is invalid: the purge in the first `Add` then deletes the very function being added, which is undefined behaviour in the source.
- FunctionDelegates.FunctionDelegate.RemoveAll: requires `rhs != this`; `d -= d` in the source erases from the vector it indexes and skips elements.
- The destructors of the delegate (`ClearAll`) and of `ObjectFunction` (`InvalidateInOwner`) are modelled by those methods; object lifetime itself is not modelled.
- `IObjectFunction` and `ObjectFunction<OBJECT_TYPE, FUNCTION_TYPE_PTR>` are one class here. The target object is an `ObjectFunctionOwner`, and a member-function pointer is an integer, 0 being NULL. `GetObjFunc` is the `objFuncPtr` field itself.
- The registry keeps pointers to destroyed functions only through explicit calls: an owner outliving its functions, and the dangling `pOwner` of functions outliving their owner, are not modelled.
- The other arities of function objects (nullary to sestary), static function wrappers, `property.h`, the observable clock, units, statistics and threads are not part of this model.

## Findings

| source | as written | input that shows it | evidently intended | confidence | as-written member | corrected member |
|---|---|---|---|---|---|---|
| ftor/i_function_delegate.h:248-279 | `operator==` never resets its match flag, so after the first rhs function is found every later one counts as found | delegates holding [a, b] and [a, c] compare equal | equal sizes and every rhs function stored on the left | not executed | FunctionDelegates.FunctionDelegate.Equals, FunctionDelegates.EqualityFlagNeverReset | FunctionDelegates.FunctionDelegate.EqualsIntended, FunctionDelegates.EqualIntendedIsSetEquality |
| ftor/i_function_delegate.h:232-245 | `operator=` calls `ClearAll()` before copying rhs, so self-assignment copies from an already emptied vector | `d = d` on a delegate holding one valid function leaves it empty | self-assignment leaves the delegate unchanged | not executed | FunctionDelegates.FunctionDelegate.Assign | FunctionDelegates.FunctionDelegate.AssignChecked |
