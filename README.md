# Slot manager, integer numerics and shift-reduce parser, in Dafny

This project models three self-contained pieces of C++ and proves their
contracts.

1. **`ob::t::Manager<T>`** (`Random/testingOBParticleSystem.cpp`). It is a
   generation-checked slot manager.
   - Elements live in a vector of atoms. Each atom belongs to a mark.
   - A handle is a `(markIdx, ctr)` pair. It is alive while its counter still
     equals its mark's.
   - `create` fills the slot at `sizeNext`. `destroy` only clears an alive
     flag.
   - `refresh` swaps the survivors into an alive prefix, destroys the dead
     elements, bumps their marks' generations and re-points the surviving
     marks.

   Modules: `SlotSpec` (the value-level vocabulary and the lemmas about it)
   and `SlotArena` (the `Manager` class, whose fields `atoms` and `marks`
   are sequences that its methods reassign).
2. **The integer algorithms of `numerical_calculus/include/nc_cpp.hpp`**:
   - `abs`, `mod` and parity;
   - `fold` with sum, product, min and max;
   - the Hoare-partition quicksort `sort_vector`, working in place on an
     array;
   - the recursive `binsearch`;
   - `insert_at` and `remove_at` on sorted vectors;
   - the fixed-size row-major `matrix` (`clear`, identity,
     `set_from_vector`, `+`, `-`, `*`) and `make_transposed`.

   Modules: `NcScalar`, `NcFold`, `NcSorted`, `NcMatrixSpec` (a value-level
   matrix `Mat` with its algebra) and `NcMatrix` (the `Matrix` class over an
   `array<int>`, proved against `Mat`).
3. **The toy shift-reduce parser of `Random/testAST.cpp`**:
   - rule parts and their equality;
   - matching a part against an AST node;
   - rule keys;
   - `ASTNode::emplaceChild`;
   - the `Parser` with its source, parse and node stacks, `shift`,
     `parseStackMatchesRule`, the reduction step of `reduceRecursively`, and
     `run`.

   Modules: `AstRules` (parts, nodes, keys, rules) and `AstParser` (the
   `Parser` class and the stack lemmas).

   One property shows that the parser's "match anywhere, pop the top" quirk
   does no harm inside `run`. A reduction matches a rule at any offset but
   always pops the top nodes. Under `run`'s discipline, every match ends at
   the top, so each pop removes exactly the matched nodes. The ghost field
   `popsMatched` records this, and `Run` proves it whenever it completes.

`Wrappers` holds the `Option` type.

## Model

`Manager.GetCapacity`, `GetSize` and `GetSizeNext` are plain reads of `|atoms|`, `size` and `sizeNext`. They model `getCapacity` (Random/testingOBParticleSystem.cpp:128), `getSize` and `getSizeNext` (Random/testingOBParticleSystem.cpp:264-265), and carry no contract of their own.

| member | source | states |
|---|---|---|
| SlotArena.Manager.constructor | Random/testingOBParticleSystem.cpp:168 | a new manager is empty (no atoms, no marks, size == sizeNext == 0) and valid |
| SlotArena.Manager.IsAlive | Random/testingOBParticleSystem.cpp:268-271 | a handle is alive iff its counter equals its mark's; an alive handle with an odd counter reaches a created slot owned by its mark |
| SlotArena.Manager.Get | Random/testingOBParticleSystem.cpp:93-103 | the element read through an alive handle is the one stored in the slot its mark designates |
| SlotArena.Manager.GetAtomAt | Random/testingOBParticleSystem.cpp:259-260 | the atom at any index below the capacity; its mark index is in range, and below sizeNext it holds an element |
| SlotArena.Manager.GetDataAt | Random/testingOBParticleSystem.cpp:261-262 | an alive slot lies below sizeNext and its element is returned |
| SlotArena.Manager.GrowCapacity | Random/testingOBParticleSystem.cpp:130-140 | both vectors grow by exactly amount; each new position i holds a dead, empty atom of mark i, and mark i designates slot i; old entries, size and sizeNext are unchanged; validity is kept |
| SlotArena.Manager.GrowIfNeeded | Random/testingOBParticleSystem.cpp:142-146 | grows by 10 exactly when capacity <= sizeNext, so that afterwards sizeNext < capacity |
| SlotArena.Manager.Reserve | Random/testingOBParticleSystem.cpp:179 | grows BY n when capacity < n, otherwise changes nothing; afterwards capacity >= n and nothing shrank |
| SlotArena.Manager.Create | Random/testingOBParticleSystem.cpp:181-200 | the slot at the old sizeNext holds x, is alive and is designated by its mark; that mark's counter went up by exactly 1; sizeNext + 1, size unchanged; the returned handle is alive, odd and reads x; every other atom and mark is as before |
| SlotArena.Manager.DestroyMark | Random/testingOBParticleSystem.cpp:148-151 | only the alive flag of the atom the mark designates is cleared |
| SlotArena.Manager.Destroy | Random/testingOBParticleSystem.cpp:273-276 | on an alive handle only its atom's alive flag changes; counters, size and sizeNext do not, so the handle still reports alive; destroying twice changes nothing more; atoms of other marks are untouched |
| SlotArena.Manager.Refresh | Random/testingOBParticleSystem.cpp:202-248 | size == sizeNext == number of atoms alive in [0, old sizeNext); that prefix holds exactly those atoms (as a multiset) and is alive; [size, old sizeNext) is dead and empty; doomed marks gain one generation; surviving marks keep theirs and designate their old atom below size; free marks are untouched |
| SlotArena.Manager.CleanUpMemory | Random/testingOBParticleSystem.cpp:156-165 | refresh runs first (size == sizeNext == number of survivors, capacities kept, every doomed mark one generation on and every other generation unchanged), then every remaining element is destroyed: afterwards no slot is alive or holds an element |
| SlotArena.Manager.Clear | Random/testingOBParticleSystem.cpp:171-177 | the manager is empty and valid again |
| SlotArena.Manager.ForEach | Random/testingOBParticleSystem.cpp:250-253 | f is applied to exactly the slots [0, size), in order; the slots created since the last refresh are not visited |
| SlotArena.Manager.ForEachAtom | Random/testingOBParticleSystem.cpp:254-257 | the callback runs on exactly the atoms [0, size), which must be alive for getData; each one gets the element the callback returns and is set dead exactly when the callback says so; marks, sizes and the atoms from size on are unchanged |
| SlotArena.Compact | Random/testingOBParticleSystem.cpp:202-248 | the three loops of refresh on the fields' values give the outcome stated for Refresh |
| SlotArena.Scan | Random/testingOBParticleSystem.cpp:205-232 | the swap scan leaves [0, n) alive and [n, end) dead, permutes [0, end), leaves the rest alone and keeps every atom with its mark |
| SlotArena.FindDead | Random/testingOBParticleSystem.cpp:208 | the first dead slot below sizeNext, or sizeNext |
| SlotArena.FindAlive | Random/testingOBParticleSystem.cpp:218-231 | the first alive slot in [from, end), or end, testing the end before reading a slot; its answer is the corrected search SearchAlive on the slots' alive flags |
| SlotArena.ReleaseDead | Random/testingOBParticleSystem.cpp:236-241 | each dead slot in [iAlive + 1, sizeNext) loses its element exactly once and its mark gains one generation |
| SlotArena.Resync | Random/testingOBParticleSystem.cpp:243-247 | the mark of each atom in [0, iAlive] designates that atom's slot; n == iAlive + 1 |
| SlotArena.StaleHandleScenario | Random/testingOBParticleSystem.cpp:273-276 | a destroy through a stale handle kills another element whose handle is still alive |
| SlotSpec.SurvivorsMembers | Random/testingOBParticleSystem.cpp:202-248 | the survivors of refresh are exactly the alive atoms |
| SlotSpec.SurvivorsRespectsPermutation | Random/testingOBParticleSystem.cpp:223 | swapping slots does not change which atoms survive |
| SlotSpec.SurvivorsOfPartition | Random/testingOBParticleSystem.cpp:234-247 | an alive prefix followed by dead atoms survives as exactly that prefix |
| SlotSpec.SwapKeepsInverse | Random/testingOBParticleSystem.cpp:223 | a swap of two atoms keeps the atoms' mark indices a permutation (with its inverse updated) |
| SlotSpec.RefreshOutcome | Random/testingOBParticleSystem.cpp:202-248 | the state after scan, clean-up and resync is well formed and is the refresh outcome above |
| SlotSpec.SearchAliveAsWritten | Random/testingOBParticleSystem.cpp:218-230 | refresh's inner search as written, reading slot k before testing k == sizeNext: a Found answer is an alive slot at or after k; past the end of the storage the answer is ReadsPastEnd |
| SlotSpec.SearchAsWrittenOverrunsFullStorage | Random/testingOBParticleSystem.cpp:218-230 | with sizeNext == capacity and no alive slot left, the search as written reads past the end |
| SlotSpec.SearchAgreesWhenRoomLeft | Random/testingOBParticleSystem.cpp:218-230 | when the slot at sizeNext exists and is dead, the written and the corrected search agree |
| SlotArena.FullStorageScenario | Random/testingOBParticleSystem.cpp:218-230 | a manager after reserve(10), ten creates and the destruction of the last: sizeNext == capacity == 10, slots 0-8 alive and slot 9 dead, so refresh's inner search starts at 10; as written it reads past the end, corrected it reports no alive slot |
| SlotSpec.SearchAlive | Random/testingOBParticleSystem.cpp:218-231 | the corrected search never reads past sizeNext and finds the first alive slot, or reports none |
| NcScalar.Abs | numerical_calculus/include/nc_cpp.hpp:14-18 | non-negative, and equal to x or -x |
| NcScalar.Mod | numerical_calculus/include/nc_cpp.hpp:20-31 | for b != 0, 0 <= mod(a, b) < abs(b), and it is the remainder of abs(a) by abs(b) |
| NcScalar.IsMultipleOf | numerical_calculus/include/nc_cpp.hpp:33-37 | true iff b divides a, whatever the signs |
| NcScalar.IsEven | numerical_calculus/include/nc_cpp.hpp:39-43 | true iff x is divisible by 2 |
| NcScalar.IsOdd | numerical_calculus/include/nc_cpp.hpp:45-49 | true iff x leaves remainder 1 |
| NcScalar.OddIsNotEven | numerical_calculus/include/nc_cpp.hpp:39-49 | is_odd is the negation of is_even, and parity flips from x to x + 1 |
| NcScalar.MultipleIgnoresSigns | numerical_calculus/include/nc_cpp.hpp:20-37 | b divides a iff abs(b) divides abs(a) |
| NcFold.Fold | numerical_calculus/include/nc_cpp.hpp:77-83 | the accumulator loop computes the left fold of f over the vector from the initial value |
| NcFold.FoldAddIsSum | numerical_calculus/include/nc_cpp.hpp:85-94 | folding + from 0 is the sum of the elements |
| NcFold.FoldMultiplyIsProduct | numerical_calculus/include/nc_cpp.hpp:96-105 | folding * from 1 is the product of the elements |
| NcFold.SumNumbers | numerical_calculus/include/nc_cpp.hpp:85-94 | the sum of the elements (0 for an empty vector) |
| NcFold.MultiplyNumbers | numerical_calculus/include/nc_cpp.hpp:96-105 | the product of the elements (1 for an empty vector) |
| NcFold.FoldMinIsLeast | numerical_calculus/include/nc_cpp.hpp:113-124 | folding min gives a value that is the initial one or an element, and at most all of them |
| NcFold.FoldMaxIsGreatest | numerical_calculus/include/nc_cpp.hpp:126-137 | folding max gives a value that is the initial one or an element, and at least all of them |
| NcFold.MinNumbers | numerical_calculus/include/nc_cpp.hpp:113-124 | on a non-empty vector, an element that is <= every element |
| NcFold.MaxNumbers | numerical_calculus/include/nc_cpp.hpp:126-137 | on a non-empty vector, an element that is >= every element |
| NcSorted.ScanUp | numerical_calculus/include/nc_cpp.hpp:202 | i advances to the first element not below the pivot, staying in range (the pivot acts as a sentinel) |
| NcSorted.ScanDown | numerical_calculus/include/nc_cpp.hpp:203 | j retreats to the first element not above the pivot, staying in range |
| NcSorted.SwapStopped | numerical_calculus/include/nc_cpp.hpp:205-210 | swapping the two stopped elements and stepping both indices keeps the partition invariant |
| NcSorted.Partition | numerical_calculus/include/nc_cpp.hpp:194-211 | lo < i < hi; [lo, i) is <= the pivot and [i, hi) is >= it; the range is permuted and the rest untouched |
| NcSorted.SortRange | numerical_calculus/include/nc_cpp.hpp:191-215 | the range ends sorted and a permutation of its old contents; the rest of the array is untouched |
| NcSorted.SortVector | numerical_calculus/include/nc_cpp.hpp:272-277 | the vector ends sorted and a permutation of its input |
| NcSorted.BinSearch | numerical_calculus/include/nc_cpp.hpp:217-235 | the result is -1 or an index holding x; an empty range gives -1 |
| NcSorted.BinSearchFindsPresent | numerical_calculus/include/nc_cpp.hpp:217-235 | on a sorted vector the result is -1 iff x is absent |
| NcSorted.FirstNotLessUnique | numerical_calculus/include/nc_cpp.hpp:245-255 | the insertion point is the only index with everything before it below x and the element at it not |
| NcSorted.InsertKeepsSorted | numerical_calculus/include/nc_cpp.hpp:237-258 | inserting x before the first element not below it keeps a sorted vector sorted |
| NcSorted.InsertAddsElement | numerical_calculus/include/nc_cpp.hpp:237-258 | insertion adds exactly x to the multiset of elements |
| NcSorted.InsertAt | numerical_calculus/include/nc_cpp.hpp:237-258 | the result is the old vector with x placed at the first position whose element is not < x; its multiset is the old one plus x; sortedness is kept |
| NcSorted.RemoveDropsElement | numerical_calculus/include/nc_cpp.hpp:260-269 | removing position p takes exactly that element out of the multiset |
| NcSorted.RemoveKeepsSorted | numerical_calculus/include/nc_cpp.hpp:260-269 | removing one element keeps a sorted vector sorted |
| NcSorted.RemoveAt | numerical_calculus/include/nc_cpp.hpp:260-269 | on a non-empty vector: a valid idx removes that element and keeps the rest in order; a negative or too large idx removes only the last element; sortedness is kept |
| NcMatrixSpec.CalcIndex | numerical_calculus/include/nc_cpp.hpp:314-320 | for row < R and col < C, the flat index is below R*C and divides back into (row, col) |
| NcMatrixSpec.Calc1dIndex | numerical_calculus/include/nc_cpp.hpp:322-328 | the column part is below C |
| NcMatrixSpec.IndexRoundTrip | numerical_calculus/include/nc_cpp.hpp:314-328 | on [0, R*C), calc_index undoes calc_1d_index |
| NcMatrixSpec.CellRoundTrip | numerical_calculus/include/nc_cpp.hpp:314-328 | calc_1d_index undoes calc_index |
| NcMatrixSpec.EntriesDetermine | numerical_calculus/include/nc_cpp.hpp:386-394 | two matrices of one shape with equal entries are equal |
| NcMatrixSpec.IdentityEntries | numerical_calculus/include/nc_cpp.hpp:340-350 | the identity has 1 on the diagonal and 0 elsewhere |
| NcMatrixSpec.Plus | numerical_calculus/include/nc_cpp.hpp:396-408 | each entry of the sum is the sum of the entries |
| NcMatrixSpec.Minus | numerical_calculus/include/nc_cpp.hpp:410-422 | each entry of the difference is the difference of the entries |
| NcMatrixSpec.PlusMinus | numerical_calculus/include/nc_cpp.hpp:396-422 | (a + b) - b == a |
| NcMatrixSpec.Transpose | numerical_calculus/include/nc_cpp.hpp:478-490 | the transpose's entry (j, i) is the entry (i, j) |
| NcMatrixSpec.TransposeTwice | numerical_calculus/include/nc_cpp.hpp:478-490 | transposing twice gives back the matrix |
| NcMatrixSpec.Times | numerical_calculus/include/nc_cpp.hpp:424-448 | entry (i, j) of the product is the dot product of row i and column j, accumulated from k = 0 |
| NcMatrixSpec.TimesIdentity | numerical_calculus/include/nc_cpp.hpp:424-448 | multiplying by the identity on either side gives back the matrix |
| NcMatrix.Matrix.At | numerical_calculus/include/nc_cpp.hpp:386-394 | operator() reads the entry (row, col) of the matrix's value |
| NcMatrix.Matrix.DontInit | numerical_calculus/include/nc_cpp.hpp:352 | a matrix of the given shape whose contents are not set |
| NcMatrix.Matrix.constructor | numerical_calculus/include/nc_cpp.hpp:353 | the zero matrix |
| NcMatrix.Matrix.InitIdentity | numerical_calculus/include/nc_cpp.hpp:354 | the identity matrix |
| NcMatrix.Matrix.Clear | numerical_calculus/include/nc_cpp.hpp:331-338 | every entry becomes 0 |
| NcMatrix.Matrix.ClearToIdentity | numerical_calculus/include/nc_cpp.hpp:340-350 | the square matrix becomes the identity |
| NcMatrix.Matrix.SetFromVector | numerical_calculus/include/nc_cpp.hpp:374-384 | the first \|xs\| cells in row-major order become xs, the rest keep their values |
| NcMatrix.Matrix.Add | numerical_calculus/include/nc_cpp.hpp:396-408 | a fresh matrix holding the entrywise sum |
| NcMatrix.Matrix.Sub | numerical_calculus/include/nc_cpp.hpp:410-422 | a fresh matrix holding the entrywise difference |
| NcMatrix.Matrix.Mul | numerical_calculus/include/nc_cpp.hpp:424-448 | a fresh matrix holding the matrix product |
| NcMatrix.MakeTransposed | numerical_calculus/include/nc_cpp.hpp:478-490 | a fresh matrix holding the transpose |
| AstRules.PartEq | Random/testAST.cpp:141-147 | true iff both parts have the same kind and an equal token or AST type |
| AstRules.PartNe | Random/testAST.cpp:148 | the negation of equality |
| AstRules.MatchesNode | Random/testAST.cpp:123-139 | a token node matches only a token part of its token type; any other node matches only a node part of its AST type |
| AstRules.MatchesFrom | Random/testAST.cpp:162-166 | the arguments equal the parts starting at idx, position by position |
| AstRules.KeyMatches | Random/testAST.cpp:174-177 | false when the argument count differs; otherwise true iff every argument equals the part at its position |
| AstRules.AstNode.constructor | Random/testAST.cpp:68-83 | a node with its type and impl set, no parent and no children |
| AstRules.AstNode.EmplaceChild | Random/testAST.cpp:86-90 | the node's parent becomes this node, which appends it to its children |
| AstParser.Parser.constructor | Random/testAST.cpp:218-224 | an empty parser: no nodes, no rules, empty stacks |
| AstParser.Parser.CreateRule | Random/testAST.cpp:204-213 | appends the rule and changes nothing else |
| AstParser.Parser.Shift | Random/testAST.cpp:229-239 | on a non-empty source stack, its top moves onto both the parse and the node stack; onto a stack without matches, any match afterwards ends at the top |
| AstParser.Parser.ParseStackMatchesRule | Random/testAST.cpp:241-254 | false when start + size exceeds the stack; otherwise true iff each part matches the node at start + i |
| AstParser.Parser.FindMatch | Random/testAST.cpp:263-269 | the first (rule, offset) that matches in the source's search order, or none at all |
| AstParser.Parser.Reduce | Random/testAST.cpp:271-302 | pops the top size nodes off both stacks and pushes one fresh result node; the callback gets them in stack order; the result's children are them in reverse stack order; each one's parent is the result; popsMatched records whether the match ended at the top |
| AstParser.Parser.PopUsed | Random/testAST.cpp:273-279 | used is the top size nodes of the parse stack, in stack order |
| AstParser.Parser.PopRemoved | Random/testAST.cpp:286-292 | removed is the top size nodes of the node stack, top first |
| AstParser.Parser.PopAdopt | Random/testAST.cpp:286-298 | the popped nodes become the result's children, top first, with the result as their parent |
| AstParser.AdoptAll | Random/testAST.cpp:294-298 | the result's children grow by exactly the given nodes, in order, each with the result as parent |
| AstParser.Parser.ReduceRecursively | Random/testAST.cpp:261-308 | settled means no rule matches anywhere; started with every match at the top, every reduction pops exactly its matched nodes; stacks only shrink; sources and rules unchanged |
| AstParser.Parser.Load | Random/testAST.cpp:312-329 | the stacks are cleared; one fresh token node per token is recorded in input order and inserted at the front of the source stack |
| AstParser.Parser.Run | Random/testAST.cpp:310-337 | token nodes carry the tokens in input order; when complete, the source stack is empty, tokens were shifted in input order, every reduction popped exactly its matched nodes, and no rule matches the final stack |
| AstParser.MatchInPrefix | Random/testAST.cpp:241-254 | matches in a prefix of the stack are the matches in the stack that end within the prefix |
| AstParser.PushOntoMatchFree | Random/testAST.cpp:229-239 | pushing onto a stack without matches leaves matches only at the top |
| AstParser.ReplaceTop | Random/testAST.cpp:273-302 | replacing the top nodes of a stack whose matches all end at the top by one node keeps that property |
| AstParser.ReduceAtTop | Random/testAST.cpp:263-302 | on such a stack the matched rule ends at the top, so the popped nodes are the matched ones |

## Left out

- The `OBParticleSystem` class (Random/testingOBParticleSystem.cpp:279-320). It is rendering and frame timing on top of SFML.
- Raw storage. `Uncertain<T>` becomes `Option<T>` in each atom: `None` means no element is constructed. Placement new and destructor calls become setting and clearing that option.
- Handles do not hold a reference to their manager. The manager is the object each handle operation is called on.
- Integer widths. `Idx`, `Ctr` and the `int` loop variables of refresh are unbounded. Counter wrap-around after 2^31 generations is not modelled.
- NcScalar.Abs, NcScalar.Mod, NcFold.SumNumbers, NcFold.MultiplyNumbers, NcMatrix.Matrix.Add, NcMatrix.Matrix.Sub, NcMatrix.Matrix.Mul and NcSorted.BinSearch: the model computes on unbounded integers. Their results match the C++ code only for inputs where no `int` operation overflows. The overflowing cases are undefined behaviour in C++ and are not modelled:
  - `abs(INT_MIN)`, and `mod` through its `a = abs(a)`;
  - the `int` accumulators of `sum_n_numbers` and `multiply_n_numbers`, whose `fold` deduces `int` from the literals `0` and `1`;
  - the entrywise `+` and `-`, and the `x += ...` accumulation of `operator*`;
  - the narrowing of `vec.size()` to `int len` in `find_in_sorted_vector`.
- SlotArena.Manager.Destroy: requires the handle to be alive. The source does not check this; the missing check is Finding 2.
- SlotArena.Manager.ForEachAtom: the callback reaches the atom only through `getData`, which asserts that the atom is alive, and `setDead`. It is a function from the element to the new element and a kill flag. The requires that [0, size) is alive comes from `getData`'s assertion. It excludes a callback that never calls `getData` (one that only calls `setDead`, or does nothing) running while [0, size) holds a dead atom, as happens when `forEachAtom` is called between a `destroy` and the next `refresh`. That case is not modelled.
- SlotArena.FindAlive: tests the end before reading a slot. The source reads first; that read is Finding 1, modelled as written in SlotSpec.SearchAliveAsWritten.
- SlotArena.Manager.Clear: empties both vectors. The model keeps the invariant that handle operations require `markIdx < |marks|`, so a handle used after `clear` cannot be expressed, and the source's out-of-range access is not modelled.
- SlotArena.Manager.CleanUpMemory: does not promise `Valid()`. The manager it leaves has created slots without elements, and only `clear` and the destructor use it.
- The floating-point parts of nc_cpp.hpp:
  - `delta` and `solve_grade2_equation`;
  - `find_epsilon` and `max_representable_factoral_real`;
  - `make_hilbert_matrix` and `make_vandermonde_matrix`.
- `average_n_numbers`: its result depends on the element type's division.
- `max_representable_factoral`: it depends on signed overflow, which C++ leaves undefined.
- The `std::cout` trace in `matrix::operator*`.
- `make_matrix`, `make_square_matrix`, `make_identity_matrix`, `make_vector`, `vector_scalar_product`, `vector_tensor_product` and the `at(tuple)` accessor. They are one-line compositions of the members modelled here.
- Matrix sizes are constructor arguments, not template parameters. The element type is `int` only; the mixed element types `T0`/`T1` of the operators are not modelled.
- NcSorted.SortRange: works on `int` and on the array's full index range. The `int n` length parameter of the source's `impl::sort_vector` is not narrowed from `size_t`.
- NcSorted.RemoveAt: requires a non-empty vector, because `vec.size() - 1` wraps around on an empty one. An `idx` outside the vector is not rejected. The model follows the source's conversion of a negative `int` to `size_t`: the copy loop is skipped and only `pop_back` happens. The vector length is bounded by 2^31.
- NcSorted.BinSearch: has no case for the missing final `return`. Once `a[mid] == x` and `a[mid] < x` have failed, `a[mid] > x` always holds for integers, so the function never falls off its end.
- The `ssvu::lo` logging, the `main` driver, the empty `makeReduction`, the `eval` hierarchy and `getImplAs` in testAST.cpp.
- Token data is not modelled. A token node carries only its token type.
- `setType`/`setImpl` are folded into the node constructor, because the parser calls them right after creating each node. The impl's back reference to its node is not modelled.
- Rule callbacks (`ssvu::Func`) are uninterpreted functions from the used nodes to a value. The impl of a reduced node holds that value.
- AstParser.Parser.CreateRule: requires the rule's result type to differ from the token AST type. Otherwise `matchesNode` would reinterpret a rule impl as a token impl.
- AstParser.Parser.CreateRule: requires at least one part. The variadic `RuleKey` constructor cannot be called without an argument.
- AstParser.Parser.ReduceRecursively: takes a `fuel` bound on the number of reductions. The source can recurse forever, for example with a rule whose single part is its own result type. With the fuel spent, the method stops and reports that it has not settled.
- AstParser.Parser.Run: takes the same fuel for each reduction chain. It stops and reports an incomplete run when a chain does not settle; the source would not return in that case.
- AstParser.Parser.Reduce: is given the offset of the match as a ghost argument. It only uses it to record `popsMatched`.
- Node ownership through `unique_ptr` is not modelled. `nodeManager` is a sequence of references to every node the parser created.
- All PHP files under ProgettoVillari. They are SQL and session plumbing against classes that are not part of this model.

## Findings

| source | as written | input that shows it | evidently intended | confidence | as-written member | corrected member |
|---|---|---|---|---|---|---|
| Random/testingOBParticleSystem.cpp:218-230 | the inner search of `refresh` reads `atoms[k].alive` before testing `k == sizeNext` | `reserve(10)`, ten `create`s, `destroy` of the last handle, `refresh`: the first dead slot is 9, the search starts at k == 10 == capacity and reads `atoms[10]` | test `k == sizeNext` before reading the slot | high, not executed | SlotArena.FullStorageScenario | SlotArena.FindAlive |
| Random/testingOBParticleSystem.cpp:273-276 | `Handle::destroy` calls the private `destroy(markIdx)` without asking `isAlive()` | `create(x)`, `create(y)`, destroy x's handle, `refresh`, destroy through x's handle again: x's mark still designates slot 0, where y now lives, so y is set dead although y's handle is alive | destroy only through an alive handle | medium, not executed | SlotArena.StaleHandleScenario | SlotArena.Manager.Destroy |
