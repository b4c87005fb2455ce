# Proofs about the contrib modules

Models, in Dafny, of seven components under `contrib/` of a PostgreSQL 10 tree that carries the adaptive query
optimizer AQO, and proofs of what they keep over all inputs and all runs.

| component | files | what is proved |
|---|---|---|
| AQO feature subspaces | `AqoText`, `AqoClauses`, `AqoEclasses`, `AqoFeatures`, `AqoFss`, `AqoConstants`, `AqoArgOrder`, `AqoSeparates` | hashing is independent of the order of clauses and arguments and of constants, and separates everything else, through string rewriting, union-find, argsort and in-place compaction |
| Bloom access method | `BloomSignature`, `BloomPage`, `BloomProtocol`, `BloomRuns`, `BloomSpace`, `BloomBuild` | signatures in closed form, conservation of tuples and completeness of scans and vacuums under every interleaving of insert, vacuum, cleanup and scan |
| btree_gist variable keys | `GistVarKey`, `GistVarSplit`, `GistVarTree`, `GistVarLayout` | a search finds exactly the values that satisfy its operator, after any history of inserts, deletes and safe splits, though bounds are truncated |
| amcheck | `BtreeCheck`, `BtreeSound`, `BtreeEnds` | which indexes are accepted, what that means, and when the check ends |
| cube GiST | `CubeBox`, `CubeOrder`, `CubeGist`, `CubeDistance`, `CubeSplit`, `CubeTree`, `CubePoints` | operators and distances are what they are of points; unions are least enclosing boxes; searches and distances in every tree that inserts, deletes and splits build with them |
| hstore upgrade | `HstoreUpgrade`, `HstoreFormat` | every list of pairs in the old form is accepted, rewritten in place and reads the same in the new one |
| online learners | `KnnSelect`, `KnnPredict`, `KnnMetric`, `KnnLearn`, `KnnMoves`, `KnnGradient`, `KnnCosts`, `LwprMeans`, `LwprField` | nearest rows, least-loss prediction, learning as descent, and invariants over whole learning runs |

`Sorting` holds the notions of order, permutation, counting and selection the others share, with the contracts of the C
library's `qsort`; `Roots` what is assumed of a square root, and what follows.

`dafny verify dfyconfig.toml` checks everything.

## Conventions

- Loops of the source are loops here, arrays it updates in place are arrays, and its records with methods are classes.
  Each such method is proved against a specification function, about which the theorems are.
- Functions that are not part of this model (`hash_any`, `log`, square root, an operator class's comparison, the text of a
  parameter node) are function-valued fields or parameters. A theorem that needs something of one says so in its
  `requires` (an injective hash, a square root).
- Floating-point numbers are reals. Where C integers have a width that matters it is written out (the generator's int32,
  the 32-bit hstore words).

## Where code and intent part

Each of these is stated as a theorem about the code as it is: a concrete input, and the exact condition under which the
code does what is meant.

- `mySrand` stores the seed in a signed variable, so two seeds lead to state 0, which `myRand` never leaves; bit numbers are
  then negative (`BloomSignature.ZeroStateSeeds`, `BloomSignature.ValueBitsInRange`, `BloomSignature.BadHash`).
- A Bloom build resets the count of tuples on its cached page before it stores the tuple that opens the page, which is then
  not counted, so a last page with a single tuple is not written (`BloomBuild.Build`, `BloomBuild.DefaultBuildLosesRow`).
- `gbt_var_picksplit` cuts both halves at the longer of the two common prefixes; on internal pages a key can lose values
  (`GistVarSplit.SplitFindsExactly`, `GistVarTree.CutKeepsExactly`, `GistVarTree.SplitLosesValue`).
- Pruning for ContainedBy misses entries with fewer dimensions than the query (`CubeGist.ContainedByExactly`,
  `CubeGist.ContainedByMisses`), and `cube_cmp` is not transitive across dimensions (`CubeOrder.TransitiveExactly`,
  `CubeOrder.CmpNotTransitive`).
- Ordering by a coordinate takes its number modulo the dimension, which differs between a key and the entries below it
  (`CubeDistance.CoordNoFartherExactly`, `CubeDistance.CoordMisranks`).
- amcheck does not compare across an empty page (`BtreeCheck.AcceptedLevelSortedExactly`,
  `BtreeCheck.EmptyPageHidesDisorder`), does not ask that a child is on the next level (`BtreeCheck.RoutesBoundedExactly`,
  `BtreeCheck.StrayPageMisleads`) and can circle through dead pages (`BtreeEnds.NeverEndsExactly`,
  `BtreeEnds.DeadCircleNeverEnds`).
- A small old hstore value can look like a new one to `hstoreUpgrade` (`HstoreUpgrade.ConvertedExactly`,
  `HstoreUpgrade.AcceptedYetUnchanged`).
- The hash of a clause with a constant depends on the order of its arguments, as does one whose class hash is 0
  (`AqoArgOrder.ArgOrderExactly`, `AqoArgOrder.ConstantShowsArgOrder`).
- The text `remove_varno` and `remove_varnoold` erase can decide what else they erase (`AqoText.ColonErasesExactly`,
  `AqoText.VarnoDependsOnErasedText`).
- On a full table `OkNNr_learn` divides by the distance of a row it moves, which is zero when the features are already a
  row (`KnnLearn.FiniteExactly`, `KnnLearn.SameRowAgain`). For receptive fields that branch is never reached
  (`LwprField.StoreHasRoom`).

## Model

| member | source | states |
|---|---|---|
| `AqoText.ReplacePatterns` | postgresql-10.0-with-exploratory-optimizer/contrib/aqo/hash.c:332-355 | The copy loop ends on every string and returns the string without the text between each pattern and the next stop character. |
| `AqoText.ScrubKeepsExactly` | postgresql-10.0-with-exploratory-optimizer/contrib/aqo/hash.c:332-355 | What is left are exactly the characters that do not stand between an occurrence of the pattern, looked for from the last stop on, and the next stop, in order. |
| `AqoText.ScrubIdempotent` | postgresql-10.0-with-exploratory-optimizer/contrib/aqo/hash.c:332-355 | Rewriting twice is rewriting once, on every string, for patterns that cannot overlap themselves across a stop. |
| `AqoText.PatternsSeparable` | postgresql-10.0-with-exploratory-optimizer/contrib/aqo/hash.c:387-417 | All five patterns in use are of that kind. |
| `AqoText.ScrubErases` | postgresql-10.0-with-exploratory-optimizer/contrib/aqo/hash.c:387-417 | For patterns without an inner stop the output does not depend on the erased text, whatever stands around it. |
| `AqoText.BracePatternsHaveNoInnerStop` | postgresql-10.0-with-exploratory-optimizer/contrib/aqo/hash.c:387-417 | The three brace-terminated patterns have no inner stop. |
| `AqoText.ColonErasesExactly` | postgresql-10.0-with-exploratory-optimizer/contrib/aqo/hash.c:403-412 | For the colon-terminated patterns the output is independent of the erased text if and only if what follows does not take the pattern up again with text behind it. |
| `AqoText.VarnoDependsOnErasedText` | postgresql-10.0-with-exploratory-optimizer/contrib/aqo/hash.c:403-407 | A concrete input on which the erased blank decides what else is erased. |
| `AqoClauses.NodeHashIgnoresConsts` | postgresql-10.0-with-exploratory-optimizer/contrib/aqo/hash.c:246-256 | Nodes that differ only in the text of constants, at any depth, have the same hash. |
| `AqoClauses.LinkedTransitive` | postgresql-10.0-with-exploratory-optimizer/contrib/aqo/hash.c:535-572 | Being linked by equality clauses is transitive (with reflexivity and symmetry beside it, an equivalence). |
| `AqoEclasses.GetClauselistArgs` | postgresql-10.0-with-exploratory-optimizer/contrib/aqo/hash.c:457-498 | Returns exactly the distinct hashes of non-constant arguments of equality clauses, strictly increasing. |
| `AqoEclasses.Dedupe` | postgresql-10.0-with-exploratory-optimizer/contrib/aqo/hash.c:490-496 | In-place removal of repeated neighbours leaves exactly the set of values, strictly increasing. |
| `AqoEclasses.FindId` | postgresql-10.0-with-exploratory-optimizer/contrib/aqo/hash.c:423-436 | Binary search returns the index of the value, or -1 exactly when it is absent. |
| `AqoEclasses.GetParent` | postgresql-10.0-with-exploratory-optimizer/contrib/aqo/hash.c:503-510 | Find with path compression ends, returns the root and changes no root. |
| `AqoEclasses.MergeEclasses` | postgresql-10.0-with-exploratory-optimizer/contrib/aqo/hash.c:515-530 | After a merge two nodes share a root if and only if they did before or their roots were merged, whichever way the parity test hangs them. |
| `AqoEclasses.MergeRepresents` | postgresql-10.0-with-exploratory-optimizer/contrib/aqo/hash.c:515-530 | One merge turns disjoint sets that represent the closure of some links into sets that represent the closure with one more link. |
| `AqoEclasses.PerformEclassesJoin` | postgresql-10.0-with-exploratory-optimizer/contrib/aqo/hash.c:535-572 | The disjoint sets are exactly the reflexive, symmetric and transitive closure of neighbouring non-constant arguments of one clause. |
| `AqoEclasses.GetEclasses` | postgresql-10.0-with-exploratory-optimizer/contrib/aqo/hash.c:578-613 | Every argument is paired with the hash of the set of arguments linked with it. |
| `AqoEclasses.EclassHashSeparates` | postgresql-10.0-with-exploratory-optimizer/contrib/aqo/hash.c:578-613 | With an injective list hash two arguments get the same class hash if and only if they are linked. |
| `AqoEclasses.LinkedSameClass` | postgresql-10.0-with-exploratory-optimizer/contrib/aqo/hash.c:578-613 | Linked arguments have the same class, without assumption on the hash. |
| `AqoFeatures.Argsort` | postgresql-10.0-with-exploratory-optimizer/contrib/aqo/utils.c:60-76 | The result is a permutation of the indexes under which the keys ascend. |
| `AqoFeatures.InversePermutation` | postgresql-10.0-with-exploratory-optimizer/contrib/aqo/utils.c:81-90 | The result inverts the permutation on both sides. |
| `AqoFeatures.CountGroup` | postgresql-10.0-with-exploratory-optimizer/contrib/aqo/hash.c:136-139 | Finds the end of a run of one hash and counts its clauses with constants. |
| `AqoFeatures.MoveKept` | postgresql-10.0-with-exploratory-optimizer/contrib/aqo/hash.c:140-148 | Moves the kept entries of a group down over the dropped ones, by the running shift. |
| `AqoFeatures.Compact` | postgresql-10.0-with-exploratory-optimizer/contrib/aqo/hash.c:134-152 | The in-place compaction with shift and per-group sort leaves the sorted list of kept (hash, feature) pairs. |
| `AqoFeatures.CanonicalForgetsOrder` | postgresql-10.0-with-exploratory-optimizer/contrib/aqo/hash.c:134-152 | That list depends on the multiset of clauses only. |
| `AqoFss.GetArgEclass` | postgresql-10.0-with-exploratory-optimizer/contrib/aqo/hash.c:442-451 | The class hash of an argument, 0 for a hash that is no argument. |
| `AqoFss.GetClauseHash` | postgresql-10.0-with-exploratory-optimizer/contrib/aqo/hash.c:177-203 | The clause hash is that of the clause with arguments replaced by their classes. |
| `AqoFss.Scatter` | postgresql-10.0-with-exploratory-optimizer/contrib/aqo/hash.c:124-132 | Scattering by the inverse permutation places hashes and bounded log-selectivities in sorted order. |
| `AqoFss.BuildFeatures` | postgresql-10.0-with-exploratory-optimizer/contrib/aqo/hash.c:121-152 | Sorting, scattering and compaction together produce the canonical pairs. |
| `AqoFss.GetFssForObject` | postgresql-10.0-with-exploratory-optimizer/contrib/aqo/hash.c:76-170 | Feature count, features and hash of the subspace, computed by the whole chain of methods, equal those of the order-free definition. |
| `AqoFss.FssForgetsOrder` | postgresql-10.0-with-exploratory-optimizer/contrib/aqo/hash.c:76-170 | Permuting (clause, selectivity) pairs and relation ids in any way changes neither the feature vector nor the hash. |
| `AqoConstants.FssIgnoresConsts` | postgresql-10.0-with-exploratory-optimizer/contrib/aqo/hash.c:7-12 | Replacing constants by others anywhere in the clauses changes neither the features nor the hash. |
| `AqoArgOrder.ClassesForgetArgOrder` | postgresql-10.0-with-exploratory-optimizer/contrib/aqo/hash.c:535-572 | Putting the arguments of equality clauses in any order, constants or not, changes no class. |
| `AqoArgOrder.ClauseHashForgetsArgOrder` | postgresql-10.0-with-exploratory-optimizer/contrib/aqo/hash.c:172-203 | The hash of an equality clause without constants whose class hash is not 0 is the same for every order of its arguments, also when other clauses are reordered with it. |
| `AqoArgOrder.ArgOrderExactly` | postgresql-10.0-with-exploratory-optimizer/contrib/aqo/hash.c:172-203 | Without constants no order of the arguments changes the hash if and only if the class hash is not 0 or all arguments have the same hash. |
| `AqoArgOrder.ConstantShowsArgOrder` | postgresql-10.0-with-exploratory-optimizer/contrib/aqo/hash.c:199-202 | With a constant the whole clause is hashed: a column compared with a constant and the constant with the column have different hashes. |
| `AqoArgOrder.FssForgetsArgOrder` | postgresql-10.0-with-exploratory-optimizer/contrib/aqo/hash.c:76-170 | So reordering the arguments of any number of such clauses changes neither the feature vector nor the hash of the subspace. |
| `AqoSeparates.KeptExactly` | postgresql-10.0-with-exploratory-optimizer/contrib/aqo/hash.c:134-152 | The kept pairs are in order, and each pair of hash and feature is kept as often as clauses with constants have it, and once more for a clause without constants that has it, if no other without constants has its hash. |
| `AqoSeparates.FeaturesExactly` | postgresql-10.0-with-exploratory-optimizer/contrib/aqo/hash.c:121-161 | The feature vector is that of any sorted list in which each pair stands as often as it is kept. |
| `AqoSeparates.KeptHashesAgree` | postgresql-10.0-with-exploratory-optimizer/contrib/aqo/hash.c:134-161 | Two lists of clauses keep the same hashes if and only if they keep each hash equally often. |
| `AqoSeparates.EclassHashesExactly` | postgresql-10.0-with-exploratory-optimizer/contrib/aqo/hash.c:578-613 | With an injective list hash two sets of clauses have the same class hashes if and only if they have the same arguments, linked in the same way. |
| `AqoSeparates.FssHashExactly` | postgresql-10.0-with-exploratory-optimizer/contrib/aqo/hash.c:76-170 | With an injective list hash two objects have the same subspace hash if and only if they keep each clause hash equally often, link the same arguments in the same way and have the same relation ids, in any order. |
| `AqoSeparates.ClauseHashSeparates` | postgresql-10.0-with-exploratory-optimizer/contrib/aqo/hash.c:177-203 | With an injective list hash two equality clauses without constants have the same hash if and only if their first arguments are linked. |
| `AqoSeparates.ClauseHashSeesClasses` | postgresql-10.0-with-exploratory-optimizer/contrib/aqo/hash.c:172-203 | Exchanging arguments for linked ones never changes a clause hash. |
| `AqoConstants.ClauseHashIgnoresConsts` | postgresql-10.0-with-exploratory-optimizer/contrib/aqo/hash.c:177-203 | The same for one clause hash, under clause sets that link the same arguments. |
| `BloomSignature.StepIsParkMiller` | postgresql-10.0-with-exploratory-optimizer/contrib/bloom/blutils.c:212-237 | From every nonzero state the step is congruent to 16807 times the state modulo 2^31-1 and lies in 1..2^31-2. |
| `BloomSignature.ParkMillerUnique` | postgresql-10.0-with-exploratory-optimizer/contrib/bloom/blutils.c:212-237 | No other value in that range is congruent to it. |
| `BloomSignature.StepFitsInt32` | postgresql-10.0-with-exploratory-optimizer/contrib/bloom/blutils.c:220-232 | No intermediate value of the step leaves int32. |
| `BloomSignature.ZeroStateSeeds` | postgresql-10.0-with-exploratory-optimizer/contrib/bloom/blutils.c:239-245 | Seeding leaves the fixed point 0 if and only if the seed is 0xFFFFFFFF or 0x80000001. |
| `BloomSignature.SeededExactly` | postgresql-10.0-with-exploratory-optimizer/contrib/bloom/blutils.c:239-245 | The seed is read as a signed number, and the state is the remainder of its division by 2^31-2, with its sign, plus one. |
| `BloomSignature.ZeroStateIsFixed` | postgresql-10.0-with-exploratory-optimizer/contrib/bloom/blutils.c:212-237 | State 0 steps to itself. |
| `BloomSignature.Generator.Rand` | postgresql-10.0-with-exploratory-optimizer/contrib/bloom/blutils.c:212-237 | Advances the shared state by one step and returns it less one, in 0..2^31-3 from every state but 0. |
| `BloomSignature.Generator.Srand` | postgresql-10.0-with-exploratory-optimizer/contrib/bloom/blutils.c:239-245 | Sets the state whatever it was. |
| `BloomSignature.SetBitAdds` | postgresql-10.0-with-exploratory-optimizer/contrib/bloom/blutils.c:31-34 | Setting a bit adds that bit number and nothing else. |
| `BloomSignature.ValueBitsInRange` | postgresql-10.0-with-exploratory-optimizer/contrib/bloom/blutils.c:250-278 | All bit numbers picked for a value lie inside the signature if and only if its seed is not one of the two bad ones. |
| `BloomSignature.SeedIs` | postgresql-10.0-with-exploratory-optimizer/contrib/bloom/blutils.c:250-278 | The seed is the hash combined by exclusive or with 16807 times the column number, from 1, less one. |
| `BloomSignature.PicksExactly` | postgresql-10.0-with-exploratory-optimizer/contrib/bloom/blutils.c:212-278 | A column sets as many bits as the options say, and the j-th is the j-th power of 16807 times the seeded state modulo 2^31-1, less one, modulo the length of the signature. |
| `BloomSignature.DrawIsUnique` | postgresql-10.0-with-exploratory-optimizer/contrib/bloom/blutils.c:212-237 | There is one such number. |
| `BloomSignature.BadHash` | postgresql-10.0-with-exploratory-optimizer/contrib/bloom/blutils.c:250-278 | A concrete hash in the first column with such a seed. |
| `BloomSignature.SignValue` | postgresql-10.0-with-exploratory-optimizer/contrib/bloom/blutils.c:250-278 | Adds exactly the bits of column, hash and options, whatever state the generator was left in, and says exactly when the code would set bit -1, a shift that C leaves undefined. |
| `BloomSignature.CoversIsInclusion` | postgresql-10.0-with-exploratory-optimizer/contrib/bloom/blscan.c:145-156 | The masking test is inclusion of bit sets, no more and no less. |
| `BloomPage.FormTuple` | postgresql-10.0-with-exploratory-optimizer/contrib/bloom/blutils.c:283-302 | The tuple carries exactly the bits of the non-null columns, and every shift is defined if and only if every column signs well. |
| `BloomPage.ScanSignature` | postgresql-10.0-with-exploratory-optimizer/contrib/bloom/blscan.c:91-117 | The scan signature is exactly the union of the keys' bits; there is none if and only if a key is null. |
| `BloomPage.TestTuple` | postgresql-10.0-with-exploratory-optimizer/contrib/bloom/blscan.c:145-156 | The word loop with early exit decides the masking test. |
| `BloomPage.MatchingRowIsCovered` | postgresql-10.0-with-exploratory-optimizer/contrib/bloom/blscan.c:91-164 | A row whose columns equal the keys passes the scan's test. |
| `BloomPage.PageBuffer.AddItem` | postgresql-10.0-with-exploratory-optimizer/contrib/bloom/blutils.c:308-336 | Appends the tuple if and only if it fits by the free-space formula; otherwise nothing changes. |
| `BloomPage.PageBuffer.Vacuum` | postgresql-10.0-with-exploratory-optimizer/contrib/bloom/blvacuum.c:85-132 | In-place compaction leaves the surviving tuples in order with their signatures, and marks the page deleted exactly when it became empty. |
| `BloomPage.KeptExactly` | postgresql-10.0-with-exploratory-optimizer/contrib/bloom/blvacuum.c:85-107 | Exactly the tuples the callback names are dropped. |
| `BloomPage.KeptAndDropped` | postgresql-10.0-with-exploratory-optimizer/contrib/bloom/blvacuum.c:85-107 | Kept and dropped tuples are together the tuples that were there, with multiplicity. |
| `BloomProtocol.StepKeepsInv` | postgresql-10.0-with-exploratory-optimizer/contrib/bloom/blinsert.c:227-351 | Every lock section of insert, vacuum, cleanup and scan, taken by any process at any time, keeps the invariant and makes no access out of range. |
| `BloomProtocol.ReachableInv` | postgresql-10.0-with-exploratory-optimizer/contrib/bloom/blinsert.c:191-360 | The invariant holds after every interleaving from an empty index. |
| `BloomProtocol.EachInsertLandsOnce` | postgresql-10.0-with-exploratory-optimizer/contrib/bloom/blinsert.c:227-351 | In every interleaving each finished insert's tuple is in the index or was removed by a vacuum, exactly once together; unfinished inserts have left nothing. |
| `BloomProtocol.FreeListIsSafe` | postgresql-10.0-with-exploratory-optimizer/contrib/bloom/blvacuum.c:58-158 | In every interleaving nStart <= nEnd within the array, every listed block is a data page, and re-initialising a page erases nothing. |
| `BloomProtocol.ReinitErasesNothing` | postgresql-10.0-with-exploratory-optimizer/contrib/bloom/blutils.c:397-408 | A page that is new or deleted holds no tuple, so initialising it loses none. |
| `BloomRuns.RemovedWasNamed` | postgresql-10.0-with-exploratory-optimizer/contrib/bloom/blvacuum.c:85-107 | In every run of actions a tuple that was removed has a heap position that the callback of some vacuum started before named. |
| `BloomRuns.IndexHoldsExactly` | postgresql-10.0-with-exploratory-optimizer/contrib/bloom/blinsert.c:227-351 | In every run a tuple is in the index at most once; a finished insert whose position no vacuum has named is there exactly once, and nothing that is not a finished insert is there. |
| `BloomRuns.VacuumRemovesAllDead` | postgresql-10.0-with-exploratory-optimizer/contrib/bloom/blvacuum.c:58-158 | In every run, when a vacuum has been through its pages every tuple that was in the index at its start and is named by its callback has been removed, once, and is in the index no more. |
| `BloomRuns.ScanReportsCovered` | postgresql-10.0-with-exploratory-optimizer/contrib/bloom/blscan.c:119-173 | A scan with no page left has reported every tuple whose signature covers its query, that was in the index when it began and still is. |
| `BloomRuns.ScanMissesNothing` | postgresql-10.0-with-exploratory-optimizer/contrib/bloom/blscan.c:81-173 | So it has reported every such tuple of a row whose columns equal the scan keys. |
| `BloomRuns.ScanReportsOnly` | postgresql-10.0-with-exploratory-optimizer/contrib/bloom/blscan.c:119-164 | Whatever a scan reports was in the index at some moment while it went on, with a signature that covers the query. |
| `BloomRuns.NobodyIsStuck` | postgresql-10.0-with-exploratory-optimizer/contrib/bloom/blinsert.c:227-351 | In every run a process that is not done can take its next step, or the holder of the metapage it waits for can. |
| `BloomRuns.InsertNearsEnd` | postgresql-10.0-with-exploratory-optimizer/contrib/bloom/blinsert.c:227-351 | Every section of an insert ends it with its tuple stored exactly once, or takes it to a later phase, or leaves less of the free list to try. |
| `BloomSpace.FreeListExactly` | postgresql-10.0-with-exploratory-optimizer/contrib/bloom/blvacuum.c:58-158 | In every run a vacuum that writes the metapage has visited every page there was at its start, and lists, from the front, exactly those that held tuples and had room when it left them, as far as there are entries. |
| `BloomSpace.CleanupOffersAll` | postgresql-10.0-with-exploratory-optimizer/contrib/bloom/blvacuum.c:168-217 | In every run a finished cleanup has offered for reuse every page that was new or deleted all the time and that nobody has taken since. |
| `BloomSpace.WalkNearsEnd` | postgresql-10.0-with-exploratory-optimizer/contrib/bloom/blscan.c:119-164 | Every section of a vacuum, cleanup or scan takes it exactly one page on, or ends it with no page left. |
| `BloomBuild.Build` | postgresql-10.0-with-exploratory-optimizer/contrib/bloom/blinsert.c:73-153 | The built index holds every tuple in order, except the last one when the tuple count is one more than a multiple of the page capacity (and above it); it holds all if and only if the count is not of that form. |
| `BloomBuild.BuildState.Callback` | postgresql-10.0-with-exploratory-optimizer/contrib/bloom/blinsert.c:73-109 | Keeps the accumulated tuples and the page-full bookkeeping of the build. |
| `BloomBuild.DefaultBuildLosesRow` | postgresql-10.0-with-exploratory-optimizer/contrib/bloom/blinsert.c:114-153 | With default options a page holds 510 tuples and a table of 511 rows loses one. |
| `GistVarKey.NodeCpLen` | postgresql-10.0-with-exploratory-optimizer/contrib/btree_gist/btree_utils_var.c:121-163 | The loop computes the common prefix length of the two bounds. |
| `GistVarKey.VarUnion` | postgresql-10.0-with-exploratory-optimizer/contrib/btree_gist/btree_utils_var.c:323-359 | The union loop computes the cut bounds over all entries. |
| `GistVarKey.UnionAdmits` | postgresql-10.0-with-exploratory-optimizer/contrib/btree_gist/btree_utils_var.c:205-279 | Whatever an entry admits, the truncated union admits. |
| `GistVarKey.AdmittedIsFound` | postgresql-10.0-with-exploratory-optimizer/contrib/btree_gist/btree_utils_var.c:555-614 | For all six strategies, a key that admits a matching value is consistent with the query. |
| `GistVarKey.LeafIsExact` | postgresql-10.0-with-exploratory-optimizer/contrib/btree_gist/btree_utils_var.c:555-614 | On a leaf the test is the operator, defined by the order of bytes: for all six strategies it holds if and only if the value compares so with the query. |
| `GistVarKey.LeafSplitAdmits` | postgresql-10.0-with-exploratory-optimizer/contrib/btree_gist/btree_utils_var.c:459-549 | On leaf pages the common, longer cut of a split keeps every value admitted. |
| `GistVarSplit.PickSplit` | postgresql-10.0-with-exploratory-optimizer/contrib/btree_gist/btree_utils_var.c:459-549 | Every entry goes to one half, the halves are the sorted entries cut in the middle, and both keys are the bounds of their half cut to the longer common prefix. |
| `GistVarSplit.NotOutgrownPasses` | postgresql-10.0-with-exploratory-optimizer/contrib/btree_gist/btree_utils_var.c:531-546 | Unless the cut key is outgrown, whatever passes an entry passes it. |
| `GistVarSplit.SplitFindsExactly` | postgresql-10.0-with-exploratory-optimizer/contrib/btree_gist/btree_utils_var.c:531-546 | A split page's key still finds every value its entries pass, for all six strategies, if and only if no entry's upper bound can be outgrown below the longer cut. |
| `GistVarSplit.OutgrownMisses` | postgresql-10.0-with-exploratory-optimizer/contrib/btree_gist/btree_utils_var.c:531-546 | If one can, a value that passes an entry is missed. |
| `GistVarSplit.InternalSplitMisses` | postgresql-10.0-with-exploratory-optimizer/contrib/btree_gist/btree_utils_var.c:459-549 | A concrete split of an internal page with four entries, and a value that passes the first and is missed. |
| `GistVarTree.NewPage` | postgresql-10.0-with-exploratory-optimizer/contrib/btree_gist/btree_utils_var.c:323-359 | A page under the union of its entries is well formed: all values below pass its key. |
| `GistVarTree.CutKeepsExactly` | postgresql-10.0-with-exploratory-optimizer/contrib/btree_gist/btree_utils_var.c:531-546 | A page of subtrees under a key cut further is well formed, whatever the subtrees hold, if and only if the key is not outgrown. |
| `GistVarTree.LeafHalf` | postgresql-10.0-with-exploratory-optimizer/contrib/btree_gist/btree_utils_var.c:531-546 | On leaf pages it never is. |
| `GistVarTree.SplitHolds` | postgresql-10.0-with-exploratory-optimizer/contrib/btree_gist/btree_utils_var.c:505-528 | The two pages of a split hold what the page held, no more and no less. |
| `GistVarTree.WidenedPasses` | postgresql-10.0-with-exploratory-optimizer/contrib/btree_gist/btree_utils_var.c:323-359 | Whatever passes a key, and the entry, pass the union of the two. |
| `GistVarTree.InsertedHolds` | postgresql-10.0-with-exploratory-optimizer/contrib/btree_gist/btree_utils_var.c:323-359 | Inserting along a path adds the value and nothing else. |
| `GistVarTree.InsertKeeps` | postgresql-10.0-with-exploratory-optimizer/contrib/btree_gist/btree_utils_var.c:323-359 | It keeps a tree well formed, widening each key on the path by the entry. |
| `GistVarTree.GrownIsWellFormed` | postgresql-10.0-with-exploratory-optimizer/contrib/btree_gist/btree_utils_var.c:323-549 | Every tree that has grown from values by new pages, inserts along paths, replaced lists of children and page splits with keys that are not outgrown, in any order and number, is well formed. |
| `GistVarTree.FoundIsExact` | postgresql-10.0-with-exploratory-optimizer/contrib/btree_gist/btree_utils_var.c:555-614 | In any tree, what a search finds is there and satisfies its operator. |
| `GistVarTree.SearchFindsExactly` | postgresql-10.0-with-exploratory-optimizer/contrib/btree_gist/btree_utils_var.c:555-614 | In every grown tree a search that prunes by consistent keys finds a value if and only if it is there and satisfies the operator, for all six. |
| `GistVarTree.SplitLosesValue` | postgresql-10.0-with-exploratory-optimizer/contrib/btree_gist/btree_utils_var.c:459-549 | A concrete tree, grown but for one split of an internal page, that holds a value which a search for it does not find. |
| `GistVarLayout.LeafRoundTrip` | postgresql-10.0-with-exploratory-optimizer/contrib/btree_gist/btree_utils_var.c:57-85 | A leaf key reads back as its value and as a leaf. |
| `GistVarLayout.NodeRoundTrip` | postgresql-10.0-with-exploratory-optimizer/contrib/btree_gist/btree_utils_var.c:57-103 | An internal key, aligned and padded, reads back as its two bounds and never as a leaf. |
| `BtreeCheck.DownlinkCheck` | postgresql-10.0-with-exploratory-optimizer/contrib/amcheck/verify_nbtree.c:976-1062 | Accepts exactly when the downlink is a lower bound on every real item of the child. |
| `BtreeCheck.TargetPageCheck` | postgresql-10.0-with-exploratory-optimizer/contrib/amcheck/verify_nbtree.c:552-753 | The item loop with high-key, neighbour, right-page and downlink checks computes the verdict of the page. |
| `BtreeCheck.VisitPage` | postgresql-10.0-with-exploratory-optimizer/contrib/amcheck/verify_nbtree.c:396-520 | One iteration of the level walk. |
| `BtreeCheck.CheckLevelFromLeftmost` | postgresql-10.0-with-exploratory-optimizer/contrib/amcheck/verify_nbtree.c:372-526 | The level walk over a fixed page map. |
| `BtreeCheck.CheckEveryLevel` | postgresql-10.0-with-exploratory-optimizer/contrib/amcheck/verify_nbtree.c:274-352 | The loop over levels. |
| `BtreeEnds.RepeatIsDead` | postgresql-10.0-with-exploratory-optimizer/contrib/amcheck/verify_nbtree.c:396-520 | If the walk passes the same page twice, it had come round to an ignorable page. |
| `BtreeEnds.NeverEndsExactly` | postgresql-10.0-with-exploratory-optimizer/contrib/amcheck/verify_nbtree.c:396-520 | The walk of a level goes on for any number of steps if and only if within as many steps as the file has blocks it comes round to an ignorable page or looks for a right sibling on a circle of them. |
| `BtreeEnds.LoopingForever` | postgresql-10.0-with-exploratory-optimizer/contrib/amcheck/verify_nbtree.c:771-820 | The search for a right sibling's first key that is not over after as many pages as the file has never is. |
| `BtreeEnds.LevelCheckEnds` | postgresql-10.0-with-exploratory-optimizer/contrib/amcheck/verify_nbtree.c:396-520 | Without a circle of ignorable pages a level is accepted or rejected within as many steps as the file has blocks. |
| `BtreeEnds.CheckEnds` | postgresql-10.0-with-exploratory-optimizer/contrib/amcheck/verify_nbtree.c:333-348 | Without such a circle the whole check ends. |
| `BtreeEnds.DeadCircleNeverEnds` | postgresql-10.0-with-exploratory-optimizer/contrib/amcheck/verify_nbtree.c:396-440 | A concrete file of three pages on which it does not. |
| `BtreeCheck.NextLevelIsLower` | postgresql-10.0-with-exploratory-optimizer/contrib/amcheck/verify_nbtree.c:333-348 | The next level has the level number one less, or there is none. |
| `BtreeCheck.AcceptedLevelSortedExactly` | postgresql-10.0-with-exploratory-optimizer/contrib/amcheck/verify_nbtree.c:570-752 | On an accepted level all real items in right-link order are non-decreasing if and only if, across each run of live pages without items, the last item before it is at most the first item after it. |
| `BtreeCheck.AcceptedLevelIsSorted` | postgresql-10.0-with-exploratory-optimizer/contrib/amcheck/verify_nbtree.c:570-752 | So an accepted level without empty live pages is in order. |
| `BtreeCheck.EmptyPageHidesDisorder` | postgresql-10.0-with-exploratory-optimizer/contrib/amcheck/verify_nbtree.c:771-965 | An accepted level with an empty page that is not in order: a concrete file. |
| `BtreeCheck.AcceptedPageIsBounded` | postgresql-10.0-with-exploratory-optimizer/contrib/amcheck/verify_nbtree.c:570-752 | On every accepted page items are within the high key and real downlinks bound their children's real items from below. |
| `BtreeCheck.RouteBoundedExactly` | postgresql-10.0-with-exploratory-optimizer/contrib/amcheck/verify_nbtree.c:976-1062 | Along any route of real downlinks through internal pages every key is bounded by those above it if and only if the steps out of pages that no level visited are in order. |
| `BtreeCheck.RoutesBoundedExactly` | postgresql-10.0-with-exploratory-optimizer/contrib/amcheck/verify_nbtree.c:976-1062 | All routes from an accepted level are in order if and only if the downlinks on unvisited pages they reach bound their children, which is not checked there. |
| `BtreeCheck.DescentIsBounded` | postgresql-10.0-with-exploratory-optimizer/contrib/amcheck/verify_nbtree.c:976-1062 | So in an accepted index every route over visited pages is in order. |
| `BtreeCheck.StrayPageMisleads` | postgresql-10.0-with-exploratory-optimizer/contrib/amcheck/verify_nbtree.c:976-1062 | A concrete accepted index with an internal page on no visited level, and a route through it that is not in order. |
| `BtreeCheck.AcceptedIndexSortedExactly` | postgresql-10.0-with-exploratory-optimizer/contrib/amcheck/verify_nbtree.c:274-352 | Every level of an accepted index is in order if and only if it is across its empty pages. |
| `BtreeSound.LoadExactly` | postgresql-10.0-with-exploratory-optimizer/contrib/amcheck/verify_nbtree.c:1169-1248 | A page is read if and only if the block exists, block 0 and no other is the metapage, live leaves and no other live pages are on level 0, and only leaves have garbage. |
| `BtreeSound.RightKeyExactly` | postgresql-10.0-with-exploratory-optimizer/contrib/amcheck/verify_nbtree.c:771-965 | The comparison to the right passes if and only if there is no right page, or the right links lead over ignorable pages to a readable one that is live or last, and the key is at most its first real key, if any. |
| `BtreeSound.PageExactly` | postgresql-10.0-with-exploratory-optimizer/contrib/amcheck/verify_nbtree.c:552-753 | A page passes if and only if its real keys are within the high key and do not descend, equal ones allowed, the last is at most the first key to the right, and each downlink is a lower bound on a readable child. |
| `BtreeSound.AcceptedExactly` | postgresql-10.0-with-exploratory-optimizer/contrib/amcheck/verify_nbtree.c:372-526 | A level is accepted with given pages if and only if the pages are a chain of right and left links on one level that starts at a leftmost page, and each live one is sound. |
| `BtreeSound.IndexAcceptedExactly` | postgresql-10.0-with-exploratory-optimizer/contrib/amcheck/verify_nbtree.c:274-352 | An index is accepted with given levels if and only if they are such chains, one below the other, from the root to the leaves. |
| `CubeBox.Union` | postgresql-10.0-with-exploratory-optimizer/contrib/cube/cube.c:671-733 | The loops over common and extra dimensions give the zero-padded box around both arguments, dimension by dimension. |
| `CubeBox.UnionIsLeast` | postgresql-10.0-with-exploratory-optimizer/contrib/cube/cube.c:671-733 | A union encloses both and is enclosed by whatever encloses both. |
| `CubeBox.ContainsV0` | postgresql-10.0-with-exploratory-optimizer/contrib/cube/cube.c:1055-1091 | Decides containment with zero padding. |
| `CubeBox.OverlapV0` | postgresql-10.0-with-exploratory-optimizer/contrib/cube/cube.c:1125-1161 | Decides whether the zero-padded boxes share a point. |
| `CubeOrder.CmpV0` | postgresql-10.0-with-exploratory-optimizer/contrib/cube/cube.c:868-946 | The four loops compute the lexicographic comparison. |
| `CubeOrder.CmpEqual` | postgresql-10.0-with-exploratory-optimizer/contrib/cube/cube.c:868-946 | Boxes compare equal if and only if dimensions and intervals agree. |
| `CubeOrder.CmpLessExactly` | postgresql-10.0-with-exploratory-optimizer/contrib/cube/cube.c:868-946 | A box compares less if and only if it is less in the first coordinate in which the two differ: lower ends, upper ends, the ends in dimensions only one has against 0, then the number of dimensions. |
| `CubeOrder.CmpAntisymmetric` | postgresql-10.0-with-exploratory-optimizer/contrib/cube/cube.c:868-946 | Swapping the arguments negates the result, across dimensions too. |
| `CubeOrder.CmpTransitive` | postgresql-10.0-with-exploratory-optimizer/contrib/cube/cube.c:868-946 | Along a chain of three boxes the comparison carries over, for all dimensions that are not unsafe in these roles. |
| `CubeOrder.TransitiveExactly` | postgresql-10.0-with-exploratory-optimizer/contrib/cube/cube.c:868-946 | For three dimensions in given roles it carries over for all boxes if and only if they are not unsafe: for unsafe ones there is a cycle. |
| `CubeOrder.TransitiveInAnyOrder` | postgresql-10.0-with-exploratory-optimizer/contrib/cube/cube.c:868-946 | It carries over in all six roles if and only if the two smaller dimensions are equal, or the smallest is 0 and the others are equal. |
| `CubeOrder.CmpNotTransitive` | postgresql-10.0-with-exploratory-optimizer/contrib/cube/cube.c:868-946 | Three concrete boxes in a cycle. |
| `CubeGist.GUnion` | postgresql-10.0-with-exploratory-optimizer/contrib/cube/cube.c:349-374 | The key of a page is the repeated union of its entries. |
| `CubeGist.FoldIsHull` | postgresql-10.0-with-exploratory-optimizer/contrib/cube/cube.c:349-374 | A repeated union encloses every entry and nothing smaller does. |
| `CubeGist.LeafTest` | postgresql-10.0-with-exploratory-optimizer/contrib/cube/cube.c:602-629 | Decides the leaf test of each strategy. |
| `CubeGist.InternalTest` | postgresql-10.0-with-exploratory-optimizer/contrib/cube/cube.c:631-656 | Decides the internal test of each strategy. |
| `CubeGist.EnclosingKeyIsConsistent` | postgresql-10.0-with-exploratory-optimizer/contrib/cube/cube.c:602-656 | For Overlap, Same and Contains, a key that encloses a matching entry is consistent, across mixed dimensions. |
| `CubeGist.ContainedByExactly` | postgresql-10.0-with-exploratory-optimizer/contrib/cube/cube.c:602-656 | For ContainedBy every enclosing key of a matching entry is consistent if and only if the query reaches zero in the dimensions the entry lacks. |
| `CubeGist.ContainedByLowDimension` | postgresql-10.0-with-exploratory-optimizer/contrib/cube/cube.c:602-656 | That holds when the query has no more dimensions than the entry. |
| `CubeGist.ContainedByMisses` | postgresql-10.0-with-exploratory-optimizer/contrib/cube/cube.c:602-656 | A concrete entry that the leaf test accepts and the internal test prunes. |
| `CubeGist.NewPage` | postgresql-10.0-with-exploratory-optimizer/contrib/cube/cube.c:349-374 | A page under the union of its entries is well formed: its key encloses all boxes below it. |
| `CubeGist.InsertedHolds` | postgresql-10.0-with-exploratory-optimizer/contrib/cube/cube.c:349-374 | Inserting along a path adds the box and nothing else. |
| `CubeGist.InsertKeeps` | postgresql-10.0-with-exploratory-optimizer/contrib/cube/cube.c:349-374 | It keeps a tree well formed, each key on the path being replaced by its union with the entry. |
| `CubeGist.ReplaceKeeps` | postgresql-10.0-with-exploratory-optimizer/contrib/cube/cube.c:602-656 | Replacing the children of a page by others that hold nothing new, and leaving its key, keeps the tree well formed. |
| `CubeDistance.DistanceTaxicab` | postgresql-10.0-with-exploratory-optimizer/contrib/cube/cube.c:1233-1275 | The loops sum the gaps over all dimensions of either box. |
| `CubeDistance.DistanceEuclid` | postgresql-10.0-with-exploratory-optimizer/contrib/cube/cube.c:1184-1231 | The loops compute the root of the summed squared gaps. |
| `CubeDistance.DistanceChebyshev` | postgresql-10.0-with-exploratory-optimizer/contrib/cube/cube.c:1277-1327 | The loops find the greatest gap. |
| `CubeDistance.GapIsDistance1D` | postgresql-10.0-with-exploratory-optimizer/contrib/cube/cube.c:1376-1389 | The case analysis of the one-dimensional distance is the gap between two intervals. |
| `CubeDistance.KeyIsNoFarther` | postgresql-10.0-with-exploratory-optimizer/contrib/cube/cube.c:1184-1327 | A key that encloses an entry is at most as far from the query as the entry, by all three distances and any mix of dimensions. |
| `CubeDistance.TreeIsNoFarther` | postgresql-10.0-with-exploratory-optimizer/contrib/cube/cube.c:1329-1374 | So no entry of a well-formed tree is nearer than a key above it, by the three distances and by each coordinate the entry has. |
| `CubeDistance.CoordNoFartherExactly` | postgresql-10.0-with-exploratory-optimizer/contrib/cube/cube.c:1337-1348 | For every coordinate number, a key is never ranked behind an entry it encloses if and only if the number, taken modulo the dimension of either, names the same coordinate. |
| `CubeDistance.OwnCoordinate` | postgresql-10.0-with-exploratory-optimizer/contrib/cube/cube.c:1337-1348 | A coordinate the entry has is always of that kind. |
| `CubeDistance.CoordMisranks` | postgresql-10.0-with-exploratory-optimizer/contrib/cube/cube.c:1337-1348 | A concrete entry and key for which it is not, and the key is ranked behind the entry. |
| `CubeSplit.PickSeeds` | postgresql-10.0-with-exploratory-optimizer/contrib/cube/cube.c:466-502 | The seeds are the first pair, in scan order, that wastes most space together. |
| `CubeSplit.SizeOfUnion` | postgresql-10.0-with-exploratory-optimizer/contrib/cube/cube.c:841-864 | The size of a union depends on the two boxes' intervals only. |
| `CubeSplit.Place` | postgresql-10.0-with-exploratory-optimizer/contrib/cube/cube.c:529-572 | An entry goes to the side that grows least, and both sides stay increasing lists with the least box around them. |
| `CubeSplit.PickSplit` | postgresql-10.0-with-exploratory-optimizer/contrib/cube/cube.c:435-579 | Two non-empty, strictly increasing, disjoint lists cover every offset, and each datum is the least box around exactly its side. |
| `CubeTree.SplitHolds` | postgresql-10.0-with-exploratory-optimizer/contrib/cube/cube.c:435-579 | The two pages of a split hold what the page held, no more and no less. |
| `CubeTree.HalfKeeps` | postgresql-10.0-with-exploratory-optimizer/contrib/cube/cube.c:435-579 | Each is a well-formed page under its datum. |
| `CubeTree.GrownIsWellFormed` | postgresql-10.0-with-exploratory-optimizer/contrib/cube/cube.c:349-579 | Every tree that has grown from boxes by new pages, inserts along paths, replaced lists of children and page splits, in any order and number, has keys that enclose all below. |
| `CubeTree.NoEntryIsNearer` | postgresql-10.0-with-exploratory-optimizer/contrib/cube/cube.c:1329-1374 | In every such tree no entry is nearer than a key above it, by the three distances and by each coordinate the entry has. |
| `CubePoints.OverlapExactly` | postgresql-10.0-with-exploratory-optimizer/contrib/cube/cube.c:1125-1161 | Boxes overlap if and only if some point is in both. |
| `CubePoints.ContainsExactly` | postgresql-10.0-with-exploratory-optimizer/contrib/cube/cube.c:1055-1091 | One contains the other if and only if every point of the other lies within it in the dimensions the other has. |
| `CubePoints.EqualExactly` | postgresql-10.0-with-exploratory-optimizer/contrib/cube/cube.c:868-946 | Boxes compare equal if and only if they have the same dimension and the same points. |
| `CubePoints.UnionPoints` | postgresql-10.0-with-exploratory-optimizer/contrib/cube/cube.c:671-733 | A union holds the points of both. |
| `CubePoints.InterPoints` | postgresql-10.0-with-exploratory-optimizer/contrib/cube/cube.c:749-827 | A point is in the intersection of two boxes that overlap if and only if it is in both. |
| `CubePoints.LeafIsExact` | postgresql-10.0-with-exploratory-optimizer/contrib/cube/cube.c:602-629 | On a leaf the test of each strategy is what it says of points. |
| `CubePoints.SearchFindsExactly` | postgresql-10.0-with-exploratory-optimizer/contrib/cube/cube.c:602-656 | In every grown tree a search finds only boxes that are there and satisfy its strategy, and it finds all of these, in any mix of dimensions, for ContainedBy if the query reaches zero in the dimensions the entry lacks. |
| `CubePoints.DistanceIsLeast` | postgresql-10.0-with-exploratory-optimizer/contrib/cube/cube.c:1184-1327 | Each of the three distances is that of two points, one in each box, and no two such points are nearer. |
| `HstoreUpgrade.HstoreValidOldFormat` | postgresql-10.0-with-exploratory-optimizer/contrib/hstore/hstore_compat.c:170-229 | The scans decide the old format: 0, 1 with slack, or 2. |
| `HstoreUpgrade.HstoreValidNewFormat` | postgresql-10.0-with-exploratory-optimizer/contrib/hstore/hstore_compat.c:118-162 | The scans decide the new format. |
| `HstoreUpgrade.HStore.RewriteInPlace` | postgresql-10.0-with-exploratory-optimizer/contrib/hstore/hstore_compat.c:328-350 | The loop overwrites old entries by new ones in place without reading an entry it has overwritten. |
| `HstoreUpgrade.UpgradeKeepsPairs` | postgresql-10.0-with-exploratory-optimizer/contrib/hstore/hstore_compat.c:328-350 | Every pair keeps key offset, key length, value offset, effective value length and null flag. |
| `HstoreUpgrade.UpgradeIsValidNew` | postgresql-10.0-with-exploratory-optimizer/contrib/hstore/hstore_compat.c:328-353 | The result passes every structural check of the new format exactly, and its size is the used bytes: no more than before, and the same if and only if there was no slack. |
| `HstoreUpgrade.Upgrade` | postgresql-10.0-with-exploratory-optimizer/contrib/hstore/hstore_compat.c:235-356 | The decision between unchanged, flagged, converted and invalid, what each leaves in memory, and that a value that is not writable is copied first. |
| `HstoreUpgrade.ConvertedExactly` | postgresql-10.0-with-exploratory-optimizer/contrib/hstore/hstore_compat.c:243-254 | A value accepted as old is converted, unless it is smaller than 32768 bytes and its first pair is null with a stored length of 32768 or more; then it is left as it is, and reads as a pair that is not null. |
| `HstoreUpgrade.AcceptedYetUnchanged` | postgresql-10.0-with-exploratory-optimizer/contrib/hstore/hstore_compat.c:243-254 | A concrete such value. |
| `HstoreFormat.OldIsAccepted` | postgresql-10.0-with-exploratory-optimizer/contrib/hstore/hstore_compat.c:170-229 | Every list of pairs in the order of the format, laid out in the old form with any slack, is accepted, with 2 exactly when there is none. |
| `HstoreFormat.OldReads` | postgresql-10.0-with-exploratory-optimizer/contrib/hstore/hstore_compat.c:170-229 | It reads as the list it was made from, byte by byte. |
| `HstoreFormat.OldListUpgrades` | postgresql-10.0-with-exploratory-optimizer/contrib/hstore/hstore_compat.c:235-356 | It is converted, unless its first pair is null with a stored length of 32768 or more in a value smaller than that, and then reads, in the new form, as the same list. |
| `HstoreFormat.UpgradedOnce` | postgresql-10.0-with-exploratory-optimizer/contrib/hstore/hstore_compat.c:243-250 | Count and flag of a converted value can be told apart again, and another upgrade leaves it as it is. |
| `HstoreFormat.UpgradeKeepsList` | postgresql-10.0-with-exploratory-optimizer/contrib/hstore/hstore_compat.c:328-350 | Whatever is accepted as old reads the same after the rewrite as before. |
| `HstoreFormat.NewIsAccepted` | postgresql-10.0-with-exploratory-optimizer/contrib/hstore/hstore_compat.c:118-162 | Every list laid out in the new form is accepted as new, with 2 exactly when there is no slack. |
| `HstoreFormat.NewReads` | postgresql-10.0-with-exploratory-optimizer/contrib/hstore/hstore_compat.c:118-162 | It reads as the list it was made from. |
| `KnnSelect.FsDistance` | postgresql-10.0-with-exploratory-optimizer/contrib/aqo/machine_learning.c:25-36 | The loop computes the root of the mean squared difference, 0 without features. |
| `KnnMetric.DistanceOfOne` | postgresql-10.0-with-exploratory-optimizer/contrib/aqo/machine_learning.c:25-36 | Of one feature the distance is the absolute difference. |
| `KnnMetric.DistancesAverage` | postgresql-10.0-with-exploratory-optimizer/contrib/aqo/machine_learning.c:25-36 | Joining features, squared distances average by the number of features: with the case of one feature this fixes the distance. |
| `KnnMetric.DistanceIsMetric` | postgresql-10.0-with-exploratory-optimizer/contrib/aqo/machine_learning.c:25-36 | It is symmetric, not negative, and meets the triangle inequality. |
| `KnnSelect.Shift` | postgresql-10.0-with-exploratory-optimizer/contrib/aqo/machine_learning.c:74-80 | The inner loop shifts the tail of the list by one and drops the last entry. |
| `KnnSelect.ComputeWeights` | postgresql-10.0-with-exploratory-optimizer/contrib/aqo/machine_learning.c:54-88 | Leaves the chosen rows with their weights and the sum of the weights. |
| `KnnSelect.ChosenAreNearest` | postgresql-10.0-with-exploratory-optimizer/contrib/aqo/machine_learning.c:70-82 | The chosen rows are the min(k, rows) nearest, distinct, in order of distance with ties by row, and no other row is nearer. |
| `KnnSelect.NearestUnique` | postgresql-10.0-with-exploratory-optimizer/contrib/aqo/machine_learning.c:70-82 | Only one list has that property. |
| `KnnPredict.NeighboursAreNearest` | postgresql-10.0-with-exploratory-optimizer/contrib/aqo/machine_learning.c:70-82 | The same, for the list without its fill: all rows when there are fewer than k. |
| `KnnPredict.Predict` | postgresql-10.0-with-exploratory-optimizer/contrib/aqo/machine_learning.c:96-131 | The prediction is the clamped weighted mean, and negative if and only if there are no rows. |
| `KnnPredict.PredictionIsBetween` | postgresql-10.0-with-exploratory-optimizer/contrib/aqo/machine_learning.c:115-120 | Before clamping it lies between the least and the greatest target of the nearest rows. |
| `KnnMetric.PredictionIsLeastLoss` | postgresql-10.0-with-exploratory-optimizer/contrib/aqo/machine_learning.c:41-120 | It is the one number for which the sum over the nearest rows of the squared gap to the target, divided by 0.001 plus the distance, is least. |
| `KnnLearn.NearestRow` | postgresql-10.0-with-exploratory-optimizer/contrib/aqo/machine_learning.c:208-213 | Finds the distances and the first nearest row. |
| `KnnLearn.Learn` | postgresql-10.0-with-exploratory-optimizer/contrib/aqo/machine_learning.c:188-264 | With room the nearest row is moved or a row is added; on a full table the neighbours are corrected; the list names the changed lines; and every division is by a nonzero distance exactly when the table has room, there are no features or they are not a row already. |
| `KnnLearn.DistanceZero` | postgresql-10.0-with-exploratory-optimizer/contrib/aqo/machine_learning.c:25-36 | A distance is zero if and only if the rows are equal. |
| `KnnLearn.FiniteExactly` | postgresql-10.0-with-exploratory-optimizer/contrib/aqo/machine_learning.c:248-256 | On a full table a neighbour at distance zero is divided by if and only if the features learned are already a row. |
| `KnnLearn.SameRowAgain` | postgresql-10.0-with-exploratory-optimizer/contrib/aqo/machine_learning.c:248-256 | A concrete table of one row that is learned again. |
| `KnnLearn.LearnedIsBetween` | postgresql-10.0-with-exploratory-optimizer/contrib/aqo/machine_learning.c:214-233 | A learned row lies between the row it replaces, which is the nearest and within the threshold, and the object. |
| `KnnMoves.RoomLearnsOnce` | postgresql-10.0-with-exploratory-optimizer/contrib/aqo/machine_learning.c:214-233 | What learning with room leaves in the buffers is the table with one row moved or added. |
| `KnnMoves.RepeatsConverge` | postgresql-10.0-with-exploratory-optimizer/contrib/aqo/machine_learning.c:208-233 | An object learned n times with room goes to the same row each time; then that row's gap to it in every feature, its distance and the error of its target are 0.9^n of what they were, and nothing else has changed. |
| `KnnMoves.NewRowStays` | postgresql-10.0-with-exploratory-optimizer/contrib/aqo/machine_learning.c:226-233 | Learned into a new row it is that row, however often it is learned again. |
| `KnnLearn.FullStepShrinksError` | postgresql-10.0-with-exploratory-optimizer/contrib/aqo/machine_learning.c:236-247 | On a full table the correction of the targets, at the distances they had, moves the weighted mean toward the new target by a factor in [0.9, 1), never past it. |
| `KnnLearn.FullTargetsElsewhere` | postgresql-10.0-with-exploratory-optimizer/contrib/aqo/machine_learning.c:242-256 | It touches no other row's target. |
| `KnnGradient.DistancesAfter` | postgresql-10.0-with-exploratory-optimizer/contrib/aqo/machine_learning.c:248-256 | On a full table each neighbour ends up farther from the object by its step, or past it, and no other row moves. |
| `KnnGradient.SlopeIs` | postgresql-10.0-with-exploratory-optimizer/contrib/aqo/machine_learning.c:70-120 | If one neighbour alone were at another distance, the prediction would rise by the difference times the slope. |
| `KnnGradient.StepIsGradient` | postgresql-10.0-with-exploratory-optimizer/contrib/aqo/machine_learning.c:236-256 | The step is the slope of half the squared error at the neighbour's distance, times the learning rate, over the root of the number of features, downhill. |
| `KnnGradient.ComesNearerExactly` | postgresql-10.0-with-exploratory-optimizer/contrib/aqo/machine_learning.c:248-256 | A neighbour comes nearer if and only if its target and the object's are on the same side of the prediction and the step is less than twice the distance. |
| `KnnGradient.RestsExactly` | postgresql-10.0-with-exploratory-optimizer/contrib/aqo/machine_learning.c:236-256 | The step changes nothing if and only if the prediction is the object's target. |
| `KnnGradient.StepDrawsPrediction` | postgresql-10.0-with-exploratory-optimizer/contrib/aqo/machine_learning.c:236-256 | Without overshoot the mean over the neighbours, at their new places and with their new targets, has moved toward the object's target. |
| `KnnGradient.NextPredictionDrawn` | postgresql-10.0-with-exploratory-optimizer/contrib/aqo/machine_learning.c:188-264 | On a table of exactly k rows that is the next prediction for the same object. |
| `KnnCosts.UpdateRow` | postgresql-10.0-with-exploratory-optimizer/contrib/aqo/machine_learning.c:305-345 | The branches on near-equal, better and worse times, and exactly when nothing is reported. |
| `KnnCosts.IgnoredExactly` | postgresql-10.0-with-exploratory-optimizer/contrib/aqo/machine_learning.c:305-345 | With positive times an observation falls between the branches if and only if the times differ by exactly the comparison rate. |
| `KnnCosts.Learn2` | postgresql-10.0-with-exploratory-optimizer/contrib/aqo/machine_learning.c:267-404 | One call takes the table to its successor and names the changed line. |
| `KnnCosts.RunKeepsBest` | postgresql-10.0-with-exploratory-optimizer/contrib/aqo/machine_learning.c:267-404 | In every run the table keeps to its cap, and every row's best time is one routed to it and at most 1.01 times each of them. |
| `KnnCosts.BestNeverRises` | postgresql-10.0-with-exploratory-optimizer/contrib/aqo/machine_learning.c:267-404 | In every run no row's best time rises and no row is dropped. |
| `KnnCosts.RunExplained` | postgresql-10.0-with-exploratory-optimizer/contrib/aqo/machine_learning.c:305-345 | In every run a row's best time is that of an observation faster than all before it, than one of them by more than one percent, and at most that much slower than any after it; its estimate is the least of those of the last observation at that time, give or take one percent, and of the slower ones since. |
| `KnnCosts.UpdatedComesNearer` | postgresql-10.0-with-exploratory-optimizer/contrib/aqo/machine_learning.c:305-345 | A row comes nearer to an observation by a tenth of the distance and takes its estimate, unless it is ignored or is slower and no cheaper; then it stays as it is. |
| `KnnCosts.EveryObservationRouted` | postgresql-10.0-with-exploratory-optimizer/contrib/aqo/machine_learning.c:267-404 | Every observation belongs to the history of a row of the table. |
| `KnnCosts.Learn2Runs` | postgresql-10.0-with-exploratory-optimizer/contrib/aqo/machine_learning.c:267-404 | These hold of the routing that the code uses. |
| `LwprMeans.UpdateMeans` | postgresql-10.0-with-exploratory-optimizer/contrib/aqo/machine_learning_lwpr.c:847-861 | The loop updates means, variances and intercept, and returns the gaps to the new means. |
| `LwprMeans.MeanIsBatchMean` | postgresql-10.0-with-exploratory-optimizer/contrib/aqo/machine_learning_lwpr.c:847-861 | In every run the mean times the summed weight is the weighted sum of the inputs. |
| `LwprMeans.InterceptIsBatchMean` | postgresql-10.0-with-exploratory-optimizer/contrib/aqo/machine_learning_lwpr.c:847-861 | In every run the intercept times the summed weight is the weighted sum of the outputs and the prior. |
| `LwprMeans.VarianceWithinScatter` | postgresql-10.0-with-exploratory-optimizer/contrib/aqo/machine_learning_lwpr.c:847-861 | In every run the variance is not negative and at most the weighted scatter about the mean. |
| `LwprField.CheckAddProjection` | postgresql-10.0-with-exploratory-optimizer/contrib/aqo/machine_learning_lwpr.c:1169-1204 | A direction is added at most one at a time, with its counters at their start values. |
| `LwprField.TickCounters` | postgresql-10.0-with-exploratory-optimizer/contrib/aqo/machine_learning_lwpr.c:829-832 | Counts the update and renews the forgetting factors. |
| `LwprField.Remember` | postgresql-10.0-with-exploratory-optimizer/contrib/aqo/machine_learning_lwpr.c:799-816 | Appends to the error history, shifting out the oldest entry in place when it is full. |
| `LwprField.Datahouse.LearnInto` | postgresql-10.0-with-exploratory-optimizer/contrib/aqo/machine_learning_lwpr.c:979-1002 | Loading, learning, counting the rows and saving is one learning step on the stored rows. |
| `LwprField.ReceptiveField.constructor` | postgresql-10.0-with-exploratory-optimizer/contrib/aqo/machine_learning_lwpr.c:1340-1438 | A new field has zero means, prior weights, factors 1 and one stored row. |
| `LwprField.ReceptiveField.Update` | postgresql-10.0-with-exploratory-optimizer/contrib/aqo/machine_learning_lwpr.c:790-832 | One update of the field in memory is one step of the model. |
| `LwprField.InitialIsFresh` | postgresql-10.0-with-exploratory-optimizer/contrib/aqo/machine_learning_lwpr.c:1377-1438 | A new field is a start from which the theorems about runs hold, with the one sample stored. |
| `LwprField.FieldsAreTrace` | postgresql-10.0-with-exploratory-optimizer/contrib/aqo/machine_learning_lwpr.c:790-832 | Updating from a sound field yields a run to which the theorems apply. |
| `LwprField.RunCounts` | postgresql-10.0-with-exploratory-optimizer/contrib/aqo/machine_learning_lwpr.c:829-832 | In every run the factors stay 1, the first counter is the number of updates and the first weight the sum of the weights, each plus the prior. |
| `LwprField.RunStatistics` | postgresql-10.0-with-exploratory-optimizer/contrib/aqo/machine_learning_lwpr.c:847-902 | In every run mean and intercept are the batch means with the prior, and the variance is within the scatter. |
| `LwprField.TrustedExactly` | postgresql-10.0-with-exploratory-optimizer/contrib/aqo/machine_learning_lwpr.c:975-978 | A field is trusted exactly from update 2 nIn + 1 on, and trust is never revoked. |
| `LwprField.StoreHasRoom` | postgresql-10.0-with-exploratory-optimizer/contrib/aqo/machine_learning_lwpr.c:979-1002 | The store never exceeds 2 nIn + 1 rows, and learning is never called on a full table. |
| `LwprField.ErrorsAreLast` | postgresql-10.0-with-exploratory-optimizer/contrib/aqo/machine_learning_lwpr.c:799-816 | The error history is the last errors, oldest first. |
| `LwprField.DirectionsBounded` | postgresql-10.0-with-exploratory-optimizer/contrib/aqo/machine_learning_lwpr.c:1169-1204 | There are never more directions than inputs, nor fewer than two unless there is one input, so the entry before the last exists and the storage never has to grow. |
| `LwprField.InitialDirections` | postgresql-10.0-with-exploratory-optimizer/contrib/aqo/machine_learning_lwpr.c:1340-1358 | A new field without template starts with two directions, or one if there is one input. |
| `LwprField.AddedExactly` | postgresql-10.0-with-exploratory-optimizer/contrib/aqo/machine_learning_lwpr.c:1169-1204 | In every run an update adds a direction if and only if it asks for one, there are fewer than inputs, and the last one was there from the start or has seen more than 99 percent of the updates. |
| `LwprField.DirectionsFarApart` | postgresql-10.0-with-exploratory-optimizer/contrib/aqo/machine_learning_lwpr.c:1169-1204 | So a direction that follows an added one comes more than a hundred times as late. |

## Left out

- Storage of learned data (`storage.c`), planner and executor hooks, auto-tuning and plan generation of AQO: table I/O and plumbing.
- The remaining contrib modules: thin wrappers, clients of code outside this tree, or instances of arguments made here.
- Memory contexts, WAL and TOAST: a page is changed by the lock section that commits it, and an aborted change is no change.
- The numeric core of LWPR (partial least squares, distance-metric gradients, confidence and explore values): an update is given the error it reports and whether it asks for a new direction.
- Rounding, overflow and not-a-number in floating-point code: arithmetic is over the reals.
- amcheck without ShareLock, and its error messages: the model is the read-only check over a fixed set of pages, and an error is a rejection.
- BtreeCheck.VisitPage: an internal first page without any data item counts as rejected, where the code would read its first downlink past the items.
- BtreeCheck.CheckLevelFromLeftmost: takes a bound on the number of pages visited and reports an unfinished walk; BtreeEnds.NeverEndsExactly says when no bound is enough and BtreeEnds.LevelCheckEnds when the number of blocks is.
- BtreeCheck.CheckEveryLevel: takes the same bound for every level.
- CubeDistance.CoordNoFartherExactly: coordinates from 1 on; a remainder of a negative number is an index before the array in the code.
- CubeSplit.PickSplit: requires at least three vector entries, that is two keys, as GiST guarantees; the sentinel written behind both lists is not modelled.
- BloomSignature.SignValue: bit -1, which C sets by a shift by -1 in the first word, is reported by `defined` and not set, as the effect is undefined.
- BloomPage.FormTuple: nothing is said of a tuple with such a column, for the same reason.
- BloomPage.ScanSignature: nor of the bits of a scan with such a key.
- AqoArgOrder.ArgOrderExactly: clauses without constants; with one the whole clause is hashed, and whether two orders collide is up to the hash.
- GistVarTree.SearchFindsExactly: the root page has a key here, which no search looks at; penalties, which only choose the path of an insert, are not modelled.
- BloomProtocol.StepKeepsInv: extending the file and locking the new page is one step; tuples carry the number of the insert that made them as history, which is not stored.
- BloomRuns.VacuumRemovesAllDead: the callback is a fixed set of heap positions, and about tuples present when the vacuum starts; a page added later is not visited.
- BloomRuns.ScanMissesNothing: about tuples present when the scan starts, as no later insert is promised to be seen.
- BloomBuild.Build: pages are lists of tuples; writing them out is not modelled.
- GistVarKey.VarUnion: the bytea instance; other variable types differ in comparison and character length only, and multi-byte prefixes are not modelled.
- AqoFss.GetFssForObject: an equality clause has at least one argument, as the code reads its first one; the query and fss hashes are mathematical integers.
- AqoEclasses.FindId: the library's binary search by its contract; likewise `qsort` in `Sorting`.
- HstoreUpgrade.Upgrade: entries past the end of the value read as 0, which no verdict depends on, since a value too short for its count is rejected, and words behind the value may exist; the build as contrib/hstore, little-endian bit fields.
- HstoreUpgrade.HStore.RewriteInPlace: the text behind the entries is part of the same array and unchanged; keys are not compared by content.
- KnnLearn.Learn: where a distance divided by is zero, C computes not-a-number for that row, and the model leaves the row's features as they are; at least one row may be kept (k > 0); rows are values in an array rather than arrays of their own.
- KnnLearn.FullStepShrinksError: the distances are those before the step; KnnGradient is about the rows, which move in the same step.
- KnnGradient.StepDrawsPrediction: the direction of the change; how far it goes, which may be past the target, is not bounded, and nothing is said of a step that takes a row more than its distance past the object.
- KnnGradient.NextPredictionDrawn: a table with more than k rows can have other neighbours after the step.
- KnnCosts.Learn2: at least one row may be kept (k > 0), as the full branch reads row 0.
- LwprField.CheckAddProjection: the test on the ratio of the last two mean squared errors is an argument, as those errors belong to the numeric core.
- LwprField.ErrorsAreLast: the errors are inputs of the updates, for the same reason.
- LwprField.ReceptiveField.Update: a field whose kernel weight passes the activation threshold; computing that weight, pruning and adding fields to the model are not modelled.
- LwprField.ReceptiveField.constructor: the datahouse of the new field is empty, that is no other field of the subspace has the same centre hash.
