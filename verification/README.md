# Verified models of eosforce

This project models the parts of the eosforce repository whose correctness is hardest to
see, and proves what they promise. The models are written in Dafny 4.11; `dafny verify
dfyconfig.toml` checks all of them.

- **Irreversibility** (`Dpos`, `DposSafety`, `DposLib`, `DposForks`, `DposExamples`). How a
  block header state becomes the next one: counting confirmations, proposing irreversible
  blocks, taking the last irreversible block by rank, promoting schedules. Proved over every
  run from genesis: a block that is irreversible or proposed to be has confirmations of more
  than two thirds of distinct producers, more than two thirds of the active producers imply
  the irreversible one, the bookkeeping that decides this is exact at every block, and two
  forks under one schedule cannot both settle a block number without more than a third of the
  producers confirming it on both.
- **Fork database** (`ForkTree`, `ForkBranches`, `ForkDatabase`). The tree of reversible
  blocks as a class. Every operation that succeeds keeps the tree and keeps the head at a
  block that no valid stored block is preferred to; removal, root advance and branch search
  are characterised exactly, including when they fail.
- **Merkle trees** (`MerkleDepth`, `Merkle`). The incremental tree returns, after every
  append, the root that the batch algorithm computes from all leaves.
- **Conversions between 128-bit integers and IEEE 754 numbers** (`Bits`, `Ieee754`,
  `FixToInt`, `Rounding`, `FloatFromInt`, `RoundTrips`). The bit-level code returns the
  correctly rounded number, ties to even, among all numbers of the format; truncation,
  saturation, round trips and independence of the format are proved for every pattern.
- **Reflection checker** (`FieldMatcher`, `Braces`, `ScopeReader`). The loop that matches the
  fields of a class against its reflection accepts exactly the consistent pairs without a
  superfluous swap marker; the scope reader finds exactly the brace pairs that depth
  counting finds, on every text.
- **Names, undo, documents, slots** (`NameSuffix`, `UndoStack`, `VariantDiff`,
  `VariantReports`, `RoundRobin`). The name suffix as a bit loop against its meaning on
  symbols, an undo stack against nested transactions, a document diff that reports every place
  where two documents part exactly once, and fairness of round-robin scheduling.

## How to read it

Code of the repository that computes in one expression is a function here; a loop is a method
with invariants, proved equal to a function or to a property; an object that changes is a
class. Integers are unbounded in Dafny, so word widths, shifts that lose bits, wrap-around
and truncation are written out (`Bits.ShlWord`, `Bits.Low`, `Dpos.Sub32`,
`FixToInt.WrapSigned`).

Where the code and its comments disagree the model follows the code:

- `clz_power_2` is described as counting leading zeros. It returns the exponent of the power
  (`MerkleDepth.ClzPower2IsExponent`), and that is what its caller needs.
- `name_suffix` says that a name without an actual dot may have leading dots and is returned
  as it is. A leading dot before another symbol does count, as the tests there expect:
  the suffix of `.abc` is `abc` (`NameSuffix.FixedPoints`).

Where a property one would expect is false of the code, the exact condition is proved:

- The signed conversions saturate only from exponent 128 on. At exponent 127 they return the
  truncated value modulo 2^128, which C leaves undefined for a signed shift; the model takes
  two's complement. `FixSignedIsClampedTruncation` says for which patterns that is saturation.
- The check that a producer does not confirm a block twice subtracts in 32 bits. It means
  what it says exactly when a block confirms no more blocks than there are numbers before its
  own (`DposLib.GuardIsExact`). `DposExamples.UnguardedProposal` is a run from genesis in which
  a block beyond that bound gets another one proposed by a single producer of two. The results
  about quorums have the bound as a hypothesis (`DposSafety.Admissible` for a block,
  `DposSafety.Modest` for a run); those about the order of blocks and the schedule do not.
- The last irreversible block number can fall, but only in the block after a schedule took
  effect (`DposLib.LibFallsOnlyAfterPromotion`). `DposExamples.LibCanFall` is a run of eight
  blocks from genesis in which it falls from 3 to 0; `DposLib.LibMoves` is the exact condition
  for any block.
- `advance_root` fails after it has begun to erase. A failure for the sake of the head leaves
  the database without the block asked for, and in order exactly if nothing was built on that
  block (`ForkDatabase.ForkDatabase.AdvanceRoot`).
- Adding a block can move the head from the root to a worse block: exactly if the head was the
  root, some stored block is valid then, and the root is preferred to each of them
  (`ForkDatabase.ForkDatabase.Add`); `ForkDatabase.HeadGetsWorse` is such a case.
- A text whose scopes all close is not always read: reading fails, too, exactly if it comes
  upon a namespace that inherits (`ScopeReader.Reader.Read`, `ScopeReader.InheritingNamespace`).
- A consistent reflection is refused exactly when it marks as swapped a field that is in
  order (`FieldMatcher.MatchFields`).

## Model

| member | source | states |
|---|---|---|
| `Dpos.ConfirmBlocks` | libraries/chain/block_header_state.cpp:90-116 | the loop over the 8-bit counts decrements those of the confirmed blocks, newest first, and on the first that reaches zero proposes that block and keeps only later ones |
| `Dpos.CompletedIs` | libraries/chain/block_header_state.cpp:94-111 | the block proposed is the newest confirmed one that was missing a single confirmation |
| `Dpos.NthElement` | libraries/chain/block_header_state.cpp:33-35 | the element of rank k, by how many are not below it |
| `Dpos.CollectNumbers` | libraries/chain/block_header_state.cpp:24-28 | the list holds, for every bound, as many numbers not below it as the map with the producer's entry replaced |
| `Dpos.CalcLib` | libraries/chain/block_header_state.cpp:24-36 | the result is the latest block number that more than two thirds of the producers imply, with the next producer counted for the proposed block |
| `Dpos.NeededIsTwoThirds` | libraries/chain/block_header_state.cpp:29-33 | an index one third into the sorted list leaves the least number above two thirds not below it |
| `Dpos.LibReaches` | libraries/chain/block_header_state.cpp:24-36 | a block number is not after the last irreversible one exactly when enough producers imply it |
| `Dpos.LibUnique` | libraries/chain/block_header_state.cpp:24-36 | that determines the last irreversible block |
| `Dpos.RenewMap` | libraries/chain/block_header_state.cpp:126-140 | the map for a schedule that takes effect: own value for the producer of the block, the known one for others, the last irreversible block for new ones |
| `Dpos.CountBlock` | libraries/chain/block_header_state.cpp:75-116 | counts and proposed block after tracking the new block and confirming |
| `Dpos.Assemble` | libraries/chain/block_header_state.cpp:116-168 | all fields of the next state, with and without a schedule taking effect |
| `Dpos.BuildNext` | libraries/chain/block_header_state.cpp:59-171 | the next state with the last irreversible block number computed from the old one |
| `Dpos.NextBlock` | libraries/chain/block_header_state.cpp:38-171 | a whole step with each of its errors, in order, and the rules for announcing a schedule (lines 223-317 of the same file), by the last irreversible block number that the map gives |
| `DposSafety.ConfirmsOnce` | libraries/chain/block_header_state.cpp:51-57 | a producer that passes the check has confirmed none of the blocks it confirms now |
| `DposSafety.ConfirmersGrow` | libraries/chain/block_header_state.cpp:51-57 | so every block confirmed gains exactly one distinct producer, and no other does |
| `DposSafety.LoopCounts` | libraries/chain/block_header_state.cpp:90-116 | what the loop does as a relation: counts lowered for the confirmed blocks, cut after the newest one that reaches zero |
| `DposSafety.CountsKept` | libraries/chain/block_header_state.cpp:72-116 | every count is the number of confirmations its block is missing, before and after any block |
| `DposSafety.ProducedKept` | libraries/chain/block_header_state.cpp:126-142 | the record of last produced blocks stays complete, also for producers a schedule brings back |
| `DposSafety.SettledKept` | libraries/chain/block_header_state.cpp:116-168 | everything implied to be irreversible has a quorum |
| `DposSafety.StepKeepsOrder` | libraries/chain/block_header_state.cpp:72-168 | whatever an accepted block confirms, nothing irreversible or implied is after the proposed block, which never moves back |
| `DposSafety.RunKeepsOrder` | libraries/chain/block_header_state.cpp:38-171 | so on every run from genesis, where each block has the next number |
| `DposSafety.StepKeepsInv` | libraries/chain/block_header_state.cpp:38-171 | all of this together is kept by every accepted block that confirms no more blocks than there are |
| `DposSafety.RunKeepsInv` | libraries/chain/controller.cpp:482-490 | and holds in every state reached by such blocks from genesis, where the initial schedule is active and pending |
| `DposSafety.IrreversibleHasQuorum` | libraries/chain/block_header_state.cpp:24-171 | on every run of such blocks, an irreversible or proposed block was confirmed by more than two thirds as many distinct producers as its schedule has |
| `DposLib.LibMoves` | libraries/chain/block_header_state.cpp:117 | exactly when the next last irreversible block is at or after a given one |
| `DposLib.BackedRises` | libraries/chain/block_header_state.cpp:117 | it does not fall where enough producers imply it |
| `DposLib.StepBacks` | libraries/chain/block_header_state.cpp:162-168 | a block that leaves the schedule as it is leaves it so |
| `DposLib.LibFallsOnlyAfterPromotion` | libraries/chain/block_header_state.cpp:117-168 | on every run, a fall comes right after a block that put a schedule into effect |
| `DposLib.RunActiveImply` | libraries/chain/block_header_state.cpp:121-168 | on every run, from the first block on, exactly the active producers imply blocks |
| `DposLib.IrreversibleIsImplied` | libraries/chain/block_header_state.cpp:24-36 | on every run, more than two thirds of the active producers imply the last irreversible block or a later one; and each block implied had a quorum, if no block confirms more than there are |
| `DposExamples.LibCanFall` | libraries/chain/block_header_state.cpp:38-171 | a run from genesis in which the last irreversible block falls, right after a schedule took effect |
| `DposLib.GuardIsExact` | libraries/chain/block_header_state.cpp:51-57 | the check against confirming twice means that exactly when the 32-bit subtraction does not wrap around |
| `DposExamples.FirstBlock` | libraries/chain/block_header_state.cpp:38-171 | the first block of the run below, from genesis |
| `DposExamples.UnguardedProposal` | libraries/chain/block_header_state.cpp:51-114 | a run from genesis with a block for which the check wraps around: with two producers block 2 is proposed with the confirmations of one |
| `DposForks.RunKeepsFixed` | libraries/chain/block_header_state.cpp:121-168 | without announcements the schedule stays, and only its producers produce |
| `DposForks.QuorumsMeet` | libraries/chain/block_header_state.cpp:29-34 | two quorums of one schedule share more than a third of it |
| `DposForks.ForksShareConfirmers` | libraries/chain/block_header_state.cpp:38-171 | if two runs from one genesis that announce no schedule and confirm no more blocks than there are make the same block number final, more than a third of the producers confirmed that number on both |
| `ForkTree.PrunedTree` | libraries/chain/fork_database.cpp:443-465 | a tree without a block and everything built on it is a tree |
| `ForkTree.Enumerate` | libraries/chain/fork_database.cpp:453-457 | the blocks built on one, each once |
| `ForkTree.QueueGrows` | libraries/chain/fork_database.cpp:449-458 | the removal queue stays free of repetitions, reaches only descendants, and has all children of what it is done with |
| `ForkTree.QueueIsComplete` | libraries/chain/fork_database.cpp:449-458 | when it is done it has every descendant |
| `ForkTree.Collect` | libraries/chain/fork_database.cpp:445-458 | the search terminates; it fails exactly if the head is the block or built on it, and otherwise finds exactly the descendants |
| `ForkTree.Prune` | libraries/chain/fork_database.cpp:444-465 | removal takes away exactly the block and its descendants, or nothing |
| `ForkBranches.FetchBranchFrom` | libraries/chain/fork_database.cpp:384-441 | fails exactly for unknown blocks; otherwise returns both branches without what they end in in common |
| `ForkBranches.PartsDisjoint` | libraries/chain/fork_database.cpp:380-383 | those two branches have no block in common, so they end at the nearest common ancestor |
| `ForkBranches.DownTo` | libraries/chain/fork_database.cpp:393-413 | the walk down to a number stays on the branch and never misses a block |
| `ForkBranches.DownBoth` | libraries/chain/fork_database.cpp:417-440 | the walk down both branches ends where they part, without a failing lookup |
| `ForkBranches.Predecessors` | libraries/chain/fork_database.cpp:262-267 | the blocks below the new root, down to the old one; the orphan check never fails |
| `ForkBranches.PruneAll` | libraries/chain/fork_database.cpp:269-276 | removing these one by one leaves exactly what is built on the new root, and succeeds exactly if the head is it or built on it |
| `ForkBranches.AboveIsTree` | libraries/chain/fork_database.cpp:252-283 | what is left is a tree with the new root |
| `ForkBranches.StrippedTree` | libraries/chain/fork_database.cpp:269-276 | what is left after a failure is a tree exactly if nothing was built on the block |
| `ForkDatabase.First` | libraries/chain/fork_database.cpp:40-53 | the first block in the order of the index |
| `ForkDatabase.ForkDatabase.constructor` | libraries/chain/fork_database.cpp:232-238 | a database with only its root |
| `ForkDatabase.ForkDatabase.Reset` | libraries/chain/fork_database.cpp:232-238 | back to that |
| `ForkDatabase.ForkDatabase.RollbackHeadToRoot` | libraries/chain/fork_database.cpp:240-250 | no block is valid any more, the head is the root, the tree is the same |
| `ForkDatabase.ForkDatabase.Add` | libraries/chain/fork_database.cpp:299-343 | each outcome, what it does to the index, that no valid stored block is preferred to the head, and exactly when the head goes to a worse block |
| `ForkDatabase.HeadGetsWorse` | libraries/chain/fork_database.cpp:330-333 | a root that is preferred to the valid block added to it, which becomes the head |
| `ForkDatabase.ForkDatabase.MarkValid` | libraries/chain/fork_database.cpp:467-485 | one block becomes valid, and the head moves only to a block preferred to it |
| `ForkDatabase.ForkDatabase.Remove` | libraries/chain/fork_database.cpp:443-465 | exactly the descendants go, unless the head is one of them |
| `ForkDatabase.ForkDatabase.AdvanceRoot` | libraries/chain/fork_database.cpp:252-283 | each outcome, what is left, and that the head stays; a failure for the sake of the head keeps everything built on the block, and leaves a valid database exactly if that is nothing |
| `ForkDatabase.ForkDatabase.PendingHead` | libraries/chain/fork_database.cpp:349-359 | no block at all, valid or not, is preferred to the result |
| `MerkleDepth.NextPowerOf2IsNext` | libraries/chain/include/eosio/chain/incremental_merkle.hpp:17-27 | the smeared word plus one is the least power of two not below the number, or 0 where that does not fit the word |
| `MerkleDepth.ClzPower2IsExponent` | libraries/chain/include/eosio/chain/incremental_merkle.hpp:38-50 | for each power of two, its exponent |
| `MerkleDepth.MaxDepthIsLeast` | libraries/chain/include/eosio/chain/incremental_merkle.hpp:59-65 | for every count one more than a 64-bit number, the depth is the least that has room for the leaves, although the power of two overflows from 2^63 on |
| `Merkle.PairInPlace` | libraries/chain/merkle.cpp:42-46 | hashing pairs in place gives the next level |
| `Merkle.BatchMerkle` | libraries/chain/merkle.cpp:35-50 | the root of the tree of all leaves, the empty digest for none |
| `Merkle.RootAtDepth` | libraries/chain/merkle.cpp:38-49 | the root is the single node at the least sufficient depth |
| `Merkle.TreeDepth` | libraries/chain/include/eosio/chain/incremental_merkle.hpp:170-171 | the number of levels the collapse climbs is the height of the tree with one leaf more |
| `Merkle.ClimbFromLeft` | libraries/chain/include/eosio/chain/incremental_merkle.hpp:179-192 | collapsing a left node with itself keeps the correspondence with the levels of the tree |
| `Merkle.ClimbFromRight` | libraries/chain/include/eosio/chain/incremental_merkle.hpp:193-208 | collapsing a right node with an active one does too, and that active node is there |
| `Merkle.ClimbLevel` | libraries/chain/include/eosio/chain/incremental_merkle.hpp:178-213 | one level of the collapse keeps the correspondence with the levels of the tree |
| `Merkle.ClimbLevels` | libraries/chain/include/eosio/chain/incremental_merkle.hpp:178-213 | the loop over the levels keeps it up to the root |
| `Merkle.Climb` | libraries/chain/include/eosio/chain/incremental_merkle.hpp:168-219 | the new active nodes are the complete left subtrees of the tree with the new leaf, and its root |
| `Merkle.IncrementalMerkle.constructor` | libraries/chain/include/eosio/chain/incremental_merkle.hpp:97-99 | an empty tree |
| `Merkle.IncrementalMerkle.Append` | libraries/chain/include/eosio/chain/incremental_merkle.hpp:168-226 | returns the batch root of all leaves so far |
| `Merkle.IncrementalMerkle.GetRoot` | libraries/chain/include/eosio/chain/incremental_merkle.hpp:233-239 | the batch root of all leaves, the empty digest for none |
| `Bits.ShrIsQuotient` | libraries/builtins/fixunsdfti.c:34 | a shift to the right is the quotient by the power of two, and the bits cut off are the remainder |
| `Ieee754.FormatConstants` | libraries/builtins/fp128.h:8-19 | the field constants of the three formats |
| `Ieee754.ValueInjective` | libraries/builtins/fp128.h:8-28 | two patterns with a clear sign and the same value are the same |
| `FixToInt.Locals` | libraries/builtins/fixunsdfti.c:16-21 | the masks and shifts give sign, exponent and significand |
| `FixToInt.Int128Suits` | libraries/builtins/fp128.h:8-19 | the three formats meet the hypotheses of the results below for 128 bits |
| `FixToInt.FixUnsignedIsClampedTruncation` | libraries/builtins/fixunsdfti.c:15-37 | for every pattern, the value truncated toward zero and clamped to the range; infinities and other non-numbers saturate, a set sign gives 0 |
| `FixToInt.FixSignedIsWrappedTruncation` | libraries/builtins/fixdfti.c:16-41 | below exponent 128, the truncated value modulo 2^128 |
| `FixToInt.FixSignedIsClampedTruncation` | libraries/builtins/fixtfti.c:13-37 | clamped to the signed range exactly unless the exponent is 127, but for the least integer itself |
| `FixToInt.FixSignedNonFinite` | libraries/builtins/fixsfti.c:16-40 | infinities and other non-numbers give the extreme of their sign |
| `FixToInt.FormatIndependence` | libraries/builtins/fixunstfti.c:18-40 | patterns of any two formats that denote the same number give the same integer, unsigned and signed, exponent 127 included |
| `FixToInt.WrapsWhenSmall` | libraries/builtins/fixunssfti.c:19-41 | the saturation guard tests the magnitude of the value |
| `Rounding.NearestMultiple` | libraries/builtins/floatuntidf.c:35-58 | the rounded significand is the nearest multiple, ties to even |
| `Rounding.FloatFields` | libraries/builtins/floatuntidf.c:59-75 | exponent and fraction of the result, with and without a carry |
| `Rounding.FloatMagnitude` | libraries/builtins/floatuntidf.c:26-76 | the result has exactly the rounded value |
| `Rounding.FloatIsCorrectlyRounded` | libraries/builtins/floatuntidf.c:18-76 | no finite number of the format is nearer, and where another is as near the result has the even fraction |
| `Rounding.FloatIsTheCorrectRounding` | libraries/builtins/floatuntidf.c:18-76 | that holds of no other pattern |
| `Rounding.FloatSignedIsCorrectlyRounded` | libraries/builtins/floattidf.c:15-79 | the same for signed integers, -2^127 included |
| `Rounding.FloatSignedMonotone` | libraries/builtins/floattidf.c:26-79 | a larger integer never gives a smaller number |
| `FloatFromInt.ClzTi2Counts` | libraries/builtins/int_t.h:45-52 | selecting a half and counting in it gives the leading zeros of the whole word |
| `FloatFromInt.SignificantDigits` | libraries/builtins/floatuntidf.c:30-31 | 128 minus the leading zeros is the bit length |
| `FloatFromInt.KeepTwoExtraBits` | libraries/builtins/floatuntidf.c:43-53 | the three cases of the switch leave a word whose rounding by increment is ties-to-even |
| `FloatFromInt.RoundAndCarry` | libraries/builtins/floatuntidf.c:54-64 | the increment and the carry |
| `FloatFromInt.Normalise` | libraries/builtins/floatuntidf.c:32-70 | significand and exponent of the result in all cases |
| `FloatFromInt.PackWords` | libraries/builtins/floattidf.c:73-77 | the fields do not overlap, and the two 32-bit words are the pattern |
| `FloatFromInt.Convert` | libraries/builtins/floattidf.c:33-78 | the shared part of both conversions returns the correctly rounded pattern with the sign in front |
| `FloatFromInt.AlwaysNormal` | libraries/builtins/floatuntidf.c:71-75 | the result for a nonzero integer is a normal number with biased exponent 1023 to 1151 |
| `FloatFromInt.FloatUnTiDf` | libraries/builtins/floatuntidf.c:26-76 | the whole unsigned conversion returns the correctly rounded pattern |
| `FloatFromInt.AbsoluteValue` | libraries/builtins/floattidf.c:31-32 | the exclusive-or trick gives the absolute value, also of -2^127 |
| `FloatFromInt.SignField` | libraries/builtins/floattidf.c:74 | the sign bit in place |
| `FloatFromInt.FloatTiDf` | libraries/builtins/floattidf.c:26-79 | the whole signed conversion is the unsigned one of the absolute value, with the sign bit exactly for negative integers |
| `RoundTrips.Binary64Suits` | libraries/builtins/floatuntidf.c:20-22 | binary64 and 128 bits meet the hypotheses of the results below |
| `RoundTrips.FloatThenFix` | libraries/builtins/fixunsdfti.c:15-37 | to binary64 and back is rounding to 53 bits, capped at 2^128-1 |
| `RoundTrips.IntegerSurvives` | libraries/builtins/fixunsdfti.c:15-37 | an integer comes back exactly if it has no more than 53 significant bits up to trailing zeros, or is the cap |
| `RoundTrips.FloatFixFloat` | libraries/builtins/floatuntidf.c:26-76 | there, back and there again gives the same bits as once, the cap included |
| `RoundTrips.FixThenFloat` | libraries/builtins/fixunsdfti.c:17-36 | a number comes back bit for bit exactly if it denotes an integer up to 2^128 and its sign is clear |
| `RoundTrips.FloatThenFixSigned` | libraries/builtins/fixdfti.c:16-41 | the signed round trip is rounding, modulo 2^128 |
| `RoundTrips.SignedSurvives` | libraries/builtins/fixdfti.c:16-41 | and is rounding exactly below 2^127-2^73 |
| `FieldMatcher.WalkField` | tools/validate_reflection.py:641-678 | one round of the first loop: each branch keeps the account, makes progress, and fails only for the reasons stated |
| `FieldMatcher.WalkClassFields` | tools/validate_reflection.py:640-679 | the first loop keeps an exact account of what is matched, swapped and ignored |
| `FieldMatcher.WalkReflectedRest` | tools/validate_reflection.py:682-690 | the second loop consumes the remaining reflected fields |
| `FieldMatcher.MatchFields` | tools/validate_reflection.py:631-694 | passes if and only if class fields are reflected plus ignored fields, both lists agree in order without marked names, and no field is marked as swapped in vain; takes no more steps than there are fields |
| `FieldMatcher.ConsistentDistinct` | tools/validate_reflection.py:640-694 | what passes has no class field twice |
| `FieldMatcher.Reflection.constructor` | tools/validate_reflection.py:382-388 | empty lists |
| `FieldMatcher.Reflection.AddField` | tools/validate_reflection.py:533-536 | a field is reflected once |
| `FieldMatcher.Reflection.AddMarker` | tools/validate_reflection.py:510-530 | a name is marked once, as ignored or as swapped |
| `FieldMatcher.Reflection.Validate` | tools/validate_reflection.py:624-694 | the check of one class, with the id of a database object ignored where it is not mentioned |
| `Braces.KidsTile` | tools/validate_reflection.py:110-164 | the scopes in a scope that closes are matching brace pairs, one after the other, nested, with no brace outside them |
| `Braces.TilesInOrder` | tools/validate_reflection.py:110-164 | such scopes are disjoint, in order and within the surrounding one |
| `Braces.TilesSkip` | tools/validate_reflection.py:110-164 | past them nothing changes for where the surrounding scope closes |
| `Braces.TilesClose` | tools/validate_reflection.py:110-164 | each ends where depth counting says |
| `Braces.LabelsDoNotMatter` | tools/validate_reflection.py:317-360 | what the class patterns match decides the kind of a scope, not where scopes are |
| `ScopeReader.InitialiserAt` | tools/validate_reflection.py:86 | finds an initialiser exactly if the pattern matches there, and its end |
| `ScopeReader.SearchInitialiser` | tools/validate_reflection.py:140-142 | the text of the first match |
| `ScopeReader.FindPossibleEnd` | tools/validate_reflection.py:138-149 | skipping an initialiser never changes which opening brace is next |
| `ScopeReader.FindStart` | tools/validate_reflection.py:130-136 | the next scope begins at the next brace if that opens, but for the last character |
| `ScopeReader.Reader.constructor` | tools/validate_reflection.py:95-108 | only the global scope has its end from the start |
| `ScopeReader.Reader.Read` | tools/validate_reflection.py:110-124 | on any text reading finds exactly the scopes and the end that depth counting gives. It fails exactly if the scope does not close, the global one exactly if reading gets stuck, or if a scope found at any depth is a namespace that inherits. It terminates, the lookup of base classes by `find_class` apart, which is left out |
| `ScopeReader.Reader.ReadScopes` | tools/validate_reflection.py:110-117 | the loop of that, with the reasons for which it fails |
| `ScopeReader.Reader.NextScope` | tools/validate_reflection.py:317-360 | the next scope with everything in it, none, or failure since it does not close, or it or a scope in it inherits as a namespace |
| `ScopeReader.InheritingNamespace` | tools/validate_reflection.py:365-366 | a text whose only scope closes and cannot be read |
| `ScopeReader.StuckMeans` | tools/validate_reflection.py:110-124 | reading the global scope gets stuck exactly if some opening brace but the last character is never closed and no stray closing brace ended reading before |
| `ScopeReader.BalancedReads` | tools/validate_reflection.py:110-164 | a balanced text is read to its end, and its scopes tile it |
| `NameSuffix.CutMeans` | unittests/misc_tests.cpp:89-104 | the cut is after the last dot before the last other symbol |
| `NameSuffix.Idempotent` | unittests/misc_tests.cpp:87-116 | the suffix of a suffix is itself |
| `NameSuffix.FixedPoints` | unittests/misc_tests.cpp:106-107 | a name is its own suffix exactly if no dot comes before its last other symbol |
| `NameSuffix.NonzeroKept` | unittests/misc_tests.cpp:87-116 | the suffix has a symbol exactly if the name has |
| `NameSuffix.SymbolsInjective` | unittests/misc_tests.cpp:91-101 | a word is determined by its symbols |
| `NameSuffix.AssembledIsMoved` | unittests/misc_tests.cpp:109-115 | mask, shifts and sum move the symbols to the front without overlap or overflow |
| `NameSuffix.MovedSymbols` | unittests/misc_tests.cpp:109-115 | read as symbols: those after the cut, then dots, the thirteenth widened into its slot |
| `NameSuffix.LastActualDot` | unittests/misc_tests.cpp:88-104 | the loop returns the number of bits after the cut |
| `NameSuffix.MoveToFront` | unittests/misc_tests.cpp:111-115 | the word assembled is the moved one |
| `NameSuffix.SuffixOf` | unittests/misc_tests.cpp:87-116 | for names of any length, the word returned has the symbols of the suffix |
| `NameSuffix.Suffix64` | unittests/misc_tests.cpp:87-116 | the same for 64-bit names |
| `NameSuffix.SuffixLaws` | unittests/misc_tests.cpp:87-116 | idempotence, fixed points and nonzero results for words |
| `UndoStack.PermissionVisitor.constructor` | unittests/misc_tests.cpp:286-291 | an empty list and no pushes |
| `UndoStack.PermissionVisitor.Visit` | unittests/misc_tests.cpp:293-295 | appends |
| `UndoStack.PermissionVisitor.PushUndo` | unittests/misc_tests.cpp:299-303 | remembers the length |
| `UndoStack.PermissionVisitor.PopUndo` | unittests/misc_tests.cpp:305-312 | cuts the list back; the length check never fails |
| `UndoStack.PermissionVisitor.SquashUndo` | unittests/misc_tests.cpp:314-319 | forgets a length, or fails without one |
| `UndoStack.StepKeepsValid` | unittests/misc_tests.cpp:286-321 | the lengths stay nondecreasing and within the list |
| `UndoStack.FramesFlatten` | unittests/misc_tests.cpp:286-321 | the list is what all open transactions recorded |
| `UndoStack.Refines` | unittests/misc_tests.cpp:286-321 | each operation does to the list and lengths what it does to a stack of nested transactions |
| `UndoStack.RunRefines` | unittests/misc_tests.cpp:286-321 | so does every sequence of operations, and the lengths stay in order |
| `UndoStack.RunExists` | unittests/misc_tests.cpp:286-321 | every sequence the stack of transactions allows can be run |
| `UndoStack.PopRestores` | unittests/misc_tests.cpp:305-312 | after any balanced run an undo restores the list and the stack from before its push |
| `VariantDiff.DiffHelper` | unittests/snapshot_tests.cpp:175-237 | the loops and recursive calls produce the reports of the specification, in order |
| `VariantDiff.DiffLeftKeys` | unittests/snapshot_tests.cpp:183-198 | those of the entries of the left object, and the set of its keys |
| `VariantDiff.DiffRightKeys` | unittests/snapshot_tests.cpp:200-207 | those of the entries only the right object has |
| `VariantDiff.DiffArrays` | unittests/snapshot_tests.cpp:208-232 | those of two arrays |
| `VariantDiff.DiffIsExact` | unittests/snapshot_tests.cpp:175-237 | there is no report exactly if the documents are equal, objects as maps, arrays in order, simple values by their equality |
| `VariantReports.EveryReportOnce` | unittests/snapshot_tests.cpp:175-237 | the reports are exactly those whose path leads in both documents to what they say, where the documents part, and each occurs once |
| `VariantReports.DiffSwaps` | unittests/snapshot_tests.cpp:175-237 | if the equality of leaves is symmetric, exchanging the documents gives the same multiset of reports with the sides exchanged |
| `RoundRobin.Fairness` | unittests/producer_schedule_tests.cpp:21-24 | in every window of a round's length each position has exactly its repetitions |
| `RoundRobin.WindowSlides` | unittests/producer_schedule_tests.cpp:21-24 | where the window begins does not matter |
| `RoundRobin.NextRoundFirstBlock` | unittests/producer_schedule_tests.cpp:38-45 | the least multiple of the round length above the head |
| `RoundRobin.RoundStartsAtFirst` | unittests/producer_schedule_tests.cpp:21-24 | the slots of a turn from such a number on belong to the first producer |

## Left out

- Everything that executes transactions, keeps accounts, resources and tables, or talks to the network.
- Signatures, header hashes, block ids and protocol features: the state of a header is its irreversibility part, and an id is an opaque number that determines the block number.
- Dpos.NextBlock: slots are numbers; the comparisons of a finished header with the pending one, the errors about signature features and the validation of protocol features are left out.
- DposSafety.StepKeepsInv: like the other results about quorums, for blocks that confirm no more blocks than there are numbers before their own, that is without the wrap-around that `DposLib.GuardIsExact` delimits.
- DposSafety.IrreversibleHasQuorum: assumes of each block that it confirms no more blocks than there are numbers before its own, since the code does not give the quorum otherwise.
- DposForks.ForksShareConfirmers: is about two blocks of the same number and a schedule that does not change; across changes of the schedule the producers differ.
- Dpos.NthElement: sorts by insertion where the library selects; only the element of that rank is used.
- ForkDatabase.First: scans where the source keeps an ordered index.
- ForkDatabase.ForkDatabase.Add: the optional validation of protocol features is left out.
- Writing the fork database to a file and reading it back; the lookups `fetch_branch` and `search_on_branch`, which walk like the ones modelled.
- Merkle.IncrementalMerkle.Append: for node counts that fit 64 bits with the new leaf; one leaf more wraps the count around.
- The hash function and the marking of left and right digests are an arbitrary function of two digests; Merkle proofs and the bit masks of `make_canonical_left` are not modelled.
- The comment, field, class and reflection patterns of the reflection checker: field lists and labels are inputs. Alias resolution in `find_class` has no guard against cycles and is left out.
- FieldMatcher.MatchFields: works on the lists as they are given; that the source empties the marker lists while it walks is kept in the state of the walk, not in the object.
- ScopeReader.Reader.Read: collects every scope read; which of them a class or namespace keeps as a named child, the fields and usings gathered on the way, and the lookup of base classes while a scope is created are left out.
- ScopeReader.InitialiserAt: takes ASCII white space where the pattern takes all white space; no result depends on it.
- VariantReports.DiffSwaps: takes the equality of leaves as a parameter and assumes it symmetric; the comparison itself belongs to the fc library, which is not part of this model.
- VariantDiff.DiffHelper: a path is a sequence of keys and indices, not their text, and what goes to the callback is collected in a list.
- UndoStack.PermissionVisitor.PopUndo: requires a push before it, since the source reads the last element before it checks that there is one.
