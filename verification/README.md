# Proofs about the algorithmic core of the Nautilus kernel tree

A Dafny model of the parts of the tree that carry real algorithms, and proofs about it. The
modules follow the source:

* `McsLock` — the MCS queue lock of `include/nautilus/mcslock.h` as a step machine: one step per
  shared-memory access, any number of threads, any interleaving. Safety (mutual exclusion, service in
  the order of joining, no null link followed) holds in every state of every run; under a fair
  schedule every call returns and whoever calls lock enters, and no call of trylock ever waits.
* `KconfigExpr`, `KconfigEq`, `KconfigEquivalence`, `KconfigImplied`, `KconfigTransform`, `KconfigJoin`,
  `KconfigChain`, `KconfigDups`, `KconfigExtract`, `KconfigFixpoint`, `KconfigCompare`, `KconfigVisibility` — the
  simplifier of three-valued dependency expressions in `scripts/kconfig/expr.c`. An assignment (`Env`) gives every symbol its calculated value; `Valid`
  states what the symbol code guarantees of it. Each pass is proved to preserve the value, on all
  three values where that is true and otherwise under a stated condition.
* `KconfigMenu`, `KconfigMenuLinks`, `KconfigNesting`, `KconfigMenuWalk` — `menu_finalize` of
  `scripts/kconfig/menu.c` on the `next`, `list` and `parent` pointers, against a description on trees,
  its nesting test, and the walk of `conf_write` that goes over the result without a stack.
* `KallsymsPairs`, `KallsymsTokens`, `KallsymsRounds`, `KallsymsRuns`, `KallsymsCompressor`,
  `KallsymsOutput` — the symbol table compressor of `scripts/kallsyms.c`: the pair counts, the in-place
  replacement, the rounds, whole runs, the recursive expander and the emitted tables.
* `WordBits`, `Bitmap`, `BitmapRange`, `BitmapArea`, `BitmapRegion` — `lib/bitmap.c`: word-at-a-time searches
  against the bit-by-bit scan, ranges, the aligned area search and the region allocator over whole
  runs. A word is a number below 2^64 with its bits defined by division, and the operators `&`, `|`,
  `~`, `<<` and `>>` are defined on such numbers, wrap-around included.
* `Options` — a value that may be missing, shared by the modules that need it.
* `Fixdep` — the `CONFIG_` scanner of `scripts/basic/fixdep.c`, four bytes at a time.
* `Confdata` — writing and reading a string value in `scripts/kconfig/confdata.c`.

Calls that the model cannot see are parameters: the schedule and the choice of the next call in
`McsLock`, the values of symbols in `Env`, and in `KconfigMenu.Facts` whether a menu entry has a
symbol, has a prompt with a text, and nests below another entry (`KconfigNesting.FactsOf` puts in the
nesting test itself).

Properties that are false of the code, with the input and the condition:

* `expr_eliminate_dups` does not always preserve the value. It turns `(a || b) && (!a && !b)` into n and
  `(a && b) || (!a || !b)` into y, also where the value is m (`EliminateDupsLosesMod`). It never changes
  a value other than m (`EliminateDupsPreservesValue`); a single drop of an operand is right if and only
  if the chain does not have the value m (`DropIsExactUnlessMod`), and the same holds of the whole
  function on these two expressions (`ClashBecomesConstant`).
* `expr_trans_compare` is wrong on `!a` where a is m (`NegatedModReadsWrong`). It compares the value that
  the expression has when every bare symbol is read by its text: as the value compared with if the text
  says so, and as the opposite one otherwise (`TransCompareReads`). So m is read as n for a comparison
  with y and as y for one with n, and a symbol that is neither boolean nor tristate by its text. It is
  right if and only if that makes no difference (`TransCompareRightExactly`).
* A nested menu entry can be visible while the outer entry is not (`NestingLosesMod`). For an entry that
  does not depend on the outer symbol, and visibilities of boolean and tristate symbols, visible implies
  outer entry visible if and only if its visibility reads right or the outer entry is visible anyway
  (`NestingImpliesVisible`).
* Having every operand of the outer visibility among its own is not enough for an entry to be nested: an
  entry visible if `!s` does not nest below the entry of s that is itself visible if `!s`
  (`EqualSingleTestsDoNotNest`). An entry that mentions the symbol is nested if and only if the symbol is
  one of its operands, or the outer visibility comes down to y, or its own comes down to an "and" that has
  every operand of the outer one (`NestsExactly`, `NextEntryTakenExactly`).
* Expanding the finished token table does not always return: it does if and only if slot 0 does not hold
  the pair (0, 0) (`AllTokensTerminate`), which is if and only if a pair is left when it is the turn of
  slot 0 (`TableReturnsExactly`). It never returns on a table of at most 128 bytes of names
  (`TinyTableNeverReturns`).
* `expr_eq` is no equivalence relation. With y or n among the operands it need not be transitive
  (`EqIsNotTransitive`). Without them it is symmetric and transitive (`EqIsEquivalence`), and an
  expression equals itself if and only if none of its chains has two quoted constants
  (`EqIsReflexiveExactly`, `EqIsNotReflexive`).
* `bitmap_find_next_zero_area` need not return, and need not be right, when aligning a zero bit wraps
  around. With the mask of all ones it returns if and only if nr is above size or no bit below nr is set
  (`AllOnesExactly`, `AllOnesNeverReturns`); for all masks see `SearchReturnsExactly` and
  `SearchIsRightExactly`. It is always right where the mask can be added to the size
  (`SmallSearchIsRight`).

Where a comment in the source and the code disagree, the model follows the code: the comment at
`scripts/kconfig/expr.c:488` says that `a!=m && a!=n` becomes `a=m`; the code makes it `a=y`. The
comments at `lib/bitmap.c:499` and `lib/bitmap.c:540` promise error codes; the code returns -1 for every
failure.

## Model

| member | source | states |
|---|---|---|
| `McsLock.JoinStep` | include/nautilus/mcslock.h:49-56 | a successful exchange or compare-and-swap appends the thread to the ghost queue, enters at once exactly when the queue was empty, and keeps the queue invariant |
| `McsLock.LinkStep` | include/nautilus/mcslock.h:58 | the late link write pays exactly the link its thread owes, and keeps the invariant |
| `McsLock.SpinStep` | include/nautilus/mcslock.h:60 | a waiter leaves its spin only as the head of the queue, and only when nobody holds the lock |
| `McsLock.HolderStep` | include/nautilus/mcslock.h:68-78 | the reads, the failed compare-and-swap and the spin of the release path keep the invariant and the holder |
| `McsLock.LeaveStep` | include/nautilus/mcslock.h:72-84 | only the head of the queue can give the lock away, and the queue then loses exactly its head |
| `McsLock.OuterStep` | include/nautilus/mcslock.h:93-98 | the preparation of a node outside the queue, and a failed trylock, leave the queue alone |
| `McsLock.QueueStep` | include/nautilus/mcslock.h:41-99 | every step of every thread keeps the queue invariant: l->next is the last queued node and every link is written or still owed; who enters is first and nobody else holds |
| `McsLock.RunInv` | include/nautilus/mcslock.h:41-99 | the invariant, and the order of the log of joins, entries and exits, hold after every number of steps of every interleaving |
| `McsLock.MutualExclusion` | include/nautilus/mcslock.h:41-99 | at most one thread owns the lock in every reachable state |
| `McsLock.EntersInJoinOrder` | include/nautilus/mcslock.h:49-84 | in every run the threads enter, and leave, in the order of their successful exchange or compare-and-swap |
| `McsLock.NeverDereferencesNull` | include/nautilus/mcslock.h:70-84 | the write to me->next->locked never goes through a null link |
| `McsLock.TryLockTakesFreeLock` | include/nautilus/mcslock.h:88-99 | trylock takes the lock if and only if nobody owns it or waits for it |
| `McsLock.SomebodyCanMove` | include/nautilus/mcslock.h:60-78 | while the queue is not empty, some queued thread has a step that is not another round of a spin loop |
| `McsLock.QueuedAdvances` | include/nautilus/mcslock.h:41-85 | no step pushes a queued thread back, and the step of the thread it depends on brings it forward |
| `McsLock.WaitingEnds` | include/nautilus/mcslock.h:60-78 | a measure that never rises and drops when its helper moves runs out on every schedule that serves helpers again and again |
| `McsLock.EveryCallReturns` | include/nautilus/mcslock.h:41-99 | on every fair schedule every call returns and every critical section is left |
| `McsLock.LockLeadsIn` | include/nautilus/mcslock.h:41-62 | a call of lock is left only into the critical section, and until then the thread is inside the call at every instant |
| `McsLock.EveryLockerEnters` | include/nautilus/mcslock.h:41-85 | on every fair schedule whoever is inside lock enters the critical section, and is inside the call at every instant until then |
| `McsLock.LockCallEnters` | include/nautilus/mcslock.h:41-62 | on every fair schedule an idle thread that calls lock enters the critical section later, and is not idle at any instant in between |
| `McsLock.TryLockNeverWaits` | include/nautilus/mcslock.h:88-99 | on every run, fair or not, an idle thread that calls trylock never stands where lock waits: until it has returned its place depends only on the number of its own steps, and the third one returns |
| `McsLock.LinkedReleaseNeverWaits` | include/nautilus/mcslock.h:70-84 | on every run a release that finds its successor linked neither swaps l->next nor waits: it gives the lock away with the third step of its own from the test on |
| `KconfigExpr.EliminateYnPreservesValue` | scripts/kconfig/expr.c:235-316 | removing the constants y and n preserves the value on all three values |
| `KconfigExpr.EliminateYnReduces` | scripts/kconfig/expr.c:235-316 | afterwards no and/or node has a constant operand; the expression shrinks if there was one and is unchanged otherwise |
| `KconfigExpr.NoModTwoValued` | scripts/kconfig/expr.c:942-981 | an expression none of whose bare symbols is m is n or y |
| `KconfigEq.CancelOperandsSound` | scripts/kconfig/expr.c:135-166 | cancelling equal operands splits both sides by one common value |
| `KconfigEq.CancelSound` | scripts/kconfig/expr.c:168-188 | both sides are the remainder combined with a common part, first by one operator, then by the other |
| `KconfigEq.EqSound` | scripts/kconfig/expr.c:193-233 | expressions that compare equal have the same value under every assignment of n, m and y |
| `KconfigEq.CancelToYesIsImplication` | scripts/kconfig/expr.c:168-188 | if cancelling leaves the constant y on the right, the left value is at most the right value |
| `KconfigEq.ExtractOperandsSound` | scripts/kconfig/expr.c:852-879 | moving equal operands to the common factor keeps both inputs equal to op(factor, rest) |
| `KconfigEq.ExtractSound` | scripts/kconfig/expr.c:830-850 | both inputs are op(common factor, rest) on all three values |
| `KconfigEquivalence.EqIsReflexiveExactly` | scripts/kconfig/expr.c:193-233 | an expression without y and n as operands compares equal to itself if and only if none of its chains, at any depth, has two quoted constants |
| `KconfigEquivalence.EqIsEquivalence` | scripts/kconfig/expr.c:193-233 | on all expressions without y and n as operands comparison is symmetric and transitive |
| `KconfigEquivalence.EqualAreLean` | scripts/kconfig/expr.c:193-233 | among these, only expressions whose chains have at most one quoted constant compare equal to anything |
| `KconfigEquivalence.EqDecidesOperands` | scripts/kconfig/expr.c:193-233 | two chains of such operands compare equal if and only if they have equal operands equally often, the same quoted constant or none, and no operand with two of them in a chain |
| `KconfigEquivalence.CancelLeavesSurplus` | scripts/kconfig/expr.c:135-166 | cancelling leaves on each side each operand as often as that side had it more than the other, where operands count as the same when they compare equal, and every quoted constant |
| `KconfigEquivalence.EqIsNotReflexive` | scripts/kconfig/expr.c:147-149 | the input: a chain of two quoted constants does not compare equal to itself |
| `KconfigEquivalence.EqIsNotTransitive` | scripts/kconfig/expr.c:193-233 | the input with n as an operand: (n or n) and a equals n and a, which equals (n or n) and b, but the first does not equal the last |
| `KconfigTransform.TransformIsNormal` | scripts/kconfig/expr.c:640-775 | in the result negation stands only on symbols other than y, m, n, and no boolean symbol is compared with y, m or n |
| `KconfigTransform.TransformPreservesValue` | scripts/kconfig/expr.c:640-775 | the value is preserved on all three values of tristate symbols |
| `KconfigTransform.TransformIsIdempotent` | scripts/kconfig/expr.c:640-775 | transforming twice is transforming once |
| `KconfigTransform.TransformFixesNormal` | scripts/kconfig/expr.c:640-775 | an expression in normal form is left as it is |
| `KconfigTransform.DeMorganIsLighter` | scripts/kconfig/expr.c:720-737 | the weight by which the transformation terminates drops at a De Morgan step |
| `KconfigJoin.JoinOrExact` | scripts/kconfig/expr.c:350-412 | a joined "or" operand has the value of the two it replaces, on all three values |
| `KconfigJoin.JoinsExactly` | scripts/kconfig/expr.c:350-506 | two operands are joined if and only if they compare equal or, in either order, say something twice about one symbol: under "or" two of s=y, s=m, s=n of a tristate, or s and !s of a boolean; under "and" s with s=y, s!=n or s!=m, and for a tristate s=b with s!=c for constants, or two of s!=y, s!=m, s!=n; all others are refused |
| `KconfigJoin.JoinAndExact` | scripts/kconfig/expr.c:414-506 | a joined "and" operand has the value of the two it replaces, on all three values |
| `KconfigJoin.JoinShape` | scripts/kconfig/expr.c:350-506 | a join is smaller than the two operands together and no new chain |
| `KconfigDups.JoinSlotsPreservesValue` | scripts/kconfig/expr.c:533-555 | replacing two operands of a chain by the neutral constant and their join preserves the value on all three values |
| `KconfigDups.Dups1PreservesValue` | scripts/kconfig/expr.c:508-558 | the pairwise-join pass preserves the value on all three values, with both slots pointing into the same chain |
| `KconfigDups.Dups1TriesAllPairs` | scripts/kconfig/expr.c:508-558 | when the pass reports no change, no two operands below the two slots can be joined |
| `KconfigDups.DropIsExactUnlessMod` | scripts/kconfig/expr.c:578-610 | dropping a contradicted operand preserves the value if and only if the chain does not have the value m |
| `KconfigDups.DropLosesMod` | scripts/kconfig/expr.c:578-606 | the inputs, one for each operator, on which a drop turns m into n or y |
| `KconfigDups.Dups2PreservesValue` | scripts/kconfig/expr.c:560-614 | under every assignment of n, m and y the contradiction pass changes no value but m |
| `KconfigDups.Dups2TriesAllPairs` | scripts/kconfig/expr.c:560-614 | when the pass reports no change, no operand below the first slot can be dropped against a slot below the second |
| `KconfigDups.EliminateDupsLoop` | scripts/kconfig/expr.c:616-638 | the loop terminates, because a round that reports a change shrinks the expression once its constants are removed, and stops at the fixpoint |
| `KconfigDups.EliminateDupsPreservesValue` | scripts/kconfig/expr.c:616-638 | under every assignment of n, m and y the value is preserved, unless it is m |
| `KconfigDups.EliminateDupsOnTwoValues` | scripts/kconfig/expr.c:616-638 | in particular it is preserved when no bare symbol is m, and then none is m in the result |
| `KconfigDups.QuietRoundIsClean` | scripts/kconfig/expr.c:508-638 | a round without a change leaves no two operands of a chain, at any depth, that compare equal or say something twice about a symbol, and no operand contradicted by another slot |
| `KconfigDups.EliminateDupsIsClean` | scripts/kconfig/expr.c:616-638 | in the result no chain, at any depth, has two operands at different slots that compare equal or say something twice about a symbol, as listed for the joins, and none has a contradicted operand |
| `KconfigExtract.ExtractIsIntersection` | scripts/kconfig/expr.c:852-879 | of two chains whose operands are free of y and n the common factor has every operand as often as both chains have it, and each rest has it as often as its chain has it more |
| `KconfigExtract.ContradictsExactly` | scripts/kconfig/expr.c:578-606 | an operand in normal form and free of y and n is dropped against a slot if and only if every operand of its negation occurs in the slot at least as often, and none of them has a chain of two quoted constants |
| `KconfigImplied.CancelRemovesCommon` | scripts/kconfig/expr.c:168-188 | expr_eliminate_eq leaves on each side each operand as often as that side had it more than the other; which operator counts: that of the left chain, or of the right chain if the left side is no chain of it and does not have the right side as an operand |
| `KconfigImplied.CancelsToYesExactly` | scripts/kconfig/expr.c:168-188 | y is left on the right if and only if it was there, or the left side is an "and" in which every operand of the right side has an equal one, for sides free of y and n among the operands, and of bare quoted constants, with no operand repeated on the right |
| `KconfigFixpoint.CleanIsQuiet` | scripts/kconfig/expr.c:508-638 | where at no depth two operands compare equal or say something twice, and none is contradicted, a round reports no change |
| `KconfigFixpoint.FixpointsAreClean` | scripts/kconfig/expr.c:616-638 | an expression is left unchanged if and only if nowhere in it two operands of a chain compare equal or say something twice about a symbol, and no operand is contradicted |
| `KconfigFixpoint.EliminateDupsIsIdempotent` | scripts/kconfig/expr.c:616-638 | eliminating duplicates twice is eliminating them once |
| `KconfigFixpoint.ClashBecomesConstant` | scripts/kconfig/expr.c:616-638 | (a or b) and (not a and not b) becomes n, (a and b) or (not a or not b) becomes y; the value is preserved if and only if it is not m |
| `KconfigFixpoint.EliminateDupsLosesMod` | scripts/kconfig/expr.c:616-638 | for both operators an assignment under which the value is m and the result is n or y |
| `KconfigCompare.TransCompareReads` | scripts/kconfig/expr.c:881-940 | for every expression and assignment: the translated comparison is y exactly when it holds of the value under the assignment as read, with m read as n against y and as y against n, and n otherwise |
| `KconfigCompare.TransCompareRightExactly` | scripts/kconfig/expr.c:881-940 | the translation is right if and only if reading m so does not change how the expression compares |
| `KconfigCompare.ReadKeepsValue` | scripts/kconfig/expr.c:881-940 | values other than m are read as they are, so the translation is wrong exactly where the value is m and read as the value compared with |
| `KconfigCompare.TransCompareExact` | scripts/kconfig/expr.c:881-940 | when no negated operand is m, the translated comparison with y or n is y exactly when it holds of the value, and n otherwise |
| `KconfigCompare.TransCompareNegation` | scripts/kconfig/expr.c:912-913 | a negation is translated rightly if and only if its operand is and is not m, or its operand is not and is m |
| `KconfigCompare.NegatedModReadsWrong` | scripts/kconfig/expr.c:912-913 | the input: the negation of a symbol that is m is translated wrongly, its double negation rightly |
| `KconfigCompare.TransCompareNoMod` | scripts/kconfig/expr.c:881-940 | the translation has no bare symbol left that could be m, under any assignment |
| `KconfigCompare.TransBoolLowers` | scripts/kconfig/expr.c:321-345 | on normal forms the value is never raised, and is n exactly when it was n |
| `KconfigCompare.TransBoolIsComplete` | scripts/kconfig/expr.c:321-345 | no tristate symbol is still compared unequal to n; nothing changes if and only if none was |
| `KconfigCompare.ContainsIsNecessary` | scripts/kconfig/expr.c:777-799 | an expression that does not contain a symbol has the same value whatever that symbol is |
| `KconfigCompare.ContainsExactly` | scripts/kconfig/expr.c:777-799 | the symbol is found if and only if some part of the expression is the symbol or compares it, on either side |
| `KconfigCompare.DependsIsImplication` | scripts/kconfig/expr.c:801-828 | an expression that depends on a symbol, of any type, is n unless the symbol is set: for a boolean or tristate symbol, unless it is m or y |
| `KconfigCompare.StringSymbolIsSet` | scripts/kconfig/expr.c:812-816 | the input that tells the two apart: for a string symbol s with the text y, s = y is y although its tristate value is n |
| `KconfigCompare.DependsExactly` | scripts/kconfig/expr.c:801-828 | it depends on s if and only if s, s = y, s = m or s != n is one of its "and" operands |
| `KconfigCompare.VisibilityReads` | scripts/kconfig/menu.c:259-270 | for every expression and assignment: the prepared form is y exactly when the visibility is read as visible, and n otherwise |
| `KconfigCompare.VisibilityExact` | scripts/kconfig/menu.c:259-270 | the prepared form of a visibility tells whether it is visible if and only if the visibility reads right |
| `KconfigCompare.NestingIsImplication` | scripts/kconfig/menu.c:264-278 | under every assignment and for outer symbols of every type: a nested entry that depends on the outer symbol is visible only when the symbol is set; another one is read as visible only when the outer entry is |
| `KconfigCompare.NestingImpliesVisible` | scripts/kconfig/menu.c:269-278 | for an entry that does not depend on the outer symbol: visible implies outer entry visible if both visibilities read right; for visibilities of boolean and tristate symbols, if and only if the inner one reads right or the outer entry is visible anyway |
| `KconfigVisibility.EliminateDupsKeepsNormal` | scripts/kconfig/expr.c:616-638 | eliminating duplicates keeps the normal form, keeps it free of bare quoted constants, and keeps it free of y and n among the operands |
| `KconfigVisibility.VisibilityForm` | scripts/kconfig/menu.c:259-270 | the prepared form of every visibility is in normal form, has nothing left to eliminate at any depth and no bare quoted constant; unless a boolean symbol is compared with m, y and n are not among its operands |
| `KconfigVisibility.NestsExactly` | scripts/kconfig/menu.c:264-278 | for visibilities in which no boolean symbol is compared with m: an entry passes the test if and only if it mentions the symbol, and s, s=y, s=m or s!=n is one of its "and" operands, or the prepared outer form is y, or the prepared inner form is an "and" with an equal for every operand of the outer one |
| `KconfigVisibility.RequiringSymbolNests` | scripts/kconfig/menu.c:264-267 | whatever the outer visibility, an entry with s, s=y, s=m or s!=n among its "and" operands passes the test |
| `KconfigNesting.NestingLosesMod` | scripts/kconfig/menu.c:264-278 | the input: an entry under !s && !a nests below the entry of s under a = n; where a is m it is visible and the outer entry is not |
| `KconfigNesting.TakenEntriesImply` | scripts/kconfig/menu.c:258-288 | with the nesting test put in: every entry taken up below a symbol is in its list in the finished tree and implies it under every assignment, and the entry left behind does not nest |
| `KconfigNesting.DependentEntryIsTaken` | scripts/kconfig/menu.c:258-288 | whatever the visibility of the entry of s: the entry right behind it that has s, s=y, s=m or s!=n among the operands of its prompt's visibility, or of its dependencies without a prompt, is the first of its list in the finished tree |
| `KconfigNesting.NextEntryTakenExactly` | scripts/kconfig/menu.c:258-288 | through the whole of menu_finalize: the entry right behind a listless entry of s becomes the first of its list if and only if the condition of NestsExactly holds of its prompt's visibility, or its dependencies without a prompt, and of the outer prompt's visibility |
| `KconfigNesting.UnconditionalIsNotTaken` | scripts/kconfig/menu.c:263-265 | an entry without any visibility condition is not taken up, and nothing changes |
| `KconfigNesting.ListsHaveText` | scripts/kconfig/menu.c:314-323 | in the finished tree only an entry whose prompt has a text has a list |
| `KconfigNesting.EqualSingleTestsDoNotNest` | scripts/kconfig/menu.c:269-278 | the input: an entry visible if !s has every operand of the outer visibility !s, but is not nested below s |
| `KconfigMenu.FinalizeKeepsOrder` | scripts/kconfig/menu.c:205-324 | re-parenting and flattening keep the preorder of the entries |
| `KconfigMenu.AbsorbIsMaximal` | scripts/kconfig/menu.c:262-283 | an entry takes up the longest run of following entries that nest below it |
| `KconfigMenu.FinalizeLeavesSuffix` | scripts/kconfig/menu.c:256-288 | what is not taken up is the end of the list as it was; something is taken up if and only if the entry is a symbol without a list and the next entry nests below it |
| `KconfigMenu.NextEntryIsTaken` | scripts/kconfig/menu.c:258-288 | the entry behind a listless symbol is the first of its finished list if it nests, and otherwise the symbol stays without a list and the rest stays as it was |
| `KconfigMenu.NeighboursDoNotNest` | scripts/kconfig/menu.c:256-288 | in a finished list an entry does not nest below a symbol right before it that came without a list |
| `KconfigMenu.FlattenKeepsOrder` | scripts/kconfig/menu.c:290-324 | moving lists up keeps the preorder |
| `KconfigMenu.FlattenKeepsOthers` | scripts/kconfig/menu.c:314-323 | entries with a prompt, or with nothing below them, keep their list |
| `KconfigMenu.FlattenKeepsEntries` | scripts/kconfig/menu.c:314-323 | no entry of a list leaves it |
| `KconfigMenu.FlattenHidesNothing` | scripts/kconfig/menu.c:314-323 | nothing is left below an entry without a prompt |
| `KconfigMenu.FinalizeHidesNothing` | scripts/kconfig/menu.c:205-324 | in the finished tree no list is left below an entry without a prompt, at any depth |
| `KconfigMenuLinks.Menus.Adopt` | scripts/kconfig/menu.c:315-319 | the entries of a list get the new parent pointer, the last one is returned, and no other entry changes |
| `KconfigMenuLinks.Menus.FlattenEntry` | scripts/kconfig/menu.c:314-323 | the pointer updates turn the list into the one with the sublist moved up, in the same order |
| `KconfigMenuLinks.Menus.FlattenChildren` | scripts/kconfig/menu.c:290-324 | the list of parent becomes the flattened list, every parent pointer names the owner of the list, and nothing else changes |
| `KconfigMenuLinks.Menus.FinalizeChildren` | scripts/kconfig/menu.c:256-257 | the loop over the changing list computes the finished list |
| `KconfigMenuLinks.Menus.AbsorbEntries` | scripts/kconfig/menu.c:262-283 | the loop finalizes and re-parents exactly the entries that nest, and knows the last one |
| `KconfigMenuLinks.Menus.AbsorbFollowing` | scripts/kconfig/menu.c:262-288 | the entries taken up become the list of parent and leave the outer list |
| `KconfigMenuLinks.Menus.CollectChildren` | scripts/kconfig/menu.c:212-289 | the two ways in which an entry gets its list, with the order kept |
| `KconfigMenuLinks.Menus.MenuFinalize` | scripts/kconfig/menu.c:205-324 | the linked structure becomes the one described on trees: next, list and parent of every entry; entries outside are not touched; it terminates |
| `KconfigMenuWalk.Climb` | scripts/kconfig/confdata.c:502-507 | the way up stops at the next entry behind one of the entries above, or at the root |
| `KconfigMenuWalk.Advance` | scripts/kconfig/confdata.c:495-507 | one move of the walk goes from an entry to its successor in preorder |
| `KconfigMenuWalk.Walk` | scripts/kconfig/confdata.c:405-508 | the walk terminates and visits every entry below the root exactly once, in preorder |
| `KconfigMenuWalk.FinalizeAndWalk` | scripts/kconfig/confdata.c:405-508 | after menu_finalize the walk visits the entries in the order in which they were read |
| `KallsymsPairs.ReplaceRemovesPair` | scripts/kallsyms.c:365-404 | after the replacement the pair occurs nowhere |
| `KallsymsPairs.ReplaceRaisesNoCount` | scripts/kallsyms.c:365-404 | no pair without the new code becomes more frequent |
| `KallsymsPairs.ReplaceShortens` | scripts/kallsyms.c:365-404 | a name gets shorter if the pair occurs in it and stays the same otherwise |
| `KallsymsPairs.TotalCountEffect` | scripts/kallsyms.c:365-448 | a round drives the count of its pair to 0 and shortens the table if the count was positive |
| `KallsymsPairs.TotalCountRaised` | scripts/kallsyms.c:365-448 | over the table, no count of a pair without the new code rises |
| `KallsymsTokens.ExpandsOnce` | scripts/kallsyms.c:225-248 | the expansion does not depend on the depth allowed |
| `KallsymsTokens.ExpandSpells` | scripts/kallsyms.c:225-248 | on well-founded tokens the expander terminates within their rank and gives their meaning |
| `KallsymsTokens.GoodIsStable` | scripts/kallsyms.c:424-448 | filling an empty slot changes no well-founded token |
| `KallsymsTokens.ReplaceKeepsSpelling` | scripts/kallsyms.c:365-404 | replacing a pair by its token keeps the spelling |
| `KallsymsRounds.InitialInv` | scripts/kallsyms.c:451-465 | the table of single characters satisfies the invariant of the rounds |
| `KallsymsRounds.EmptySlotUnused` | scripts/kallsyms.c:430-446 | a code whose slot is empty occurs in no name |
| `KallsymsRounds.TurnPlaces` | scripts/kallsyms.c:434-446 | a round that finds a pair makes a well-founded token, which spells a part of an original name, and loses nothing |
| `KallsymsRounds.TurnInv` | scripts/kallsyms.c:424-448 | every round keeps the invariant: names spell their originals, slots are characters, pairs or empty as the loop stands, no pair is placed twice, tokens are parts of names |
| `KallsymsRounds.NamesExpand` | scripts/kallsyms.c:225-248 | after every round each compressed name expands to its original, and to nothing else |
| `KallsymsRounds.AllTokensTerminate` | scripts/kallsyms.c:311-316 | all 256 tokens expand if and only if slot 0 does not hold the pair (0, 0) |
| `KallsymsRuns.RunInv` | scripts/kallsyms.c:424-448 | every run of rounds keeps the invariant |
| `KallsymsRuns.ResultIsUnique` | scripts/kallsyms.c:407-448 | the names determine the finished table and the compressed names |
| `KallsymsRuns.SlotZeroExactly` | scripts/kallsyms.c:430-446 | slot 0 gets the pair (0, 0) if and only if no pair is left when it is its turn |
| `KallsymsRuns.PairsRunOut` | scripts/kallsyms.c:430-446 | once no pair is left, every run ends with the pair (0, 0) in slot 0 |
| `KallsymsRuns.TableReturnsExactly` | scripts/kallsyms.c:311-316 | expanding the finished table returns if and only if a pair is left when it is the turn of slot 0 |
| `KallsymsRuns.SlotsCostBytes` | scripts/kallsyms.c:424-448 | as long as pairs are left, every slot filled has taken at least one byte out of the names |
| `KallsymsRuns.ShortTableNeverReturns` | scripts/kallsyms.c:225-248 | if the names have no more bytes than there are slots to fill, expanding slot 0 never returns |
| `KallsymsRuns.TinyTableNeverReturns` | scripts/kallsyms.c:225-248 | so it is for every table of at most 128 bytes of names |
| `KallsymsRuns.SingleSymbolNeverReturns` | scripts/kallsyms.c:225-248 | an input: the single name "Ta" |
| `KallsymsRounds.TokensAreParts` | scripts/kallsyms.c:424-448 | a well-founded token expands to a contiguous part of an original name, without a NUL and no longer than the longest name |
| `KallsymsCompressor.CompressName` | scripts/kallsyms.c:382-399 | the in-place loop with its unshrunk search window replaces the pair from left to right and leaves NULs behind the name |
| `KallsymsCompressor.ShiftDown` | scripts/kallsyms.c:388 | the move by one position, and what it leaves alone |
| `KallsymsCompressor.Learn` | scripts/kallsyms.c:329-335 | every pair count grows by the occurrences in the symbol |
| `KallsymsCompressor.Forget` | scripts/kallsyms.c:338-344 | every pair count drops by the occurrences in the symbol |
| `KallsymsCompressor.FindBestToken` | scripts/kallsyms.c:407-421 | the first of the most frequent pairs, and so (0, 0) when no pair occurs |
| `KallsymsCompressor.Compressor.constructor` | scripts/kallsyms.c:347-361 | the initial counts are the occurrences over all symbols |
| `KallsymsCompressor.Compressor.CompressSymbols` | scripts/kallsyms.c:365-404 | every symbol has the pair replaced, and the incrementally kept counts are exact again |
| `KallsymsCompressor.Compressor.CompressSymbol` | scripts/kallsyms.c:372-402 | the same for one symbol, in place |
| `KallsymsCompressor.Compressor.InsertRealSymbols` | scripts/kallsyms.c:451-465 | exactly the bytes in use get a token of their own |
| `KallsymsCompressor.Compressor.FillSlot` | scripts/kallsyms.c:434-446 | one round places the best pair in an empty slot, replaces it and keeps the invariant; a used slot is passed over |
| `KallsymsCompressor.Compressor.OptimizeResult` | scripts/kallsyms.c:424-448 | the slots are visited from 255 down to 0, one round each, and the invariant holds in the end |
| `KallsymsCompressor.CompressTable` | scripts/kallsyms.c:467-480 | from any table of NUL-free names the whole run ends with the invariant, in the one outcome the names determine; an empty table is refused |
| `KallsymsCompressor.ExpandSymbol` | scripts/kallsyms.c:225-248 | the loop with its recursion computes the expansion |
| `KallsymsOutput.WriteNames` | scripts/kallsyms.c:287-299 | the record stream, and the offset of every 256th record |
| `KallsymsOutput.WriteTokens` | scripts/kallsyms.c:309-321 | the NUL-terminated token texts, and the 16-bit offset of each |
| `KallsymsOutput.MarkerFindsRecord` | scripts/kallsyms.c:278-305 | starting at marker i/256 and skipping i%256 records leads to compressed name i |
| `KallsymsOutput.IndexFindsWord` | scripts/kallsyms.c:309-322 | the index leads to each token's text |
| `KallsymsOutput.CompressedNamesFit` | scripts/kallsyms.c:293 | names of at most 255 bytes have compressed lengths that fit a byte |
| `KallsymsOutput.TokensFit` | scripts/kallsyms.c:319-321 | names of at most 255 bytes have token texts whose offsets fit 16 bits |
| `KallsymsOutput.BufferSuffices` | scripts/kallsyms.c:255 | names of at most 127 bytes keep every token text, with its NUL, within the buffer of write_src |
| `KallsymsOutput.LookupRoundTrip` | scripts/kallsyms.c:278-322 | looking up symbol i in the emitted tables gives the original name i |
| `KallsymsOutput.WriteSource` | scripts/kallsyms.c:250-323 | on a finished compression without the pair (0, 0) in slot 0, with lengths that fit a byte and offsets that fit 16 bits, every name can be looked up in what is emitted; with names of at most 127 bytes every token text fits the buffer of 128 |
| `Bitmap.ScanFinds` | lib/bitmap.c:17-99 | the bit-by-bit scan finds the first position with the wanted bit, or size |
| `Bitmap.FindFromWord` | lib/bitmap.c:38-53 | the loop over whole words and the masked last word agree with the scan |
| `Bitmap.FindNextBit` | lib/bitmap.c:17-54 | the result is that of the bit-by-bit scan; bits from size on play no role |
| `Bitmap.FindNextZeroBit` | lib/bitmap.c:62-99 | the same for zero bits |
| `BitmapRange.FirstWordMask` | include/lib/bitmap.h:56 | the mask has exactly the bits from start mod 64 on |
| `BitmapRange.LastWordMask` | include/lib/bitmap.h:57-61 | the mask has exactly the bits below nbits mod 64, or all |
| `BitmapRange.BitmapSet` | lib/bitmap.c:331-349 | exactly the nr bits from start on become 1, all others stay |
| `BitmapRange.BitmapClear` | lib/bitmap.c:352-370 | exactly the nr bits from start on become 0, all others stay |
| `BitmapArea.AlignMask` | include/lib/bitops.h:28-29 | for every mask 2^k - 1, all ones included, the result is the least multiple of 2^k not below x, and 0 if the sum wraps around |
| `BitmapArea.DoRound` | lib/bitmap.c:392-406 | one pass from the label to the jump back computes the round |
| `BitmapArea.FindNextZeroArea` | lib/bitmap.c:385-407 | the loop computes the outcome of the rounds whenever there is one; where the mask can be added to the size, that is the answer |
| `BitmapArea.RoundIsRight` | lib/bitmap.c:392-406 | a round whose alignment does not wrap around returns the answer or moves on past areas that are none |
| `BitmapArea.PhaseIsRight` | lib/bitmap.c:385-407 | up to the first alignment that wraps around the search finds the least aligned index from start on whose nr bits are zero and within size, or a number above size, or one to which nr cannot be added, if there is none; when an alignment wraps around there is none |
| `BitmapArea.SmallSearchIsRight` | lib/bitmap.c:385-407 | where the mask can be added to the size, the search returns, and returns the answer |
| `BitmapArea.SearchReturnsExactly` | lib/bitmap.c:385-407 | for all sizes and masks, the search returns if and only if it finds an answer before an alignment wraps around, or the round that wraps around returns, or an answer is found from where that round leads back to |
| `BitmapArea.SearchIsRightExactly` | lib/bitmap.c:385-407 | what it returns is right if and only if it was found before an alignment wrapped around, or is above size, or nr cannot be added to it |
| `BitmapArea.AllOnesExactly` | lib/bitmap.c:392-406 | with the mask of all ones it returns if and only if nr is above size or no bit below nr is set, and then nr or 0 |
| `BitmapArea.AllOnesNeverReturns` | lib/bitmap.c:392-406 | the input: bit 0 set, one bit wanted, the mask of all ones |
| `BitmapRegion.RegionMask` | lib/bitmap.c:454-462 | the mask has exactly the bits of the region in its word |
| `BitmapRegion.RegionOp` | lib/bitmap.c:435-485 | a test answers 1 if and only if the region is free and changes nothing; set and clear change exactly the region |
| `BitmapRegion.FindFreeRegion` | lib/bitmap.c:501-512 | the lowest free aligned region is taken; -1 with the map unchanged if and only if there is none |
| `BitmapRegion.AllocateRegion` | lib/bitmap.c:543-549 | 0 and the region set if it was free, otherwise -1 and no change |
| `BitmapRegion.ReleaseRegion` | lib/bitmap.c:526-529 | exactly the region is cleared |
| `BitmapRegion.ReleaseUndoesAllocate` | lib/bitmap.c:526-549 | allocating a free region and releasing it restores every word |
| `BitmapRegion.FreeMeetsNoRegion` | lib/bitmap.c:435-485 | a region is free if and only if it is apart from every live one |
| `BitmapRegion.AccountsAfterAlloc` | lib/bitmap.c:501-549 | setting a free region keeps live regions disjoint, aligned, in range and equal to the set bits |
| `BitmapRegion.AccountsAfterRelease` | lib/bitmap.c:526-529 | so does clearing a live one |
| `BitmapRegion.RegionMap.FindFree` | lib/bitmap.c:501-512 | over whole runs: the region returned is apart from all live ones and the lowest such; -1 only if every region meets a live one |
| `BitmapRegion.RegionMap.Allocate` | lib/bitmap.c:543-549 | over whole runs: success if and only if the region meets no live one |
| `BitmapRegion.RegionMap.Release` | lib/bitmap.c:526-529 | over whole runs: the live regions lose exactly this one |
| `Fixdep.UsesStep` | scripts/basic/fixdep.c:230-235 | of four consecutive positions at most one starts a use, and the word at the last one tells which |
| `Fixdep.UseAt` | scripts/basic/fixdep.c:236-248 | a name is reported at a position if and only if the file is split there into CONFIG_, the name of letters, digits and underscores, and one more character that is none of these |
| `Fixdep.ParseConfigFile` | scripts/basic/fixdep.c:223-250 | the scan of every fourth position reports, in order and once for each position from offset 1 on, exactly the names for which the file splits into text, CONFIG_, the name of letters, digits and underscores, a character that is none of these, and text |
| `Fixdep.SplitIsUse` | scripts/basic/fixdep.c:236-248 | whatever stands before and behind, such a split is a use of exactly this name at this position |
| `Fixdep.UsesAreReported` | scripts/basic/fixdep.c:223-250 | the uses up to any position are the mentions up to there, each once and in order |
| `Fixdep.BufferIsSet` | scripts/basic/fixdep.c:165-191 | a name stands between newlines in the buffer if and only if it was recorded |
| `Fixdep.DistinctIsSet` | scripts/basic/fixdep.c:202-221 | the names emitted are those used, each once |
| `Fixdep.Recorder.constructor` | scripts/basic/fixdep.c:193-197 | the buffer starts as one newline and no name |
| `Fixdep.Recorder.IsDefined` | scripts/basic/fixdep.c:165-176 | the scan of the buffer answers whether the name was used before |
| `Fixdep.Recorder.UseConfig` | scripts/basic/fixdep.c:202-221 | a name is recorded and emitted if and only if it is new |
| `Fixdep.ParseFiles` | scripts/basic/fixdep.c:202-250 | over any number of files a name is emitted if and only if some file mentions it from offset 1 on, exactly once, at its first use |
| `Confdata.UnescapeEscape` | scripts/kconfig/confdata.c:205-218 | unescaping what was written gives the string back and stops at the writer's own closing quote, whatever follows |
| `Confdata.WriteEscaped` | scripts/kconfig/confdata.c:453-477 | the loop over plain and special runs writes the escaped text |
| `Confdata.UnescapeInPlace` | scripts/kconfig/confdata.c:208-218 | the in-place loop leaves the unescaped text in the buffer, and fails if and only if no closing quote is found |
| `Confdata.ReadLine` | scripts/kconfig/confdata.c:165-228 | a line for a string symbol gives a name and a value if and only if it is the prefix, the name without an equals sign, =, a quote, a text on the same line that stands for the value, and a quote; every other line gives nothing |
| `Confdata.ParseLineExactly` | scripts/kconfig/confdata.c:165-218 | the same for lines of any length: a text stands for a value if it has, for each character, the character itself unless that is a quote or a backslash, or a backslash and the character |
| `Confdata.UnquotedIsRefused` | scripts/kconfig/confdata.c:206-207 | a line whose first equals sign is not followed by a quote gives nothing |
| `Confdata.UnescapeQuoted` | scripts/kconfig/confdata.c:208-218 | every text that stands for a value is read as that value, up to the quote behind it |
| `Confdata.UnescapeReadsQuoted` | scripts/kconfig/confdata.c:208-218 | whatever is read is a text that stands for the value read, with a quote behind it |
| `Confdata.EscapeIsShortest` | scripts/kconfig/confdata.c:453-477 | the written text stands for the value, and every other text that does is longer |
| `Confdata.LineRoundTrip` | scripts/kconfig/confdata.c:453-477 | every value without a newline is read back from the line written for it, and the line ends where it should |

## Left out

- Scheduler, threads, groups, barriers, condition variables, the buddy allocator and the data structures of the include directory: their bodies are not part of this model.
- Weak memory and compiler reordering in the MCS lock: every access is one atomic step in a single order.
- E_CHOICE, E_RANGE and E_NONE nodes, and comparing with m in expr_trans_compare: the passes do not handle the nodes, and nothing in the tree compares with m.
- Calculating symbol values (sym_calc_value): an assignment gives them, with the guarantees stated in `KconfigExpr.Valid`.
- Allocation, sharing and freeing of expression nodes: expressions are values; the two slots of the duplicate passes are paths into one chain.
- In menu_finalize the propagation of dependencies to properties, the handling of choices, the flags and the warnings: the model keeps the re-linking and the nesting test.
- In conf_write the output for symbols other than strings, and in conf_read_simple the other line kinds, the symbol lookup and the check of the value.
- Reading nm output, the filter for valid symbols, and the quoting of token texts for the assembler in kallsyms.c.
- The width of int in the positions and orders of bitmap.c and in the pair counts of kallsyms.c: they are unbounded here; unsigned long is modelled with its width.
- BitmapArea.FindNextZeroArea: for masks 2^k - 1, as the source asks for; other masks are not modelled.
- KconfigEquivalence.EqDecidesOperands: for operands without y and n inside, which is what removing the constants leaves; with them comparison is not even transitive (EqIsNotTransitive), and the source promises only that equal answers are right (EqSound).
- KconfigExtract.ExtractIsIntersection: for operands without y and n inside, as EqDecidesOperands; on all operands the factoring keeps the values (ExtractSound).
- KconfigExtract.ContradictsExactly: for operands in normal form without y and n inside, as EqDecidesOperands; the drop on all operands is DropIsExactUnlessMod.
- KconfigImplied.CancelRemovesCommon: for sides without y and n inside, as EqDecidesOperands; on all sides CancelSound.
- KconfigImplied.CancelsToYesExactly: for sides without y and n inside and without bare quoted constants, which is the form visibilities are compared in; on all sides CancelToYesIsImplication.
- KconfigVisibility.NestsExactly: not for a boolean symbol compared with m, which is constant and can leave y or n as an operand of the prepared form; for those the implications hold (NestingIsImplication, NestingImpliesVisible) and RequiringSymbolNests.
- KconfigNesting.NextEntryTakenExactly: not for a boolean symbol compared with m, as NestsExactly.
- The byte-swapped bitmap searches and the separately compiled first-bit searches, which the configuration of the tree disables.
- Lower-casing and printing of names in use_config, mapping files and the dependency parser in fixdep.c.
- The drawing, menus and dialogs of the configuration programs, the generated scanner, and the hardware headers.
