# Verified models of the teaching emulator stack

The repository holds an emulator (nemu), a bare-metal runtime (abstract-machine), a simulated
processor (npc) and the configuration tool they are built with. This project models the parts of it
that compute something intricate and proves what they are meant to guarantee, for all inputs, all
runs or all reachable states.

- **Dependency expressions of kconfig** (`Kconfig{Expr,Eq,Operands,Dups,Transform,Compare,Value}`): a
  small optimising compiler over the values n < m < y. Each pass keeps the value of an expression
  under every well-typed valuation, or exactly under a stated condition where the code needs one; the
  equality test is exact up to order and grouping, and the submenu test is sound wherever lowering the
  two dependencies to comparisons is exact; for boolean and tristate symbols that fails only where a
  negated operand is m.
- **Graphs, menus and strings of kconfig** (`Kconfig{Deps,Menu,MenuPlaces,MenuLinks,String}`): the
  search for recursive dependencies is exact, restructuring the menu puts every node below the entry it
  belongs to and keeps the order in which the stackless walk visits it, and string values survive being
  written and read.
- **64-bit arithmetic on 32-bit halves** (`Bits`, `Int64{Count,Div,Signed}`): division, remainder
  and multiplication are the mathematical ones, including all special cases.
- **Two-level x86 page tables** (`Vme{Model,Invariant,Map,Space,Run,Init,Class}`), with the entry
  format of section 4.3 of the Intel SDM, volume 3A: the tables refine abstract maps over every run,
  and pages are conserved.
- **Debugger expressions** (`Sdb{Tokens,Eval,Tree,Syntax}`): the staged stack machine refines a recursive
  evaluator and computes, modulo 2^32, the value on the integers of what is written.
- **GDB packets** (`GdbPacket`, `GdbCodec`, `GdbHex`): receiving undoes every encoding described in the
  Overview section of the GDB Remote Serial Protocol appendix.
- **Instruction patterns** (`InstPattern`, `RvTable`, `RvImmediate`): the shift-and-mask test is pattern
  matching, the RV32 rows are disjoint, and the immediate decoders invert the encodings of section
  2.3 of the RISC-V Unprivileged ISA.

Code that changes things in place is modelled by classes, arrays and loops (`Checker`, `Menus`, `Vme`,
the packet buffer, the line buffer, the evaluator's stack); code that builds values by functions. In-place
rewriting of expression trees is modelled on values; where two arguments alias one tree, as in the
duplicate removal that is called with the same root twice, both are paths into that one tree.

Machine words are natural numbers below a power of two, and bit operations are defined digit by digit in
`Bits`; wrap-around is written out.

## Where the code departs from what it promises

- The comment on `expr_eq` describes equality of operand sets. The code strikes out each operand
  once, so it compares multisets: see `ExprEqExact` and `RepeatedOperand`.
- Joining a="1" with a!="0x1" takes different constants to differ, but their texts parse to the same
  number, which is also the number of m: see `JoinAndExact`, `QuotedTestExact` and `AliasedConstants`.
- Lowering a negation to a comparison is right exactly when no decisive negated operand is m: see
  `TransCompareCorrect` and `NegatedModule`.
- So the submenu test can put an entry below a symbol that is not set and whose own prompt is not
  visible: an entry on `!b && (s || q)` behind a symbol s with a prompt on `b = n` is one, for tristate b
  and boolean s and q, exactly when b is m, s is not set and q is. See `EntryMisplaced`, and
  `SupersetExact` for the general condition.
- The debugger's operators of equal priority associate to the right, and its logical negation has no
  priority, so it is never applied: see `SubtractionAssociatesRight`, `NegationNotFound` and the lemmas
  after it.
- Mapping a page that is itself a page table is not refused, so destroying a space can free a mapped
  frame, and creating a space twice loses the pages of the first: see `MappedFrameFreed` and
  `RunRefines`.
- The superset test does not find two equal dependencies joined by `||` or without any operator, but only
  an && of enough operands: see `SupersetFound`.
- Commands are sent without escaping, so some arrive changed: exactly those listed in `RawExact`.
- The RV32 table writes the name xori for the row that computes the or-immediate; the model calls that row
  Ori.

## Model

| member | source | states |
|---|---|---|
| `KconfigExpr.EliminateYnEval` | nemu/tools/kconfig/expr.c:316-397 | Constant folding keeps the value of every expression under every well-typed valuation. |
| `KconfigExpr.EliminateYnShrinks` | nemu/tools/kconfig/expr.c:306-397 | Folding shrinks the tree exactly when some operand is y or n, changes nothing otherwise, and leaves no constant operand. |
| `KconfigExpr.ContainedIsReplaced` | nemu/tools/kconfig/expr.c:851-877 | A symbol is found in an expression if and only if replacing it by another changes the expression. |
| `KconfigEq.EliminateEq1Factors` | nemu/tools/kconfig/expr.c:150-190 | Mutual elimination factors both trees by one common part M: e1 = M op e1' and e2 = M op e2', through the mutual recursion with the equality test. |
| `KconfigEq.ExprEqSound` | nemu/tools/kconfig/expr.c:252-303 | Whenever the equality test succeeds, both expressions have the same value under every well-typed valuation. |
| `KconfigEq.ExprEqMaybeSound` | nemu/tools/kconfig/expr.c:252-303 | The same for missing expressions, which count as y. |
| `KconfigEq.EliminateEqSuperset` | nemu/tools/kconfig/expr.c:221-241 | If elimination reduces its second argument to y, the value of the first never exceeds that of the second, whether the && pass, the \|\| pass or both ran. |
| `KconfigOperands.EliminateOperands` | nemu/tools/kconfig/expr.c:150-190 | Elimination at one level leaves exactly the multiset differences of the operands, where operands are compared up to order and grouping at every level below. |
| `KconfigOperands.ExprEqExact` | nemu/tools/kconfig/expr.c:246-303 | For all expressions without y or n as an operand, at any depth: the test succeeds if and only if both sides are the same up to order and grouping at every level, each operand the same number of times. |
| `KconfigOperands.SupersetFound` | nemu/tools/kconfig/expr.c:221-241 | For expressions without y or n as an operand: elimination reduces its second argument to y if and only if the first is an && that has every && operand of the second, as often as the second has it. |
| `KconfigOperands.RepeatedOperand` | nemu/tools/kconfig/expr.c:246-251 | The documented set-like reading fails for all operands: A && (A && B) and A && B have the same operand set and value but are never found equal. |
| `KconfigDups.JoinOrSound` | nemu/tools/kconfig/expr.c:431-493 | Whatever two operands of \|\| are joined to has the maximum of their values. |
| `KconfigDups.JoinedExactly` | nemu/tools/kconfig/expr.c:431-587 | Two operands are joined if and only if they are equal or one of the listed pairs over one boolean or tristate symbol. |
| `KconfigDups.JoinAndExact` | nemu/tools/kconfig/expr.c:495-587 | Whatever two operands of && are joined to has the minimum of their values if and only if they are not an equality and an inequality of one tristate symbol with two different constants, to both of which the symbol compares equal. |
| `KconfigDups.JoinAndSound` | nemu/tools/kconfig/expr.c:495-587 | There is no such pair where the tested quoted constants are missed, and a join tests no new ones. |
| `KconfigDups.Dups1Eval` | nemu/tools/kconfig/expr.c:596-651 | The aliased in-place walk over all pairs of leaves keeps the value of the whole tree, wherever no tristate symbol equals a quoted constant that the tree tests it against. |
| `KconfigDups.Dups1Progress` | nemu/tools/kconfig/expr.c:596-651 | A walk that joined something leaves a neutral operand behind; one that joined nothing leaves the tree as it is. |
| `KconfigDups.PassProperties` | nemu/tools/kconfig/expr.c:671-683 | A pass that joins something and is then folded makes the tree strictly smaller: the measure of the fixpoint loop. |
| `KconfigDups.EliminateDupsLoop` | nemu/tools/kconfig/expr.c:664-686 | The endless loop stops, and returns the fixpoint. |
| `KconfigDups.EliminateDupsEval` | nemu/tools/kconfig/expr.c:653-686 | Removing duplicates keeps the value under every well-typed valuation in which no tristate symbol equals a quoted constant that the expression tests it against. |
| `KconfigDups.EliminateDupsPreserves` | nemu/tools/kconfig/expr.c:653-686 | If tristate symbols are tested only against y, m and n, the value is kept under every well-typed valuation. |
| `KconfigDups.QuotedTestExact` | nemu/tools/kconfig/expr.c:540-553 | A quoted constant can be tested beside y, m and n without harm if and only if the symbol does not compare equal to it. |
| `KconfigDups.EliminateDupsStable` | nemu/tools/kconfig/expr.c:653-686 | The result is never larger, admits no further join, and removing duplicates twice is the same as once. |
| `KconfigDups.EliminateDupsComplete` | nemu/tools/kconfig/expr.c:653-686 | In the result, at every level of && and \|\|, no two different operands are equal or one of the listed pairs: a=y with a=m, a with !a and so on never remain. |
| `KconfigTransform.TransformIsNnf` | nemu/tools/kconfig/expr.c:694-849 | The rewriting, with its re-entrant De Morgan steps, terminates and equals a structural negation normal form. |
| `KconfigTransform.NnfEval` | nemu/tools/kconfig/expr.c:694-849 | Pushing a pending negation inwards evaluates to 2 - x, under every well-typed valuation. |
| `KconfigTransform.NnfTwice` | nemu/tools/kconfig/expr.c:694-849 | Normal forms compose: pending negations add up. |
| `KconfigTransform.TransformCorrect` | nemu/tools/kconfig/expr.c:688-849 | The transformation keeps the value, leaves NOT only over symbols that are not constants, fixes normal forms, and is idempotent. |
| `KconfigCompare.TransCompareCorrect` | nemu/tools/kconfig/expr.c:908-985 | Lowering e to a comparison with y or n evaluates to the truth of e op s if and only if a condition on the negated operands holds; it never evaluates to m. |
| `KconfigCompare.TransCompareModule` | nemu/tools/kconfig/expr.c:932-974 | The target m, which the tool never asks for: right for comparisons, and for symbols whose text matches; an && or \|\| is returned as it is. |
| `KconfigCompare.NoNegatedMIsExact` | nemu/tools/kconfig/expr.c:953-954 | In particular it is right whenever no negated operand has value m. |
| `KconfigCompare.NegatedModule` | nemu/tools/kconfig/expr.c:953-954 | The condition is needed: !a lowered to = n is y while !a is m, for every tristate symbol a that is m. |
| `KconfigCompare.NotContainedIndependent` | nemu/tools/kconfig/expr.c:851-877 | An expression that does not contain a symbol does not depend on its value or its comparisons. |
| `KconfigCompare.DependsSound` | nemu/tools/kconfig/expr.c:879-906 | Whenever an expression found to depend on a symbol, of any type, is not n, the symbol is set, by value or by text, and occurs in the expression. |
| `KconfigCompare.DependsExact` | nemu/tools/kconfig/expr.c:879-906 | An expression is found to depend on a symbol if and only if one of its top-level && operands is the symbol, or compares it by =y, =m or !=n. |
| `KconfigCompare.SetIsNotNo` | nemu/tools/kconfig/expr.c:879-906 | For boolean and tristate symbols being set means a value other than n. |
| `KconfigCompare.LoweredEval` | nemu/tools/kconfig/menu.c:456-458 | A dependency lowered, transformed and freed of duplicates is the truth of "not n" if and only if lowering it is exact, wherever its tested quoted constants are missed. |
| `KconfigCompare.LoweredIrreducible` | nemu/tools/kconfig/menu.c:456-458 | A lowered dependency has no operands left that could be joined. |
| `KconfigCompare.JoinsBounds` | nemu/tools/kconfig/menu.c:463-469 | Only items that mention the symbol are put in its submenu, and all that have it, =y, =m or !=n of it as a top-level && operand. |
| `KconfigCompare.SubmenuSound` | nemu/tools/kconfig/menu.c:462-491 | Wherever the tested quoted constants are missed and lowering the dependencies of the item and of the symbol's prompt is exact: an item put in a submenu is not visible unless the symbol is set or the symbol's own prompt is visible. |
| `KconfigCompare.SupersetExact` | nemu/tools/kconfig/menu.c:462-491 | Where an item taken in by the superset test is visible, lowering its dependency is exact, and the symbol is not set: the symbol's own prompt is visible if and only if lowering its dependency is exact, too. |
| `KconfigCompare.EntryMisplaced` | nemu/tools/kconfig/menu.c:456-491 | The condition is needed: an item on !b && (s \|\| q) joins the submenu of s with a prompt on b = n; that is right under a well-typed valuation if and only if not b is m, s is not set and q is set. |
| `KconfigCompare.SubmenuSoundPlain` | nemu/tools/kconfig/menu.c:462-491 | In particular under every well-typed valuation, for dependencies that test tristate symbols only against y, m and n and negate nothing that is m. |
| `KconfigValue.InducedWellTyped` | nemu/tools/kconfig/expr.c:987-1100 | Comparing symbols by their parsed strings gives a well-typed valuation. |
| `KconfigValue.SignedOrder` | nemu/tools/kconfig/expr.c:1070-1100 | For two symbols read as signed numbers, all six comparisons are those of the numbers. |
| `KconfigValue.UnsignedOrder` | nemu/tools/kconfig/expr.c:1080-1081 | If one of them is unsigned, all six compare the 64-bit patterns. |
| `KconfigValue.TextOrder` | nemu/tools/kconfig/expr.c:1073-1079 | Two strings, and anything that is not read as a number, compare by the first difference of their texts. |
| `KconfigValue.QuotedEqual` | nemu/tools/kconfig/expr.c:1067-1080 | A tristate symbol compares equal to a quoted constant if and only if the constant parses to the number of its value. |
| `KconfigValue.DupsInState` | nemu/tools/kconfig/expr.c:653-686 | In every consistent state duplicate removal keeps the value of every expression that tests no tristate symbol against a quoted 0, 1 or 2. |
| `KconfigValue.QuotedNumberFails` | nemu/tools/kconfig/expr.c:540-553 | With such a number it does not: a = q && a != k is n and becomes y, whenever q parses to the value k of a. |
| `KconfigValue.AllModulesPossible` | nemu/tools/kconfig/symbol.c:348-361 | There is such a state, and an expression with a quoted constant that meets the condition. |
| `KconfigValue.AliasedConstants` | nemu/tools/kconfig/expr.c:540-553 | There a="1" && a!="0x1" has value n, but is joined to a="1" with value y. |
| `KconfigDeps.ListedIsContained` | nemu/tools/kconfig/symbol.c:1130-1162 | The symbols checked for an expression are exactly those that it contains. |
| `KconfigDeps.ListedDecide` | nemu/tools/kconfig/symbol.c:1130-1162 | Valuations that agree on these symbols and their comparisons give the expression the same value. |
| `KconfigDeps.DepsExact` | nemu/tools/kconfig/symbol.c:1164-1211 | A symbol depends on exactly the symbols contained in its direct, reverse and implied dependency, in the conditions of its properties but choices, selects and implies, and in the values of its defaults. |
| `KconfigDeps.Finish` | nemu/tools/kconfig/symbol.c:1250-1279 | A symbol whose dependencies are all finished, closed and free of cycles can be added to the finished ones. |
| `KconfigDeps.FinishedNotRecursive` | nemu/tools/kconfig/symbol.c:1259-1260 | A finished symbol reaches no cycle, so skipping it is safe. |
| `KconfigDeps.Checker.CheckDeps` | nemu/tools/kconfig/symbol.c:1250-1279 | Returns no symbol if and only if no dependency cycle is reachable; a returned symbol lies on a cycle; CHECK marks and stack are as before; terminates by the shrinking set of unchecked symbols. |
| `KconfigDeps.Checker.CheckSymDeps` | nemu/tools/kconfig/symbol.c:1164-1211 | The dependencies of one symbol, in the order direct, reverse, implied, properties: all finished, or a symbol on a reachable cycle. |
| `KconfigDeps.Checker.CheckExpr` | nemu/tools/kconfig/symbol.c:1130-1162 | All symbols of an expression are visited left to right: all finished, or a symbol on a reachable cycle. |
| `KconfigDeps.Checker.PrintRecursive` | nemu/tools/kconfig/symbol.c:1041-1128 | What is reported when a symbol on the stack is met again is a genuine cycle through it. |
| `KconfigDeps.Checker.CheckAll` | nemu/tools/kconfig/parser.y:514-519 | Checking all symbols reports no error if and only if none of them reaches a cycle. |
| `KconfigMenu.FinalizeFlat` | nemu/tools/kconfig/menu.c:506-585 | After finalizing, no node without a prompt keeps children, at any depth. |
| `KconfigMenu.TakeMaximal` | nemu/tools/kconfig/menu.c:460-502 | The submenu is the longest run of following items that pass the dependency test. |
| `KconfigMenu.Finalize` | nemu/tools/kconfig/menu.c:427-585 | Restructuring keeps the depth-first pre-order of the nodes, whatever the dependency tests answer. |
| `KconfigMenuPlaces.TreePlaces` | nemu/tools/kconfig/menu.c:433-582 | The ancestors of every node after restructuring: those of one pass with a stack of open entries, which puts a node below the innermost open entry it depends on, or else below its original parent, without the ancestors that have no prompt. |
| `KconfigMenuPlaces.FinalizePlaces` | nemu/tools/kconfig/menu.c:433-582 | The same for one node of a list and all that it takes; the rest of the list is left as it was. |
| `KconfigMenuPlaces.PlacesInjective` | nemu/tools/kconfig/menu.c:433-582 | The nodes with their ancestors, in order, determine the tree. |
| `KconfigMenuPlaces.SubmenuTaken` | nemu/tools/kconfig/menu.c:433-502 | An entry with a symbol and without children takes the siblings up to the first that does not depend on it; each of these depends on it or on one taken before. Any other node takes none. |
| `KconfigMenuPlaces.TakenBySibling` | nemu/tools/kconfig/menu.c:444-453 | A sibling taken need not depend on the entry itself: it may depend on one that was taken before. |
| `KconfigMenuPlaces.LinksRestructured` | nemu/tools/kconfig/menu.c:460-582 | The same on the links: the next link leads to a sibling that does not depend on the entry, and every parent link leads to the innermost of these ancestors. |
| `KconfigMenuLinks.Menus.MenuFinalize` | nemu/tools/kconfig/menu.c:306-585 | The relinking of list, next and parent turns the linked tree into the restructured one, every parent link leading where the node belongs, and touches no other node. |
| `KconfigMenuLinks.Menus.TakeSubmenu` | nemu/tools/kconfig/menu.c:460-502 | Moving the following items below a node, in place. |
| `KconfigMenuLinks.Menus.FlattenChildren` | nemu/tools/kconfig/menu.c:506-585 | Hoisting the children of promptless nodes, in place, also those hoisted before. |
| `KconfigMenuLinks.Menus.Advance` | nemu/tools/kconfig/confdata.c:805-818 | One step of the walk visits the next node of the pre-order. |
| `KconfigMenuLinks.Menus.Walk` | nemu/tools/kconfig/confdata.c:764-819 | The walk without a stack visits every node once, in pre-order, and stops. |
| `KconfigMenuLinks.Menus.FinalizeAndWalk` | nemu/tools/kconfig/confdata.c:868-912 | After restructuring, the walk still visits the nodes in the original order, and all parent links lead where the nodes belong. |
| `KconfigString.UnescapeEscape` | nemu/tools/kconfig/symbol.c:901-914 | Unescaping undoes escaping for every string, whatever follows the closing quote. |
| `KconfigString.EscapeLength` | nemu/tools/kconfig/symbol.c:901-914 | One backslash is added for every quote and every backslash, and nothing else. |
| `KconfigString.QuotedInjective` | nemu/tools/kconfig/symbol.c:875-916 | Different strings are never written alike. |
| `KconfigString.EscapeStringValue` | nemu/tools/kconfig/symbol.c:875-916 | The counted length is exact: the quoted text and its terminator fill the buffer. |
| `KconfigString.UnescapeInPlace` | nemu/tools/kconfig/confdata.c:264-270 | The in-place loop with its moves leaves the unescaped text, closed by a zero, or finds that there is no closing quote. |
| `KconfigString.SetStringValue` | nemu/tools/kconfig/confdata.c:261-276 | A value without an opening quote is ignored, one without a closing quote is invalid, any other is stored unescaped. |
| `KconfigString.StringRoundTrip` | nemu/tools/kconfig/confdata.c:261-276 | Every string value that is written is read back. |
| `KconfigString.WriteAndRead` | nemu/tools/kconfig/confdata.c:261-276 | The same for the two buffer operations, one after the other, for every text without a zero character. |
| `Int64Count.Clz32` | abstract-machine/klib/src/int64.c:626-655 | The masked halving steps count the leading zeros of every word, 32 for zero. |
| `Int64Count.Ctz32` | abstract-machine/klib/src/int64.c:661-695 | The masked halving steps count the trailing zeros of every word. |
| `Int64Count.Clz64` | abstract-machine/klib/src/int64.c:711-717 | Leading zeros of a double word. |
| `Int64Count.Ctz64` | abstract-machine/klib/src/int64.c:703-709 | Trailing zeros of a double word. |
| `Int64Div.EntryBound` | abstract-machine/klib/src/int64.c:527-597 | With the shift taken from the leading zeros, the partial remainder is below the divisor when the loop starts. |
| `Int64Div.SignTest` | abstract-machine/klib/src/int64.c:604-613 | In every iteration the sign bit of d - r - 1 is set if and only if r >= d. |
| `Int64Div.Iterate` | abstract-machine/klib/src/int64.c:598-616 | One iteration with its delayed carry keeps the division invariant. |
| `Int64Div.ShiftSubtract` | abstract-machine/klib/src/int64.c:591-620 | The shift-subtract loop returns quotient and remainder. |
| `Int64Div.ByLeadingZeros` | abstract-machine/klib/src/int64.c:561-575 | The unsigned comparison of the shift count with its limit decides whether the quotient is zero. |
| `Int64Div.DivByHigh` | abstract-machine/klib/src/int64.c:446-507 | Divisors that are a multiple of 2^32. |
| `Int64Div.DivByLow` | abstract-machine/klib/src/int64.c:510-557 | Divisors below 2^32. |
| `Int64Div.UDivMod` | abstract-machine/klib/src/int64.c:412-620 | For every dividend and every non-zero divisor: the quotient and the remainder. |
| `Int64Signed.TruncLaws` | abstract-machine/klib/src/int64.c:355-390 | Truncated division: a = q*b + r with a remainder smaller than b and of the sign of a. |
| `Int64Signed.DivDi` | abstract-machine/klib/src/int64.c:355-366 | Signed division truncates towards zero, in two's complement, for every non-zero divisor. |
| `Int64Signed.ModDi` | abstract-machine/klib/src/int64.c:379-390 | The signed remainder has the sign of the dividend. |
| `Int64Signed.DivModDi` | abstract-machine/klib/src/int64.c:369-375 | Quotient and remainder together, the remainder by multiplying back. |
| `Int64Signed.MulRound` | abstract-machine/am/src/riscv/npc/libgcc/multi3.c:58-74 | One round of shift and add keeps sum + addend * multiplier modulo 2^64. |
| `Int64Signed.Mul64` | abstract-machine/am/src/riscv/npc/libgcc/multi3.c:40-86 | The product modulo 2^64, for all operands. |
| `VmeModel.IndexBits` | abstract-machine/am/src/x86/qemu/vme.c:49-51 | Masking and shifting extracts directory and table index. |
| `VmeModel.EntryPage` | abstract-machine/am/src/x86/qemu/vme.c:53-55 | Masking the low bits of an entry gives the base of its page. |
| `VmeModel.MakeEntryBits` | abstract-machine/am/src/x86/qemu/vme.c:152-153 | Joining a page address with flag bits gives the entry of that page with those flags. |
| `VmeModel.EntryFlags` | abstract-machine/am/src/x86/x86.h:24-26 | Masking an entry with a flag bit tests that flag. |
| `VmeInvariant.WalkUser` | abstract-machine/am/src/x86/qemu/vme.c:57-75 | A walk to a user address keeps the ownership invariant and allocates at most one table. |
| `VmeInvariant.WalkAgain` | abstract-machine/am/src/x86/qemu/vme.c:57-75 | A walk to an address whose table exists allocates nothing. |
| `VmeMap.SecondWalk` | abstract-machine/am/src/x86/qemu/vme.c:146-155 | The second walk of a map call allocates nothing and finds the same entry. |
| `VmeMap.MapPageCorrect` | abstract-machine/am/src/x86/qemu/vme.c:141-156 | A map call panics exactly in the listed cases; otherwise it changes the translation of exactly one page of one space, and no other space or kernel page. |
| `VmeSpace.KernelIdentity` | abstract-machine/am/src/x86/qemu/vme.c:117-135 | In every space, kernel pages are mapped to themselves, writable and not for the user. |
| `VmeSpace.ProtectTranslate` | abstract-machine/am/src/x86/qemu/vme.c:117-135 | A new space has no user page, and other spaces keep their translation, also if the space existed before. |
| `VmeSpace.TornIsOwned` | abstract-machine/am/src/x86/qemu/vme.c:77-87 | Teardown frees exactly the directory and the user tables of the space, each once: no kernel table and no table of another space. |
| `VmeSpace.MappedFrameFreed` | abstract-machine/am/src/x86/qemu/vme.c:77-87 | A frame that some space has mapped is freed if and only if it is the directory or a user table of the space that is destroyed. |
| `VmeSpace.OwnDirectoryMapped` | abstract-machine/am/src/x86/qemu/vme.c:141-156 | That can happen: mapping the directory page of a space succeeds, and then destroying the space frees a mapped frame. |
| `VmeSpace.UnprotectCorrect` | abstract-machine/am/src/x86/qemu/vme.c:137-139 | Freeing returns those pages to the pool and touches nothing else. |
| `VmeSpace.UnprotectTranslate` | abstract-machine/am/src/x86/qemu/vme.c:137-139 | Other spaces keep their translation. |
| `VmeRun.RunRefines` | abstract-machine/am/src/x86/qemu/vme.c:117-156 | Over every run of creations, map calls, destructions, and pages taken and given back, the hardware translation equals the abstract maps after the same updates, the pages in use, in the pool and taken by the kernel for itself stay the same together, and pages are lost if and only if an existing space is created again. |
| `VmeRun.NoMappedFrameFreed` | abstract-machine/am/src/x86/qemu/vme.c:77-87 | If the kernel maps only pages that it has taken from the allocator, or that the allocator never had, and gives back none that is mapped, then in every state of every run no mapped frame is a page table or free for allocation, and destroying any space frees none. |
| `VmeRun.NothingLeaks` | abstract-machine/am/src/x86/qemu/vme.c:77-87 | Once every space is destroyed only the kernel tables, and the pages lost by creating a space twice, are in use by page tables. |
| `VmeInit.KernelStep` | abstract-machine/am/src/x86/qemu/vme.c:99-108 | One page of the kernel mapping loop, across the wrap-around of the last area. |
| `VmeClass.Vme.PtWalk` | abstract-machine/am/src/x86/qemu/vme.c:57-75 | The loop over the levels, in place, is the walk of the model. |
| `VmeClass.Vme.Map` | abstract-machine/am/src/x86/qemu/vme.c:141-156 | The call, in place: panics exactly as stated, else one change. |
| `VmeClass.Vme.Protect` | abstract-machine/am/src/x86/qemu/vme.c:117-135 | Copying the kernel entries area by area gives a valid new space; whatever a space of that name owned before is lost, and nothing else. |
| `VmeClass.Vme.Teardown` | abstract-machine/am/src/x86/qemu/vme.c:77-87 | The recursion frees the user tables in index order, then the directory. |
| `VmeClass.Vme.Unprotect` | abstract-machine/am/src/x86/qemu/vme.c:137-139 | All pages owned by the space return to the pool. |
| `VmeInit.KernelCount` | abstract-machine/am/src/x86/qemu/vme.c:99-108 | One page of the kernel mapping loop succeeds if and only if the pool holds the tables it still needs. |
| `VmeClass.Vme.Init` | abstract-machine/am/src/x86/qemu/vme.c:89-115 | The kernel mapping loops succeed if and only if the pool holds 269 pages, take exactly those, and establish the invariant. |
| `SdbTokens.MatchParens` | npc/csrc/monitor/sdb/expr.cpp:183-201 | Matching succeeds if and only if the parentheses are balanced, and then pairs each with its partner. |
| `SdbTokens.FindMainOperator` | npc/csrc/monitor/sdb/expr.cpp:253-277 | The scanning loop, which jumps over parentheses. |
| `SdbTokens.MainOperatorMeaning` | npc/csrc/monitor/sdb/expr.cpp:253-277 | The operator found is the leftmost among the weakest top-level operators; there is none only if no top-level operator has a priority. |
| `SdbEval.Begin` | npc/csrc/monitor/sdb/expr.cpp:305-354 | The first visit of a frame keeps what the stack stands for and leaves less work. |
| `SdbEval.Continue` | npc/csrc/monitor/sdb/expr.cpp:355-395 | Every later visit does too. |
| `SdbEval.Eval` | npc/csrc/monitor/sdb/expr.cpp:294-402 | The stack machine returns what the recursive evaluator returns and stops; a frame array of one frame per token and one more is always enough. |
| `SdbTree.ValueIsMeaning` | npc/csrc/monitor/sdb/expr.cpp:355-395 | Computing in words throughout gives the value of the tree on the integers modulo 2^32, and fails exactly if it has none: sums and products unreduced, quotients of centred numbers without their fraction, comparisons modulo 2^32. |
| `SdbTree.DivisionLaws` | npc/csrc/monitor/sdb/expr.cpp:383-383 | a = q*b + r with \|r\| < \|b\| and the sign of a, on signed values; it fails exactly for b = 0 and for the smallest number by -1. |
| `SdbSyntax.TwoOperators` | npc/csrc/monitor/sdb/expr.cpp:215-242 | x t y u z is read as x t (y u z) if and only if u does not bind more weakly than t in C, and as (x t y) u z otherwise. |
| `SdbSyntax.UnaryFirst` | npc/csrc/monitor/sdb/expr.cpp:215-242 | A unary minus or dereference binds more strongly than all binary operators. |
| `SdbSyntax.NothingFails` | npc/csrc/monitor/sdb/expr.cpp:305-354 | Empty parentheses fail, and so does a binary operator with nothing to its left. |
| `SdbSyntax.NothingRight` | npc/csrc/monitor/sdb/expr.cpp:305-354 | An operator with nothing to its right fails. |
| `SdbSyntax.EvalSpelled` | npc/csrc/monitor/sdb/expr.cpp:294-402 | What the evaluator returns on every expression of numbers, registers, parentheses and all operators, written with enough parentheses for its precedences: the value of its tree, except for logical negation, whose actual effect is given exactly. |
| `SdbSyntax.ActualIsValue` | npc/csrc/monitor/sdb/expr.cpp:294-402 | Without logical negation that is the value of the tree, and a failure exactly where it has none. |
| `SdbSyntax.Expr` | npc/csrc/monitor/sdb/expr.cpp:405-414 | From the token sequence, matching and then evaluation: fails if and only if the parentheses are unbalanced; for every legal tree its actual value, and without logical negation the value on the integers modulo 2^32. |
| `SdbSyntax.ParenthesisedLegal` | npc/csrc/monitor/sdb/expr.cpp:294-402 | The fully parenthesised form of every tree is such an expression, with the same value. |
| `SdbSyntax.SubtractionAssociatesRight` | npc/csrc/monitor/sdb/expr.cpp:268-272 | For all operands that bind more strongly, a - b - c is read as a - (b - c), which agrees with (a - b) - c if and only if the value of c is 0 or 2^31, or there is no value. |
| `SdbSyntax.NegationNotFound` | npc/csrc/monitor/sdb/expr.cpp:215-242 | Logical negation is never found: a range that begins with it and has nothing else to split at returns the value computed before. |
| `SdbSyntax.NegationAlone` | npc/csrc/monitor/sdb/expr.cpp:215-242 | On its own, !e is 0 for every operand or parenthesis e, so it is right if and only if e has a value other than 0. |
| `SdbSyntax.NegationOnTheRight` | npc/csrc/monitor/sdb/expr.cpp:215-242 | As a right operand !e has the value of the left operand, so the result is right if and only if the operator does not tell the two apart. |
| `SdbSyntax.NegationOnTheLeft` | npc/csrc/monitor/sdb/expr.cpp:215-242 | As a left operand !e has the value computed before, 0 at the start, so the result is right if and only if the operator does not tell that apart from the negation. |
| `SdbSyntax.NegationBeforeUnary` | npc/csrc/monitor/sdb/expr.cpp:215-242 | Before a unary minus or a dereference it is ignored, so the result is never right. |
| `SdbSyntax.EqualsNegation` | npc/csrc/monitor/sdb/expr.cpp:215-242 | So l == !e is always true. |
| `GdbPacket.DecodeHexExact` | nemu/tools/qemu-diff/src/protocol.c:44-52 | Two digits decode to a byte if and only if they are its two hexadecimal digits, in either case. |
| `GdbPacket.FlipIsXor` | nemu/tools/qemu-diff/src/protocol.c:250-254 | An escaped byte is the byte with bit 5 inverted. |
| `GdbPacket.RecvPacket` | nemu/tools/qemu-diff/src/protocol.c:173-274 | The receiving loop with its growing buffer returns the packet, stays inside the buffer, and ends the payload with a zero. |
| `GdbCodec.BodyRestart` | nemu/tools/qemu-diff/src/protocol.c:187-194 | A '$' starts a packet afresh whatever precedes it, as long as no '#' does. |
| `GdbCodec.EscapeWaits` | nemu/tools/qemu-diff/src/protocol.c:214-254 | A pending escape waits for the next data byte; neither another '}' nor a run uses it up. |
| `GdbCodec.MissingDigits` | nemu/tools/qemu-diff/src/protocol.c:196-212 | A stream that ends before both checksum digits gives a bad checksum. |
| `GdbCodec.DecodeUndoesEncode` | nemu/tools/qemu-diff/src/protocol.c:173-274 | Every legal encoding, with escapes and runs chosen at will, after any prefix without '#': the payload comes back, the rest of the stream is untouched, and the checksum is accepted if and only if its digits spell the sum. |
| `GdbCodec.PayloadRoundTrip` | nemu/tools/qemu-diff/src/protocol.c:173-274 | Every payload has such an encoding, and is received with a good checksum. |
| `GdbCodec.SendPacket` | nemu/tools/qemu-diff/src/protocol.c:138-158 | The checksum loop and the frame around the raw command. |
| `GdbCodec.RawExact` | nemu/tools/qemu-diff/src/protocol.c:138-158 | Any command is received as it was sent if and only if it contains none of '#', '$' and '}', and no '*' after the first byte that is followed by a count byte: an expanded run never makes up for what was lost. |
| `GdbCodec.RunIsExpanded` | nemu/tools/qemu-diff/src/protocol.c:219-247 | x, '*' and the byte n + 29 arrive as x and n more x, for every n up to 97 but 6 and 7. |
| `GdbCodec.NoCountNoRun` | nemu/tools/qemu-diff/src/protocol.c:219-247 | Before a byte below 29 or above 126 a '*' arrives as it was sent. |
| `GdbCodec.GdbRecv` | nemu/tools/qemu-diff/src/protocol.c:276-291 | With acknowledgement the first good packet is returned; every bad one before it is answered by '-', the good one by '+'. |
| `GdbHex.DecodeHexStr` | nemu/tools/qemu-diff/src/protocol.c:54-63 | The value of the digit pairs, least significant byte first, in 64 bits. |
| `GdbHex.RegisterRoundTrip` | nemu/tools/qemu-diff/src/protocol.c:54-63 | Every value is recovered from its encoded bytes. |
| `InstPattern.TestDecides` | nemu/include/cpu/decode.h:90-97 | The shift-and-mask test passes a word if and only if the word matches the pattern digit by digit. |
| `InstPattern.PatternDecode` | nemu/include/cpu/decode.h:31-60 | The accumulation of key, mask and shift gives such a test for exactly the legal patterns. |
| `RvTable.RowSelected` | nemu/src/isa/riscv32/inst.c:92-157 | A word matches a row if and only if the decision tree over its fields selects that row. |
| `RvTable.RowsDisjoint` | nemu/src/isa/riscv32/inst.c:92-157 | No word matches two rows. |
| `RvTable.OrderIrrelevant` | nemu/src/isa/riscv32/inst.c:92-157 | Trying the rows in any order selects the same row. |
| `RvTable.RowTest` | nemu/src/isa/riscv32/inst.c:92-157 | The test computed from the written pattern of a row passes exactly the words of that row. |
| `RvImmediate.DecodesI` | nemu/src/isa/riscv32/inst.c:47-47 | The I-immediate decoder inverts the encoding, for every immediate and any other bits. |
| `RvImmediate.DecodesU` | nemu/src/isa/riscv32/inst.c:48-48 | The same for U-immediates. |
| `RvImmediate.DecodesS` | nemu/src/isa/riscv32/inst.c:49-49 | The same for S-immediates. |
| `RvImmediate.DecodesJ` | nemu/src/isa/riscv32/inst.c:50-50 | The same for J-immediates. |
| `RvImmediate.DecodesB` | nemu/src/isa/riscv32/inst.c:51-51 | The same for B-immediates. |

## Left out

- Expressions of type list and range, and the choice groups built from them: the evaluation of dependencies and the cycle search are modelled for graphs without choices.
- `expr_trans_bool`, `rewrite_m`, expression printing and the recalculation of symbol values.
- The dependency tests inside `menu_finalize` are one arbitrary answer per pair of items in `KconfigMenu` and `KconfigMenuLinks`, so the order results hold for every answer; what the tests mean is in `KconfigCompare.SubmenuSound`.
- Propagating dependencies to children and properties, and the warnings, in `menu_finalize`.
- What the menu walks write: only which nodes are visited, and in which order.
- Freeing and sharing of expression nodes, and the overflow of the `trans_count` counter.
- KconfigOperands.ExprEqExact: for expressions without y or n as an operand; such operands are folded away only after elimination, so that A && (y || C) and A && (y || D) are found equal, as they should be, although their operands differ.
- KconfigDups.EliminateDupsEval: sufficient for every expression; the exact condition is stated for a single join (`KconfigDups.JoinAndExact`) and for a test beside y, m and n (`KconfigDups.QuotedTestExact`), since a wrong join deeper in an expression may be hidden by another operand.
- KconfigString.EscapeStringValue: the text is a sequence without the terminator, as C strings are.
- Int64Div.UDivMod: a divisor of zero is left out; the source then divides by zero.
- The parts of `__multi3` for 64-bit words; the model is the 32-bit one, with `__muluw3` as the low word of a product.
- The four-level page tables of x86_64, and the control registers written by `vme_init` and by a context switch.
- VmeSpace.UnprotectCorrect: a destroyed space is removed, while the source leaves its root entry in place; using a destroyed space again reads freed memory and is not modelled.
- VmeClass.Vme.Unprotect: the same.
- VmeClass.Vme.Init: allocation of the pool itself; a failing allocation is a panic and ends the run.
- Turning debugger input into tokens by regular expressions, and the fixed sizes of the token array and of the evaluator's stack; a token sequence of 64 needs at most 65 of the 1000 frames.
- SdbEval.Eval: the quotient of the smallest number by -1 is undefined in C and counts as a failure.
- Reading past a missing terminator, allocation failures and socket errors of the packet code.
- `pattern_decode_hex`, which the RV32 table does not use, and the execution of instructions.
- RvTable.RowSelected: the field values of a row are written as numbers, from which its pattern text is generated.
- Devices, user interfaces, process control and foreign libraries.
