# Kconfig, mkhash and CAMEO tags

A model of the configuration engine of an OpenWrt-style build tree (`scripts/config`), of its
hash tool (`scripts/mkhash.c`) and of its CAMEO tag script (`scripts/cameo-tag.py`), with proofs
of what they are for.

- **Expressions** (`Exprs`, `ExprPaths`, `ExprEquality`, `ExprKeys`, `ExprDups`,
  `ExprRewriter`, `ExprTransform`, `Numerals`): three-valued dependency expressions, what their
  comparisons mean, and the simplifiers that rewrite them. A NULL expression is `None`, symbols are values instead of addresses, and a valuation gives
  every symbol a tristate and a text. Slots that the C code overwrites are paths into a tree.
- **Menus** (`MenuConditions`, `MenuTree`, `Submenus`): conditions that `menu_finalize`
  propagates, and the pointer surgery by which it builds submenus and flattens blocks.
- **Symbols** (`Configs`, `DependencyCheck`, `Solutions`, `SymbolLaws`, `ValueLaws`, `Evaluator`,
  `Pipeline`, `Choices`, `ChoiceLaws`): the search for recursive dependencies; the value every symbol must have, as the
  fixed point of one rule per symbol; and the cached evaluation that computes it.
- **Macros** (`Preprocess`, `MacroLaws`): expansion of `$(...)`, with shell and environment results given.
- **Configuration files** (`ConfLines`, `TextLaws`, `SaveReload`): quoting, writing and reading lines and
  files, and what a saved configuration becomes when it is loaded.
- **Hashes** (`HashBlocks`, `Sha256`, `Md5`) against FIPS 180-4 and RFC 1321, and **CAMEO tags**
  (`Cameo`) against the bitwise definition of CRC-32.

Where the C code updates state, a specification function on values comes first and a class or
method with the same steps is proved to compute it. `Submenus` and the modules named `...Laws`
then say what these functions give in terms of operands, properties, prompts, arguments and
texts alone, without the functions themselves.

Results that are not what one might expect; the model follows the code in each:

- `expr_eliminate_dups` does not keep the value of every expression. `expr_join_and` replaces
  `A='b' && A!='c'` by `A='b'` when the constants differ as symbols, while their comparison
  parses numbers, so `A='2' && A!='0x2'` changes. `ExprDups.EliminateDupsExact` says for which
  sets of constants it is right; y, m and n are such a set.
- The comment above `expr_eq` describes equality of operand sets. The code cancels operands one
  against one, so it compares multisets (`ExprKeys.ExprEqExact`). The two agree when no level
  repeats an operand (`ExprKeys.ExprEqDocumented`); `A && A && B` and `A && B` are told apart
  (`ExprKeys.RepeatedOperandCounts`).
- Saving a configuration and loading it again can change it: a default may exceed the prompt of
  its symbol, a user value may not (`SaveReload.LoadingChanges`). `SaveReload.SaveThenLoad` says
  exactly when it does not.
- A menu prompt that reads like an unset line of a configuration file is read as one
  (`ConfLines.NoteIgnored`).
- The comment in `expr_join_and` (scripts/config/expr.c, line 569) says that `A!='m' && A!='n'`
  becomes `A='m'`; the code makes it `A='y'`, which is the right value.

## Model

| member | source | states |
|---|---|---|
| `ExprEquality.EliminateYnValue` | scripts/config/expr.c:316-397 | removing y and n operands keeps the value in every valuation |
| `ExprEquality.EliminateYnShrinks` | scripts/config/expr.c:316-397 | no y or n operand is left, and the tree shrinks exactly when there was one |
| `ExprEquality.ElimEqWalkValue` | scripts/config/expr.c:150-190 | whatever a walk removes from the two sides has one common value, so each side is the rest joined with that value |
| `ExprEquality.ExprEqSound` | scripts/config/expr.c:252-303 | expressions accepted as equal have equal values in every valuation |
| `ExprEquality.ExprEqReflexive` | scripts/config/expr.c:252-303 | every expression is accepted beside its own copy, duplicates included |
| `ExprEquality.EliminateEqReflectsOrder` | scripts/config/expr.c:221-241 | if the first simplified side is at most the second, so were the originals |
| `ExprKeys.WalkCancels` | scripts/config/expr.c:150-190 | the walk cancels common operands one against one until the two sides share none |
| `ExprKeys.ExprEqExact` | scripts/config/expr.c:252-303 | expressions without y or n operands are accepted iff their levels have the same operands, each as often on both sides |
| `ExprKeys.ExprEqSymmetric` | scripts/config/expr.c:252-303 | acceptance is symmetric on such expressions |
| `ExprKeys.ExprEqTransitive` | scripts/config/expr.c:252-303 | and transitive |
| `ExprKeys.ExprEqDocumented` | scripts/config/expr.c:246-303 | what is accepted obeys the documented rule; all that obeys it is accepted when no level repeats an operand |
| `ExprKeys.RepeatedOperandCounts` | scripts/config/expr.c:246-303 | with a repeated operand it is not: two expressions that obey the rule, agree in every valuation and are refused |
| `ExprKeys.ConstantsBlur` | scripts/config/expr.c:252-303 | with an n operand the operands no longer decide: two different expressions that are accepted |
| `ExprKeys.NotTransitive` | scripts/config/expr.c:252-303 | nor is acceptance transitive then: three expressions of which two pairs are accepted and the third is not |
| `ExprKeys.SecondIsYes` | scripts/config/expr.c:221-241 | elimination leaves y on the second side iff it was y, or the first is an && with all its operands, each at least as often |
| `ExprDups.JoinValue` | scripts/config/expr.c:431-587 | a joined operand has the value of the two operands it replaces, for constants no tristate value equals twice |
| `ExprDups.JoinTestsExact` | scripts/config/expr.c:539-553 | a='b' && a!='c' may be replaced by a='b' iff no tristate value equals both constants |
| `ExprDups.ClashingConstants` | scripts/config/expr.c:998-1028 | two different constants, 2 and 0x2, do equal the same tristate value |
| `ExprDups.YmnNoClash` | scripts/config/expr.c:1030-1102 | y, m and n never clash with each other |
| `ExprDups.Dups1Value` | scripts/config/expr.c:596-651 | a walk that compares a tree with itself while overwriting it keeps the value |
| `ExprDups.Dups1Effect` | scripts/config/expr.c:596-651 | a walk either finds nothing and changes nothing, or leaves a y or n operand behind |
| `ExprDups.EliminateDupsValue` | scripts/config/expr.c:664-686 | the fixed point of the passes has the original value |
| `ExprDups.EliminateDupsExact` | scripts/config/expr.c:664-686 | value is kept for all expressions over a set of constants iff no two of them clash |
| `ExprDups.ClashingExample` | scripts/config/expr.c:664-686 | A='2' && A!='0x2' is reduced to A='2', and differs from it at y |
| `ExprDups.EliminateDupsTidy` | scripts/config/expr.c:664-686 | no new constant is tested, the normal form is kept, and no y or n operand appears where there was none |
| `ExprDups.EliminateDupsComplete` | scripts/config/expr.c:664-686 | no level of the result holds two operands that still join |
| `ExprDups.NoPairLeft` | scripts/config/expr.c:431-587 | nor, operand by operand, a repeated one, a beside !a or two of a='y', a='m', a='n' under \|\|, or under && a symbol or test beside a test that it decides |
| `ExprRewriter.Rewriter.Equal` | scripts/config/expr.c:252-303 | the counting version computes the same answer and restores trans_count |
| `ExprRewriter.Rewriter.EliminateCommon` | scripts/config/expr.c:221-241 | both simplified trees, and trans_count grows by the matches found |
| `ExprRewriter.Rewriter.WalkCommon` | scripts/config/expr.c:150-190 | slots are overwritten as the specification says, counting each match |
| `ExprRewriter.Rewriter.Dedup1` | scripts/config/expr.c:596-651 | overwrites exactly the slots of the walk, anywhere inside a larger tree, and counts each join |
| `ExprRewriter.Rewriter.DedupPair` | scripts/config/expr.c:606-651 | what happens when two operands of a level meet |
| `ExprRewriter.Rewriter.Dedup` | scripts/config/expr.c:664-686 | the loop ends, leaves the duplicate-free tree, and restores trans_count |
| `ExprTransform.TransformValue` | scripts/config/expr.c:694-849 | the rewriting, which feeds its De Morgan output to itself, keeps the value in every valuation |
| `ExprTransform.TransformNormal` | scripts/config/expr.c:694-849 | the result is in negation normal form with no bool tested against y, m or n |
| `ExprTransform.NormalIsFixed` | scripts/config/expr.c:694-849 | an expression in that form is left as it is |
| `ExprTransform.TransformIdempotent` | scripts/config/expr.c:694-849 | a second run changes nothing |
| `ExprTransform.TransBoolZero` | scripts/config/expr.c:402-426 | dropping !=n tests is n in exactly the same valuations, if no such test stands under an odd number of negations |
| `ExprTransform.TransBoolOddTest` | scripts/config/expr.c:402-426 | under an odd number it is not: an input where it differs |
| `ExprTransform.TransCompareValue` | scripts/config/expr.c:922-985 | the pushed-down comparison has the value of the expression with every m leaf rounded, or its negation |
| `ExprTransform.DependsSymbolForces` | scripts/config/expr.c:851-906 | an absolute dependency at n forces the expression to n |
| `Numerals.NumbersCompare` | scripts/config/expr.c:998-1102 | =, !=, <, <=, > and >= compare decimal texts of ints and constants as numbers if both fit into 64 bits, and as texts otherwise |
| `Numerals.HexCompare` | scripts/config/expr.c:998-1102 | and hexadecimal texts as unsigned numbers, with or without 0x and in either case |
| `Numerals.TristatesCompare` | scripts/config/expr.c:998-1102 | bools and tristates are compared as n < m < y |
| `Numerals.TextsCompare` | scripts/config/expr.c:1030-1102 | two strings are compared by the order of their characters, even if they are numbers |
| `MenuConditions.RewriteMValue` | scripts/config/menu.c:83-106 | with modules off, m reads as n; otherwise nothing changes |
| `MenuConditions.PropagateValue` | scripts/config/menu.c:331-339 | a propagated condition is the minimum of the parent's and the own condition |
| `MenuConditions.PropConditionValue` | scripts/config/menu.c:379-385 | a stored property condition means that minimum for a tristate owner, and for any other owner is n in the same valuations |
| `MenuConditions.StoredSimplified` | scripts/config/menu.c:335-385 | what is stored has no duplicate or redundant operand, and for an owner that is no tristate no test FOO!=n |
| `MenuConditions.FlattenedSimplified` | scripts/config/menu.c:435-467 | nor has either side of the superset test |
| `MenuConditions.NestedDepValue` | scripts/config/menu.c:321-339 | through any depth of nesting, the stored dep is the minimum of all enclosing conditions |
| `MenuConditions.SupersetTestSound` | scripts/config/menu.c:435-470 | an item the test accepts is, with m raised to y, at most as visible as the owner's prompt |
| `MenuConditions.SupersetTestBounds` | scripts/config/menu.c:435-470 | with every symbol at m raised to y, the value of an accepted item is at most that of the owner |
| `MenuConditions.SupersetTestExact` | scripts/config/menu.c:435-470 | the test accepts iff the owner's condition is y, or the item's is an && that has all && operands of the owner's, in any place and order |
| `MenuConditions.CommonOperandGoes` | scripts/config/expr.c:221-241 | an operand common to both sides leaves y on the second |
| `MenuConditions.SupersetTestAccepts` | scripts/config/menu.c:435-470 | an owner condition that is the right operand of the item's is found, whatever the left operand |
| `Submenus.DependsIsOperand` | scripts/config/expr.c:879-906 | expr_depends_symbol accepts exactly the conditions with an && operand that is the symbol, or the symbol compared =y, =m or !=n |
| `Submenus.RunIsMaximal` | scripts/config/menu.c:440-475 | every sibling taken over mentions the owner, and has such an operand or all && operands of the owner's prompt; the first one left does not |
| `Submenus.DemandingTaken` | scripts/config/menu.c:440-475 | siblings with such an operand, one after the other, are all taken |
| `Submenus.SubmenuHolds` | scripts/config/menu.c:412-481 | so the owner's submenu begins with all their nodes, in order |
| `Submenus.StrangerStays` | scripts/config/menu.c:443-445 | a next sibling that does not mention the symbol stays, and so does everything after it |
| `Submenus.OthersTakeNone` | scripts/config/menu.c:300-412 | a node with children, or without a symbol, takes over no sibling |
| `Submenus.FlattenParents` | scripts/config/menu.c:554-563 | flattening gives every node its nearest ancestor with a prompt as parent, and moves no other |
| `DependencyCheck.DepChecker.CheckDeps` | scripts/config/symbol.c:1229-1261 | any answer lies on a real cycle; marks and stack come back; an unanswered check has put all it reached in dependency order |
| `DependencyCheck.DepChecker.CheckSymDeps` | scripts/config/symbol.c:1144-1190 | the same for all expressions and properties of a symbol, with the stack entry pushed and popped |
| `DependencyCheck.DepChecker.CheckOwn` | scripts/config/symbol.c:1152-1184 | the same for dir_dep, rev_dep and implied, and then for the property list |
| `DependencyCheck.DepChecker.CheckProps` | scripts/config/symbol.c:1169-1184 | the same for the property list |
| `DependencyCheck.DepChecker.CheckExpr` | scripts/config/symbol.c:1109-1141 | the same for every symbol of an expression |
| `DependencyCheck.DepChecker.CheckAll` | scripts/config/parser.tab.c:1978-1981 | after the loop over all symbols no symbol is marked as in progress; no error means the table is in dependency order, an error means a cycle |
| `DependencyCheck.CheckTable` | scripts/config/parser.tab.c:1977-1983 | with recursive_is_error set, a table is accepted iff no symbol is on a cycle |
| `Configs.OrderedHasNoCycle` | scripts/config/symbol.c:1109-1190 | a table in dependency order has no cycle |
| `Configs.DependsIff` | scripts/config/symbol.c:1144-1184 | what a symbol depends on, property by property; conditions of its own selects and implies do not count |
| `Solutions.SolutionWf` | scripts/config/symbol.c:304-446 | values that satisfy every symbol's rule are a well-formed valuation |
| `Solutions.CalcAgrees` | scripts/config/symbol.c:304-446 | a symbol's value depends on nothing but its user value and its dependencies |
| `Solutions.SolutionsAgree` | scripts/config/symbol.c:304-446 | two settled configurations agree up to the first symbol whose user value differs |
| `Solutions.SolutionUnique` | scripts/config/symbol.c:304-446 | a table in dependency order has at most one solution |
| `Solutions.SolutionExists` | scripts/config/symbol.c:304-446 | and it has one |
| `Evaluator.SymbolTable.CalcExpr` | scripts/config/expr.c:1030-1102 | the cached evaluation of an expression returns its value in the solution |
| `Evaluator.SymbolTable.CalcValue` | scripts/config/symbol.c:304-446 | the symbol becomes valid with its solution value; no other valid symbol moves, and none in progress is read |
| `Evaluator.SymbolTable.CalcTyped` | scripts/config/symbol.c:325-415 | fields curr, visible, dir_dep, rev_dep, implied and SYMBOL_WRITE of a typed symbol are those of the solution |
| `Evaluator.SymbolTable.CalcUntyped` | scripts/config/symbol.c:337-340 | a symbol without a type reads as its name |
| `Evaluator.SymbolTable.CalcLimits` | scripts/config/symbol.c:177-238 | the four limits are those of the solution |
| `Evaluator.SymbolTable.CalcPrompts` | scripts/config/symbol.c:189-203 | visibility is the maximum over the prompts |
| `Evaluator.SymbolTable.CalcDefault` | scripts/config/symbol.c:83-93 | the first default whose condition is not n |
| `Evaluator.SymbolTable.CalcTri` | scripts/config/symbol.c:352-393 | the tristate value and whether it asks to be written |
| `Evaluator.SymbolTable.CalcStr` | scripts/config/symbol.c:394-410 | the string, int or hex value and whether it asks to be written |
| `Evaluator.SymbolTable.constructor` | scripts/config/symbol.c:448-457 | a fresh table caches nothing wrong for any solution |
| `Evaluator.SymbolTable.CalcSequence` | scripts/config/symbol.c:304-446 | any calls in any order leave every asked symbol with its solution value |
| `Evaluator.SymbolTable.ClearAllValid` | scripts/config/symbol.c:448-457 | every table symbol loses its flag, y, m and n keep theirs, and the table is then sound for whatever solution the present user values have |
| `Evaluator.SymbolTable.SetTristateValue` | scripts/config/symbol.c:478-512 | accepted iff it is the present value or within range; the new state is the assignment, and a change drops the cache |
| `Evaluator.SymbolTable.SetThenCalc` | scripts/config/symbol.c:478-512 | after an accepted change, recalculation gives exactly that value iff no select is overruled by a dependency of n, which stored prompt conditions rule out; a refused one changes nothing |
| `Pipeline.CheckAndEvaluate` | scripts/config/parser.tab.c:1977-1983 | a table is evaluated iff it has no cycle, and then holds the values of its one solution, whatever the order |
| `SymbolLaws.RevDepValue` | scripts/config/menu.c:391-399 | the accumulated reverse dependency is the strongest active select |
| `SymbolLaws.SelectHonoured` | scripts/config/symbol.c:385-392 | a symbol is at least as far on as each active select, unless its direct dependency is n, and then it is n |
| `SymbolLaws.SelectedOnly` | scripts/config/symbol.c:385-392 | with no other source of a value it is exactly as far on as its strongest select |
| `ValueLaws.DefaultDecides` | scripts/config/symbol.c:370-392 | without a user value that counts, the first default whose condition is not n gives the minimum of its value and its condition, raised by implies as far as the dependency allows, and then by selects |
| `ValueLaws.NoDefaultIsNo` | scripts/config/symbol.c:370-392 | without such a default the symbol starts from n |
| `ValueLaws.UserDecides` | scripts/config/symbol.c:359-368 | with a prompt that is shown, the user's value counts as far as the foremost prompt is shown |
| `ValueLaws.SomeCase` | scripts/config/symbol.c:83-93 | one of these cases always applies |
| `ValueLaws.DefaultText` | scripts/config/symbol.c:394-410 | a string, int or hex takes the text of the symbol its default names |
| `ValueLaws.NoText` | scripts/config/symbol.c:394-410 | and is empty without one |
| `ValueLaws.UserText` | scripts/config/symbol.c:397-400 | unless the user has set it and a prompt is shown |
| `ValueLaws.OtherValues` | scripts/config/symbol.c:322-340 | a symbol that is no bool or tristate counts as n in a condition, but for y and m; one without a type reads as its name |
| `ValueLaws.WrittenIff` | scripts/config/symbol.c:341-384 | SYMBOL_WRITE is set iff a prompt is shown, a default applies, or a select or imply is active |
| `ValueLaws.UnwrittenIsEmpty` | scripts/config/symbol.c:341-410 | a symbol that is not written is n or empty |
| `SymbolLaws.LimitsSurviveAssignment` | scripts/config/symbol.c:177-238 | setting a symbol does not move its own limits |
| `SymbolLaws.AssignmentTakesEffect` | scripts/config/symbol.c:459-512 | an in-range assignment takes effect iff no select is overruled by a dependency of n |
| `SymbolLaws.AcceptedTakesEffect` | scripts/config/symbol.c:459-512 | with the prompt conditions that menu_finalize stores, every accepted assignment takes effect |
| `SymbolLaws.AcceptedIff` | scripts/config/symbol.c:459-476 | and while the prompt is shown above the selects, every assignment that would take effect is accepted |
| `SymbolLaws.ReassertedValue` | scripts/config/symbol.c:478-512 | asserting the present value changes nothing iff the prompt is hidden or reaches it |
| `SaveReload.LoadedIsSame` | scripts/config/confdata.c:436-503 | user values taken from all written symbols that the reader accepts give the same values again iff no shown bool or tristate exceeds its prompt |
| `SaveReload.LoadForgets` | scripts/config/confdata.c:346-369 | what was set before a load has no effect after it |
| `SaveReload.SaveThenLoad` | scripts/config/confdata.c:886-930 | so does writing the file and reading it back |
| `SaveReload.LoadingChanges` | scripts/config/confdata.c:436-503 | a tristate with a prompt at m and a default of y is y, and m after saving and loading |
| `SaveReload.LoadingChangesSome` | scripts/config/confdata.c:436-503 | such values exist, with the file that says so |
| `SaveReload.WriteConfig` | scripts/config/confdata.c:886-930 | the walk, with the cached evaluator and SYMBOL_WRITTEN, writes one entry for each symbol to be written, and no other |
| `SaveReload.CalcLine` | scripts/config/confdata.c:900-908 | a symbol's entry is its solution value, and it has one iff SYMBOL_WRITE is set |
| `Choices.VisibleTwoValued` | scripts/config/symbol.c:187-209 | while a choice is y no member is visible at m |
| `Choices.ExactlyOne` | scripts/config/symbol.c:355-357 | a choice at y has its picked symbol at y and every other member at n |
| `Choices.OneMemberIff` | scripts/config/symbol.c:246-302 | some member is y iff the picked symbol belongs to the choice |
| `Choices.PickedIsVisible` | scripts/config/symbol.c:246-302 | whatever is picked is visible |
| `ChoiceLaws.ShownIsVisible` | scripts/config/symbol.c:187-209 | with the choice at y a member is visible iff one of its prompts is y, or m for a member that is no tristate |
| `ChoiceLaws.UserPicked` | scripts/config/symbol.c:290-293 | the user's symbol is picked if it is available |
| `ChoiceLaws.DefaultPicked` | scripts/config/symbol.c:252-260 | else the symbol of the first default whose condition holds and whose symbol is available |
| `ChoiceLaws.FirstMemberPicked` | scripts/config/symbol.c:262-266 | else the first member that is shown |
| `ChoiceLaws.NothingPicked` | scripts/config/symbol.c:268-301 | else none, and the choice is not at y |
| `ChoiceLaws.ModeIsValue` | scripts/config/symbol.c:352-393 | before it picks, a choice has the value of a symbol with its limits and user value, without defaults and implies |
| `ChoiceLaws.MandatoryHasOne` | scripts/config/menu.c:578-592 | a mandatory choice without modules has exactly one member at y as soon as one is shown, if its defaults name members |
| `ChoiceLaws.MembersOff` | scripts/config/symbol.c:352-393 | a choice at n has all members at n |
| `ChoiceLaws.MembersAtMod` | scripts/config/symbol.c:352-393 | at m, each tristate member that is shown and that the user has set is m, and all others are n |
| `Choices.ChosenMemberWins` | scripts/config/symbol.c:478-512 | choosing a visible member keeps the choice at y and makes that member the one |
| `Choices.ChoosingRefused` | scripts/config/menu.c:502-517 | a member can be chosen only while the choice is at y: tristate members are bounded by the choice, bool members of a tristate choice also require it to be y |
| `Choices.ChoiceTable.CalcChoice` | scripts/config/symbol.c:304-446 | the choice's value and pick are those of the specification, without disturbing finished members |
| `Choices.ChoiceTable.PickMember` | scripts/config/symbol.c:272-302 | the user's member if visible, else the default; the user flag stays iff every visible member has one |
| `Choices.ChoiceTable.ChoiceDefault` | scripts/config/symbol.c:246-270 | the first visible default whose condition holds, else the first visible member |
| `Choices.ChoiceTable.CalcAllVisible` | scripts/config/symbol.c:272-302 | the visibility of every member with the choice at y |
| `Choices.ChoiceTable.CalcVisibility` | scripts/config/symbol.c:177-238 | a member's visibility under the choice's final value |
| `Choices.ChoiceTable.CalcMember` | scripts/config/symbol.c:304-446 | one member becomes valid with its value; the choice is calculated on the way if needed |
| `Choices.ChoiceTable.MemberValue` | scripts/config/symbol.c:352-393 | a visible member is y iff it is the choice's value; a hidden one follows the user's m |
| `Choices.ChoiceTable.CalcMembers` | scripts/config/symbol.c:304-446 | members calculated in any order all hold their specified values |
| `Choices.ChoiceTable.SetMember` | scripts/config/symbol.c:478-512 | accepted iff the member is visible at y, whatever the choice is at; the choice's user value and the flags of all visible members are set |
| `Choices.ChoiceTable.Choose` | scripts/config/symbol.c:478-512 | after choosing a member whose prompts are as menu_finalize leaves them, recalculation gives y to it and n to all others; a refused call changes nothing |
| `MenuTree.Flatten` | scripts/config/menu.c:485-564 | flattening keeps the declaration order |
| `MenuTree.FinNode` | scripts/config/menu.c:285-564 | finalising a node and the siblings it absorbs keeps the declaration order, and consumes at least the node |
| `MenuTree.FinForest` | scripts/config/menu.c:410-411 | so does finalising a list of children |
| `MenuTree.FinAbsorb` | scripts/config/menu.c:412-481 | so does building an automatic submenu |
| `MenuTree.Reparent` | scripts/config/menu.c:555-559 | a whole list changes its parent and its last node is found |
| `MenuTree.Splice` | scripts/config/menu.c:554-563 | the children of a node become its next siblings, in memory |
| `MenuTree.FlattenList` | scripts/config/menu.c:485-564 | the pointer version leaves the flattened list |
| `MenuTree.Absorb` | scripts/config/menu.c:412-481 | the pointer version moves exactly the dependent run of siblings below the owner, each with the owner as parent |
| `MenuTree.AbsorbRun` | scripts/config/menu.c:440-475 | the loop finalises and adopts exactly the run of siblings that the tests accept |
| `MenuTree.AbsorbOne` | scripts/config/menu.c:471-474 | one sibling is finalised and joins the run under its new parent |
| `MenuTree.Detach` | scripts/config/menu.c:477-481 | the absorbed run is cut out of the sibling list and becomes the child list |
| `MenuTree.Finalize` | scripts/config/menu.c:285-564 | memory holds the finalised tree; the calls begin in declaration order, each node once |
| `MenuTree.FinalizeList` | scripts/config/menu.c:410-411 | the same for the loop over the children |
| `MenuTree.FinNodePrompted` | scripts/config/menu.c:485-564 | below a finalised node only prompted nodes have children |
| `MenuTree.ClimbUp` | scripts/config/confdata.c:918-929 | the climb through parents stops at the next node still to come, or at the root when none is |
| `MenuTree.Walk` | scripts/config/confdata.c:886-930 | the list, next, parent walk visits every node below the root once, in order |
| `MenuTree.FinalizeThenWalk` | scripts/config/menu.c:285-564 | finalising the root and walking finalises and visits every node exactly once in declaration order |
| `Preprocess.EnterCosts` | scripts/config/preprocess.c:251-277 | entering a variable uses up one unit of a finite budget, which is why expansion ends |
| `Preprocess.ExpandFewer` | scripts/config/preprocess.c:346-537 | expansion counters can only forbid: with smaller ones a successful expansion gives the same text |
| `Preprocess.PlainTextExpands` | scripts/config/preprocess.c:495-537 | text without references expands to itself |
| `Preprocess.ReferenceFails` | scripts/config/preprocess.c:453-537 | a failing reference fails the whole text |
| `Preprocess.SelfReferenceFails` | scripts/config/preprocess.c:251-277 | a variable that refers to itself is an error |
| `Preprocess.RunawayFails` | scripts/config/preprocess.c:251-277 | a function that calls itself for ever is an error, at whatever depth it starts |
| `MacroLaws.CloseIs` | scripts/config/preprocess.c:470-484 | the scan stops at a ')' iff what lies before it is balanced |
| `MacroLaws.SplitOf` | scripts/config/preprocess.c:376-393 | pieces with commas only inside parentheses, joined by commas, are split into those pieces |
| `MacroLaws.SplitIs` | scripts/config/preprocess.c:376-393 | and every text is split into such pieces, which joined give it back |
| `MacroLaws.ReferenceYields` | scripts/config/preprocess.c:495-537 | a reference yields its value in its place, between a plain text and whatever follows |
| `MacroLaws.NumberYields` | scripts/config/preprocess.c:358-366 | the decimal text of k is the k-th argument |
| `MacroLaws.TemplateExpands` | scripts/config/preprocess.c:346-537 | a text with any number of references to arguments gets each argument in its place, as it stands |
| `MacroLaws.ClauseCalls` | scripts/config/preprocess.c:376-424 | a clause calls what its first piece expands to, with what its other pieces expand to |
| `MacroLaws.SimpleYields` | scripts/config/preprocess.c:251-277 | a simple variable gives its value, not expanded again |
| `MacroLaws.FunctionYields` | scripts/config/preprocess.c:251-277 | a recursive one gives its value with the arguments of the call filled in |
| `MacroLaws.UnknownYields` | scripts/config/preprocess.c:413-424 | a name that is neither variable nor built-in gives the environment's value if it has no arguments, and else nothing |
| `MacroLaws.BuiltinYields` | scripts/config/preprocess.c:112-225 | a built-in function gives its result, and an error for any other number of arguments |
| `MacroLaws.CallInText` | scripts/config/preprocess.c:346-537 | a call in a text, from the text to the text: the function's value with the arguments in their places, between what stood around the call |
| `MacroLaws.TokenExpands` | scripts/config/preprocess.c:559-575 | a token is taken up to the first character that ends it |
| `Preprocess.ScanClose` | scripts/config/preprocess.c:453-488 | the offset of the matching closing parenthesis, or none |
| `Preprocess.Split` | scripts/config/preprocess.c:346-400 | the pieces between top-level commas |
| `Preprocess.Expander.ExpandString` | scripts/config/preprocess.c:495-537 | the cursor loop computes the expansion and restores every exp_count on success |
| `Preprocess.Expander.EvaluateClause` | scripts/config/preprocess.c:346-439 | so does the evaluation of a clause |
| `Preprocess.Expander.CallNamed` | scripts/config/preprocess.c:202-277 | so does the call of a variable, function or environment variable |
| `ConfLines.UnescapeEscape` | scripts/config/symbol.c:854-895 | unescaping what was escaped gives the text back, whatever follows the closing quote |
| `ConfLines.EscapeFillsBuffer` | scripts/config/symbol.c:861-895 | the escaped text and its terminator fill the measured buffer exactly |
| `ConfLines.MeasureEscaped` | scripts/config/symbol.c:861-873 | the first pass computes that size |
| `ConfLines.EscapeInto` | scripts/config/symbol.c:875-894 | the second pass fills the buffer with the escaped text |
| `ConfLines.ShiftDown` | scripts/config/confdata.c:265-265 | the overlapping move drops one character and keeps the rest |
| `ConfLines.UnescapeInPlace` | scripts/config/confdata.c:257-271 | the in-place loop leaves the unescaped text before a terminator, or fails iff no closing quote is found |
| `ConfLines.StringValid` | scripts/config/symbol.c:537-578 | accepts exactly the decimal and hexadecimal texts of the grammar |
| `ConfLines.SetSymVal` | scripts/config/confdata.c:230-289 | the user value stored for each type, and none for a malformed text |
| `ConfLines.ReadLineInPlace` | scripts/config/confdata.c:439-503 | what one line of a file sets, read in the line buffer |
| `ConfLines.ReadUnsetAt` | scripts/config/confdata.c:442-467 | what a comment line sets |
| `ConfLines.ReadAssignmentAt` | scripts/config/confdata.c:469-496 | what an assignment line sets |
| `ConfLines.ReadValue` | scripts/config/confdata.c:472-496 | the value text is cut at the line end, a carriage return included |
| `ConfLines.ReadConfig` | scripts/config/confdata.c:436-503 | the loop over all lines stores what the lines set, a later one over an earlier one |
| `ConfLines.WrittenLineReadsBack` | scripts/config/confdata.c:608-749 | a written bool, tristate, string, int or hex is read back with the same value, and an int or hex text that is not valid is not read |
| `ConfLines.NoteIgnored` | scripts/config/confdata.c:439-467 | a comment is ignored iff it does not begin as an unset line of a known bool or tristate |
| `ConfLines.WrittenFileReadsBack` | scripts/config/confdata.c:886-930 | a whole written file is read back to exactly the values of its entries that the reader accepts |
| `ConfLines.ValuesAre` | scripts/config/confdata.c:436-503 | with distinct names these are each entry's own value and nothing else |
| `TextLaws.IntTexts` | scripts/config/symbol.c:543-557 | an int text is read iff it is the decimal text of a number, or -0 |
| `TextLaws.IntReadsBack` | scripts/config/confdata.c:608-749 | the line written for any number is read back, negative ones included |
| `TextLaws.HexTexts` | scripts/config/symbol.c:558-566 | a hex text is read iff it is a row of hexadecimal digits in either case after 0x, 0X or nothing |
| `TextLaws.HexReadsBack` | scripts/config/confdata.c:608-749 | the line written for any number in any of these forms is read back |
| `TextLaws.TriReads` | scripts/config/confdata.c:235-256 | y, m and n are read as themselves, and a bool does not read m |
| `TextLaws.QuotedText` | scripts/config/confdata.c:257-271 | a quoted text is read iff a quote ends something that spells a text, and then as that text |
| `TextLaws.LineEnds` | scripts/config/confdata.c:472-479 | a carriage return and a newline, a newline, or the end of the file end a line alike |
| `TextLaws.UnknownSkipped` | scripts/config/confdata.c:480-489 | a name that the table does not have sets nothing |
| `TextLaws.WrittenForm` | scripts/config/confdata.c:608-749 | what the line of each type of symbol looks like, with CONFIG_ for the prefix |
| `TextLaws.QuotedForm` | scripts/config/confdata.c:731-749 | and that of a string without quotes and backslashes |
| `HashBlocks.FoldAppend` | scripts/mkhash.c:622-658 | hashing two runs of blocks in turn is hashing their concatenation |
| `HashBlocks.FoldPadded` | scripts/mkhash.c:573-599 | padding is one final block, or two when the length does not fit |
| `HashBlocks.AppendShort` | scripts/mkhash.c:622-658 | input that does not fill the pending block only extends it |
| `HashBlocks.AppendLong` | scripts/mkhash.c:622-658 | input that fills it: one block, then whole blocks, then a new tail |
| `HashBlocks.AppendAligned` | scripts/mkhash.c:310-343 | input on a block boundary |
| `HashBlocks.HighHalf` | scripts/mkhash.c:109-116 | digits of the upper half of a 64-bit number |
| `HashBlocks.LowHalf` | scripts/mkhash.c:109-116 | digits of the lower half |
| `Sha256.ChForm` | scripts/mkhash.c:450-450 | the program's Ch is that of section 4.1.2 of FIPS 180-4 |
| `Sha256.MajForm` | scripts/mkhash.c:451-451 | and so is its Maj |
| `Sha256.DecodeIsBigEndian` | scripts/mkhash.c:118-133 | a word is decoded big-endian |
| `Sha256.EncodeAt` | scripts/mkhash.c:424-431 | every word of the state can be read back from its place in the digest |
| `Sha256.EncodeVector` | scripts/mkhash.c:424-431 | the digest is the big-endian encoding of the state words in order |
| `Sha256.Rotates` | scripts/mkhash.c:489-501 | changing two cells and counting from one cell earlier is the register shuffle of section 6.2.2 |
| `Sha256.Rnd` | scripts/mkhash.c:489-493 | the three updates of a round, in the program's order of addition |
| `Sha256.RotatedRound` | scripts/mkhash.c:495-501 | one round at rotated indices is one round of the standard |
| `Sha256.SixteenRounds` | scripts/mkhash.c:514-530 | sixteen rounds, after which every register is in its own cell again |
| `Sha256.ExtendSchedule` | scripts/mkhash.c:503-549 | sixteen more words of the message schedule |
| `Sha256.DecodeBlock` | scripts/mkhash.c:437-444 | the first sixteen words of the schedule |
| `Sha256.Transform` | scripts/mkhash.c:457-563 | computes the block function of section 6.2.2 of FIPS 180-4, for every state and block |
| `Sha256.PendingBytes` | scripts/mkhash.c:628-629 | the bit count gives the number of pending bytes, even after it has wrapped |
| `Sha256.LengthForm` | scripts/mkhash.c:109-116 | the length field is the bit count modulo 2^64, big-endian |
| `Sha256.Context.constructor` | scripts/mkhash.c:602-618 | an empty context |
| `Sha256.Context.Update` | scripts/mkhash.c:622-658 | the context stands for the bytes so far followed by the new ones |
| `Sha256.Context.CompleteBlocks` | scripts/mkhash.c:649-654 | the loop over whole blocks folds the block function |
| `Sha256.Context.Pad` | scripts/mkhash.c:573-599 | the state becomes the fold over the padded message of section 5.1.1 |
| `Sha256.Context.Final` | scripts/mkhash.c:665-675 | the digest of everything hashed, and a wiped context |
| `Sha256.HashPieces` | scripts/mkhash.c:715-728 | however the input is cut, the digest is that of the whole message |
| `Md5.AuxForm` | scripts/mkhash.c:151-155 | the program's F, G, H, H2 and I are the functions of section 3.4 of RFC 1321 |
| `Md5.StepForm` | scripts/mkhash.c:160-163 | STEP computes the register that the RFC's step replaces |
| `Md5.FourSteps` | scripts/mkhash.c:211-281 | four unrolled lines are four steps and leave each register under its own name |
| `Md5.DecodeEncode` | scripts/mkhash.c:378-393 | output words are little-endian and lossless |
| `Md5.Context.OneBlock` | scripts/mkhash.c:205-286 | one turn of the loop is the RFC's transformation of a block |
| `Md5.Context.Body` | scripts/mkhash.c:189-297 | any positive number of blocks |
| `Md5.CountsAdd` | scripts/mkhash.c:316-319 | the 29-bit lo and the hi hold the byte count modulo 2^61, carry included |
| `Md5.LengthForm` | scripts/mkhash.c:366-374 | their eight bytes are 8 times the length modulo 2^64, little-endian |
| `Md5.Context.constructor` | scripts/mkhash.c:299-308 | an empty context |
| `Md5.Context.AddCount` | scripts/mkhash.c:316-319 | the counters after more bytes |
| `Md5.Context.Absorb` | scripts/mkhash.c:321-342 | the bytes: fill the pending block, then whole blocks, then a tail |
| `Md5.Context.Update` | scripts/mkhash.c:310-343 | the context stands for the bytes so far followed by the new ones |
| `Md5.Context.Pad` | scripts/mkhash.c:351-376 | the state becomes the fold over the padding of sections 3.1 and 3.2 of RFC 1321 |
| `Md5.Context.Final` | scripts/mkhash.c:345-396 | the digest of everything hashed, and a wiped context |
| `Md5.HashPieces` | scripts/mkhash.c:700-713 | however the input is cut, the digest is that of the whole message |
| `Cameo.FeedExact` | scripts/cameo-tag.py:82-87 | a byte clears the top byte of the CRC register iff it is the register's own low byte, and then shifts it down |
| `Cameo.SuffixMakesOnes` | scripts/cameo-tag.py:79-84 | a four-byte suffix makes the CRC 0xffffffff iff it is the inverted CRC, little-endian |
| `Cameo.TaggedAccepted` | scripts/cameo-tag.py:82-94 | the finished header passes the header CRC and the byte sum at once |
| `Cameo.ChecksumHeader` | scripts/cameo-tag.py:82-94 | every 64-byte header becomes one that passes both, with magic and bytes 8 to 31 kept |
| `Cameo.AppendedTagSums` | scripts/cameo-tag.py:116-117 | the appended tag sums everything from the rootfs offset up to itself |
| `Cameo.CameoSumIs` | scripts/cameo-tag.py:76-77 | the four bytes are the digits of the byte sum modulo 2^32, big-endian |
| `Cameo.CheckValue` | scripts/cameo-tag.py:79-80 | the model's CRC-32 has the standard's check value 0xcbf43926 |

## Left out

- Front ends (`conf.c`, `mconf.c`, `nconf.c`, `qconf.cc`, `lxdialog`), lexer and parser tables: user interface and generated automata; parsed expressions, properties and menus are the input.
- File handling, warnings, regular-expression search, `do_shell`, `getenv` and memory management: input and output, or no effect on a result; shell and environment answers are parameters, freed and shared nodes are not modelled.
- In-place node reuse of `expr_eliminate_yn`, `expr_transform` and `expr_trans_bool`: modelled on values, so which node objects survive is not captured; slot-by-slot overwriting is modelled for `expr_eliminate_dups1`.
- E_LIST, E_RANGE and `range` properties, hence `sym_validate_range` and `sym_string_within_range`: an int or hex has the value it would have without a range.
- `modules_val` while it is being recalculated, SYMBOL_CHANGED, SYMBOL_NO_WRITE and SYMBOL_NEED_SET_CHOICE_VALUES: the value of `modules` is a parameter of a configuration.
- Choices in the cycle check and the general evaluator: a choice is evaluated with the rest of the configuration fixed, and `sym_check_choice_deps` is not modelled; members have no defaults, as `menu_finalize` warns they should not.
- Several definitions of one symbol: the symbol's direct dependency is taken as one expression.
- Conditions in `MenuTree`: the information about a node is taken after propagation; the propagation itself is in `MenuConditions`.
- `variable_add`, clauses with 16 or more commas (an error here) and line and file built-ins with their positions: the variable store is given.
- Choice members in `conf_read_simple` (lines 505-523), `conf_touch_dep`, auto.conf and reading past the end of a line that is a lone '#' without a newline.
- Digest printing, file names and the directory walk of `mkhash.c`; its counters are numbers reduced modulo their width, and words are 32-bit vectors.
- Headers shorter than 64 bytes in `checksum_header`: slices of a short bytearray would append.
- ExprDups.EliminateDupsValue: holds for constants that do not clash; `ExprDups.EliminateDupsExact` shows the condition cannot be dropped.
- ExprKeys.ExprEqExact: for expressions without y or n operands; `ExprKeys.ConstantsBlur` shows what happens with them.
- ExprKeys.ExprEqSymmetric: likewise.
- ExprKeys.ExprEqTransitive: likewise; `ExprKeys.NotTransitive` shows that it fails with them.
- ExprKeys.ExprEqDocumented: likewise.
- ExprKeys.SecondIsYes: likewise.
- ExprTransform.TransBoolZero: one way; under an odd number of negations the values may still agree, for example beside an operand n.
- ExprTransform.TransCompareValue: comparison with y or n only; the callers never compare with m.
- MenuConditions.PropagateValue: needs constants that do not clash, because it runs `expr_eliminate_dups`.
- MenuConditions.SupersetTestSound: needs constants that do not clash, for the same reason.
- MenuConditions.SupersetTestExact: for conditions that test no bool against m, which `expr_transform` would turn into y or n operands.
- Submenus.RunIsMaximal: the owner's operands, for conditions that test no bool against m; mention and absolute dependency, for all.
- MenuConditions.SupersetTestBounds: for symbol leaves that are bool, tristate, y, m or n; a string leaf has no m to raise.
- MenuConditions.SupersetTestAccepts: one shape, without the condition of `SupersetTestExact`.
- SaveReload.SaveThenLoad: outside choices, and for lines that hold their names and texts: no newline, and no carriage return at the end of an int or hex.
- ConfLines.WrittenFileReadsBack: for such lines, and a prefix without a newline.
- Md5.StepForm: the step constants of the program and of the RFC are one table, as are those of SHA-256, so that they agree is not proved.
- MenuTree.Finalize: takes the conditions as already propagated, as said above.
- DependencyCheck.DepChecker.CheckDeps: without the branches for choices and choice values.
- Evaluator.SymbolTable.CalcValue: without ranges, choices and the update of `modules_val`.
- Numerals.HexCompare: for texts of numbers below 2^64; beyond, `strtoull` fails and texts are compared.
- MacroLaws.NumberYields: for k below 2^64, where `strtoul` saturates; a call has fewer than 16 arguments.
- MacroLaws.CallInText: for arguments without references; `MacroLaws.ClauseCalls` says what they are expanded to.
- ChoiceLaws.MandatoryHasOne: a default that names a symbol outside the choice is excluded, because then all members may be n (`Choices.OneMemberIff`).
- Evaluator.SymbolTable.ClearAllValid: without the recalculation of `modules_sym` that follows the loop.
- Evaluator.SymbolTable.SetTristateValue: without that recalculation, and outside choices.
- Choices.ChoiceTable.CalcChoice: without SYMBOL_WRITE, SYMBOL_CHANGED and SYMBOL_NEED_SET_CHOICE_VALUES, and for prompts that mention the choice, as `menu_finalize` makes them unless simplification removes it.
- Choices.ChoiceTable.CalcMember: without those flags, likewise.
