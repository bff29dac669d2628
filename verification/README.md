# The configuration compiler and the dependency scanner, in Dafny

`scripts/` turns a configuration script (`config.in`) into a Tcl/Tk program and keeps track of which source file
depends on which option. This project models its algorithms and proves what they are for. Code that the program runs
on linked lists, arrays and tables in place is modelled as methods on classes and arrays, each proved against a
function on sequences; the results below are about those functions.

**Conditional flattening** (`tkcond.c`). Nested `if`/`else`/`fi` become one flat list in which every statement carries
its own guard. `Conditions` holds the condition chains and their two readings: `test`, where `!` covers a comparison and
`-a` binds over `-o`, and the Tcl expression that the generator prints, where `!` binds to an operand and three
operators are not printed at all. `CondPasses`, `Inversion` and `Joining` are the passes on chains, `Statements` and
`Flattening` the pass on statements, and `CondLists`, `Scripts` and `FixLists` the same passes on `struct condition`
and `struct kconfig` nodes with their links, including that a joined guard shares no node with the condition stack.

How operands compare is a parameter of every result. For the shell that runs the nested script it need only fit the
current architecture and leave never-defined variables empty; the parser's names for the letters y, m and n in
dependencies are such variables to the shell. The generated program runs in another environment: it sets those names to
the letters, leaves the architecture empty, and prints y, n, m and the empty text as 1, 0, 2 and 4. `Meaning` reads the
nested script in the one and the flat list in the other, `Encoding` defines the program's own comparisons and says when
they are the shell's, and `ArchLoss` says when the missing architecture matters.

**Parsing** (`tkparse.c`). `Symbols` is the variable table, `Tokenizer` the tokenizer of conditions and which texts it
accepts, `DepGuards` the guards that are printed as text for `dep_bool`, `dep_mbool` and `dep_tristate` and then
tokenized.

`WholeScript` puts the parts together: from statements with lists of dependencies, over the guards built for them and
the flat list, to the generated program and its procedure.

**Code generation** (`tkgen.c`). `Menus` numbers the menus with a stack, `MenuRows` says what the walk over one menu and
the "Next" button must find in those numbers, `MenuTables` runs both on the statement list, and `FlatMenus` shows that
the flat list, which is all the generator sees, is a menu tree again; `WriteConfig` is the declaration discipline of the
procedure that saves a configuration, `Saving` what each kind of statement declares and reads there, and `TclText` which
variables Tcl reads from the texts printed into it.

**Dependency scanning** (`mkdep.c`, `split-include.c`). `WordReader` is the packed-word reader of both byte orders and
any word width, `Scanner` the goto automaton and the lexer it amounts to, `ScanTexts` what that reports on texts written
out, `ConfigCache` the string used as a set and the names of headers, `PathCollapse` the removal of `/../`,
`SplitInclude` the merge into one-line headers.

Kinds of statements, words, characters and numbers that decide what the program does are written out in the results
themselves (`Texts` turns texts into bytes), so that a result does not only repeat a table of the model.

## What the code does not do

Nine places do less than their comments or callers suggest. In each the code is kept, one lemma gives an input or a
family of inputs on which it fails, and another says exactly when it is right.

* The inversion at `else` rewrites tokens one by one (`MixedIsNotNegated`). It negates independent comparisons under
  every valuation if and only if the chain has one kind of connective (`FlipNegatesIffUniform`).
* The branch marked `/*???*/` in `eliminate_other_arch` makes a condition false although an `-o` follows
  (`QuestionBranchLosesAlternative`). The value is kept if and only if that branch is not reached with an `-o` behind
  it, or what it forgets is false as well (`EliminateKeepsValueIff`).
* A `mainmenu_name` inside an `if` gets no guard and stays in effect whatever the condition (`NameInIfIsUnguarded`).
  Under a false frame exactly the statements other than `mainmenu_name`, `source`, `then` and unknown ones are dropped
  (`DroppedIffFalseFrame`); outside of `if`s these do no harm.
* The generated program leaves the architecture empty, but a comparison with it survives the passes behind another
  comparison or a `!`, and is then read with the wrong value (`SurvivingArchIsLost`). For independent comparisons a
  surviving one makes no difference if and only if the architecture is empty, or is compared neither with its own name
  nor with the empty text (`ArchIsIrrelevantIff`).
* The generated program takes a value 1, 0, 2 or 4 for y, n, m or the empty text (`NumberIsTakenForLetter`). It
  compares two values as the shell does if and only if they are equal or are not the same number to it
  (`ComparesRightIff`); a letter or the empty text is confused with no other of them, and with another text if and only
  if that is its number (`LetterClashesIff`). When no surviving comparison confuses its values or asks for the
  architecture, the program runs as the script (`PrintedProgramRunsScript`).
* The procedure that saves a configuration declares no variable that it reads from a text printed into it: the value of
  a `define_hex`, `define_int` or `define_string`, a comment, the label of a choice or a constant in a condition, where
  `$NAME` is substituted (`ValueIsReadUndeclared`). Whatever is read was declared further up if and only if every
  variable in such a text is one that the same line or a line further up declares for itself
  (`DeclarationBeforeUseIff`).
* The scanner reads the zero bytes behind a file as input (`LastWordIsMissed`). The reports change if and only if there
  are such bytes, and one of the file's lexemes is an option word that ends where the file ends
  (`PaddingIsInvisibleIff`).
* The `/../` loop takes away whatever precedes a `..`, be it an empty component or `.` (`EmptyComponentIsTaken`). For
  paths that never climb above the root, the meaning is kept if and only if every `..` before the last component is
  matched, as brackets are, by a name (`CollapseKeepsMeaningIff`).
* `split-include` does not notice that reading an empty file leaves the previous file's line in its buffer
  (`EmptyFileIsMissed`). A header ends as its line if and only if it was not skipped with something else in it
  (`MergedIff`).

## Model

| member | source | states |
|---|---|---|
| WholeScript.PrintedProgramRunsScript | scripts/tkcond.c:423-550 | From dependencies to the program as it is printed: whatever the values, as long as no surviving comparison confuses two of them or asks for the architecture, the statements in effect, of every kind but `if`, `else` and `fi`, are exactly those that the structured interpreter reaches in the shell with every dependency y, empty, or (but for dep_bool) m, in its order |
| WholeScript.CompilerPreservesMeaning | scripts/tkcond.c:423-550 | The same for any shell and any program that give the surviving comparisons the same value |
| WholeScript.LettersMeanThemselves | scripts/tkparse.c:606-619 | In that theorem a dependency on y or on nothing is always satisfied, one on n never, and one on m unless the statement is a dep_bool |
| Meaning.FlatteningPreservesMeaning | scripts/tkcond.c:423-550 | For every script the code can handle, with the shell's comparisons for the nested script and the generated program's for the flat list: when both give the surviving comparisons the same value, all guards are readable as Tcl and the statements whose guards hold, whatever their kind, are those the structured if/else/fi interpreter reaches with their dependency satisfied, in its order |
| Encoding.ComparesRightIff | scripts/tkgen.c:745-750 | Two values are compared in the program, as numbers or as texts, as they are in the shell if and only if they are equal or not taken for the same number |
| Encoding.LetterClashesIff | scripts/tkgen.c:745-750 | A letter or the empty text is confused with no other of them, and with another text exactly if that is its number |
| Encoding.ClearIsAlike | scripts/tkgen.c:1429-1437 | Without such confusion, and without a comparison of the architecture or of a letter's name that survives in a condition, the printed program gives every surviving comparison the shell's value |
| Encoding.PrintedProgramPreservesMeaning | scripts/tkcond.c:423-550 | So flattening preserves meaning for the program as it is printed |
| Encoding.NumberIsTakenForLetter | scripts/tkgen.c:745-750 | Scripts of one comparison with y, n, m or the empty text and a value 1, 0, 2 or 4: a statement that the shell does not reach is in effect |
| Encoding.SurvivingArchIsLost | scripts/tkgen.c:1429-1437 | A two-comparison script and any architecture: a statement that the shell reaches is never in effect, because the program leaves the architecture empty |
| ArchLoss.ArchIsIrrelevantIff | scripts/tkgen.c:1429-1437 | For independent comparisons, exactly when a condition has the same value with the architecture known and empty, under every valuation of the other variables |
| Flattening.FlatteningKeepsReadings | scripts/tkcond.c:423-550 | Under any three readings (shell, dependencies, program) for which what is left of each condition has the shell's value, guards are readable and the effects are those of the structured interpreter, for every statement of whatever kind; only mainmenu_name, source, then and unknown statements may not stand inside an `if` |
| Flattening.OneKindIsFlattenable | scripts/tkcond.c:423-550 | Scripts whose conditions each have one kind of connective all lie in the domain of that theorem, `else` branches included |
| FixLists.FixScript | scripts/tkcond.c:423-550 | The loop on linked statements and conditions leaves, from the caller's own head pointer on, exactly the flattened script, in lists that share no node |
| FixLists.PushCondition | scripts/tkcond.c:453-458 | An `if` puts its condition on the stack, evaluated and without `!`, and the statement no longer owns it |
| FixLists.InvertTop | scripts/tkcond.c:460-487 | An `else` flips the nodes of the top frame in place; no other frame changes |
| FixLists.HangGuard | scripts/tkcond.c:493-540 | The guard hung on a statement is the join of the stack (and its own dependency), made of fresh nodes |
| FixLists.DropOne | scripts/tkcond.c:512-519 | Unlinking a statement removes it and nothing else; order and fields of the others stay |
| FixLists.MarkVariables | scripts/tkcond.c:39-70 | Afterwards exactly the variables of some statement are marked as defined, the kinds that never have a variable of their own apart |
| Flattening.DroppedIffFalseFrame | scripts/tkcond.c:493-546 | A statement is unlinked if and only if some enclosing frame is literally false and it is no mainmenu_name, source, then or unknown statement |
| Flattening.NameInIfIsUnguarded | scripts/tkcond.c:448-510 | A family of scripts on which that matters: a mainmenu_name inside an `if` stays in effect whatever the condition |
| Flattening.HeadKept | scripts/tkcond.c:442-549 | A statement outside every `if` is never unlinked, so the head of the list stays |
| Flattening.ElseNegates | scripts/tkcond.c:460-487 | Under `else` the frame that an `if` pushed has the opposite truth value of what was left of its condition, if that has one connective |
| Flattening.GuardMeans | scripts/tkcond.c:493-546 | A statement's guard holds exactly when all frames and its own dependency do, and it is dropped only if they do not |
| CondPasses.RemoveBangKeepsValue | scripts/tkcond.c:86-120 | Without its `!`s, at any number and position, a chain has no `!` left and the value it had under `test` |
| CondPasses.BangReadsDifferently | scripts/tkcond.c:86-90 | With a `!` left in place, Tcl and `test` disagree on some chain |
| Conditions.TclReadsPlain | scripts/tkgen.c:342-373 | A chain without `!` has the same value as a Tcl expression as under `test`, in any surroundings |
| Conditions.TclReadsGlue | scripts/tkgen.c:342-373 | Parenthesized chains joined by `&&` read as the conjunction of the chains |
| CondPasses.EliminateKeepsValue | scripts/tkcond.c:289-416 | Partial evaluation on the architecture and never-defined variables keeps the value and yields a constant or a chain |
| CondPasses.EliminateKeepsValueIff | scripts/tkcond.c:289-416 | Exactly when it keeps the value, for all conditions |
| CondPasses.EliminateForgets | scripts/tkcond.c:392-402 | When the question-mark branch is reached with an `-o` behind it, the result is false and the value is that of the alternatives behind the `-o` |
| CondPasses.NothingIsUndecided | scripts/tkcond.c:289-416 | What is left of a condition never begins with `$var = "text"` for a never-defined variable, nor with a comparison of the architecture, unless that is a false one behind which a `-a` and further on a `-o` stand |
| CondPasses.QuestionBranchLosesAlternative | scripts/tkcond.c:392-402 | A three-comparison condition that holds and is evaluated to false |
| CondPasses.UniformIsSafe | scripts/tkcond.c:289-416 | On chains with one connective that branch does no harm, and what is left is a constant or a chain of the same connective without constants |
| CondPasses.FlipNegates | scripts/tkcond.c:460-487 | On chains with one connective the token-by-token flip is De Morgan's law |
| Inversion.FlipNegatesIffUniform | scripts/tkcond.c:460-487 | For independent comparisons the flip negates under every valuation if and only if there is one kind of connective |
| Inversion.MixedIsNotNegated | scripts/tkcond.c:475-484 | A condition with both connectives that holds together with its inversion |
| Joining.JoinIsConjunction | scripts/tkcond.c:128-280 | A false frame gives the lone false token; otherwise the guard is well-formed Tcl whose value is the conjunction of all frames, true frames and the empty guard counting as true |
| Joining.NukedGroups | scripts/tkcond.c:217-277 | What is printed of a guard after nuking is the groups without those that recur later |
| Joining.RepeatedChangeNothing | scripts/tkcond.c:217-277 | Leaving out repeated groups never changes the value |
| Joining.NoGroupSurvivesTwice | scripts/tkcond.c:217-277 | No two surviving groups compare the same variable by the same operator with the same text |
| CondLists.RemoveBangList | scripts/tkcond.c:91-120 | The unlinking loop computes the chain without `!`s from the nodes it was given |
| CondLists.EliminateList | scripts/tkcond.c:289-416 | The recursive list surgery computes the partially evaluated chain, a suffix or a single node of the given list |
| CondLists.FlipList | scripts/tkcond.c:460-487 | The in-place loop computes the flipped chain on the same nodes |
| CondLists.NukeList | scripts/tkcond.c:217-277 | The nested in-place loops compute the guard with the repeated groups nuked |
| CondLists.JoinList | scripts/tkcond.c:128-280 | The joined list is made of fresh nodes and holds the join of the stack; the stack's lists are unchanged |
| Symbols.InterningIsStableBijection | scripts/tkparse.c:80-101 | Over any sequence of calls, indices are in range and stand for their names, two calls agree exactly when the names are equal, and names known before keep their index |
| Symbols.VariableTable.GetVarnum | scripts/tkparse.c:80-101 | The table with its growth by blocks does what interning does; a known name changes nothing |
| Symbols.VariableTable.ClearGlobals | scripts/tkgen.c:263-268 | No variable counts as declared afterwards; names and definedness stay |
| Tokenizer.TokenizeIf | scripts/tkparse.c:205-323 | A text is accepted if and only if it splits into lexemes each of which may follow the one before; then the list holds their tokens with variables interned from left to right |
| Tokenizer.LexIfIsWritten | scripts/tkparse.c:205-323 | A text is read as these lexemes if and only if it is written with them: any blanks and tabs, or none, in between, anything behind the bracket, and no `!` run into a `=` |
| Tokenizer.OrderedIff | scripts/tkparse.c:241-290 | What the loop checks from one lexeme to the next says of each place what may stand there |
| Tokenizer.AcceptsIff | scripts/tkparse.c:205-323 | A condition is accepted if and only if it is written with lexemes in their places |
| Tokenizer.WrittenChainIsRead | scripts/tkparse.c:205-323 | Every chain of comparisons with at most one `!` each, written down with any gaps, is accepted and tokenized as itself |
| DepGuards.FakeIfIsRead | scripts/tkparse.c:651-672 | The text printed for a dependency is accepted, interns nothing new, and yields a chain that holds exactly if the variable is y or empty or, unless for dep_bool, m |
| DepGuards.BuildGuard | scripts/tkparse.c:630-681 | The list built for a dependent statement is one parenthesized group per dependency, joined by `&&`; under every valuation it is readable and holds exactly if each dependency, a literal m of a dep_tristate apart, is y, empty or, unless for dep_bool, m |
| DepGuards.GuardMeansDependencies | scripts/tkparse.c:601-681 | That guard is never malformed, has the form flattening expects, and holds exactly when every dependency is y or empty (dep_bool) or y, m or empty (the others) |
| Menus.NumberingRecoversTree | scripts/tkgen.c:1150-1210 | A menu tree is accepted if and only if it is less than 64 deep, has less than 100 menus and no option stands outside the menus; then the tables hold each menu's two ends, its parent, and every statement's menu |
| Menus.AcceptedIffFaultless | scripts/tkgen.c:1150-1210 | Any list of statements is accepted if and only if, counting menus opened and closed before it, nothing is wrong with any statement; then exactly the statements inside of menus, of the kinds that have a number, have one |
| Menus.FirstProblemIsReported | scripts/tkgen.c:1161-1202 | Otherwise the program stops at the first statement that something is wrong with, and says what it is |
| Menus.AcceptedIsForest | scripts/tkgen.c:1150-1210 | Every accepted list that closes its menus is a menu tree |
| Menus.BodyBetweenMarks | scripts/tkgen.c:1161-1183 | The two marks of a menu enclose exactly its body, and no statement outside carries its number |
| MenuTables.MenuTable.Number | scripts/tkgen.c:1150-1210 | The pass over the statement list with its array of open menus fills the tables and the statements' numbers so, or reports the error at the first offending statement |
| FlatMenus.FlattenedIsForest | scripts/tkcond.c:423-550 | If menus nest within the blocks of a script, the flat list that the generator is given is the flattening of a proper menu tree: a menu's two ends are dropped together or kept together |
| FlatMenus.PartKinds | scripts/tkgen.c:1150-1160 | The flattened script on the heap is a statement list of those kinds, as the pass over the menus expects |
| MenuRows.WalkIsExact | scripts/tkgen.c:1239-1357 | The rows of a menu are exactly its questions, choices, comments and submenus (its first comment only names it), in order, numbered from 0 without gaps, and a row opens the menu that starts at it |
| MenuRows.NamingIsFirst | scripts/tkgen.c:1266-1280 | The comment that only names its menu is the first that carries the menu's number, if there is one |
| MenuTables.MenuTable.FindSubmenu | scripts/tkgen.c:1257-1259 | The search over parent numbers stops exactly at the menu whose head is the current statement |
| MenuTables.MenuTable.Walk | scripts/tkgen.c:1239-1357 | The pointer walk with its jumps over submenus yields those rows, gives their statements their lines and the naming comment line -1, and touches the lines of this menu's statements only |
| MenuRows.NextParentIsOnPath | scripts/tkgen.c:1161-1183 | In preorder the parent of the next menu is the menu itself, a menu around it, or the top level |
| MenuRows.ClimbIsExact | scripts/tkgen.c:156-176 | The windows closed are exactly the menu and those around it that are not around the next menu |
| MenuTables.MenuTable.Teardown | scripts/tkgen.c:156-176 | The ancestor loop ends and names those windows, innermost first |
| MenuTables.MenuTable.Windows | scripts/tkgen.c:1132-1363 | For every balanced script the whole generation succeeds exactly within the limits and delivers each menu's rows and closed windows |
| WriteConfig.DeclarationBeforeUseIff | scripts/tkgen.c:652-886 | Whatever the procedure reads was declared further up if and only if every variable read from a text in line k is declared by some line up to k for its own statement, condition or dependencies |
| WriteConfig.DeclarationBeforeUse | scripts/tkgen.c:652-886 | In any case whatever it reads was declared further up, unless a text of the script reads it |
| Saving.ExactlyThese | scripts/tkgen.c:652-886 | The procedure declares exactly what the statements want declared by their kinds, and reads exactly what the lines of their kinds read: answers, dependencies, values of definitions, choices, conditions and texts |
| WriteConfig.ValueIsReadUndeclared | scripts/tkgen.c:841-855 | `define_int X $Y` in front of the question about Y: the second event of the procedure reads Y, and nothing before it declares Y |
| WriteConfig.DeclaredOnceOutside | scripts/tkgen.c:652-708 | Every declaration stands outside of all conditions, and no configuration variable is declared twice |
| WriteConfig.ChoiceIsRead | scripts/tkgen.c:676-678 | A name in a text stands for the number of a choice exactly if it is the name under which that number is declared |
| TclText.WrittenNamesAreRead | scripts/tkgen.c:857-863 | Round trip: from a text written piece by piece of characters, protected characters, `$name` and `${name}`, exactly those names are read, in order |
| WholeScript.FlattenedIsParsed | scripts/tkcond.c:423-550 | Flattening hands to the generator statements as the parser delivers them: no variable outside the table gets into a guard, and `if`, `else`, `fi` and menu marks keep their index 0 |
| WholeScript.FlattenedIsDeclared | scripts/tkgen.c:652-886 | So the if-and-only-if for declarations holds of every script that the parser delivers and flattening has gone over, menus and conditions included |
| WholeScript.MenuScriptIsParsed | scripts/tkparse.c:495-510 | A script with a menu, an `if`, an `else` and a `fi` is among them |
| WriteConfig.Generate | scripts/tkgen.c:652-886 | One statement's declarations, driven by the flags in the variable table, are those still missing, followed by its line with everything that it reads, texts included |
| WriteConfig.Dump | scripts/tkgen.c:1456-1482 | The loop over a script, from cleared flags, emits the procedure of the whole script |
| WordReader.Reader.GetNext | scripts/mkdep.c:312-331 | In both byte orders and for every word width the register's current byte is the next byte of the padded file, and nothing behind the padding is read |
| Scanner.AutomatonIsLexer | scripts/mkdep.c:367-532 | On every input the goto automaton reports exactly what the declarative lexer reports |
| ScanTexts.OptionIsReported | scripts/mkdep.c:513-530 | Wherever the word `CONFIG_` stands, not behind a character of names, the characters of names behind it are reported as the option used |
| ScanTexts.OptionText | scripts/mkdep.c:513-530 | The text `CONFIG_`, any name of digits, letters and underscores, and one other byte: exactly that name is reported |
| ScanTexts.OptionInWordIsNone | scripts/mkdep.c:513-516 | Behind a character of names the word `CONFIG_` is no option |
| ScanTexts.DefinedIsNotUsed | scripts/mkdep.c:486-511 | `#define CONFIG_name` and `#undef CONFIG_name`, with any blanks and tabs, report nothing |
| ScanTexts.IncludeIsReported | scripts/mkdep.c:423-467 | `#include` and a name in quotes or angle brackets reports the name and which search it starts |
| ScanTexts.CommentIsSkipped | scripts/mkdep.c:394-405 | Nothing is reported from `/*` to the first `*/` |
| ScanTexts.QuotedIsSkipped | scripts/mkdep.c:386-421 | Nothing is reported from a quote to the next one that no backslash protects |
| ScanTexts.OtherIsSkipped | scripts/mkdep.c:374-384 | A byte that begins none of these is passed over |
| Scanner.CommentEndsAtFirst | scripts/mkdep.c:367-532 | A comment ends at the first `*/` behind its opening, or never |
| Scanner.QuoteEndsAtFirst | scripts/mkdep.c:367-532 | A literal ends at its first quote not preceded by an odd number of backslashes, or never |
| Scanner.PaddingReports | scripts/mkdep.c:560-576 | What the zero bytes up to the next word add to the reports: the option of a lexeme that is an option word at the end of the file, and otherwise nothing |
| Scanner.PaddingIsInvisible | scripts/mkdep.c:560-576 | A file that does not end in a word byte, such as one ending in a newline, reports the same for every word width |
| Scanner.PaddingIsInvisibleIff | scripts/mkdep.c:560-576 | Padding leaves the reports as they are if and only if it is empty or no lexeme of the file is an option word, not part of a longer word, that ends where the file ends |
| Scanner.LastWordIsMissed | scripts/mkdep.c:560-576 | A file that is one option word reports nothing by itself and its option once it is padded |
| Scanner.StateMachine | scripts/mkdep.c:367-532 | Reader and automaton together report, for both byte orders and every width, what the lexer reports on the zero-padded file |
| ConfigCache.StringIsSet | scripts/mkdep.c:106-142 | In the string built from any newline-free names, the search finds exactly those names |
| ConfigCache.Cache.IsDefined | scripts/mkdep.c:106-117 | A name is found if and only if it was defined since the string was last cleared |
| ConfigCache.Cache.Define | scripts/mkdep.c:90-131 | Adding a name, with whatever growth that needs, adds it to the set and forgets none |
| ConfigCache.Cache.Clear | scripts/mkdep.c:138-142 | The set is empty afterwards |
| ConfigCache.NameHeader | scripts/mkdep.c:276-290 | The character loop over an option's name computes the name of its header: a slash for every underscore, the small letter for every capital, and every other byte as it is |
| ConfigCache.HeaderIsSharedIff | scripts/mkdep.c:283-290 | Two options share a header if and only if they differ at most in the case of letters and in underscores against slashes |
| ConfigCache.HeaderIncludeIsUse | scripts/mkdep.c:195-203 | Including `config/`, an option's header and `.h` makes known what the use of the option makes known |
| ConfigCache.WrittenAreUsed | scripts/mkdep.c:276-300 | Every header written is that of an option used |
| ConfigCache.EveryUseWrittenOnce | scripts/mkdep.c:276-300 | Each option is written at most once per file, and every used option is written unless its header was included before |
| ConfigCache.DependOn | scripts/mkdep.c:539-585 | From the bytes of a file to the option headers written for it, each of them that of an option used in it |
| PathCollapse.Collapse | scripts/mkdep.c:221-224 | The in-place loop ends, and leaves the text of what a stack of components leaves; it fails exactly when there is nothing to take away |
| PathCollapse.CollapseKeepsMeaningIff | scripts/mkdep.c:206-224 | For paths that stay below the root, the lexical meaning is kept if and only if every `..` before the last component has a name before it with balanced components and `..`s in between |
| PathCollapse.TakesNamesIff | scripts/mkdep.c:221-224 | What the loop takes away is always a name if and only if every `..` of the path is matched by one |
| PathCollapse.EmptyComponentIsTaken | scripts/mkdep.c:221-224 | Behind a name and an empty component or `.`, a `..` takes away the latter, and the path means something else |
| PathCollapse.CollapseOfNames | scripts/mkdep.c:206-224 | Without empty or `.` components the meaning is kept, no `..` is left before the last component, and a path that ends in a name comes out fully resolved |
| PathCollapse.EveryPathSplits | scripts/mkdep.c:206-217 | Every absolute path is the text of some components |
| SplitInclude.FiveCases | scripts/split-include.c:7-20 | When each option has one line and old headers hold their own lines, every option's header ends as its line and is written exactly if it was not that, every other header ends empty and is written exactly if it was not, and nothing else changes |
| SplitInclude.MergedIff | scripts/split-include.c:105-168 | Whatever the old headers hold, exactly when an option's header ends as its line |
| SplitInclude.EmptyFileIsMissed | scripts/split-include.c:129-138 | A family of old headers with which an empty header is wrongly left empty |
| SplitInclude.NamesAgree | scripts/split-include.c:116-127 | A line that sets an option, which a blank, tab, newline or any other of the six space characters ends, is merged into the file that mkdep makes the users of that option depend on; both programs' character loops are proved to compute that name |
| SplitInclude.LinesAgree | scripts/split-include.c:105-127 | The texts `#define CONFIG_`option` 1` and `#undef CONFIG_`option, for every option made of characters of names, are lines of that option and go into its header |
| SplitInclude.Directory.MergeAll | scripts/split-include.c:100-173 | The loop over the new lines merges each and returns the target list as one newline-separated string |
| SplitInclude.Directory.Clean | scripts/split-include.c:177-220 | The loop over the headers found empties those that are not in that string |
| SplitInclude.Split | scripts/split-include.c:100-223 | Both loops together compute the final files and the files written, in order |

## Left out

- DepGuards.BuildGuard: dependency names contain no double quote and fit the 1024-byte buffer, since the code prints them between quotes unchecked.
- ConfigCache.DependOn: no include is `config/` followed by fewer than two characters, since the code computes a negative length for it.
- Meaning.FlatteningPreservesMeaning: the condition stack has 32 entries, conditions are chains of comparisons with at most one `!` each, and every `if` has at most one `else`; the code checks none of this.
- FixLists.FixScript: statement nodes carry a sequence of condition nodes as ghost state to say what they own; freeing nodes is not modelled.
- MenuTables.MenuTable.Walk: the radio buttons of choice items, which have no row of their own, and the Tcl text of rows are not modelled.
- WriteConfig.DeclarationBeforeUseIff: the names in the variable table are words of letters, digits and underscores other than the procedure's own variables, and texts run no command in brackets; the code checks none of this.
- WriteConfig.Generate: statements and their conditions are values here, because this pass only reads them; the flags in the variable table are changed in place.
- SplitInclude.Directory.MergeAll: the target list is a growing sequence instead of a buffer sized beforehand; making the directories of a header is not modelled, nor lines without a final newline.
- PathCollapse.Collapse: a path with nothing left to take away makes the program follow a null pointer; the method returns false.
- Files, memory mapping, `access`, `realpath`, `popen` and process exit: files are byte sequences or a map from names to contents, syntax errors are results.
- The search of the include path in `handle_include` and the Makefile text around the dependency list.
- `get_qstring` escaping, `unset` with several names, backslash continuation, choice defaults and the statement parser around `tokenize_if`.
- The Tcl/Tk widget text. Which texts Tcl takes for numbers is a parameter of the results, apart from 0, 1, 2 and 4; constants in conditions are compared as they are written, without substitution.
- `update_menu`, `update_define` and the other generated procedures. Their declarations do not follow the same discipline: those for dependencies stand inside the condition and set no flag, and that for the `$NAME` default of an int or hex stands inside the condition but sets the flag, so that a later read outside of it can be undeclared.
- `docproc.c` and `mkconfigs.c`: filters with easy claims only.
- `include/`, `examples/`, `rtos/` and `obsolete/`: prototypes, one-expression macros and samples.
