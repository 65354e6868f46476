# Verified models of the Rusty Penguin desktop

This project models the self-contained parts of the Rusty Penguin desktop that carry invariants, and proves what
the code and its comments promise about them. `dafny verify dfyconfig.toml` checks everything.

Code that changes state is modelled as code that changes state: classes with the source's fields, methods with the
source's loops, arrays where it works in place. Each such method is proved against a specification (a function or a
relation on values), and the theorems are lemmas about that specification, so they hold of every run of the methods.

* **Heap** (`MachineWords`, `FreeLists`, `FreeListHeap`). The first-fit allocator, with its headers in a word-addressed memory
  and 64-bit wrap-around arithmetic and bit masks written out. The free list is described by the bytes it covers; a list
  that is sorted and maximally coalesced is determined by them, and everything about frees follows from that. The block
  a method works on is known to the proof from ghost fields; the running code uses only `head`, `base`, `end`, `live`
  and memory.
* **TernaryJS** (`Tjs*`). The expression grammar as functions, the parser as an object with a token cursor, a printer
  that writes only the parentheses the binding powers demand; the interpreter as functions on scopes, output and ticks,
  and as an object updated in place by mutually recursive methods. `TjsRules` says once more what programs mean, as
  rules without ticks, limits or slots; `TjsAbstraction`, `TjsSoundness`, `TjsCompleteness` and `TjsAdequacy` prove that
  the interpreter does exactly what the rules derive.
* **CSS** (`Css*`). The character-level tokenizer, the parser, the declarations, and the cascade: insertion sort in an
  array followed by sequential overwriting, against a description of the winner per property; `CssLaws` says the same in
  terms of selector kinds, and reads printed colours, sizes and inline declarations back.
* **VFS** (`Vfs*`). Entries in memory, the disk as a map from names to contents, the manifest, boot, and the order of
  disk writes; crashes stop after any number of writes. `VfsBoot` describes all entries after a boot.
* **Minesweeper and balanced ternary** (`MineField`, `MineGame`, `BalancedTernary`).
* **Editor** (`Ansi`, `EditorText`, `Editor`). The escape-sequence decoder, the line buffer, and a flat text with one
  offset that the line buffer refines, key by key.
* **Video** (`VideoCodec`, `VideoPlayer`). Packer and player of the delta-coded container.
* **Screen** (`Pixels`, `Framebuffers`, `Pointers`). Pixel access, presenting through the brightness table, and the saved,
  drawn and restored pointer.

Properties that fail for some inputs are stated with the exact condition, and each comes with inputs that fail:

* `VfsLimits.WriteSurvivesReboot`: `EmptyFileIsLost`, `DirectoryNameIsLost`, and `ManifestOverflows`, where one file too
  many costs all of them;
* `BalancedTernary.ToBalancedTernary`: the lowest 64-bit integer;
* `Editor.SaveThenOpen`: `EmptyLastLineIsLost` and `CarriageReturnIsLost`;
* `Editor.OpenThenSave`: `LastNewlineIsLost`;
* `VideoPlayer.FramesFound`: `OddSoundMovesFrames`.

`FreeLists.RoundBlockHoldsRequest` says where block rounding would wrap around; no layout Rust can form gets there
(`FreeLists.RoundBlockIsRoundedUp`).

Where comments and code differ, the code is followed: the 16-bit length of the disk syscalls limits files to 65535 bytes
(`kernel/src/syscall.rs:550-579`), although `vfs.rs` writes any length, the manifest included; a saved document whose last line is empty, or that
has a carriage return at the end of an earlier line, does not open as it was saved; the packer counts whole samples, so
sound of any other length moves the frames away from where the player looks.

## Model

| member | source | states |
|---|---|---|
| FreeLists.AlignUpIsNextMultiple | desktop-metal/src/heap.rs:22-25 | the add-and-mask arithmetic gives the least multiple of a power of two that is not below the address, for every alignment, as long as the sum does not wrap |
| FreeLists.RoundBlockHoldsRequest | desktop-metal/src/heap.rs:27-31 | as a function on words, the rounded block size covers the request if and only if rounding does not wrap around, that is for every size up to 2^64 - 16 |
| FreeLists.RoundBlockIsLeast | desktop-metal/src/heap.rs:27-31 | for every layout the rounded size is the least positive multiple of 16 that holds the request |
| MachineWords.MaskRoundsDown | desktop-metal/src/heap.rs:22-25 | bitwise `and` with the complement of 2^k - 1 on 64-bit words is rounding down to a multiple of 2^k |
| FreeLists.CanonicalIsUnique | desktop-metal/src/heap.rs:9-14 | a sorted, 16-granular, maximally coalesced list is determined by the bytes it covers |
| FreeListHeap.Heap.Init | desktop-metal/src/heap.rs:51-61 | one block spans the arena, truncated to 16 bytes, and nothing is live |
| FreeListHeap.Heap.Alloc | desktop-metal/src/heap.rs:100-150 | the new region has the least size that is a positive multiple of 16 and holds the request, and the lowest suitably aligned address at which so many bytes are free; the result is 0 exactly when there is none; exactly these bytes leave the free list in memory, the list stays canonical, `live` is exact, and no byte of any live payload is written |
| FreeListHeap.Heap.Dealloc | desktop-metal/src/heap.rs:152-202 | freeing a live region, whose size is the least block for the layout's, returns exactly its bytes to a canonical list in all four coalescing cases; null is ignored, and no byte of any other live payload is written |
| FreeListHeap.Heap.Store | desktop-metal/src/heap.rs:64-83 | whatever the owner of a live region writes into it leaves the free list's headers intact |
| FreeLists.FirstFitIsLowest | desktop-metal/src/heap.rs:107-150 | walking the list in order and aligning inside each block finds the lowest aligned run of free bytes |
| FreeLists.PlacementInRange | desktop-metal/src/heap.rs:107-150 | none of the sums the search computes overflows, for any layout |
| FreeLists.AllocKeepsTiled | desktop-metal/src/heap.rs:107-150 | a successful allocation is aligned as asked, inside the arena and disjoint from every live region, and free blocks and live regions still tile the arena |
| FreeLists.AllocTakesLeast | desktop-metal/src/heap.rs:100-150 | an allocation takes the least granular block that holds the request, at the lowest aligned address where it is free, and fails exactly when no such run of free bytes exists; nothing else changes |
| FreeLists.EveryRunTiles | desktop-metal/src/heap.rs:9-14 | after any run of allocations and frees the invariant holds, live plus free bytes equal the arena, and with nothing live the list is one block |
| FreeLists.Conservation | tools/heap_fuzz.rs:140-146 | live bytes and free bytes add up to the arena |
| FreeLists.FreeListDetermined | desktop-metal/src/heap.rs:155-202 | two reachable states with the same live bytes have the same free list |
| FreeLists.FreeUndoesAlloc | desktop-metal/src/heap.rs:155-202 | freeing a region right after its allocation restores the state, free list included |
| FreeLists.FreesCommute | desktop-metal/src/heap.rs:155-202 | two frees lead to the same state in either order |
| FreeLists.FreeingAllReclaims | tools/heap_fuzz.rs:158-166 | freeing everything in any order leaves one block that spans the arena |
| VfsSpec.FlushedNames | desktop-metal/src/vfs.rs:214-227 | the manifest read back lists exactly the persistable files in memory |
| VfsSpec.RecoveredFile | desktop-metal/src/vfs.rs:251-287 | a boot recovers a user file exactly when the manifest lists it and its contents are on disk |
| VfsSpec.BootIsSynced | desktop-metal/src/vfs.rs:251-287 | a session starts with memory and disk in step |
| VfsBoot.BootDirectories | desktop-metal/src/vfs.rs:231-246 | after a boot, for every file loaded from the manifest and every slash in its name but a leading one, an entry named by the part before the slash exists; and every directory is such a part of a loaded name, the settings file included |
| VfsBoot.BootFiles | desktop-metal/src/vfs.rs:251-287 | every file after a boot but the settings: the contents on disk if the manifest lists the name and there are any, else the built-in contents, else nothing |
| VfsBoot.BootSettings | desktop-metal/src/vfs.rs:251-287 | a settings file with contents on disk is found after a boot if and only if the manifest lists it or no loaded file makes a directory of its name |
| VfsCrash.CrashAtomic | desktop-metal/src/vfs.rs:198-227 | for every operation that meets `Supported` (a manifest to be written fits 65535 bytes, contents of 1 to 65535 bytes, renames to fresh persistable names): stopped before or after any single disk write, the next boot finds all user files as before the operation or all as after it |
| VfsCrash.CompletedIsSynced | desktop-metal/src/vfs.rs:305-334 | a supported operation that runs to its end leaves memory and disk in step |
| VfsCrash.HistoryIsAtomic | desktop-metal/src/vfs.rs:198-334 | over every history of supported operations, crashes and reboots each event moves the user files to the operation's result or leaves them |
| VfsLimits.WriteSurvivesReboot | desktop-metal/src/vfs.rs:198-227 | a written file survives a reboot if and only if it has 1 to 65535 bytes and, under a known name, that name is not one that only a directory has, and, under a new name, the manifest with it has at most 65535 bytes or is cut off just behind a text equal to the name |
| VfsLimits.CutWrite | kernel/src/syscall.rs:550-579 | with a manifest of more than 65535 bytes a new file is found again if and only if its name is the piece in which the stored part of the manifest ends |
| VfsLimits.EmptyFileIsLost | desktop-metal/src/vfs.rs:33-50 | the first write of an empty file on a new machine is not found after a reboot |
| VfsLimits.DirectoryNameIsLost | desktop-metal/src/vfs.rs:198-212 | a file written under the name of a directory is not found after a reboot |
| VfsLimits.ManifestOverflows | kernel/src/syscall.rs:550-579 | on a new machine with 1259 files whose names have 51 characters, creating one more takes the manifest to 65564 bytes, and the next boot finds none of the 1260 |
| VfsObject.Vfs.WriteFile | desktop-metal/src/vfs.rs:198-212 | the new entries, the new disk and the order of the disk writes are those of the specification |
| VfsObject.Vfs.DeleteFile | desktop-metal/src/vfs.rs:305-316 | as above; the result says whether the name existed |
| VfsObject.Vfs.RenameEntry | desktop-metal/src/vfs.rs:318-334 | as above; contents go to the new name before the manifest is rewritten |
| VfsObject.EntriesAfter | desktop-metal/src/vfs.rs:289-334 | all entries after an operation, directories included: a write replaces the contents of its file in place or adds it last, a delete drops every entry of the name and keeps the others, a rename changes the name of the first entry called so and nothing else, a new directory comes last |
| VfsObject.Vfs.FlushManifest | desktop-metal/src/vfs.rs:214-227 | one disk write of the manifest of the entries |
| VfsObject.Vfs.LoadPersisted | desktop-metal/src/vfs.rs:251-287 | the loop over the manifest and the settings loads the entries that `Boot` has, of which `VfsBoot.BootDirectories`, `BootFiles` and `BootSettings` say what they are |
| TjsRoundTrip.ExprPrinted | desktop-metal/src/tjs.rs:586-733 | a printed expression anywhere in a token stream, followed by a token that cannot continue an expression, is parsed to the same tree and exactly its tokens are consumed |
| TjsShortest.ParserInvertsPrinter | desktop-metal/src/tjs.rs:586-733 | every tree printed with only the parentheses the binding powers demand is parsed back to itself |
| TjsShortest.PrinterIsInjective | desktop-metal/src/tjs.rs:586-733 | different trees have different printed forms |
| TjsShortest.PrintedFormIsShortest | desktop-metal/src/tjs.rs:586-733 | whatever tokens the parser accepts, the tree is well formed and its printed form is accepted as the same tree and is not longer |
| TjsOperators.OperatorTable | desktop-metal/src/tjs.rs:632-652 | each of the thirteen operator tokens between two variables makes the tree of its operator, with the operands in order |
| TjsOperators.LogicTable | desktop-metal/src/tjs.rs:632-636 | the same for `&&` and the two-bar operator |
| TjsOperators.TwoOperators | desktop-metal/src/tjs.rs:602-652 | of any two operators in a row the one on the tighter of the six levels is taken first, and of equally tight ones the left one |
| TjsParser.Parser.ParseExpr | desktop-metal/src/tjs.rs:586-600 | assignment: result, failure and cursor are those of the grammar |
| TjsParser.Parser.ParseBin | desktop-metal/src/tjs.rs:602-618 | the precedence-climbing loop computes the grammar's operator chain |
| TjsParser.Parser.ParsePostfix | desktop-metal/src/tjs.rs:669-702 | the loop over calls, members and indices computes the grammar's suffixes |
| TjsParser.Parser.ParsePrimary | desktop-metal/src/tjs.rs:704-735 | atoms, parentheses and array literals as the grammar has them |
| TjsSemantics.Eval | desktop-metal/src/tjs.rs:1089-1210 | evaluation ends within the step limit on every outcome, uses at least one tick, and leaves the names of every scope unchanged |
| TjsSemantics.Exec | desktop-metal/src/tjs.rs:974-1037 | execution ends within the step limit on success, error and return, keeps the scope depth, and adds to the innermost scope only names the statement introduces |
| TjsSemantics.ExecScoped | desktop-metal/src/tjs.rs:989-1018 | a block adds or removes no name in any enclosing scope, however it ends |
| TjsSemantics.Invoke | desktop-metal/src/tjs.rs:1236-1248 | a call leaves every scope's names unchanged, on success and on error |
| TjsSemantics.Run | desktop-metal/src/tjs.rs:944-972 | every program ends after at most `max_steps + 1` ticks with the global scope only |
| TjsBudget.StepsNeeded | desktop-metal/src/tjs.rs:944-951 | a program that ends needs a definite number of ticks: any limit from there on gives the identical run, any lower one runs out of steps |
| TjsAdequacy.ProgramsRunAsDerived | desktop-metal/src/tjs.rs:953-1294 | for every program, a flow, global variables and output can be derived by the rules of `TjsRules` exactly when the interpreter ends with them under some step limit |
| TjsAdequacy.DerivedFromALimitOn | desktop-metal/src/tjs.rs:944-972 | what can be derived is what happens under every limit from a definite one on; under every lower limit the program runs out of steps |
| TjsAdequacy.DerivationsAgree | desktop-metal/src/tjs.rs:953-1294 | the rules derive at most one end of a program |
| TjsAdequacy.FailuresAreUnderivable | desktop-metal/src/tjs.rs:953-1294 | a program that the interpreter stops with an error under any limit has no derivation |
| TjsAdequacy.ExpressionsEvaluateAsDerived | desktop-metal/src/tjs.rs:1089-1294 | for every expression and state, a value and effect can be derived exactly when the interpreter reaches them under some step limit |
| TjsSoundness.EvalSound | desktop-metal/src/tjs.rs:1089-1294 | every value the interpreter reaches has a derivation with the same effect on variables and output |
| TjsSoundness.ExecSound | desktop-metal/src/tjs.rs:974-1087 | the same for statements: branches, loops, blocks, declarations and returns |
| TjsCompleteness.EvalComplete | desktop-metal/src/tjs.rs:1089-1294 | for every derived value there is a step limit under which the interpreter reaches it with the derived effect |
| TjsCompleteness.ExecComplete | desktop-metal/src/tjs.rs:974-1087 | the same for statements |
| TjsAbstraction.BinOfIs | desktop-metal/src/tjs.rs:1251-1294 | the operators as the interpreter computes them, by a three-way comparison and in their order of operands, are those of the rules |
| TjsAbstraction.BindParamsIs | desktop-metal/src/tjs.rs:1233-1249 | parameters get their arguments in order, null where there is none, and the last of equal names counts |
| TjsAbstraction.StringLessIs | desktop-metal/src/tjs.rs:877-900 | comparing texts character by character decides on a proper prefix or the first difference |
| TjsAdequacy.ArithmeticIsWorth | desktop-metal/src/tjs.rs:1251-1294 | a tree of number literals under `+ - * / %` and negation takes one tick a node, changes nothing else, and yields the number it is worth, each operator applied to its left and right operand in this order |
| TjsAdequacy.OneComparisonHolds | desktop-metal/src/tjs.rs:1251-1294 | whenever `<` has a result so have the other comparisons of the same operands: exactly one of `<`, `===`, `>` is true, `<=` is `<` or `===`, `>=` is `>` or `===`, and `!==` is not `===` |
| TjsAdequacy.SwappedVariables | desktop-metal/src/tjs.rs:1251-1294 | swapping two variables swaps `<` with `>` and `<=` with `>=` and keeps `===`, if no two numbers are below each other |
| TjsInterp.Interp.EvalExpr | desktop-metal/src/tjs.rs:1089-1210 | result and state are those of `Eval`, which `TjsAdequacy.ExpressionsEvaluateAsDerived` ties to the rules |
| TjsInterp.Interp.RunStmt | desktop-metal/src/tjs.rs:974-1037 | result and state are those of `Exec`, the semantics of statements that `TjsAdequacy.ProgramsRunAsDerived` ties to the rules |
| TjsInterp.Interp.RunFor | desktop-metal/src/tjs.rs:1039-1066 | the `for` loop with its own scope, condition and step |
| TjsInterp.Interp.RunBlock | desktop-metal/src/tjs.rs:1068-1087 | function hoisting, then the statements up to the first return or failure |
| TjsInterp.Interp.CallExpr | desktop-metal/src/tjs.rs:1212-1249 | console output and function calls with freshly bound parameters |
| TjsInterp.Interp.DeclareName | desktop-metal/src/tjs.rs:829-836 | binds in the innermost scope only, replacing an earlier binding there |
| TjsInterp.Interp.SetName | desktop-metal/src/tjs.rs:846-855 | updates the innermost scope that has the name; unchanged when none has |
| CssText.Tokenize | desktop-metal/src/tcss.rs:51-92 | the cursor-based tokenizer yields the tokens of the recursive definition |
| CssParse.Parse | desktop-metal/src/tcss.rs:163-220 | the loops over preludes and blocks yield the rules of the recursive definition |
| CssParse.SheetReadBack | desktop-metal/src/tcss.rs:51-220 | a printed stylesheet of well-formed rules, with any white space and comments between its pieces, is parsed through the tokenizer to the same rules in the same order |
| CssParse.SelectorReadBack | desktop-metal/src/tcss.rs:132-147 | a printed selector is parsed back, whatever blanks precede it |
| CssLaws.InlineReadBack | desktop-metal/src/tcss.rs:284-294 | printed inline declarations, with any white space around names and values, are read back in order, with or without a last semicolon |
| CssValues.ApplyDeclSets | desktop-metal/src/tcss.rs:416-438 | a declaration sets the property it is effective for and no other one |
| CssValues.ApplyAllKeepsLast | desktop-metal/src/tcss.rs:416-438 | after applying declarations in order each property has the last effective value, or its old one |
| CssLaws.HexReadBack | desktop-metal/src/tcss.rs:339-365 | a colour printed as six hex digits, red first, is read back, whatever white space is around it |
| CssLaws.ShortColour | desktop-metal/src/tcss.rs:339-365 | three hex digits mean each digit doubled |
| CssLaws.SizeTiers | desktop-metal/src/tcss.rs:398-414 | a printed size in pixels, points or without unit is the small tier up to 12, the middle one up to 20, the large one above |
| CssLaws.WeightIsBold | desktop-metal/src/tcss.rs:416-438 | a printed weight is bold from 600 on |
| CssCascade.PackOrders | desktop-metal/src/tcss.rs:451-467 | one comparison of packed words orders specificities as the three counts in turn, each counted up to 255 |
| CssCascade.BestSpecIsBest | desktop-metal/src/tcss.rs:236-253 | a rule counts with its highest matching selector, and not at all exactly when none matches |
| CssCascade.SortEntries | desktop-metal/src/tcss.rs:255-268 | the in-place insertion sort yields a sorted permutation |
| CssCascade.ResolveWithBase | desktop-metal/src/tcss.rs:231-281 | for every property: the last effective inline declaration, else the last effective one of the matching rule greatest by specificity and source order among those that set it, else the base value; `CssLaws.KindDecides` says which rule that is |
| CssCascade.CascadeIsUnique | desktop-metal/src/tcss.rs:231-281 | that description leaves no choice of style |
| CssLaws.KindDecides | desktop-metal/src/tcss.rs:109-281 | without an inline declaration of it, a property comes from the last rule that sets it by an id selector; if there is none from the last one by a class, then by a tag, then by the universal selector; and from the base if no matching rule sets it |
| CssLaws.MatchingSelectors | desktop-metal/src/tcss.rs:121-130 | the selectors that match an element are its tag, its id, its classes and the universal one |
| CssCascade.DormantRulesAreIrrelevant | desktop-metal/src/tcss.rs:525-535 | leaving out every dormant rule never changes the resolved style, for any inline style and base |
| MineField.Neighbors | desktop-metal/src/app.rs:3860-3881 | the neighbours of a cell are found each once, and eight slots are enough |
| MineField.FloodIsReachability | desktop-metal/src/app.rs:3919-3931 | the flood is what can be reached from the start through cells without adjacent mines |
| MineGame.Minesweeper.Reveal | desktop-metal/src/app.rs:3906-3934 | on a safe hidden cell exactly the least set that spreads from zero counts to hidden unflagged neighbours is revealed; on a mine the game is lost; the call that places the mines never loses and keeps the first cell and its neighbours clear; the invariant is kept |
| MineGame.Minesweeper.Flood | desktop-metal/src/app.rs:3919-3931 | the stack loop ends and reveals exactly the flood |
| MineGame.Minesweeper.PlaceMines | desktop-metal/src/app.rs:3883-3904 | as many mines as asked, on accepted cells only, with exact counts around every other cell |
| MineGame.Minesweeper.ToggleFlag | desktop-metal/src/app.rs:3936-3944 | flips hidden and flagged while the game runs, and keeps the counters exact |
| MineGame.Minesweeper.Reset | desktop-metal/src/app.rs:3845-3856 | an untouched board |
| MineGame.OutcomesExclude | desktop-metal/src/app.rs:3906-3944 | in every reachable state the game is not both lost and won |
| MineGame.AllSafeShown | desktop-metal/src/app.rs:3932 | comparing the counter with the number of safe cells decides whether all of them are revealed |
| MineGame.FloodOpens | desktop-metal/src/app.rs:3921-3930 | one turn of the stack loop keeps what the flood's exactness needs |
| BalancedTernary.ToBalancedTernary | desktop-metal/src/app.rs:1335-1352 | for every 64-bit integer the text reads back as the number if and only if it is not the minimum, and is then canonical with at most 41 digits and a sign |
| BalancedTernary.FillDigits | desktop-metal/src/app.rs:1339-1348 | for every input, the lowest included, the digits weighted with 3^k sum to the number, at most 41 slots are used, no step overflows, and the leading digit of a non-zero number is not zero |
| BalancedTernary.CanonicalIsUnique | desktop-metal/src/app.rs:1349-1351 | every number has exactly one canonical text |
| BalancedTernary.SlotFree | desktop-metal/src/app.rs:1339-1340 | while a quotient is left, at most 40 slots are in use |
| Ansi.AnsiParser.Feed | desktop-metal/src/ansi.rs:31-59 | one step of the decoder |
| Ansi.SequencesDecode | desktop-metal/src/ansi.rs:1-14 | what the keyboard driver sends for any list of keys is decoded to those keys |
| Ansi.ReachableKeys | desktop-metal/src/ansi.rs:31-59 | exactly the lists of keys without a bare escape character can arrive |
| EditorText.LineBounds | desktop-metal/src/editor.rs:84-110 | the line of an offset in the joined text is the line the cursor stands in |
| EditorText.MergeLines | desktop-metal/src/editor.rs:114-124 | joining two lines removes exactly the newline between them |
| EditorText.BreakInLine | desktop-metal/src/editor.rs:150-158 | splitting a line inserts exactly one newline at the cursor's offset |
| Editor.TextEditor.SendKey | desktop-metal/src/editor.rs:84-197 | every byte edits the line buffer as its decoded key edits the flat text at one offset, with the cursor kept in the document; what each key does to that text is stated by the laws of `Editor` below |
| Editor.TextEditor.Paste | desktop-metal/src/editor.rs:130-149 | inserts the clipboard's newlines and printable characters at the cursor |
| Editor.TextEditor.SendKeys | desktop-metal/src/main.rs:2970-2976 | for every byte stream fed to the editor, its document is the flat one edited by the decoded keys |
| Editor.TypingInserts | desktop-metal/src/editor.rs:150-184 | typing inserts what the bytes show at the cursor and keeps the text on both sides |
| Editor.BackspacesUndo | desktop-metal/src/editor.rs:159-171 | one Backspace per inserted character restores text and cursor |
| Editor.DeletesUndo | desktop-metal/src/editor.rs:114-124 | one Delete per character, from the place where a text with any newlines was inserted, restores text, cursor and clipboard |
| Editor.DeleteIsRightBackspace | desktop-metal/src/editor.rs:114-124 | inside the text Delete is Right followed by Backspace and removes one character, line ends included; at the end of the text it does nothing |
| Editor.StepsAreInverse | desktop-metal/src/editor.rs:95-111 | Left and Right are inverse steps, over line ends too, and stop at both ends of the text |
| Editor.LineOfCursor | desktop-metal/src/editor.rs:112-129 | Home and End stand at the two ends of the stretch without newlines around the cursor, and Ctrl-C copies that stretch |
| Editor.VerticalMoves | desktop-metal/src/editor.rs:87-94 | Up and Down go to the same column of the neighbouring line or to its end if it is shorter, and stay on the first and the last line |
| Editor.KeptWhole | desktop-metal/src/editor.rs:130-149 | a paste keeps a text of newlines and printable characters whole |
| Editor.KeptDrops | desktop-metal/src/editor.rs:130-149 | a paste drops every other character and keeps the rest in order |
| Editor.ShownIs | desktop-metal/src/editor.rs:150-184 | a printable byte shows itself, both line-end bytes a newline, a tab four blanks, every other byte nothing |
| Editor.SaveThenOpen | desktop-metal/src/editor.rs:44-82 | a saved document opens to the same lines if and only if its last line is not an empty extra one and no earlier line ends in a carriage return |
| Editor.EmptyLastLineIsLost | desktop-metal/src/editor.rs:44-82 | the document of the lines "a" and "" does not open as it was saved |
| Editor.LastNewlineIsLost | desktop-metal/src/editor.rs:44-82 | a file that ends in a newline is changed by opening and saving it |
| Editor.OpenThenSave | desktop-metal/src/editor.rs:44-82 | a file opened and saved keeps its contents under exactly the same condition on its lines |
| VideoCodec.EncodeFrame | scripts/pack_rpv.py:18-35 | the loop over rising and falling edges yields the runs of changed pixels as segments, or fails exactly when a number does not fit 32 bits |
| VideoCodec.LowByteFirst | scripts/pack_rpv.py:32-33 | every number is written and read with its lowest byte first |
| VideoCodec.EdgesAreRuns | scripts/pack_rpv.py:23-28 | the edges of the padded change bits pair up to the runs of changed pixels |
| VideoCodec.EncodingIsTight | scripts/pack_rpv.py:29-35 | literals total exactly the changed pixels, no segment is empty, and every skip after the first is positive |
| VideoCodec.FrameRoundTrip | kernel/src/rpv.rs:66-85 | decoding the bytes of a frame over the previous one gives the frame and touches nothing behind it |
| VideoPlayer.Pack | scripts/pack_rpv.py:37-53 | the container, or a failure exactly where packing or reshaping raises |
| VideoPlayer.FormatExample | scripts/pack_rpv.py:37-53 | the bytes of a small file, one by one: magic, the seven header fields in order, sound, and two frames with their skips, counts and pixels |
| VideoPlayer.FramesFound | kernel/src/rpv.rs:129-135 | the player looks for the frames where they are if and only if the sound is a whole number of samples |
| VideoPlayer.OddSoundMovesFrames | scripts/pack_rpv.py:42-45 | with one byte of stereo sound the player looks for the frames one byte before their place |
| VideoPlayer.RecordFound | scripts/pack_rpv.py:46-52 | at its place in the file stands the length of a frame's segments and then the segments |
| VideoPlayer.Player.ApplyFrame | kernel/src/rpv.rs:66-85 | the in-place decoder computes the specification, a malformed stream included |
| VideoPlayer.Player.Advance | kernel/src/rpv.rs:158-172 | one step of playback for any opened file, in wrapping 64-bit arithmetic: the shown frame, the next offset, and whether the offset stays within the address range |
| VideoPlayer.Player.AdvancePacked | kernel/src/rpv.rs:158-172 | over a packed video the player shows the packed frames in order, over and over |
| Pixels.SetGet | desktop-metal/src/fb.rs:199-234 | setting a pixel changes that pixel to the colour's RGB and no other one |
| Pixels.BlueComesFirst | desktop-metal/src/fb.rs:199-234 | a colour 0xttRRGGBB is stored as blue, green, red, followed by 0xFF on 32-bit screens, and read back as 0x00RRGGBB |
| Framebuffers.Framebuffer.SetPixel | desktop-metal/src/fb.rs:211-234 | the bytes of one visible pixel and nothing else |
| Framebuffers.Framebuffer.SetBrightness | desktop-metal/src/fb.rs:114-123 | the brightness is clamped to 15 to 100 and the table dims every value in proportion |
| Framebuffers.Framebuffer.Present | desktop-metal/src/fb.rs:181-196 | the screen shows the whole backbuffer through the brightness table |
| Framebuffers.Framebuffer.PresentRows | desktop-metal/src/fb.rs:157-179 | exactly the rows asked for are copied |
| Pointers.SaveCursorBg | desktop-metal/src/main.rs:440-450 | saves the box around the pointer, with the background colour off the screen |
| Pointers.RestoreCursorBg | desktop-metal/src/main.rs:452-461 | writes the saved box back and nothing else |
| Pointers.DrawCursor | desktop-metal/src/main.rs:493-525 | arrow pixels and their one-pixel outline, nothing else, all within twenty rows |
| Pointers.RestoreRecovers | desktop-metal/src/main.rs:440-461 | after saving, drawing and restoring every visible pixel has the scene's RGB again |
| Pointers.PointerFrame | desktop-metal/src/main.rs:3516-3536 | when only the pointer moved, presenting the band it swept leaves the screen as a full present would, and the scene below is still held |
| Pointers.LiftPointer | desktop-metal/src/main.rs:3464-3465 | after any number of pointer frames, restoring gives the scene back |

## Left out

- `char` stands for one byte: texts are taken as ASCII, and `from_utf8` failures and multi-byte characters are not modelled.
- Error texts are not modelled, only that an operation fails; the interpreter's step limit is told from other errors.
- FreeListHeap.Heap.Alloc: `IsLayout` asks for power-of-two alignments and sizes that Rust's `Layout` allows; other arguments cannot reach the allocator.
- FreeListHeap.Heap.Dealloc: is given a region that is live, as the unsafe contract of the source demands.
- Heap memory is a map of 8-byte words at word-aligned addresses, as all header accesses are; `allocator.rs` (a lock that never contends) is not part of this model.
- Floating point: the numbers of TernaryJS are opaque and their operations a parameter, so nothing is said about rounding, `NaN` or number formatting.
- The lexer and the statement parser of TernaryJS: cursor code over the same tokens whose properties are those of the expression parser.
- `CMP_OPS`, a benchmark counter, and the memory limit when an array is grown by an index far beyond its end.
- TjsInterp.Interp.EvalExpr: the native stack's depth is not bounded by the model.
- VfsObject.Vfs.WriteFile: the disk below is a map from names to contents on which a write always succeeds; the on-disk layout, full disks and file names that are also directories there are not modelled.
- VfsCrash.CrashAtomic: covers operations that meet `Supported`, a condition on names, sizes and renames that can be checked before the call; renaming onto an existing name is outside it.
- Edited built-in files and the settings file are not among the user files: the source reloads them by other rules.
- CSS: attribute and combinator selectors and `@`-rules do not exist in the source's subset.
- MineGame.Minesweeper.PlaceMines: the random draws are arbitrary, but enough of them are acceptable; that a generator delivers such draws is not claimed.
- Minesweeper's keyboard cursor, random seed and redraw flags, and the editor's scroll position and file name, are left out: no modelled property depends on them.
- BalancedTernary.ToBalancedTernary: negation wraps as in a release build; a debug build stops on the minimum instead.
- The editor's mouse, scrolling and rendering are not part of this model; the clipboard is a field rather than a global.
- VideoPlayer.Player.Advance: sound output and the level it returns are left out. Files have fewer than 2^63 bytes, as Rust slices do; an index out of range, where the source stops, is reported by the result.
- Screens have 24 or 32 bits per pixel and rows at least as long as their pixels; other depths are accepted by the source but nothing can be drawn on them.
- Pointers.PointerFrame: the pointer's row is not negative, as the mouse driver keeps it; redrawing of terminal carets and popups within the same frame is not modelled. RGB is recovered, while the fourth byte of a 32-bit pixel becomes 255.
- The drag damage band, window management, rendering, the other applications, networking and the kernel beyond the video player: user interface or foreign calls.
