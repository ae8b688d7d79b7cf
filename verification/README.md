# C-flat: a verified model of its interop and resource core

C-flat is a compiler that imports C and C++ headers through clang. This project models the parts of it
that are algorithms in their own right, and proves what they promise. Clang declarations are graph
nodes with fixed edges and fixed faults, source text is a sequence of characters or tokens, and files
are sequences of bytes. Code that changes state in place is modelled by classes and loops proved
against functions; what those functions promise is proved as lemmas.

- **The C++ demand engine.** `ErrorReach` is the memoised, depth-capped search for error-bearing bodies.
  `IncludeReach` answers which headers a request's roots reach, from a versioned memo. `DemandCheck` is
  the worklist walk behind `CheckDemand`, with its rollback and the verdicts it remembers. `DemandUnit`,
  `DemandRounds` and `DemandPass` are the pass that emits a demanded module: the walk before it, the
  round-based fixpoint that feeds CodeGen, and the whole. `Reachability` is the graph theory they share.
- **Rewriting and layout.** `AliasRewrite` replaces nested specialization names by aliases, and
  `AliasMeaning` says which. `BlamedDeclarations` and `RetryTag` are the retry protocol of a failed chunk,
  and `RetryMeaning` reads what it drops and renames off the text (`SourceLines`, `DecimalText` and
  `TextSearch` hold their text basics). `FlatLayout` turns a class hierarchy into one flat field list.
  `StdFunctionSpelling` takes a `std::function` spelling apart.
- **The resource serializers.** `Utf16`, `VersionQuad`, `ResourceBytes`, `VersionBlocks` and
  `VersionInfo` build the version resource; `IconFiles` and `WindowsRes` the .res container; `IcnsFile`
  and `InfoPlist` the macOS files. Each has a reader written independently of the writer, and
  `ResourceMeaning` says what those readers find, name by name.
- **The argument normaliser.** `ArgNormalizer` is the command-line parser and the canonical spelling it
  records; `ArgMeaning` is what a command line means.

Where the code does not keep what it or its comments claim, the model keeps the code as it is. A lemma
then gives a concrete input and another says exactly when the claim holds:

- a memo entry made while its function was still being walked can be wrong
  (`ErrorReach.InProgressEntryMisleads`, `ErrorReach.CleanEntriesRightIff`);
- a newline in a root's name makes two root lists share a memo entry
  (`IncludeReach.NewlineRootMisleads`, `IncludeReach.AlwaysCurrentIff`);
- after an out-of-line body failed, a caller of its other declaration can be accepted
  (`DemandCheck.RedeclarationHidesFailure`, `DemandCheck.RunsAreRightIff`);
- a blamed declaration at the end of a chunk whose braces never close is kept
  (`BlamedDeclarations.OpenTailIsKept`, `BlamedDeclarations.BlamedIsKeptIff`);
- the comment says that invalid bytes become U+FFFD, but overlong forms are read
  (`Utf16.OverlongIsAccepted`, `Utf16.InvalidIsReplacedIff`);
- between two bases the deeper one takes a field's name, although the comment says a derived field wins
  (`FlatLayout.DeeperBaseTakesTheName`, `FlatLayout.HiddenNameIff`);
- a field may be spelled like a name reserved for vptrs and hidden fields
  (`FlatLayout.ReservedNameClashes`, `FlatLayout.NamesAreUniqueIff`);
- a registered name that is also a reserved spelling does not survive normalisation
  (`ArgNormalizer.ReachableFails`, `ArgNormalizer.ReproducesIffSound`).

`dafny verify dfyconfig.toml` checks the whole project.

## Model

| member | source | states |
|---|---|---|
| ErrorReach.FalseAnswerIsRight | cflat/CClangExtract.cpp:6266-6343 | On an empty memo a `false` answer means no error-bearing body is reachable, on any call graph, cyclic ones included, and despite the depth cap |
| ErrorReach.TrueRunJustified | cflat/CClangExtract.cpp:6285-6343 | A `true` answer, and every `true` entry a run leaves, is justified: an error is reachable, or a chain of calls more than 64 deep whose functions are distinct, except that the last may repeat an earlier one |
| ErrorReach.RunJustified | cflat/CClangExtract.cpp:6285-6343 | The same for the memo after any sequence of queries |
| ErrorReach.CleanEntriesRightIff | cflat/CClangExtract.cpp:6296-6340 | After any run of queries the memo's clean entries are right if no clean entry calls a function recorded bad, and, when no chain passes the cap, only then |
| ErrorReach.InProgressEntryMisleads | cflat/CClangExtract.cpp:6296 | A three-function cyclic graph where a clean entry left by a `true` query is wrong and a later query answers wrongly |
| ErrorReach.AcyclicRunIsRight | cflat/CClangExtract.cpp:6285-6343 | On an acyclic graph every clean entry is right after any run of queries |
| ErrorReach.ErrorReachScan.Reaches | cflat/CClangExtract.cpp:6285-6343 | The recursive search over the mutable memo computes exactly the specified answer and memo, and leaves the memo alone when the scan is inactive |
| IncludeReach.AlwaysCurrentIff | cflat/CxxIncrementalGroup.cpp:3250-3305 | For any set of root lists: every query of every run over them is current iff those that share a memo entry name the same roots, or hold a bracketed root that no include can make known |
| IncludeReach.EveryQueryIsCurrent | cflat/CxxIncrementalGroup.cpp:3250-3305 | Over such root lists, after any interleaving of recorded includes and queries, a query returns exactly the known targets outside the roots' transitive include closure, and nothing when a root is unknown |
| IncludeReach.RunRecords | cflat/CxxIncrementalGroup.cpp:564-578 | After any run from an empty graph the recorded edges, targets and angled names are exactly the run's includes: who included what, what was found, and the first angled file of each name |
| IncludeReach.QueryAnswersRun | cflat/CxxIncrementalGroup.cpp:3250-3305 | So a query answers, in terms of the run's includes alone, exactly the found files that no chain of includes leads to from the roots, and nothing when a root names no file that was found |
| IncludeReach.CollisionMisleads | cflat/CxxIncrementalGroup.cpp:3286-3304 | When two lists share an entry and one can be known without the other, a run that asks only for the other one makes the next answer wrong |
| IncludeReach.NewlineFreeIsSeparate | cflat/CxxIncrementalGroup.cpp:3286-3287 | Root lists without newlines never share an entry |
| IncludeReach.StepKeepsMemo | cflat/CxxIncrementalGroup.cpp:3286-3294 | Recording an include, or answering a query over such root lists, keeps every current memo entry answering as recomputation does, for each list under its key |
| IncludeReach.KeyDeterminesRoots | cflat/CxxIncrementalGroup.cpp:3286-3287 | Newline-free root lists with the same memo key are the same list |
| IncludeReach.KeysCollideIff | cflat/CxxIncrementalGroup.cpp:3286-3287 | Any two root lists share a memo key exactly when they have the same newline-separated pieces |
| IncludeReach.NewlineRootMisleads | cflat/CxxIncrementalGroup.cpp:3286-3304 | Two different root lists, one with a newline in a name, where the second query gets the first one's answer |
| IncludeReach.SaturatedIsClosure | cflat/CxxIncrementalGroup.cpp:3269-3277 | A worklist that has drained holds exactly the include closure of its seeds |
| IncludeReach.CxxIncrementalGroup.InclusionDirective | cflat/CxxIncrementalGroup.cpp:564-578 | Records an edge, a target, the first angled spelling and a new version, and nothing else |
| IncludeReach.CxxIncrementalGroup.ReachFromRoots | cflat/CxxIncrementalGroup.cpp:3250-3279 | The seeds of the roots up to the first unknown one, and from them the whole include closure |
| IncludeReach.CxxIncrementalGroup.UnreachableFiles | cflat/CxxIncrementalGroup.cpp:3281-3305 | One step of the specified run: which memo entry is refreshed and what is answered from it |
| DemandCheck.CheckIsExact | cflat/CxxIncrementalGroup.cpp:3080-3173 | From a closed walked set a check refuses exactly when the function leads to a fault the state still shows, over the calls its definitions spell, unless a failed parse emptied them, and the destructors they run implicitly; an accepted check keeps the set closed |
| DemandCheck.SymbolVerdict | cflat/CxxIncrementalGroup.cpp:3080-3173 | The verdict on a symbol, read off its binding under its clang name: 0 and no change when unbound, by its initializer for a variable, and for a function -1 exactly when it leads to a fault |
| DemandCheck.RaisedIsRemembered | cflat/CxxIncrementalGroup.cpp:1298-1320 | What a check leaves when referring to the function raises an error: which declarations are poisoned, which become invalid, and that failed constructors are valid again without their bodies |
| DemandCheck.FailedBodyIsRemembered | cflat/CxxIncrementalGroup.cpp:1159-1215 | Likewise when the function's own body does not compile: it is parsed once and stays invalid and bodiless, with everything blamed poisoned |
| DemandCheck.RefusedStaysRefused | cflat/CxxIncrementalGroup.cpp:3080-3173 | A refused function is refused again after any further checks |
| DemandCheck.FailedWalkRestores | cflat/CxxIncrementalGroup.cpp:1401-1408 | A failed walk leaves the walked set as it was |
| DemandCheck.DrainAccepts | cflat/CxxIncrementalGroup.cpp:1223-1410 | A worklist that drains without failure walked only definitions that hold no fault and whose callees were all passed |
| DemandCheck.DrainRefuses | cflat/CxxIncrementalGroup.cpp:1223-1410 | A failed walk met a fault reachable from the worklist it started with |
| DemandCheck.RunsAreRightIff | cflat/CxxIncrementalGroup.cpp:3080-3173 | Over runs of symbols, each function under the one declaration its name is bound to: a fresh group answers every run rightly iff no symbol names an exposed function, that is, one whose faults can all be used up while what a walk can then still look at stays free of faults and of blame. For groups in which the check of another bound function uncovers each exposed one |
| DemandCheck.ExposedIsLost | cflat/CxxIncrementalGroup.cpp:1159-1215 | The converse half as a run: once a function that uncovers it has been checked, an exposed one is accepted, though it led to a fault in the fresh group |
| DemandCheck.TwoCallersLoseIff | cflat/CxxIncrementalGroup.cpp:1159-1215 | Two callers of a redeclaration whose out-of-line body does not compile and runs no destructors: after the first is refused, the second is refused iff clang's notes on the body name it or the redeclaration |
| DemandCheck.HidingIsExposed | cflat/CxxIncrementalGroup.cpp:1159-1215 | Whatever state hides a function's fault, that function is exposed in the fresh group |
| DemandCheck.VerdictsIgnoreOrder | cflat/CxxIncrementalGroup.cpp:3080-3173 | After any run of checks of functions that are not exposed, another such function is refused iff it led to a fault in the fresh group, so verdicts do not depend on call order; clang blames only functions that lead to a fault, and a constructor that compiles but can become invalid has no redeclaration |
| DemandCheck.CheckStaysSteady | cflat/CxxIncrementalGroup.cpp:3159-3172 | Under the same conditions the check of a function that is not exposed is right, keeps the walked set closed and free of what led to a fault, and with its poisoning and re-validation changes no other such function's verdict |
| DemandCheck.RefusalsAreRight | cflat/CxxIncrementalGroup.cpp:3080-3173 | In any group every refusal after any run of checks is right |
| DemandCheck.RedeclarationHidesFailure | cflat/CxxIncrementalGroup.cpp:1159-1215 | A concrete group where the second caller of a function whose out-of-line body failed is accepted |
| DemandCheck.HotIsKept | cflat/CxxIncrementalGroup.cpp:1159-1215 | A fault of the fresh group disappears from a later state's view only behind a redeclaration that the state accepts |
| DemandCheck.CxxIncrementalGroup.ParseSkipped | cflat/CxxIncrementalGroup.cpp:1159-1215 | A pending body is parsed once; one that fails is invalidated, emptied and reported |
| DemandCheck.CxxIncrementalGroup.MaterializeReachable | cflat/CxxIncrementalGroup.cpp:1223-1410 | The worklist loop is the specified drain, with the rollback of what it walked; it terminates on any call graph |
| DemandCheck.CxxIncrementalGroup.CheckDemand | cflat/CxxIncrementalGroup.cpp:3080-3173 | Verdict and new state of one check, for functions, variables and unbound symbols |
| DemandUnit.WalkIsExact | cflat/CxxIncrementalGroup.cpp:1223-1410 | From a closed walked set the pass's walk fails exactly when it can reach a bad definition over calls; one that does not fail leaves every definition it can reach instantiated, parsed and walked; the walked set stays closed either way |
| DemandPass.UpFrontIsExact | cflat/CClangExtract.cpp:7959-7984 | A demand is refused before the rounds exactly when a bad definition is reachable from the functions it asks for under their clang names; otherwise everything the walk visits is ready when the rounds begin |
| DemandPass.PassIsExact | cflat/CClangExtract.cpp:7903-8235 | Whatever a group recorded, parsed, instantiated or walked before, and whatever the walk visits: a pass refuses exactly when a demanded function reaches a bad definition, and one that emits defines exactly what the demand needs. The demand is the raw list of names, each looked up under its renaming first, and kept when the group binds it or holds what it recorded. A group records the variables it binds (6601-6612, 6655-6660) |
| DemandPass.PassEnds | cflat/CClangExtract.cpp:8098-8235 | With as many rounds as the unit has symbols, declarations and bodies, and one more, every pass ends in a module or a refusal |
| DemandPass.PassIsExactIff | cflat/CClangExtract.cpp:8207-8235 | What that recording is needed for: without it, all passes for a demand are exact iff the walk refuses it or the rest of the demand needs each of its bound, definable variables |
| DemandPass.UnrecordedIsMissed | cflat/CClangExtract.cpp:8207-8235 | The converse half as a run: a demanded variable that is bound, not recorded and needed by nothing else in the demand stays undefined in some pass |
| DemandRounds.ModuleIsExact | cflat/CClangExtract.cpp:8098-8235 | Rounds that keep to their invariant and end define exactly what the demand leads to and have asked only for needed symbols |
| DemandRounds.NeededIff | cflat/CClangExtract.cpp:8098-8235 | What a demand needs are the ends of the chains from a demanded symbol's declaration, each later one that of a symbol its predecessor refers to, through declarations that are defined, compile and can be handed to CodeGen |
| DemandUnit.WalkKeepsPlanReady | cflat/CxxIncrementalGroup.cpp:1223-1410 | A walk records only variables, what Sema announces and definitions it has made ready, so nothing recorded waits for an instantiation |
| DemandUnit.WalkRecords | cflat/CxxIncrementalGroup.cpp:1223-1410 | A walk records what Sema announces for every body it parses and, unless it fails, the storage and the free-standing definition of every definition it newly walks |
| DemandRounds.EmittedIsNeeded | cflat/CClangExtract.cpp:8099-8153 | With CodeGen as reachability over what it is handed, nothing unneeded is emitted: must-emit declarations are handed only when needed |
| DemandRounds.NothingMissing | cflat/CClangExtract.cpp:8159-8235 | In a round that adds nothing the module defines every definable symbol it uses, and of those asked for every function and every recorded variable |
| DemandRounds.RoundKeeps | cflat/CClangExtract.cpp:8098-8235 | Every round keeps the invariant, only grows plan and want and only shrinks the pending bodies |
| DemandRounds.GrowthIsProgress | cflat/CClangExtract.cpp:8098-8235 | Every round that reports growth strictly lowers a measure of symbols not wanted, declarations not planned and bodies pending |
| DemandRounds.RoundsConverge | cflat/CClangExtract.cpp:8098-8235 | Hence the rounds end without the cap of sixteen |
| DemandPass.StartIsInv | cflat/CClangExtract.cpp:7903-7984 | The state the pass sets up satisfies the rounds' invariant, before and after the walk |
| DemandPass.CxxDemandPass.AddDecl | cflat/CClangExtract.h:640-664 | A declaration joins the plan at its end unless it was seen before |
| DemandPass.CxxDemandPass.SplitPlan | cflat/CClangExtract.cpp:7906-7939 | Every plan declaration not split yet goes to the lazy list or is held back, once |
| DemandPass.CxxDemandPass.MaterializeReachable | cflat/CxxIncrementalGroup.cpp:1223-1410 | The worklist loop is the specified walk, with what it records on success and forgets on failure; it terminates on any call graph |
| DemandPass.CxxDemandPass.RoundOnce | cflat/CClangExtract.cpp:8098-8235 | One round refines the specified round |
| DemandPass.CxxDemandPass.Emit | cflat/CClangExtract.cpp:7903-8235 | The pass from its plan and demand to the module, the refusal or the cap |
| AliasRewrite.AliasRewriteIsFaithful | cflat/CClangExtract.cpp:91-164 | Expanding the aliases of the rewritten text gives back the source; each alias is defined only from earlier ones and declared before its first use, in the declarations and in the text |
| AliasMeaning.RewritesLeftmost | cflat/CClangExtract.cpp:100-156 | The rewriting is the run that replaces the leftmost nested name of the text, wherever it is, by the one symbol of its spelling, until the text holds no nested name. A nested name is `name<args>::member` found by counting angles, the angle of an arrow not among them |
| AliasMeaning.NestedIff | cflat/CClangExtract.cpp:104-140 | The scans around a mark find the nested name there exactly when there is one, and no more and no less of it |
| AliasMeaning.SpelledIsNested | cflat/CClangExtract.cpp:104-140 | Every qualified name, balanced arguments in angles, `::` and a member that is not `operator`, `template` or led by a digit, with the member's own balanced arguments when they follow, is a nested name wherever it stands in a text |
| AliasMeaning.UntouchedIff | cflat/CClangExtract.cpp:100-157 | A source comes back as it is exactly when it holds no nested name |
| AliasMeaning.DeclaredAtItsLine | cflat/CClangExtract.cpp:157-164 | The declarations go before the line that holds the first alias |
| AliasRewrite.RewriteKeepsMeaning | cflat/CClangExtract.cpp:100-156 | Every step of the rewriting loop keeps the expansion equal to the source |
| AliasRewrite.ReplaceLowersMarks | cflat/CClangExtract.cpp:104-156 | Each replacement lowers the number of `>::` occurrences, though the cursor may move backwards; with the cursor this is the loop's measure |
| AliasRewrite.AliasCxxNestedSpecializationNames | cflat/CClangExtract.cpp:91-164 | The loop over the text, the alias map and the declarations computes exactly that rewriting |
| BlamedDeclarations.SegmentsWellCut | cflat/CxxIncrementalGroup.cpp:588-643 | Segments are consecutive runs of lines, each the shortest whose braces close; only the last can be open |
| BlamedDeclarations.DropIsPartition | cflat/CxxIncrementalGroup.cpp:588-643 | On success kept and dropped interleave to the source along its segments, every dropped segment is closed, blamed and unprotected, and if the source's braces close no blamed segment is kept |
| RetryMeaning.DroppedIff | cflat/CxxIncrementalGroup.cpp:613-636 | A declaration is dropped exactly when its braces close, it is not blank, a directive or a text with a typedef, and an error names one of its lines or it mentions a failed member; a blamed one that must stay is fatal |
| BlamedDeclarations.ProcessSucceedsIff | cflat/CxxIncrementalGroup.cpp:588-643 | It succeeds exactly when no protected segment is blamed and some segment is dropped |
| BlamedDeclarations.OpenTailIsKept | cflat/CxxIncrementalGroup.cpp:641 | A trailing segment with open braces is kept though blamed |
| BlamedDeclarations.BlamedIsKeptIff | cflat/CxxIncrementalGroup.cpp:588-643 | On success a blamed segment is kept exactly when the last one's braces never close and it is blamed, for all sources |
| BlamedDeclarations.DropBlamedDeclarations | cflat/CxxIncrementalGroup.cpp:588-643 | The line loop with its brace depth computes exactly that outcome |
| RetryTag.PreparedTwice | cflat/CxxIncrementalGroup.cpp:651-689 | Preparing twice is preparing with the later attempt, and no line of a prepared chunk starts an explicit instantiation, for all text |
| RetryMeaning.PreparedIs | cflat/CxxIncrementalGroup.cpp:651-665 | Preparing is tagging the text without the lines that start with `template class ` |
| RetryMeaning.HelperIff | cflat/CxxIncrementalGroup.cpp:667-686 | A helper's name is recognized exactly when it is spelled `__cflat_inc_`, a number, `_`, an earlier tag `r<number>_` or none, and `use` or `thk` |
| RetryMeaning.TagsHelper | cflat/CxxIncrementalGroup.cpp:680-686 | Such a name gets the new tag in place of the earlier one, and the rest of the text is tagged on its own |
| RetryMeaning.KeepsNumber | cflat/CxxIncrementalGroup.cpp:667-688 | The prefix and its number stay as they are when they start no helper's name |
| RetryTag.RenameTwice | cflat/CxxIncrementalGroup.cpp:664-689 | Renaming a renamed text with another tag is renaming the text with it |
| RetryTag.AttemptsNeverCollide | cflat/CxxIncrementalGroup.cpp:664-689 | Helper identifiers of different attempts never coincide, whatever the two chunks |
| RetryTag.TagHelpers | cflat/CxxIncrementalGroup.cpp:664-689 | The search-and-edit loop over the text computes exactly the renaming |
| RetryTag.PrepareRetryChunk | cflat/CxxIncrementalGroup.cpp:651-689 | Dropping instantiations, then tagging |
| FlatLayout.WalkListsStorage | cflat/CClangExtract.cpp:3639-3702 | The walk meets every vptr and field of the hierarchy exactly once, each at its absolute offset, and nothing else |
| FlatLayout.FlattenableIff | cflat/CClangExtract.cpp:3643-3676 | A hierarchy is flattened exactly when no class reached along any path of bases has a virtual base, a base without a definition, a bit-field or an unnamed field |
| FlatLayout.SlotsStayApart | cflat/CClangExtract.cpp:3639-3702 | If every class keeps its own parts apart, the flat storage does not overlap and stays inside the outermost class |
| FlatLayout.FieldIs | cflat/CClangExtract.cpp:3648-3698 | What each slot becomes: its storage always; its name exactly when it is the first to claim it, and then its access only along an all-public path; otherwise a reserved private name |
| FlatLayout.NamesAreUniqueIff | cflat/CClangExtract.cpp:3648-3698 | No two flat fields share a name iff no field that keeps its name is spelled like a name the walk makes for another slot |
| FlatLayout.ReservedNameClashes | cflat/CClangExtract.cpp:3648-3698 | A field named `__vptr0` in a class with a vptr shares the vptr's name |
| FlatLayout.OwnFieldsKeepNames | cflat/CClangExtract.cpp:3709-3717 | The outermost class's own fields keep their names and access |
| FlatLayout.HiddenNameIff | cflat/CClangExtract.cpp:3690-3696 | The field that carries a name is hidden by a nearer class exactly when the outermost class does not declare the name and the first chain of bases with that name passes a class declaring it |
| FlatLayout.DeeperBaseTakesTheName | cflat/CClangExtract.cpp:3690-3696 | A concrete hierarchy where a base's base takes the name from the base that hides it |
| FlatLayout.UsingIs | cflat/CClangExtract.cpp:3731-3747 | A using-declaration makes an inherited field the class's own and gives it its access only when the name is unique |
| FlatLayout.CountIsSlots | cflat/CClangExtract.cpp:3721-3730 | The count it consults is the number of slots of that name in the whole hierarchy |
| FlatLayout.SortIsStable | cflat/CClangExtract.cpp:3748-3751 | Sorting gives non-decreasing offsets and keeps the fields at each offset in order |
| FlatLayout.CollectedIsSound | cflat/CClangExtract.cpp:3709-3753 | The fields returned, after using-declarations and the sort, do not overlap, have different names iff no kept name is spelled like a made one, keep their order at each offset, and are in offset order when none has size zero; before using-declarations a public field lies on an all-public path |
| FlatLayout.FlatRecord.FlattenCxxLayout | cflat/CClangExtract.cpp:3639-3702 | The recursive walk over the growing record succeeds exactly on flattenable hierarchies and places their slots in order |
| FlatLayout.FlatRecord.CollectCxxFlatFields | cflat/CClangExtract.cpp:3709-3753 | Walk, using-declarations and sort together |
| StdFunctionSpelling.SplitsWhatIsPrinted | cflat/CClangExtract.cpp:313-389 | Splitting `std::function<R(P)>` for balanced R and P, R not blank and without a top-level parenthesis, yields trimmed R and P, whatever surrounds it |
| StdFunctionSpelling.SplitsStdFunction | cflat/CClangExtract.cpp:313-389 | The same for the prefix the code searches, spelled out |
| StdFunctionSpelling.TrimIs | cflat/CClangExtract.cpp:379-385 | Trimming takes white space off both ends and leaves none there |
| StdFunctionSpelling.NestedIsBalanced | cflat/CClangExtract.cpp:313-389 | A printed function type is balanced, so it can be a parameter or return type of another; `std::function<` is a prefix it speaks of (`PrefixOpensArguments`) |
| StdFunctionSpelling.YieldsOne | cflat/CClangExtract.cpp:313-389 | Every text yields one result only |
| StdFunctionSpelling.SplitStdFunctionSpelling | cflat/CClangExtract.cpp:313-389 | The scanning loops accept exactly the texts that split, and return that split |
| Utf16.OutputIsWellFormed | cflat/AppResources.cpp:50-104 | The output is well-formed UTF-16 for any bytes, and never has more units than the input has bytes |
| Utf16.TranscodesScalars | cflat/AppResources.cpp:50-104 | On the UTF-8 encoding of any scalar sequence it yields exactly their UTF-16 encoding |
| Utf16.BrokenLeadCostsOne | cflat/AppResources.cpp:68-85 | A truncated or broken sequence costs one replacement character and one byte |
| Utf16.OverlongIsAccepted | cflat/AppResources.cpp:61-77 | Every overlong form of two, three or four bytes is read as its scalar, not replaced, whatever follows |
| Utf16.InvalidIsReplacedIff | cflat/AppResources.cpp:61-90 | Bytes that begin no valid encoding give a replacement character exactly when they do not begin an overlong form |
| Utf16.Utf8ToUtf16 | cflat/AppResources.cpp:50-104 | The index loop computes exactly that transcoding |
| VersionBlocks.ReadsBlock | cflat/AppResources.cpp:118-164 | An independent reader of nested, length-prefixed, four-byte aligned blocks recovers every block tree whose lengths fit |
| VersionBlocks.ReadsSiblings | cflat/AppResources.cpp:118-164 | Likewise for sibling blocks, each in its own slice after the padding |
| VersionBlocks.FitsIffLengthFits | cflat/AppResources.cpp:118-164 | All lengths of a block fit iff its own does |
| VersionBlocks.Nested | cflat/AppResources.cpp:129-160 | Writing a child extends the block under construction by exactly that child, overflow included |
| VersionBlocks.VersionWriter.Finish | cflat/AppResources.cpp:149-160 | Patching the length in place completes the block, or the overflow is recorded and the length of the output is still right |
| VersionInfo.ReadsBack | cflat/AppResources.cpp:369-435 | Unless it overflows, reading the resource back gives exactly the thirteen fixed words, the non-empty strings as UTF-16 in table order, and the translation pair |
| ResourceMeaning.VersionIsDeclared | cflat/AppResources.cpp:369-435 | Unless it overflows, the resource that is read back gives each of the eight strings under its own name, and none when it is empty, the versions in four parts, the two flags, the file type and the language |
| ResourceMeaning.TreeIsNamed | cflat/AppResources.cpp:388-430 | The blocks are named as the format asks, the string table after language and code page |
| VersionInfo.OverflowIff | cflat/AppResources.cpp:369-435 | It fits exactly when its total length is at most 0xFFFF |
| VersionInfo.BuildVersionInfo | cflat/AppResources.cpp:369-435 | The back-patching writer produces the specified block tree, or nothing and the overflow flag |
| VersionInfo.DescribeVersionBlock | cflat/AppResources.cpp:584-602 | The readable description lists the resource's own non-empty entries, in the same order, under a heading with the same table key |
| VersionInfo.HexReads | cflat/AppResources.cpp:166-176 | The four hexadecimal digits of the table key determine the language word |
| VersionQuad.AcceptsIff | cflat/AppResources.cpp:312-367 | Accepted are exactly the texts that join one to four good parts with dots |
| VersionQuad.AcceptsVersions | cflat/AppResources.cpp:312-367 | A part is good exactly when it is a decimal below 65536 with any zeros before it, so accepted are one to four such numbers with dots between them |
| VersionQuad.FaultIs | cflat/AppResources.cpp:312-367 | What each error says: which part is the first that is no such number, and whether it is empty, beyond the fourth, interrupted by another character or too large there |
| VersionQuad.FormattedReadsBack | cflat/AppResources.cpp:312-367 | One to four components below 65536, written in decimal, read back, the missing ones as zero |
| VersionQuad.ParseVersionQuad | cflat/AppResources.cpp:312-367 | The parser stores the components before the first fault and reports that fault |
| IconFiles.SplitIco | cflat/AppResources.cpp:272-310 | The images up to the first that runs past the file, and which error |
| IconFiles.SplitsWhatIsPacked | cflat/AppResources.cpp:272-310 | Splitting any icon file gives back the images it was made of, in order |
| IconFiles.GroupRepeatsDirectory | cflat/AppResources.cpp:468-483 | The group directory of a split icon file repeats its directory's side bytes and sizes, 0 meaning 256, in order, with one plane, 32 bits and ids from one |
| WindowsRes.ReadsRes | cflat/AppResources.cpp:185-202 | Walking a container by header size, data size and alignment visits exactly its entries with their payloads |
| WindowsRes.WalksResources | cflat/AppResources.cpp:444-499 | For a built container these are the empty entry, icons 1..N, group, version and manifest, within the u16 and u32 limits |
| ResourceMeaning.ContainerHolds | cflat/AppResources.cpp:444-499 | They are the empty entry, icon i+1 for image i and the group under 1 when there are icons, the version under 1 when there is anything to say, the manifest under 1 when there is one, and nothing else |
| WindowsRes.BuildWindowsRes | cflat/AppResources.cpp:444-499 | The writer produces exactly that container, or nothing when the version resource overflows |
| IcnsFile.IcnsReadsBack | cflat/AppResources.cpp:528-582 | An icon set reads back as its chunks iff its length fits the 32-bit length field, and gives nothing when no image has a known size |
| IcnsFile.ChunksHave | cflat/AppResources.cpp:535-570 | A chunk is there exactly for a slot's types and the first image of that slot's size |
| ResourceMeaning.IcnsShows | cflat/AppResources.cpp:535-570 | The container has, under each chunk type, the first image of the width that type is for, and nothing else |
| IcnsFile.BuildIcns | cflat/AppResources.cpp:528-582 | The container, the user's file verbatim, or nothing, by icon kind |
| InfoPlist.UnescapeEscape | cflat/AppResources.cpp:204-218 | Un-escaping the five predefined entities gives back any text |
| InfoPlist.ReadsPlist | cflat/AppResources.cpp:220-229 | Reading a property list back by its tags gives exactly the non-empty pairs in order, whatever their text |
| ResourceMeaning.BundleIsDeclared | cflat/AppResources.cpp:501-526 | The property list that is read back gives each of the bundle's texts under its own key, and none when it is empty |
| InfoPlist.BuildInfoPlist | cflat/AppResources.cpp:501-526 | The writer's output reads back as the bundle's non-empty pairs |
| ArgMeaning.ParseReads | cflat/ArgParser.h:79-211 | Parsing reads its tokens as flags, values, positionals and what follows a bare `--`, up to where the reading ends, and leaves exactly their effects: each flag set iff given, each option with its last value, each multi-option with all of its values in order, positionals, passthrough and record in order; the outcome says why the reading ended |
| ArgMeaning.ReadableIff | cflat/ArgParser.h:79-211 | It gets through all of its tokens exactly when they can be read, which they can in one way only |
| ArgNormalizer.ReproducesIffSound | cflat/ArgParser.h:79-211 | For a configuration, the recorded spelling of every successful run reproduces that run (all but `force`) iff both sanitizers are flags and no reserved spelling is the reachable name of an argument |
| ArgNormalizer.SoundReproduces | cflat/ArgParser.h:79-211 | In such a configuration re-parsing gives the same flags, options, ordered multi-options, positionals, passthrough and normalised list |
| ArgNormalizer.ReachableFails | cflat/ArgParser.h:79-211 | For every reachable reserved name a run that its own record does not reproduce, such as a flag `help` given as `-help` |
| ArgNormalizer.ReservedNames | cflat/ArgParser.h:104-129 | The reserved names are exactly the five spellings with a meaning of their own, and the empty name |
| ArgNormalizer.ResponseFileRoundTrip | cflat/ArgParser.h:285-313 | Any arguments free of double quotes, blank and empty ones included, survive being quoted into a response file |
| ArgNormalizer.ResponseFileDelivers | cflat/ArgParser.h:57-77 | Such arguments reach the parser whole iff none holds a NUL: in between each token is read again as a C string |
| ArgNormalizer.PlainArgumentsExpandToThemselves | cflat/ArgParser.h:57-72 | Arguments that name no file pass the expansion unchanged |
| ArgNormalizer.TokensHoldNoQuote | cflat/ArgParser.h:285-313 | No token of a response file holds a double quote, so those are all it can give |
| ArgNormalizer.SpacedWordsSplit | cflat/ArgParser.h:285-313 | Words without quotes come back one by one, whatever blanks are between them |
| ArgNormalizer.ArgParser.ReadResponseFile | cflat/ArgParser.h:285-313 | The character loop computes exactly those tokens |
| ArgNormalizer.ArgParser.ParseArguments | cflat/ArgParser.h:50-213 | Expansion of response files before a bare `--`, each token cut at its first NUL, then the parse, with every error |
| ArgNormalizer.ArgParser.ParseExpanded | cflat/ArgParser.h:79-213 | The token loop over the member maps computes exactly the specified run |

## Left out

- Clang, Sema and CodeGen themselves: their answers are fixed edges, faults and effects of the graph
  nodes; CodeGen is reachability over the declarations it is handed.
- Vtable edges and `operator delete` resolution in the demand walk, which depend on Sema state; a failed
  walk does not roll their records back.
- In the demand pass: vtables, the renaming of weak definitions, bitcode serialization, and the merging of
  extraction results. A body that an earlier check refused counts as one that does not compile.
- DemandPass.PassIsExact: takes from Sema that a function it instantiates is announced once it has its
  body, which is when the group records it (cflat/CxxIncrementalGroup.cpp:1491-1505); no other place records
  a function that still waits for its instantiation. A variable and its definition are one declaration.
- DemandCheck.RunsAreRightIff: leaves open groups in which no other bound function uncovers an exposed one,
  as when the way to its faults raises an error, and groups in which a constructor that compiles but can
  become invalid has a redeclaration.
- The wording of diagnostics and error messages: errors are kinds with their arguments.
- The token watcher's expression predictor, the compiler manager, the ANTLR error classes and file
  reading.
- Failed static initializers of variables: one flag per bound variable.
- The alias rewriter's fixed prologue text and the hash in its tag; aliases are symbols, so an alias
  that is directly followed by another identifier character is not told apart from a longer name.
- RetryTag.AttemptsNeverCollide: is about helper names that begin an identifier, because the code's text
  search also edits a name glued to other identifier characters, which then is no helper's name.
- WindowsRes.WalksResources: is about payloads and icon counts within the format's 32- and 16-bit fields,
  because beyond them the format has no room for the values.
- Types, constness and bit-field layout of flattened fields: a field is its name, offset, size, access
  and flags.
- `getXthreadScanLevel`, usage text and the registered descriptions of the argument parser. Feeding the
  normalised list through the response-file expansion again is not covered: a token `@x` from a response
  file would then be read as a file.
- The readable dump of an application (`DescribeAppInfo`), image probes and name tables.
- Machine widths other than those of the formats: sizes and counters do not wrap.
