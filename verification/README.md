# Verified model of the spec editing engine

azldev edits RPM spec files, and does so in two ways: a structural parser that turns the lines
into a tree of sections, conditionals, macro definitions and text, and a line-oriented editor that
walks over the lines with a cursor. This project models both, proves what each keeps, and proves
that they agree where both apply. Four smaller parts with one hard property each follow: the
byte stream of fingerprints, the cache of lock files, the loading of included configuration files,
and the bounded tail of a command's output.

How the modules build on each other:

- `Lines`, `LineText`, `MacroLexer`, `MacroText`, `Scanning`, `MacroBodies`: what kind of line a line
  is; where a macro body ends, and a grammar of what may stand in it; the mask that makes the lines
  of a macro body opaque. A line carries the number it had in the file.
- `Conditionals`, `Tree`, `Grammar`, `Parser`, `MatchingErrors`, `NormalForm`: matching of conditionals
  on a stack and why it fails, the tree that matching lines denote, the grammar of trees, exact
  acceptance, and the round trips.
- `TreeParser`, `TreeBuilder`: the scans and the recursive builder as they run, over line numbers,
  proved to compute that tree.
- `Removal`, `Reparse`, `Ownership`, `OwnershipCheck`, `StructuralSpec`, `TextOwnership`: removal of
  sections, what it leaves, the meaning of a spec under every choice of conditions, and the
  exactness of the check made before a removal, on the tree and on the text.
- `Ranges`, `RangeSoundness`, `StructureKept`, `EnginesAgree`, `LineAcceptance`, `RangeOwnership`: the
  line-oriented removal, the conditionals it keeps, its agreement with the tree, which removals it
  accepts, and the owners it does not check.
- `SpecFile`, `SpecLines`, `SpecWalk`, `SectionsTold`, `Reading`, `LineEdits`, `SectionEdits`,
  `TagInsertion`, `TagText`, `SectionRemoval`: the visitor walk, proved equal to a plain cursor over
  the lines, the sections it tells the visitor, the edits built on it, and what they do to the text.
- `SampleLines`, `StrayTag`, `HiddenHeader`: what some concrete lines are, and two examples.
- `Fingerprint`, `LockStore`, `LockInterleavings`, `IncludeLoader`, `OutputTail`: the smaller parts.

A spec is read under a choice of conditions: a set of the directives (%if and %elif lines, by
number) whose condition is true. An owner of a line in effect is the last section header in effect
above it. Paths and lines below are those of the repository.

Where the code and what is written about it differ, the model follows the code:

- Updating a tag replaces every tag of the name, not only the first one; see `LineEdits.UpdateExistingTag`
  (internal/rpm/spec/edit.go:48-68).
- After an insertion behind a line, the last line inserted is still visited; see
  `SpecWalk.Context.InsertLinesAfter` (internal/rpm/spec/spec.go:251-260).
- Prepending lines to a section does not always end: see `SectionEdits.PrependingEnds`
  (internal/rpm/spec/edit.go:426-468). Walking is only guaranteed to end for visitors that never
  insert after a line they have just inserted.
- What a visitor does at the very start of a file can cost the first line its visit, even an insertion
  of no lines, and after a removal there the next line can be visited twice; `SpecWalk.FirstStop` and
  `SpecWalk.WholeWalk` say exactly when (internal/rpm/spec/spec.go:237-284, 352-367).
- A visitor that removes or replaces a header at the start of its section goes on being told that
  section for the lines after it. `SectionsTold.WalkIsTruthful` says exactly which visitors are always
  told the section in force; `SectionsTold.RemovedHeaderStays` is a visitor that is not
  (internal/rpm/spec/spec.go:264-284, 395-401).
- A tag is inserted no later than the end of the last section of the name, which can be behind the
  end of the section of the tag it follows; see `TagInsertion.InsertedTagStays`
  (internal/rpm/spec/edit.go:329-339, 382-403).
- The line-oriented removal can hand a line to another section, which the structural removal refuses;
  see `RangeOwnership.AcceptedKeepsOwners` (internal/rpm/spec/edit.go:849-854).
- The line-oriented engine reads directives and headers inside macro bodies; see
  `HiddenHeader.EnginesDisagree` (internal/rpm/spec/edit.go:896-954).
- A file included twice without any cycle is refused as a circular include; see
  `IncludeLoader.SharedIsCircular` (internal/projectconfig/loader.go:420-425).
- Calls of the lock store are not safe in every overlap: a cached lock can stay stale for good
  when a read, save or removal of one component overlaps a save or removal of it
  (internal/lockfile/store.go:61-64, 116-118); `LockInterleavings.OverlapIsSafe` says exactly which pairs are.

## Model

| member | source | states |
|---|---|---|
| OwnershipCheck.CheckIsExact | internal/rpm/spec/structural_tree_api.go:214-279 | The check before a removal passes if and only if, for every choice of conditions, every surviving meaningful line and macro line is owned by the same section header before and after |
| OwnershipCheck.ValidateSound | internal/rpm/spec/structural_tree_api.go:223-279 | If the check passes from a given state, then on every path the surviving lines keep their owners and the owners stay related to the end, for any blocks and any owner before them |
| OwnershipCheck.NeedsIsReached | internal/rpm/spec/structural_tree_api.go:220-279 | Whenever the check says a removed section may be in force, one set of conditions makes it so |
| OwnershipCheck.FailureIsExposed | internal/rpm/spec/structural_tree_api.go:242-252 | Whenever the check fails, one set of conditions leaves a surviving line to a removed section |
| OwnershipCheck.RefusedBlock | internal/rpm/spec/structural_tree_api.go:239-252 | The block that a refusal names is a macro definition, or text that is not all blanks and comments, of the tree |
| Ownership.RootMeaning | internal/rpm/spec/structural_tree_api.go:220-279 | For every choice of conditions, reading the lines one by one with a stack of conditionals and walking the tree find the same lines in effect with the same owners |
| StructuralSpec.RemovalTransaction | internal/rpm/spec/structural_tree_api.go:23-44 | On a spec that parses, a removal is refused exactly when some choice of conditions would hand a surviving line to another section; otherwise the new lines are the old ones without exactly the removed sections, and the final parse cannot fail |
| StructuralSpec.SpecTree.RemoveSections | internal/rpm/spec/structural_tree_api.go:112-133 | The first bad handle or the failed check decides the error and leaves the tree alone; otherwise the tree is the old one without exactly the named sections |
| StructuralSpec.StructuralSpec.MutateTree | internal/rpm/spec/structural_tree_api.go:23-44 | Any error of parsing, editing or parsing again leaves the lines unchanged; otherwise the lines are those of the edited tree, and they parse |
| StructuralSpec.LookupFindsHeaders | internal/rpm/spec/structural_tree_api.go:82-93 | Looking up a name and package finds one section for each header line of it outside macro bodies, in the order of the file; the empty name and package find the preamble before them |
| StructuralSpec.SpecTree.Sections | internal/rpm/spec/structural_tree_api.go:82-93 | The handles of all sections of a name and package, in document order |
| StructuralSpec.SpecTree.Section | internal/rpm/spec/structural_tree_api.go:58-64 | The first of them, if there is one |
| StructuralSpec.SpecTree.SectionsByPackage | internal/rpm/spec/structural_tree_api.go:97-109 | The handles of all sections of a package, in document order |
| StructuralSpec.CollectSections | internal/rpm/spec/structural_tree_api.go:164-184 | The walk over blocks and their branches meets the sections in document order |
| TextOwnership.RemovalOnText | internal/rpm/spec/structural_tree_api.go:214-291 | On the text of the lines: a removal succeeds if and only if, whatever conditions hold, every surviving line that belonged to a removed section is blank, a comment, a conditional directive or a section header, and is no part of a macro definition |
| TextOwnership.RemovedLines | internal/rpm/spec/structural_tree_api.go:186-212 | The lines removed are those from each removed header to the end of its section, read off the file |
| TextOwnership.KeptUnlessExposed | internal/rpm/spec/structural_tree_api.go:214-279 | Owners are kept exactly when no surviving line was owned by a removed section |
| StructuralSpec.BadHandle | internal/rpm/spec/structural_tree_api.go:112-124 | The first handle that is none, of another tree or of the preamble decides the error; if there is none, all handles are of sections with a header |
| StructuralSpec.DoomedAre | internal/rpm/spec/structural_tree_api.go:112-124 | The sections to remove are exactly those of the handles |
| StructuralSpec.PackageLookupFindsHeaders | internal/rpm/spec/structural_tree_api.go:97-109 | Looking up a package finds exactly the sections whose header names it, and the preamble for the empty one |
| Removal.RemovalKeepsTheRest | internal/rpm/spec/structural_tree_api.go:186-212 | The lines of a tree after a removal are its lines before, without exactly the lines of the removed sections, in order |
| Removal.KeepRemoves | internal/rpm/spec/structural_tree_api.go:186-212 | Removing sections from a tree and dropping their lines from its serialization give the same lines |
| Reparse.RemovalReparses | internal/rpm/spec/structural_tree_api.go:36-39 | Whatever sections of a parsed spec are removed, the lines left parse, the sections found are the survivors in document order, and the tree found is the one the removal left, up to line numbers, exactly when that is in normal form |
| Reparse.TreeReparses | internal/rpm/spec/tree.go:84-116 | The lines of any well-formed tree with whole macro bodies parse, with the sections of the tree; the tree found is the same up to line numbers exactly when it is in normal form: maximal text runs, sections to their full extent, preamble up to the first section |
| Reparse.RemoveWellFormed | internal/rpm/spec/structural_tree_api.go:186-212 | A removal keeps a tree well formed, and its sections are the survivors in order |
| Parser.RoundTrip | internal/rpm/spec/tree.go:878-927 | Serializing a parsed tree gives back exactly the lines that were parsed |
| Parser.AcceptsExactly | internal/rpm/spec/tree.go:84-182 | Parsing succeeds exactly when no macro body is left open at the end and the lines, with macro bodies masked, are the lines of some well-formed tree |
| MatchingErrors.ParseNames | internal/rpm/spec/tree.go:121-182 | What each error names: an %endif or a branch behind lines that match up, a branch behind the %else of the innermost conditional around both, the first %if that no %endif closes, or the last macro defined, whose body runs to the end |
| NormalForm.ParsesExactly | internal/rpm/spec/tree.go:84-116 | Parsing gives a tree if and only if no macro body is left open and the tree is well formed, in normal form and serializes to the lines: round trip, inverse round trip, and no other tree has both |
| NormalForm.BuildSerialize | internal/rpm/spec/tree.go:311-514 | Building the lines of a well-formed tree in normal form gives the tree back, with %elif chains and wrapper conditionals |
| NormalForm.BuildNormal | internal/rpm/spec/tree.go:311-553 | The tree built from lines that match up is in normal form |
| Parser.ParsedIsWellFormed | internal/rpm/spec/tree.go:311-425 | In a parsed tree no directive or header is raw text, macro bodies are whole, sections do not nest, and each conditional has its own directives |
| Parser.ParsedSections | internal/rpm/spec/tree.go:258-281 | The sections of a parsed tree are, in order, the section headers outside macro bodies |
| Parser.WrapPreambleKeeps | internal/rpm/spec/tree.go:187-228 | Wrapping the preamble changes no line, and leaves every section outside of it |
| Tree.SerializeBuild | internal/rpm/spec/tree.go:311-514 | Whatever masked lines the tree is built from, serializing it gives them back, with %elif chains and wrapper conditionals |
| Grammar.BalancedIffGrammatical | internal/rpm/spec/tree.go:121-182 | Conditional matching accepts masked lines exactly when some well-formed tree has these lines |
| Grammar.BuildWellFormed | internal/rpm/spec/tree.go:311-514 | Lines with matching conditionals build a well-formed tree |
| Grammar.SectionEndSplits | internal/rpm/spec/tree.go:529-553 | A section ends so that its content is balanced and holds no header, and what follows is balanced too |
| TreeBuilder.ParseTree | internal/rpm/spec/tree.go:84-116 | The index-based parser returns exactly the specified tree or error |
| TreeBuilder.BuildBlockChildren | internal/rpm/spec/tree.go:311-425 | Building a range yields the blocks its lines denote, or the one possible error: the macro left open in it; an %if always has its pair |
| TreeBuilder.BuildConditionalBranches | internal/rpm/spec/tree.go:459-514 | The branches of a conditional, with nested conditionals for %elif, are those its body denotes |
| TreeBuilder.ParseMacroDefBlock | internal/rpm/spec/tree.go:427-454 | A macro block is its definition and its whole body, or the body is still open at the end of the file |
| TreeBuilder.WrapPreambleBlocks | internal/rpm/spec/tree.go:187-228 | The loop finds the specified preamble |
| TreeParser.CollectTreeConditionalPairs | internal/rpm/spec/tree.go:121-182 | Outside macro bodies each %if is paired with its %endif; errors are exactly those of matching on a stack |
| TreeParser.FindSectionHeaderLines | internal/rpm/spec/tree.go:258-281 | The set of headers outside macro bodies |
| TreeParser.HasSectionHeaderInRange | internal/rpm/spec/tree.go:296-304 | Whether some line of the range is such a header |
| TreeParser.FindTreeSectionEnd | internal/rpm/spec/tree.go:531-553 | The scan by pairs and header numbers stops where the lines alone say a section ends |
| TreeParser.FindElseDirectiveLine | internal/rpm/spec/tree.go:557-589 | Starting afresh in the middle of a file, the scan sees the same macro bodies and finds the next branch at depth zero |
| Scanning.ScanAfresh | internal/rpm/spec/tree.go:557-589 | A scan that starts afresh at a line outside every macro body masks the rest as the scan of the whole file does |
| Conditionals.RunToClose | internal/rpm/spec/tree.go:121-182 | The first close of an open conditional splits matching into a balanced body and the rest |
| Conditionals.BranchBodySplit | internal/rpm/spec/tree.go:459-514 | The first branch directive at depth zero splits the body of a conditional into a balanced branch and the rest |
| Lines.ClassifyAgrees | internal/rpm/spec/edit.go:207-254 | The directive, branch, macro, header and blank tests of both engines are the cases of one classification, so they exclude each other |
| LineText.DirectiveIs | internal/rpm/spec/edit.go:203-254 | A line is a conditional directive by its first word, in any case and behind any white space |
| LineText.DefinitionIs | internal/rpm/spec/tree.go:592-616 | A line with %define or %global and a name behind it defines the macro of that name |
| LineText.BlankOrCommentIs | internal/rpm/spec/edit.go:1124-1128 | Blank lines are white space, and comments have a # behind it |
| Lines.GetPackageNameFromSectionHeader | internal/rpm/spec/spec.go:542-585 | The package is that of the last -n before any --, else the first word that is neither a flag nor the argument of one, else none |
| Lines.PackageIsNamed | internal/rpm/spec/spec.go:542-585 | The same of the recursive reading of the tokens |
| MacroText.TextReads | internal/rpm/spec/tree.go:666-757 | A grammar of well-nested macro text, with live and escaped expansions, shell and raw braces and Lua: reading it leaves as many constructs open as before, and no fewer expansions among them |
| MacroText.NestedTextCloses | internal/rpm/spec/tree.go:666-757 | Well-nested text on its own leaves nothing open |
| MacroText.OpenTextContinues | internal/rpm/spec/tree.go:652-716 | An expansion whose text is well nested but that is not closed leaves the body open |
| MacroText.OpenerReads | internal/rpm/spec/tree.go:729-757 | What n percent signs and a brace do: an odd number opens an expansion, a Lua one in front of "lua:", an even one nothing outside of expansions and an escaped brace inside |
| MacroText.CloserGoesTo | internal/rpm/spec/tree.go:692-703 | A closing brace goes to a shell brace first, then to a raw one, and last to an expansion |
| MacroText.CodeReads | internal/rpm/spec/tree.go:763-837 | A grammar of Lua code, with quoted strings and their escapes, long brackets and comments of every level: reading it leaves as many braces open as before |
| MacroText.CodeCloses | internal/rpm/spec/tree.go:763-837 | A Lua expansion ends at the first brace behind its well-nested code |
| MacroText.CommentHides | internal/rpm/spec/tree.go:803-812 | A Lua line comment hides the rest of the line |
| MacroLexer.EscapesEndWithLine | internal/rpm/spec/tree.go:709-714 | A backslash at the end of a line escapes nothing on the next one |
| MacroBodies.SignsDecide | internal/rpm/spec/tree.go:729-757 | For n percent signs, a brace and text without braces: an odd number leaves one expansion open, an even one none |
| MacroBodies.ExpansionHides | internal/rpm/spec/tree.go:652-716 | In every file, a definition that ends in a live opener hides exactly the lines up to the first one that closes it |
| MacroBodies.ClosedDefinition | internal/rpm/spec/tree.go:652-658 | A definition that opens nothing hides the next line exactly when it ends in a backslash |
| MacroBodies.OneMacro | internal/rpm/spec/tree.go:427-454 | A file that is one definition spanning all its lines parses to one macro block, whatever the lines look like |
| MacroLexer.LuaScanIsCombinedScan | internal/rpm/spec/tree.go:763-837 | The two Lua counters close the expansion exactly where a single counter of code braces would |
| MacroLexer.LuaStepKeepsSum | internal/rpm/spec/tree.go:814-831 | Each Lua item moves the sum of the two counters like one counter, and they stay non-negative |
| MacroLexer.LuaItem | internal/rpm/spec/tree.go:769-812 | Every Lua item advances; quoted and long-bracket text never is a brace, and a comment runs to the end of the line or opens a long bracket |
| MacroLexer.MacroScanValid | internal/rpm/spec/tree.go:666-716 | Over every line from every reachable state: counters are non-negative, Lua implies depth at least one and no escaped braces, raw braces imply a depth that is not only Lua |
| MacroLexer.LexLinesValid | internal/rpm/spec/tree.go:652-716 | These invariants hold after any lines |
| MacroLexer.MacroStateAfter | internal/rpm/spec/tree.go:666-716 | The loop with a Lua object in place computes the specified state |
| MacroLexer.MacroStateStep | internal/rpm/spec/tree.go:668-706 | One turn of the loop advances and is one step of the scan |
| MacroLexer.MacroStateAfterPercentRun | internal/rpm/spec/tree.go:729-757 | An odd run of percent signs opens a macro, an even one is escaped |
| MacroLexer.ConsumeEscapedBracedMacro | internal/rpm/spec/tree.go:718-727 | Only braces count inside an escaped macro |
| MacroLexer.MacroBodyStateAfter | internal/rpm/spec/tree.go:654-658 | A body goes on after a backslash or in an open construct |
| MacroLexer.LuaState.Consume | internal/rpm/spec/tree.go:763-837 | The mutating scan ends in the state and at the index of the specified one |
| MacroLexer.LuaState.Step | internal/rpm/spec/tree.go:769-834 | One turn of the mutating scan is one step of the specified one |
| EnginesAgree.TheEnginesAgree | internal/rpm/spec/edit.go:896-954 | On a spec that parses and whose macro bodies hold nothing that looks like a directive or a header, whenever the ranges of selected sections are accepted, they are exactly where the selected sections of the tree stand, and removing either leaves the same lines |
| EnginesAgree.SameRanges | internal/rpm/spec/edit.go:896-954 | On such a file the line-oriented engine, which does not look for macro bodies, collects the ranges it would collect if it masked them |
| HiddenHeader.EnginesDisagree | internal/rpm/spec/edit.go:896-954 | A file of two lines with a header inside a macro body: the tree has no section, and the line-oriented engine accepts the removal of half of the macro |
| LineAcceptance.AcceptsRemoval | internal/rpm/spec/edit.go:896-954 | On a spec that parses and whose macro bodies hold nothing that looks like a directive or a header, a removal is accepted if and only if nothing but blanks, comments, %if and %endif lies between the end of each selected section of the tree and the next header |
| LineAcceptance.AcceptsOnText | internal/rpm/spec/edit.go:1010-1086 | The same on the text: every line from the end of a selected section to the next header is blank, a comment or opens or closes a conditional |
| LineAcceptance.BalancesExactly | internal/rpm/spec/edit.go:1010-1073 | The range from a header to the next one is balanced to exactly the extent of its section when nothing but blanks, comments, %if and %endif follows up to the next header, and refused otherwise |
| RangeOwnership.AcceptedKeepsOwners | internal/rpm/spec/edit.go:896-954 | The line-oriented engine does not check owners: a removal it accepts leaves every surviving line that matters with its owner, for every choice of conditions, if and only if the check of the structural engine passes for the same sections |
| RangeOwnership.AcceptedLosesOwner | internal/rpm/spec/edit.go:1010-1073 | A file of eight lines where it accepts a removal that hands a line to another section |
| EnginesAgree.SectionExtents | internal/rpm/spec/tree.go:529-553 | Every section of the tree stands on exactly the lines up to the next header, the end of its branch or a conditional around sections |
| EnginesAgree.BalancedIsExtent | internal/rpm/spec/edit.go:1010-1073 | A range to the next header that balances is trimmed to exactly that extent |
| StructureKept.RemovalKeepsConditionals | internal/rpm/spec/edit.go:1010-1137 | After an accepted removal, the directives left form the old conditionals without those removed: every %if left keeps its %endif and exactly its own branches in order |
| StructureKept.EventsOfPairs | internal/rpm/spec/edit.go:965-992 | The pairs collected are the %if/%endif of that structure |
| RangeSoundness.PairsAreExact | internal/rpm/spec/edit.go:965-992 | Each %if and each %endif is in exactly one pair, and the pairs come in the order of their %endif |
| RangeSoundness.PairsDoNotCross | internal/rpm/spec/edit.go:965-992 | Pairs nest |
| RangeSoundness.FirstEnclosingIsInnermost | internal/rpm/spec/edit.go:1102-1117 | The first pair found around a line is the innermost one |
| RangeSoundness.BalancedIsClean | internal/rpm/spec/edit.go:1010-1073 | A range that balancing accepts cuts no conditional and holds no branch of one outside |
| Ranges.CollectConditionalPairs | internal/rpm/spec/edit.go:965-992 | The stack loop computes the specified pairs or error |
| MatchingErrors.PairingNames | internal/rpm/spec/edit.go:965-992 | What the two errors of pairing name: an %endif before which every conditional is closed, or the first %if that none closes |
| Ranges.BalanceRange | internal/rpm/spec/edit.go:1010-1073 | The loop over pairs trims to the first straddling line or refuses, as specified for every error |
| Ranges.ValidateNoContentAfter | internal/rpm/spec/edit.go:1078-1086 | True exactly when only blanks, comments, %if and %endif lie between the lines |
| Ranges.ValidateNoBranchDirectives | internal/rpm/spec/edit.go:1092-1121 | True exactly when the first pair around each branch of the range lies in the range |
| Ranges.BalanceRanges | internal/rpm/spec/edit.go:931-953 | All ranges balanced in turn, the first error winning; no pairs are collected for none |
| SectionRemoval.CollectRanges | internal/rpm/spec/edit.go:896-954 | Walking over the file collects exactly the ranges read off its headers |
| SectionRemoval.RemovalFromTree | internal/rpm/spec/edit.go:896-954 | On a spec that parses and whose macro bodies look like no directive and no header: success if there is a section to remove and all of them are clear behind their ends on the text, "not found" exactly without one, and the lines that removing them from the tree leaves |
| SectionRemoval.SelectedBy | internal/rpm/spec/edit.go:896-954 | The sections selected are those whose header has the name and package, or the package |
| SectionRemoval.RemoveRanges | internal/rpm/spec/edit.go:1133-1137 | Removing from the last range to the first leaves the lines outside all of them |
| SectionRemoval.RemoveSelected | internal/rpm/spec/edit.go:896-954 | What the removal leaves in each case, and no change on any error |
| SectionRemoval.RemoveSection | internal/rpm/spec/edit.go:810-831 | Succeeds exactly when the section has balanced ranges, and removes them; else nothing changes |
| SectionRemoval.RemoveSubpackage | internal/rpm/spec/edit.go:855-876 | The same for all sections of a package |
| SpecLines.TagMatchesPattern | internal/rpm/spec/spec.go:479-510 | Reading a tag finds a name and a value exactly when the line is the name, a colon, blanks, the value and blanks |
| TagText.SectionIsOfLastHeader | internal/rpm/spec/spec.go:456-496 | A line is in the section of the nearest header above it, or in the preamble; a header gives the name as it is written, the type of the name in lower case, and the package of the last -n or the first word, none for change logs and lists of sources |
| TagText.TagIsRead | internal/rpm/spec/spec.go:468-516 | A line is read as a tag of a name and value if and only if it is in a package section or the preamble, is no header, has no # in the first column, and its trimmed text is of the form of a tag |
| LineText.FieldsRead | internal/rpm/spec/spec.go:481-482 | The tokens of a line are its longest runs without white space, from left to right |
| LineText.TrimSpaceIs | internal/rpm/spec/spec.go:468-477 | Trimming takes away the white space at both ends and nothing else |
| LineText.FlagsPassed | internal/rpm/spec/spec.go:542-585 | Flags and their arguments never name the package, and -- ends the scan |
| SpecWalk.Visit | internal/rpm/spec/spec.go:340-454 | The walk with its counters, reparsing and edits in place ends whenever the plain cursor does, and in the same lines and visitor state |
| SpecWalk.VisitLine | internal/rpm/spec/spec.go:370-429 | Going over one line either parses it unvisited or is one visit of the cursor |
| SpecWalk.VisitStart | internal/rpm/spec/spec.go:341-367 | The two visits of the start, whatever they insert, replace or remove, leave the counters at the first stop |
| SpecWalk.VisitEnd | internal/rpm/spec/spec.go:431-453 | The two visits of the end |
| SpecWalk.Terminates | internal/rpm/spec/spec.go:340-454 | The walk of every visitor that edits where its edits fit and never inserts after a line it has just inserted after another ends, within a number of visits fixed by the lines left |
| SpecWalk.WholeWalk | internal/rpm/spec/spec.go:340-454 | A walk that gets to the end of the file offers each line of the file exactly once and in order, and none the visitor has inserted, except for the lines at the front that its two actions at the start remove or lead past; the first line offered is offered twice if and only if the second of these actions removes a line, or the first does and the second is none, and the visitor keeps it the first time |
| SpecWalk.FirstStop | internal/rpm/spec/spec.go:237-284 | For every pair of actions at the start: how many lines at the front of the file are not offered (two after two edits of which the first is a removal, one after a removal and nothing else; none when nothing is edited, or the first action inserts lines before the start and the second edits the first of those; else one), and that the next line may be offered twice exactly when the second action is a removal, or the first is and the second is none |
| SpecWalk.OfferedOnce | internal/rpm/spec/spec.go:369-429 | From any stop on, the lines not inserted by the visitor are offered exactly once and in order, whatever is inserted, removed or replaced; only a first line that is to be visited again is offered twice |
| SectionsTold.TellsAfterMove | internal/rpm/spec/spec.go:378-428 | After a visit that told the section in force, the next one does if and only if the visitor has not just removed the header of another section at the start of that section, or replaced it there by a line that is no header, and no such header is visited a second time; only the last makes a line be read in another section |
| SectionsTold.WalkIsTruthful | internal/rpm/spec/spec.go:340-454 | A visitor is told the section in force, and the lines are read in it, throughout its walk over a file if and only if no visit does any of this |
| SectionsTold.RemovedHeaderStays | internal/rpm/spec/spec.go:378-411 | A file of two lines and a visitor that removes the header at its start: the other line and the end of the file are announced as parts of the section, though only the preamble is left |
| SectionsTold.HeaderVisitedTwice | internal/rpm/spec/spec.go:340-428 | A file of two lines and a visitor that removes the first at the start of the spec: the second line is offered twice |
| SpecWalk.Context.InsertLinesBefore | internal/rpm/spec/spec.go:240-249 | The lines and counters after the edit |
| SpecWalk.Context.InsertLinesAfter | internal/rpm/spec/spec.go:254-260 | The lines and counters after the edit; the last line inserted is still to be visited |
| SpecWalk.Context.RemoveLine | internal/rpm/spec/spec.go:264-272 | The lines and counters after the edit |
| SpecWalk.Context.ReplaceLine | internal/rpm/spec/spec.go:276-284 | The lines and counters after the edit |
| SpecWalk.Context.Advance | internal/rpm/spec/spec.go:421-428 | The counters after a line, which stand at the next stop of the cursor |
| Reading.Read | internal/rpm/spec/spec.go:340-454 | A visitor that only reads folds over the events of each line and changes nothing |
| LineEdits.RemoveTagsMatching | internal/rpm/spec/edit.go:146-162 | The result is the filter of the lines by section, tag and value in the original file, the count is the number of lines gone, and no matching tag is left |
| LineEdits.RemovingTagsFilters | internal/rpm/spec/edit.go:146-162 | Removing while walking equals filtering by the sections of the original file |
| TagText.RemovedTags | internal/rpm/spec/edit.go:77-106 | On the text: what is removed are exactly the tag lines of the package whose name is the same but for case and whose value is the one given, if any; no line outside of package sections is |
| TagText.UpdatedOnText | internal/rpm/spec/edit.go:51-75 | On the text: what an update rewrites are exactly the tag lines of the package whose name is the same but for case |
| LineEdits.NoTagLeft | internal/rpm/spec/edit.go:146-162 | Removing tags overlooks none and exposes none |
| LineEdits.RemoveTag | internal/rpm/spec/edit.go:81-106 | The same for a name and an optional value; fails exactly when nothing was removed |
| LineEdits.SearchAndReplace | internal/rpm/spec/edit.go:514-571 | Line by line, a body line in scope becomes its replacement, where the section is that of the new lines before it; fails exactly when nothing changed |
| LineEdits.UpdateExistingTag | internal/rpm/spec/edit.go:51-75 | Every tag of the name is updated, and it fails, changing nothing, exactly when the package has none |
| LineEdits.FoldRewrites | internal/rpm/spec/spec.go:276-284 | Rewriting while walking is the line-by-line rewriting in the sections of the new lines |
| LineEdits.RewrittenOnce | internal/rpm/spec/spec.go:276-284 | Only one list of lines is that rewriting |
| LineEdits.EditorFolds | internal/rpm/spec/spec.go:340-454 | A line editor visits every line once, and its walk is the left-to-right fold |
| SectionEdits.AppendLinesToSection | internal/rpm/spec/edit.go:473-508 | The result is the file split at its headers with the lines, whatever they are, once at the end of every matching segment; fails exactly when there is none |
| SectionEdits.PrependLinesToSection | internal/rpm/spec/edit.go:426-468 | The same after the header of every matching segment, or at the top of the file |
| SectionEdits.PrependingEnds | internal/rpm/spec/edit.go:426-468 | Prepending ends if and only if not both: the section has a header in the file, and the lines end in another header of it |
| TagText.AppendedAt | internal/rpm/spec/edit.go:473-508 | Segment by segment: those of the name and package get the lines at their end, the others stay |
| TagText.PrependedAt | internal/rpm/spec/edit.go:426-468 | Segment by segment: those of the name and package get the lines behind their header, the preamble gets them first, the others stay |
| SectionEdits.AppendedSegments | internal/rpm/spec/edit.go:473-508 | What the appending walk makes of the lines, in terms of segments |
| SectionEdits.PrependedSegments | internal/rpm/spec/edit.go:426-468 | What the prepending walk makes of the lines, in terms of segments |
| SectionEdits.SegmentsJoin | internal/rpm/spec/spec.go:378-411 | Splitting at headers loses nothing |
| SectionEdits.SegmentsWellCut | internal/rpm/spec/spec.go:378-411 | Each segment after the first starts with its header, and holds no other |
| TagInsertion.InsertTag | internal/rpm/spec/edit.go:271-306 | Behind the last tag of the family, else the last tag, once past the conditionals open there; without any tag, at the end of the section; all other lines stay in order |
| TagInsertion.InsertedTagStands | internal/rpm/spec/edit.go:298-303 | The new line is not before the tag it follows nor after the end of the last section of the name, has no conditional open exactly when some line from that tag to that end leaves none open, stands at depth zero when it moved, and belongs to the section of the last header passed on the way |
| TagInsertion.InsertedTagSection | internal/rpm/spec/edit.go:298-303 | The new tag stands in a section of the name if and only if the last header between the tag it follows and its place, if there is any, is one of that name again |
| TagInsertion.InsertedTagStays | internal/rpm/spec/edit.go:298-303 | Read off the file: the new tag stands before the header that ends the section of the tag it follows if and only if a line from that tag up to that header leaves no conditional open, or no line up to the end of the last section of the name does |
| TagInsertion.ScansOnce | internal/rpm/spec/edit.go:318-376 | Only one result of the scan meets its specification |
| TagInsertion.SkipsOnce | internal/rpm/spec/edit.go:382-403 | Only one place meets the specification of the skip |
| StrayTag.TagStrays | internal/rpm/spec/edit.go:271-306 | A file of ten lines where the only scan and place that meet their specifications put the new tag of a package into its description |
| StrayTag.InsertStray | internal/rpm/spec/edit.go:271-306 | Inserting the tag into that file succeeds and leaves it outside of the package |
| TagInsertion.SkipPastConditional | internal/rpm/spec/edit.go:382-403 | The chosen line if no conditional is open after it or none closes in the section, else the first line that closes them all |
| TagInsertion.FindInsertTagPosition | internal/rpm/spec/edit.go:318-376 | The last tag of the family and of any kind in the section, and the end of the last section of the name |
| TagInsertion.TagFamily | internal/rpm/spec/edit.go:186-201 | The name in lower case without its number |
| TagText.FamiliesAgree | internal/rpm/spec/edit.go:186-201 | Two names are of one family if and only if they differ in case and in the number behind them at most; a name that is a number is of its own |
| TagText.FamilyIs | internal/rpm/spec/edit.go:186-201 | The family of a stem with any number of digits behind it is the stem in lower case; that of a number is itself |
| TagText.ChosenOnText | internal/rpm/spec/edit.go:271-306 | The line a new tag is put behind: the last tag line of the section whose name differs from the new one in case and number at most; without one, the last tag line of the section |
| TagInsertion.DepthCounts | internal/rpm/spec/edit.go:382-403 | The depth before a line is the number of lines that open a conditional less the number of those that close one |
| TagInsertion.SetTag | internal/rpm/spec/edit.go:35-46 | With a tag of the name every such tag is updated; without one, one is added, and only a missing section is an error |
| TagInsertion.AddTag | internal/rpm/spec/edit.go:172-181 | The tag at the end of every section of the package |
| Fingerprint.EncodingIsExact | internal/fingerprint/fingerprint.go:152-183 | Two streams are equal if and only if all inputs are, the whole overlay map included, whatever bytes they hold and in whatever order the map hands out its keys |
| Fingerprint.CombineInputs | internal/fingerprint/fingerprint.go:152-176 | The stream written is an encoding of the inputs with its keys sorted |
| Fingerprint.StreamInjective | internal/fingerprint/fingerprint.go:179-183 | A stream of fields determines the fields |
| Fingerprint.FieldUnique | internal/fingerprint/fingerprint.go:179-183 | A field can be read off the front of a stream in one way only |
| Fingerprint.StreamSays | internal/fingerprint/fingerprint.go:152-176 | Whatever fields a stream is read as, each input is under its own label, every overlay under its key, and there is nothing else |
| Fingerprint.ResolutionSays | internal/fingerprint/fingerprint.go:219-231 | The same for the inputs of a resolution, in order |
| Fingerprint.DecimalValue | internal/fingerprint/fingerprint.go:156-158 | Numbers are written in decimal, without leading zeros |
| Fingerprint.LessAtDifference | internal/fingerprint/fingerprint.go:168 | Keys are ordered by the first place where they differ |
| Fingerprint.SortedOnce | internal/fingerprint/fingerprint.go:168 | A set of keys has one sorted list |
| Fingerprint.ResolutionStreamInjective | internal/fingerprint/fingerprint.go:219-231 | Equal streams come from equal resolution inputs |
| LockInterleavings.CacheStaysCoherent | internal/lockfile/store.go:93-201 | In every interleaving of disciplined calls, at every moment, each cached lock is what loading its file would give, unless a change of it is half written |
| LockInterleavings.OverlapIsSafe | internal/lockfile/store.go:93-201 | Two calls on one component may overlap in every way if and only if they are compatible and save nothing but the current version |
| LockInterleavings.AnswersAreTrue | internal/lockfile/store.go:93-185 | Every lock handed out is the one on disk at that moment, and existence is reported truly unless a change is half written |
| LockInterleavings.GetOverlapsSave | internal/lockfile/store.go:111-118 | A read beside a save of another lock can cache the old lock for good |
| LockInterleavings.GetOverlapsRemove | internal/lockfile/store.go:111-118 | A read beside a removal can cache a lock without a file |
| LockInterleavings.SaveOverlapsSave | internal/lockfile/store.go:162-168 | Two saves beside each other can leave the lock that lost in the cache |
| LockInterleavings.SaveOverlapsRemove | internal/lockfile/store.go:162-198 | A removal beside a save can leave a cached lock without a file |
| LockInterleavings.SaveOfOtherVersion | internal/lockfile/lockfile.go:105-118 | A lock saved in another version is cached although its file does not load |
| LockInterleavings.GetAlone | internal/lockfile/store.go:93-123 | A lookup that nothing interrupts does to the cache what the method of the store does, and gives its answer |
| LockInterleavings.ExistsAlone | internal/lockfile/store.go:174-185 | The same for looking for a file |
| LockInterleavings.ChangeAlone | internal/lockfile/store.go:152-201 | The same for saving and removing |
| LockStore.Disk.Load | internal/lockfile/lockfile.go:105-118 | A file loads if it holds a lock of the current version, and every failure has its error |
| LockStore.Store.Get | internal/lockfile/store.go:93-123 | Succeeds exactly when cached or loadable, with a fresh copy of the cached lock, or of the loaded one, which is then cached; in a coherent store that is the lock on disk |
| LockStore.Store.GetOrNew | internal/lockfile/store.go:128-147 | The cached lock, else that of the file, an empty one without a file, an error for a file that does not load; in a coherent store always the lock of the file if there is one |
| LockStore.Store.Save | internal/lockfile/store.go:152-171 | File and cache hold the lock, the cache a copy of its own; coherent afterwards exactly when the version is current and all other entries were |
| LockStore.Store.Exists | internal/lockfile/store.go:174-185 | The answer or error in every case; in a coherent store, true exactly when the component has a file |
| LockStore.Store.Remove | internal/lockfile/store.go:188-201 | File and entry go together or not at all; coherent afterwards exactly when all other entries were |
| LockStore.Store.PruneOrphans | internal/lockfile/store.go:228-263 | Exactly the removable orphans are gone, files and entries, and the counts add up; a coherent store stays coherent |
| LockStore.ChangesStayOutside | internal/lockfile/store.go:89-100 | A caller that changes the locks it got or saved changes nothing in the store, which goes on handing out what was saved |
| IncludeLoader.LoadsExactlyTrees | internal/projectconfig/loader.go:407-474 | A file loads if and only if its include graph unfolds to a finite tree of readable files whose preorder holds no file twice, and the files come in that order |
| IncludeLoader.ItemsInOrder | internal/projectconfig/loader.go:436-470 | Includes are followed in their order |
| IncludeLoader.SharedIsCircular | internal/projectconfig/loader.go:420-425 | Including what an earlier include of the same file has loaded is refused as a circular include of that file, cycle or not |
| IncludeLoader.IncludedTwice | internal/projectconfig/loader.go:420-425 | In particular a file without includes that is included twice |
| IncludeLoader.OnlyCircular | internal/projectconfig/loader.go:407-474 | When every file can be read and every include resolves, the only possible error is that of a circular include |
| IncludeLoader.Loader.Load | internal/projectconfig/loader.go:407-474 | The recursion with its shared set of seen files ends on every graph, with the specified files or first error |
| OutputTail.Tail.Write | internal/providers/sourceproviders/customsourceprovider.go:336-353 | After any writes the buffer holds the last bytes of all that was written, and the flag says whether some are missing |
| OutputTail.Tail.Shown | internal/providers/sourceproviders/customsourceprovider.go:355-361 | The text shown and whether it comes behind a notice |
| OutputTail.Capture | internal/providers/sourceproviders/customsourceprovider.go:303-315 | What is shown depends only on what the writes add up to |

## Left out

- Block identity: trees are values and a section is known by the number of its header line, so pointers between blocks, in-place appends to a parent's children and edits through a handle after its section was removed are not captured.
- Appending and prepending through a section handle, and the test whether a section of a name exists, which walks the tree up to the first one.
- The error "has no matching pair" is not a value of the model: the builder is proved never to reach it.
- StructuralSpec.StructuralSpec.MutateTree: the edit is a function from the root's children to new ones; an edit that also has effects elsewhere is not modelled.
- TreeBuilder.ParseTree: errors carry the kind and the line they name; their texts are left out.
- EnginesAgree.TheEnginesAgree: does not cover files with something that looks like a directive or a header inside a macro body, where the engines can disagree.
- LineAcceptance.AcceptsRemoval: has the same condition.
- LineAcceptance.AcceptsOnText: has the same condition.
- SectionRemoval.RemovalFromTree: has the same condition.
- MacroText.TextReads: the grammar leaves out text that the lexer reads in another way than it is nested, such as escaped openers inside shell braces.
- RangeOwnership.AcceptedKeepsOwners: has the same condition.
- SectionRemoval.CollectRanges: predicates that select the preamble are left out; no caller passes one.
- SpecWalk.Visit: a callback makes one edit at most. Two kinds of edits are left out: those outside the file, where the code panics; and a second edit at a header that the visitor has just removed at the end of the section before it, which falls on the line after it.
- LineEdits.SearchAndReplace: the regular expression is a function on lines, or fails to compile.
- LineEdits.RemoveTag: comparing values without case is a parameter.
- SectionEdits.PrependLinesToSection: has a precondition the code lacks, the exact condition under which the walk ends.
- Lower-casing is exact only where the result is ASCII, which is all that keywords need; tag names with other letters may compare differently.
- Lines hold characters, not bytes; invalid UTF-8 and the limit on the length of a line read are left out.
- Changelog and patch entries and HasSection, which combine the edits above or read a flag.
- LockInterleavings.OverlapIsSafe: steps of the cache and of the disk are atomic, files read back as written, and names are valid; partial writes and changes of the files by others are left out.
- Fingerprint.EncodingIsExact: is about the bytes that are hashed; SHA-256, the hash of the configuration and the reading of overlay files are left out.
- IncludeLoader.Loader.Load: patterns are already expanded to files or to a failure; parsing and merging of configurations and making paths absolute are left out.
- OutputTail.Tail.Shown: returns the limit and the text instead of the message made of them.
- Printing, logging, the command line, network access, git, mock and every other caller of these parts.
