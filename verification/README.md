# An RPM solver and a verity builder, modelled and proved

The repository plans Linux distributions that are built from source: it resolves what packages require, plans the
order (and the bootstrap stages) in which sources are built, and writes the dm-verity hash tree of the image that
results. This project models the code that decides those things and proves what the rest of the repository relies on.

- **The build graph.** Iterative Tarjan (`Tarjan.dfy` over the invariant in `TarjanState.dfy`), the topological order,
  and the staged bootstrap (`BuildPlan.dfy`). `StagedBuild.dfy` reads the plan as the build rules do and proves that the
  graph of targets has no cycle.
- **Versions and requirements.** `rpmvercmp` as a comparison of token sequences (`RpmVersion.dfy`), the rules its
  documentation lists, said of versions as they are written (`VersionMeaning.dfy`), constraints (`Requirement.dfy`), the
  choice of one provider (`Provider.dfy`).
- **Boolean dependencies.** The scanners (`BooleanScan.dfy`), what they see (`BooleanSentence.dfy`), the parser and the
  printer (`BooleanDeps.dfy`), exactly when one undoes the other (`BooleanRoundTrip.dfy`), and which words read as which
  expression (`BooleanWords.dfy`).
- **The runtime closure.** What one requirement demands (`ClosureRules.dfy`), what a run has accounted for
  (`ClosureInvariant.dfy`, `ClosureRun.dfy`), the least closed set (`ClosureFixpoint.dfy`), which branches a run can
  have taken (`ClosureBranches.dfy`), the class whose lists the loops change (`RuntimeClosure.dfy`), what a clean solve
  means (`ClosureMeaning.dfy`, `RpmClosure.dfy`), which requirements leave no choice and so are met outright
  (`DueRequirements.dfy`), exactly when a requirement is kept whatever else a run is asked for (`KeptRequirements.dfy`),
  what acceptance for a version range means (`VersionRanges.dfy`), and inputs on which the code falls short, worked
  through to the end (`RpmCases.dfy`, `OverrideCases.dfy`).
- **Repositories.** The newest-wins merge (`Merge.dfy`, `MergeRun.dfy`), fallback repositories (`FallbackMerge.dfy`),
  versioned requirements (`Constrained.dfy`, and as they are written `SpelledRequirements.dfy`), the collapse to one
  build a name (`Collapse.dfy`), the maps a solve reads (`Universe.dfy`), what they say in architectures and versions
  (`UniverseMeaning.dfy`), those maps with and without the fallbacks (`FallbackUniverse.dfy`), and a solve from package
  records to closure (`Solve.dfy`).
- **dm-verity.** The tree, the walk and the binding of root to data (`Verity.dfy`), and the code that builds and writes
  it (`VerityImage.dfy`); `VerityLayout.dfy` says what is stored where, hash and salt written out. The format is version
  1 of the Linux kernel's, in Documentation/admin-guide/device-mapper/verity.rst, section "Hash Tree".
- **Source policy.** Building and re-validating the coverage record (`SourcePolicy.dfy`).

`dafny verify dfyconfig.toml` checks everything.

## Reading the model

Loops are methods; each is proved equal to a function, or to a property, about which the lemmas speak. Strings are
sequences of characters; `TextOrder.dfy` and `PyText.dfy` hold the string operations the code uses. The cryptographic
hash is a parameter: nothing assumes it injective, and where the data could differ the theorems exhibit the two
distinct blocks with one digest. The closure takes the reading and resolving of capability text as a record of
functions (`ClosureRules.Rules`), so that its theorems hold for any such reading; `RpmClosure.RpmRules` is the one the
solver uses. Problems are structured values; the wording of messages is not modelled.

Where code and documentation part:

- `tools/depgraph.py:421-423` says the operator scanner lands on a token's trailing blank; the statement after it steps
  over that blank. The model does what the code does, and `RoundTripIff` is stated for it.
- The printer and the parser are documented as inverses (`tools/depgraph.py:528-554`). They are on exactly the trees
  `Printable` describes. `ParsedButNotPrintable` gives a dependency, `(a or ((b)))`, that parses to a tree which printing
  and parsing does not give back.
- `tools/solve.py:826-828` says a package whose plain name is also a qualified name keeps its own entry. Its build does;
  its requirements are overwritten (line 809). `NeedsAreTheBuilds` says exactly when that shows, in terms of the package
  list, and `QualifiedNameTakesNeeds` gives a list of three packages where it does.
- `tools/depgraph.py:817-822` says either of two installed providers makes a condition true. If the condition's name has
  an override, line 815 asks only whether the override's answer is installed. `OverrideHidesCondition` works through a
  repository of four packages in which `(a if b)` is silently dropped; `ConditionalKeptIff` says exactly for which
  overrides that can happen, and `NameReadIff`, `PositiveReadIff` and `WithoutReadIff` which conditions are never
  overlooked. Without an override on its names, no condition of `and`, `or` and `with` is; a `without` can be, because its
  two halves are asked of the whole closure and not of one package.
- `tools/depgraph.py:611-613` says an `or` is satisfied by any one branch, and lines 785-788 that a capability whose
  provider is installed is satisfied. The code asks whether any name mentioned in the `or`, or any candidate's name, is
  provided (lines 1068-1069). In `HalfSettlesChoice` a solve with `((a and b) or c)` ends clean with `a` alone, and in
  `NamesakeSettlesChoice` a choice of providers is dropped because another package provides a candidate's name.
  `OrKeptIff` and `CapKeptIff` say exactly when that cannot happen.

An override keyed on an expression is taken on trust, as `tools/depgraph.py:241-250` says: its package settles the
expression whether or not it provides what the expression asks for. The meaning of a closure is proved with such
overrides; `OrKeptIff`, `WithKeptIff` and `WithoutKeptIff` say exactly which answers keep the requirement, and
`AnswerNeedNotFit` gives a clean solve for each of the three shapes with an answer that provides nothing of it.

Two properties of version ranges hold exactly where every provider states one version:

- A provider accepted for a range meets each bound by some version it states, not all by the same one
  (`AcceptedTrulyIff`; `TwoVersionsMislead` gives the range that holds no version at all).
- The newest version stated decides, in range or not (`tools/depgraph.py:764-770`), so the answer to a range need not be
  the newest version in it (`NewestInRangeIff`; `NewerElsewhere` gives two packages and a range).

And one check has nothing to do:

- The check that digests fill a hash block in a power of two can never fail (`tools/_verity.py:40-43`): block sizes and
  digest sizes are powers of two already (`AcceptedParameters`).

## Model

| member | source | states |
|---|---|---|
| Tarjan.StronglyConnectedComponents | tools/depgraph.py:1171-1226 | for every graph: disjoint sorted components covering the nodes, each a set of nodes that reach each other, and no edge from a component to a later one |
| Tarjan.SameComponentIffMutual | tools/depgraph.py:1171-1226 | two nodes share a component if and only if each reaches the other |
| Tarjan.EarlierComponentsClosed | tools/depgraph.py:1171-1226 | whatever a node reaches stands in its component or an earlier one |
| Tarjan.Search | tools/depgraph.py:1195-1224 | the resumable work stack, run to its end, keeps the whole Tarjan invariant and leaves nothing open |
| Tarjan.TakeNeighbour | tools/depgraph.py:1196-1210 | one resumption of an iterator keeps the invariant, whether it descends, lowers a link or skips |
| Tarjan.CutComponent | tools/depgraph.py:1216-1224 | cutting the stack at a root of the search keeps the invariant and appends one component |
| TarjanState.ComponentIsClosed | tools/depgraph.py:1216-1224 | nothing a cut component reaches is still on the stack |
| TarjanState.ComponentConnected | tools/depgraph.py:1216-1224 | members of a cut component reach each other |
| BuildPlan.ProjectToSourceGraph | tools/depgraph.py:1133-1168 | an edge exactly where a binary dependency, variant routes first, comes from another source being built |
| BuildPlan.RoutesFirst | tools/depgraph.py:1133-1168 | a route at the source decides where a dependency comes from; only without one does the map of binaries to sources |
| BuildPlan.FindCycles | tools/depgraph.py:1229-1239 | the cycles are whole mutual-reachability classes and hold exactly the nodes that lie on a cycle |
| BuildPlan.CyclicIffOnCycle | tools/depgraph.py:1233-1239 | a component is reported exactly when its nodes can return to themselves |
| BuildPlan.TopologicalOrder | tools/depgraph.py:1242-1250 | every node once, and nothing before something it depends on unless the two are on one cycle |
| BuildPlan.StageCycle | tools/depgraph.py:1256-1295 | fails only below one stage; otherwise one record for each member and pass, with its in-cycle dependencies and where they come from |
| BuildPlan.AcyclicOrder | tools/depgraph.py:1312 | exactly the sources off every cycle, each after everything it depends on |
| BuildPlan.PlanBuildOrder | tools/depgraph.py:1298-1316 | order, cycles, stages and the acyclic flag agree with the projected graph and each other; an error exactly when stages are needed and fewer than one is allowed |
| StagedBuild.StagesOfCyclicSource | tools/depgraph.py:1281-1295 | a cyclic source has exactly one record for each stage and exactly its last one ships |
| StagedBuild.ShipsAsWhat | defs/rpm_family.bzl:570-585 | a source is shipped by its last stage if it is on a cycle and by itself otherwise, and by nothing else |
| StagedBuild.EarlierStageExists | defs/rpm_family.bzl:753-774 | past the first pass an in-cycle dependency has the earlier stage to be built against |
| StagedBuild.EdgeGoesDown | defs/rpm_family.bzl:753-774 | every dependency of a target is a target that exists, strictly before it |
| StagedBuild.StagedBuildIsAcyclic | tools/generate.py:341-348 | no target of the staged build reaches itself, for every graph and number of stages |
| RpmVersion.Rpmvercmp | tools/rpmvercmp.py:43-141 | the two-cursor loop is the lexicographic comparison of token sequences: tilde, end, caret, letters, digits |
| RpmVersion.VersionTotalPreorder | tools/rpmvercmp.py:43-141 | antisymmetric and transitive, 0 exactly when the token sequences match |
| RpmVersion.CompareDigitsIsNumeric | tools/rpmvercmp.py:123-135 | zero-stripping, then length, then text compares the integers two digit runs denote, at any length |
| RpmVersion.CompareSegment | tools/rpmvercmp.py:120-135 | segments of one kind compare by value or by text |
| RpmVersion.EvrTotalPreorder | tools/rpmvercmp.py:154-170 | the triples inherit the order: antisymmetric and transitive, ties exactly on epochs that count as one integer and equal tokens; which comes first, `EvrIsLexicographic` says |
| VersionMeaning.SeparatorsWeighNothing | tools/rpmvercmp.py:14-15 | any separator separates like any other, like several, and at the end not at all |
| VersionMeaning.DigitsBeatLetters | tools/rpmvercmp.py:16 | a segment of digits is newer than one of letters |
| VersionMeaning.NumbersByValue | tools/rpmvercmp.py:17-18 | segments of digits compare as the numbers they denote, at any length |
| VersionMeaning.WordsByText | tools/rpmvercmp.py:134-135 | segments of letters compare as text |
| VersionMeaning.TildeIsOldest | tools/rpmvercmp.py:19-21 | after any common beginning a tilde is older than the end, another segment and a caret |
| VersionMeaning.CaretIsBetween | tools/rpmvercmp.py:22-24 | a caret is newer than the end and older than another segment |
| VersionMeaning.EpochIsInt | tools/rpmvercmp.py:144-151 | an epoch counts as the integer it is written as (blanks, sign, underscores), and as 0 if it is none |
| VersionMeaning.DigitEpoch | tools/rpmvercmp.py:144-151 | digits count as their value, after a minus as its negative |
| VersionMeaning.EvrIsLexicographic | tools/rpmvercmp.py:154-170 | by the integer the epoch states, between equal ones by version, between equal versions by release |
| VersionMeaning.DigitEpochsDecide | tools/rpmvercmp.py:157-162 | with epochs of digits the larger number wins whatever version and release are; only equal ones leave it to them |
| VersionMeaning.NoEpochIsZero | tools/rpmvercmp.py:144-147 | a missing, empty or "(none)" epoch is epoch 0 |
| Requirement.PrecisionMonotone | tools/depgraph.py:78-114 | comparison at a constraint's stated precision respects the order of full versions |
| Requirement.BoundsConvex | tools/depgraph.py:78-114 | whatever lies between two versions that meet a set of bounds meets it |
| Requirement.ConstraintTrichotomy | tools/depgraph.py:78-114 | of less, equal and greater exactly one holds, and the other operators are their unions |
| SpelledRequirements.OperatorsSpelled | tools/depgraph.py:61-65 | the five operators, as written between blanks, are read as what they say |
| SpelledRequirements.OperatorsInOrder | tools/depgraph.py:61-65 | of several operators the requirement is cut at the one looked for first: >=, <=, =, >, < |
| SpelledRequirements.UnversionedSatisfies | tools/depgraph.py:117-128 | a package that states no version satisfies any constraint; one that does, by some version it states |
| Provider.NewestOffer | tools/depgraph.py:199-213 | the nested loops find the first maximum over all stated versions |
| Provider.BestAmongIsMaximal | tools/depgraph.py:199-213 | that maximum is offered and nothing offered is greater |
| Provider.ResolveCapability | tools/depgraph.py:131-214 | the method decides as `Resolve` does, refusals and ambiguity included; an override's answer is given as it is, the capability's own before its name's |
| Provider.ChosenMeets | tools/depgraph.py:131-214 | without an override, the chosen package provides the name at a version that meets the constraint |
| Provider.NewestWins | tools/depgraph.py:195-214 | a choice among several is by name, or no matching package states a satisfying version greater than the chosen one's |
| Provider.RefusedExactlyWhen | tools/depgraph.py:131-214 | each refusal happens if and only if its reason holds, and an ambiguity lists exactly the matching packages |
| Provider.OverrideAnswers | tools/depgraph.py:164-169 | a capability that is a key is answered by its override, else one whose name is a key by that name's, whoever provides it |
| Provider.ExactNameWins | tools/depgraph.py:193-194 | a package named as asked is chosen if it meets the constraint |
| Provider.OnlyOneIsChosen | tools/depgraph.py:191-192 | the only package that meets the constraint is chosen |
| BooleanScan.TopLevelOps | tools/depgraph.py:405-426 | exactly the operator tokens at depth zero, left to right, none overlapping |
| BooleanScan.SplitTopLevel | tools/depgraph.py:429-449 | the trimmed pieces between the tokens of one operator at depth zero |
| BooleanScan.SingleGroup | tools/depgraph.py:324-341 | one pair of parentheses around the whole |
| BooleanSentence.ScanIsRead | tools/depgraph.py:405-426 | the scanner's cuts are where the operands of a body end |
| BooleanSentence.SplitIsRead | tools/depgraph.py:429-449 | with one operator, splitting gives the same operands the scanner delimits |
| BooleanSentence.ReadGlue | tools/depgraph.py:405-449 | operands that hide no operator, glued by operators, are read back |
| BooleanSentence.ReadRecoverable | tools/depgraph.py:405-449 | and every operand that is read hides none |
| BooleanDeps.ParseDependency | tools/depgraph.py:452-525 | the recursive parser is the grammar, for every text |
| BooleanDeps.ParseChain | tools/depgraph.py:473-525 | one operator to a level; mixing operators, or a lone else, is refused |
| BooleanDeps.ParseIfElse | tools/depgraph.py:473-525 | the conditional with else, cut at its two operators |
| BooleanWords.AndReads | tools/depgraph.py:452-525 | "(a and b)", spelled out, is the conjunction |
| BooleanWords.OrReads | tools/depgraph.py:452-525 | "(a or b)" is the disjunction |
| BooleanWords.WithReads | tools/depgraph.py:452-525 | "(a with b)" asks one package for both |
| BooleanWords.WithoutReads | tools/depgraph.py:452-525 | "(a without b)" asks for the first and not the second |
| BooleanWords.IfReads | tools/depgraph.py:452-525 | "(a if b)": what is wanted, then the condition |
| BooleanWords.UnlessReads | tools/depgraph.py:452-525 | "(a unless b)": what is wanted, then what excuses it |
| BooleanWords.IfElseReads | tools/depgraph.py:473-525 | "(a if b else c)": what is wanted otherwise comes last |
| BooleanWords.UnlessElseReads | tools/depgraph.py:473-525 | and so "(a unless b else c)" |
| BooleanRoundTrip.RoundTripIff | tools/depgraph.py:528-554 | parsing undoes printing exactly on printable trees |
| BooleanRoundTrip.RpmRoundTripIff | tools/depgraph.py:528-554 | the same with rpm's operator words |
| BooleanRoundTrip.DoubledGroupParses | tools/depgraph.py:473-482 | a doubled group becomes a capability with parentheses of its own |
| BooleanRoundTrip.ParsedButNotPrintable | tools/depgraph.py:473-482 | a text whose tree does not come back |
| ClosureInvariant.DemandCovers | tools/depgraph.py:877-991 | whatever an expression demands, sets aside or records accounts for all of it, part by part, under any condition, with else and unless included |
| ClosureInvariant.CoveredAdvances | tools/depgraph.py:877-991 | an expression once accounted for stays so, whatever the run does next and whatever its conditions are |
| ClosureFixpoint.DemandInside | tools/depgraph.py:877-991 | in the monotone fragment a demand never leaves a set closed under the requirements |
| ClosureFixpoint.CoveredIsWithin | tools/depgraph.py:1047-1056 | when nothing waiting can fire, what is accounted for is granted, as far as it is demanded whatever happens |
| ClosureBranches.DemandVoices | tools/depgraph.py:877-991 | an expression demands and records only what comes of branches it has taken, in the name of who asked |
| ClosureBranches.NotRequired | tools/depgraph.py:974-981 | a conditional whose condition does not hold demands nothing and is no problem |
| ClosureBranches.Excused | tools/depgraph.py:1079-1094 | an unless whose condition is met by what is sure to be in the closure demands nothing and is no problem, whatever else comes |
| ClosureFixpoint.DemandShrinks | tools/depgraph.py:891-899 | what an expression sets aside is smaller than itself, so re-reading a growing list ends |
| ClosureFixpoint.LeastClosedUnique | tools/depgraph.py:703-732 | the least closed set does not depend on the order of roots or root requirements |
| ClosureRun.DemandUnlessFree | tools/depgraph.py:877-991 | without unless, the last pass demands what the pass before it demanded |
| RuntimeClosure.Run.Require | tools/depgraph.py:877-991 | the mutating recursion returns and appends exactly what `Demand` says |
| RuntimeClosure.Run.RequireAll | tools/depgraph.py:891-899 | conjuncts one by one; one that has to wait is set aside and the others go on |
| RuntimeClosure.Run.ReduceRich | tools/depgraph.py:993-1004 | an unreadable expression is reported, a conditional that does not apply yet waits |
| RuntimeClosure.Run.AskAtRoot | tools/depgraph.py:1011-1018 | the root requirements are accounted for and the bounds established |
| RuntimeClosure.Run.VisitNeeds | tools/depgraph.py:1026-1039 | every requirement of a visited package is accounted for |
| RuntimeClosure.Run.Drain | tools/depgraph.py:1021-1039 | the frontier empties into the visited set and everything stays accounted for |
| RuntimeClosure.Run.Retry | tools/depgraph.py:1047-1056 | re-asking a list that grows while it is read ends, and what remains still has to wait |
| RuntimeClosure.Run.ReviewChoices | tools/depgraph.py:1062-1077 | choices met by a present alternative or an override go; those kept are met by nothing |
| RuntimeClosure.Run.Round | tools/depgraph.py:1020-1097 | one outer round keeps the invariant and refills the frontier only with unvisited packages |
| RuntimeClosure.ReportChoices | tools/depgraph.py:1107-1126 | one report to a text, in order, with its first alternatives and exactly those who asked |
| RuntimeClosure.Close | tools/depgraph.py:703-1127 | terminates; every requirement of every member is granted or reported; every member is a root, taken by a requirement or an answer to one; every report comes of a branch that was taken, that of an unless only once all that is sure was there, and open choices come last, sorted; if the requirements of the closure itself are monotone it is exactly the least closed set and exactly what they come to is reported; if they hold no unless, a choice is reported only if nothing meets it |
| RuntimeClosure.SameReports | tools/depgraph.py:703-732 | in the monotone fragment neither the closure nor the reports of what cannot be had depend on the order of roots or root requirements |
| RuntimeClosure.ExcusedStaysOut | tools/depgraph.py:1079-1094 | a package only such requirements could ask for is not in the closure, in whatever order the work is done: unless waits until nothing else moves |
| RuntimeClosure.SureByRequirement | tools/depgraph.py:1020-1039 | the roots are sure, and so is what they and what is sure require without condition |
| RuntimeClosure.Run.GiveUpWaiting | tools/depgraph.py:1079-1094 | the last pass is made with the closure closed under every requirement that needs no unless, and keeps everything accounted for |
| ClosureMeaning.AnsweredHolds | tools/depgraph.py:774-991 | an answered expression is true of the closure, ranges within their bounds, or among the problems; the truth of conditions is judged by who is installed, not by the code's own test; overrides may be keyed on expressions |
| DueRequirements.DueIsMet | tools/depgraph.py:774-991 | in whatever a solve gives, an expression with one possible answer has it installed, neither left open nor reported: through and, if, else and unless, ranges, with and without included |
| DueRequirements.OneAlternativeIsMet | tools/depgraph.py:911-934 | an or of capabilities without overrides, each provided by nothing or by one and the same package, has that package installed and holds |
| DueRequirements.PlainIsMet | tools/depgraph.py:774-798 | a plain requirement has its override's answer installed; without an override, the package of that name or the only one that meets it |
| DueRequirements.OverriddenOrIsMet | tools/depgraph.py:905-909 | the override of an or is installed, unless the or is satisfied already |
| DueRequirements.OverriddenWithIsMet | tools/depgraph.py:936-955 | the override of a with over several names is installed, unless one package alone provides them all |
| DueRequirements.BranchesAreOffered | tools/depgraph.py:900-934 | an or that is left open offers its branches, in order, under its own text |
| DueRequirements.OpenRangeText | tools/depgraph.py:736-772 | a range left open offers its candidates under its bounds joined by with |
| ClosureMeaning.ReadsTruly | tools/depgraph.py:824-870 | a condition is found true whenever it is true, or true whenever found so, if its names are not overlooked |
| ClosureMeaning.NameReadIff | tools/depgraph.py:814-822 | a name is never overlooked if and only if it has no override or no other provider than the override's answer |
| ClosureMeaning.NameMeantIff | tools/depgraph.py:814-822 | a name found present is always provided if and only if an override of it answers with a provider |
| ClosureMeaning.PositiveReadIff | tools/depgraph.py:824-870 | no condition of and, or and with over given names is ever overlooked if and only if none of the names is |
| ClosureMeaning.WithoutReadIff | tools/depgraph.py:824-870 | (b without c) is never overlooked if and only if it is never true, or nothing provides c, c has no override, and b is never overlooked |
| KeptRequirements.ConditionalKeptIff | tools/depgraph.py:814-822 | (a if b) holds or is reported in whatever any run gives if and only if b has no override, or all its other providers provide a |
| RpmCases.OverrideHidesCondition | tools/depgraph.py:814-822 | four packages, one override, a clean solve in which (a if b) does not hold |
| KeptRequirements.OrKeptIff | tools/depgraph.py:900-934 | an or of ands and capabilities holds or is reported in whatever any run gives if and only if each package that can settle it, an override's answer included, makes it hold |
| KeptRequirements.WithKeptIff | tools/depgraph.py:936-955 | a with over capabilities holds or is reported in whatever any run gives if and only if an override that answers it provides all of it |
| KeptRequirements.WithoutKeptIff | tools/depgraph.py:936-955 | a without over two capabilities: if and only if an override that answers it provides the first and not the second |
| KeptRequirements.KeptIff | tools/depgraph.py:877-955 | the general form: whatever settles an expression that comes to one thing makes it hold |
| KeptRequirements.SettledRun | tools/depgraph.py:1007-1099 | asked for one expression that a root settles, a run ends with that root and nothing to report, so an expression it does not make hold is dropped |
| OverrideCases.AnswerNeedNotFit | tools/depgraph.py:912-946 | for any six words, c and b readable as operands: (c or b), (c with b) or (c without b), overridden to a package that provides neither, passes validation and ends in a clean solve in which it does not hold |
| OverrideCases.LettersNeedNotFit | tools/depgraph.py:912-946 | the same with single letters |
| ClosureMeaning.NamesSettle | tools/depgraph.py:900-934 | an or of capabilities is one of those, if an override of it answers with a provider of one |
| RpmCases.HalfSettlesChoice | tools/depgraph.py:1068-1069 | a clean solve in which ((a and b) or c) does not hold, a being there |
| KeptRequirements.CapKeptIff | tools/depgraph.py:774-798 | a capability holds or is reported in whatever any run gives if and only if whatever counts as one of several candidates for it provides it |
| RpmCases.NamesakeSettlesChoice | tools/depgraph.py:1068-1069 | for any five names: a clean solve in which a required capability has no provider, another package providing the name of a candidate |
| ClosureMeaning.CandidateIsThere | tools/depgraph.py:802-822 | a candidate that counts as present is itself installed, if only it provides its name |
| RpmClosure.RangeAnswer | tools/depgraph.py:736-772 | a range is answered by a provider that meets every bound, or all such providers are offered, or there is none |
| RpmClosure.RangeTakesNewest | tools/depgraph.py:764-770 | no provider that meets the bounds states a version newer than one the answer states |
| RpmClosure.RangeOverrideAnswers | tools/depgraph.py:736-772 | an override of a range's name answers it, whoever provides it and whatever the bounds |
| DueRequirements.OneInRangeIsChosen | tools/depgraph.py:736-772 | a range is answered by its name's override, or by the only package within the bounds |
| DueRequirements.RangeIsWith | tools/depgraph.py:557-586 | only a conjunction of bounds on one capability is a range; branches of an or are never taken together |
| VersionRanges.AcceptedTrulyIff | tools/depgraph.py:747-753 | a provider accepted bound by bound always states one version within all bounds, if and only if all versions it states compare equal |
| VersionRanges.TwoVersionsMislead | tools/depgraph.py:747-753 | two versions, one older: a range no version at all lies in, for which the provider is accepted |
| VersionRanges.NewestInRangeIff | tools/depgraph.py:764-770 | the package chosen for a range always states the newest version in it, if and only if every provider states one version |
| VersionRanges.NewerOutOfRange | tools/depgraph.py:764-770 | versions on both sides of a range win it over the package with a version inside |
| RpmCases.NewerElsewhere | tools/depgraph.py:764-770 | the same with versions 1, 2 and 3 |
| RpmClosure.ValidateOverrides | tools/depgraph.py:217-268 | exactly the flags that do not name a provider of their capability, sorted, and told apart by whether anything provides it; none if and only if every plain key is provided by its answer |
| RpmClosure.CleanIsReadable | tools/depgraph.py:217-268 | where repositories provide only bare names, a clean validation leaves only overrides keyed on expressions or bare names |
| RpmClosure.ChoicesStandForRpm | tools/depgraph.py:1062-1077 | overrides keyed on expressions or bare names never decide a choice of providers after the fact |
| RpmClosure.NothingSilentlyDropped | tools/depgraph.py:774-991 | with clean overrides, keyed on expressions or bare names, and provided names that are no expressions and package names provided only by themselves, a requirement holds in the final closure, at its version and within its range if no override answers it, or is reported |
| RpmClosure.SolveRuntime | tools/depgraph.py:703-1127 | the closure with the solver's own reading of capabilities and overrides keyed on expressions or bare names, where no provided name is an expression: least set, nothing dropped, nothing invented, with hypotheses on the requirements of the closure's own members |
| Packages.NewerOrder | tools/rpmvercmp.py:173-184 | not being newer is a total preorder |
| Packages.NewerMeans | tools/rpmvercmp.py:173-184 | newer is the greater epoch, or of equal epochs the greater version, or of equal versions the greater release |
| Packages.EvrTextSpelled | tools/solve.py:417-421 | a version as text: an epoch of 0 left out |
| Merge.GroupBestIsNewest | tools/solve.py:335-345 | the build kept for a slot within one repository is one none is newer than |
| Merge.GroupBestIsFirst | tools/solve.py:335-345 | and the first of those that tie: newer than all before it, none after it newer |
| Merge.WinnerWins | tools/solve.py:347-354 | the winner over all repositories: none is newer, and only later ones tie |
| Merge.WinnerExactly | tools/solve.py:347-354 | a build is the winner if and only if none is newer and only later repositories have an equal one |
| Merge.WinnerIgnoresOrder | tools/solve.py:301-322 | reordering repositories or documents moves a slot only between builds of equal version |
| Merge.ReplacedIffNewer | tools/solve.py:356-367 | a slot counts as replaced exactly when its winner is strictly newer than the earliest repository's build |
| Merge.ReplacedIgnoresDocumentOrder | tools/solve.py:330-345 | the set of replaced slots does not depend on document order within a repository |
| MergeRun.BestBuilds | tools/solve.py:335-345 | the fold over one repository keeps each slot's best |
| MergeRun.FoldGroup | tools/solve.py:347-354 | entering one more repository brings index, origin and candidates of every slot up to date |
| MergeRun.MergePackages | tools/solve.py:301-382 | one build a slot, sorted; exactly the replaced slots, sorted; the losing builds by version text |
| MergeRun.MergeIsNewest | tools/solve.py:301-382 | a merged build comes from some repository, is newer than or equal to all for its slot, and is alone in it |
| MergeRun.MergeKeepsSlots | tools/solve.py:301-382 | no slot of any repository is lost |
| MergeRun.OnePerNameAndArch | tools/solve.py:301-382 | of the builds with one name and architecture, whoever brings them, exactly one is merged, and none has a greater version |
| MergeRun.MergeReplacesWithNewer | tools/solve.py:356-367 | a replacement is strictly newer than its origin, which is the earliest repository's build |
| MergeRun.SupersededLost | tools/solve.py:376-382 | a superseded build lost its slot, is no newer than the winner, and is filed under its version text |
| MergeRun.LosersAreSuperseded | tools/solve.py:376-382 | the best build of a repository that did not win is filed under its version text, or the best of a later losing repository with the same text is |
| FallbackMerge.SortBySlot | tools/solve.py:410-413 | sorted, and every slot keeps its packages in order |
| FallbackMerge.MergeFallbackPackages | tools/solve.py:385-414 | an occupied slot keeps exactly its compose builds, an empty one gets the fallback winner; added, shadowed and superseded accordingly |
| Constrained.ConstrainedRequires | tools/solve.py:668-690 | each requirement with the first range whose flag is known, or as it was |
| Constrained.RenderedReadsBack | tools/solve.py:679-690 | a rendered range splits back into the capability, operator and version it was rendered from, if and only if neither has blanks to strip, a leading parenthesis or an operator the reader would find first |
| Constrained.WordsAreLegible | tools/solve.py:679-690 | capabilities and versions without blanks, not parenthesised, are read back with every operator |
| Constrained.BoundMeansVersion | tools/solve.py:679-690 | a provided version meets the rendered bound exactly when it compares so with the version repodata stated |
| SpelledRequirements.FlagMeans | tools/solve.py:665 | EQ, GE, GT, LE and LT, and no other flag, ask that the provided version be equal, not less, greater, not greater, less |
| SpelledRequirements.BoundSpelled | tools/solve.py:686-689 | a bound as text: an epoch of 0 and a missing release left out |
| SpelledRequirements.NeedSpelled | tools/solve.py:680-690 | a requirement is written with the first range of it whose flag is known, and left as it is if there is none |
| Collapse.BetterOrder | tools/solve.py:712-721 | "not better" is a total preorder, so that there is a best build; which it is, the rows from `CpuBuildStands` to `NoneGreater` say |
| Collapse.BestIsBest | tools/solve.py:729-733 | the build a name stands for is one no other build of the name is better than |
| Collapse.ComposeKeepsName | tools/solve.py:712-733 | a name with a compose build stands for a compose build |
| Collapse.FallbackChangesNoName | tools/solve.py:712-733 | fallback packages added after a compose change the build of none of its names |
| Universe.IndexDiscarded | tools/solve.py:782-800 | the newest discarded build of each qualified name: foreign, or a fallback that lost its name to another architecture |
| Universe.FillEmpty | tools/solve.py:858-861 | empty capabilities are filled from the first architecture that offers them, and no other entry changes |
| Universe.BuildUniverse | tools/solve.py:693-890 | providers, requirements, versions and builds are exactly those of the collapsed names, and of discarded builds where nothing else answers |
| Universe.CollapsedAnswersStand | tools/solve.py:835-861 | a capability the collapsed names answer neither gains nor loses a provider |
| Universe.DiscardedFillEmptySlots | tools/solve.py:835-861 | a discarded build answers only where no collapsed name does, and only builds of one architecture then answer |
| Universe.ProvidersAreIndexed | tools/solve.py:735-828 | every provider listed has a build and requirements |
| Universe.QualifiedIsAnother | tools/solve.py:791-797 | a qualified name never stands for the build its plain name stands for |
| Universe.ComposeNamesStand | tools/solve.py:712-733 | a plain name with a compose build resolves to the best compose build |
| UniverseMeaning.CpuBuildStands | tools/solve.py:537-555 | a name with a compose build for the architecture built for stands for such a build; so among fallbacks where the compose has none |
| UniverseMeaning.AnywhereBuildStands | tools/solve.py:537-555 | a name with a build that runs anywhere, and none for the architecture, does not stand for a foreign one |
| UniverseMeaning.ComposeBuildStands | tools/solve.py:712-716 | a compose build of any architecture keeps its name from every fallback |
| UniverseMeaning.NoneGreater | tools/solve.py:717-721 | no build of the winner's standing and kind of architecture has a greater epoch, version and release |
| UniverseMeaning.BestIsFirst | tools/solve.py:729-733 | of builds that tie, the first listed stands |
| UniverseMeaning.DiscardedSpelled | tools/solve.py:782-796 | which builds are kept under qualified names: of another architecture than the name's, foreign or from a fallback |
| UniverseMeaning.QualifiedNameStands | tools/solve.py:797-800 | under name.arch stands the greatest of those builds of that name and architecture |
| UniverseMeaning.PlainNameProvides | tools/solve.py:735-745 | a plain name provides itself and what its build's record lists but for rpm's own capabilities, and nothing else that plain names answer |
| UniverseMeaning.PlainNameStates | tools/solve.py:746-751 | a plain name states the versions its build's record lists but for rpm's own capabilities; other names state none |
| Universe.NeedsAreTheBuilds | tools/solve.py:804-828 | the requirements under a name are its build's if and only if every discarded build whose qualified name it is requires the same |
| Universe.QualifiedNameTakesNeeds | tools/solve.py:804-828 | three packages with which a name has another build's requirements |
| FallbackUniverse.MergedHoldsCompose | tools/solve.py:385-414 | the merged list without its fallback packages is the compose, in order |
| FallbackUniverse.FallbackLeavesCompose | tools/solve.py:1994-2018 | in the universe of the merged list each compose name stands for the record it stands for in the universe of the compose |
| FallbackUniverse.IndexRepositories | tools/solve.py:1991-2027 | merging, filling and indexing as a solve starts: both universes, and every compose name the same record in both |
| Solve.SolvePackages | tools/solve.py:693-890 | from package records to closure: every member has a build and requirements, and the closure theorems hold of it, their hypotheses asked of its members only |
| CeilArithmetic.CeilIsDivision | tools/_verity.py:92-97 | chunk counting is division rounded up |
| CeilArithmetic.GroupIsDivision | tools/_verity.py:92-97 | chunk membership is quotient and remainder |
| Verity.LevelEntry | tools/_verity.py:92-97 | digest i of a level stands at its place in its block |
| Verity.HonestWalk | tools/_verity.py:100-136 | walking from any leaf through the stored file reaches the root |
| VerityLayout.OneBlockRoot | tools/_verity.py:20-25 | the root of a one-block image is hash(salt + image), and nothing is stored |
| VerityLayout.DataEntry | tools/_verity.py:20-25 | over data block i the stored file holds hash(salt + block i) |
| VerityLayout.HigherEntry | tools/_verity.py:130 | over each stored block but the first the file holds hash(salt + that block as stored) |
| VerityLayout.RootEntry | tools/_verity.py:126-129 | the root is hash(salt + the first stored block) |
| VerityLayout.LevelPadding | tools/_verity.py:92-97 | what digests leave of a block is zero |
| VerityLayout.BlockOfImage | tools/_verity.py:79-89 | data block i is the i-th piece of the image |
| Verity.EveryBlockAccepted | tools/_verity.py:100-136 | every data block is accepted against the root |
| Verity.WalkBinds | tools/_verity.py:20-25 | a digest that walks to the root through any file is the tree's digest, or two distinct blocks with one salted digest are exhibited |
| Verity.AcceptedBlockBinds | tools/_verity.py:20-25 | the same for a data block |
| Verity.RootBindsData | tools/_verity.py:100-136 | equal roots over as many blocks force equal blocks, or a collision is exhibited |
| Verity.LevelWidth | tools/_verity.py:121-130 | level i has one digest per h to the i data blocks, rounded up |
| Verity.LevelsLeast | tools/_verity.py:114-130 | the level count is the least power of h that covers the data |
| Verity.LevelsAre | tools/_verity.py:121-130 | the tree has exactly that many levels, level i being i times one up |
| VerityImage.HashFileLayout | tools/_verity.py:121-136 | the stored file is those levels, top first, level i of one block per h to the i + 1 data blocks, rounded up |
| Verity.HashFileSize | tools/_verity.py:132-136 | the file is exactly its blocks |
| VerityImage.BitTrick | tools/_verity.py:28-30 | the bit test accepts exactly powers of two |
| VerityImage.AcceptedParameters | tools/_verity.py:28-48 | accepted parameters give at least eight digests that fill a block exactly; the ratio error never happens |
| VerityLayout.AcceptedExactly | tools/_verity.py:28-48 | accepted are block sizes that are powers of two from 512 to 65536 and a salt of 1 to 256 bytes, and nothing else |
| VerityImage.CopyAndMeasure | tools/_verity.py:63-76 | the streamed copy is the image, measured, digested and zero-padded to the next whole block; empty input is refused |
| VerityImage.HashData | tools/_verity.py:79-89 | hash(salt + block) for each block, in order, and a partial last block is refused |
| VerityImage.BuildLevel | tools/_verity.py:92-97 | the appending loop builds the level |
| VerityImage.BuildLevels | tools/_verity.py:121-130 | the loop ends with the least number of levels, level i of one block per h to the i + 1 data blocks, rounded up; stacked top first they are the tree, and the last digest is its root |
| VerityImage.WriteLevels | tools/_verity.py:132-135 | levels are written root first |
| VerityImage.BuildHashTree | tools/_verity.py:100-136 | each error in its order; otherwise root, file, block count and exact size of the tree, and for one block the root hash(salt + image) and an empty file |
| VerityImage.RootBindsImage | tools/_verity.py:100-136 | padded images with equal roots and block counts are equal, or their trees collide |
| SourcePolicy.ExceptionIndex | tools/source_policy.py:29-60 | succeeds exactly on sound exceptions; otherwise the first unsound one and what is wrong with it |
| SourcePolicy.SoundIff | tools/source_policy.py:29-60 | sound are exceptions for different packages, each with a package, a known kind, a reason and, if a source is given, a source that is text |
| SourcePolicy.ReadableMeans | tools/source_policy.py:22-26 | a field is text unless it is missing, no string or all blanks |
| SourcePolicy.CheckSet | tools/source_policy.py:90-140 | succeeds exactly when every payload is named, once, and built or pinned; counts and pinned packages; otherwise a true blame |
| SourcePolicy.BuildSourcePolicy | tools/source_policy.py:63-155 | succeeds exactly when acceptable, with the one policy; otherwise a true blame |
| SourcePolicy.ValidateSourcePolicy | tools/source_policy.py:158-177 | accepts a record exactly when it is the record of the policy computed from it now, further keys, explicit nulls and missing parts included; otherwise says truly why not |
| SourcePolicy.BuiltRevalidates | tools/source_policy.py:158-177 | a built policy, recorded, re-validates against the same images and producers |
| SourcePolicy.PolicyIgnoresOrder | tools/source_policy.py:63-155 | neither whether there is a policy nor which one depends on the order of exceptions or selection |
| SourcePolicy.PolicyUnique | tools/source_policy.py:150-155 | there is one policy for given inputs |
| SourcePolicy.EachPayloadOnce | tools/source_policy.py:94-140 | each selected payload is, exclusively, built from source or pinned by an exception that names it; the total is the payload count |
| SourcePolicy.CountsAreTrue | tools/source_policy.py:94-140 | the counts of a policy: payloads built from source, the others, and all of them |
| SourcePolicy.EveryExceptionIsUsed | tools/source_policy.py:142-148 | every exception pins a payload of a selected set |

## Left out

- ClosureMeaning.AnsweredHolds: an `or` is covered over `and` and capabilities, a `without` over two capabilities; a `with` inside an `or` is not, because there the code reads a range by its name alone.
- RuntimeClosure.SameReports: reports of open choices are left out, because choices with one text and different alternatives are reported with the first that was met.
- ClosureMeaning.Holds: an `if` with `else` commits when it is first read and an `unless` is settled last, so of those it says that one branch holds, and the branch for a false condition if the condition cannot become false again.
- RuntimeClosure.Close: the exact least set is stated for capabilities, and, with, without, and if without else; or is left out of that clause because a choice is settled by whatever is present, which is not monotone.
- DueRequirements.OneAlternativeIsMet: a branch whose name still holds a constraint once one is stripped (`a < b >= 1`) is left out, because the code resolves it by the name stripped twice and asks for it by the name stripped once.
- RpmClosure.NothingSilentlyDropped: a constraint on a single capability inside a boolean expression is not part of what holds, because the code strips it there; ranges keep theirs.
- VersionRanges.AcceptedTrulyIff: for versions a bound can be written with and read back, which `Constrained.Legible` describes; of others no range can be asked.
- MergeRun.LosersAreSuperseded: only each repository's best build is a candidate, as in the code; further losers of one repository are nowhere.
- SourcePolicy.ValidateSourcePolicy: the lists of a record are lists of records and of strings; on other containers the code fails in Python's own words.
- RpmVersion.EvrTotalPreorder: epochs are read as `int()` reads ASCII text; digits outside ASCII and Python's limit on very long integers are not modelled.
- The `isalpha` and `isdigit` helpers of the version comparison are ASCII, as in the code; Unicode categories enter nowhere else but `str.strip`.
- Object identity in the merge and the universe is the position of a record; one record listed twice by two repositories would be two builds here.
- Target names of stages are pairs of source and stage; how they are spelled is not modelled, so two spellings cannot clash here.
- Messages: only what a problem or error is about is modelled, not its wording, nor the cut to three askers in the wording of a choice.
- `parse_or_dep`, `parse_conditional_dep`, `parse_range_dep` and `unwrap_group` (tools/depgraph.py:344-369, 606-693): older shape matchers, one call each on the parser.
- `source_of`, `subpackages`, `foreign_source_of` and `source_index` (tools/solve.py:753-756, 819-825, 863-871): written beside the maps that are modelled and read by none of them.
- `apply_probed_producers` and `source_build_set` (tools/solve.py:1118-1190, 1419-1460): single filters whose contracts would be their bodies.
- `bootstrap_depth` (tools/depgraph.py:1322-1349): a report of how long the plan is.
- The hash function, the file system, subprocesses, XML and JSON, lockfiles and the command line.
