# kube-upgrade-check in Dafny

kube-upgrade-check reads a Kubernetes cluster and says what an upgrade to a target version would break. Its
promise has two halves: what it reports is earned, and what it could not look at is printed as a gap and never
passed off as clean. This project models the decision engine behind that promise and proves it keeps it.

| file | models |
|---|---|
| Text.dfy, Sorting.dfy | the parts of Go's `strings`, `strconv` and `sort` the program leans on |
| AddonVersions.dfy, KubeVersions.dfy | the two version algebras and their printed forms, upgrade ladders |
| AddonHop.dfy | the well-formedness of `introducedIn` and the choice of add-on rules for a hop |
| SupportWindows.dfy, Detect.dfy | vendor support windows, forced hops, add-on detection |
| Workers.dfy | a pool of workers recording under one lock, as a machine of steps |
| Inventory.dfy, Collect.dfy, Scan.dfy | what a scan read, and the two places that read with such a pool |
| Rules.dfy, PathWalk.dfy, Settle.dfy, TypedRules.dfy | rules, the predicate over one object, subjects, gates, skew |
| Selection.dfy, Projection.dfy | rules on the path, the keys kept for them |
| Fold.dfy, Analyze.dfy | folding duplicates, findings and coverage of a whole scan |
| Deprecations.dfy, RemovedApi.dfy, Targets.dfy | the removed-API catalog, its evaluator, the types worth listing |
| Report.dfy, Wrap.dfy | coverage, status, printed order, line wrapping |

Code that works by loops and updates is a method, proved equal to a specification function or predicate, and the
results are lemmas about those. Go's maps are iterated in no fixed order; the methods pick an arbitrary key each time,
so every result holds for every order. Regular expressions, the comparison of a field with a rule's value, image
matching and the answers of the API server are parameters, so every result holds whatever they are.

The main results, in the system's terms:

- An add-on rule with patch releases is selected for a hop exactly when the required release carries the change and
  the installed one does not (`AddonHop.HopIsDestinationMinusOrigin`); taking the hop in steps loses no rule.
- On vendor tables whose rows name distinct versions, the verdict on an add-on and the hop the target forces never
  contradict each other, and taking the hop settles it; the exact conditions on any table are proved beside them.
- A rule that reads a kind nobody could read yields no finding, is counted in exactly one unavailable row, and keeps
  the scan from being complete; every selected rule is printed, folded, owned, declined or cleared.
- Every interleaving of the collector's workers ends in the same inventory, none deadlocks, none runs for ever.
- The findings do not depend on map iteration, on what the projection cut away, or, while no apiVersion holds a bar,
  on the order of evidence.

Tempting claims that are false of the code are each stated with an input that shows it, beside the exact condition
under which they hold:

| claim | input | holds |
|---|---|---|
| selection is carries-minus-carries, also backward | `BackwardMovesSelectNothing` | for unbroken lists only, `DifferenceIff` |
| a rule is selected on one step of a path | `BackportsAreSelectedTwice` | for unbroken lists only, `SplitsOnceIff` |
| the fix is the least covering version | `AnEmptyVersionLosesTheMinimum` | `LeastIsFoundIff` |
| the ABOVE_MAX fix is an upgrade | `AFixMayBeADowngrade` | `FixIsUpgradeIff`; always when ceilings never fall, `RisingCeilingsFixIsUpgrade` |
| the kept keys are the keys the rules look at | `ADottedFieldIsLost` | `ProjectionIsExact`, `PresenceIsExact` |
| a wanted kind ends in one place | `AKindInTwoPlaces` | when the earlier record agrees, `EachKindInOnePlace` |
| the coverage of a scan is one list | `EndStartingWith` | for at most one target only, `SettledIffOneTarget` |
| the order of evidence does not matter | `ABarMixesTypes` | when usages sharing a key agree, `OrderFreeIff` |

Two comments in the source differ from its code, and the model follows the code. The comment on `inAddonHop` says an
unreadable installed version keeps the rule unless the required line never got the change; the code also drops it when
a three-part required version is below its own line's entry. The projection comment says the kept keys are the ones
the rules look at; a dotted field target is kept by its first part and looked up whole.

## Model

| member | source | states |
|---|---|---|
| AddonVersions.Components | internal/catalog/addonversions.go:17-35 | the parts up to the first that is not a number, after space, a leading v and a suffix are gone |
| AddonVersions.WrittenVersionReads | internal/catalog/addonversions.go:17-35 | numbers with dots, of any count, after space and a leading v and before an odd part, a suffix or space, read as exactly those numbers |
| AddonVersions.CompareVersions | internal/catalog/addonversions.go:47-77 | the loop computes the zero-padded comparison, for versions of any two lengths |
| AddonVersions.CompareMeaning | internal/catalog/addonversions.go:43-77 | the sign is that of the first place where the padded versions differ, and 0 only if there is none |
| AddonVersions.CompareIsTotalPreorder | internal/catalog/addonversions.go:43-77 | reflexive, sign-antisymmetric, transitive over three lengths, unparseable versions equal and at the bottom |
| AddonVersions.IsPrefixOf | internal/catalog/addonversions.go:90-106 | true exactly for a non-empty prefix, component by component |
| AddonVersions.PrefixAtMost | internal/catalog/addonversions.go:90-106 | a prefix never exceeds the version it prefixes |
| AddonVersions.PrefixesFormAChain | internal/eval/addons/addons.go:400-418 | rows prefixing one version form a chain, so the longest is unique |
| AddonVersions.LineDecides | internal/catalog/addonversions.go:43-77 | the order on versions refines the order on their release lines |
| AddonVersions.AddonMinorRoundTrip | internal/catalog/sources.go:44-52 | printing then parsing keeps exactly the release line; equal text means equal lines; empty only when unparseable |
| KubeVersions.ParsePrintedMinor | internal/catalog/version.go:80-108 | a printed minor parses to itself, and fails only when a number is out of Atoi's range |
| KubeVersions.WrittenMinorReads | internal/catalog/version.go:80-108 | so do Kubernetes versions, v1.33.2, 1.33+ and v1.33.1-eks-abc alike, as the minor they name; a major alone as nothing |
| KubeVersions.PrintThenParse | internal/catalog/version.go:24-48 | MinorOf keeps the key; NextMinor's key is one higher exactly when the version reads and the minor is not the largest int |
| KubeVersions.HopsBetween | internal/eval/preflight/preflight.go:85-99 | on any input, next minors from current until the target, the end or twelve steps; and the consecutive ladder where ints do not overflow |
| KubeVersions.LadderReachesTarget | internal/eval/preflight/preflight.go:85-99 | that ladder starts at current and ends at target exactly for a same-major skew of 1 to 12, where there is always room for it |
| KubeVersions.UpgradeTargets | internal/catalog/version.go:63-78 | on any input, next minors past current up to the catalog ceiling and twelve entries, none missed; and the ladder of them in range |
| AddonHop.ValidateIntroducedIn | internal/catalog/generated.go:233-267 | accepts exactly the well-formed lists, and each error names what is wrong |
| AddonHop.InAddonHop | internal/eval/generated/generated.go:280-350 | the branching decision, on every input, in terms of the parsed versions |
| AddonHop.DecisionMeaning | internal/eval/generated/generated.go:273-350 | the decision is: destination carries, origin does not, and the move goes forward; an unreadable end drops its own condition |
| AddonHop.HopIsDestinationMinusOrigin | internal/eval/generated/generated.go:273-350 | for every rule the catalog accepts, selected iff required carries the change and installed does not |
| AddonHop.UncertaintyWidens | internal/eval/generated/generated.go:278-302 | what is selected for a readable installed version is selected for an unreadable one |
| AddonHop.BackwardMovesSelectNothing | internal/eval/generated/generated.go:280-340 | a list the catalog accepts and two version texts going backward where carries-minus-carries holds and nothing is selected |
| AddonHop.DifferenceIff | internal/eval/generated/generated.go:273-350 | between any two readable versions, forward and backward alike, selection is carries-minus-carries exactly for unbroken lists |
| AddonHop.SplittingLosesNoRule | internal/eval/generated/generated.go:280-350 | a rule selected for a whole hop is selected for some step of any climb between its ends |
| AddonHop.BackportsAreSelectedTwice | internal/eval/generated/generated.go:303-340 | an accepted list and version texts where two steps select one rule, and a step selects what the whole hop does not |
| AddonHop.SplitsOnceIff | internal/eval/generated/generated.go:280-350 | every climb selects a rule on one step exactly when its whole hop selects it, and on no two, iff each entry past the oldest line is at patch zero of a line whose predecessor has an entry |
| AddonHop.CarriedStays | internal/eval/generated/generated.go:303-307 | for such lists a release past one that carries the change carries it |
| AddonHop.MinorWindowSplitsOnce | internal/eval/generated/generated.go:281-293 | without patch releases the whole hop selects a rule iff one step does, and no two do |
| AddonHop.MinorWindowIsFirstPatch | internal/eval/generated/generated.go:281-350 | the minor window of x.y is patch mode with the single entry x.y.0 |
| SupportWindows.MostSpecific | internal/eval/addons/addons.go:400-418 | the loop finds the row of the specification |
| SupportWindows.MostSpecificIsLongest | internal/eval/addons/addons.go:400-418 | that row prefixes the installed version, none longer does, and it is the first of its length |
| SupportWindows.VerdictWithoutRow | internal/eval/addons/addons.go:366-385 | the verdict where the table, a readable version, a readable target or a prefixing row is missing |
| SupportWindows.VerdictMeans | internal/eval/addons/addons.go:366-398 | each verdict iff, from the bounds of the longest prefixing row, with that row and the fix |
| SupportWindows.CoversMeans | internal/eval/addons/addons.go:422-432 | a window covers a target iff it names a bound and the target is past none it names |
| SupportWindows.CurrencyHopIff | internal/eval/addons/addons.go:96-109 | without a table, the hop to the latest known version, exactly when asked for, readable, above, and not just a patch of the installed minor |
| SupportWindows.MinimumCovering | internal/eval/addons/addons.go:420-437 | the loop finds the running minimum over covering rows |
| SupportWindows.MinimumCoveringMeaning | internal/eval/addons/addons.go:420-437 | on any table: an unreadable version once some covering row has one, else the least past the last covering row without a version |
| SupportWindows.LeastIsFoundIff | internal/eval/addons/addons.go:420-437 | the fix is the least covering version iff no covering row lacks a version or some covering row has unreadable text for one |
| SupportWindows.AnEmptyVersionLosesTheMinimum | internal/eval/addons/addons.go:422-437 | a concrete table with an unnamed row where the fix is not the least and a SUPPORTED add-on is told to move |
| SupportWindows.ForcedHopIff | internal/eval/addons/addons.go:96-121 | on any table a vendor add-on is forced to move iff its version and the target read and everything the running minimum can see covers only from above |
| SupportWindows.SupportedForcesNoHopIff | internal/eval/addons/addons.go:96-121 | on any table SUPPORTED forces no hop, except when an unnamed row hides every covering row at or below the installed version |
| SupportWindows.SupportedForcesNoHop | internal/eval/addons/addons.go:96-121 | in particular whenever the fix is the least covering version |
| SupportWindows.HopReachesSupportIff | internal/eval/addons/addons.go:96-121 | on any table the hop goes up and forces no further hop, and its target is SUPPORTED iff it names a minor and the first row filed under it covers |
| SupportWindows.HopReachesSupport | internal/eval/addons/addons.go:96-121 | so it is SUPPORTED on tables of distinct versions of two or more parts |
| SupportWindows.HopsGoForward | internal/eval/addons/addons.go:90-121 | every forced hop runs upward, and between readable versions unless a row names a major alone |
| SupportWindows.ForcedHopSelects | internal/eval/generated/generated.go:251-266 | on any forced hop a rule is selected iff the required release carries its change and the installed one does not |
| SupportWindows.FixIsUpgradeIff | internal/eval/addons/addons.go:391-392 | on any table an ABOVE_MAX fix is above the installed version iff no covering version is unreadable and the covering rows past the last unnamed one exist and are all above it |
| SupportWindows.KeptFixIsUpgradeIff | internal/eval/addons/addons.go:391-392 | where no unnamed row hides the minimum, iff no row at or below the installed version covers the target |
| SupportWindows.RisingCeilingsFixIsUpgrade | internal/eval/addons/addons.go:116-120 | where ceilings never fall, the ABOVE_MAX fix is an upgrade and is the hop forced |
| SupportWindows.AFixMayBeADowngrade | internal/eval/addons/addons.go:391-392 | a table where the ABOVE_MAX fix is below the installed version and no hop is forced |
| Detect.DetectOne | internal/eval/addons/addons.go:248-294 | the version is at or below every readable one over all matching workloads, and empty only if none is readable |
| Detect.ReadMeans | internal/eval/addons/addons.go:266-275 | a readable image tag is the version, failing that a readable label, and failing both nothing is |
| Detect.ContainersFirst | internal/eval/addons/addons.go:264-267 | a workload is read through the first image that matches, containers before init containers |
| Detect.ListingOrderDoesNotMatter | internal/eval/addons/addons.go:254-258 | any relisting of the workloads detects the same add-on at an equal version |
| PathWalk.LeavesAreSound | internal/eval/generated/generated.go:712-775 | every text returned is shown by a walk the path spells out |
| PathWalk.LeavesAreComplete | internal/eval/generated/generated.go:712-775 | every text such a walk shows is returned |
| PathWalk.LeavesAreExact | internal/eval/generated/generated.go:712-775 | on every tree and path, exactly the texts the path shows |
| PathWalk.AlongShows | internal/eval/generated/generated.go:752-774 | every path has a tree in which it shows one given text and nothing else |
| PathWalk.LeafTexts | internal/eval/generated/generated.go:712-775 | what each kind of node at the end of a path reads as: its text, key=value per map entry, its elements, or nothing |
| PathWalk.SegmentGoes | internal/eval/generated/generated.go:752-774 | a segment goes into the value under its name, and one ending in brackets into each element there |
| Rules.KeysNamed | internal/eval/generated/generated.go:675-710 | the four ways a target names keys: a prefix family, part of a name, one key in full, a short name with or without its domain |
| Rules.KeysDecide | internal/eval/generated/generated.go:595-614 | labels alone decide a label rule and annotations alone an annotation rule; a key that is the target counts |
| Rules.FieldsDecide | internal/eval/generated/generated.go:615-624 | a field counts in spec or in status, a null one in neither; every object counts as present |
| Rules.PathsDecide | internal/eval/generated/generated.go:625-636 | a path rule holds iff some walk its path spells in spec or status shows a text its pattern matches |
| Rules.ImagesDecide | internal/eval/generated/generated.go:637-642 | an image rule holds iff some container or init container image has the target in it |
| Rules.KindsNamed | internal/catalog/generated.go:127-135 | an object kind with bars names each of its parts |
| Rules.SlugOfFiled | internal/catalog/generated.go:50-65 | an id of source, version and slug gives back the slug |
| Rules.SlugOfNumbered | internal/catalog/generated.go:50-65 | so does a hand-numbered one, whose dotted number is dropped |
| Workers.RunKeepsInv | internal/inventory/collect_cr.go:107-142 | at every point of every interleaving the shared state is the records made so far, whole, in some order, under one lock |
| Workers.LimitIsKept | internal/inventory/collect_cr.go:110-130 | at no point do more workers list than the limit allows, or two hold the lock |
| Workers.EveryRecordOnce | internal/source/source.go:92-109 | whatever the interleaving, each worker's record is made exactly once, one after the other in some order |
| Workers.EveryOrderCanHappen | internal/source/source.go:92-109 | and there is a run for every such order |
| Collect.EveryRunEndsTheSame | internal/inventory/collect_cr.go:114-159 | every interleaving ends in the same inventory and the same collector state |
| Collect.NeverMoreThanFour | internal/inventory/collect_cr.go:110-130 | at no point of any run do more than four workers list |
| Collect.EachKindInOnePlace | internal/inventory/collect_cr.go:107-142 | where each wanted kind ends, whatever was recorded before; in exactly one of read, unread and not served iff the earlier record agrees with this read |
| Collect.StateSaysHowMany | internal/inventory/collect_cr.go:143-159 | the collector is failed, partial or OK exactly as none, some or all of the served kinds could be read |
| Collect.CollectionHasOneEnd | internal/inventory/collect_cr.go:75-159 | a collection has exactly one end, be nothing wanted, discovery failed, or the workers in any order |
| Workers.SomeStepIsPossible | internal/inventory/collect_cr.go:123-142 | no reachable state is stuck before the wait is over |
| Workers.RunsAreShort | internal/inventory/collect_cr.go:114-142 | no run takes more than eight steps an item |
| Collect.FailDiscovery | internal/inventory/collect_cr.go:97-105 | every wanted kind is marked unread with the reason, in any order, and the collector failed |
| Settle.SubjectRows | internal/eval/generated/generated.go:487-522 | the filtered rows over all kinds, or the first kind that could not be read |
| Settle.AskedAre | internal/eval/generated/generated.go:487-522 | the objects asked are those read of each kind, in the namespace named and of a name the pattern matches |
| Settle.TypedKindsRead | internal/eval/generated/generated.go:433-475 | nodes, CRDs and storage classes are read exactly when their own collector was |
| Settle.Gated | internal/eval/generated/generated.go:967-1048 | the outcome once the gate is applied: decline, clear, stand or narrow |
| Settle.UnreadKindDeclines | internal/eval/generated/generated.go:530-545 | a rule reading a kind nobody read is declined, whatever else it reads |
| Settle.UnreadGateDeclines | internal/eval/generated/generated.go:967-994 | so is a rule whose gate does, whatever its own detection settled |
| Settle.DeclineSaysWhy | internal/eval/generated/generated.go:400-405 | a decline with no reason of its own says what could not be read |
| Settle.NamedAreHits | internal/eval/generated/generated.go:1281-1297 | every name given is a hit's, and with fewer than ten every hit is named |
| Settle.NamedAreFirstTen | internal/eval/generated/generated.go:1281-1297 | the names are the first ten in order |
| Settle.RowRuleFiresOnHits | internal/eval/generated/generated.go:537-569 | a rule that is not declined fires iff some object it asks about satisfies it |
| Settle.ApiVersionRuleMeans | internal/eval/generated/generated.go:820-862 | an apiVersion-in-use rule settles iff its objects could be asked or nothing is served there, fires iff one is still written at it, and names only such |
| Settle.WrittenMeans | internal/eval/generated/generated.go:838-855 | a version is written by itself alone, a bare group by any version of it |
| Settle.NotServedMeans | internal/eval/generated/generated.go:858-873 | known not served means discovery answered and serves neither the target nor, for a group, a version of it |
| Settle.GateClearsIff | internal/eval/generated/generated.go:975-1048 | a settled gate clears iff nothing opens it, the rule had cleared, or on one kind no name satisfies both and fewer than ten were named |
| Settle.GateNarrowsOneKind | internal/eval/generated/generated.go:1019-1047 | on one shared kind and fewer than ten names, for each of the seven row kinds, what is left is exactly the names satisfying both |
| Settle.OtherGatesNarrowNothing | internal/eval/generated/generated.go:1019-1025 | an open gate on other kinds, on several, or on another sort of rule leaves the outcome as it was |
| Settle.SameKindGateIsSound | internal/eval/generated/generated.go:1019-1047 | a narrowed finding names only names satisfying both; it clears exactly when nothing opens the gate, or none satisfies both and fewer than ten were named |
| Settle.SameKindGateNamesObjects | internal/eval/generated/generated.go:1019-1047 | where no two objects of the kind share a name, one object satisfies both for each name, and none does if it clears |
| Selection.SelectRules | internal/eval/generated/generated.go:222-271 | the enabled rules on the path in catalog order, and the sources skipped for want of a hop |
| Selection.PathRulesAre | internal/eval/generated/generated.go:222-271 | those are exactly the catalog's rules that are on the path |
| Selection.SkippedMeans | internal/eval/generated/generated.go:255-270 | the sources noted as not evaluated are those of add-ons with an enabled rule and no hop |
| Selection.OnPathMeans | internal/eval/generated/generated.go:222-271 | Kubernetes sources go by the minor window, the skew policy is always on, other sources go by their own hop, and a rule switched off never is |
| Selection.KubernetesWindow | internal/eval/generated/generated.go:244-248 | the Kubernetes rules past the current minor and up to the target's own, and no others |
| Selection.OneMinorUp | internal/eval/generated/generated.go:244-248 | one minor up, exactly the rules of the minor arrived at |
| Selection.RuleFallsOnItsHop | internal/eval/preflight/preflight.go:58-99 | along the plan each selected rule falls on the hop that ends at its own minor |
| Selection.OwnedMeans | internal/eval/generated/generated.go:352-376 | a rule is left to the removed-API catalog iff it asks for an apiVersion in use the catalog has a row for |
| Selection.StoppingSplitsRules | internal/eval/generated/generated.go:244-248 | stopping at any version on the way splits the Kubernetes rules selected in two, none lost and none twice |
| Selection.PathIsUnionOfSteps | internal/eval/generated/generated.go:244-248 | along a ladder the Kubernetes rules selected for the path are, counted, those selected for its steps |
| Selection.PlanCoversPath | internal/eval/preflight/preflight.go:58-99 | so they are for the plan printed for any same-major skew of 1 to 12 |
| Projection.Wants | internal/eval/generated/generated.go:45-103 | each wanted kind keeps exactly the keys some predicate on the path reads, each once |
| Projection.ReadsMeans | internal/eval/generated/generated.go:78-101 | a rule asks for its hint and gate always, and its detection unless undetectable, typed or owned |
| Projection.Project | internal/inventory/collect_cr.go:214-228 | the named keys that are present, or everything when nothing is named |
| Projection.FieldKeyKept | internal/eval/generated/generated.go:63-68 | a field target is kept whole exactly when it has no dot and no brackets at its end |
| Projection.PathKeyKept | internal/eval/generated/generated.go:63-68 | a path's first key is kept exactly unless the path is one segment with two pairs of brackets |
| Projection.ProjectionIsExact | internal/eval/generated/generated.go:590-645 | the cut preserves a predicate's verdict on every row iff its target is covered or it can match nothing |
| Projection.PresenceIsExact | internal/eval/generated/generated.go:58-68 | a presence check survives the cut iff its target is covered |
| Projection.ADottedFieldIsLost | internal/catalog/generated.go:165-171 | a dotted field target the catalog accepts on a custom resource without a projector, and an object that satisfies it until its keys are cut |
| Projection.WantsKeepForEach | internal/eval/generated/generated.go:78-101 | whichever rules share a kind, the keys each covered predicate reads are kept |
| Projection.ProjectionKeepsOutcome | internal/eval/generated/generated.go:537-569 | settling on the kept keys is settling on the whole objects |
| Projection.ProjectionKeepsGate | internal/eval/generated/generated.go:975-1048 | and so is gating |
| Fold.OrderLists | internal/eval/generated/generated.go:1073-1086 | the order lists every outcome once: the one before is more severe, or of an earlier version, or first in the list |
| Fold.FoldDuplicates | internal/eval/generated/generated.go:1072-1115 | the array is marked in place with the result of the pass: who was folded into whom, who lists whom |
| Fold.FoldIsGreedy | internal/eval/generated/generated.go:1062-1115 | an outcome is kept iff no kept one before it in the order shares a key |
| Fold.KeptShareNothing | internal/eval/generated/generated.go:1094-1113 | no two kept outcomes share either key |
| Fold.SharedKeyMeans | internal/eval/generated/generated.go:1062-1071 | sharing a key is the same slug, detection and objects, or the same quote and objects, where the parts hold as many bars |
| Fold.FoldedPointsToKept | internal/eval/generated/generated.go:1106-1110 | a folded outcome names a kept one sharing a key that is more severe, or of an earlier version, or listed first, the only one to list it |
| Analyze.AnalyzeRules | internal/eval/generated/generated.go:105-196 | findings and coverage are those of the rules on the path |
| Analyze.GapsInOrder | internal/eval/generated/generated.go:172-184 | gap rows come by scope and then by reason |
| Analyze.AnalysisIsDeterministic | internal/eval/generated/generated.go:172-184 | nothing in them depends on map iteration |
| Analyze.FindingsAreEarned | internal/eval/generated/generated.go:159-170 | every finding is of a selected rule that is advisory or fired |
| Analyze.RuleSettlesIff | internal/eval/generated/generated.go:117-170 | detection and gate together: a rule declines iff one could not be checked, clears iff what it looks for is absent or its gate is shut, else fires |
| Analyze.NoFalseClean | internal/eval/generated/generated.go:110-196 | a rule reading an unreadable kind yields no finding, is in exactly one unavailable row, and spoils completeness |
| Analyze.SkippedAreDeclined | internal/eval/generated/generated.go:143-178 | the rules the rows count as skipped are exactly the declined ones |
| Analyze.EveryRuleIsAccountedFor | internal/eval/generated/generated.go:117-170 | every selected rule is printed, folded, owned, declined and counted, or cleared |
| Analyze.ProjectionKeepsAnalysis | internal/inventory/collect_cr.go:57-75 | outcomes and gaps on the kept keys are those on the whole objects |
| TypedRules.CrdServedVersion | internal/eval/generated/generated.go:792-818 | the loop computes the outcome of the served-version rule |
| TypedRules.CrdRuleMeans | internal/eval/generated/generated.go:792-818 | declined iff the CRDs were not read, else fires iff one serves the version, and names only such |
| TypedRules.ServesMeans | internal/eval/generated/generated.go:799-810 | a CRD is meant when it serves the version and the rule's object kind, lower-cased, is part of its name |
| TypedRules.VersionSkew | internal/eval/generated/generated.go:882-951 | the two loops compute the outcome of the skew rule |
| TypedRules.SkewRuleMeans | internal/eval/generated/generated.go:882-951 | clears only when some version was read and none lags too far; fires iff one does; declined otherwise |
| TypedRules.KubeletsDecide | internal/eval/generated/generated.go:926-951 | once some kubelet version reads, the rule fires iff some kubelet is more minors behind than allowed |
| TypedRules.ProxiesDecide | internal/eval/generated/generated.go:896-925 | and for kube-proxy, image by image of its DaemonSets |
| TypedRules.AsksProxyMeans | internal/eval/generated/generated.go:894-896 | which of the two a rule asks about |
| TypedRules.ImageTagMeans | internal/eval/generated/generated.go:953-964 | the tag of an image reference, with a registry port and a digest told apart from it |
| TypedRules.ProxyMeans | internal/eval/generated/generated.go:900-903 | the kube-proxy DaemonSets are those so named in kube-system |
| Analyze.CollectedKindsAreSettled | internal/eval/generated/generated.go:455-484 | after any interleaving, whatever was recorded before, a rule sees each wanted kind as read, failed or not served, never uncollected |
| Analyze.SecondCollectionKeeps | internal/inventory/collect_cr.go:57-75 | after both collectors a kind has the rows the first read, else the second's, else a failure, else not served |
| Analyze.UndiscoveredKindsAreGaps | internal/inventory/collect_cr.go:97-105 | when discovery fails every wanted kind not read before is a gap, the collector has failed, and nothing else changed |
| Analyze.FailedListIsNeverClean | internal/inventory/collect_cr.go:97-142 | from cluster to report: a rule reading, itself or through its gate, a kind whose list failed yields no finding, is in one unavailable row, and the scan is not complete |
| Analyze.NoSelectedRuleIsUncollected | internal/inventory/collect_cr.go:57-75 | no kind a selected rule reads is left uncollected by the collector run for those rules |
| Analyze.NoRuleFindsItsKindUncollected | internal/inventory/collect_cr.go:57-75 | nor does any rule, by its detection or its gate, find its kind uncollected |
| Deprecations.LookupKeepsKey | internal/eval/removedapi/removedapi.go:158-178 | a looked-up rule is filed under the usage's own key, whichever table it came from |
| Deprecations.LookupMeans | internal/eval/removedapi/removedapi.go:158-178 | the catalog's row first, else the detector's for the kind, else the detector's for the whole group-version |
| Deprecations.LaterRowStands | internal/catalog/load.go:112-119 | of two catalog rows for one apiVersion and kind the later one stands |
| RemovedApi.Analyze | internal/eval/removedapi/removedapi.go:20-119 | on any list of usages, one finding for each key some usage breaks, in the printed order: the rule of the first such usage, the objects, tiers and evidence of all |
| RemovedApi.EvidenceOrderDoesNotMatter | internal/eval/removedapi/removedapi.go:39-118 | permuted or repeated evidence gives the same findings where usages sharing a key agree, and the same list when rule ids are distinct |
| RemovedApi.OrderFreeIff | internal/eval/removedapi/removedapi.go:39-70 | the order of evidence does not matter iff usages that share a key break the same rule |
| RemovedApi.PlainNamesAgree | internal/eval/removedapi/removedapi.go:58-59 | as they do when no apiVersion holds a bar |
| Scan.ScansIff | internal/source/source.go:76-128 | a scan returns every target's batch once, whole, in some order of completion, and any order can happen |
| Scan.NeverMoreThanSix | internal/source/source.go:85-105 | at no point of any run do more than six workers list |
| Scan.ScanOrderDoesNotMatter | internal/source/source.go:98-128 | so, where usages sharing a key agree, the findings are the same, as a list when rule ids are distinct, and the coverage rows are the same rows |
| Scan.ScanIsSorted | internal/source/source.go:122-128 | usages come by apiVersion and then by object |
| Scan.SettledIffOneTarget | internal/source/source.go:98-121 | whatever the cluster answers, the order of those rows is settled iff there is at most one target |
| Scan.TwoKindsNeverSettle | internal/source/source.go:310-329 | with targets of two kinds it never is |
| RemovedApi.ReportedWhenUsed | internal/eval/removedapi/removedapi.go:39-57 | a removed API is reported iff some usage of it breaks at the target |
| RemovedApi.BreaksIff | internal/eval/removedapi/removedapi.go:180-192 | a usage breaks iff its version is removed or deprecated by the target, the target's own minor included |
| RemovedApi.SeverityMeans | internal/eval/removedapi/removedapi.go:180-205 | critical iff gone at the target, else high; one step less when softened; and the version it applies at |
| RemovedApi.ObjectsNamed | internal/eval/removedapi/removedapi.go:72-112 | the objects of the usages that count, sorted, at most fifty, all of them counted |
| RemovedApi.SoftenedWhenAllStale | internal/eval/removedapi/removedapi.go:86-92 | the claim is weakened iff every usage counted is stale and some object is named |
| Targets.ResolveTargets | internal/source/source.go:141-252 | targets, removed versions and coverage are those the catalog and discovery call for, exactly when no two scanned types share a key |
| Targets.PlainNamesAreUnmixed | internal/source/source.go:218-219 | as when no kind, or no served version, holds a bar |
| Targets.NoRuleIsLost | internal/source/source.go:174-239 | each removed row is not applicable, counted as unscannable, or in exactly one target, listed at its served replacement |
| Targets.LeftOutMeans | internal/source/source.go:175-181 | what is not concrete and what is not removed, removal at the target's own minor included |
| Targets.TargetsByKind | internal/source/source.go:233-237 | targets come by kind |
| Targets.ReplacementIsListed | internal/source/source.go:190-195 | a served replacement is what is listed, though the removed version is served too |
| Targets.ListableMeans | internal/source/source.go:203-216 | a type that cannot be listed is not applicable when it only takes a create, and unscannable otherwise |
| Targets.OnlyUnparsedIsLost | internal/source/source.go:218-223 | a row goes unrecorded only if discovery served a name that is no group-version |
| Targets.GroupVersions | internal/source/source.go:203-204 | a version or a group and a version parse, anything with a second slash does not |
| Targets.UnscannableAreCounted | internal/source/source.go:261-290 | the rows' skipped counts sum to the unscannable rows; no row exactly when there are none |
| Targets.FromManagedFields | internal/source/source.go:344-385 | one observation per entry at a removed version, stale iff a later write at the current version exists |
| Targets.LaterMeans | internal/source/source.go:378-380 | later is strictly later, as text |
| Report.StatusFor | internal/report/report.go:187-211 | complete iff no row is unavailable or partial; insufficient iff some row is and none is complete; rows without a state count in no class |
| Report.SeveritiesRank | internal/catalog/types.go:14-30 | critical before high, medium, low and info, and anything unrecognised last |
| Report.PrintedBefore | internal/report/report.go:163-176 | what is printed before is more severe, then of an earlier rule id, then of an earlier resource |
| Report.Sort | internal/report/report.go:163-176 | sorted in place, a rearrangement, and ties in the order they came |
| Report.PlaceLeqOrders | internal/report/report.go:165-175 | the printed order is total, transitive and decided by severity, rule and resource |
| Report.FoldSkipped | internal/eval/addons/addons.go:208-237 | one unavailable row per reason, with the labels that gave it |
| Report.FoldingCountsAll | internal/eval/addons/addons.go:208-237 | the rows' counts sum to the rules skipped |
| Wrap.WrapText | internal/render/style.go:109-143 | the greedy breaking of the text's words, at the width less the indent and never under thirty |
| Wrap.GreedyBreaks | internal/render/style.go:128-141 | every word in order; each line fits or is one over-long word |
| Wrap.GreedyIsFewest | internal/render/style.go:128-141 | no breaking of the same words within the limit uses fewer lines |
| Wrap.LinesFitTheWidth | internal/render/style.go:114-127 | every line fits the width less the indent, or thirty on a narrow terminal, or is one word |
| Wrap.WrappingKeepsWords | internal/render/style_test.go:65-69 | the wrapped text has the words of the original, and wrapping it again changes nothing |
| Wrap.PrintNumber | internal/render/style.go:180-197 | the digits of the number, with a sign when negative |

## Left out

- Text.Atoi: takes text without a sign, because every caller has cut at the signs; its 64-bit range is modelled.
- KubeVersions.MinorKey: does not model wrap-around of major * 1000 + minor, which needs a number above nine quadrillion.
- KubeVersions.HopsBetween: where NextMinor passes the largest int, the model prints the number one higher and the code the wrapped one; neither reads as a version.
- KubeVersions.UpgradeTargets: the same holds when current's own minor is the largest int.
- Detect.DetectOne: models one add-on; the loop over add-ons calls it for each. How an image reference splits into repository and tag is a parameter.
- Settle.Gated: the sentences added to the evidence are prose and are not modelled; what is named and counted is.
- Analyze.AnalyzeRules: what number a skew rule's value begins with is a parameter, and lower-casing covers ASCII.
- Projection.ProjectionKeepsAnalysis: is about kinds kept as raw keys; the per-kind projectors in internal/inventory/projection.go, which derive other rows, are not part of this model.
- SupportWindows.HopReachesSupportIff: is about vendor tables; a currency hop has no window to evaluate.
- SupportWindows.RisingCeilingsFixIsUpgrade: is sufficient; the exact condition, on any table, is SupportWindows.FixIsUpgradeIff.
- The count of removed versions still served but unused, whose row carries no state when there is nothing to say.
- The evidence sentences, titles, recommendations and ids of findings, and the scope hints of advisories.
- Reading last-applied annotations and API server metrics, and the network calls under every list.
- Loading the catalog files, the command line, colour and layout, the score and the support calendar.
- The advisory, node-runtime, plugin, config-breaker and add-on predicate tiers, version gates of add-on rules, upgrade notes and the vendor support policy, whose properties each follow from one body.
