# ClaimCI: a verified model of the deterministic audit core

ClaimCI decides whether a claimed improvement of one experiment (the candidate) over another (the baseline)
is supported by the raw artifacts. This project models the deterministic code behind that decision and proves
what each part promises.

* **Obligations** (`ObligationGraph`, `Obligations`, `ObligationBundle`, `BundleClaims`, `NativeRepresentation`): the
  depth-first admission of dependency graphs with its mutable sets, the memoised derivation of composites over a
  mutable cache, the bundle decision, and the downgrade of a ready bundle when an artifact has no native form.
* **Exact arithmetic** (`Numerals`, `Decimals`, `DecimalMeans`): decimals as coefficient and exponent, rounded
  half-even to a context's digits by sums, products and quotients.
* **The audit** (`Findings`, `ConfigFairness`, `ConfigChanges`, `ResultCheck`, `ClaimDirection`, `Audit`,
  `RuleFamilies`, `StreamedAudit`): fairness of two configurations, recomputed summaries and seeds, the findings of
  all eight artifacts, the verdict they determine, and the same verdict reached from streamed datasets.
* **Measurement drift** (`MeasurementDrift`, `MeasurementRecovery`, `MeasurementSelection`, `MeasurementSpelling`,
  `SpellingInputs`, `AuditDrift`): the ten components recovered from each arm, their comparison, and what the report
  says beside the audit's verdict.
* **Datasets** (`DatasetLines`, `DatasetFiles`, `DigestCounts`, `DatasetIdentity`, `DatasetSpill`, `DatasetScan`,
  `ScanEnding`, `DatasetChecks`): the two line readers, the batched spill table on a disk that may fail at every step,
  the budgeted scan, and the checks from memory or from scans.
* **Artifact reading** (`ArtifactScan`): one hashed, budgeted pass over a descriptor.
* **Graphs and trees** (`ObjectGraphs`, `DottedKeys`, `ConfigTree`, `ConfigPayload`, `EvaluationFlattening`,
  `FlattenedMappings`): the YAML and JSON walkers over object identities, dotted-key insertion, lookup, flattening,
  and what a flattened mapping still says about the mapping.
* **Selectors and approval** (`TableNumbers`, `NumberGrammar`, `TableSelectors`, `TableBindings`, `BindingIdentities`,
  `MetricBinding`, `MetricNames`): typed row predicates and their exact overlap decision, artifact bindings, and
  metric pairs bound to one exact head.

`Common` and `Ordering` hold shared results and the stable sort. `dafny verify dfyconfig.toml` checks everything.

Two kinds of choice recur. What the outside world may do (a disk, short reads, the order of dictionary items, the
nearest double, truncated digests of identifiers) is a parameter or an arbitrary choice, so every statement holds
for all of it. What a cryptographic digest commits to is taken to be injective, except for the truncated
identifiers of metric binding, about which nothing is assumed.

## Where the code does not do what one might expect

Each of these is proved as stated; where a condition is given it is exact unless it is called sufficient.

* The improvement threshold is compared after a 28-digit subtraction. A claim is granted if and only if the true
  improvement reaches the threshold, or misses it by at most half a unit of the 28th digit and rounds up to it: a
  condition on the two means and the threshold alone (`ResultCheck.ThresholdRule`).
  `ResultCheck.ThresholdCanBeGrantedByRounding` gives a family of claims granted although they miss it.
* The decimal mean of the runs can depend on their order. That the exponents fit the context is sufficient for it not
  to (`DecimalMeans.MeanIgnoresOrder`; a spread of four always does, `DecimalMeans.FourFits`), and then the mean is
  the nearest one (`DecimalMeans.MeanIsNearest`). On the runs 10^h, 10^l, -10^h the condition is exact: two of their
  orders agree if and only if h - l < 28 (`ResultCheck.OrderMattersBeyondContext`).
* A finished artifact scan may exceed its integrity budget, exactly by bytes whose limit error the caller ignored
  (`ArtifactScans.ArtifactScan.CanFinish`, `ArtifactScans.IgnoredLimitError`).
* A null configuration value gives way silently to a longer key that comes later (`ConfigPayloads.NullIsOverwritten`).
  A list is accepted in every order of insertion, nulls or not, if and only if its keys are prefix-free
  (`ConfigPayloads.EveryOrderIsAccepted`), and then the order does not show (`ConfigPayloads.OrderDoesNotMatter`).
* Flattening loses a value exactly when two leaves share a joined key with different values
  (`EvaluationFlattening.KeepsExactly`, `EvaluationFlattening.DottedKeyCollides`).
* Streaming may refute where the audit of the whole files only lacks evidence: it may find a leak in the inspected
  part of a file that does not load (`StreamedAudit.LeakBeyondMemory`). A leak that streaming finds is a leak of the
  whole files if and only if both of them load (`StreamedAudit.StreamedLeakLoads`). What is said of streaming beside
  whole files holds where both readers see the same records (`StreamedAudit.SameFile`).
* The two readers need not see the same records. A carriage return between two tokens of a record, as in `{"a":\r1}`,
  is white space to the block reader and a line break to the text reader, which refuses the halves; streaming may then
  support a claim for which the audit of the whole files lacks evidence (`DatasetFiles.CutRecordSupports`). `SameFile`
  fails if and only if the scan accepts the whole file and a carriage return so cuts one of its records
  (`DatasetFiles.SameFileExactly`); where none stands inside a line it holds (`DatasetFiles.NoReturnSameFile`).
* Between fully recovered arms the drift report can be insufficient although no audit rule sees a difference. Mappings
  are compared there as Python compares them, so that 1, 1.0 and true are equal and two spellings of one value; the
  components tell them apart (`SpellingInputs.SpellingIsUndecided`). Where no two leaves of a mapping share a joined
  key with different values, the report is insufficient if and only if the records are the same, the mappings are
  equal, and some leaf, nested or not, is spelled differently (`MeasurementSpelling.UndecidedMeansSpelling`). Leaves
  that do share a key leave the report insufficient with no spelling involved, even for one and the same
  configuration: which value survives depends on the order of the keys (`SpellingInputs.CollisionIsUndecided`). In
  general each key that the arms disagree on is a spelling or such a collision
  (`MeasurementSpelling.UndecidedExactly`), and equal mappings flatten alike in every order if and only if they are
  identical and nothing collides (`FlattenedMappings.EqualAlwaysAlike`).
* A drift report can be VERIFIED beside a reported mismatch of the evaluations: an empty mapping leaves no trace in
  the flattened evaluation (`SpellingInputs.EmptyMappingIsUnseen`), and neither does the difference between a dotted
  key and a nested one (`SpellingInputs.DottedKeyIsUnseen`). Unless leaves collide this happens if and only if the
  records are the same and the mappings differ but have the same leaves under the same joined keys
  (`MeasurementSpelling.VerifiedBesideMismatchExactly`). Without dots inside keys that is: they differ by mappings in
  them that hold no leaf; where every mapping holds one, VERIFIED excludes the mismatch
  (`MeasurementSpelling.VerifiedExcludesMismatch`). Where leaves collide, two mappings can flatten alike if and only
  if their leaves pair up (`FlattenedMappings.SometimesAlikeMeaning`).
* A null predicate never matches a comma-separated table, so there disjointness is exact only for selectors without
  one (`TableSelectors.CsvDisjoint`).

## Model

| member | source | states |
|---|---|---|
| DependencyGraphs.SearchFromAll | claimci/analysis/obligations.py:1239-1255 | the two-set depth-first search terminates on every closed graph, cyclic or not, and succeeds if and only if no walk returns to its start |
| DependencyGraphs.DependencySearch.Visit | claimci/analysis/obligations.py:1243-1252 | one visit: false only if there is a cycle; otherwise everything reachable is visited and ranked below, and the visiting set is restored |
| DependencyGraphs.DependencySearch.VisitAll | claimci/analysis/obligations.py:1243-1255 | the loop over dependencies, with the same guarantee for each |
| DependencyGraphs.RankedIsAcyclic | claimci/analysis/obligations.py:1240-1252 | a rank falling along every edge, as the finished search provides, excludes cycles of any length |
| DependencyGraphs.ReachShrinks | claimci/analysis/obligations.py:1264-1273 | in an acyclic graph a dependency reaches strictly less than its dependent: the measure of the derivation |
| Obligations.ValidateGraph | claimci/analysis/obligations.py:1228-1255 | accepts exactly lists with unique identifiers, known dependencies and no cycle, and reports the first of the three defects |
| Obligations.Construct | claimci/analysis/obligations.py:1080-1205 | the checks of construction in their order accept exactly the obligations taken to be valid everywhere else: bounds, distinctness, support of the target's own type and fields, one of leaf and composite, and what goes with each state |
| Obligations.ClosedExactly | claimci/analysis/obligations.py:1232-1238 | the set comparison on identifiers finds exactly the dangling dependencies |
| Obligations.Derivation.Derive | claimci/analysis/obligations.py:1258-1318 | whatever the shared cache already holds, the answer is the meaning of the identifier, and the cache stays right |
| Obligations.Derivation.DeriveEach | claimci/analysis/obligations.py:1269-1273 | the recursive pass over dependencies through the cache |
| Obligations.MeaningExplains | claimci/analysis/obligations.py:1258-1318 | the meaning is a fixpoint of the one-step rule: leaves keep themselves, composites combine the meanings of their dependencies |
| Obligations.DerivedSummarisesLeaves | claimci/analysis/obligations.py:1258-1318 | a composite's state is the worst among all leaves reachable through any nesting, and its effect asks for a mapping exactly when a mapping settles each open leaf |
| Obligations.CombineSummarises | claimci/analysis/obligations.py:1274-1316 | one combination step keeps that summary, from children that summarise their own leaves |
| Obligations.DerivedIsValid | claimci/analysis/obligations.py:1080-1205 | derivation only builds obligations that the constructor accepts: bounds, uniqueness, support matching its target, and consistent state, reason and effect |
| ObligationBundles.BuildBundle | claimci/analysis/obligations.py:1321-1418 | the bundle, or the first bound, graph or claim defect |
| ObligationBundles.DeriveAll | claimci/analysis/obligations.py:1347-1354 | deriving all items through one shared cache gives each its meaning |
| ObligationBundles.BundleIgnoresOrder | claimci/analysis/obligations.py:1321-1418 | a permutation of the obligations gives the same bundle, or the same error |
| ObligationBundles.DerivedIgnoresHandedStates | claimci/analysis/obligations.py:1258-1318 | the state a composite was handed has no influence |
| ObligationBundles.MeaningIsFixed | claimci/analysis/obligations.py:1347-1354 | deriving derived obligations changes nothing |
| ObligationBundles.BundleIsIdempotent | claimci/analysis/obligations.py:1321-1418 | building a bundle from its own obligations gives it back |
| ObligationBundles.BlockersAreOpenLeaves | claimci/analysis/obligations.py:1364-1369 | the blockers are exactly the unsatisfied leaves, sorted and without repetition |
| ObligationBundles.DecisionMeaning | claimci/analysis/obligations.py:1364-1418 | READY exactly when the compiler supports the claim and every leaf is satisfied; MAPPING_NEEDED exactly when a question exists and mappings settle all open leaves |
| ObligationBundles.BundleShowsWorstLeaves | claimci/analysis/obligations.py:1347-1418 | every obligation of a bundle shows the worst leaf it reaches |
| BundleClaims.RefusedForForeignClaim | claimci/analysis/obligations.py:1355-1363 | within the bounds and on an accepted graph a bundle is refused if and only if some handed obligation carries support for a field of another claim |
| BundleClaims.RefusedForStructure | claimci/analysis/obligations.py:1321-1346 | more than 16 obligations, then more than 32 supports, then the graph defect, refuse a bundle in this order |
| BundleClaims.OwnSupportIsReady | claimci/analysis/obligations.py:1355-1418 | one satisfied leaf with support of its own claim makes a ready bundle of that claim and is refused by every other claim |
| BundleClaims.CompilerFields | claimci/analysis/obligations.py:1364-1418 | whom a bundle is about, and state, reason and effect of the compiler; without one the decision is PARTIAL |
| BundleClaims.CompositeInFull | claimci/analysis/obligations.py:1274-1316 | the reason and effect of a composite beside its state; one that asks for a mapping takes over the reason of its first ambiguous leaf, dependency by dependency in their order |
| NativeRepresentation.WithNativeRepresentationFailure | claimci/analysis/obligations.py:2257-2310 | the downgraded bundle, or the policy, readiness, slot or rebuild error |
| NativeRepresentation.OneLeafIsReady | claimci/analysis/obligations.py:2264-2303 | ready bundles with a matching slot exist: one satisfied artifact leaf makes one |
| NativeRepresentation.FailureBlocks | claimci/analysis/obligations.py:2257-2310 | on any READY bundle with a matching slot the result is PARTIAL and its blockers are exactly the degraded leaves |
| NativeRepresentation.FailureIsContained | claimci/analysis/obligations.py:2257-2310 | other leaves are untouched; a composite turns UNSUPPORTED exactly when it reaches a degraded leaf |
| NativeRepresentation.FailureBySlot | claimci/analysis/obligations.py:2282-2303 | a failure is refused exactly when no leaf is of the slot's kind, role and named split; otherwise these leaves are exactly the blockers |
| NativeRepresentation.LeafAfterSlotFailure | claimci/analysis/obligations.py:2282-2303 | a leaf of the slot is unsupported for want of a native form, blocks, and has no support; every other leaf is as it was |
| NativeRepresentation.OtherArmUntouched | claimci/analysis/obligations.py:2285-2290 | a failure of one arm's slot leaves every leaf of the other arm as it was |
| Decimals.ProductDigits | claimci/config_check.py:142-148 | a product of d1 and d2 digits has at most d1 + d2 digits |
| Decimals.NearThreeHalves | claimci/config_check.py:151-160 | half a unit in the last place cannot carry a ratio with a short denominator to or across 3/2 |
| Decimals.RoundedRatioSide | claimci/config_check.py:151-160 | a quotient rounded to enough digits lies on the same side of 3/2 as the exact ratio |
| ConfigFairness.ReadValue | claimci/config_check.py:51-59 | the step-by-step walk finds the value at a path, or its absence |
| ConfigFairness.MissingOrInvalidFields | claimci/config_check.py:89-106 | lists exactly the required fields that are absent or unusable, in their order; empty if and only if the configuration is complete |
| ConfigFairness.ComputeProxies | claimci/config_check.py:121-139 | each proxy is the exact product or value of the declared positive numbers, present exactly when they are |
| ConfigFairness.MultiplyExactIsExact | claimci/config_check.py:142-148 | the chosen precision never rounds a product |
| ConfigFairness.AtLeastRatioIsExact | claimci/config_check.py:175-191 | the integer cross-product decides candidate >= 3/2 baseline exactly, whatever terms the integer ratios are in |
| ConfigFairness.EvidenceAgreesWithRule | claimci/config_check.py:151-160 | for any two positive decimals the printed ratio is below, at or above 3/2 exactly when the exact comparison is |
| ConfigFairness.CheckConfigs | claimci/config_check.py:215-461 | reports exactly the deserved rules, each once, in order and with the impact that it is meant to carry; hands on the fields at fault of each arm in their order, the first basis that both declare, and a ratio that agrees with the compute rule |
| ConfigFairness.RulesMeaning | claimci/config_check.py:218-461 | only missing fields, a compute mismatch and an evaluation mismatch forbid support; only the latter two invalidate |
| ConfigFairness.ComputeRuleOnCompleteConfigs | claimci/config_check.py:250-279 | on complete configurations the compute rule is 2 * steps * batch of the candidate >= 3 * steps * batch of the baseline, over exact decimals |
| ConfigChanges.CompleteMeans | claimci/config_check.py:74-106 | the configurations without a missing field are those with four positive numbers, a model and the declarations of both datasets |
| ConfigChanges.BlankDeclaresNothing | claimci/config_check.py:74-106 | white space alone declares nothing, and a text with any letter or digit in it does |
| ConfigChanges.ComputeRuleByEntries | claimci/config_check.py:121-279 | steps come before epochs, each times the batch size where both arms declare it, and the candidate spends too much exactly when it reaches 3/2 of the baseline on that basis |
| ConfigChanges.OneKeyDiffers | claimci/config_check.py:304-434 | which visible difference a change under one key is |
| ConfigChanges.OneChange | claimci/config_check.py:215-461 | two complete configurations that differ under one key are reported the one rule that belongs to this key, or are fair |
| ConfigChanges.FairToItself | claimci/config_check.py:437-459 | a complete configuration is fair to itself |
| ConfigFairness.EqualTransitive | claimci/config_check.py:304-434 | equality of values is transitive, numbers and booleans included |
| ConfigFairness.BooleansAreNumbers | claimci/config_check.py:304-434 | a boolean equals itself and the number one or zero, and nothing else |
| DecimalMeans.ComputeMean | claimci/result_check.py:189-199 | the running sum and quotient under the chosen precision |
| DecimalMeans.SumIsExact | claimci/result_check.py:189-199 | while the exponents' spread fits the context, no partial sum is rounded |
| DecimalMeans.FourFits | claimci/result_check.py:192-197 | a spread of at most four always fits |
| DecimalMeans.MeanIgnoresOrder | claimci/result_check.py:189-199 | then the mean is the same for every order of the runs, digit for digit |
| DecimalMeans.MeanIsNearest | claimci/result_check.py:189-199 | while the values fit the context, the mean is within half a unit in its last place of the true mean, carries at least the chosen number of digits, and is zero or negative only when the true sum is |
| ResultCheck.OrderMattersBeyondContext | claimci/result_check.py:189-199 | two orders of the runs 10^h, 10^l, -10^h have the same mean if and only if h - l < 28 |
| ResultCheck.SummaryIgnoresOrder | claimci/result_check.py:166-223 | while the values fit the context, the published mean, or its absence, is the same for every order of the runs whose float statistics are alike finite or not |
| ResultCheck.ThresholdRule | claimci/result_check.py:416-450 | the claim is met if and only if the exact difference reaches the threshold, or misses it by no more than half a unit of its 28th digit and rounds up to it |
| ResultCheck.ThresholdExact | claimci/result_check.py:416-450 | a difference of at most 28 digits is compared exactly |
| ResultCheck.ThresholdCanBeGrantedByRounding | claimci/result_check.py:416-450 | means 29 or more orders of magnitude apart are granted a threshold they miss |
| ClaimDirections.ClaimByMeans | claimci/result_check.py:416-450 | where the difference of the means has at most 28 digits, a claim is met exactly when the candidate's mean is better by the threshold: higher under one direction, lower under the other |
| ClaimDirections.BetterMeetsClaim | claimci/result_check.py:416-450 | whatever the digits, a mean that is better by a spelled threshold meets the claim, and one that meets it otherwise rounds up to it |
| ClaimDirections.DirectionsMirror | claimci/result_check.py:416-420 | lower is better for one arm exactly where higher is better for the other |
| ClaimDirections.MetMeansBetter | claimci/result_check.py:416-450 | a met claim never stands on a worse candidate, and with a positive threshold on a strictly better one |
| ClaimDirections.RelativeIsNearest | claimci/result_check.py:426-437 | the relative improvement is the spelling of the improvement divided by the absolute baseline mean, off by at most half a unit in its last place and with the sign of the improvement |
| ResultCheck.CountSeeds | claimci/result_check.py:261-275 | the one-based positions of the runs without a seed, in order, and how often each seed occurs |
| ResultCheck.SeedFindings | claimci/result_check.py:259-300 | reports exactly missing seeds, repeated seeds and single runs, and lists the positions and the repeated seeds in order |
| ResultCheck.ImbalancedMeans | claimci/result_check.py:345-363 | counts are imbalanced exactly when one arm has three times the runs of the other and at least two more, whichever it is |
| ResultCheck.SummaryDiffersMeans | claimci/result_check.py:230-258 | a stated summary is at fault exactly when it is above or below the recomputed mean, however either is spelled |
| ResultCheck.CheckResults | claimci/result_check.py:303-393 | no result exactly where the source raises; otherwise both means, the absolute and the relative improvement as a double spells them, the seeds listed for each arm, and exactly the deserved rules in order |
| ResultCheck.ResultsSupport | claimci/result_check.py:303-393 | results allow support if and only if both arms have distinct integer seeds, more than one run and true summaries, and the threshold is met |
| Findings.VerdictByRules | claimci/audit.py:167-172 | the verdict is determined by which rules were reported |
| Audit.AuditResearch | claimci/audit.py:219-377 | SUPPORTED if and only if all artifacts load, the configurations are complete, fair and equal in evaluation, the results are sound and their exact difference reaches the threshold or rounds up to it, and the datasets are clean and aligned; NOT_SUPPORTED if and only if one of these is refuted |
| Audit.ConfigMeaning | claimci/audit.py:251-271 | the configuration findings allow support, or invalidate, exactly when the configurations do |
| Audit.ResultMeaning | claimci/audit.py:273-313 | the same for the result findings, an incomputable comparison included |
| Audit.ResultsExactly | claimci/result_check.py:416-450 | sound and refuted results in terms of the exact difference of the means, for every threshold that is a spelled double |
| ClaimDirections.DoublesAreSpelled | claimci/result_check.py:407-415 | every non-negative threshold of at most 17 digits, as doubles are spelled, is one the exact characterisation speaks of |
| ClaimDirections.SupportedMeansBetter | claimci/audit.py:273-377 | a supported claim with a positive threshold has the candidate's mean strictly on the claimed side of the baseline's |
| ClaimDirections.WorseMeansRefuted | claimci/audit.py:273-377 | a claim whose candidate is not better by the threshold is refuted wherever the comparison is finite |
| Audit.DatasetMeaning | claimci/audit.py:315-376 | the same for leakage and alignment of the four datasets |
| StreamedAudit.AuditStreamed | claimci/audit.py:323-343 | where both readers see the same records, and for every behaviour of the disk: streaming gives SUPPORTED only where the audit of the whole files does; NOT_SUPPORTED only where it does too, unless every leak seen is in an experiment whose files do not both load; and the same verdict when all scans are complete |
| StreamedAudit.StreamedLeakLoads | claimci/dataset_check.py:228-300 | where both readers see the same records, a leak found in the inspected ones is a leak of the whole files if and only if both files load |
| StreamedAudit.InvalidationStands | claimci/dataset_check.py:198-395 | where both readers see the same records, whatever streaming invalidates the whole files invalidate, unless every leak seen is in an experiment whose files do not both load; a mismatch of the evaluation files always stands |
| StreamedAudit.CompleteScansAgree | claimci/dataset_check.py:198-395 | where both readers see the same records, after four complete scans the streamed rules are those of the in-memory dataset audit |
| StreamedAudit.LeakBeyondMemory | claimci/dataset_check.py:228-300 | a family of files, one of them unreadable after its first record, that streaming refutes and the in-memory audit finds insufficient |
| DatasetLines.BinaryLines | claimci/analysis/adapters/streaming.py:219-264 | over blocks cut anywhere, the block reader delivers the lines of the whole, without a final carriage return where a line feed follows, up to the first that exceeds the bound |
| DatasetLines.BlocksDoNotShow | claimci/analysis/adapters/streaming.py:219-264 | what it delivers, and whether it stops, is determined by the bytes and the bound |
| DatasetLines.BytesAddUp | claimci/analysis/adapters/streaming.py:219-264 | every byte of a file belongs to exactly one line |
| DatasetLines.TextLinesArePieces | claimci/dataset_check.py:50-55 | the text reader, with its universal newlines, sees the lines of the block reader cut at the carriage returns left inside them, in the same order |
| DatasetFiles.LoadDataset | claimci/dataset_check.py:61-84 | the records of the text in order, or nothing when a line is refused or there is no record |
| DatasetFiles.SourceOf | claimci/analysis/streaming_dataset.py:627-649 | what a pass over blocks hands to the scan: each delivered line with its bytes, and a stop exactly at a line beyond the bound |
| DatasetFiles.SameFileExactly | claimci/dataset_check.py:50-84 | for parsers that agree on lines without carriage returns, both readers see the same file if and only if the scan does not accept all of it while a carriage return cuts one of its records |
| DatasetFiles.NoReturnSameFile | claimci/dataset_check.py:50-84 | without a carriage return inside a line both readers see the same file |
| DatasetFiles.CutFile | claimci/dataset_check.py:50-79 | a record with a carriage return between two tokens is accepted by the scan and refused by the load |
| DatasetFiles.CutRecordSupports | claimci/audit.py:323-377 | with such a training file in an otherwise sound audit streaming gives SUPPORTED and the audit of the whole files INSUFFICIENT_EVIDENCE |
| MeasurementDrift.CompareProtocols | claimci/measurement.py:1224-1269 | the report's state is the maximum over the compared components |
| MeasurementDrift.StateMeaning | claimci/measurement.py:1113-1221 | when each state is reported of a component that both protocols have |
| MeasurementDrift.StateIsSymmetric | claimci/measurement.py:1113-1221 | neither arm is preferred, and a component that one protocol lacks is insufficient |
| MeasurementDrift.DecidedKinds | claimci/measurement.py:1178-1203 | rule by rule, which components a reported difference decides; no other rule decides any |
| MeasurementDrift.DriftBeside | claimci/measurement.py:1113-1221 | beside findings that each carry their rule's impact, every finding that can decide a component invalidates, and a report that invalidates accompanies only NOT_SUPPORTED |
| MeasurementRecovery.DatasetValues | claimci/measurement.py:659-709 | the recovered dataset fields commit to the declarations and to the record multiset, from hashes or from a streamed identity; nothing is recovered without usable declarations or records; both at once is an error |
| MeasurementRecovery.HashesMean | claimci/measurement.py:688-702 | the hashes of a file are usable exactly when there is one and each has 64 small hexadecimal digits |
| MeasurementRecovery.RecoveryMeaning | claimci/measurement.py:634-656 | a component is recovered exactly from fields within bounds; otherwise it is missing or, if optional, not applicable, and has no fields |
| MeasurementRecovery.RecoverProtocol | claimci/measurement.py:729-836 | all ten components of an arm, each recovered from the flattened evaluation and the records, or missing, or not applicable |
| MeasurementSelection.SelectedByName | claimci/measurement.py:712-836 | an optional component takes exactly the entries whose first segment is one of its names |
| MeasurementRecovery.MetricFits | claimci/measurement.py:634-656 | a usable evaluation within the field bound always leaves room for the metric name, so the metric component is recovered |
| MeasurementRecovery.RecordsDecide | claimci/measurement.py:688-709 | equal dataset fields mean the same records, and the same records under the same evaluation mean equal fields |
| MeasurementRecovery.VerifiedMeansSame | claimci/measurement.py:1224-1269 | a report on two recovered arms is VERIFIED if and only if they have the same flattened evaluation, usable and within bounds, and the same records; it is never a mere warning |
| MeasurementRecovery.InvalidatesMeansDifferent | claimci/measurement.py:1178-1203 | it invalidates only when the records or the evaluation mappings differ |
| MeasurementRecovery.DriftOfFullArms | claimci/measurement.py:1113-1269 | between fully recovered arms the three states are characterised exactly: same evaluation and records; different records, or evaluations different both as flattened and as mappings; the rest |
| MeasurementRecovery.DriftIsDetermined | claimci/measurement.py:1113-1269 | the report is determined by the configurations, the flattened evaluations and the records: neither the source of the identities nor bindings or other findings have any influence |
| FlattenedMappings.EqualMappings | claimci/config_check.py:304-326 | mappings that are equal to Python are identical unless some leaf, nested or not, is spelled differently |
| FlattenedMappings.EqualFlattened | claimci/measurement.py:578-606 | equal mappings flatten to the same keys, and where the values are not equal two leaves collide on the key |
| FlattenedMappings.EqualFlattenedApart | claimci/measurement.py:578-606 | equal mappings without collisions flatten differently if and only if some leaf is spelled differently |
| FlattenedMappings.PruneMeaning | claimci/measurement.py:586-600 | removing the mappings without leaves keeps every leaf, and no mapping without one remains |
| FlattenedMappings.SameLeavesMeaning | claimci/measurement.py:586-600 | two mappings have the same leaves if and only if they are equal up to mappings without leaves |
| FlattenedMappings.AlikeMeaning | claimci/measurement.py:578-606 | mappings without collisions flatten alike if and only if their leaves pair up under their joined keys |
| FlattenedMappings.DotFreeAlike | claimci/measurement.py:578-606 | without dots inside keys they flatten alike if and only if they are equal up to mappings without leaves, and identical where every mapping holds one |
| FlattenedMappings.AlwaysAlikeMeaning | claimci/measurement.py:584-606 | whichever leaves survive, two mappings flatten alike if and only if neither collides and their leaves pair up |
| FlattenedMappings.EqualAlwaysAlike | claimci/measurement.py:584-606 | equal mappings flatten alike whichever leaves survive if and only if they are identical and nothing collides |
| FlattenedMappings.SometimesAlikeMeaning | claimci/measurement.py:584-606 | two mappings can flatten alike if and only if under each joined key some leaves of both hold the same value |
| MeasurementSpelling.UndecidedExactly | claimci/measurement.py:1113-1221 | fully recovered arms are left undecided if and only if the records are the same, the mappings equal and some key was flattened to different values; each such key holds two spellings or stands for two colliding leaves |
| MeasurementSpelling.UndecidedMeansSpelling | claimci/measurement.py:1204-1221 | unless leaves collide, fully recovered arms are left undecided if and only if the records are the same, the mappings equal and some leaf, nested or not, spelled differently |
| MeasurementSpelling.VerifiedBesideMismatchExactly | claimci/measurement.py:1113-1221 | unless leaves collide, VERIFIED stands beside a reported mismatch if and only if the records are the same and the mappings differ but have the same leaves under the same joined keys |
| MeasurementSpelling.VerifiedExcludesMismatch | claimci/measurement.py:1113-1221 | without dots inside keys that is if and only if they differ only by mappings without leaves; where every mapping holds one, VERIFIED excludes the mismatch |
| SpellingInputs.SpellingIsUndecided | claimci/measurement.py:1204-1221 | two recovered arms that differ only in writing a version as n and as n with one zero more: no mismatch is reported, and every report on them is insufficient |
| SpellingInputs.CollisionIsUndecided | claimci/measurement.py:584-606 | two recovered arms of one and the same configuration, a dotted key beside a nested one, of which different values survived: no mismatch is reported, and every report on them is insufficient |
| SpellingInputs.EmptyMappingIsUnseen | claimci/measurement.py:578-606 | two recovered arms whose mappings differ by an empty mapping: every report on them is VERIFIED beside the mismatch |
| SpellingInputs.DottedKeyIsUnseen | claimci/measurement.py:584-606 | two recovered arms, one with a value under a dotted key, the other with it under a nested one: every report on them is VERIFIED beside the mismatch |
| AuditDrift.AuditReportsMismatches | claimci/audit.py:251-376 | an audit, of files or with streamed datasets, reports exactly the mismatch rules that the comparison consults |
| AuditDrift.AuditWithDrift | claimci/audit.py:219-399 | the audit with both protocols recovered: the report means what the arms are, and one that invalidates accompanies only NOT_SUPPORTED |
| AuditDrift.AuditStreamsWithDrift | claimci/audit.py:323-399 | the same from four streamed sources: the report speaks about the evaluation files whose scans are complete, and is VERIFIED only when both are |
| AuditDrift.DriftReportsAgree | claimci/audit.py:323-399 | where both readers see the same records, after complete scans of both evaluation files the streamed audit and the audit of the whole files draw up the same drift report |
| DigestCounts.SortedCounts | claimci/dataset_check.py:141-144 | the sorted counter lists every digest once with its multiplicity |
| DigestCounts.ListingUnique | claimci/dataset_check.py:141-144 | a multiset has one such listing |
| DigestCounts.TotalIsSize | claimci/analysis/streaming_dataset.py:59-63 | summing multiplicities counts the records |
| DigestCounts.JoinLeast | claimci/analysis/streaming_dataset.py:70-107 | the inner join lists the multiset intersection and its size |
| DigestCounts.JoinExcess | claimci/analysis/streaming_dataset.py:108-134 | the outer join lists the multiset difference and its size |
| DatasetIdentity.JoinedInjective | claimci/analysis/streaming_dataset.py:350-369 | the serialised text determines the rows |
| DatasetIdentity.StreamedIdentity | claimci/analysis/streaming_dataset.py:345-374 | the incremental byte stream equals the one-shot canonical serialisation of the sorted counts |
| DatasetIdentity.InMemoryIdentity | claimci/measurement.py:688-702 | the in-memory commitment is to that same serialisation |
| DatasetIdentity.IdentityDecides | claimci/dataset_check.py:370-395 | identities, however computed, are equal if and only if the record multisets are |
| DatasetSpills.DatasetSpill.constructor | claimci/analysis/streaming_dataset.py:250-306 | the empty table, unusable from the start exactly where the database refuses the schema or the schema alone is over budget |
| DatasetSpills.DatasetSpill.AddBatch | claimci/analysis/streaming_dataset.py:311-334 | a batch lands whole or not at all; a failed commit leaves nothing, a failed measurement leaves the batch stored but not reported; exhaustion is latched |
| DatasetSpills.DatasetSpill.DeleteSplit | claimci/analysis/streaming_dataset.py:336-338 | exactly one role is emptied, or nothing changes when the database refuses |
| DatasetSpills.DatasetSpill.Select | claimci/analysis/streaming_dataset.py:64-69 | the ordered query lists the role's multiset |
| DatasetSpills.DatasetSpill.Count | claimci/analysis/streaming_dataset.py:340-343 | the stored record count |
| DatasetSpills.DatasetSpill.OverlapFact | claimci/analysis/streaming_dataset.py:376-401 | overlap count, distinct count and preview equal the multiset intersection, its listing and the listing's head |
| DatasetSpills.DatasetSpill.AlignmentFact | claimci/analysis/streaming_dataset.py:403-437 | matching and one-sided counts equal intersection and differences; previews are heads of their listings |
| DatasetSpills.DatasetSpill.MultisetIdentity | claimci/analysis/streaming_dataset.py:345-374 | the identity of what is stored |
| DatasetScans.Flush | claimci/analysis/streaming_dataset.py:589-597 | pending digests are stored and counted, or the disk gave up and they may be stored uncounted |
| DatasetScans.ScanDataset | claimci/analysis/streaming_dataset.py:600-707 | for all batches, budgets, malformed records and disk failures: indexed <= stored <= scanned, what is stored is a prefix of the records, other splits are untouched, FAILED stores nothing, the final state and record count are those of the first interruption or of the spent disk, COMPLETE holds exactly for clean, verified input with a willing disk, and a willing disk is never exhausted |
| ScanEndings.FinalStateMeans | claimci/analysis/streaming_dataset.py:600-707 | on an undisturbed disk, said of the lines and limits alone: which state a scan ends in, COMPLETE and each kind of stop in both directions |
| ScanEndings.BudgetKeepsRecords | claimci/analysis/streaming_dataset.py:627-652 | where a line overruns a budget after acceptable lines the scan is INCOMPLETE_BUDGET and keeps exactly the records before it |
| ScanEndings.InspectedMeans | claimci/analysis/streaming_dataset.py:653-689 | what a scan keeps: nothing when it fails, else the records before the line that stops it, else all |
| DatasetChecks.CheckDatasetLeakage | claimci/dataset_check.py:87-138 | leakage is reported exactly when the multisets intersect, with both sizes, the number of shared records and their sorted digests |
| DatasetChecks.CheckEvaluationAlignment | claimci/dataset_check.py:147-195 | alignment is reported exactly when the evaluation multisets are equal, with the sizes of what they share and of both differences, and the differences in full |
| DatasetChecks.ScanAll | claimci/analysis/streaming_dataset.py:711-800 | after four scans into one spill every role satisfies its scan facts; nothing is scanned where the budget cannot hold the schema; verified sources and an undisturbed disk always get there |
| DatasetChecks.CheckStreaming | claimci/dataset_check.py:198-395 | the rules reported from the spill, with alignment decided by comparing commitments, and the exact counts and previews of the overlap and alignment facts |
| DatasetChecks.StreamingIsSound | claimci/dataset_check.py:228-395 | complete scans report exactly the in-memory rules; incomplete ones report only rules that hold of the whole files, and admit it |
| DatasetChecks.PreviewIsPrefix | claimci/analysis/streaming_dataset.py:83-94 | over the same records the streamed overlap fact is the in-memory summary with its digest list cut at the preview limit |
| DatasetChecks.AuditStreams | claimci/dataset_check.py:198-395 | the same end to end, from sources to findings, for every behaviour of the disk; undisturbed, the schema included, the rules are a function of the sources and the limits |
| DatasetChecks.UndisturbedRules | claimci/analysis/streaming_dataset.py:600-707 | with an undisturbed disk the rules are those of the records each pass inspects before its first interruption |
| ScanEndings.ReadLeakIsReported | claimci/dataset_check.py:228-300 | a record read in both files of an experiment is a reported leak, whatever ended the two scans short of a failure |
| ArtifactScans.ArtifactScan.ReadChunk | claimci/analysis/artifact_source.py:466-490 | a block is the next stretch of the source, both hashes commit to the prefix read, and the budget is exceeded only with an error |
| ArtifactScans.ArtifactScan.Drain | claimci/analysis/artifact_source.py:500-502 | draining ends for every source, endless ones included, at the end of file or one byte past the budget |
| ArtifactScans.ArtifactScan.Finish | claimci/analysis/artifact_source.py:534-577 | success means the whole committed content was read, is never repeated, and with reads that do not fail happens exactly under CanFinish |
| ArtifactScans.HistoryExtends | claimci/analysis/artifact_source.py:466-583 | one step keeps the history of a run |
| ArtifactScans.Run | claimci/analysis/artifact_source.py:466-583 | over every run: blocks are ordered stretches of the source; until a finish is cut off by a failing read the bytes handed out are an unbroken prefix of it, whatever else was refused or reported; bytes stay within the budget plus the number of limit errors; and nothing succeeds after a report |
| ArtifactScans.IgnoredLimitError | claimci/analysis/artifact_source.py:472-490 | a limit error that the caller ignores can be followed by a successful finish over the budget |
| ObjectGraphs.YamlWalk.Validate | claimci/parsing.py:69-119 | accepts a value exactly when what hangs below is a shallow tree of containers neither active nor completed, and adds what it reached |
| ObjectGraphs.ValidateYamlGraph | claimci/parsing.py:69-119 | on every heap, cyclic ones included: accepted if and only if every container has exactly one root path and no root path exceeds 256 edges |
| ObjectGraphs.JsonWalk.Walk | claimci/parsing.py:133-151 | accepts exactly when nothing below is too deep or active |
| ObjectGraphs.ValidateJsonGraph | claimci/parsing.py:122-153 | accepted if and only if no root path exceeds 256 edges; sharing is allowed |
| ObjectGraphs.TreeDown | claimci/parsing.py:92-117 | a container heads a tree if and only if its members head disjoint trees that do not lead back |
| ObjectGraphs.NoWayBack | claimci/parsing.py:137-151 | bounded depth alone excludes cycles |
| DottedKeys.SplitJoin | claimci/analysis/materialize.py:1007 | splitting undoes joining on segments without dots |
| DottedKeys.JoinSplit | claimci/analysis/materialize.py:1007 | joining undoes splitting on every key |
| ConfigTrees.ConfigTree.Insert | claimci/analysis/materialize.py:1006-1030 | in-place insertion succeeds if and only if the segments are valid, the path is free and only null lies on the way; then exactly that changes |
| ConfigTrees.LookupReads | claimci/config_check.py:51-59 | a lookup in the nested mapping finds exactly the leaves and dictionaries of the store |
| ConfigPayloads.BuildTree | claimci/analysis/materialize.py:1033-1045 | a list is inserted if and only if no later key repeats, shortens or, over a value, lengthens an earlier one |
| ConfigPayloads.ConfigPayload | claimci/analysis/materialize.py:1033-1045 | the payload holds each surviving value at its split key, mappings above, and nothing else |
| ConfigPayloads.CompatibleIsPrefixFree | claimci/analysis/materialize.py:1006-1045 | distinct, prefix-free keys with valid segments are accepted and all kept; without nulls nothing else is accepted |
| ConfigPayloads.ReadsBack | claimci/config_check.py:51-59 | under prefix-free keys lookup on the split key returns each inserted value, null included |
| ConfigPayloads.OrderDoesNotMatter | claimci/analysis/materialize.py:1033-1045 | under prefix-free keys every order of insertion gives the same tree |
| ConfigPayloads.EveryOrderIsAccepted | claimci/analysis/materialize.py:1006-1045 | a list is accepted in every order if and only if its keys are prefix-free, whatever the values |
| ConfigPayloads.NullIsOverwritten | claimci/analysis/materialize.py:1012-1016 | a null is overwritten by a later longer key, and the reverse order is refused |
| EvaluationFlattening.Flatten | claimci/measurement.py:584-606 | the work-stack loop ends; it accepts if and only if at most 256 values are all within depth, key and scalar bounds, and then covers exactly the leaves |
| EvaluationFlattening.FlattenEvaluation | claimci/measurement.py:578-606 | the same from a configuration that may lack an evaluation mapping |
| EvaluationFlattening.ScalarMeans | claimci/measurement.py:137-198 | scalars are booleans, finite numbers and texts of one to 4096 characters without control characters |
| EvaluationFlattening.KeepsExactly | claimci/measurement.py:600-606 | every leaf's value survives if and only if no two leaves with different values share a joined key |
| EvaluationFlattening.DottedKeyCollides | claimci/measurement.py:586-600 | a dotted key beside a nested one loses a value |
| EvaluationFlattening.InsertedThenFlattened | claimci/measurement.py:578-606 | flattening an inserted configuration gives back exactly the inserted evaluation entries |
| TableNumbers.TextRoundTrip | claimci/analysis/contracts.py:911-918 | `str` of any decimal is in the cell grammar and reads back as that very decimal, plain or scientific |
| TableNumbers.CanonicalReads | claimci/analysis/contracts.py:272-284 | reading a predicate's canonical text gives its normalised number back |
| TableNumbers.NormalUnique | claimci/analysis/contracts.py:272-284 | canonical numbers of the same value are the same |
| NumberGrammar.NumbersAreWritten | claimci/analysis/contracts.py:911-918 | a text is a number exactly when it is an optional sign, an integer without leading zeros, an optional fraction and an optional exponent, and then it denotes what these parts say |
| NumberGrammar.FitsMeans | claimci/analysis/adapters/tabular.py:246-270 | which cells each predicate accepts: the very text, true or false as it says, a number of the same value however it is written, or null |
| TableSelectors.MayMatchIsExact | claimci/analysis/contracts.py:921-970 | the typed overlap decision holds if and only if some cell satisfies both predicates, cross-type cases included |
| TableSelectors.CanonicalKeepsValue | claimci/analysis/contracts.py:272-284 | within 28 digits number predicates are canonically equal exactly when their numbers are |
| TableSelectors.RowDisjointIsExact | claimci/analysis/contracts.py:973-988 | two selectors are declared disjoint if and only if no row satisfies both |
| TableSelectors.CsvDisjoint | claimci/analysis/adapters/tabular.py:246-270 | on tables without nulls no row satisfies both if and only if they are declared disjoint or one uses null |
| TableBindings.ValidateBindings | claimci/analysis/contracts.py:841-908 | bindings are accepted if and only if keys are distinct and, on each path shared by both arms, identities are present and distinct and no row gives both arms one cell |
| TableBindings.OverlapIsSharedCell | claimci/analysis/contracts.py:890-900 | overlap decided from predicates is a shared physical cell |
| TableBindings.ArmsNeverShareCell | claimci/analysis/contracts.py:900-908 | in accepted bindings a baseline and a candidate selector never pick the same cell of any row |
| BindingIdentities.IdentifiedMeans | claimci/analysis/contracts.py:865-905 | arms on a shared path are told apart if and only if each maps some table and no two of them map the same tables |
| BindingIdentities.SameIdentity | claimci/analysis/contracts.py:416-432 | two mappings have one identity exactly when they map the same target to the same column of equally many rows chosen by the same predicates, in any order |
| BindingIdentities.OneArmPerPath | claimci/analysis/contracts.py:857-864 | only paths that both arms use are restricted: where each path serves one of them, distinct keys suffice |
| MetricBindings.ProposalsAre | claimci/analysis/metric_identity.py:638-664 | exactly the pairs of a recognised baseline and a recognised candidate are proposed |
| MetricBindings.BoundOnlyBy | claimci/analysis/metric_identity.py:601-712 | a resolution binds only the unique exact-name pair when nothing was approved, or the approved binding itself while its pair is on offer at its own place |
| MetricBindings.ApprovedIsHonoured | claimci/analysis/metric_identity.py:580-598 | an approval is honoured if and only if its pair is still on offer at the same repository, head and metric, among at most eight |
| MetricBindings.ApproveThenResolve | claimci/analysis/metric_identity.py:715-741 | approving any proposal of an issued question and resolving again over the candidates in any order binds that very pair |
| MetricBindings.NeverAtAnotherHead | claimci/analysis/metric_identity.py:588-593 | at any other head an approval never binds, whatever is found there |
| MetricBindings.RunIsJustified | claimci/analysis/metric_identity.py:601-741 | over every run of moves, questions and answers, whichever earlier approval is supplied to a resolution, each bound pair is the unique exact pair or was approved for a question asked at this very repository, head and metric |
| MetricNames.FoldMeans | claimci/analysis/metric_identity.py:271 | folding drops nothing but the difference between capital and small letters |
| MetricNames.IdentifiedByName | claimci/analysis/metric_identity.py:271-278 | a metric is recognised exactly by the canonical name or the fixed abbreviation, and only the former is exact |
| MetricNames.BoundWithoutApproval | claimci/analysis/metric_identity.py:626-695 | without an approval a binding comes out if and only if each arm has exactly one known metric and both raw names are the canonical one up to capitals; it binds these two |
| MetricNames.OthersNeedApproval | claimci/analysis/metric_identity.py:650-712 | every other offer of one to eight pairs with distinct identifiers is put to a person, and nothing else is |
| MetricNames.AliasNeedsApproval | claimci/analysis/metric_identity.py:271-278 | the abbreviation on either side of an accuracy claim is never bound without approval |
| MetricNames.StandsAtLastMove | claimci/analysis/metric_identity.py:601-712 | over every run, a question or binding is about the place and the metrics of the last move |

## Left out

- Opening files, symbolic links, `lstat`/`fstat` identity, scratch-tree clean-up: operating system; the stability check of a finished scan is a parameter.
- SQLite, PyYAML, `json` and `hashlib` internals: the table is a map, dump and load are the identity, SHA-256 is injective; 64-bit sums are not modelled.
- `statistics.fmean`, `stdev` and the conversion of decimals to doubles: parameters of the result check.
- UTF-8 decoding and JSON parsing of dataset records: parameters that take a line for blank, for a record digest or for unacceptable; a line that one reader takes for blank by Unicode rules and the other refuses counts as refused by the latter. Decoding is taken to leave line feeds and carriage returns where they are.
- Exponent limits of decimal contexts (overflow, underflow, subnormal results) and the cases in which float division of run counts above 2^53 rounds to 3.0.
- Non-string configuration keys, non-finite floats and equality of integers and floats beyond 2^53 bits of precision: configurations hold strings, booleans and decimals.
- Python's full Unicode `casefold` and `strip`: metric names are folded in ASCII, approvers may not begin or end with a space.
- DatasetScans.ScanDataset: does not model an operating-system error while the scratch file is measured or deleted from, because the source then abandons the whole context.
- StreamedAudit.AuditStreamed: promises what it promises where both readers of each file see the same records (`SameFile`), because a record that a carriage return cuts makes the claim false (`DatasetFiles.CutRecordSupports`); the same holds of StreamedAudit.StreamedLeakLoads, StreamedAudit.InvalidationStands, StreamedAudit.CompleteScansAgree and AuditDrift.DriftReportsAgree.
- ResultCheck.CheckResults: does not model the standard deviations of the summaries, display values of the float statistics.
- Signed zero: decimals have one zero, so 0.0 and -0.0, which are serialised differently and give different component identities (claimci/measurement.py:201-208), are the same here.
- Benchmark protocols (`_recover_benchmark_protocol`) and components known only by their bytes: the recovery modelled here never produces the latter.
- `unique_json_object` and YAML merge keys: duplicate-key rejection settled by reading one loop.
- Regular-expression claim recovery, profiles, benchmark audit, rendering, command line, payloads and review providers.
- Length, type and canonical-identifier guards of constructors that only reject malformed values.
- Titles, explanations and evidence dictionaries of findings, apart from the fields at fault, the compute basis and ratio, the listed seeds and the hash previews.
