# lotus-advise governance engines: a verified model

This project models the algorithms by which lotus-advise governs itself: the scripts that collect dependency, license and
complexity evidence and check it later, the OpenAPI enrichment and the gates behind it, the decimal precision policy, and
the evaluators of write authorisation and compliance rules. Most of them come in pairs: a writer and its check, a pass and
the same pass run again, two readers of one format. The theorems say when the two agree, on all inputs.

Code that updates state in the original is imperative here: `GraphWalk` (the recursive walk over `visited` and
`membership`), `ComponentStore` (the component schemas rewritten in place), `OperationNode`, `RequirementReader`,
`Collector`, `SnapshotPatch` and `Catalog` are classes whose methods are proved against specification functions, and the
loops that accumulate are methods with invariants, proved against the same. Expression code is functions and lemmas.

| Module | Models |
|---|---|
| `DependencyGraph` | which packages belong to which release graph |
| `LicenseInventory`, `LicenseFreshness` | license records, their validation, summary and staleness |
| `RequirementFiles`, `PackageNames` | the three readers of requirement files, canonical names |
| `LockRecords`, `DependencyLock`, `TomlReader` | the lock's package records, its TOML text read back, its check |
| `SchemaExamples` | example inference and repair |
| `RepairTermination`, `InferenceCycles`, `ReferenceCycles` | when inference and repair come to an end |
| `RepairOutcome`, `RepairDefaults` | what repaired examples are like |
| `AnnotationIndependence`, `SchemaEnrichment`, `EnrichmentSettles` | the in-place component pass and its fixed points |
| `OperationDocumentation`, `ParameterDocumentation` | operation enrichment against the quality gate |
| `ApiFields`, `ExtractionTermination` | field extraction, the inventory, and when extraction comes to an end |
| `ApiVocabulary`, `EndpointRecords` | the attribute catalog, the references to it, and their checks |
| `PrecisionPolicy` | half-even quantisation and input scales |
| `BanditGate`, `TrustFreshness`, `RadonInventory` | regression gate, freshness states, complexity inventories |
| `EnterpriseReadiness`, `ComplianceRules` | redaction, capability paths, authorisation, the rule engine |

`Common`, `Json` and `Text` hold shared values: options, JSON, Python string operations. `Descent` is about recursion over a
finite graph.

## What the proofs found

Some expected laws do not hold for every input. Each is proved with its exact condition and a failing input.

- **The dependency walk can lose packages.** It remembers names only, so a package first asked for without an extra is not
  visited again with it. For a set of markers, every graph is walked exactly if and only if every marker in the set gives
  the same value for every extra (`ExactIffMarkersIgnoreExtras`). One given graph is walked exactly unless a reachable
  package is asked for with extras under which a requirement applies that did not when it was first visited, and the walk
  meets what that asks for nowhere else (`WalkExactIff`). The walk is always sound.
- **Repair can recurse forever where inference does not** (`HiddenNeverReturns`): when the first alternative of a required
  property is a constant of type null, what repair adds lacks the property again. Repair of an example returns exactly when
  inference supplies what is missing or wrong in it, and no endless chain of additions starts with a property it lacks
  (`RepairableIff`); repair returns for every example exactly when this holds wherever repair may descend to (`TotalIff`). A
  chain ends exactly when none of the properties it adds comes back (`ChainEndsIffNoCycle`), and inference ends exactly when
  no schema it visits comes back (`InferableIffNoCycle`). A reference cycle through an optional property does no harm to
  either (`TreesReturn`).
- **Field extraction never ends on a component that refers to itself through a property** (`SelfReferenceNeverEnds`). It
  ends exactly when no schema that it follows comes back (`ExtractableIffNoCycle`), so on every acyclic document
  (`AcyclicExtractable`).
- **Example repair is not always idempotent.** It is, on the examples it returns for, exactly when each inferred example
  that repair may put somewhere is one that repair leaves unchanged, which a recursion over that example decides
  (`IdempotentIffReady`, `UnchangedIff`). An array of strings whose only `enum` value is an array of integers is a schema
  where it is not.
- **Repair does not always remove a breach.** It does for every example exactly where those inferred examples conform
  (`MeetsIffReady`). For a plain integer with a maximum that fails when the maximum is below the minimum, which is 1 by
  default, or negative and fractional, or between 10 and 24 under a name about hours (`PlainScalarReadyIff`,
  `IntegerExampleFitsIff`; `ZeroMaximumBreaks`, `FractionalMaximumBreaks`, `HoursMaximumBreaks`).
- **One enrichment pass is not always a fixed point** (`OnePassIsNotEnough`): for "null or an integer" inference follows the
  first alternative and repair the first that is not null. It is for a document exactly when each example the pass writes is
  one that repair leaves unchanged (`OnePassIff`), and for all documents of a shape exactly when repair always ends, the
  schemas are ready and repair keeps their inferred examples (`AllSettleIff`); for those with every example given, the first
  two decide (`AnnotatedSettleIff`).
- **Enrichment masks two kinds of gap**: an empty `responses` dictionary, and missing texts on infrastructure paths
  (`GateUnchangedIff`, `EmptyResponsesMasked`, `InfrastructureTextMasked`).
- **The lock file does not always read back.** It does exactly when no string leaves the basic multilingual plane or holds a
  lone surrogate, which a JSON inventory may contain, and neither the list of requirement files nor the list of packages is
  empty (`RoundTripIff`, `VersionNotReadBack`, `NoPackagesNotReadBack`). DEL is safe, as it is escaped.
- **A freshly built license inventory can be called stale**, exactly for an exception whose `exception_id`,
  `exception_owner` or `exception_expires_on` key contradicts its `id`, `owner` or `expires_on`
  (`BuiltRecordFailures`, `TwoIdsStale`).
- **`normalize_input` rejects some grid values**: those with trailing zeros beyond the scale
  (`RejectedInputOnGridIff`, `PaddedPoundRejected`).
- **Patching a snapshot without an observation time** moves the time it is judged by. The second patch still agrees
  exactly when no whole second of age was seen, or a future time and no maximum
  (`UnobservedPatchIdempotentIff`, `UnobservedTurnsCurrent`).
- **A built vocabulary can fail its own identity checks**, exactly when some canonical term is not in snake case
  (`BuiltCatalogPassesIff`, `DigitIsNotSnakeCase`).
- **The requirement readers part ways** on include lines with a comment and on lines `packaging` rejects
  (`LineAgreesIff`, `CommentedIncludeDiffers`, `RejectedLineDiffers`): the license reader cuts comments first and skips
  rejected lines, the health reader does neither.

## Model

| member | source | states |
|---|---|---|
| `DependencyGraph.GraphWalk.Walk` | scripts/license_ip_evidence.py:299-330 | The recursive walk terminates on every graph, cyclic ones included, and adds the group to exactly the names it newly visits |
| `DependencyGraph.GraphWalk.Membership` | scripts/license_ip_evidence.py:281-296 | With a fresh visited set for each root, the map ends up with exactly the tags the single walks give and with no untagged name |
| `DependencyGraph.VisitHasPath` | scripts/license_ip_evidence.py:299-338 | Every name a walk adds has a path from where it started, each hop applicable under the extras the previous hop asked for |
| `DependencyGraph.VisitCloses` | scripts/license_ip_evidence.py:299-330 | Where extras make no difference, a finished walk has visited everything its visited names lead to, even when it started among visited names |
| `DependencyGraph.PathStaysInside` | scripts/license_ip_evidence.py:299-330 | No path leaves a closed set of names |
| `DependencyGraph.WalkSound` | scripts/license_ip_evidence.py:299-338 | On every graph and with any markers, only reachable names are visited |
| `DependencyGraph.UniformWalkExact` | scripts/license_ip_evidence.py:299-338 | When the same requirements of a package apply however it is asked for, the walk visits exactly the reachable names |
| `DependencyGraph.BlindIsUniform` | scripts/license_ip_evidence.py:333-338 | Markers that ignore their extra make every graph of that kind |
| `DependencyGraph.ExactIffMarkersIgnoreExtras` | scripts/license_ip_evidence.py:299-338 | For any set of markers: every graph built from them is walked exactly if and only if each of them ignores its extra |
| `DependencyGraph.WalkExactIff` | scripts/license_ip_evidence.py:299-338 | Exactly when one given graph is walked exactly, from the extras each name is first visited with |
| `DependencyGraph.LosingWalk` | scripts/license_ip_evidence.py:308-322 | The graph on which a package is lost: what the walk visits there |
| `DependencyGraph.LosingPath` | scripts/license_ip_evidence.py:308-338 | In that graph the lost package is reachable |
| `DependencyGraph.MembershipIsReachability` | scripts/license_ip_evidence.py:281-296 | A package carries a group's tag exactly when some root of that group reaches it |
| `DependencyGraph.EveryTagHasPath` | scripts/license_ip_evidence.py:281-296 | With any markers, each tag has a witness root and path |
| `DependencyGraph.MembershipIgnoresRootOrder` | scripts/license_ip_evidence.py:281-296 | Permuting or repeating roots never changes the map |
| `PackageNames.CanonicalIsCanonical` | scripts/dependency_health_check.py:56-57 | A normalised name is lower case and has single dashes only |
| `PackageNames.CanonicalIdempotent` | scripts/dependency_health_check.py:56-57 | Normalising twice is normalising once |
| `LicenseInventory.MergeRoots` | scripts/license_ip_evidence.py:263-267 | Of several roots of one name the first stands, and no name is lost |
| `LicenseInventory.BuildRecords` | scripts/license_ip_evidence.py:341-383 | One record for each name of the membership map, in ascending order of names; it raises exactly when some exception's date does not parse |
| `LicenseInventory.Validate` | scripts/license_ip_evidence.py:129-174 | The failures, in order, of identity, emptiness and each package |
| `LicenseInventory.ClassRederived` | scripts/license_ip_evidence.py:421-461 | From the stored record alone the validator finds the class and the exception the record was built with |
| `LicenseInventory.BuiltRecordFailures` | scripts/license_ip_evidence.py:144-174 | What the validator says of a built record: never a wrong class, a stale exception exactly when the exception contradicts itself, a pin mismatch exactly when the metadata differs from the pin |
| `LicenseInventory.BuiltRecordCleanIff` | scripts/license_ip_evidence.py:129-174 | A built record passes exactly when it is installed at its pin under a permitted term or an unexpired, consistent exception |
| `LicenseInventory.NeverWrongClass` | scripts/license_ip_evidence.py:159-164 | Building and checking under one policy on one day never disagree on any class |
| `LicenseInventory.BuiltInventoryPassesIff` | scripts/license_ip_evidence.py:129-174 | Exactly when an inventory passes that was built under the same policy on the same day |
| `LicenseInventory.Summarize` | scripts/license_ip_evidence.py:536-550 | The counts: direct and transitive add up to all, and a class is listed exactly when some record has it, with its count |
| `LicenseInventory.ClassesAddUp` | scripts/license_ip_evidence.py:421-439 | The four classes partition the records |
| `LicenseInventory.DirectAreRoots` | scripts/license_ip_evidence.py:349-371 | There are as many direct records as root names among the packages |
| `LicenseInventory.BuildInventory` | scripts/license_ip_evidence.py:78-93 | From the roots of both files: one record for each package the walk reaches, in ascending order, direct exactly for the roots, with classes that add up |
| `LicenseInventory.TwoIdsStale` | scripts/license_ip_evidence.py:485-493 | An exception with two ids whose freshly built record the validator calls stale |
| `LicenseFreshness.SortByNameSorts` | scripts/license_ip_evidence.py:571-574 | Sorting by name orders the records and keeps those of one name in the order they came |
| `LicenseFreshness.FreshnessMap` | scripts/license_ip_evidence.py:600-622 | The map holds the facts of the last transitive record of every name, and nothing else |
| `LicenseFreshness.StalenessFailures` | scripts/license_ip_evidence.py:177-205 | Silent exactly on a fresh inventory; the missing and stale names reported are exactly those |
| `LicenseFreshness.FreshIff` | scripts/license_ip_evidence.py:553-622 | For any stored list, names repeated or not: fresh means the same header, the same direct records of each name in their order, and the same facts in the last transitive record of each expected name |
| `LicenseFreshness.FreshIffDistinct` | scripts/license_ip_evidence.py:553-622 | For lists that name no package twice: the same direct records in any order, and every expected transitive package with the same facts |
| `LicenseFreshness.ExtraTransitiveTolerated` | scripts/license_ip_evidence.py:578-597 | A transitive package the expectation does not know never makes an inventory stale |
| `RequirementFiles.RequirementReader.Parse` | scripts/license_ip_evidence.py:216-260 | The recursive reader over one shared visited set, with any of the three line rules; it terminates on every include graph |
| `RequirementFiles.EachFileOnce` | scripts/dependency_lock_evidence.py:100-142 | Each file is opened once, and the names returned are, with multiplicities, those on the lines of the opened files |
| `RequirementFiles.OpenedAreReachable` | scripts/dependency_lock_evidence.py:100-142 | A reader that finishes has opened exactly the files reachable over includes, cycles or not |
| `RequirementFiles.StripAndCut` | scripts/license_ip_evidence.py:228-230 | How stripping a line and cutting its comment interact, in either order |
| `RequirementFiles.LineAgreesIff` | scripts/dependency_health_check.py:60-91 | Exactly when the license reader and the health reader take a line to mean the same |
| `RequirementFiles.CommentedIncludeDiffers` | scripts/dependency_health_check.py:70-91 | An include line with a comment, which the two readers take to name different files |
| `RequirementFiles.RejectedLineDiffers` | scripts/dependency_health_check.py:60-67 | A line `packaging` rejects, from which only the health reader takes a name |
| `RequirementFiles.PlainLinesAgree` | scripts/dependency_lock_evidence.py:100-151 | On plain lines all three readers take the same meaning |
| `RequirementFiles.SameRulesSameReading` | scripts/dependency_health_check.py:70-91 | Rules that agree on all lines read the same from every start |
| `RequirementFiles.ReadersAgree` | scripts/dependency_health_check.py:70-91 | On files of plain lines the three readers open the same files and return the same names in the same order |
| `LockRecords.MakeRecord` | scripts/dependency_lock_evidence.py:170-182 | A package's record holds, in sorted lists, exactly what its direct requirements say; it raises exactly on two pins where the inventory has no version |
| `LockRecords.PackageRecords` | scripts/dependency_lock_evidence.py:154-189 | The first error if there is one; otherwise one record for each inventory name, from its last package, in ascending order |
| `LockRecords.RaisesIff` | scripts/dependency_lock_evidence.py:154-200 | It raises exactly on a package without a version whose requirements are pinned twice, or a requirement no package meets |
| `LockRecords.SortRecords` | scripts/dependency_lock_evidence.py:189 | The records in strictly ascending order of names, none lost and none invented |
| `LockRecords.DirectRequirementRecorded` | scripts/dependency_lock_evidence.py:160-189 | Each direct requirement has exactly one record, marked direct, with its group, file, hash and extras |
| `LockRecords.DirectCount` | scripts/dependency_lock_evidence.py:70-77 | The summary's direct count is the number of distinct names required directly |
| `DependencyLock.RenderToml` | scripts/dependency_lock_evidence.py:247-292 | The lines appended section by section are the text the lemmas speak of |
| `DependencyLock.ReadQuoted` | scripts/dependency_lock_evidence.py:295-296 | A quoted string, of any code points, reads back as itself exactly when all are scalar values of the basic plane; otherwise reading fails |
| `DependencyLock.ReadPrinted` | scripts/dependency_lock_evidence.py:247-300 | What a TOML reader makes of the printed text, for every payload |
| `DependencyLock.RoundTripIff` | scripts/dependency_lock_evidence.py:247-300 | Exactly when the text reads back as the payload |
| `DependencyLock.NoPackagesNotReadBack` | scripts/dependency_lock_evidence.py:247-300 | A payload that does not read back |
| `DependencyLock.VersionNotReadBack` | scripts/dependency_lock_evidence.py:295-296 | A payload with a version beyond the basic plane, and one with a lone surrogate, which do not load |
| `DependencyLock.Validate` | scripts/dependency_lock_evidence.py:81-93 | The failures in the order they are appended, over dictionaries filled package by package |
| `DependencyLock.WrittenLockFailures` | scripts/dependency_lock_evidence.py:203-228 | Of a lock just written the check never reports a missing, extra or changed package, and staleness exactly when a list was empty |
| `DependencyLock.WrittenLockPassesIff` | scripts/dependency_lock_evidence.py:81-97 | Exactly when the check passes a lock file just written |
| `SchemaExamples.AddMissingRequiredExamples` | src/api/openapi_enrichment.py:458-474 | The loop adds exactly the required keys that are absent and declared, at the end |
| `SchemaExamples.RepairExistingPropertyExamples` | src/api/openapi_enrichment.py:477-490 | The loop rewrites each value under its key and keeps keys and order |
| `SchemaExamples.RepairObjectExample` | src/api/openapi_enrichment.py:446-455 | The two loops over a copied example compute the repair of the object |
| `SchemaExamples.ContinuesShallower` | src/api/openapi_enrichment.py:508-576 | Each schema inference goes on with needs fewer nested calls: only what inference visits counts, a reference cycle elsewhere does no harm |
| `SchemaExamples.VisitsShallower` | src/api/openapi_enrichment.py:369-505 | Each value repair descends to or adds needs fewer nested calls |
| `RepairTermination.RepairableIff` | src/api/openapi_enrichment.py:369-505 | Exactly when repair of one example returns, by recursion on the example and without mentioning repair |
| `RepairTermination.FillsIff` | src/api/openapi_enrichment.py:369-474 | A recursion over required properties decides whether repair returns for any example under a schema |
| `RepairTermination.AddMissingComplete` | src/api/openapi_enrichment.py:458-474 | After adding, no required and declared key is missing |
| `InferenceCycles.InferableIffNoCycle` | src/api/openapi_enrichment.py:508-576 | Inference from a schema comes to an end exactly when none of the schemas it visits comes back |
| `InferenceCycles.ChainEndsIffNoCycle` | src/api/openapi_enrichment.py:458-490 | The additions that one added property leads to come to an end exactly when no property comes back among them and inference supplies each |
| `ReferenceCycles.TotalIff` | src/api/openapi_enrichment.py:369-505 | Exactly when repair returns for every example: wherever it may descend to, inference returns for what it replaces and no endless chain of additions starts with a required property |
| `ReferenceCycles.AcyclicReturns` | src/api/openapi_enrichment.py:286-541 | Without reference cycles both return for every schema and example |
| `ReferenceCycles.TreesNotAcyclic` | src/api/openapi_enrichment.py:99-106 | A model that refers to itself through an optional property has a reference cycle |
| `ReferenceCycles.TreesReturn` | src/api/openapi_enrichment.py:99-106 | On that model both nevertheless return for every example |
| `ReferenceCycles.HiddenNeverReturns` | src/api/openapi_enrichment.py:145-156 | A document on which inference always returns, and an endless chain of additions keeps repair of the empty object from returning |
| `RepairOutcome.UnchangedIff` | src/api/openapi_enrichment.py:369-505 | A condition by recursion on the example, which mentions no repair, holds exactly where repair returns and leaves the example as it is |
| `RepairOutcome.ReadyMeets` | src/api/openapi_enrichment.py:369-505 | On a schema that is ready for a demand every repaired example meets it, through references, composites, arrays, properties and additional properties |
| `RepairOutcome.UnreadyFails` | src/api/openapi_enrichment.py:332-384 | On any other schema repair of some example returns and fails the demand |
| `RepairOutcome.MeetsIffReady` | src/api/openapi_enrichment.py:369-505 | For every schema: each example repair returns for comes out as demanded, unchanged by a further repair or conforming to the rules, exactly when the schema is ready |
| `RepairOutcome.IdempotentIffReady` | src/api/openapi_enrichment.py:369-505 | For every schema: repair is idempotent exactly when, wherever it may put an inferred example, that example is one repair leaves unchanged |
| `RepairOutcome.ReadyIsStable` | src/api/openapi_enrichment.py:369-505 | On a ready schema repair is idempotent wherever it returns |
| `RepairOutcome.ConformingFixedPoints` | src/api/openapi_enrichment.py:369-505 | Where every example comes out conforming, the fixed points of repair are exactly the conforming examples |
| `RepairDefaults.ScalarDefaultUnchanged` | src/api/openapi_enrichment.py:332-359 | Repair leaves a scalar default as it is, under every name |
| `RepairDefaults.WellDeclaredIsReady` | src/api/openapi_enrichment.py:332-366 | Where scalars are declared with scalar `const` and `enum` values, repair is idempotent |
| `RepairDefaults.MistypedEnumRepairsTwice` | src/api/openapi_enrichment.py:332-349 | A schema and an example that two repairs change twice |
| `RepairDefaults.IntegerExampleFitsIff` | src/api/openapi_enrichment.py:189-213 | Exactly when the inferred integer respects the declared maximum |
| `RepairDefaults.PlainScalarReadyIff` | src/api/openapi_enrichment.py:332-366 | A plain scalar schema makes every example conform exactly when it is no integer with a maximum its own example exceeds |
| `RepairDefaults.ZeroMaximumBreaks` | src/api/openapi_enrichment.py:198-205 | An integer schema whose repaired examples break its maximum |
| `RepairDefaults.FractionalMaximumBreaks` | src/api/openapi_enrichment.py:198-205 | A negative fractional maximum that its truncation exceeds |
| `RepairDefaults.HoursMaximumBreaks` | src/api/openapi_enrichment.py:208-213 | A maximum of 12 hours that the inferred 24 exceeds |
| `RepairDefaults.PropertyExamplesAre` | src/api/openapi_enrichment.py:86-119 | The inferred object holds exactly the selected and declared names, each once, with its own inferred value |
| `RepairDefaults.ModelExampleConforms` | src/api/openapi_enrichment.py:86-129 | The example inferred for a model conforms when those of its selected properties do |
| `AnnotationIndependence.InferBare` | src/api/openapi_enrichment.py:508-618 | Inference reads no description and no example at any depth |
| `AnnotationIndependence.RepairBare` | src/api/openapi_enrichment.py:369-505 | Repair reads no description and no example at any depth |
| `AnnotationIndependence.ShapeDecides` | src/api/openapi_enrichment.py:369-521 | Documents that differ in annotations only give the same inferred and repaired examples |
| `SchemaEnrichment.ComponentStore.EnsurePropertyDescription` | src/api/openapi_enrichment.py:856-862 | One property's description is filled, and the rest of the document unchanged |
| `SchemaEnrichment.ComponentStore.EnsurePropertyExample` | src/api/openapi_enrichment.py:865-878 | One property's example is inferred or repaired from the current document, and the rest unchanged |
| `SchemaEnrichment.ComponentStore.EnsureProperty` | src/api/openapi_enrichment.py:840-842 | Both writes together give what the document before either of them says |
| `SchemaEnrichment.ComponentStore.EnsureModelExample` | src/api/openapi_enrichment.py:821-832 | One model's own example is repaired, and the rest unchanged |
| `SchemaEnrichment.ComponentStore.EnsureModel` | src/api/openapi_enrichment.py:835-842 | One model is enriched as the document before the step says, although its properties are rewritten one by one |
| `SchemaEnrichment.ComponentStore.EnsureSchemaDocumentation` | src/api/openapi_enrichment.py:798-802 | In whatever order models are visited, the in-place pass computes the result in which every value comes from the original document |
| `SchemaEnrichment.FixedIff` | src/api/openapi_enrichment.py:798-878 | Exactly the documents on which the pass returns and changes nothing: every property described, and every example one that repair leaves unchanged |
| `SchemaEnrichment.OnePassIff` | src/api/openapi_enrichment.py:798-878 | Exactly when one pass is enough: each example it writes, inferred where there was none, is one that repair leaves unchanged |
| `SchemaEnrichment.NoFieldGapsAfterEnrichment` | scripts/openapi_quality_gate.py:142-156 | After one pass the gate finds no property without description or example |
| `EnrichmentSettles.FixedAfterTwoPasses` | src/api/openapi_enrichment.py:798-878 | On a document of ready schemas the third pass equals the second |
| `EnrichmentSettles.AnnotatedSettleIff` | src/api/openapi_enrichment.py:798-878 | One pass is enough for every fully annotated document of a shape exactly when repair always ends under its schemas and they are ready |
| `EnrichmentSettles.AllSettleIff` | src/api/openapi_enrichment.py:798-878 | One pass is enough for every document of a shape exactly when repair always ends under its schemas, they are ready, and repair leaves every inferred example unchanged |
| `EnrichmentSettles.TreesEndDocument` | src/api/openapi_enrichment.py:798-878 | On the recursive tree model repair always ends |
| `EnrichmentSettles.OnePassIsNotEnough` | src/api/openapi_enrichment.py:145-156 | A document whose second pass differs from its first |
| `EnrichmentSettles.TwoPassesConform` | src/api/openapi_enrichment.py:798-878 | After two passes every property whose schema makes examples conform has a conforming example, whatever stood there before |
| `EnrichmentSettles.WellDeclaredDocumentReady` | src/api/openapi_enrichment.py:332-366 | Well declared documents are ready |
| `OperationDocumentation.AddedErrorIsNotAuthored` | scripts/openapi_quality_gate.py:24-39 | The generated error response never counts as an authored one |
| `ParameterDocumentation.ParameterIdempotent` | src/api/openapi_enrichment.py:767-795 | Bounding and describing the idempotency header twice is doing it once, whatever schema and description it came with |
| `OperationDocumentation.OperationNode.EnsureDocumentation` | src/api/openapi_enrichment.py:704-795 | The in-place writes give summary, description, tags, responses and parameters |
| `OperationDocumentation.OperationNode.EnsureParameters` | src/api/openapi_enrichment.py:767-795 | The loop rewrites exactly the idempotency headers |
| `OperationDocumentation.EnsuredIdempotent` | src/api/openapi_enrichment.py:704-795 | Documenting an operation twice is documenting it once |
| `OperationDocumentation.CollectMissing` | scripts/openapi_quality_gate.py:163-179 | Every gap of every operation in document order, and the operation ids |
| `OperationDocumentation.DuplicateIds` | scripts/openapi_quality_gate.py:159-160 | The ids that occur more than once, each once and in ascending order |
| `OperationDocumentation.EmptyResponsesMasked` | scripts/openapi_quality_gate.py:73-75 | An operation whose missing responses the gate no longer reports after enrichment |
| `OperationDocumentation.InfrastructureTextMasked` | scripts/openapi_quality_gate.py:84-121 | An operation of an infrastructure path whose missing summary the gate no longer reports after enrichment |
| `OperationDocumentation.GateUnchangedIff` | scripts/openapi_quality_gate.py:58-121 | Exactly when the gate says the same of an operation before and after enrichment |
| `OperationDocumentation.ReportUnchanged` | scripts/openapi_quality_gate.py:163-179 | Outside two exceptions the whole report on operations is the same before and after, duplicate ids included |
| `ApiFields.ExtractFields` | scripts/api_vocabulary_inventory.py:278-373 | Extraction yields exactly one field for each property path through objects, arrays and references, under its dotted name |
| `ApiFields.ExtractableIff` | scripts/api_vocabulary_inventory.py:278-304 | Extraction comes to an end exactly when the property paths are of bounded length |
| `ExtractionTermination.ExtractableIffNoCycle` | scripts/api_vocabulary_inventory.py:278-373 | Extraction comes to an end exactly when no schema that it follows comes back |
| `ExtractionTermination.AcyclicExtractable` | scripts/api_vocabulary_inventory.py:278-373 | Where components do not refer to each other in a cycle, extraction ends for every schema |
| `ExtractionTermination.AcyclicBodyReturns` | scripts/api_vocabulary_inventory.py:376-453 | So the inventory of an acyclic document is always built |
| `ExtractionTermination.SelfReferenceNeverEnds` | scripts/api_vocabulary_inventory.py:278-304 | A component that refers to itself through a property, on which extraction never ends |
| `ApiFields.BuildInventory` | scripts/api_vocabulary_inventory.py:463-507 | Each endpoint lists the fields of its parameters and bodies, and the catalog describes the fields of all endpoints |
| `ApiFields.ReferencesNameOneEntry` | scripts/api_vocabulary_inventory.py:536-562 | Every reference of an endpoint field or a control names exactly one entry, whose id is `lotus.` and its term |
| `EndpointRecords.ValidateReferences` | scripts/api_vocabulary_inventory.py:647-681 | The errors of all field references, in order |
| `EndpointRecords.ReferencePassesIff` | scripts/api_vocabulary_inventory.py:554-562 | A reference repeats no metadata, whatever its record holds, and passes exactly when the record has an id and a reference |
| `EndpointRecords.BuiltReferencesPass` | scripts/api_vocabulary_inventory.py:536-681 | Every field reference of a built inventory passes the check |
| `ApiVocabulary.TermIgnoresPrefix` | scripts/api_vocabulary_inventory.py:117-123 | The path in front of a property does not change its term |
| `ApiVocabulary.Catalog.Record` | scripts/api_vocabulary_inventory.py:498-533 | Recording keeps the catalog a description of all fields so far: complete and duplicate-free locations and types |
| `ApiVocabulary.ValidateCatalog` | scripts/api_vocabulary_inventory.py:598-632 | Exactly which identity errors are reported |
| `ApiVocabulary.BuiltCatalogErrors` | scripts/api_vocabulary_inventory.py:612-630 | A built catalog never fails the missing, duplicate, mismatch or legacy checks |
| `ApiVocabulary.BuiltCatalogPassesIff` | scripts/api_vocabulary_inventory.py:612-630 | A built catalog passes exactly when the canonical terms of all fields are in snake case |
| `ApiVocabulary.DigitIsNotSnakeCase` | scripts/api_vocabulary_inventory.py:110-119 | A property name whose canonical term is not |
| `ApiVocabulary.ReferencesResolve` | scripts/api_vocabulary_inventory.py:498-533 | Each field finds exactly one entry, which lists its location and type |
| `PrecisionPolicy.QuantizeNearestEven` | src/core/precision_policy.py:53-74 | Quantising gives the grid point nearest to the exact value, ties to the even coefficient |
| `PrecisionPolicy.PolicyNearestEven` | src/core/precision_policy.py:6-11 | Each of the six functions gives the even nearest multiple of its own unit |
| `PrecisionPolicy.NearestEvenUnique` | src/core/precision_policy.py:53-74 | There is only one such point |
| `PrecisionPolicy.NearestOfAll` | src/core/precision_policy.py:53-74 | No grid point is nearer |
| `PrecisionPolicy.QuantizeMonotone` | src/core/precision_policy.py:53-74 | A larger value never rounds to less, and equal values written differently round alike |
| `PrecisionPolicy.QuantizeOdd` | src/core/precision_policy.py:53-74 | Rounding commutes with changing the sign |
| `PrecisionPolicy.QuantizeExactOnGrid` | src/core/precision_policy.py:53-74 | Grid values keep their value |
| `PrecisionPolicy.QuantizeIdempotent` | src/core/precision_policy.py:53-74 | Quantising twice is quantising once |
| `PrecisionPolicy.SumOfQuantized` | src/core/precision_policy.py:53-74 | For n values, the sum of the quantised and the quantised sum differ by at most (n+1)/2 units |
| `PrecisionPolicy.SerializedWeightsSum` | src/core/simulation_state_models.py:11-12 | Serialised weights of exact sum 1 sum to within n times 0.00005 of 1 |
| `PrecisionPolicy.AcceptedInput` | src/core/precision_policy.py:40-50 | An accepted input lies on the grid of its maximum scale and is returned unchanged |
| `PrecisionPolicy.RejectedInputOnGridIff` | src/core/precision_policy.py:33-50 | A rejected value lies on that grid exactly when its further digits are zeros |
| `PrecisionPolicy.PaddedPoundRejected` | src/core/precision_policy.py:40-50 | A rejected value that lies on the grid |
| `BanditGate.Compare` | scripts/bandit_high_severity_gate.py:80-133 | The failures in the order they are appended |
| `BanditGate.FailuresAre` | scripts/bandit_high_severity_gate.py:80-133 | A failure is reported exactly when its kind calls for it |
| `BanditGate.SilentIff` | scripts/bandit_high_severity_gate.py:80-133 | The gate is silent exactly when the baseline loads cleanly, fingerprints are distinct and the same on both sides, nothing is high and no severity rose |
| `BanditGate.Load` | scripts/bandit_high_severity_gate.py:136-168 | The entries kept and the failures reported, in order |
| `BanditGate.SortFindingsSorts` | scripts/bandit_high_severity_gate.py:180-183 | The findings are written in the order of file, line and test, losing none and keeping those of one key in the order they came |
| `BanditGate.BuildBaseline` | scripts/bandit_high_severity_gate.py:171-209 | The payload written, entry by entry over the sorted findings |
| `BanditGate.WrittenEntryLoadsIff` | scripts/bandit_high_severity_gate.py:281-339 | A written entry loads exactly when its texts are there and its date has not passed |
| `BanditGate.WrittenBaselinePassesIff` | scripts/bandit_high_severity_gate.py:136-209 | Exactly when a report passes against the baseline written from it |
| `TrustFreshness.SnapshotPatch.Apply` | scripts/trust_telemetry_freshness.py:84-138 | The key-by-key patch, with its errors |
| `TrustFreshness.Validate` | scripts/trust_telemetry_freshness.py:141-196 | The failures in the order they are appended |
| `TrustFreshness.PatchIdempotent` | scripts/trust_telemetry_freshness.py:84-138 | With an observation time a second patch changes nothing |
| `TrustFreshness.PatchedPassesIff` | scripts/trust_telemetry_freshness.py:141-196 | A patched snapshot passes exactly when it is not from the future and the run is named |
| `TrustFreshness.UnobservedPatchIdempotentIff` | scripts/trust_telemetry_freshness.py:70-72 | Without an observation time: exactly when the second patch agrees |
| `TrustFreshness.UnobservedTurnsCurrent` | scripts/trust_telemetry_freshness.py:70-72 | A snapshot that the first patch blocks as stale and the second opens |
| `TrustFreshness.CertifiedIsAccepted` | scripts/trust_telemetry_freshness.py:240-294 | A certified snapshot passes at once, is observed at the certified second, and is open exactly when it declares a maximum age |
| `TrustFreshness.CurrentExactlyWhileYoung` | scripts/trust_telemetry_freshness.py:58-67 | After certification it is current exactly while the whole seconds do not exceed the maximum, then stale forever |
| `TrustFreshness.JustAheadLooksCurrent` | scripts/trust_telemetry_freshness.py:58-67 | A future observation derives as current exactly within one second of the reference |
| `RadonInventory.Collector.Collect` | scripts/radon_complexity_gate.py:36-45 | The nested recursion appends the preorder of the block tree with its file, and fails exactly on a node that is not a dictionary |
| `RadonInventory.Collector.CollectAll` | scripts/radon_complexity_gate.py:41-51 | The same of a list of blocks |
| `RadonInventory.Worst` | scripts/radon_complexity_gate.py:58-64 | The first of the most complex blocks |
| `RadonInventory.ParseReport` | scripts/radon_complexity_gate.py:21-76 | Exactly when the report is refused; otherwise the inventory and failing list of the specification |
| `RadonInventory.SameBlocks` | scripts/quality_baseline_report.py:276-291 | On every report the gate accepts the two implementations visit the same blocks in the same order |
| `RadonInventory.InventoriesAgree` | scripts/quality_baseline_report.py:257-301 | On well-formed reports they agree on counts, rank counts, worst rank and worst complexity |
| `RadonInventory.FailingBlocks` | scripts/radon_complexity_gate.py:65-69 | The failing list holds exactly the blocks at or above the threshold |
| `RadonInventory.FailingShrinks` | scripts/radon_complexity_gate.py:65-69 | Raising the fail rank gives a filtered failing list in the same order |
| `EnterpriseReadiness.ContainsCompact` | src/api/enterprise_readiness.py:276-282 | The first sensitivity test is implied by the compact one |
| `EnterpriseReadiness.SensitiveByEssence` | src/api/enterprise_readiness.py:276-282 | A name is sensitive exactly when, without case, dashes and underscores, it contains a marker |
| `EnterpriseReadiness.SensitiveIgnoresSpelling` | src/api/enterprise_readiness.py:276-282 | Case and any placement of dashes and underscores make no difference |
| `EnterpriseReadiness.RedactionAt` | src/api/enterprise_readiness.py:257-273 | At every depth: values not under a sensitive name stay, values under one are gone |
| `EnterpriseReadiness.RedactIdempotent` | src/api/enterprise_readiness.py:257-273 | Redacting twice is redacting once |
| `EnterpriseReadiness.MatchesIffSegmentPrefix` | src/api/enterprise_readiness.py:172-177 | A rule matches exactly when its segments are a prefix of the request's, trailing slashes aside |
| `EnterpriseReadiness.AppendedCapabilities` | src/api/enterprise_readiness.py:253-254 | Appending to the capability list adds to the set and removes nothing |
| `EnterpriseReadiness.RequiredIsFirstRule` | src/api/enterprise_readiness.py:160-169 | The capability asked for is that of the first rule whose method and segments fit, and none when no rule fits |
| `EnterpriseReadiness.AllowedIff` | src/api/enterprise_readiness.py:180-250 | Exactly which enforced write requests are allowed |
| `EnterpriseReadiness.MoreCapabilitiesNeverDeny` | src/api/enterprise_readiness.py:180-250 | Any headers that agree elsewhere and carry at least the capabilities of an allowed request are allowed |
| `EnterpriseReadiness.AppendingNeverDenies` | src/api/enterprise_readiness.py:180-254 | In particular those with more appended to the header |
| `ComplianceRules.EvaluateSinglePositionMax` | src/core/compliance_rules.py:36-78 | One failure for each offending bucket in order, or a single pass that measures the true maximum |
| `ComplianceRules.Lowest` | src/core/compliance_rules.py:130-179 | The loop of the shorting and cash rules finds the true minimum of zero and the amounts |
| `ComplianceRules.Evaluate` | src/core/compliance.py:24-34 | Every rule reports, the position rule once for each offending bucket; each result fails exactly when its rule is violated and measures the true weight, count or extremum; a hard failure appears exactly when a hard rule is broken |
| `ComplianceRules.OneFailurePerBucket` | src/core/compliance_rules.py:36-78 | As many failures as offending buckets |
| `ComplianceRules.HigherLimitFailsLess` | src/core/compliance_rules.py:36-78 | Raising the limit never adds a failure |
| `ComplianceRules.VerdictIgnoresOrder` | src/core/compliance.py:24-34 | The verdict and the measured extrema ignore the order of buckets, positions and balances |

## Left out

- Process, network, file system, command line and HTTP work of all scripts, the middleware around the evaluators, and the
  simulation, proposal and approval domains.
- `packaging` (requirement and marker parsing, version specifiers, pins), `str()` of JSON values, ISO dates and timestamps,
  SHA-256 and the split at license operators: parameters of the model, with laws only where a proof needs them.
- The recursion limit of Python. The functions are defined where the recursion comes to an end, whatever its depth; where it
  does not, the original exceeds the limit.
- Aliasing inside one JSON document: schemas and payloads are values, so two places never share one dictionary.
- Characters outside ASCII in case mapping and white space.
- Equality of numbers across JSON types (`1 == 1.0 == True`) in comparisons of stored payloads; enum tests and the gate's
  text comparisons do have it.
- Schema keys whose value has an unexpected type behave as absent keys; `type` lists and non-string `$ref` values are not
  modelled. A `responses` value that is neither absent nor a dictionary is not modelled.
- Enrichment of media-type examples and of the `info` block. Media examples go through the repair that is modelled.
- Header normalisation and the environment: authorisation starts from normalised headers and read configuration.
- The example and placeholder catalogs of the vocabulary, its control example check, the choice of the first success response
  and the order of the listed catalog.
- License metadata reading (expression, license text, classifiers) and the distribution index: a distribution gives its term.
- `DependencyLock.ReadPrinted`: the reader covers the part of TOML v1.0.0 the printer uses: comments, blank lines, headers,
  bare keys, basic strings, integers, booleans and one-line arrays of strings; any other line fails to read.
- `DependencyLock.Validate`: names are reported as sets, and the version mismatches of all packages are gathered in one failure.
- `LockRecords.PackageRecords`: inventory entries that are not dictionaries are dropped before the call.
- `PrecisionPolicy.QuantizeNearestEven`: decimals are finite, the context's precision is not exceeded, and signed zeros are
  one zero.
- `RequirementFiles.RequirementReader.Parse`: of a requirement it keeps the name, which is what the three readers share; pins,
  extras and source files are fields of the roots in `LicenseInventory` and `LockRecords`.
- `OperationDocumentation.OperationNode.EnsureDocumentation`: a description of the idempotency header that is neither a text
  nor counts as absent is taken for absent.
- `ApiVocabulary.Catalog.Record`: descriptions, examples, the first type and the two overrides of an entry are not kept.
- `ApiVocabulary.ValidateCatalog`: entries are dictionaries, examples are not checked for placeholders, and the order of errors
  is not stated.
- `BanditGate.WrittenBaselinePassesIff`: starts from findings; the reading of Bandit's JSON report and the conversion of line
  numbers are not modelled.
- `RadonInventory.InventoriesAgree`: complexities are whole numbers and ranks texts; other types of either are outside.
- `ComplianceRules.Evaluate`: amounts are exact reals; result texts and remediation hints are left out.
