# Verified model of the Stencil schema registry

Stencil stores versions of protobuf schemas, accepts an upload only if it is compatible with the
latest stored version, answers lineage questions over the type graph, and announces schema changes.
This project models those parts in Dafny and proves what they promise, including where a promise
holds only under a condition and what that condition is.

## What is modelled

- `Sequences`, `Descriptors`: the descriptor model shared by everything else (files, nested messages,
  fields, enums, reserved ranges and names), full names, lookups, and what building a registry enforces.
- `Compatibility`: the comparison as it runs, collecting disallowed differences into a mutable error.
  `Verdicts`: what an empty result means, stated over the two schemas alone. `Transitivity`: when a
  verdict against one version carries over to the versions before it. `Reservations`: when reserved
  numbers stay reserved, over one upload and over a line of them. `WireValues`: what a verdict means for
  data. `Simulations`: which schema changes keep all data well typed.
- `Graphs`: paths, distances and the level-by-level walk. `Lineage`: the dependency maps, the roots of a
  type name, the frontier-list search and the merged response. `Impact`: the reverse map and the
  queue-based search of the change detector. `TypeReferences`: what the graph and the roots are in terms
  of the fields and names declared. `ChangeEvents`: the change event.
- `Keys`, `VersionTables`, `Repository`, `CompatibilityModes`, `Registry`: cache keys, the tables with
  each SQL statement or transaction as one atomic step, the repository and service objects over them.
  `Histories`: serial runs of uploads, fetches, mode updates, deletions, clean-ups and cache evictions,
  where the reads and the transaction of an upload may fail.
- `Notifications`: the query, insert, publish, mark protocol with any number of interleaved workers and
  every step able to fail before or after it takes effect. `Announcements`: when a version is announced
  at most once. `NotificationService`: the code one worker runs, tied to the protocol's steps.
- `Compositions`: uploads and the workers they start in one run.
- `TransitivityLimits`, `WireValueLimits`, `ImpactLimits`, `ChangeEventLimits`, `HistoryLimits`: concrete
  schemas and runs at the edge of these laws. `SmallGraphs`: small graphs worked out. `SmallSchemas`: what
  these share.

SHA-1 name-based identifiers (section 4.3 of RFC 4122) are datatype constructors, hence injective; the
text hashed for a version is an owner text and a fixed-length file identifier, so it is represented by
that pair. Parsing and the canonical stored form of bytes are parameters (`Registry.Provider`) with
one law: a parsed schema is well formed and its stored form parses to the same schema. A cache write
that is dropped is a write followed by an eviction.

## Findings

What the code does not keep on some input: a lemma at such an input, and the exact condition under which
it does keep it.

- formats/protobuf/compatibility.go:114-121, 171-182 and docs/docs/server/rules.md:38: the rules page says
  that reserved numbers stay reserved, but only the two end numbers of a reserved range are compared. One
  accepted upload may release the inside of a wide range and use it
  (`TransitivityLimits.WideRangeReleasesItsInside`). All reserved numbers stay reserved in every accepted
  upload exactly when no range of the schema it replaces spans more than two numbers
  (`Reservations.ReservedNumbersStayExactly`).
- formats/protobuf/compatibility.go:113-210: acceptance is not transitive
  (`TransitivityLimits.WideRangeForgetsItsInside`); it carries over exactly when the stability check passes
  (`Transitivity.TransitiveExactly`).
- formats/protobuf/compatibility.go:133-152: forward mode is not transitive even when every range holds
  one number, since fields are matched by JSON name but deletions are excused by proto name
  (`TransitivityLimits.RenamedFieldBreaksForward`); the same condition is exact.
- core/schema/service.go:85-101 and core/schema/compatibility.go:17-26: the transitive modes receive the
  latest version only, so they equal the plain modes (`CompatibilityModes.TransitiveModesCheckLatestOnly`)
  and a run in one of them may end with versions that are not compatible
  (`HistoryLimits.TransitiveModeLosesTheFirst`); `Histories.HistoryCarriesOnExactly` is the exact condition.
- formats/protobuf/compatibility.go:130-147: added required fields are not reported
  (`WireValueLimits.AddedRequiredFieldIsAccepted`); an old value stays initialised exactly when none of the
  messages it goes through gained one (`WireValues.OldDataStaysInitialised`), and all of them do exactly
  when no message that has initialised values gained one (`WireValues.AllStayInitialisedExactly`).
- formats/protobuf/compatibility.go:157-166: the types of group fields are not compared
  (`WireValueLimits.GroupTypeChangeIsAccepted`). A value stays well typed exactly when its groups follow
  (`WireValues.OldDataTypedExactly`), and all values do exactly when a simulation relates the group types
  (`Simulations.BackwardKeepsAllExactly`).
- core/schema/utils.go:14-16 and internal/api/schema.go:118-129: any 32-bit number is accepted in a fetch,
  and a negative one shares its cache key with the positive number of the schema whose name has one dash
  more (`Keys.NegativeNumberCollides`), so a fetch may return another schema's bytes
  (`HistoryLimits.NegativeNumberServesAnother`). With unambiguous namespaces that is the only case in which
  two keys agree (`Keys.SchemaKeysAgreeExactly`).
- core/schema/utils.go:14-16 and core/schema/service.go:292-295: cache keys and version identifiers of two
  namespaces can collide exactly when one is the other followed by a dash (`Keys.OwnersCollideExactly`).
  An upload then succeeds with another schema's version and its own schema does not even exist
  (`HistoryLimits.AmbiguousUploadIsLost`); it gets its own version exactly when no schema of the same owner
  text holds the content (`Histories.UploadReturnsOwnVersionExactly`).
- core/schema/service.go:56-70, 264-266: deleting the highest version lets its number be given out again
  while the cache keeps serving the old bytes (`HistoryLimits.DeletingHighestLeavesStaleBytes`); the exact
  conditions are `Histories.NumberReusedExactly` and `Histories.UploadKeepsCacheExactly`. Any version that
  was fetched and then deleted is still served (`HistoryLimits.FetchedThenDeletedIsServed`); a fetch returns
  what is stored exactly when nothing else is cached (`Histories.FetchIsStoredExactly`).
- core/schema/service.go:113, 280-282: the mode that an update of the metadata stores with a schema plays no
  part in its uploads (`Histories.UploadIgnoresStoredMode`, `HistoryLimits.StoredModeIsNotApplied`).
- core/schema/service.go:134-159: an upload whose transaction is rolled back still starts change detection,
  for a version that does not exist (`HistoryLimits.RolledBackUploadIsDetected`), and a worker may announce
  it (`Compositions.RolledBackVersionIsAnnounced`); an announced version was stored exactly unless its
  upload was rolled back and it was not there before (`Compositions.AnnouncedWasStored`).
- core/changedetector/proto_change_detector_service.go:213-231: only the fields of top-level messages are
  looked at, so a dependent that is a nested message is not reported
  (`ImpactLimits.NestedDependentIsMissed`); `Impact.ImpactVersusLineage` is the exact condition.
- core/schema/lineage.go:66-91 and core/changedetector/proto_change_detector_service.go:213-231: without a
  package the graphs put a dot before names that references do not have, so dependents are missed
  (`ImpactLimits.UnpackagedDependentIsMissed`); the names fit exactly when every file with a typed field has
  a package (`Lineage.GraphOfDeclarationsExactly`).
- core/changedetector/utils.go:55-71: an enum nested in a changed message is listed among its impacted
  fields even if it is unchanged (`ChangeEventLimits.UnchangedEnumIsListed`); only changed and added parts
  are listed exactly when no nested enum is unchanged (`ChangeEvents.ListsOnlyChangesExactly`).
- core/changedetector/utils.go:34-36, 75-77: a new declaration that is deprecated from the start is listed
  with an empty name (`ChangeEventLimits.NewDeprecatedListsEmptyName`), and that is the only case
  (`ChangeEvents.MessageListsEmptyNameExactly`, `ChangeEvents.EnumListsEmptyNameExactly`).
- core/schema/service.go:181-225: a version may be announced twice, with or without failures
  (`NotificationService.FailedMarkPublishesTwice`, `NotificationService.InterleavedWorkersPublishTwice`).
  It is never announced again exactly when one of its rows is marked and none of its workers is past its
  query with its event not yet handed over (`Announcements.NeverAgainExactly`), and at most once in every
  run whose queries are answered in calm moments (`Announcements.CalmRunAnnouncesOnce`).

## Model

| member | source | states |
|---|---|---|
| Descriptors.EveryDeclarationIsVisited | formats/protobuf/utils.go:8-33 | The walk over messages and enums reaches every top-level declaration and is closed under nesting, with the right full names |
| Descriptors.OnlyDeclaredMessagesAreVisited | formats/protobuf/utils.go:8-16 | Every visited message is a top-level one or nested in a visited one, under its full name |
| Descriptors.OnlyDeclaredEnumsAreVisited | formats/protobuf/utils.go:18-33 | Every visited enum is one of a file or nested in a visited message, under its full name |
| Descriptors.TypeFullNameExactly | formats/protobuf/compatibility.go:160-165 | The full name of a referenced type is its type name without the leading dot |
| Compatibility.CompatibilityErr.Add | formats/protobuf/error.go:22-28 | A difference is appended exactly when its kind is not allowed |
| Compatibility.Contains | formats/protobuf/compatibility.go:74-81 | The early-exit loop decides membership in the mode list |
| Compatibility.CompareMessages | formats/protobuf/compatibility.go:113-147 | Appends exactly the disallowed differences of one message pair: range ends, names, dropped and changed fields |
| Compatibility.CompareFields | formats/protobuf/compatibility.go:149-167 | Appends exactly the disallowed differences of a field pair: JSON name, label, kind, and type name when the kind is message or enum |
| Compatibility.CompareEnums | formats/protobuf/compatibility.go:169-210 | Appends exactly the disallowed differences of one enum pair |
| Compatibility.CompareSchemas | formats/protobuf/compatibility.go:83-111 | For an arbitrary choice of the file order, null exactly when no file has a disallowed difference, and otherwise those differences, each as often as it occurs |
| Verdicts.VerdictIsDeclarative | formats/protobuf/compatibility.go:83-216 | In each of the three modes and any visiting order, nothing is collected exactly when a declarative predicate over all messages, fields, reserved items, enums and values of prev holds |
| Verdicts.CollectsEachDeclarationOnce | formats/protobuf/compatibility.go:83-111 | In any visiting order the collected differences are those of each declared message and enum, once each |
| Verdicts.CollectedExactly | formats/protobuf/compatibility.go:83-216 | For any mode list, a difference of a kind, owner and part is collected if and only if its kind is listed and a declared message or enum shows it: each of the sixteen kinds has its own condition, over the parts of the two declarations |
| Verdicts.ModeLists | formats/protobuf/compatibility.go:30-72 | Every mode lists all changes; backward and full list deletions, forward lists deletions without a reserved number or name, and neither lists those of the other |
| Verdicts.ModesRelate | formats/protobuf/compatibility.go:30-72 | Backward and full accept the same pairs, and backward acceptance implies forward acceptance |
| Verdicts.ForwardNeverReuses | formats/protobuf/compatibility.go:44-58 | After forward acceptance a field number of prev is carried by matching fields only, or its number and name are reserved and unused |
| Verdicts.ForwardNeverReusesValue | formats/protobuf/compatibility.go:169-210 | After forward acceptance an enum value keeps its number, or number and name are reserved and unused |
| Verdicts.Reflexive | formats/protobuf/compatibility.go:83-216 | A well-formed schema is accepted against itself in every mode |
| Transitivity.StableIsEnough | formats/protobuf/compatibility.go:113-210 | Acceptance against the middle version carries over to the oldest one when the first two versions pass the stability check |
| Transitivity.TransitiveExactly | formats/protobuf/compatibility.go:113-210 | Acceptance carries over to every later accepted schema if and only if the stability check passes |
| Transitivity.NarrowIsStable | formats/protobuf/compatibility.go:113-210 | Ranges of at most two numbers in the middle schema, and in forward mode kept field names, suffice for stability |
| TransitivityLimits.WideRangeForgetsItsInside | formats/protobuf/compatibility.go:114-121 | Three schemas, each accepted against the one before, where the last reuses a number the first reserves |
| TransitivityLimits.RenamedFieldBreaksForward | formats/protobuf/compatibility.go:133-152 | Three schemas with one-number ranges on which forward acceptance is not transitive |
| TransitivityLimits.WideRangeReleasesItsInside | docs/docs/server/rules.md:38 | Two well-formed schemas, the second accepted in every mode, where a number the first reserves is used by the second |
| Reservations.NumberStaysReservedExactly | formats/protobuf/compatibility.go:114-121 | Every accepted successor reserves a number of a message if and only if it is an end of one of its reserved ranges |
| Reservations.EnumNumberStaysReservedExactly | formats/protobuf/compatibility.go:171-182 | The same for the numbers of an enum |
| Reservations.ReservedNumbersStayExactly | docs/docs/server/rules.md:38 | Every accepted successor keeps everything reserved if and only if no reserved range spans more than two numbers |
| Reservations.ReservedForever | docs/docs/server/rules.md:38 | Along any line of accepted schemas with such ranges a reserved number stays reserved and unused |
| Reservations.DroppedNumbersNeverReturn | docs/docs/server/rules.md:44 | Along such a line in forward mode the number of a field never comes back with another meaning: a matching field carries it, or it is reserved and unused |
| WireValues.OldDataStaysTyped | formats/protobuf/schema.go:41-50 | After backward acceptance every group-free value that is well typed at a message of prev is well typed at the same message of current, at every depth; so is every value if the group types are kept |
| WireValues.OldDataTypedExactly | formats/protobuf/compatibility.go:157-166 | After backward acceptance any value, groups included, stays well typed if and only if the groups it holds under a changed type have that type |
| Simulations.AllTypedExactly | formats/protobuf/schema.go:41-50 | For any two schemas, every value of one message is a value of another if and only if a simulation pairs the two: same kinds, growing enums, paired field types |
| Simulations.BackwardKeepsAllExactly | formats/protobuf/compatibility.go:113-210 | After backward acceptance all old values of all messages stay well typed if and only if each group type is simulated by the one in its place |
| WireValues.OldDataIsReadWhole | formats/protobuf/schema.go:41-50 | After backward acceptance a reader with the new schema loses nothing of old data |
| WireValues.OldDataStaysInitialised | formats/protobuf/compatibility.go:130-147 | An old value, groups included, stays initialised if and only if no message it goes through gained a required field and its groups that changed type are initialised in the new one |
| WireValues.AllStayInitialisedExactly | formats/protobuf/compatibility.go:130-147 | While group types are kept, all initialised old values stay so if and only if no message that has one gained a required field |
| WireValues.TypedIsReadWhole | formats/protobuf/schema.go:41-50 | Well-typed data is read back unchanged |
| WireValues.NewDataAtOldReader | formats/protobuf/schema.go:52-61 | After forward acceptance an old reader decodes new data without a clash and gets a well-typed value |
| WireValues.OldDataAtForwardReader | formats/protobuf/schema.go:52-61 | After forward acceptance a new reader decodes old data without a clash, and everything it skips is reserved |
| WireValueLimits.GroupTypeChangeIsAccepted | formats/protobuf/compatibility.go:157-166 | Two well-formed schemas, accepted in backward mode, in which a group moves from one nested message to another of the same lower-case name and an old value is no longer well typed |
| WireValueLimits.AddedRequiredFieldIsAccepted | formats/protobuf/compatibility.go:130-147 | Two well-formed schemas, accepted in backward mode, between which the empty message stops being initialised |
| Graphs.WalkFromIsCorrect | core/schema/lineage.go:131-163 | Exactly the nodes other than the root within maxLevel edges, each once, at its shortest distance, with a real simple path from the root, levels never decreasing |
| Graphs.WalksMirror | core/schema/lineage.go:131-163 | In transposed graphs, v is found from u at level k exactly when u is found from v at level k |
| Graphs.DeepEnough | core/changedetector/proto_change_detector_service.go:61-69 | With at most depth + 1 nodes, a walk of that depth reaches everything reachable |
| Lineage.WalkLineage | core/schema/lineage.go:133-163 | The frontier-list search returns the level-by-level walk, in order |
| Lineage.BuildDependencyMaps | core/schema/lineage.go:66-76 | Both maps receive every edge of every file in building order; `TypeReferences.EdgesAreReferences` says which edges these are |
| Lineage.DependencyMaps.BuildDepsFromMsg | core/schema/lineage.go:78-91 | One message adds its typed fields' edges, then those of what it nests, to both maps |
| Lineage.MapsAreTransposed | core/schema/lineage.go:66-91 | The two maps are transposes counted with multiplicity |
| TypeReferences.EdgesAreReferences | core/schema/lineage.go:66-91 | For all files, the graph has the edge from u to v as often as there are positions of a file, of a message called u that it declares at any depth, and of a field of that message whose type name is a dot and v |
| TypeReferences.PackagedEdgesAreReferences | core/schema/lineage.go:66-91 | With packages, in terms of full names: the edge, and its entries in both maps, occur as often as declared messages of full name u have fields of type v |
| TypeReferences.EdgeIsReference | core/schema/lineage.go:66-91 | v follows u in the forward map if and only if a declared message called u has a field of type v |
| Lineage.UpstreamDownstreamDual | core/schema/lineage.go:211-239 | v is downstream of u at level k exactly when u is upstream of v at level k |
| Lineage.GraphOfDeclarations | core/schema/lineage.go:66-91 | With packages, the edges come in the order of the declared messages and their fields, under reference names |
| Lineage.FindRootFqns | core/schema/lineage.go:95-129 | The roots are exactly the declared names that equal the type name or end in a dot and it, once each |
| TypeReferences.RootsAreDeclared | core/schema/lineage.go:95-129 | The names to choose roots from are those of the messages and enums declared at any depth, and a root is one that equals the type name or is some text, a dot and the type name |
| Lineage.ComputeLineage | core/schema/lineage.go:189-246 | For any order of the roots, each direction asked for by its text lists the walks of the roots one after the other without repetition, which is the union of what they reach, and the counts are the sizes of those unions; unparsable data or any other text gives an error |
| Lineage.MergedByFirstRoot | core/schema/lineage.go:211-239 | A node with its level and path is listed if and only if some root finds it and no earlier root finds its name |
| Lineage.MergedInOrder | core/schema/lineage.go:211-239 | The walks come in the order of the roots |
| Lineage.OneRootIsWalked | core/schema/lineage.go:211-239 | The walk from a single root is listed as it is |
| SmallGraphs.DiamondIsWalkedInOrder | core/schema/lineage.go:133-163 | In any graph with a diamond below the root the walk lists parents before children, children in the order of their parents and lists, and the path through the first parent |
| SmallGraphs.EnumHasDownstream | core/schema/lineage.go:78-129 | A well-formed schema in which a field has an enum type: the enum is the one root of its name, and its downstream is the message of the field |
| Impact.GetReverseDependencies | core/changedetector/proto_change_detector_service.go:213-231 | For all files, s and t: the map lists s under t as often as there are top-level messages named s, after their package and a dot, with a field whose type name is a dot and t |
| Impact.ReverseDependenciesExactly | core/changedetector/proto_change_detector_service.go:213-231 | The same of the specification, and s is listed under t if and only if some file has such a message with such a field |
| Impact.GetDependentImpactedSchemas | core/changedetector/proto_change_detector_service.go:233-255 | The queue-based search returns the root and then the names of the level-by-level walk, in the same order; nothing for a negative depth |
| Impact.DependentsAreExact | core/changedetector/proto_change_detector_service.go:233-255 | The result holds exactly the root and what is within depth edges, once each |
| Impact.NegativeDepthIsClosure | core/changedetector/proto_change_detector_service.go:61-69 | With at most 2^31 nodes depth 2147483647 yields the full reverse-reachability closure |
| Impact.ImpactVersusLineage | core/changedetector/proto_change_detector_service.go:213-231 | Impacted schemas are among the lineage's downstream, and are all of it, for every root and depth, if and only if each reference of a declared message to another name is also one of a top-level message of its name |
| ImpactLimits.NestedDependentIsMissed | core/changedetector/proto_change_detector_service.go:213-231 | A well-formed schema with a direct dependent that lineage reaches and no depth reports as impacted |
| SmallGraphs.DirectDependentIsImpacted | core/changedetector/proto_change_detector_service.go:213-255 | In a package, a change of a message impacts itself and then the message with a field of its type |
| Lineage.GraphOfDeclarationsExactly | core/schema/lineage.go:66-91 | The edges are those of the declared messages under reference names if and only if every file with a typed field has a package |
| ImpactLimits.UnpackagedDependentIsMissed | core/changedetector/proto_change_detector_service.go:213-231 | A well-formed schema without a package whose dependent neither the impacted schemas nor lineage hold at any depth |
| ChangeEvents.IdentifySchemaChange | core/changedetector/proto_change_detector_service.go:36-71 | The event lists the updated schemas; field lists and impacted lists have exactly those keys; each impacted list holds, once each, what is within the requested depth of its schema in the reverse map, or within 2147483647 for a negative depth, which among at most 2^31 names is everything that reaches it; the error cases give no event |
| ChangeEvents.SchemaChangedEvent.SetDirectlyImpactedSchemasAndFields | core/changedetector/proto_change_detector_service.go:82-148 | The updated names in order, with field lists that belong to their own declarations when no name repeats |
| ChangeEvents.UpdatedExactly | core/changedetector/proto_change_detector_service.go:82-148 | With unique names, exactly the new or unequal declarations are listed: top-level ones and enums nested in messages that existed |
| ChangeEvents.UpdatedOnce | core/changedetector/proto_change_detector_service.go:82-148 | With unique full names nothing is listed twice |
| ChangeEvents.UpdatedInOrder | core/changedetector/proto_change_detector_service.go:82-148 | The updated names are a subsequence of the declared ones: by file, each message before the enums nested in it, messages before enums |
| ChangeEvents.FormerExactly | core/changedetector/proto_change_detector_service.go:154-202 | With unique names the previous form of a declaration is the one of the same package and name |
| ChangeEvents.RepeatedNames | core/changedetector/proto_change_detector_service.go:154-211 | Where names repeat, a later field, value or top-level declaration replaces an earlier one, and of nested enums the first is found |
| ChangeEvents.IdenticalSchemasGiveEmptyEvent | core/changedetector/proto_change_detector_service.go:82-148 | Comparing a schema with itself lists nothing |
| ChangeEvents.ChangedParts | core/changedetector/utils.go:37-52 | The changed names in the old order, the first old and the last new part of a name deciding, then the added names once each |
| ChangeEvents.ChangedNamesAreDistinct | core/changedetector/utils.go:41-48 | No changed name is listed twice, and each belongs to an old and a new part |
| ChangeEvents.ImpactedExactly | core/changedetector/utils.go:37-52 | With unique names, changed and added names are exactly those of the new parts without an unchanged namesake |
| ChangeEvents.GetImpactedMessageFields | core/changedetector/utils.go:32-53 | The whole list: changed fields in old order, added fields and nested enums once each; the old name alone when the deprecation flag changed. `ChangeEvents.FieldsListedExactly` says which fields these are |
| ChangeEvents.FieldsListedExactly | core/changedetector/utils.go:32-53 | For a message that was there before, with unique field names: the old name alone if the deprecation flag changes; otherwise a name is listed if and only if a field of that name changed kind or deprecation, or is new, or a nested enum has it |
| ChangeEvents.OldFieldListedExactly | core/changedetector/utils.go:8-14 | An old field whose name no enum shares is listed if and only if the new message has it with another kind or another deprecation |
| ChangeEvents.FieldsInOrder | core/changedetector/utils.go:37-52 | The changed fields come first, in their old order, then the added ones, then the nested enums, of which those that differ from their old namesake come first and in the old order |
| ChangeEvents.NewMessageListsAll | core/changedetector/utils.go:32-53 | A new message that is not deprecated lists all its fields and nested enums |
| ChangeEventLimits.KindChangeIsListed | core/changedetector/utils.go:8-14 | Two well-formed schemas between which a field changes from int32 to string: the message is updated, and the field is all that is listed for it |
| ChangeEvents.GetImpactedEnumsInside | core/changedetector/utils.go:55-71 | Every enum nested in the new message is listed exactly once, changed or not, the changed ones first and in their old order |
| ChangeEvents.GetImpactedEnumFields | core/changedetector/utils.go:73-94 | The whole list: changed values in old order under the old enum name, added values once each under the new |
| ChangeEvents.ValuesListedExactly | core/changedetector/utils.go:16-22 | For an enum that was there before: the old name alone if its deprecation flag changes; otherwise exactly the values that changed deprecation, under the old name, and the new ones, under the new |
| ChangeEvents.ValuesInOrder | core/changedetector/utils.go:73-94 | The changed values come first, in their old order, then the added ones |
| ChangeEvents.NewEnumListsAll | core/changedetector/utils.go:73-94 | A new enum that is not deprecated lists all its values |
| ChangeEvents.ListsOnlyChangesExactly | core/changedetector/utils.go:32-71 | The list of a message names only fields that changed kind or deprecation, new fields, and new or changed enums, if and only if no enum of the message is unchanged |
| ChangeEventLimits.UnchangedEnumIsListed | core/changedetector/utils.go:55-71 | Two well-formed schemas whose message gains a field, and every list for it holds the unchanged enum |
| ChangeEvents.MessageListsEmptyNameExactly | core/changedetector/utils.go:34-36 | The empty name is listed for a message if and only if it is new and deprecated |
| ChangeEvents.EnumListsEmptyNameExactly | core/changedetector/utils.go:75-77 | The same for an enum |
| ChangeEventLimits.NewDeprecatedListsEmptyName | core/changedetector/utils.go:34-36 | Two well-formed schemas, the second with a new deprecated message, whose only listed field is the empty name |
| Keys.DecimalIsDecimal | core/schema/utils.go:14-16 | A number is formatted as the decimal digits of its value without leading zeros |
| Keys.SchemaKeyText | core/schema/utils.go:14-16 | A key is the namespace, the schema and the number joined by dashes, with one more dash before a negative number |
| Keys.KeysAgree | core/schema/utils.go:14-16 | For all version numbers, keys agree if and only if the magnitudes and the texts before them do, where a sign counts as a dash of that text |
| Keys.SchemaKeysAgreeExactly | core/schema/utils.go:14-16 | With unambiguous namespaces keys agree if and only if they are of one version, or of a negative number and the positive number of the schema named with one dash more |
| Keys.NegativeNumberCollides | internal/api/schema.go:118-129 | Number -1 of one schema and number 1 of another in a dash-free namespace have the same key |
| Keys.OwnersCollideExactly | core/schema/utils.go:14-16 | Two namespaces have colliding owner texts exactly when one is the other followed by a dash |
| Keys.DashFreeIsUnambiguous | core/schema/utils.go:14-16 | Dash-free namespaces never collide |
| Keys.SchemaKeyIsInjective | core/schema/utils.go:14-16 | With unambiguous namespaces a cache key names one version, for all numbers if schema names do not end in a dash, and for all names if numbers are not negative |
| VersionTables.CreateEffect | internal/store/postgres/schema_repository.go:28-53 | New content gets the number after the highest live one, becomes the highest, and the tables stay valid |
| VersionTables.CreateKeepsOthers | internal/store/postgres/schema_repository.go:28-53 | A creation adds one live version and changes no other |
| VersionTables.DeleteVersionKeepsOthers | internal/store/postgres/schema_repository.go:104-109 | Deleting a version removes that version only |
| VersionTables.CleanOrphansEffect | internal/store/postgres/schema_repository.go:217-219 | Orphan clean-up keeps the tables valid, so no file of a live version is lost |
| VersionTables.LiveIsUnique | internal/store/postgres/schema_repository.go:55-63 | A version number names one row, and its stored bytes are those its identifier was made from |
| VersionTables.CreateRows | internal/store/postgres/schema_repository.go:122-149 | A known identifier changes nothing and gives its number; a new one adds its version row with commit and schema, its mapping, its file if the bytes are new, and its schema row if the schema is, and no other row changes |
| VersionTables.CleanOrphansExactly | internal/store/postgres/schema_repository.go:217-219 | A file stays, with its bytes, if and only if some version is mapped to it, and nothing else changes |
| VersionTables.MetadataUpdateExactly | internal/store/postgres/schema_repository.go:189-191 | Only the mode of that schema changes: format, source URL and identifier stay, as do all other rows |
| VersionTables.DeleteVersionExactly | internal/store/postgres/schema_repository.go:207-215 | The row of that version and its mapping go, and nothing else |
| VersionTables.DeleteSchemaExactly | internal/store/postgres/schema_repository.go:203-205 | The row of that schema and the rows and mappings of its versions go, and nothing else |
| Repository.SchemaRepository.Create | internal/store/postgres/schema_repository.go:28-53 | The transaction changes the tables and returns the number as the specification says, existing identifiers included |
| Repository.SchemaRepository.MaxVersion | internal/store/postgres/schema_repository.go:132-135 | The aggregate is the largest version number of the schema, or 0 |
| Repository.SchemaRepository.Get | internal/store/postgres/schema_repository.go:55-63 | The stored bytes of a live version, or nothing |
| Repository.SchemaRepository.GetLatestVersion | internal/store/postgres/schema_repository.go:65-71 | The highest live number, or 0 when the schema or its versions are missing |
| Repository.SchemaRepository.DeleteVersion | internal/store/postgres/schema_repository.go:104-109 | Deletes the version and its mapping, then cleans orphans |
| Repository.SchemaRepository.Delete | internal/store/postgres/schema_repository.go:91-96 | Deletes the schema with its versions and mappings, then cleans orphans |
| CompatibilityModes.RunStrategy | formats/protobuf/schema.go:44-71 | Each mode succeeds exactly when the declarative predicate of that mode holds |
| CompatibilityModes.Check | core/schema/compatibility.go:8-61 | Plain modes decide by the first given version, transitive modes by all of them, others accept; `CompatibilityModes.ModeMeaning` says which text is which mode |
| CompatibilityModes.ModeMeaning | core/schema/compatibility.go:44-61 | For every text of a mode: with the three transitive texts each previous version, otherwise the first, must be kept strictly for the four backward and full texts and leniently for the two forward ones; any other text accepts |
| CompatibilityModes.TransitiveModesCheckLatestOnly | core/schema/service.go:85-101 | Since only the latest version is handed over, transitive modes accept what plain modes accept |
| Registry.Service.CachedGetSchema | core/schema/service.go:56-70 | Cached bytes if the key is cached, otherwise the stored bytes, which are then cached |
| Registry.Service.GetLatest | core/schema/service.go:268-274 | Fetches the highest live version through metadata and cache |
| Registry.Service.CheckCompatibility | core/schema/service.go:85-101 | A missing latest version accepts, one that cannot be read or parsed rejects, otherwise the mode's verdict on it |
| Registry.Service.Create | core/schema/service.go:103-170 | The upload: parse, check, identify, reread, store, start change detection, with the state and result of the specification in every branch and for every outcome of its reads and its transaction |
| Registry.UploadRejectedExactly | core/schema/service.go:85-121 | An upload gets past its check if and only if its namespace is known, it parses, the read does not fail, and the latest version, if there is one, parses and is kept strictly or leniently as the text of the mode asks; the mode is that of the request or else of the namespace; a rejected upload writes nothing |
| Registry.UploadWrites | core/schema/service.go:112-133 | Past its check, an upload that is not rolled back and whose version is new adds one version row with its commit and, for a new schema, a row with the format, mode and source URL asked for, completed from the namespace; otherwise it writes nothing |
| Histories.RunIsSound | internal/store/postgres/schema_repository.go:28-53 | In every reachable state version numbers within a schema are distinct and positive, and each version has its file |
| Histories.CallsAreRuns | core/schema/service.go:253-282 | The calls of the service are runs: a deletion is the deletion step and a clean-up |
| Histories.UploadedIsLive | core/schema/service.go:103-170 | An accepted upload returns a live version with its content: the existing number without a new row, or the next number |
| Histories.UploadReturnsOwnVersionExactly | core/schema/service.go:292-295 | Without assumptions on names, the returned version is the schema's own if and only if no other schema of the same owner text holds the content |
| HistoryLimits.AmbiguousNamesShareVersions | core/schema/service.go:292-295 | Uploading known content to a colliding schema inserts nothing and returns the other schema's version |
| HistoryLimits.AmbiguousUploadIsLost | core/schema/service.go:292-295 | A run from the empty registry that gets there: the upload succeeds with version 1, but its schema does not exist and nothing can be fetched |
| Histories.DetectionStartsExactly | core/schema/service.go:127-163 | An upload that passes its check starts change detection if and only if that is enabled and the previous version can be read again, and then with what the check has read; the number that outcome and detection name is that of the version's row, or 0 after a roll-back |
| Histories.DetectedIsStoredExactly | core/schema/service.go:134-159 | The version change detection is about is stored if and only if the transaction was not rolled back or it was there before |
| HistoryLimits.RolledBackUploadIsDetected | core/schema/service.go:134-159 | An upload that fails and yet starts change detection for a version that does not exist |
| Compositions.RunsOfBothParts | core/schema/service.go:103-225 | A run of uploads together with the workers they start is a serial run and a run of the protocol, so the laws of both hold of it |
| Compositions.WorkerStartsExactly | core/schema/service.go:134-159 | An operation starts a worker if and only if it is an upload past its check, detection is enabled and the latest version can be read again; the worker is asked to announce the version of the uploaded content |
| Compositions.AnnouncedWasStored | core/schema/service.go:134-225 | In every such run, an event handed over for an upload belongs to a version stored when its worker started, if and only if that upload was not rolled back or the version was there before |
| Compositions.RolledBackVersionIsAnnounced | core/schema/service.go:134-225 | A run from the start that announces a version no table holds |
| Histories.StoredBytesStay | internal/store/postgres/schema_repository.go:132-219 | A live version keeps identity and bytes through every run that does not delete it |
| Histories.UploadedBytesStay | internal/store/postgres/schema_repository.go:132-219 | The version an upload returns holds its canonical bytes across later uploads, deletions of others and clean-ups |
| Histories.NumbersNeverReused | internal/store/postgres/schema_repository.go:132-149 | While the highest version is kept, a new number is above every number live earlier in the run |
| Histories.NumberReusedExactly | internal/store/postgres/schema_repository.go:132-149 | A number up to n is given out again if and only if no version numbered n or higher is live |
| Histories.CacheIsCoherent | core/schema/service.go:56-70 | In every serial run that keeps the schema and its highest version, with arbitrary evictions, cached bytes of a live version are the stored bytes |
| Histories.FetchIsStoredExactly | core/schema/service.go:56-70 | A fetch returns what is stored if and only if the schema is missing, nothing is cached under the number, or the stored bytes are |
| Histories.FetchReadsThrough | core/schema/service.go:56-70 | A fetch of a stored version that is not cached reads it and caches it under namespace, schema and number; any other fetch caches nothing |
| Histories.EvictedIsReadAgain | core/schema/service.go:56-70 | After an eviction the next fetch under that key reads the tables |
| Histories.FetchAfterRun | core/schema/service.go:238-255 | In such runs a fetch of a live version returns its stored bytes, and one of any other number returns nothing if and only if nothing is cached |
| Histories.ServedWasStored | core/schema/service.go:56-70 | In every serial run, whatever is deleted, a fetch returns only bytes that the schema once stored under that number |
| HistoryLimits.FetchedThenDeletedIsServed | core/schema/service.go:264-266 | Any live version that is fetched and then deleted is still served |
| HistoryLimits.NegativeNumberServesAnother | internal/api/schema.go:118-129 | A run in which number -1 of one schema is served with the bytes of version 1 of another |
| Repository.SchemaRepository.UpdateMetadata | internal/store/postgres/schema_repository.go:79-83 | Only the stored mode of an existing schema changes |
| Histories.UploadIgnoresStoredMode | core/schema/service.go:103-170 | An upload after an update of the stored mode has the same outcome and effect as before it |
| HistoryLimits.StoredModeIsNotApplied | core/schema/service.go:113 | A run in which a schema stored as backward accepts an upload that is not backward compatible |
| Histories.UploadKeepsCacheExactly | core/schema/service.go:56-70 | One upload keeps the cache coherent exactly when nothing, or the same bytes, is cached under the number it gets |
| HistoryLimits.DeletingHighestLeavesStaleBytes | core/schema/service.go:264-266 | Upload, fetch, delete, clean up, upload: the service serves the first bytes for the second content |
| Histories.StepKeepsHistory | core/schema/service.go:85-134 | One step keeps every live version compatible with every earlier live one |
| Histories.HistoryStaysCompatible | core/schema/service.go:85-134 | In every such run with all uploads of the schema checked and admissible, every live version is compatible with every earlier live one, though each was compared with the latest only |
| Histories.HistoryCarriesOnExactly | core/schema/service.go:85-134 | A pairwise compatible history stays so with whatever is accepted against its latest version if and only if each older live version and the latest pass the stability check |
| HistoryLimits.TransitiveModeLosesTheFirst | core/schema/service.go:85-101 | A run of three uploads, all checked in the transitive backward mode, whose third version is not compatible with the first |
| Histories.ReservedNumbersStay | docs/docs/server/rules.md:38 | In such runs a number that any live version reserves is reserved and unused in every later live version |
| Histories.OldDataReadableForever | core/schema/service.go:85-134 | In backward mode data written under any live version is read whole under every later live one |
| Histories.ForwardDataReadableBothWays | core/schema/service.go:85-134 | In forward mode any two live versions read each other's data without a clash, and what the later one skips is reserved |
| Notifications.MarkedOnlyAfterHandedOver | core/schema/service.go:208-225 | In every interleaving with failures, a row is marked successful only after the producer accepted its event, and each event id is handed over at most once |
| Notifications.QueryDecides | core/schema/service.go:188-199 | An answered query goes on exactly when no row of the version is marked successful, and fails exactly when several are |
| Notifications.DuplicatePublishesNothing | core/schema/service.go:188-199 | A worker whose query meets a successful row never publishes, whatever happens afterwards |
| Notifications.UnchangedAnnouncesNothing | core/schema/service.go:208-225 | A comparison without updated schemas ends its worker, changes no row and hands nothing over, and in no continuation does the worker have an event |
| Notifications.FinishedHandsOverNothing | core/schema/service.go:181-225 | A worker that has finished never changes, and what is handed over afterwards belongs to others |
| Notifications.FailureStops | core/schema/service.go:181-225 | A failing statement ends its worker; failing before its effect it changes nothing, failing afterwards it leaves rows and hand-overs as if it had succeeded, but nothing is accepted |
| Announcements.QueryingMayAnnounceExactly | core/schema/service.go:188-199 | A worker about to query hands over its event in some continuation if and only if no row of its version is marked successful |
| Announcements.NeverAgainExactly | core/schema/service.go:181-225 | With workers started by uploads, no continuation announces a version again if and only if one of its rows is marked and none of its workers is past its query with its event not handed over |
| Announcements.AnnouncedOnceExactly | core/schema/service.go:181-225 | If queries are answered only while no other worker of the version is under way and all that was handed over is marked, no continuation has two announcing workers if and only if at most one counts now |
| Announcements.CalmRunAnnouncesOnce | core/schema/service.go:181-225 | In every such interleaving from the start, with failures, at most one worker of a version hands over an event, and that once |
| NotificationService.Service.IdentifySchemaChange | core/schema/service.go:181-206 | The code changes the store exactly as the protocol's steps of one worker do, for every outcome of every statement; without updated schemas rows and hand-overs stay as they were; it succeeds if and only if every statement it gets to does, and then it hands over one event and marks its row, or, for an upload whose version is marked already, changes nothing |
| NotificationService.Service.SendNotification | core/schema/service.go:208-225 | Insert, publish, mark, stopping at the first error; success leaves one more event handed over and its row marked |
| NotificationService.Service.CreateEvent | internal/store/postgres/notification_event_repository.go:36-41 | Inserts a row unless the identifier exists |
| NotificationService.Service.UpdateEvent | internal/store/postgres/notification_event_repository.go:49-53 | Marks the row with the given identifier and nothing else |
| NotificationService.Service.FindSuccess | internal/store/postgres/notification_event_repository.go:43-47 | The one matching successful row, nothing, or an error when several match |
| NotificationService.FailedMarkPublishesTwice | core/schema/service.go:208-225 | If marking fails after the hand-over, the next worker publishes again |
| NotificationService.InterleavedWorkersPublishTwice | core/schema/service.go:181-206 | Two workers that query before either marks both publish |

## Left out

- Avro and JSON formats: their checks are delegated to other libraries or unimplemented, so every schema here is protobuf and the format strings are stored but not dispatched on.
- Protobuf wire decoding, descriptor linking, hashing and identifier generation: parameters, constructors or fresh names.
- Relative type references: a registry also resolves type names without a leading dot, which compilers do not emit; here every type name of a well-formed schema is absolute.
- Registry rules that no law here needs: value names and numbers of proto3 enums, oneofs, extension ranges, map entries, and names shared by a field or enum value and a nested declaration. A successor built in the proofs only drops a renamed field, cuts reserved ranges to their ends and reserves what it drops, so it keeps them.
- Descriptor options other than the deprecation flag, extensions, oneofs, services: not compared by the modelled code except through whole-descriptor equality, which here is equality of the modelled parts.
- Difference texts, logging, metrics: a difference is its kind, its owner and the part it is about.
- Full-name lookups that meet a declaration of another kind: full names are unique, so a lookup by name among messages (or enums) is the registry's lookup.
- Open enums: `WireValues.ReadAs` skips enum numbers its schema does not declare, as readers of closed enums do.
- OldDataStaysTyped: kept group types are sufficient, not necessary; `WireValues.OldDataTypedExactly` and `Simulations.BackwardKeepsAllExactly` give the exact conditions.
- HistoryStaysCompatible: serial runs only, because no lock is held between the check and the insert; ranges of at most two numbers are a sufficient condition on the uploads, while `Histories.HistoryCarriesOnExactly` is the exact one on the state.
- Namespace lookups, fetches and deletions have no failing variant of their own: a failed one changes nothing; the number a rolled-back transaction may already have read is taken as 0.
- Deleting a schema or version removes dependent rows through foreign keys, modelled as part of the same step; namespaces are fixed.
- Version numbers beyond 32 bits: numbers are unbounded integers.
- The order in which a lineage visits its roots: arbitrary in the source; the response is stated for each order.
- Messages without a name: parsed files have none, and `TypeReferences.Named` asks for that where graph names are compared with full names.
- Event identity, time, names and metadata: the model keeps which version an event is for and its three lists; its other fields are copied from the request.
- CalmRunAnnouncesOnce: the runs it covers are those in which every worker of the version finds the same schema identifier; a schema that is deleted and created again while workers of one of its versions run is not covered.
- The default lineage level, version-range validation of explicit comparisons, and the collection of all message and field names for search: easy members.
- Command line, HTTP and gRPC handlers, search SQL, UI, clients, generated code: no algorithm.
