# SistemaVERA case lineage engine, in Dafny

SistemaVERA is a React application for criminal case analysis by the VERA method.
An analyst collects objective **data items** under four pillars: Victim, Scene,
Reconstruction and Author. Victim items are further split by victim index. The analyst
draws **inferences** from selected data items and builds **hypotheses** on selected
inferences. The final report lists all of these with their sources.

The links between the three layers are plain code strings:

- a data item's code is `DE-3`, or `DV2-1` for the second victim;
- an inference's code is `I4`;
- an inference cites data items by code;
- a hypothesis cites inferences by code.

This project models the part of the application that keeps those links: the pure
`case -> case` transformations inside the event handlers. It models:

- the numbering of codes within a group;
- adding data items by hand and as an extracted batch;
- editing a data item;
- deleting a data item, which renumbers its group and repairs the inferences' references;
- adding and deleting inferences and hypotheses, with the warning shown before an
  inference delete;
- the case store of the application shell;
- the report's grouping of data and its lookup of sources.

On top of the handlers it proves:

- the invariant every reachable case satisfies: ids equal codes, each group is numbered
  `1..k` in data order, and inference and hypothesis codes are unique and readable;
- that a data delete keeps every surviving citation pointing at the same item, under
  its new code;
- that the report lists every data item exactly once.

Files, one module each:

- `types.dfy`: the entities.
- `codes.dfy`: the code format, its parser, and the `I<n>`/`H<n>` numbering.
- `data_collection.dfy`: the data-collection handlers.
- `lineage.dfy`: the well-formedness invariant of the data list and the add handlers' facts.
- `deletion.dfy`: deletion with renumbering and reference repair.
- `selection.dfy`: the builders' selection toggle.
- `inferences.dfy` and `hypotheses.dfy`: the two builders.
- `case_store.dfy`: the application shell.
- `report.dfy`: the report.
- `engine.dfy`: all handlers as one state machine (`Apply`), with the invariant over runs. A second machine, `ApplyCorrected`, differs only in the inference numbering (see "## Findings"); citation stability over runs is proved for it, and a sample shows the application's machine breaks it.
- `text.dfy`, `seqs.dfy`, `sorting.dfy`: the JavaScript string, array and sort operations the handlers use.
- `wrappers.dfy`: `Option`.

## Model

| member | source | states |
|---|---|---|
| Codes.InGroupIffSameGroup | components/DataCollection.tsx:53-54 | on groups a card can show, the card's filter selects exactly the items whose (pillar, victim index) is the card's group |
| Codes.FormatParseRoundTrip | components/DataCollection.tsx:73 | `FormatDataCode` writes `<prefix>-<n>` / `DV<v>-<n>`; parsing such a code gives back its group and number |
| Codes.FormatInjective | components/DataCollection.tsx:73 | two codes of valid groups are equal only when group and number are equal, so distinct (group, number) pairs never collide |
| Codes.NumbersOfFormattedCode | components/DataCollection.tsx:56-57 | both the `getNextId` reader (part after the last dash through `parseInt`) and the sort key read back the number a code was formatted with |
| Codes.LetterCodeRoundTrip | components/InferenceBuilder.tsx:25-28 | `parseInt(code.replace('I',''))` of `I<n>` is `n` (likewise for `H`) |
| Codes.MaxOrNaN | components/InferenceBuilder.tsx:25 | the reduce with `Math.max` from 0 is NaN exactly when some parsed number is NaN; otherwise it bounds every number and is 0 or one of them |
| Codes.ParsedLetterNumbersAt | components/InferenceBuilder.tsx:25 | the mapped list holds, position by position, the parsed number of each code |
| Codes.NextLetterNumberBounds | components/InferenceBuilder.tsx:25 | `NextLetterNumber`: when every code parses, the next number is above all of them and is 1 or one more than an existing number; when one does not, `NaN \|\| 0` makes it 1 |
| Codes.NextNumberAfterRemoving | components/InferenceBuilder.tsx:25 | taking out the code numbered `m`, when every other code is below `m` and `m - 1` is among them (or `m` is 1), makes `m` the next number again |
| Codes.NextLetterCodeIsFresh | components/InferenceBuilder.tsx:25-28 | while every current code is readable, the code handed out is not among the current codes |
| DataCollection.Members | components/DataCollection.tsx:53-54 | the items of a group are exactly the data items the card's filter accepts |
| DataCollection.PillarData | components/DataCollection.tsx:53-59 | `pillarData` holds exactly the group's items, as a permutation of the group in data order, sorted by item number |
| DataCollection.MaxParsed | components/DataCollection.tsx:62-66 | `Math.max` over the numbers that parsed bounds every parsed number and is 0 or one of them |
| DataCollection.NextNumberBounds | components/DataCollection.tsx:61-67 | `NextNumber` (`getNextId`) is above the number of every code with a dash and a numeric tail, and is 1 or one more than such a number |
| DataCollection.NextNumberOfSameItems | components/DataCollection.tsx:61-67 | the next number depends only on which items are listed, not on their order |
| DataCollection.NextNumberOfPillarData | components/DataCollection.tsx:53-67 | applied to the sorted `pillarData` or to the group in data order, `getNextId` gives the same number |
| DataCollection.NewDataItemFacts | components/DataCollection.tsx:73-80 | a new item lands in the card's group, its code parses to (group, number), and its id is its code |
| DataCollection.AddDataManual | components/DataCollection.tsx:69-81 | a blank variable or value leaves the case unchanged; otherwise exactly one item is appended, the rest of the case is untouched, id equals code and content is `"<variable>: <value>"` trimmed |
| DataCollection.ManualNumbering | components/DataCollection.tsx:72-80 | the appended item is in the card's group and numbered by `getNextId` |
| DataCollection.AddDataBatch | components/DataCollection.tsx:129-142 | an empty batch changes nothing; otherwise one item per pair is appended in the order returned, ids equal codes, contents are `"<variable>: <value>"` untrimmed, nothing else changes |
| DataCollection.AddDataBatchFrom | components/DataCollection.tsx:129-142 | the handler as written: with a non-empty extraction the result is the case from when the button was pressed (its id, title, creation time, inferences, hypotheses and suggestions, `...caseData`) with its data followed by one item per pair, numbered from that case's `getNextId`, id equal to code, content `variable: value`; whatever the store held by then is dropped |
| DataCollection.StaleBatchDropsManualItem | components/DataCollection.tsx:130-142 | a manual item added while the request is pending is lost: the result has one item fewer than the batch on the current case, and its first batch item takes the manual item's code |
| DataCollection.BatchFromCurrentCase | components/DataCollection.tsx:130-142 | with no change in between, the as-written handler is the batch on the current case |
| DataCollection.BatchNumbering | components/DataCollection.tsx:130-133 | the i-th pair of a batch gets number `getNextId() + i` in the card's group |
| DataCollection.EditFields | components/DataCollection.tsx:207-212 | the edit form shows the text before the first colon (which holds no colon) and the trimmed text after it, or an empty value when there is no colon |
| DataCollection.EditFieldsRoundTrip | components/DataCollection.tsx:207-212 | for a trimmed variable without a colon, the edit form shows back the entered variable and value |
| DataCollection.SaveEdit | components/DataCollection.tsx:216-221 | saving changes only the content of the items with the edited id; ids, codes, pillars and victim indices stay, and nothing else in the case changes |
| DataCollection.NewVictimIndex | components/DataCollection.tsx:505-507 | the new victim index is above every victim index in use and is 1 or one more than a used index |
| DataCollection.RenameMap | components/DataCollection.tsx:176-186 | `codeChangeMap` never maps a code to itself and has an entry for every survivor whose code changes |
| DataCollection.RepairSources | components/DataCollection.tsx:189-191 | an inference's sources lose every occurrence of the deleted code and each remaining entry is looked up once in the map, in order |
| DataCollection.RepairInferences | components/DataCollection.tsx:188-194 | every inference keeps its place and gets repaired sources; nothing else in it changes |
| DataCollection.DeleteDataItem | components/DataCollection.tsx:153-202 | an unknown id changes nothing; a delete touches only the data and the inferences' sources, and keeps every inference's id, code and content |
| Lineage.CodeIsRank | components/DataCollection.tsx:61-80 | in a well-formed list each item's code is its rank within its group plus one |
| Lineage.CodesUnique | components/DataCollection.tsx:73-77 | no two data items of a well-formed list share a code |
| Lineage.IdsUnique | components/DataCollection.tsx:73-77 | no two data items of a well-formed list share an id |
| Lineage.NextNumberOfGroup | components/DataCollection.tsx:61-67 | on a well-formed list `getNextId` is the size of the group plus one |
| Lineage.AddManualKeepsWellFormed | components/DataCollection.tsx:69-81 | manual entry keeps the list well formed and the new item is number k + 1 of its group |
| Lineage.AddBatchKeepsWellFormed | components/DataCollection.tsx:129-142 | a batch of n pairs appends numbers k + 1 .. k + n of the group and keeps the list well formed |
| Lineage.MembersAfterBatch | components/DataCollection.tsx:129-142 | after a batch of n pairs the group holds n more members |
| Lineage.ManualAllShape | components/DataCollection.tsx:69-81 | entering trimmed pairs by hand one after another appends exactly the items a batch of those pairs would |
| Lineage.BatchIsSequentialManualAdds | components/DataCollection.tsx:69-142 | numbering a batch of trimmed, non-empty pairs equals entering them by hand one after the other |
| Lineage.SaveEditKeepsWellFormed | components/DataCollection.tsx:216-221 | saving an edit keeps the list well formed |
| Lineage.SaveUnchangedEditIsIdentity | components/DataCollection.tsx:207-221 | opening the edit form on a manually entered item and saving it unchanged leaves the case as it was |
| Lineage.SaveSameContent | components/DataCollection.tsx:216-221 | saving the content an item already has, under an id no other item shares, changes nothing |
| Lineage.NewVictimGroupEmpty | components/DataCollection.tsx:505-507 | no listed item belongs to the victim index `handleAddVictim` hands out |
| Lineage.NewVictimStartsAtOne | components/DataCollection.tsx:505-510 | the first item entered for a new victim is numbered 1 |
| Deletion.DeleteShape | components/DataCollection.tsx:161-201 | on a well-formed case the result is the other groups' items in their order, then the survivors of the group in their order, renumbered from 1 |
| Deletion.SortedSurvivorsAreCut | components/DataCollection.tsx:168-174 | the sort of the survivors leaves them in data order: they are the group without the deleted member |
| Deletion.RenameMapIsRepoint | components/DataCollection.tsx:176-191 | looking a code up in `codeChangeMap` moves a code of the group numbered above the deleted one down by one and leaves every other text alone |
| Deletion.DeleteRepairsReferences | components/DataCollection.tsx:188-194 | every inference's new sources are its old sources without the deleted code, each moved once (no chaining) |
| Deletion.DeleteKeepsWellFormed | components/DataCollection.tsx:153-202 | a delete on a well-formed case leaves a well-formed case |
| Deletion.DeleteRemovesOneItem | components/DataCollection.tsx:153-196 | a delete of a listed id removes exactly one item |
| Deletion.DeletePreservesItem | components/DataCollection.tsx:164-196 | every other item survives with its content, pillar and victim index, under the code its old code is re-pointed to |
| Deletion.MembersAfterDelete | components/DataCollection.tsx:161-196 | the deleted item's group has one member fewer |
| Deletion.DeleteKeepsCitationsResolving | components/DataCollection.tsx:153-202 | a reference an inference held to a surviving item still leads, after the delete, to an item with that item's content and group |
| Deletion.DeletedCodeIsReissued | components/DataCollection.tsx:153-205 | after deleting the last item of a group, the next item entered there receives the deleted item's code |
| Selection.Toggle | components/InferenceBuilder.tsx:15-19 | a selected code is removed (every occurrence), an unselected one appended at the end; membership flips for that code only |
| Selection.ToggleTwiceRestores | components/HypothesisBuilder.tsx:15-19 | toggling an absent code twice restores the selection |
| Selection.ToggleKeepsNoDuplicates | components/InferenceBuilder.tsx:15-19 | a selection built by toggles never lists a code twice |
| Selection.ToggleRemovesInPlace | components/InferenceBuilder.tsx:15-19 | on a selection without duplicates, unselecting a code cuts it out of its place and keeps the others in order |
| Inferences.InferenceByCode | components/HypothesisBuilder.tsx:49-51 | the lookup returns the first inference in list order with the code, or none exactly when no inference has the code |
| Inferences.InferenceByCodeUnique | components/HypothesisBuilder.tsx:49-51 | with unique codes the lookup finds the one inference carrying the code |
| Inferences.DataItemByCode | components/InferenceBuilder.tsx:59-61 | the lookup returns the first item in list order with the code, or none exactly when no item has it |
| Inferences.DataItemByCodeUnique | components/InferenceBuilder.tsx:59-61 | on a well-formed list the lookup finds the one item carrying the code |
| Inferences.IsUsedInHypothesis | components/InferenceBuilder.tsx:46 | the scan answers true exactly when some hypothesis cites the code |
| Inferences.AddInferenceAsWritten | components/InferenceBuilder.tsx:21-36 | blank text or an empty selection changes nothing; otherwise exactly one inference is appended, with id `INF-<now>`, code `I<n>` where `n` is `NextInferenceNumber` (one more than the largest current number, see `Codes.NextLetterNumberBounds`), the trimmed text and the selection; data and hypotheses are untouched, and the form clears |
| Inferences.AsWrittenCodeFreshAmongInferences | components/InferenceBuilder.tsx:25-28 | the new code differs from the current inference codes while all are readable, and is `I1` once one is not |
| Inferences.FreshInferenceNumber | components/InferenceBuilder.tsx:25 | the corrected number gives a code no inference has and no hypothesis cites |
| Inferences.AddInference | components/InferenceBuilder.tsx:21-36 | as the add handler, with a new code that is neither a current inference code nor cited by a hypothesis |
| Inferences.AddInferenceKeepsCodesUnique | components/InferenceBuilder.tsx:25-35 | the add handler as written keeps inference codes unique and readable, given they were so before |
| Inferences.FreshAddKeepsCodesUnique | components/InferenceBuilder.tsx:25-35 | the add with the corrected numbering keeps inference codes unique and readable too |
| Inferences.AddInferenceKeepsCitations | components/InferenceBuilder.tsx:25-35 | the add with the corrected numbering leaves every cited code resolving where it did |
| Inferences.DeleteInferencePrompt | components/InferenceBuilder.tsx:42-51 | an unknown id gives no prompt; otherwise the warning variant is chosen exactly when a hypothesis cites the inference's code |
| Inferences.DeleteInference | components/InferenceBuilder.tsx:42-56 | an unknown id or a declined prompt changes nothing; a confirmed delete keeps exactly the inferences with another id and leaves hypotheses and data untouched |
| Inferences.DeleteUndoesAdd | components/InferenceBuilder.tsx:21-56 | deleting the inference the add handler as written just added, by its fresh id, restores the case |
| Inferences.DeleteUndoesSubmit | components/InferenceBuilder.tsx:21-56 | whatever number the add used, deleting the new inference by its fresh id restores the case |
| Inferences.DeleteInferenceRemovesInPlace | components/InferenceBuilder.tsx:53-55 | with unique ids a confirmed delete cuts the one inference out of its place and keeps the others in order |
| Inferences.DeleteWarnsIffLinkBreaks | components/InferenceBuilder.tsx:46-54 | with unique ids and codes, the prompt warns exactly when the confirmed delete leaves some hypothesis citation resolving to nothing |
| Inferences.DeleteLeavesDanglingCitation | components/InferenceBuilder.tsx:53-55 | after deleting a cited inference, the citing hypothesis is still listed and its citation resolves to no inference |
| Inferences.ReissuedCodeCapturesCitation | components/InferenceBuilder.tsx:21-57 | a concrete run: delete `I2`, which `H1` cites; the prompt warns. Add a new inference: it is numbered `I2` again, and `H1` now resolves to the new text |
| Inferences.AsWrittenReissuesDeletedCode | components/InferenceBuilder.tsx:21-56 | for any case with unique ids and readable codes: deleting the inference `I<m>` numbered above every other (with `I<m-1>` present, or `m` = 1) and then adding one gives the new inference the deleted code `I<m>` |
| Inferences.FreshCodeKeepsCitationBroken | components/InferenceBuilder.tsx:25 | with the corrected numbering the same run leaves `H1`'s citation unresolved |
| Hypotheses.AddHypothesis | components/HypothesisBuilder.tsx:21-36 | blank text or an empty selection changes nothing; otherwise exactly one hypothesis is appended, with id `HYP-<now>`, code `H<n>` where `n` is one more than the largest current hypothesis number (see `Codes.NextLetterNumberBounds`), the trimmed text and the selection; data and inferences are untouched, and the form clears |
| Hypotheses.AddHypothesisKeepsCodesUnique | components/HypothesisBuilder.tsx:25-28 | while hypothesis codes are readable, a new one gets a code no other has; codes stay unique and readable |
| Hypotheses.UnreadableCodeRestartsNumbering | components/HypothesisBuilder.tsx:25 | one unreadable hypothesis code makes the next code `H1` |
| Hypotheses.DeleteHypothesis | components/HypothesisBuilder.tsx:42-46 | a declined prompt changes nothing; a confirmed delete keeps exactly the hypotheses with another id and nothing else changes |
| Hypotheses.DeleteHypothesisRemovesInPlace | components/HypothesisBuilder.tsx:42-46 | with unique ids a confirmed delete cuts the one hypothesis out of its place and keeps the others in order |
| Hypotheses.DeleteHypothesisCount | components/HypothesisBuilder.tsx:44 | the survivors and the dropped hypotheses together are as many as before |
| Hypotheses.DeleteUndoesAddHypothesis | components/HypothesisBuilder.tsx:21-46 | deleting a just-added hypothesis by its fresh id restores the case |
| CaseStore.NewCase | App.tsx:13-21 | a new case has the clock-derived id, the title `Nuevo Caso - <local time>`, the ISO creation time, and empty data, inferences, hypotheses and suggestions |
| CaseStore.CreateNewCase | App.tsx:12-24 | exactly the new empty case `NewCase` is appended after the unchanged list and made active |
| CaseStore.SelectCase | App.tsx:26-31 | an unknown id changes nothing; a known id opens the first listed case with that id; the list is unchanged |
| CaseStore.UpdateCase | App.tsx:33-36 | the update is shown, and replaces exactly the listed cases with its id; length and ids stay |
| CaseStore.GoBackToDashboard | App.tsx:38-40 | the case view closes and the list stays |
| CaseStore.CreateKeepsConsistent | App.tsx:12-24 | a fresh clock id keeps case ids unique and the open case listed |
| CaseStore.UpdateKeepsConsistent | App.tsx:33-36 | updating the open case keeps the store consistent |
| CaseStore.SelectAfterUpdate | App.tsx:26-36 | once a case with the updated id is listed, reopening it shows the updated version, whether or not ids are unique: `map` writes every match and `find` returns the first |
| CaseStore.UpdateIdempotent | App.tsx:33-36 | applying the same update twice is applying it once |
| CaseStore.UpdateOfUnlistedCaseIsNotStored | App.tsx:33-36 | an update for an unlisted case leaves the list unchanged |
| Engine.NewCaseSatisfiesInvariant | App.tsx:13-21 | a new case satisfies the case invariant |
| Engine.ApplyKeepsInvariant | components/DataCollection.tsx:69-221 | every handler as written keeps the case invariant: well-formed data, unique readable inference codes, unique readable hypothesis codes; the same holds for the handlers at components/InferenceBuilder.tsx:21-56, components/HypothesisBuilder.tsx:21-46 and components/ReportGenerator.tsx:12-14 |
| Engine.Apply | components/DataCollection.tsx:69-221 | each handler writes only its own part of the case (`...caseData`): id, title and creation time never change; data handlers change only the data, a data delete only data and inferences, inference handlers only inferences, hypothesis handlers only hypotheses, and the suggestions editor only the suggestions; the same holds for the handlers at components/InferenceBuilder.tsx:21-56, components/HypothesisBuilder.tsx:21-46 and components/ReportGenerator.tsx:12-14 |
| Engine.ApplyAllKeepsInvariant | components/DataCollection.tsx:69-221 | every run of handlers keeps the case invariant; the same holds for the handlers at components/InferenceBuilder.tsx:21-56, components/HypothesisBuilder.tsx:21-46 and components/ReportGenerator.tsx:12-14 |
| Engine.ApplyCorrectedKeepsInvariant | components/InferenceBuilder.tsx:21-36 | with the corrected inference numbering every handler keeps the case invariant as well |
| Engine.StepNeverRedirectsCitation | components/InferenceBuilder.tsx:21-56 | with the corrected inference numbering no handler makes a cited inference code resolve to a different inference; it can only stop resolving |
| Engine.RunNeverRedirectsCitation | components/InferenceBuilder.tsx:21-56 | with the corrected numbering, over a run during which a code stays cited, it ends up naming the inference it named at the start, or none |
| Engine.UnresolvedStaysUnresolved | components/InferenceBuilder.tsx:21-56 | with the corrected numbering, once a cited code resolves to nothing it keeps resolving to nothing |
| Engine.AsWrittenStepRevivesCitation | components/InferenceBuilder.tsx:25-35 | the handlers as written break that: a case satisfying the invariant, with `H1` citing the deleted `I2`, has `I2` resolve to the next added inference |
| Engine.ApplyToActive | App.tsx:33-36 | a handler on the open case shows the changed case, replaces every listed case with its id by it, keeps the others, the list length and every id; with no open case nothing happens |
| Engine.ApplyToActiveKeepsStoreInvariant | App.tsx:33-36 | every handler applied through the store keeps the store invariant |
| Engine.CreateKeepsStoreInvariant | App.tsx:12-24 | creating a case with a fresh id keeps the store invariant |
| Engine.SelectAndBackKeepStoreInvariant | App.tsx:26-40 | selecting a case and going back keep the store invariant |
| Report.DataByPillar | components/ReportGenerator.tsx:20 | the items of one pillar are exactly the items with that pillar |
| Report.DataByPillarAppend | components/ReportGenerator.tsx:20 | the pillar's items of a joined list are those of the front followed by those of the back, so data order is kept |
| Report.DataByPillarSnoc | components/ReportGenerator.tsx:20 | an item added at the end shows last among its own pillar's items and in no other pillar |
| Report.VictimKey | components/ReportGenerator.tsx:28 | `item.victimIndex \|\| 1`: the heading is the victim index when that is positive, and 1 when the index is missing or 0 |
| Report.VictimSections | components/ReportGenerator.tsx:27-36 | the blocks have strictly ascending positive headings and none is empty |
| Report.VictimSectionsListEachVictimOnce | components/ReportGenerator.tsx:27-34 | the victim blocks together list every victim item exactly once |
| Report.VictimItemInItsSection | components/ReportGenerator.tsx:27-34 | each victim item sits in the block headed by its own key |
| Report.SectionsListEachItemOnce | components/ReportGenerator.tsx:27-34 | the blocks up to heading k list exactly the victim items headed up to k, each once |
| Report.PillarsPartitionData | components/ReportGenerator.tsx:78 | the four pillars split the data: every item lies in exactly one of them |
| Report.ReportListsEveryItemOnce | components/ReportGenerator.tsx:78-92 | `ReportedData`, the data section in pillar order Victim, Scene, Reconstruction, Author, lists every item of the case exactly once |
| Report.DataSourceLine | components/ReportGenerator.tsx:106-108 | a source line shows the cited code with the content of the first item carrying it, and no text when none does |
| Report.InferenceSourceLine | components/ReportGenerator.tsx:127-129 | a hypothesis source line shows the cited code with the content of the first inference carrying it, and no text when none does |
| Report.InferenceSourceLines | components/ReportGenerator.tsx:106-108 | one line per cited data code, in citation order |
| Report.HypothesisSourceLines | components/ReportGenerator.tsx:127-129 | one line per cited inference code, in citation order |
| Report.DataSourceLineShowsItem | components/ReportGenerator.tsx:106-108 | on a well-formed case a data code shows the content of its one item |
| Report.InferenceSourceLineShowsInference | components/ReportGenerator.tsx:127-129 | with unique codes an inference code shows the content of its one inference |
| Report.ReportKeepsSourceTextAfterDelete | components/ReportGenerator.tsx:106-108 | after a data delete, the report still shows under an inference the content of every surviving item it cited |
| Report.SetSuggestions | components/ReportGenerator.tsx:12-14 | only the suggestions change |
| Text.Trim | components/DataCollection.tsx:71 | `trim`: the result has no surrounding whitespace, is empty exactly for all-whitespace input, and leaves trimmed input alone |
| Text.TrimRemovesSurroundingSpace | components/DataCollection.tsx:71 | the trimmed text is a slice of the input with only whitespace before it and after it, so `trim` removes the surrounding whitespace and nothing else |
| Text.NatToStringRoundTrip | components/DataCollection.tsx:73 | the decimal rendering of a number reads back as that number |
| Text.ParseIntOfNat | components/DataCollection.tsx:64 | `parseInt` of a rendered number is that number |
| Text.ParseIntReadsLeadingNumber | components/DataCollection.tsx:64 | `ParseInt` (`parseInt(s, 10)`) of whitespace, then a non-empty run of digits, then text not starting with a digit, is the value of those digits |
| Text.ParseIntWithoutDigits | components/InferenceBuilder.tsx:25 | `ParseInt` of whitespace followed by nothing, or by a character that is neither whitespace nor a digit, is `NaN` (`None`) |
| Text.LastSegmentOfJoin | components/DataCollection.tsx:56 | `split('-').pop()` of `head-tail`, with no dash in the tail, is the tail |
| Text.LastSegment | components/DataCollection.tsx:56 | `split(ch).pop()` is the longest suffix without `ch`: it holds no `ch`, and the character before it, if any, is `ch` |
| Text.RemoveFirstAt | components/InferenceBuilder.tsx:25 | `replace(ch, '')` with `ch` first at position `p` removes exactly that character, keeping the text before and after |
| Text.RemoveFirstAbsent | components/InferenceBuilder.tsx:25 | `replace(ch, '')` on text without `ch` leaves it as it is |
| Text.SplitAtFirst | components/DataCollection.tsx:209-211 | the head is the colon-free prefix; the rest is what follows the first colon, or empty |
| Sorting.SortBy | components/DataCollection.tsx:170-174 | the sort returns a permutation of its input ordered by the key |
| Sorting.SortOfSortedIsIdentity | components/DataCollection.tsx:170-174 | sorting a list that is already ordered by the key leaves it as it is |
| Sorting.SortByIsStable | components/DataCollection.tsx:170-174 | the sort is stable, as `Array.prototype.sort` is: for every key, the elements with that key keep their input order |
| Sorting.InsertByKeepsKeyOrder | components/DataCollection.tsx:170-174 | inserting an element puts it first among the elements of its key and leaves every key's other elements in order |

## Left out

- The extraction service call of `handleAiBreakdown` (prompt, response schema, `JSON.parse`) is a foreign remote call. The returned (variable, value) pairs are a parameter of `AddDataBatch`.
- `handleGenerateProfile` is another remote call and is not modelled.
- `window.confirm` is modelled as a `confirmed` flag, or by treating the deletes the engine applies as confirmed ones. `window.print` is left out.
- `Date.now()`, `toLocaleString` and `toISOString` are parameters: a clock reading `now` and two strings.
- Rendering, modals, view modes, tabs and the edit form's UI state are left out. The inference and hypothesis forms are modelled as a `Draft` (text and selection) only.
- The groups a card offers come from rendering (a victim card always carries a positive index). `ValidGroup` states that as a precondition of the engine's add actions.
- `trim` treats only space, tab, carriage return and line feed as whitespace, not the full Unicode set.
- `parseInt` is modelled on non-negative decimal digits: a sign, `0x` and precision above 2^53 are not modelled.
- The comparator of the renumbering sort returns NaN for an unparsable code tail; the model reads that tail as key 0. On well-formed lists every tail parses, so nothing proved depends on this.
- `codeChangeMap` is a plain object, so JavaScript prototype keys such as `constructor` could be read from it. The model uses a finite map without them.
- The clock-based ids of new cases, inferences and hypotheses are assumed not to collide with existing ids where a lemma needs it (`CreateKeepsConsistent`, `DeleteUndoesAdd`, `DeleteUndoesAddHypothesis`).
- `getNextId` reads the sorted `pillarData`; the handlers in the model read the group in data order. `DataCollection.NextNumberOfPillarData` proves the two give the same number.
- Codes are not reserved: a new data, inference or hypothesis code is one more than the largest number among the current list, so a deleted code is handed out again. The model keeps that behaviour (`Deletion.DeletedCodeIsReissued` for data items, `Inferences.ReissuedCodeCapturesCitation` and `Inferences.AsWrittenReissuesDeletedCode` for inferences); only the corrected inference machine of "## Findings" avoids codes hypotheses still cite.
- AddDataBatch: the engine applies the batch to the case the store holds when the extraction response arrives, as if nothing happened while the request was pending. The handler itself appends to the case it captured when the button was pressed; `AddDataBatchFrom` models that, and "## Findings" shows the manual item it loses.

## Findings

| source | as written | input that shows it | evidently intended | confidence | as-written member | corrected member |
|---|---|---|---|---|---|---|
| components/InferenceBuilder.tsx:25 | the next inference number is one more than the largest number among the current inference codes only | a case with `I1`, `I2` and `H1` citing `I2`: delete `I2` (the prompt warns the link will break), then add an inference; it is numbered `I2` and `H1` silently cites the new, unrelated inference | a new code should also avoid the codes hypotheses still cite, so a broken link stays visibly broken | not executed; medium, the prompt text at lines 49-50 says the link breaks | Inferences.AddInferenceAsWritten, Inferences.ReissuedCodeCapturesCitation, Inferences.AsWrittenReissuesDeletedCode, Engine.AsWrittenStepRevivesCitation | Inferences.AddInference, Inferences.FreshInferenceNumber, Inferences.AddInferenceKeepsCitations, Inferences.FreshCodeKeepsCitationBroken, Engine.StepNeverRedirectsCitation, Engine.RunNeverRedirectsCitation |
| components/DataCollection.tsx:130-142 | the batch handler numbers and appends onto `caseData` as captured when the button was pressed, after two awaited service calls; only the extraction text box and button are disabled meanwhile (lines 312-313), not the manual form (line 321) | press the extraction button, add an item by hand before the response arrives, then the response comes back with pairs: the result is the pressed-time case plus the batch, the manual item is gone, and the first batch item takes its code | the batch should be numbered against and appended to the case as it is when the response arrives | not executed; medium, the lost update needs the manual submit to land inside the request window | DataCollection.AddDataBatchFrom, DataCollection.StaleBatchDropsManualItem | DataCollection.AddDataBatch, DataCollection.BatchNumbering |
