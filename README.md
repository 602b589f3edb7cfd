# SharePoint → Ekialis reconciliation, modelled in Dafny

This project models the reconciliation engine of the API_Ekialis_Excel
service. The service keeps an Ekialis application registry in line with a
SharePoint list, and SharePoint is the source of truth.

The same engine is copied into several controller actions and into the
background service. Every copy does three things:

- **Normalised snapshots.** It builds one snapshot of each side, keyed by the
  trimmed, lower-cased software name. Only Ekialis components of class "1"
  count. Only SharePoint items with a non-empty `Title` count.
- **Differences and intersections.** It compares the two key sets.
- **Convergence loops.** It adds the missing software. It overwrites or adds
  characteristics, with SharePoint winning. It paints obsolete components red
  (`FF0000`), skipping those already red. Each loop tallies successes and
  failures.

Around the engine the model also covers:

- the field-mapping table;
- the background run loop;
- the CSV export;
- the two text reports;
- the Excel-row import;
- the field projection and the add payload of the SharePoint client.

Modules follow the source files:

| module | file(s) | models |
|---|---|---|
| `FieldMapping` | field_mapping.dfy | Models/FieldMapping.cs |
| `Records` | records.dfy | the typed records read from both registries, the remote calls, the HTTP answers |
| `Text`, `Collections` | text.dfy, collections.dfy | .NET string operations (`Trim`, `ToLower`, `Split`, `Join`, ordinal `OrderBy`) and LINQ filters |
| `Snapshots` | snapshots.dfy | the snapshot loops shared by the controllers |
| `Phases` | phases.dfy | the three convergence loops and the Ekialis → SharePoint transfer |
| `SynchronizationController` | synchronization_controller.dfy | Controllers/SynchronizationController.cs |
| `OperationsController` | operations_controller.dfy | Controllers/OperationsController.cs |
| `ComparaisonController` | comparaison_controller.dfy | Controllers/ComparaisonController.cs |
| `BackgroundService` | background_service.dfy | Services/SynchronizationBackgroundService.cs |
| `SharePointRestService` | sharepoint_rest_service.dfy | Services/SharePointRestService.cs |
| `ExportService` | export_service.dfy | Services/ExportService.cs |
| `SharePointController` | sharepoint_controller.dfy | Controllers/SharePointController.cs |
| `EkialisController` | ekialis_controller.dfy | Controllers/EkialisController.cs |

Each snapshot and each loop is a method with a `foreach`-shaped loop. The
method is proved equal to a specification function, and lemmas state what
that function means.

Every remote write is answered by an oracle `accept: nat -> bool`:
`accept(k)` is the success flag of the k-th remote call of a phase. Each
phase returns the calls it made as a `seq<Call>`, so contracts can say
which calls are made, how many, and with what arguments.

What a phase reads (the components array and the SharePoint items) is a
`Fetch` parameter: either the typed records, or the exception raised on the
way. Reading the components can raise: parsing the array (`JArray.Parse`),
or converting or indexing a field of one of its elements (`ToObject<int>()` on
an `id` that is null, not an integer or outside 32 bits; `item["componentClass"]`
on an element that is not an object). The SharePoint read can raise too. All
of these happen in the read loops, before any write. A failed Ekialis read
answers `"[]"`, which arrives as no components. The login's answer is a `bool` parameter.

Notes on the code:

- **Each phase reads both registries afresh.** Every phase of a controller or
  of the background service fetches both sides again, so each phase has its
  own `Fetch`.
- **The add-to-Ekialis test is not normalised.** An item counts as missing
  when its raw `Title`, lower-cased but not trimmed, is not an Ekialis name.
  A title padded with white space is therefore always missing
  (`Phases.PaddedTitleIsMissing`).
- **The Excel import writes only the title.** `ImportExcelVersSharePoint` hands
  SharePoint field names to `AddItemToSharePointAsync`. That method expects
  Ekialis characteristic names and drops every key it cannot map. So whatever
  the sheet holds, only the title reaches SharePoint
  (`OperationsController.ImportWritesOnlyTitle`).
- **The background characteristic phase is a stub.** It returns `(0, 0, 0)`
  and makes no call, and the model states exactly that.

## Model

| member | source | states |
|---|---|---|
| FieldMapping.IsFieldMapped | Models/FieldMapping.cs:50-53 | a SharePoint field is mapped exactly when it is one of field_1, field_2, field_3, field_6 |
| FieldMapping.IsCharacteristicMapped | Models/FieldMapping.cs:55-58 | an Ekialis characteristic is mapped exactly when it is one of the four mapped names |
| FieldMapping.GetEkialisCharacteristic | Models/FieldMapping.cs:40-43 | the lookup answers exactly for mapped fields, with a mapped, non-empty characteristic that maps back to the field |
| FieldMapping.GetSharePointField | Models/FieldMapping.cs:45-48 | the lookup answers exactly for mapped characteristics, with a mapped field that maps back to the characteristic |
| FieldMapping.LookupsAreInverse | Models/FieldMapping.cs:40-48 | each lookup undoes the other, in both directions |
| FieldMapping.TablesAreInverse | Models/FieldMapping.cs:6-22 | every pair of one table appears reversed in the other |
| FieldMapping.FourPairs | Models/FieldMapping.cs:6-13 | the tables hold exactly four pairs, keyed by field_1, field_2, field_3, field_6 |
| FieldMapping.ValuesAreKeys | Models/FieldMapping.cs:6-22 | the values of each table are exactly the keys of the other |
| FieldMapping.ListedButNotMapped | Models/FieldMapping.cs:25-28 | Title and field_9 are listed as mapped fields yet `IsFieldMapped` is false for them; every listed field that is mapped is a table key |
| FieldMapping.CharacteristicListIsKeySet | Models/FieldMapping.cs:31-37 | the listed characteristics are exactly the keys of `EkialisToSharePoint`, without repetition |
| Text.TrimMeaning | Controllers/SynchronizationController.cs:150 | a trimmed name has no white space at either end, and is empty exactly when the name is blank |
| Text.NormalizeMeaning | Controllers/SynchronizationController.cs:150-153 | a key is empty exactly when the name is blank, and otherwise has no white space at its ends |
| Text.NormalizeIdempotent | Controllers/SynchronizationController.cs:150-153 | normalising a key again leaves it unchanged |
| Text.SortBy | Controllers/ComparaisonController.cs:39 | `OrderBy` yields a permutation of its input, sorted ordinally by the key |
| Text.SortByStable | Controllers/EkialisController.cs:79 | `OrderBy` keeps the input order of the elements sharing a key |
| Collections.DistinctPrefix | Controllers/ComparaisonController.cs:38 | `Distinct` keeps first-occurrence order: the distinct elements of every prefix begin the result, in the same order |
| Text.SplitJoin | Services/SharePointRestService.cs:104-105 | joining pieces free of the separator and splitting the result gives the pieces back |
| Snapshots.EkialisNamesSnoc | Controllers/SynchronizationController.cs:145-155 | one more component adds its normalised name exactly when it is software with a non-blank name |
| Snapshots.CollectEkialisNames | Controllers/SynchronizationController.cs:144-155 | the name loop builds exactly the Ekialis name set |
| Snapshots.EkialisNamesAreKeys | Controllers/SynchronizationController.cs:145-155 | a name is in the set exactly when it is the normalised name of a class "1" component with a non-blank name; each is a non-empty normalised key |
| Snapshots.SharePointNamesAreKeys | Controllers/SynchronizationController.cs:363-368 | a name is in the SharePoint set exactly when it is the normalised form of a non-blank Title; each is a non-empty normalised key |
| Snapshots.CollectSharePointSoftware | Controllers/SynchronizationController.cs:159-176 | the loop keeps exactly the items with a non-blank Title, in order, each copied whole |
| Snapshots.EkialisSoftware | Controllers/SynchronizationController.cs:376-391 | every entry of the marking list has a positive id and a non-empty name |
| Snapshots.EkialisSoftwareSnoc | Controllers/SynchronizationController.cs:378-391 | one more component adds its entry exactly when it is software with a positive id and a non-blank name |
| Snapshots.EkialisSoftwareMember | Controllers/SynchronizationController.cs:387-390 | every markable component has an entry, and every entry comes from a markable component |
| Snapshots.CollectEkialisSoftware | Controllers/SynchronizationController.cs:376-391 | the loop builds exactly the marking list |
| Snapshots.ValuesOf | Controllers/SynchronizationController.cs:235-249 | a characteristic enters the snapshot only when it is mapped and both its value id and its id are positive |
| Snapshots.EkialisRegistry | Controllers/SynchronizationController.cs:223-252 | no registered component has id 0 |
| Snapshots.EkialisRegistryKeys | Controllers/SynchronizationController.cs:223-252 | the registry keys are exactly the normalised names of class "1" components with a non-blank name and a non-zero id |
| Snapshots.ValuesLastWins | Controllers/SynchronizationController.cs:244-247 | of several admitted characteristics of one name, the registry keeps the last |
| Snapshots.RegistryLastWins | Controllers/SynchronizationController.cs:251 | of several registered components of one normalised name, the registry keeps the last |
| Snapshots.CollectValues | Controllers/SynchronizationController.cs:235-249 | the inner loop builds exactly the characteristic snapshot of a component |
| Snapshots.CollectEkialisRegistry | Controllers/SynchronizationController.cs:221-252 | the loop builds exactly the Ekialis registry |
| Snapshots.FieldsWithStep | Controllers/SynchronizationController.cs:266-280 | visiting one more field adds its characteristic exactly when the field is mapped, is not Title and its trimmed value is not empty |
| Snapshots.FieldsOverStep | Controllers/SynchronizationController.cs:266-280 | the same step, stated with the real mapping tables |
| Snapshots.FieldsOfMeaning | Controllers/SynchronizationController.cs:266-280 | every counting field puts its trimmed value under its characteristic, and `champs` holds nothing else |
| Snapshots.CollectFields | Controllers/SynchronizationController.cs:265-280 | the field loop of one item builds exactly `champs` |
| Snapshots.CollectTrimmedFields | Controllers/SynchronizationController.cs:266-280 | the field loop, in any dictionary order, builds the same map |
| Snapshots.SharePointRegistryKeys | Controllers/SynchronizationController.cs:258-283 | the SharePoint registry keys are exactly the normalised titles of the items with a non-blank title |
| Snapshots.CollectSharePointRegistry | Controllers/SynchronizationController.cs:256-283 | the loop builds exactly the SharePoint registry |
| Snapshots.CatalogueValues | Controllers/OperationsController.cs:151-166 | a characteristic is copied only when its name is mapped and its value is not blank |
| Snapshots.CatalogueKeysAreNames | Controllers/OperationsController.cs:139-169 | the Ekialis → SharePoint catalogue is keyed by exactly the Ekialis name set |
| Snapshots.CatalogueValuesAreMapped | Controllers/OperationsController.cs:158-163 | every characteristic of a catalogue entry is mapped |
| Snapshots.CollectCatalogueValues | Controllers/OperationsController.cs:151-166 | the inner loop builds exactly the copied characteristics |
| Snapshots.CollectEkialisCatalogue | Controllers/OperationsController.cs:139-169 | the loop builds exactly the catalogue |
| Phases.ToEkialisCounters | Controllers/SynchronizationController.cs:184-205 | `ajoutsReussis + ajoutsEchecs == logicielsManquants`, and the missing count is at most the SharePoint total |
| Phases.AddsStep | Controllers/SynchronizationController.cs:187-196 | each add appends exactly the call for the next missing item |
| Phases.AddMissingToEkialis | Controllers/SynchronizationController.cs:178-205 | exactly one `AddItemToEkialisAsync(Title, item)` per missing item, in order, and the response counters |
| Phases.AddEachToEkialis | Controllers/SynchronizationController.cs:187-196 | the add loop makes one call per item and counts the oracle's answers |
| Phases.MissingInEkialisIff | Controllers/SynchronizationController.cs:161-181 | an item is missing exactly when it has a non-blank Title whose raw lower case is not an Ekialis name |
| Phases.ToLowerKeepsEdges | Controllers/SynchronizationController.cs:180 | lower-casing keeps white space at the ends where it is |
| Phases.PaddedTitleIsMissing | Controllers/SynchronizationController.cs:161-181 | a title with white space at either end is always reported missing |
| Phases.TrimmedTitleIsComparedNormalised | Controllers/SynchronizationController.cs:179-181 | for a title without padding, the raw test agrees with the normalised key |
| Phases.ActionFor | Controllers/SynchronizationController.cs:307-333 | the call for a field writes the SharePoint value to that component and characteristic, as an update or an add |
| Phases.TallyOf | Controllers/SynchronizationController.cs:289-333 | every call is counted once, and the successes are the oracle's accepted calls |
| Phases.CharCounters | Controllers/SynchronizationController.cs:337-343 | `logicielsCommuns` is the number of common keys, and the three counters add up to the calls |
| Phases.TallySplit | Controllers/SynchronizationController.cs:306-332 | `caracteristiquesModifiees` is the number of accepted updates and `caracteristiquesAjoutees` the number of accepted adds |
| Phases.CharCountersSplit | Controllers/SynchronizationController.cs:306-343 | the response's modified count is the accepted updates, its added count the accepted adds, its errors the refused calls |
| Phases.PlannedFieldsStep | Controllers/SynchronizationController.cs:300-334 | one more field adds its call exactly when the value must change |
| Phases.PlannedKeysStep | Controllers/SynchronizationController.cs:293-335 | one more common key adds the calls of its fields |
| Phases.PlannedDisjoint | Controllers/SynchronizationController.cs:293-335 | calls of different keys or fields are different calls, so none is made twice |
| Phases.FieldStep | Controllers/SynchronizationController.cs:300-334 | visiting a field extends the calls made by its call exactly when it is needed |
| Phases.KeyStep | Controllers/SynchronizationController.cs:293-335 | after all fields of a key are visited, the key's calls are all made |
| Phases.ReconcileFields | Controllers/SynchronizationController.cs:300-334 | the field loop of one key makes exactly that key's planned calls |
| Phases.ReconcileCharacteristics | Controllers/SynchronizationController.cs:286-343 | every planned write is made exactly once, every common key is visited once, and the counters tally the answers |
| Phases.CountOutcomes | Controllers/SynchronizationController.cs:289-333 | the counter increments compute the tally |
| Phases.SyncCharacteristics | Controllers/SynchronizationController.cs:217-343 | the whole phase: its calls are a permutation of the planned writes of the two registries |
| Phases.PerFieldRule | Controllers/SynchronizationController.cs:300-334 | an equal value makes no call, a different one the update call, an absent one the add call |
| Phases.PlannedTouchesOnlyCommonKeys | Controllers/SynchronizationController.cs:293-334 | every write targets a common key and carries that key's own SharePoint value |
| Phases.NothingPlannedIffConverged | Controllers/SynchronizationController.cs:307-323 | no write is made exactly when Ekialis already agrees with SharePoint |
| Phases.SyncIsIdempotent | Controllers/SynchronizationController.cs:300-334 | after a fully successful phase, a second phase writes nothing |
| Phases.SyncKeepsUnmentionedValues | Controllers/SynchronizationController.cs:300-334 | a successful phase keeps every Ekialis value SharePoint does not mention |
| Phases.ColorCalls | Controllers/SynchronizationController.cs:406-430 | there are at most as many colour calls as obsolete entries |
| Phases.AlreadyRed | Controllers/SynchronizationController.cs:411-416 | the entries already red and the colour calls together account for every obsolete entry |
| Phases.MarkCounters | Controllers/SynchronizationController.cs:403-439 | `marquagesReussis + marquagesEchecs == logicielsObsoletes`, and already-red entries count as successes |
| Phases.PaintRed | Controllers/SynchronizationController.cs:403-430 | one `UpdateComponentColorAsync(id, "FF0000")` per entry not already red, in order; already-red entries are successes without a call |
| Phases.MarkObsoleteRed | Controllers/SynchronizationController.cs:362-439 | the marking phase makes the colour calls of the obsolete list and answers its counters |
| Phases.ObsoleteIff | Controllers/SynchronizationController.cs:387-398 | a class "1" component with a positive id and a non-blank name is obsolete exactly when its key is not a SharePoint name |
| Phases.ColorCallsMeaning | Controllers/SynchronizationController.cs:411-418 | every colour call paints a non-red obsolete entry red, and no call is made exactly when all are red |
| Phases.RedIsRed | Controllers/SynchronizationController.cs:411 | "FF0000" itself counts as already red |
| Phases.Painted | Controllers/SynchronizationController.cs:418 | after successful painting, every obsolete entry has colour "FF0000" |
| Phases.RepaintMakesNoCall | Controllers/SynchronizationController.cs:411-418 | marking again after a successful marking makes no call |
| Phases.ToSharePointCounters | Controllers/OperationsController.cs:186-207 | `ajoutsReussis + ajoutsEchecs == logicielsManquants`, and the missing count is at most the Ekialis total |
| Phases.MissingInSharePointIff | Controllers/OperationsController.cs:173-182 | a key is missing in SharePoint exactly when it is an Ekialis name and not a SharePoint name |
| Phases.SendsStep | Controllers/OperationsController.cs:190-199 | each add appends the call for the next key with its catalogue entry |
| Phases.AddMissingToSharePoint | Controllers/OperationsController.cs:171-207 | one `AddItemToSharePointAsync(key, characteristics)` per missing key, each key once, under its lower-cased key |
| Phases.AddEach | Controllers/OperationsController.cs:190-199 | the add loop sends every missing key once and counts the oracle's answers |
| SynchronizationController.SynchroniserVersEkialis | Controllers/SynchronizationController.cs:138-206 | the add phase, whose read failure escapes to the action |
| SynchronizationController.SynchroniserCaracteristiques | Controllers/SynchronizationController.cs:211-356 | the characteristic phase; a failure answers the summary (0, 0, 0, 1) with no call |
| SynchronizationController.MarquerObsoletesRouge | Controllers/SynchronizationController.cs:358-453 | the marking phase; a failure answers the summary (0, 0, 0, 0, 1) with no call |
| SynchronizationController.SynchronisationComplete | Controllers/SynchronizationController.cs:35-80 | a failed login answers 401 and a failed first read 500, both with no call; otherwise the calls are those of add, then characteristics, then marking, each phase answering its own counters or its failure |
| OperationsController.SharePointVersEkialis | Controllers/OperationsController.cs:26-121 | 401 without login, 500 on a failed read, else one add per missing item and the response built from them |
| OperationsController.AddedListMeaning | Controllers/OperationsController.cs:106-111 | each reported entry names its item by its raw title and carries all its other fields, whether its add succeeded or not |
| OperationsController.EkialisVersSharePoint | Controllers/OperationsController.cs:124-222 | 401 without login, 500 on a failed read, else one add per missing key and the response built from them |
| OperationsController.TransferWritesEveryCharacteristic | Controllers/OperationsController.cs:190-212 | each reported entry is a missing key with its catalogue entry, and each of its characteristics reaches SharePoint under its column |
| OperationsController.SynchroniserCaracteristiques | Controllers/OperationsController.cs:225-373 | 401 without login, 500 on a failed read, else the characteristic phase |
| OperationsController.MarquerObsoletesRouge | Controllers/OperationsController.cs:376-482 | 401 without login, 500 on a failed read, else the marking phase and its report |
| OperationsController.MarkedListCoversAlreadyRed | Controllers/OperationsController.cs:438-472 | the report lists every obsolete entry as turned red, including those already red, which got no call |
| OperationsController.Headers | Controllers/OperationsController.cs:608-620 | header positions are cell positions of the first row |
| OperationsController.ParseRow | Controllers/OperationsController.cs:630-643 | every field of a parsed row is a column of the mapping table |
| OperationsController.ParseRows | Controllers/OperationsController.cs:623-649 | the data rows kept are at most the data rows read |
| OperationsController.ParseSheet | Controllers/OperationsController.cs:604-649 | the header row is never a data row, so a non-empty sheet yields fewer rows than it holds |
| OperationsController.ReadHeaders | Controllers/OperationsController.cs:608-620 | the header loop reads exactly the trimmed non-empty header cells by position |
| OperationsController.ReadRow | Controllers/OperationsController.cs:625-643 | the cell loop builds exactly the row and its `hasData` flag |
| OperationsController.ParseExcelFile | Controllers/OperationsController.cs:572-660 | the parse loops yield exactly the kept rows |
| OperationsController.PaddedHeaderNeverMatches | Controllers/OperationsController.cs:582 | headers are trimmed, so the table entry "APPLICATION " never matches |
| OperationsController.ParsedRowsHaveTitle | Controllers/OperationsController.cs:645-648 | every kept row has a non-empty Title and only mapped columns |
| OperationsController.ParsedValuesAreTrimmed | Controllers/OperationsController.cs:637 | every value of a parsed row is trimmed |
| OperationsController.HeadersMeaning | Controllers/OperationsController.cs:608-620 | a position is a header exactly when its first-row cell is not empty, and the header is that cell's trimmed text |
| OperationsController.ParseRowKeys | Controllers/OperationsController.cs:630-643 | a row holds a field exactly when some cell of the row has a known header mapped to that field |
| OperationsController.ParseRowValue | Controllers/OperationsController.cs:630-643 | each field holds the trimmed text of the last cell feeding it, later cells winning |
| OperationsController.ParseRowsAreKeptRows | Controllers/OperationsController.cs:623-649 | the parsed rows are exactly the rows with data and a non-empty Title, each parsed, in sheet order |
| OperationsController.RowHasDataMeaning | Controllers/OperationsController.cs:634-640 | `hasData` holds exactly when some cell under a known header is not empty |
| OperationsController.RunImport | Controllers/OperationsController.cs:512-551 | `ajoutsReussis + ajoutsEchecs == totalLignes`, successes are accepted calls, and there is one message per failure |
| OperationsController.SkippedRowMakesNoCall | Controllers/OperationsController.cs:514-521 | a row without a name adds one failure and the message "Ligne ignorée: APPLICATION vide", and makes no call |
| OperationsController.NamedRowMakesOneCall | Controllers/OperationsController.cs:523-549 | a named row makes one add call with its fields; an accepted one is a success, a refused one a failure logged as "Échec de l'ajout: " and the name |
| OperationsController.CallsAreNamedRows | Controllers/OperationsController.cs:512-551 | the import makes exactly one call per named row and logs one skip message per unnamed row |
| OperationsController.CollectImportFields | Controllers/OperationsController.cs:526-534 | the fields sent exclude Title and empty values |
| OperationsController.AddRows | Controllers/OperationsController.cs:508-551 | the import loop makes exactly the calls, counters and messages of the run |
| OperationsController.ImportExcelVersSharePoint | Controllers/OperationsController.cs:485-570 | no file or an empty one, and a sheet with no kept row, answer 400 with no call; an unreadable sheet answers 500; otherwise every row is sent |
| OperationsController.NamedRowsAreAllSent | Controllers/OperationsController.cs:514-551 | on rows that all have a title, one add per row, in order, and no "Ligne ignorée" message |
| OperationsController.ColumnsAreNotCharacteristics | Controllers/OperationsController.cs:579-593 | no column of the import table is an Ekialis characteristic name |
| OperationsController.ImportWritesOnlyTitle | Controllers/OperationsController.cs:526-538 | whatever the sheet holds, the item written to SharePoint has only its Title |
| ComparaisonController.NormalizedNamesMeaning | Controllers/ComparaisonController.cs:35-37 | a name is in a normalised list exactly when it is the non-empty normalised form of some name |
| ComparaisonController.NameListMeaning | Controllers/ComparaisonController.cs:35-50 | the name lists hold the normalised names, without duplicates, sorted |
| ComparaisonController.ExceptMeaning | Controllers/ComparaisonController.cs:53-54 | `Except` keeps exactly the names of one list absent from the other, without duplicates |
| ComparaisonController.Compare | Controllers/ComparaisonController.cs:56-66 | the totals are the lengths of the two lists |
| ComparaisonController.ComparerLogiciels | Controllers/ComparaisonController.cs:22-74 | 401 exactly without login, 500 exactly on a failed read |
| ComparaisonController.ComparisonPartitions | Controllers/ComparaisonController.cs:53-60 | `totalEkialis = identiques + \|E \ S\|` and `totalSharePoint = identiques + \|S \ E\|` |
| ComparaisonController.ComparerLogicielsPartitions | Controllers/ComparaisonController.cs:35-66 | the comparison's counters partition both name lists |
| ComparaisonController.ClasslessComponentIgnored | Controllers/ComparaisonController.cs:99-105 | a component without a class id adds nothing to either Ekialis snapshot |
| ComparaisonController.SynchroniserVersSharePoint | Controllers/ComparaisonController.cs:77-184 | 401 without login; 500 with no call on a failed read or a repeated characteristic id; else the Ekialis → SharePoint transfer |
| ComparaisonController.SynchronisationBidirectionnelle | Controllers/ComparaisonController.cs:291-319 | always 200; each step's own answer is wrapped whole: 401 without its login, 500 on its raise (or a repeated id for the second), otherwise its counters and its `logicielsAjoutes` list; every write of the first step comes before those of the second |
| ComparaisonController.SynchroniserCaracteristiques | Controllers/ComparaisonController.cs:322-479 | 401 without login, 500 on a failed read, else the characteristic phase with one detail per processed key |
| ComparaisonController.DetailsCoverCommonKeys | Controllers/ComparaisonController.cs:463-469 | `details` has exactly one entry per common key |
| BackgroundService.SynchroniserVersEkialis | Services/SynchronizationBackgroundService.cs:101-170 | one add per missing item, `reussis + echecs` missing items; a failure answers (0, 1) with no call |
| BackgroundService.SynchroniserCaracteristiques | Services/SynchronizationBackgroundService.cs:174-192 | the stub answers (0, 0, 0) and makes no call |
| BackgroundService.CollectObsolete | Services/SynchronizationBackgroundService.cs:210-225 | the loop keeps exactly the markable components whose key is not a SharePoint name |
| BackgroundService.MarquerObsoletesRouge | Services/SynchronizationBackgroundService.cs:194-254 | the colour calls of the obsolete list, `reussis + echecs` obsolete entries; a failure answers (0, 1) with no call |
| BackgroundService.PerformSynchronization | Services/SynchronizationBackgroundService.cs:50-99 | only a failed scope escapes; a failed login runs no phase; otherwise the calls are those of add, then marking |
| BackgroundService.RunPhases | Services/SynchronizationBackgroundService.cs:74-93 | the phases run in the order add, characteristics, marking |
| BackgroundService.NextDelay | Services/SynchronizationBackgroundService.cs:30-46 | 60 minutes exactly after a normal pass, 10 exactly after an escaped one |
| BackgroundService.ExecuteAsync | Services/SynchronizationBackgroundService.cs:22-48 | one turn per pass started before cancellation, each with its delay (60 minutes after a normal pass, 10 after an escaped one); a cancelled retry wait raises; the writes are those of every pass, pass after pass |
| BackgroundService.RunPasses | Services/SynchronizationBackgroundService.cs:27-46 | one turn per pass, its outcome and delay fixed by whether the pass's scope is built, and the writes of every pass in order |
| BackgroundService.TurnOf | Services/SynchronizationBackgroundService.cs:30-46 | a pass returns and waits an hour exactly when its scope is built; otherwise it escapes and waits ten minutes |
| BackgroundService.EarlierPassesFirst | Services/SynchronizationBackgroundService.cs:27-46 | the writes of earlier passes come before those of later passes |
| BackgroundService.NoLoginNoWrite | Services/SynchronizationBackgroundService.cs:27-46 | passes that cannot build their scope or log in write nothing |
| SharePointRestService.SelectedFields | Services/SharePointRestService.cs:101-104 | an absent or blank field list is the error raised before any request |
| SharePointRestService.SelectedFieldsMeaning | Services/SharePointRestService.cs:104-105 | one trimmed name per comma-separated piece, none holding a comma |
| SharePointRestService.ProjectMeaning | Services/SharePointRestService.cs:125-128 | a result item has exactly the selected keys, each with the item's value or "" |
| SharePointRestService.ProjectAllPointwise | Services/SharePointRestService.cs:121-131 | every result item is the projection of the item at the same place |
| SharePointRestService.ProjectItem | Services/SharePointRestService.cs:123-130 | the field loop builds exactly the projection |
| SharePointRestService.GetSelectedFields | Services/SharePointRestService.cs:95-136 | a bad field list raises; a failed response or no results give the empty list; otherwise one projected item per result |
| SharePointRestService.KeptProperties | Services/SharePointRestService.cs:69-75 | only properties passing the metadata filter are kept |
| SharePointRestService.KeptPropertiesKeys | Services/SharePointRestService.cs:69-75 | the keys kept are exactly the names of the properties passing the filter |
| SharePointRestService.GetListItems | Services/SharePointRestService.cs:45-81 | a failed response or no results give the empty list; otherwise one filtered item per result |
| SharePointRestService.NoMetadataKept | Services/SharePointRestService.cs:71 | no kept key starts with "__" or is "odata.type", and every other property is kept |
| SharePointRestService.FillStep | Services/SharePointRestService.cs:162-170 | one more characteristic writes its value under its column when it is mapped, and nothing otherwise |
| SharePointRestService.WriteField | Services/SharePointRestService.cs:164-169 | one pass of the payload loop keeps the filled-so-far invariant |
| SharePointRestService.BuildFields | Services/SharePointRestService.cs:157-170 | the payload loop builds exactly the payload fields |
| SharePointRestService.AddItemToSharePoint | Services/SharePointRestService.cs:138-214 | an empty item type or digest gives false with no POST; otherwise the payload is posted and the POST outcome decides the result |
| SharePointRestService.PayloadMeaning | Services/SharePointRestService.cs:157-170 | Title is the name, every mapped characteristic is under its column, and no other field is written |
| SharePointRestService.UnmappedAreDropped | Services/SharePointRestService.cs:162-170 | with no mapped characteristic, the payload holds only the Title |
| ExportService.CollapseDoubled | Services/ExportService.cs:44 | collapsing doubled quotes undoes `Replace("\"", "\"\"")` |
| ExportService.EscapeRoundTrip | Services/ExportService.cs:42-45 | stripping the quotes of a written value and collapsing its doubled quotes gives the value back |
| ExportService.EscapeChangesIff | Services/ExportService.cs:42-45 | a value is quoted exactly when it holds the separator, a double quote, a line feed or a carriage return |
| ExportService.DoubleQuotesChars | Services/ExportService.cs:44 | doubling quotes adds no other character |
| ExportService.EscapeChars | Services/ExportService.cs:42-45 | escaping adds or removes no character other than the double quote |
| ExportService.CsvText | Services/ExportService.cs:25-26 | the export is empty exactly when there are no items |
| ExportService.WriteCsv | Services/ExportService.cs:28-52 | the `StringBuilder` loop writes the header line, then one line per item |
| ExportService.ExportToCsv | Services/ExportService.cs:23-53 | the header line is the property names joined, unescaped |
| ExportService.ExportToCsvWithHeaders | Services/ExportService.cs:63-94 | the header line uses a custom header where there is one, unescaped |
| ExportService.NoCustomHeaders | Services/ExportService.cs:72-75 | without custom headers both exports write the same text |
| ExportService.LinesAsJoin | Services/ExportService.cs:33-49 | the lines written by `AppendLine` are the lines joined by the terminator, with an empty piece last |
| ExportService.OneLinePerItem | Services/ExportService.cs:28-52 | without line feeds, splitting the export gives the header line, then one line per item in order |
| ExportService.ValuesReadBack | Services/ExportService.cs:38-47 | every written value reads back as the property value, null as "" |
| ExportService.PlainLineSplits | Services/ExportService.cs:49 | with a one-character separator and no quoting, a line splits into its values |
| ExportService.ExportLogicielsToCsv | Services/ExportService.cs:112-130 | the software export uses the French headers and ";" |
| ExportService.LogicielHeaderLine | Services/ExportService.cs:114-127 | every property has a French header, so the header line is the French column list |
| ExportService.LogicielRowReadsBack | Services/ExportService.cs:112-129 | the id, name, colour and type of a software row read back unchanged |
| SharePointController.Lignes | Controllers/SharePointController.cs:31-46 | the lines are a permutation of the titled items' lines, in ascending order |
| SharePointController.GetSelectedFieldsOnly | Controllers/SharePointController.cs:23-56 | a failed read answers 500 exactly; the text is empty exactly when no item has a Title |
| SharePointController.OneLinePerTitledItem | Controllers/SharePointController.cs:31-44 | an item without a Title adds no line, and one with a Title adds exactly its own line |
| SharePointController.LinesComeFromTitledItems | Controllers/SharePointController.cs:31-44 | every line is the line of an item with a Title |
| SharePointController.FieldValuesTrimmed | Controllers/SharePointController.cs:35-41 | every value of a line is trimmed |
| SharePointController.LineReadsBack | Controllers/SharePointController.cs:29-43 | a line reads back as the item's six values, in order, trimmed, "" for a missing field |
| SharePointController.OutputSplitsIntoLines | Controllers/SharePointController.cs:45-48 | splitting the text at line feeds gives the sorted lines |
| EkialisController.NameById | Controllers/EkialisController.cs:36 | the dictionary's keys are exactly the known ids |
| EkialisController.NameByIdLookup | Controllers/EkialisController.cs:36 | with distinct ids, each known id maps to its own name |
| EkialisController.ToDictionary | Controllers/EkialisController.cs:36 | the build fails exactly when two known characteristics share an id |
| EkialisController.LabelsSnoc | Controllers/EkialisController.cs:54-70 | one more characteristic adds its label exactly when its value is not blank |
| EkialisController.EntriesSnoc | Controllers/EkialisController.cs:44-77 | one more component adds its entry exactly when it is of class "1"; repeated names are kept |
| EkialisController.CollectLabels | Controllers/EkialisController.cs:52-70 | the inner loop builds exactly the labels |
| EkialisController.CollectEntries | Controllers/EkialisController.cs:42-77 | the outer loop builds exactly the entries |
| EkialisController.GetLogicielsAvecCaracteristiques | Controllers/EkialisController.cs:23-92 | 401 exactly without login; 500 exactly on a repeated id or a failed parse; else the entries, sorted by name, same-named entries in input order |
| EkialisController.CharacteristicNames | Controllers/EkialisController.cs:63-65 | a known id is named by its characteristic, an unknown one "Inconnu (id)" |
| EkialisController.BlankValuesGiveNoLabel | Controllers/EkialisController.cs:61 | a component whose values are all blank is listed with no label |

## Left out

- HTTP, cookies, the request digest, the Ekialis login and the raw GET/POST calls: the login is a `bool` parameter, and each remote write is the oracle `accept`.
- Services/EkialisService.cs is not part of this model. Its JSON navigation is replaced by typed records: an absent string reads as "" and an absent integer as 0. A component whose `characteristics` is not an array is modelled with no characteristics.
- `AddItemToEkialisAsync`, `UpdateExistingCharacteristicValueAsync`, `UpdateCharacteristicValueAsync`, `AddCharacteristicToComponentAsync`, `AddCharacteristicToExistingComponentAsync` and `UpdateComponentColorAsync` are foreign calls, answered by the oracle. The update and add endpoints are not told apart beyond the call's kind.
- An exception in the middle of a loop, raised by a remote call, is not modelled. Only the reads at the start of a phase can fail.
- OpenXml reading (`SpreadsheetDocument`, `GetCellValue`, the shared-string table): the sheet is given as rows of cell texts, already resolved.
- JSON serialisation (`JsonConvert`, `System.Text.Json`), `ExportToJson` and UTF-8 encoding: outputs are strings. JSON parsing of SharePoint answers is not modelled either: `GetSelectedFields` and `GetListItems` take the parsed results, so a success body that is not JSON, on which `JObject.Parse` raises, is covered only by the controllers' `FetchRaised`.
- `Environment.NewLine` is fixed as "\n".
- Culture: `ToLower` and `ToUpper` map ASCII and Latin-1 letters only; `OrderBy` compares strings ordinally; `Trim` uses the .NET white-space set.
- Time: `Task.Delay`, `DateTime.Now` and the cancellation token are replaced by the number of passes started before cancellation is requested.
- Console and `ILogger` output, and the `message` and `timestamp` text fields of responses.
- Dictionary enumeration order: the order of keys and fields visited is a choice. Contracts about order-dependent calls state multisets, not sequences.
- Reflection: `typeof(T).GetProperties()` is a fixed list of property names with, per item, the values in that order.
- A `null` SharePoint value is not modelled: `GetSelectedFieldsAsync` stores "" for missing values, so values arrive as strings.
- Program.cs, `GetStatutSynchronisationAutomatique` and `TestAuthentification`: wiring and constant responses.
- Phases.MarkCounters: states the counters' sum and lower bound, not their split, which depends on the oracle.
- ComparaisonController.Compare: states the two totals; the partition of the counters is `ComparisonPartitions`.
