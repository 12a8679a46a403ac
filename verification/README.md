# Dining ledger: verified model

A household keeps a ledger of restaurants and dines (visits): who picked, who rated what, tags, up to four
photos a dine, and a Want to Try list. The program keeps it in Postgres or in memory, filters and pages it,
draws statistics and a map from it, prepares photo thumbnails, fills in missing photo binaries while two
releases share the database, and signs people in. This project models those parts in Dafny and proves what
they promise. `dafny verify dfyconfig.toml` checks everything.

## How it is laid out

- `StoreSpec` says what each operation of the memory store does to its five lists, as functions of the state
  before. `MemoryStore` is the store itself: a class whose methods edit the lists in place and are proved to
  leave exactly the state `StoreSpec` says. `StoreInvariants`, `StoreGuarantees`, `DineRecords`,
  `RestaurantRecords`, `WantToTryHistory`, `FilterAgreement` and `StoreTrophies` prove what that means over
  single calls and over every run.
- `PhotoTable` is the photo table shared by two releases and the backfill, as atomic steps that interleave
  freely; `PhotoBackfill` is the backfill run against it; `PhotoEdits` compares the two stores' photo edits;
  `PreparedPhotos` is the decode cache of submitted photos on the heap, `Validation` the input checks before
  it, and `Thumbnail` the pixel arithmetic.
- `FilterSql` has the visit filter as a predicate and as a compiled, parameterised clause with SQL's NULLs;
  `VisitPages` the newest-first order, the counting query and the pages; `Calendar` the year bounds;
  `FilterOptions` and `Spellings` the dropdown choices.
- `MapPoints`, `Records`, `TasteProfiles`, `SpinnerData`, `Spinner` and `TrophyMap` are the statistics, the
  spinner and the map viewport. `Champion` and `Folds` hold what their loops share.
- `Sessions` and `AuthService` are users and sessions: functions of six maps, and the classes over them.
- `Ledger`, `Wrappers` and `Text` hold records, option types and text.

Identifiers that `uuid.New` or the token generator would yield, the clock, the iteration order of Go maps and
the JPEG library enter as parameters. Where an operation's inputs are trimmed before use, the model takes them
trimmed, with `None` for blank (`StoreSpec.Clean`); `FilterAgreement.Cleaned` is that step.

## Where the code does less than one might expect

Each has its exact condition and a concrete input that fails.

- The memory store trims all white space from text and the compiled clause only spaces, so the two filters
  disagree on a stored value with a trailing tab (`FilterSql.TabIsToldApart`). `FilterSql.FiltersAgreeIffTrimsDo`
  gives the exact condition, and `FilterAgreement.FiltersAgreeInEveryStore` shows it holds of everything the
  store writes, whatever texts come in.
- The trophy loops take an empty name for "none yet", so a nameless winner is lost to whatever follows it
  (`Records.NamelessSplitIsLost`, `NamelessLoyalIsLost` and `NamelessNostalgiaIsLost`). `BiggestSplitIsBestIff`,
  `LoyalIsBestIff` and `NostalgiaIsBestIff` say exactly when what is returned is the winner's, and
  `LoyalIsAlwaysBestIff` and `NostalgiaIsAlwaysBestIff` when it is whatever order the map is ranged over in.
- A dine whose input is valid can add a nameless restaurant: `StoreGuarantees.DineKeepsNamesIff` says exactly
  when, and `StaleChoiceAddsNameless` has one that does. Nothing else does (`StepKeepsNamesIff`).
- The year 0 is both a year some instant may fall in and the filter value for "any year":
  `FilterOptions.YearsPartitionIff`, and two dines that fail in `YearZeroShowsAll`.
- The page a saved dine links to shows it only up to page 100000: `VisitPages.LinkedPageShowsTheVisit` and
  `PagesListEverything`; `OldestDineIsNotShown` has a list that is too long.
- A login matched by email does not link the Google account: `Sessions.LoginIsLinkedIff`, and a pair of logins
  in `SecondAccountIsNotLinked`.

## Model

| member | source | states |
|---|---|---|
| MemoryStore.Search | internal/repository/memory.go:853-863 | the loop stops at the first element that fits, or past the end |
| MemoryStore.Store.FindRestaurant | internal/repository/memory.go:853-863 | a restaurant is found exactly when its identifier is listed, and it is the first with it |
| MemoryStore.Store.CheckChosenRestaurantPlace | internal/repository/memory.go:867-881 | the error, with the owner's name, exactly as the place rules say |
| MemoryStore.Store.SyncRestaurant | internal/repository/memory.go:1215-1221 | exactly the visits at the restaurant get the new copy |
| MemoryStore.Store.UpdateRestaurantMetadata | internal/repository/memory.go:904-916 | only empty fields are filled, and the visits' copies follow |
| MemoryStore.Store.ApplyGoogleMetadata | internal/repository/memory.go:931-957 | field by field: overwriting replaces what is given, otherwise only empty fields are filled; any change dates the restaurant; the visits' copies follow |
| MemoryStore.Store.ResolveRestaurant | internal/repository/memory.go:449-481 | leaves what the specification of a resolution says, whose effect is RestaurantRecords.ResolvedIsKnown; an error changes nothing |
| MemoryStore.Store.FindRestaurantByInput | internal/repository/memory.go:883-902 | a match by place ID comes before one by name and address, and is filled |
| MemoryStore.Store.PickerFromInput | internal/repository/memory.go:970-981 | nobody for Everybody, the person, or the unknown-picker error |
| MemoryStore.Store.RatingsFromInput | internal/repository/memory.go:983-1001 | people's ratings in people order, then the others in map order |
| MemoryStore.Store.TagsById | internal/repository/memory.go:542-547 | the known tags in the order asked for |
| MemoryStore.Store.MarkWantToTryDone | internal/repository/memory_want_to_try.go:125-132 | exactly the restaurant's open items are marked done |
| MemoryStore.Store.CreateVisit | internal/repository/memory.go:398-444 | the whole new state and result; a failing call leaves every list as it was; what is recorded is in DineRecords and RestaurantRecords |
| MemoryStore.Store.UpdateVisit | internal/repository/memory.go:495-563 | the whole new state and result; a failing call leaves every list as it was |
| MemoryStore.Store.DeleteVisit | internal/repository/memory.go:565-575 | the visit is taken out of the list and nothing else changes |
| MemoryStore.Store.DeleteRestaurantIfUnvisited | internal/repository/memory.go:577-593 | deletes the restaurant with its list items, and only when no visit is there |
| MemoryStore.CompactInPlace | internal/repository/memory_want_to_try.go:136-144 | compacting into the array being read keeps exactly the other restaurants' items, in order |
| MemoryStore.Store.UpdateRestaurant | internal/repository/memory.go:595-620 | refused without a name or with metadata out of range; otherwise every edited field, and the copies in all its visits |
| MemoryStore.Store.UpdateRestaurantGoogleMetadata | internal/repository/memory.go:483-493 | replaces what the metadata has and keeps the rest; unknown restaurants change nothing |
| MemoryStore.Store.ToggleChain | internal/repository/memory.go:622-637 | flags the restaurant and all its visits' copies; the copies keep their update time |
| MemoryStore.Store.SaveWantToTry | internal/repository/memory_want_to_try.go:62-109 | past the checks of the input, the whole new state and the item's identifier; a failing call leaves every list as it was |
| MemoryStore.Store.DeleteWantToTry | internal/repository/memory_want_to_try.go:111-121 | takes out the item with the identifier and nothing else |
| StoreInvariants.SeedIsOk | internal/repository/memory.go:28-91 | the seeded store meets the invariant that every run keeps |
| StoreInvariants.ResolveKeepsInv | internal/repository/memory.go:449-481 | resolving yields a listed restaurant and keeps places unique, copies current and photos and list items as they were |
| StoreInvariants.NoConflictMeansUnowned | internal/repository/memory.go:867-881 | past the check the place is the restaurant's own, or it has none and no restaurant has that one |
| StoreInvariants.SyncKeepsCopies | internal/repository/memory.go:1215-1221 | after a synced change every visit's copy still agrees with its restaurant |
| StoreInvariants.CreateKeepsInv | internal/repository/memory.go:398-444 | a new dine keeps the store's invariant, whether it succeeds or fails |
| StoreInvariants.EditKeepsInv | internal/repository/memory.go:495-563 | an edit keeps it, photo limits and orders included |
| StoreInvariants.RemoveRestaurantKeepsInv | internal/repository/memory.go:577-593 | deleting an unvisited restaurant leaves no visit or list item without one |
| StoreInvariants.ToggleKeepsInv | internal/repository/memory.go:622-637 | the flag stays equal in the restaurant and its copies |
| StoreInvariants.SaveKeepsInv | internal/repository/memory_want_to_try.go:62-109 | a save never gives a restaurant a second item |
| StoreInvariants.StepKeepsInv | internal/repository/memory.go:398-637 | every operation keeps unique identifiers and places, current copies and one list item a restaurant |
| StoreInvariants.After | internal/repository/memory.go:398-637 | so they hold in every reachable store |
| StoreGuarantees.CreateFailsIff | internal/repository/memory.go:398-444 | a new dine fails exactly when cancelled, its picker is unknown or the place is refused, with the error of the first of these, and then changes nothing |
| StoreGuarantees.EditFailsIff | internal/repository/memory.go:495-563 | the exact failures of an edit and which error each gives, among them a foreign kept photo, and then nothing changes |
| StoreGuarantees.SaveFailsIff | internal/repository/memory_want_to_try.go:62-79 | the exact failures of a save and which error each gives, those of its input checks included, and then nothing changes |
| StoreGuarantees.ResolveFailsIff | internal/repository/memory.go:449-457 | resolving fails exactly when a listed chosen restaurant has another place, or none and the place is taken |
| StoreGuarantees.RefusalIsExplained | internal/repository/memory.go:867-881 | the refusal names the chosen restaurant and, if another has the place, that one |
| StoreGuarantees.DinesAndSavesOnlyFill | internal/repository/memory.go:904-957 | a dine or save changes at most one existing restaurant, and only fields that were empty (the update time aside) |
| StoreGuarantees.DineKeepsNamesIff | internal/repository/memory.go:449-481 | a dine adds a nameless restaurant exactly when it is accepted, gives no name, its chosen ID if any is unknown and nothing else matches |
| StoreGuarantees.StaleChoiceAddsNameless | internal/repository/memory.go:449-481 | a valid dine with an ID unknown to a store of one restaurant adds one without a name |
| StoreGuarantees.SaveKeepsNames | internal/repository/memory_want_to_try.go:73-79 | a save, which checks the chosen ID first, never does |
| StoreGuarantees.StepKeepsNamesIff | internal/repository/memory.go:398-637 | such a dine is the only operation that adds a nameless restaurant |
| StoreGuarantees.StepPlacesStay | internal/repository/memory.go:449-481 | no operation changes a place ID that is set |
| StoreGuarantees.PlaceIsForGood | internal/repository/memory.go:449-481 | over any run, while its restaurant exists, a place ID once set never changes |
| RestaurantRecords.ResolvedIsKnown | internal/repository/memory.go:449-481 | an input leads to the chosen restaurant, else the one with the place, else the first with the name and address, else a new one; a new one has each field of the input in its own place; an existing one keeps what was set, takes the input's field where it was empty (place and metadata of a chosen one only along with a place ID) and is dated when that changed it |
| RestaurantRecords.DineIsAtAKnownRestaurant | internal/repository/memory.go:398-481 | the restaurant of an accepted dine is that one, in the list and in the new visit |
| RestaurantRecords.SaveIsOfAKnownRestaurant | internal/repository/memory_want_to_try.go:62-109 | so is the restaurant of an accepted save, whose open item has the suggester and note given and the identifier returned |
| RestaurantRecords.RestaurantEditIsRecorded | internal/repository/memory.go:595-620 | an edit puts each field of the form in its place, in the restaurant and all its visits, keeps the rest, and fails exactly without a name, with metadata out of range or for an unknown restaurant |
| RestaurantRecords.RefreshIsRecorded | internal/repository/memory.go:483-493 | fresh metadata replaces, field by field, what it has and nothing else |
| RestaurantRecords.FlagIsRecorded | internal/repository/memory.go:622-637 | the restaurant and its visits' copies have the flag given and nothing else changes, the restaurant's update time aside |
| RestaurantRecords.UnvisitedIsDeleted | internal/repository/memory.go:577-593 | a listed restaurant without a visit is deleted with its list item, and the call says so; otherwise nothing happens |
| RestaurantRecords.UnlistedInOrder | internal/repository/memory_want_to_try.go:136-144 | the items that stay are in the order they were in |
| DineRecords.RatingsAreRecordedOnce | internal/repository/memory.go:983-1001 | as many ratings are recorded as were submitted, each under its person, or under nobody for an unknown one |
| DineRecords.RatingsFollowPeople | internal/repository/memory.go:986-993 | the people's ratings come first, in the order of the people |
| DineRecords.OthersFollowTheOrder | internal/repository/memory.go:994-999 | then the others, under nobody, in the order the map is ranged over in |
| DineRecords.TagsAreTheChosen | internal/repository/memory.go:431-435 | the tags found are the store's with the chosen identifiers, in the order chosen, unknown ones skipped |
| DineRecords.CreatedDineIsRecorded | internal/repository/memory.go:398-444 | the new visit is found under its identifier with the input's contents, tags and photos in order; the other visits change only in their restaurant copy |
| DineRecords.EditedDineIsRecorded | internal/repository/memory.go:495-563 | the visit keeps identifier and creation time and takes the input's contents, tags, kept and new photos; no other visit or restaurant changes |
| DineRecords.DeletedDineIsGone | internal/repository/memory.go:565-575 | the identifier is not found any more, and every other visit still is |
| WantToTryHistory.StepIsAnEvent | internal/repository/memory_want_to_try.go:62-144 | what any operation does to a restaurant's item is what one event does to a four-event automaton |
| WantToTryHistory.EditIsAnEvent | internal/repository/memory.go:549-552 | an edit acts on a restaurant's item as its event: one in place is silent, one that moves the dine there takes the item off |
| WantToTryHistory.RunPlaysTheEvents | internal/repository/memory_want_to_try.go:62-144 | over any run the list is, for every restaurant at once, that automaton run over its events |
| WantToTryHistory.OpenIffLastHeardIsASave | internal/repository/memory_want_to_try.go:62-144 | a restaurant is on the list exactly when the last event there was a successful save |
| WantToTryHistory.ItemKeepsItsId | internal/repository/memory_want_to_try.go:87-108 | an item keeps its identifier until it is removed |
| WantToTryHistory.CreationTimeMovesOnReopening | internal/repository/memory_want_to_try.go:94-97 | its creation time changes only when a save reopens it, to the time of that save |
| WantToTryHistory.SaveMakesAnOpenItem | internal/repository/memory_want_to_try.go:87-108 | a save leaves an open item with its suggester and note, new, reopened now, or as old as it was |
| WantToTryHistory.DineMarksNow | internal/repository/memory_want_to_try.go:125-132 | a dine marks an open item done at its time and leaves a done one alone |
| WantToTryHistory.DineTakesItOff | internal/repository/memory.go:398-444 | after an accepted dine its restaurant is off the list, and every other restaurant is on it as before |
| WantToTryHistory.MovedDineTakesItOff | internal/repository/memory.go:549-552 | an edit that moves a dine takes the restaurant it moves to off the list; one that does not leaves the list alone |
| FilterAgreement.FiltersAgreeInEveryStore | internal/repository/store.go:265-297 | whatever texts come in, in every reachable store the compiled filter selects a visit's row exactly when the memory store's filter matches it |
| PhotoTable.QuietTableIsOk | internal/repository/store.go:1143-1153 | a table of sound rows with nobody at work meets the invariant every step keeps |
| PhotoTable.StepKeepsInv | internal/repository/photo_storage.go:203-227 | every step of any release or of the backfill keeps stored binaries equal to the decode of the URI, locks held and identities known |
| PhotoTable.RunKeepsInv | internal/repository/photo_storage.go:161-227 | so does every interleaving, across deletion and reinsertion |
| PhotoTable.InsertedRowIs | internal/repository/store.go:1143-1153 | a new row has the trimmed URI, both images it decodes to, their version and the size of the original |
| PhotoTable.RenumberedRowIs | internal/repository/store.go:1170-1174 | a kept row of the visit changes only its order |
| PhotoTable.UnlistedRowsGo | internal/repository/store.go:1167-1169 | of the visit's rows exactly the kept ones stay, and no other visit's row goes |
| PhotoTable.OldReadSees | docs/photo-storage-rollout.md:80-84 | an old replica reads its visit's rows without their binaries |
| PhotoTable.OldRewriteEmptiesBinaries | docs/photo-storage-rollout.md:80-84 | its rewrite leaves the visit just the rows it writes, without binaries |
| PhotoTable.ServedBytesNeverChange | internal/handler/photos.go:39-49 | the bytes served for either variant, stored or decoded on the way, are what the URI decodes to and never change while the row lives |
| PhotoTable.BackfillOnlyFills | internal/repository/photo_storage.go:203-227 | a backfill step fills one missing row or nothing, alters no other column and never adds or restores a row |
| PhotoTable.ValidatedImagesAreTheUris | internal/repository/photo_storage.go:70-96 | a row that passes validation yields the decode of its URI |
| PhotoBackfill.ValidatesIff | internal/repository/photo_storage.go:70-96 | a row passes exactly when it is a JPEG within the limits, its URI decodes to as many bytes as it counts, and no binary it has differs; what comes of it is the decode of its URI |
| PhotoTable.PrepareIsAValidCodec | internal/model/photos.go:40-61 | trimming first makes a URI and its trimmed form decode alike, and the empty one never |
| PhotoBackfill.Backfill.BackfillPhoto | internal/repository/photo_storage.go:203-227 | counts a row exactly when it filled it, however long it waits for the lock; undisturbed, an incomplete row gets what its URI decodes to if it can be repaired, and is reported and left alone otherwise |
| PhotoBackfill.Backfill.BackfillBatches | internal/repository/photo_storage.go:165-198 | at most the allowed rows are processed and no more updated than processed, whatever others do; undisturbed, exactly the next missing rows in order |
| PhotoBackfill.Backfill.BackfillPhotos | internal/repository/photo_storage.go:161-201 | terminates with its bounds under any interference; undisturbed, it repairs the smallest incomplete rows, up to the limit or to the first that cannot be repaired, which it reports |
| PhotoBackfill.FillingInTurnIsTheOutcome | internal/repository/photo_storage.go:156-201 | filling the missing rows in turn is filling the longest fillable prefix of them, up to the limit, all at once |
| PhotoBackfill.QuietRunsRepairInOrder | internal/repository/photo_storage.go:156-201 | that is, said of byte counts, limits and decodes: the smallest incomplete rows are repaired, as many as are allowed, up to the first that cannot be, which is reported |
| PhotoBackfill.SucceedsIff | internal/repository/photo_storage.go:161-201 | such a run succeeds exactly when each of the first maxRows incomplete rows can be repaired; it has then updated as many as it may and as there are, and remaining is the rest |
| PhotoBackfill.WrongByteCountIsReported | internal/repository/photo_storage.go:78-80 | the first row whose URI decodes to another number of bytes than it counts is reported |
| PhotoBackfill.RerunChangesNothing | internal/repository/photo_storage.go:156-160 | once nothing remains, running again changes nothing |
| PhotoBackfill.CountedCommitCompletesARow | internal/repository/photo_storage.go:219-227 | a counted update turned a missing row into a complete one |
| PhotoEdits.ReconciledVisitPhotos | internal/repository/memory.go:1003-1020 | the edited list, or an error exactly when a kept photo is not the visit's |
| PhotoEdits.PhotosFromPrepared | internal/repository/memory.go:1022-1032 | new photos in order, numbered on from the kept ones |
| PhotoEdits.ReconcileRows | internal/repository/store.go:1155-1176 | check ownership, delete, renumber, insert: the rows afterwards, and nothing changed on an error |
| PhotoEdits.RowsReadAs | internal/repository/store.go:1236-1256 | the edited rows, read back by sort order, are the rebuilt list |
| PhotoEdits.ReadingIsUnique | internal/repository/store.go:1243 | that reading is the only one the order allows |
| PhotoEdits.EditBoth | internal/repository/store.go:1155-1176 | run on the same photos, the two stores end with the same list or the same refusal |
| PhotoEdits.EditKeepsPhotosValid | internal/repository/memory.go:1003-1032 | orders are 0..n-1, at most four photos, none repeated; kept ones change only their place |
| PreparedPhotos.Prepare | internal/model/photos.go:143-168 | succeeds exactly when valid, decodable and not cancelled at any check, within a decode or between; the result is a new slice whose caches are current, the caller's slice and all caches untouched |
| PreparedPhotos.CopyPrepared | internal/model/photos.go:172-185 | refuses a missing or stale cache; otherwise fresh arrays with the decode of each photo's current URI |
| PreparedPhotos.AnyUse | internal/model/photos.go:133-185 | after any sequence of Prepare calls and URI edits, a store gets copies exactly when the last call accepted had the URIs as they are now, and they are the decodes of those |
| PreparedPhotos.ScribbleOnCopies | internal/model/photos.go:170-185 | overwriting every byte a store was given, originals and thumbnails, changes no cache and the next copies are the same decodes |
| Validation.ValidateFields | internal/model/validation.go:23-63 | accepts exactly the acceptable inputs: a name unless a restaurant is chosen, dates and metadata in range, half-step ratings, unique kept identifiers, four photos |
| Validation.FieldsOkIff | internal/model/validation.go:23-63 | the checks in turn accept exactly those inputs |
| Validation.PhotoIdsAreOk | internal/model/validation.go:52-62 | the scan with its seen map accepts exactly distinct, non-nil identifiers |
| Validation.HalfStepsAreWhole | internal/model/validation.go:37-42 | an accepted rating is a whole number of halves from 0 to 20 |
| Thumbnail.AcceptsIff | internal/model/photos.go:65 | sides of 1 to 8192; the check by division decides the 16,000,000-pixel limit exactly |
| Thumbnail.ThumbnailFits | internal/model/photos.go:94-104 | thumbnail sides are 1..320 and never larger than the source's |
| Thumbnail.ThumbnailKeepsShape | internal/model/photos.go:94-104 | of an image larger than 320 the longer side becomes 320 and the shorter the largest integer in proportion, at least 1; a smaller image keeps its sides |
| Thumbnail.EdgeStartsPart | internal/model/photos.go:107-112 | a box starts at the first pixel not before its share of the side |
| Thumbnail.BoxesTile | internal/model/photos.go:110-112 | along a side the boxes are non-empty and every pixel is in exactly one |
| Thumbnail.BoxSumsAreTheImageSum | internal/model/photos.go:106-121 | the boxes' sums add up to the whole image's |
| Thumbnail.AverageWithinBox | internal/model/photos.go:122-123 | each thumbnail byte lies between the box's least and greatest channel, shifted right by 8 |
| Thumbnail.PixelShowsItsPart | internal/model/photos.go:106-123 | each channel of a thumbnail pixel is the byte of the mean over exactly the source pixels in its part |
| Thumbnail.SmallImagesAreCopied | internal/model/photos.go:95-125 | a source within 320x320 has one-pixel boxes |
| Thumbnail.SumBox | internal/model/photos.go:113-121 | the nested loops compute the box's exact sums without overflowing 64 bits |
| Thumbnail.Shrink | internal/model/photos.go:93-125 | every accepted image gets a thumbnail of its shape, each of whose pixels is the mean of its part of the image, without dividing by zero; cancelled exactly when some row's check is |
| FilterSql.VisitFilterSql | internal/repository/store.go:265-297 | the step-by-step construction is the compiled clause |
| FilterSql.VisitMatchesIff | internal/repository/memory.go:247-268 | what each part of the filter asks of a visit, and that all must hold |
| FilterSql.AddedCondition | internal/repository/store.go:268-271 | a clause added with its arguments names them and leaves the meaning of the earlier ones |
| FilterSql.WhereIgnoresLaterArgs | internal/repository/store.go:190-196 | arguments appended later leave the clause's meaning intact |
| FilterSql.CompiledClauseIsTheFilter | internal/repository/store.go:265-297 | under SQL's three truth values the compiled clause selects exactly what the direct predicate matches |
| FilterSql.FiltersAgreeIffTrimsDo | internal/repository/store.go:272-291 | for all filters at once exactly when the two trims leave the same text of cuisine and city |
| FilterSql.TabIsToldApart | internal/repository/store.go:272-291 | a cuisine stored with a trailing tab is found in memory and not by the clause |
| Calendar.YearOfDayIsIt | internal/repository/memory.go:271-273 | the civil year of a day is the one whose days hold it |
| Calendar.YearBoundsHoldTheYear | internal/apptime/time.go:23-26 | an instant is between the bounds exactly when its Eastern year is that year |
| Calendar.FixedEstIsSteady | internal/apptime/time.go:28-34 | the fallback zone meets the assumption about New Year, and begins a year at five in the morning UTC |
| VisitPages.NewerIsAStrictTotalOrder | internal/repository/memory.go:841-851 | the comparator is irreflexive, transitive and total on visits with distinct identifiers; its direction is in NewestFirstReadsSo |
| VisitPages.SortedListIsUnique | internal/repository/memory.go:841-851 | so there is one sorted list |
| VisitPages.NewestFirstReadsSo | internal/repository/memory.go:841-851 | in the sorted list dates do not ascend, nor entry times on equal dates, and identifiers ascend on equal both |
| VisitPages.CountOfNewerRowsIsTheIndex | internal/repository/store.go:300-318 | the count of earlier-ordered rows is the visit's index in it |
| VisitPages.VisitPosition | internal/repository/memory.go:275-286 | the memory store's search answers what the counting query answers: the number of visits of later date, or the same date and later entry, or both the same and a smaller identifier |
| VisitPages.MatchingVisits | internal/repository/memory.go:236-244 | the matching visits in list order |
| VisitPages.MatchingInOrder | internal/repository/memory.go:236-244 | they are each as often and in the same order as in the list, and no other is |
| VisitPages.VisitsPage | internal/repository/memory.go:168-181 | the page offset and limit name, of the matching visits, latest date first, then latest entry, then smallest identifier; photos without images |
| VisitPages.SqlVisitsPage | internal/repository/store.go:189-196 | offset and limit get the parameters numbered after the clause's |
| VisitPages.PageQueryListsThePage | internal/repository/store.go:189-204 | the query lists the same page as the memory store |
| VisitPages.PagesListEverything | internal/handler/visits.go:78-90 | pages 1 to the last, read in order, are the whole filtered list with no gap or repeat, exactly when the last is at most page 100000 |
| VisitPages.PagesReadNewestFirst | internal/handler/visits.go:78-90 | any number of pages read one after the other are in that order |
| VisitPages.PagesHaveTwenty | internal/handler/visits.go:43-90 | pages are numbered from 1 to at most 100000 and have 20 visits each, the last what is left; any other number is refused |
| VisitPages.LinkedPageShowsTheVisit | internal/handler/visits.go:96-106 | the linked page shows the visit at index position mod 20, exactly up to page 100000 |
| VisitPages.OldestDineIsNotShown | internal/handler/visits.go:96-106 | the oldest of 2,000,001 dines is linked to a page that is not served |
| Spellings.Keep | internal/repository/memory.go:197-206 | keeps one least spelling for each key seen |
| Spellings.SortedValues | internal/repository/memory.go:222-233 | the spellings in ascending order of their keys |
| FilterOptions.VisitFilterOptions | internal/repository/memory.go:191-219 | least spellings by key, in ascending order of the keys, and each year once, latest first |
| FilterOptions.CuisinesPartition | internal/repository/memory.go:183-219 | each cuisine matches a visit, no visit matches two, and their counts add up to the visits with a cuisine |
| FilterOptions.CitiesPartition | internal/repository/memory.go:183-219 | the same of cities |
| FilterOptions.YearsPartitionIff | internal/repository/memory.go:183-268 | each offered year matches a visit, no visit is in two and their counts add up to all visits, exactly when the year 0 holds none or all of them |
| FilterOptions.YearZeroShowsAll | internal/repository/memory.go:265-273 | a dine in the year 0 and one later are counted three times by their two years |
| MapPoints.VisitedRestaurantMapPoints | internal/repository/memory.go:360-396 | one point for each restaurant visited with coordinates, with the number of those visits and the latest date; latest first, then by name |
| MapPoints.PointSummarises | internal/repository/memory.go:365-388 | a point's count is the size of the set of its visits, its date the greatest of theirs, and the rest what one of them says |
| Text.LessIff | internal/repository/memory.go:389-394 | names are ordered by the first place where they differ, a proper prefix first |
| MapPoints.PointsShowTheStore | internal/repository/memory.go:360-396 | in every reachable store the points describe the listed restaurants and their counts add up to the visits there |
| Records.BiggestRatingSplit | internal/repository/memory.go:720-744 | the loops compute the best-so-far fold over the visits in the running |
| Records.GapIsTheFurthest | internal/repository/memory.go:728-733 | a visit's gap is the furthest any two of its ratings are apart |
| Records.BiggestSplitIsBestIff | internal/repository/memory.go:737-741 | the name and gap returned are those of the widest gap, latest, least name, exactly when that winner has a name, or the last in the running shows the same and no named one outlasts it |
| Records.BiggestSplitIgnoresOrder | internal/repository/memory.go:720-744 | with named restaurants it is the optimum whatever the order of the visits |
| Records.BiggestSplitIsWidest | internal/repository/memory.go:720-744 | with named restaurants the name and gap are of a visit two of whose ratings are as far apart as any two of any visit's |
| Records.NamelessSplitIsLost | internal/repository/memory.go:737 | a nameless winner lost to a lesser visit |
| Records.RestaurantVisitRecords | internal/repository/memory.go:755-785 | the loops compute both folds, for any order the map is ranged over in |
| Records.RecordIs | internal/repository/memory.go:758-771 | a record counts a restaurant's visits and dates the latest |
| Records.RecordHasTheFirstName | internal/repository/memory.go:758-771 | and has the name of the first visit there |
| Records.LoyalIsBestIff | internal/repository/memory.go:774-778 | the name and count returned are those of most visits, latest, least name, exactly under the same condition in the order given |
| Records.LoyalIsAlwaysBestIff | internal/repository/memory.go:774-778 | whatever order the map is ranged over in, exactly when the winner has a name or all in the running show the same |
| Records.NamelessLoyalIsLost | internal/repository/memory.go:774 | a nameless winner lost to a restaurant visited as often but longer ago |
| Records.NostalgiaIsBestIff | internal/repository/memory.go:779-782 | the oldest last visit before the latest of all, exactly when it has a name or comes last in the order given |
| Records.NostalgiaIsAlwaysBestIff | internal/repository/memory.go:779-782 | whatever order the map is ranged over in, exactly when the winner has a name or is alone in the running |
| Records.NamelessNostalgiaIsLost | internal/repository/memory.go:779 | a nameless winner lost to a restaurant visited later |
| Records.NamedTrophiesAreOptimal | internal/repository/memory.go:755-785 | with named restaurants both are the declared optima |
| Records.LoyalestIsVisitedMost | internal/repository/memory.go:755-778 | the most loyal restaurant has the largest set of visits, at least two; of those as large, the latest visit, then the least name |
| Records.MostDistantIsLeftLongest | internal/repository/memory.go:779-782 | the most distant memory is of the restaurant left the longest, before the latest visit of all |
| Records.TrophiesIgnoreOrder | internal/repository/memory.go:755-785 | and depend neither on the order of the visits nor on the map's |
| Records.NoTrophies | internal/repository/memory.go:755-785 | without candidates there is no trophy |
| StoreTrophies.NamesAgreeInEveryStore | internal/repository/memory.go:1215-1221 | in a store meeting the invariant the visits of one restaurant agree on its name |
| StoreTrophies.TrophiesOfARunIgnoreOrder | internal/repository/memory.go:720-785 | after any run that adds no nameless restaurant all three trophies are the same in any order of the visits and of the map |
| TasteProfiles.FindTasteProfiles | internal/repository/memory.go:789-839 | the profiles in people order, for any order the maps are ranged over in |
| TasteProfiles.EntryHasTheLeastSpelling | internal/repository/memory.go:807-815 | a cuisine shows its least spelling |
| TasteProfiles.ProfileIsTheFavourite | internal/repository/memory.go:819-837 | a profile is the best average, then most ratings, then least spelling; none exactly without ratings |
| TasteProfiles.ProfileIsRatedBest | internal/repository/memory.go:819-837 | said of the ratings themselves: no cuisine the person rated has a greater mean, or the same of more ratings, or both the same and a lesser spelling |
| TasteProfiles.ProfilesFollowPeople | internal/repository/memory.go:819-837 | the people with a taste have a profile each, in their order, under their names |
| TasteProfiles.ProfileIgnoresOrder | internal/repository/memory.go:789-839 | it depends neither on the order of the visits nor on the maps' |
| SpinnerData.WantToTry | internal/repository/memory_want_to_try.go:24-43 | the open items with their restaurant, suggester and note, newest first |
| SpinnerData.OpenItemsAre | internal/repository/memory_want_to_try.go:24-43 | in a reachable store every open item is listed, and no restaurant twice |
| SpinnerData.RestedFavorites | internal/repository/memory_spinner.go:15-51 | exactly the listed restaurants whose ratings average the minimum or more and whose latest visit is before the cutoff, once each, with that average and date, by name |
| SpinnerData.FavoriteIff | internal/repository/memory_spinner.go:31-42 | a restaurant is a favorite exactly when it is listed, its ratings in aggregates reach the minimum on average and every visit is before the cutoff |
| SpinnerData.PickCounts | internal/repository/memory_spinner.go:55-81 | for each person, in people order, the number of their picks since the cutoff and the latest pick ever |
| SpinnerData.LastPickIs | internal/repository/memory_spinner.go:75-78 | the latest pick is the greatest date of the person's picks |
| SpinnerData.PicksAddUp | internal/repository/memory_spinner.go:55-81 | the picks add up to the visits since the cutoff that somebody picked |
| SpinnerData.RunKeepsPickers | internal/repository/memory.go:970-981 | in every reachable store the pickers are people of the store |
| Spinner.SpinChoices | internal/handler/spinner.go:68-84 | the list's items in order with their favorites, then the other favorites |
| Spinner.OneChoiceEach | internal/handler/spinner.go:68-84 | one choice a restaurant: each item with its restaurant, in the items' order, and every favorite |
| Spinner.OthersFollowFavorites | internal/handler/spinner.go:77-83 | the favorites off the list follow in the order of the favorites |
| Spinner.StoreFeedsTheSpinner | internal/repository/memory_want_to_try.go:24-43 | a reachable store's list has at most one item a restaurant, as the choices need |
| Spinner.FilterSpinChoices | internal/handler/spinner.go:143-160 | keeps exactly the choices whose cuisine or city, whichever the filter names, equals its value ignoring case; any other filter keeps all |
| Spinner.KeptInOrder | internal/handler/spinner.go:143-160 | each as often as it was there and in the order of the choices |
| Spinner.SpinPage | internal/handler/spinner.go:89-113 | the dropdowns, the first option the trimmed filter names, the choices it leaves, and how many there were |
| Spinner.GoWordsAreCanonical | internal/handler/spinner.go:117-127 | cuisine and city are the trimmed columns, and the lower-case keys and the comparison ignoring case are one fold |
| Text.OnlyCapitalsFold | internal/handler/spinner.go:117-127 | folding takes each of the 26 capitals to its small letter and changes nothing else |
| Spinner.SelectionLeavesChoices | internal/handler/spinner.go:89-113 | a selected option always leaves a choice, and only choices |
| Spinner.PickSpinChoice | internal/handler/spinner.go:164-178 | the random number's candidate: one of the choices, and away from the last restaurant if any choice is |
| Spinner.SpinAvoidsTheLast | internal/handler/spinner.go:162-178 | the candidates are the choices away from the last restaurant whenever there are any, so whenever two choices remain |
| Spinner.ElsewhereInOrder | internal/handler/spinner.go:166-174 | they are numbered in the order of the choices |
| Spinner.WhoseTurn | internal/handler/spinner.go:198-220 | the first of those with fewest picks who were picked longest ago, never being longest |
| Spinner.TurnIsOwed | internal/handler/spinner.go:198-220 | nobody has fewer picks; of those with as few nobody was picked longer ago, never being longest; and nobody before is in the same position |
| TrophyMap.TrophyMapViewport | internal/handler/trophy.go:175-209 | the centre of the least bounds at the zoom for them; a lone point at zoom 13, in the middle of the map |
| TrophyMap.FindZoom | internal/handler/trophy.go:197-205 | the largest zoom in 0..13 that fits, or 0 |
| TrophyMap.FitsFurtherOut | internal/handler/trophy.go:198-205 | fitting is downward closed in zoom |
| TrophyMap.PointsArePaddedIff | internal/handler/trophy.go:175-217 | every visited point lands inside the padded map exactly when some zoom fits |
| TrophyMap.PaddedIsNotClamped | internal/handler/trophy.go:211-217 | inside the padding the 0..100 clamps never act |
| TrophyMap.PaddedIff | internal/handler/trophy.go:211-217 | on the 640 by 360 map inside the padding means 58 pixels from the sides and 74 from top and bottom, the viewport being the middle |
| TrophyMap.WorldIs | internal/handler/trophy.go:219-241 | the world spans 180 west to 180 east, 256 pixels at zoom 0 and 2,097,152 at zoom 13 |
| AuthService.MemoryRepository.UpdateUserLogin | internal/auth/memory_repository.go:63-80 | the whole new maps: the old email's entry goes, the new one points to the user |
| AuthService.MemoryRepository.DeleteSession | internal/auth/memory_repository.go:103-112 | the session goes from all three maps |
| AuthService.MemoryRepository.DeleteExpiredSessions | internal/auth/memory_repository.go:114-130 | deleting while ranging removes exactly the expired sessions and counts them |
| AuthService.Service.CreateOrUpdateUser | internal/auth/service.go:37-80 | the account with the Google ID, else the one with the email, else a new one, with the name, picture and email of the login and its time |
| AuthService.Service.ValidateSession | internal/auth/service.go:103-124 | the user of a session that is found, not expired and allowed; otherwise the session is deleted |
| AuthService.Service.CleanupExpiredSessions | internal/auth/service.go:140-142 | the expired sessions go and are counted |
| AuthService.Service.DeleteSession | internal/auth/service.go:126-138 | the token's session and no other is deleted |
| Sessions.StepKeepsInv | internal/auth/memory_repository.go:54-130 | every operation keeps hash-to-session and session-to-hash inverses over the live sessions, and index entries sound |
| Sessions.RunKeepsInv | internal/auth/memory_repository.go:54-130 | so does any sequence of them |
| Sessions.SessionsComeAndGo | internal/auth/service.go:82-142 | opening a session holds it, closing ends it, the clean-up ends the expired, a check ends an expired or disallowed one, and a login none |
| Sessions.HeldAfter | internal/auth/service.go:82-142 | what a token stands for after any sequence is what its own events make of it |
| Sessions.ValidIff | internal/auth/service.go:103-124 | a token is good exactly when its session was opened and not ended, has not expired, and its user's current email is allowed |
| Sessions.HeldWasOpened | internal/auth/service.go:82-101 | a token stands for a session exactly when it was opened for it and only quiet events followed |
| Sessions.LoginIsFound | internal/auth/service.go:37-80 | the returned user is stored and found under the current email |
| Sessions.LoginIsOf | internal/auth/service.go:37-80 | the account is the one with the Google ID, else with the email, else new; it takes the login's email, name, picture and time; an old one keeps its creation time and Google ID |
| Sessions.GoogleIdComesFirst | internal/auth/service.go:39-46 | whoever signs in with her Google account under somebody else's email gets her own account |
| Sessions.KeysDiffer | internal/auth/memory_repository.go:132-134 | different Google IDs have different keys |
| Sessions.LoginIsLinkedIff | internal/auth/service.go:37-80 | the Google ID finds an account afterwards exactly when it did before or no account had the email |
| Sessions.SecondAccountIsNotLinked | internal/auth/service.go:37-80 | a second Google account under the first one's email is let in, and its ID still finds nobody |
| Sessions.LoginTouchesOneUser | internal/auth/service.go:37-80 | no other account and no session changes |

## Left out

- Text is a sequence of code points. Lower-casing and folding cover ASCII letters, and white space the Latin-1
  characters; Unicode folding, its differences between Go and Postgres, and byte lengths are not modelled
  (truncation of the user agent and address counts characters).
- Times are whole units since Go's zero time; an operation reads the clock once, where the code may read it
  several times. Ratings, averages, coordinates and Mercator arithmetic are exact reals.
- FilterAgreement.FiltersAgreeInEveryStore: assumes, like the code, that the Eastern offset does not change
  around New Year, and a Postgres collation whose lower() is the one case fold.
- MemoryStore.Store.CreateVisit: takes an input that Prepare has accepted, with its photos decoded; the checks
  themselves are in Validation and PreparedPhotos. The same goes for the input of an edit.
- MemoryStore.Store.SaveWantToTry: returns the identifier, where the code returns a pointer into the slice.
- MemoryStore.Store.UpdateVisit: requires that no visit repeats a photo identifier, which holds in every
  reachable store; the last of two would win in the code's map.
- SpinnerData.PickCounts: requires that people have distinct identifiers, as the people table does; the code's
  pointers into the slice are positions here.
- MapPoints.VisitedRestaurantMapPoints: requires that no restaurant has the nil identifier, which holds in
  every reachable store and which the code reads as "no point yet".
- TrophyMap.TrophyMapViewport: starts the bounds from the first point rather than from the largest float; the
  Mercator pair for latitudes is assumed mutually inverse on its clamped range.
- Sort calls are modelled by what sort.Slice promises: an ordered arrangement of the same elements.
- Spinner.SpinPage: leaves out the page's three constant settings, which are only displayed.
- Spinner.PickSpinChoice: the random number is a parameter; the reel of other names is left out.
- PhotoBackfill.Backfill.BackfillPhoto: a lock wait ends after some number of other sessions' commits, given as
  a parameter; statement timeouts, connection failures and process crashes are not modelled.
- JPEG, base64, SHA-256 and UUID generation are deterministic functions or fresh values; the two decoder slots
  are not modelled.
- Locks of the memory store and the repository: each method is one atomic step. A login or session check is
  one step too, though the service makes several repository calls.
- AuditPhotos, which reads one snapshot and changes nothing.
- The other statistics of Stats: averages, best and worst pickers, top restaurants, cities.
- The Postgres store's dines, restaurants, list items and statistics, apart from the filter, the pages, the
  position, the photo rows and the backfill.
- HTTP handlers, forms, cookies, OAuth, HTML, the map image cache, Google Places, configuration, logging,
  metrics and migrations.
