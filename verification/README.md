# PhotoSwooper triage engine

PhotoSwooper lets its user swipe through photos from the device's media
index: left marks a photo for deletion, right keeps it. The marked photos
are then reviewed in a dialog and deleted. This project models the engine
behind that screen, and proves properties of the model.

- **Reconciliation scan** (`ContentResolverInterface.getPhotos`). It walks
  the rows of the media index. For each row it looks up the status store by
  platform id and by content hash, then skips the row, re-points a known
  record to the new id, or hands the photo on as new with an UNSET record.
  It stops once its counter has passed the number of photos asked for. The
  loop is a method (`ContentResolver.ContentResolverInterface.GetPhotos`).
  It is proved to compute the fold `ContentResolver.Run` of the one-turn
  function `Step`, over the answers its id lookups received.
  `ReconcileProperties` proves what every such run guarantees.
- **Status store** (`MediaStatusDao`). A class holding the `mediaStatus`
  table as a map from content hash (the primary key) to record. Room's
  update, insert-with-REPLACE and delete become methods, and the queries
  become functions and methods.
- **Review state machine** (`MainViewModel`). A class holding the current
  `MainUiState` value: the photo queue, the cursor `currentPhotoIndex`, the
  cached `numUnset`, the dialog and info flags and the space-saved
  statistic. Each operation replaces that value with a modified copy, as
  `_uiState.update` does. Each method is proved to perform one transition
  function (`Marked`, `Advanced`, `SoughtUnset`, `Undone`, `Deleted`,
  `AfterGetPhotos`). `ReviewProperties` proves what the transitions do to
  the invariant `numUnset == count(UNSET)` and to the queue.
- **Screen controller** (`MainScreen`). What the screen shows for a state,
  and which view-model operations the swipe, the review button and the
  dialog callbacks run, in which order.

Integers are unbounded. The clock reading is a parameter `now`. The content
hash is a parameter `hashOf` of type `seq<bv8> -> string`.

## Model

| member | source | states |
|---|---|---|
| Photos.Photo.WithStatus | app/src/main/java/top/madkarma/photoswooper/data/models/Photo.kt:15-27 | a status change yields a photo with the new status that is equal to the old one in every other field; `status` is the only field that can change |
| MediaStatuses.GetMediaStatusEntity | app/src/main/java/top/madkarma/photoswooper/data/models/Photo.kt:40-52 | the record copies the hash, uses the photo id as `mediaStoreId`, copies status and size, and is dated by the clock reading passed in |
| UiState.Milliseconds | app/src/main/java/com/example/photoswooper/data/uistates/MainUiState.kt:5-10 | every window length is positive |
| UiState.Ordinal | app/src/main/java/com/example/photoswooper/data/uistates/MainUiState.kt:5-10 | the ordinal of a window is its position in `TimeFrame.entries` |
| UiState.TimeFrameDurations | app/src/main/java/com/example/photoswooper/data/uistates/MainUiState.kt:5-10 | DAY is 86 400 000 ms, WEEK is 7 DAYs, YEAR is 12 MONTHs, and lengths grow strictly along the ordinal order |
| UiState.DefaultUiStateValues | app/src/main/java/com/example/photoswooper/data/uistates/MainUiState.kt:12-22 | the default state: empty queue, cursor 0, `numUnset` 0, dialog hidden, review enabled, info hidden, window WEEK, statistic 0 |
| UiState.NextTimeFrame | app/src/main/java/top/madkarma/photoswooper/ui/view/MainViewModel.kt:229-234 | the successor window has ordinal (ordinal + 1) mod 4: the next entry, and the first after the last |
| UiState.CycleReturnsAfterFour | app/src/main/java/top/madkarma/photoswooper/ui/view/MainViewModel.kt:228-241 | cycling goes DAY, WEEK, MONTH, YEAR, DAY, and four cycles (and no fewer) return to the starting window |
| Dao.Lookup | app/src/main/java/com/example/photoswooper/data/database/MediaStatusDao.kt:15-16 | `findByHash` over a table: the row stored under the hash exactly when there is one, otherwise none |
| Dao.Updated | app/src/main/java/com/example/photoswooper/data/database/MediaStatusDao.kt:21-22 | `@Update`: the row under `r.fileHash` becomes `r` when it exists, every other row is unchanged and no key is added; a record with no stored row changes nothing |
| Dao.Inserted | app/src/main/java/com/example/photoswooper/data/database/MediaStatusDao.kt:24-25 | `@Insert` with REPLACE: afterwards the row under `r.fileHash` is exactly `r`, the key set gains that key only, and other rows are unchanged |
| Dao.Removed | app/src/main/java/com/example/photoswooper/data/database/MediaStatusDao.kt:27-28 | `@Delete`: only the key `r.fileHash` is removed, and the remaining rows are unchanged |
| Dao.UpdatedAll | app/src/main/java/top/madkarma/photoswooper/ui/view/MainViewModel.kt:150-154 | a sequence of `update` calls never changes the key set |
| Dao.SumOfEnumeration | app/src/main/java/top/madkarma/photoswooper/ui/view/MainViewModel.kt:250 | `sum()` over the sizes a query lists, one per distinct row, equals the total size of the set of those rows, whatever the order |
| Dao.MediaStatusDao.constructor | app/src/main/java/top/madkarma/photoswooper/data/database/MediaStatus.kt:9-18 | a store opens on a table that respects the primary key on `fileHash` |
| Dao.MediaStatusDao.FindByHash | app/src/main/java/com/example/photoswooper/data/database/MediaStatusDao.kt:15-16 | returns the row keyed by the hash, whose own hash is that hash, or none exactly when there is no such row |
| Dao.MediaStatusDao.FindByMediaStoreId | app/src/main/java/com/example/photoswooper/data/database/MediaStatusDao.kt:18-19 | returns some stored row carrying the id, or none exactly when no row carries it (LIMIT 1 with no ordering, over a non-unique index) |
| Dao.MediaStatusDao.GetSizeBetweenDates | app/src/main/java/com/example/photoswooper/data/database/MediaStatusDao.kt:12-13 | returns one size per row, for exactly the rows with the given status and `firstDate <= dateModified <= secondDate`, each row once: as many sizes as such rows, adding up to their total size |
| Dao.MediaStatusDao.Update | app/src/main/java/com/example/photoswooper/data/database/MediaStatusDao.kt:21-22 | the table becomes `Updated(old table, r)`, and the primary-key discipline is kept |
| Dao.MediaStatusDao.Insert | app/src/main/java/com/example/photoswooper/data/database/MediaStatusDao.kt:24-25 | the table becomes `Inserted(old table, r)`, and the primary-key discipline is kept |
| Dao.MediaStatusDao.Delete | app/src/main/java/com/example/photoswooper/data/database/MediaStatusDao.kt:27-28 | the table becomes `Removed(old table, r)`, and the primary-key discipline is kept |
| ContentResolver.PhotosOf | app/src/main/java/top/madkarma/photoswooper/utils/ContentResolverInterface.kt:101-128 | candidate `i` becomes photo `i`: id, URI, hash, size and metadata copied, date taken if positive else date added, status UNSET |
| ContentResolver.Classify | app/src/main/java/top/madkarma/photoswooper/utils/ContentResolverInterface.kt:137-161 | the three-way rule: skip exactly when the id lookup found a decided row; otherwise re-point exactly when the hash lookup found a row (that row); otherwise a new photo |
| ContentResolver.RunSnoc | app/src/main/java/top/madkarma/photoswooper/utils/ContentResolverInterface.kt:74-96 | one more row of the stream is one more turn of the loop, and its id lookup answer must be one the store could give at that point |
| ContentResolver.ContentResolverInterface.constructor | app/src/main/java/top/madkarma/photoswooper/utils/ContentResolverInterface.kt:23-26 | the interface is bound to the given store and no deletion has been requested |
| ContentResolver.ContentResolverInterface.AddPhoto | app/src/main/java/top/madkarma/photoswooper/utils/ContentResolverInterface.kt:101-135 | the nested `addPhoto` builds the candidate's photo and inserts its record with REPLACE |
| ContentResolver.ContentResolverInterface.GetPhotos | app/src/main/java/top/madkarma/photoswooper/utils/ContentResolverInterface.kt:30-167 | the photos handed to `onAddPhoto`, in order, and the final store are those of the reconciliation fold over the rows read, with legal id-lookup answers; the loop either reads every row or returns at the limit |
| ContentResolver.ContentResolverInterface.DeletePhotos | app/src/main/java/top/madkarma/photoswooper/utils/ContentResolverInterface.kt:169-195 | exactly one deletion request, for exactly the URIs given, is recorded |
| ReconcileProperties.StepEmission | app/src/main/java/top/madkarma/photoswooper/utils/ContentResolverInterface.kt:96-164 | one turn hands on at most the candidate's own photo, and only while under the limit; the scan returns exactly when the counter has passed `numPhotos` |
| ReconcileProperties.StepTable | app/src/main/java/top/madkarma/photoswooper/utils/ContentResolverInterface.kt:137-161 | one turn keeps the primary key, loses no row, changes no stored decision, adds only UNSET rows, and hands a photo on only when its hash had no row or an UNSET one |
| ReconcileProperties.RunKeepsDecisions | app/src/main/java/top/madkarma/photoswooper/utils/ContentResolverInterface.kt:137-161 | over any number of rows: no row lost, no stored decision changed, every new row UNSET |
| ReconcileProperties.RunEmitCount | app/src/main/java/top/madkarma/photoswooper/utils/ContentResolverInterface.kt:96-164 | over any number of rows at most `numPhotos + 1` photos are handed on, and exactly that many when the scan returned early |
| ReconcileProperties.RunEmitsInOrder | app/src/main/java/top/madkarma/photoswooper/utils/ContentResolverInterface.kt:74-160 | the photos handed on are a subsequence of the candidates' photos, in stream order |
| ReconcileProperties.RunNeverReemitsDecided | app/src/main/java/top/madkarma/photoswooper/utils/ContentResolverInterface.kt:137-160 | no photo is handed on whose hash had a decided row when the scan began |
| ReconcileProperties.ReconcileEmitBound | app/src/main/java/top/madkarma/photoswooper/utils/ContentResolverInterface.kt:96-164 | a call hands on at most `numPhotos + 1` photos, and never more than the stream holds |
| ReconcileProperties.ReconcileEmitsCandidates | app/src/main/java/top/madkarma/photoswooper/utils/ContentResolverInterface.kt:101-130 | every photo a call hands on is UNSET and is the photo of one of the candidates, and they come in stream order |
| ReconcileProperties.ReconcileKeepsDecisions | app/src/main/java/top/madkarma/photoswooper/utils/ContentResolverInterface.kt:137-161 | after a call the primary key holds, no row is lost, no decision is changed, and new rows are UNSET |
| ReconcileProperties.ReconcileSkipsDecidedContent | app/src/main/java/top/madkarma/photoswooper/utils/ContentResolverInterface.kt:137-160 | content already kept or deleted is never handed on again, whatever id the index now gives it |
| ReconcileProperties.SingleCandidateRun | app/src/main/java/top/madkarma/photoswooper/utils/ContentResolverInterface.kt:74-165 | a one-row call makes one legal id lookup and performs exactly one turn |
| ReconcileProperties.SkippedByDecidedId | app/src/main/java/top/madkarma/photoswooper/utils/ContentResolverInterface.kt:137-139 | a row whose id is carried only by decided rows is skipped: nothing handed on, nothing written |
| ReconcileProperties.RepointedByHash | app/src/main/java/top/madkarma/photoswooper/utils/ContentResolverInterface.kt:142-156 | a row not skipped by id whose hash has a row: that row moves to the new id with a fresh date and keeps its decision (even when the id was unchanged), and the photo is handed on, its record replacing the row, only when the decision is UNSET |
| ReconcileProperties.InsertedWhenNew | app/src/main/java/top/madkarma/photoswooper/utils/ContentResolverInterface.kt:157-160 | a row not skipped by id whose hash has no row is handed on, and an UNSET record for it is inserted under its hash |
| ReconcileProperties.FreshStepIsAdd | app/src/main/java/top/madkarma/photoswooper/utils/ContentResolverInterface.kt:157-160 | a turn under the limit on a row with new content and no decided row for its id is exactly the nested `addPhoto` |
| ReconcileProperties.FreshStepStops | app/src/main/java/top/madkarma/photoswooper/utils/ContentResolverInterface.kt:162-164 | a turn past the limit returns and changes nothing else |
| ReconcileProperties.RunAllFresh | app/src/main/java/top/madkarma/photoswooper/utils/ContentResolverInterface.kt:74-164 | over rows of pairwise distinct new content, the scan has handed on exactly the first `min(k, numPhotos + 1)` candidates' photos and has returned exactly when `k > numPhotos + 1` |
| ReconcileProperties.AllFreshHandedOnUpToLimit | app/src/main/java/top/madkarma/photoswooper/utils/ContentResolverInterface.kt:96-164 | with only new content a call hands on exactly the first `min(|stream|, numPhotos + 1)` candidates' photos: one more than `numPhotos` when the stream is long enough |
| ReconcileProperties.DuplicateContentHandedOnTwice | app/src/main/java/top/madkarma/photoswooper/utils/ContentResolverInterface.kt:137-160 | two files with the same content and different ids are both handed on in one call, with the same hash |
| ViewModel.IndexOfFirst | app/src/main/java/top/madkarma/photoswooper/ui/view/MainViewModel.kt:111 | `indexOfFirst`: the smallest index with the status, or -1 exactly when no photo has it |
| ViewModel.IndexOf | app/src/main/java/top/madkarma/photoswooper/ui/view/MainScreen.kt:170 | `indexOf`: the smallest index holding an equal photo, or -1 exactly when there is none |
| ViewModel.PhotosToDelete | app/src/main/java/top/madkarma/photoswooper/ui/view/MainViewModel.kt:34-36 | `getPhotosToDelete`: holds exactly the DELETE photos of the queue, as many as the queue has |
| ViewModel.WithoutMembers | app/src/main/java/top/madkarma/photoswooper/ui/view/MainViewModel.kt:161-163 | the filter keeps exactly the photos equal to none of the deleted ones |
| ViewModel.Uris | app/src/main/java/top/madkarma/photoswooper/ui/view/MainViewModel.kt:146 | one URI per photo to delete, in order |
| ViewModel.Entities | app/src/main/java/top/madkarma/photoswooper/ui/view/MainViewModel.kt:151-153 | one record per photo to delete, in order, each that photo's entity |
| ViewModel.AfterGetPhotos | app/src/main/java/top/madkarma/photoswooper/ui/view/MainViewModel.kt:49-74 | arrivals are appended after the queue in arrival order, the cursor goes to 0 and `numUnset` to `photoLimit`; nothing else changes |
| ViewModel.Marked | app/src/main/java/top/madkarma/photoswooper/ui/view/MainViewModel.kt:76-96 | only photo `i` changes, and only its status; marking UNSET puts the cursor on the first UNSET photo, at or before `i`, and adds one to `numUnset`; KEEP and DELETE leave cursor and count alone |
| ViewModel.Advanced | app/src/main/java/top/madkarma/photoswooper/ui/view/MainViewModel.kt:98-106 | the cursor moves forward by one and `numUnset` drops by one; nothing else changes |
| ViewModel.SoughtUnset | app/src/main/java/top/madkarma/photoswooper/ui/view/MainViewModel.kt:108-114 | the cursor goes to the first UNSET photo, or to -1 exactly when there is none; nothing else changes |
| ViewModel.Undone | app/src/main/java/top/madkarma/photoswooper/ui/view/MainViewModel.kt:116-126 | the cursor steps back by one, `numUnset` grows by one, and the photo now under the cursor is UNSET; nothing else changes |
| ViewModel.Deleted | app/src/main/java/top/madkarma/photoswooper/ui/view/MainViewModel.kt:156-167 | the dialog closes, exactly the deleted photos leave the queue, the cursor drops by their number with no floor, and the statistic is refreshed |
| ViewModel.MainViewModel.constructor | app/src/main/java/top/madkarma/photoswooper/ui/view/MainViewModel.kt:38-46 | the view model starts from the default state with the statistic for the default window filled in |
| ViewModel.MainViewModel.GetSpaceSavedInTimeFrame | app/src/main/java/top/madkarma/photoswooper/ui/view/MainViewModel.kt:242-251 | the result is the total size of the DELETE rows modified in `[now - window, now]`, 0 when there are none |
| ViewModel.MainViewModel.GetPhotos | app/src/main/java/top/madkarma/photoswooper/ui/view/MainViewModel.kt:49-74 | two reconciliation calls asking for 2 and `photoLimit - 2` photos, chained through the store; the queue then moves as `AfterGetPhotos` says |
| ViewModel.MainViewModel.MarkPhoto | app/src/main/java/top/madkarma/photoswooper/ui/view/MainViewModel.kt:76-96 | the queue moves as `Marked` says; the photo's record, with its new status, is written back unless the status is DELETE, in which case the store is untouched |
| ViewModel.MainViewModel.NextPhoto | app/src/main/java/top/madkarma/photoswooper/ui/view/MainViewModel.kt:98-106 | the state moves as `Advanced` says |
| ViewModel.MainViewModel.FindUnsetPhoto | app/src/main/java/top/madkarma/photoswooper/ui/view/MainViewModel.kt:108-114 | the state moves as `SoughtUnset` says |
| ViewModel.MainViewModel.Undo | app/src/main/java/top/madkarma/photoswooper/ui/view/MainViewModel.kt:116-141 | with the cursor at or below 0 nothing changes and the "Nothing to undo" notice is recorded; otherwise the state moves as `Undone` says and the reset photo's record is written back |
| ViewModel.MainViewModel.DeletePhotos | app/src/main/java/top/madkarma/photoswooper/ui/view/MainViewModel.kt:143-178 | with an empty list only the "No photos were deleted" notice; otherwise one deletion request for exactly their URIs, each record written back, and the state moves as `Deleted` says, with the statistic taken after the writes |
| ViewModel.MainViewModel.ShowReviewDialog | app/src/main/java/top/madkarma/photoswooper/ui/view/MainViewModel.kt:180-186 | only the dialog flag changes, to shown |
| ViewModel.MainViewModel.DismissReviewDialog | app/src/main/java/top/madkarma/photoswooper/ui/view/MainViewModel.kt:187-193 | only the dialog flag changes, to hidden |
| ViewModel.MainViewModel.ToggleInfo | app/src/main/java/top/madkarma/photoswooper/ui/view/MainViewModel.kt:195-201 | only the info flag changes, to its negation |
| ViewModel.MainViewModel.DisableReviewDialog | app/src/main/java/top/madkarma/photoswooper/ui/view/MainViewModel.kt:220-226 | only the review-enabled flag changes, to false |
| ViewModel.MainViewModel.CycleStatsTimeFrame | app/src/main/java/top/madkarma/photoswooper/ui/view/MainViewModel.kt:228-241 | the window moves to its successor and the statistic becomes the space saved in that window |
| ReviewProperties.CountAfterSetStatus | app/src/main/java/top/madkarma/photoswooper/ui/view/MainViewModel.kt:79 | setting one photo's status moves exactly one unit between the status counts |
| ReviewProperties.WithoutIsSubsequence | app/src/main/java/top/madkarma/photoswooper/ui/view/MainViewModel.kt:161-163 | the filter keeps the remaining photos in queue order |
| ReviewProperties.PhotosToDeleteIsSubsequence | app/src/main/java/top/madkarma/photoswooper/ui/view/MainViewModel.kt:34-36 | the review list is the DELETE photos in queue order |
| ReviewProperties.WithoutDecided | app/src/main/java/top/madkarma/photoswooper/ui/view/MainViewModel.kt:158-164 | removing exactly the DELETE photos removes no UNSET photo, leaves no DELETE photo, and shortens the queue by the number of DELETE photos |
| ReviewProperties.SwipeKeepsCount | app/src/main/java/top/madkarma/photoswooper/ui/view/MainScreen.kt:144-163 | a KEEP or DELETE mark followed by `nextPhoto` keeps `numUnset` equal to the UNSET count exactly when the photo was UNSET, records the decision and moves one step on |
| ReviewProperties.UnmarkKeepsCount | app/src/main/java/top/madkarma/photoswooper/ui/view/MainViewModel.kt:87-95 | marking a decided photo UNSET keeps the count right (marking an UNSET one breaks it), and the cursor lands on an UNSET photo at or before it |
| ReviewProperties.UndoKeepsCount | app/src/main/java/top/madkarma/photoswooper/ui/view/MainViewModel.kt:116-126 | `undo` keeps the count right exactly when the photo it steps back to was decided |
| ReviewProperties.DeleteKeepsCount | app/src/main/java/top/madkarma/photoswooper/ui/view/MainViewModel.kt:143-167 | deleting the review list keeps a right count right, removes exactly the DELETE photos and keeps the rest in order |
| ReviewProperties.DeleteAtEndKeepsCursorAtEnd | app/src/main/java/top/madkarma/photoswooper/ui/view/MainViewModel.kt:164 | with the cursor one past the end, deleting the review list leaves it one past the end of the shorter queue |
| ReviewProperties.DialogUnsetThenConfirmUnderflows | app/src/main/java/top/madkarma/photoswooper/ui/view/MainViewModel.kt:164 | the cursor has no floor: after two DELETE swipes, taking the first photo back in the dialog and confirming leaves the cursor at -1 |
| ReviewProperties.AfterGetPhotosCount | app/src/main/java/top/madkarma/photoswooper/ui/view/MainViewModel.kt:68-73 | after `getPhotos` the count is right exactly when `photoLimit` equals the UNSET photos already queued plus the arrivals |
| ReviewProperties.GetPhotosCount | app/src/main/java/top/madkarma/photoswooper/ui/view/MainViewModel.kt:49-73 | the same for the photos two reconciliation calls actually hand on |
| ReviewProperties.MarkingDeletedAddsToSpaceSaved | app/src/main/java/top/madkarma/photoswooper/ui/view/MainViewModel.kt:150-165 | writing back a DELETE record dated inside the window, for a row that was not DELETE, adds exactly its size to the statistic |
| ReviewProperties.MarkingKeptLeavesSpaceSaved | app/src/main/java/top/madkarma/photoswooper/ui/view/MainViewModel.kt:82-85 | writing back a record that is not DELETE, for a row that was not DELETE, leaves the statistic unchanged |
| ReviewProperties.UpdatedAllKeeps | app/src/main/java/top/madkarma/photoswooper/ui/view/MainViewModel.kt:150-154 | the `forEach` of updates keeps the primary-key discipline and leaves every row it does not name unchanged |
| ReviewProperties.DeleteAddsToSpaceSaved | app/src/main/java/top/madkarma/photoswooper/ui/view/MainViewModel.kt:143-167 | writing back the records of DELETE photos with distinct contents and stored rows not yet DELETE raises the statistic by exactly their total size |
| ReviewProperties.KeepThenScanSkips | app/src/main/java/top/madkarma/photoswooper/ui/view/MainViewModel.kt:82-85 | once a photo's stored row is written back as KEEP, a later scan never hands that content on again and the row stays KEEP |
| MainScreen.CurrentPhoto | app/src/main/java/top/madkarma/photoswooper/ui/view/MainScreen.kt:94-98 | `currentPhoto` is null exactly when the cursor is outside the queue, and otherwise the photo under it |
| MainScreen.NumToDelete | app/src/main/java/top/madkarma/photoswooper/ui/view/MainScreen.kt:93 | `numToDelete` is the length of the review list |
| MainScreen.DisplayOf | app/src/main/java/top/madkarma/photoswooper/ui/view/MainScreen.kt:183-226 | the card exactly when `numUnset > 0` and the current photo is UNSET; the search exactly when `numUnset > 0` and it is not; the review button exactly when `numUnset <= 0` and something is marked DELETE; the fetch button otherwise |
| MainScreen.Recompose | app/src/main/java/top/madkarma/photoswooper/ui/view/MainScreen.kt:183-208 | a composition shows `DisplayOf` the state and calls `findUnsetPhoto` exactly when it has nothing to show yet |
| MainScreen.OnSettled | app/src/main/java/top/madkarma/photoswooper/ui/view/MainScreen.kt:144-163 | Left is a DELETE mark then `nextPhoto`, with the store untouched; Right is a KEEP mark then `nextPhoto`, with the KEEP record written back; Center changes nothing |
| MainScreen.OnReviewButtonClick | app/src/main/java/top/madkarma/photoswooper/ui/view/MainScreen.kt:370-376 | nothing when no photo is marked DELETE; otherwise the dialog if review is enabled, and an immediate deletion of the review list if not |
| MainScreen.OnUnsetPhoto | app/src/main/java/top/madkarma/photoswooper/ui/view/MainScreen.kt:170 | the dialog's per-photo cancel marks that photo UNSET at its index in the queue and writes its record back |
| MainScreen.OnConfirmation | app/src/main/java/top/madkarma/photoswooper/ui/view/MainScreen.kt:171 | the dialog's confirm deletes exactly the review list, with no notice; an empty list changes nothing but the "No photos were deleted" notice |
| MainScreen.OnDismissRequest | app/src/main/java/top/madkarma/photoswooper/ui/view/MainScreen.kt:168 | dismissal only hides the dialog |
| MainScreen.OnCancellation | app/src/main/java/top/madkarma/photoswooper/ui/view/MainScreen.kt:169 | the dialog's cancel fetches more photos, as `getPhotos` does |
| MainScreen.OnDisableReviewDialog | app/src/main/java/top/madkarma/photoswooper/ui/view/MainScreen.kt:172 | "do not ask again" only turns review off |
| MainScreen.SettleKeepsCount | app/src/main/java/top/madkarma/photoswooper/ui/view/MainScreen.kt:144-163 | a settled swipe on the card keeps the count right and adds one to `numToDelete` exactly when it went Left; Center changes nothing |
| MainScreen.SeekFindsCard | app/src/main/java/top/madkarma/photoswooper/ui/view/MainScreen.kt:183-207 | while the count is right and positive, the search lands on a photo the card can show |
| MainScreen.SeekStallsWhenNoneUnset | app/src/main/java/top/madkarma/photoswooper/ui/view/MainScreen.kt:183-208 | with `numUnset > 0` and no UNSET photo queued, the search sets the cursor to -1 and the screen stays searching, with the same state on every recomposition |
| MainScreen.DialogUnsetKeepsCount | app/src/main/java/top/madkarma/photoswooper/ui/view/MainScreen.kt:170 | taking a photo off the review list keeps the count right, shortens the list by one and brings the card back |
| MainScreen.ConfirmClearsReviewList | app/src/main/java/top/madkarma/photoswooper/ui/view/MainScreen.kt:171 | confirming empties the review list and keeps a right count right |

## Left out

- The media-index query, its column reads, URI building and input streams, and EXIF location reading (ContentResolverInterface.kt:38-87, 108-115). Each call receives its rows as a sequence of `Candidate` values, and the location EXIF reports is a field of the candidate.
- The SHA-512 digest and its hex encoding (ContentResolverInterface.kt:88-91). The hash is the caller-supplied function `hashOf`. The `TODO()` branches for old platform versions are not modelled.
- Platform deletion (`ContentResolverInterface.deletePhotos`, 169-195). Only the list of URIs requested is recorded, in `deletionRequests`. Whether the user grants the request is not modelled; nor is the per-URI delete on old platforms.
- Coroutines. Store writes launched on the IO dispatcher, and the second `getPhotos` batch launched in the background, are modelled as running immediately and in program order. So the model does not capture the interleavings the source allows. Two examples: the statistic in `deletePhotos` may be computed before the launched writes land; the second batch's photos may arrive after the cursor and `numUnset` are reset.
- `ViewModel.MainViewModel.GetPhotos` and `MainScreen.OnCancellation` take the two candidate streams as separate inputs. Each scan orders the index by `RANDOM()`, so each sees its own order of the index.
- Toasts are recorded only as `Notice` values. The "No photos were deleted" toast is shown only on platform R and later; the model records it always.
- `openLocationInMapsApp`, `sharePhoto` (MainViewModel.kt:203-218) and `Photo.getFormattedDate` (Photo.kt:28-38). These are intents and date formatting that depend on the time zone.
- The `location` array is floating point and compared by reference. It is carried as an opaque handle (`LatLong`), so two photos are equal only when their handles are.
- The `photos` list is a `MutableList` shared between successive state copies, and `Photo.status` is assigned in place. The model holds the queue as a value in `uiState` and replaces it. It does not capture aliasing: a `Photo` object held by a list outside the state (the dialog's list) also sees the new status.
- `ViewModel.MainViewModel.MarkPhoto` requires the index to lie inside the queue, and `ViewModel.MainViewModel.Undo` requires a positive cursor to be at most the queue length. Outside those bounds the source throws `IndexOutOfBoundsException`, which is not modelled.
- `deletePhotos` re-checks the list for emptiness inside its non-empty branch (MainViewModel.kt:158). That branch cannot be taken, so it is not modelled.
- `photoLimit` is defined outside the shown sources. It is a parameter.
- One clock reading `now` per call stands for readings the source takes separately. The scan reads the clock once per row, and `deletePhotos` reads it for each record written and again for the statistic's window end.
- ReviewProperties.DeleteAddsToSpaceSaved: covers only review lists whose photos have distinct contents, each with a stored row that is not yet DELETE. Two queued photos with the same content (see `ReconcileProperties.DuplicateContentHandedOnTwice`) update one row, which is counted once. A photo with no stored row is a no-op under `update` and adds nothing.
- 64-bit `Long` and 32-bit `Int` wrap-around are not modelled. Sizes, dates, the cursor and the counts are unbounded integers.
- The Compose UI (rendering, drag physics, haptics, blur, `InfoRow`, `Info`), both `ReviewDialog` files, `MainActivity`, `MediaStatusDatabase` and the build configuration. The older-package copy of `MediaStatus.kt` is identical and is not modelled separately.
- `MainScreen.Settled` has no contract of its own. `MainScreen.OnSettled` is proved to perform it, and `MainScreen.SettleKeepsCount` states what it does.

Behaviour of the code worth noting (the model follows it):

- A scan hands on up to `numPhotos + 1` photos, because the check `numPhotosAdded <= numPhotos` precedes each addition (`ReconcileProperties.AllFreshHandedOnUpToLimit`).
- Two files with the same content are both handed on in one scan (`ReconcileProperties.DuplicateContentHandedOnTwice`).
- `getPhotos` sets `numUnset` to `photoLimit` however many photos arrive (`ReviewProperties.AfterGetPhotosCount`). When fewer arrive, the screen keeps searching with the cursor at -1 (`MainScreen.SeekStallsWhenNoneUnset`).
- `deletePhotos` lowers the cursor with no floor (`ReviewProperties.DialogUnsetThenConfirmUnderflows`).
