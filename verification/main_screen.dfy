/** The controller logic of the review screen (MainScreen.kt): what it shows
    for a state, and which view-model operations each gesture and button
    runs, in which order. */
module MainScreen {
  import opened Wrappers
  import opened Photos
  import opened MediaStatuses
  import opened UiState
  import opened Dao
  import opened ContentResolver
  import opened ViewModel
  import opened ReviewProperties

  /** Where a drag of the photo card comes to rest. */
  datatype DragAnchors = Left | Center | Right

  /** `currentPhoto`: the photo under the cursor, or none when the cursor is
      outside the queue. */
  function CurrentPhoto(s: MainUiState): (r: Option<Photo>)
    ensures r.None? <==> !(0 <= s.currentPhotoIndex < |s.photos|)
    ensures r.Some? ==> r.value == s.photos[s.currentPhotoIndex]
  {
    if 0 <= s.currentPhotoIndex < |s.photos| then Some(s.photos[s.currentPhotoIndex]) else None
  }

  /** `numToDelete`, the number on the review button: the length of the list
      the review dialog shows. */
  function NumToDelete(s: MainUiState): (n: nat)
    ensures n == |PhotosToDelete(s.photos)|
  {
    CountStatus(s.photos, Delete)
  }

  /** What the centre of the screen shows. */
  datatype Display =
    | SwipeCard(photo: Photo)        // the draggable card of an undecided photo
    | SeekingUnset                   // nothing yet: `findUnsetPhoto` is called
    | ReviewButton(numToDelete: nat) // the review button
    | FetchMoreButton                // "Fetch more photos"

  /** The display decision: while the cached count is positive, the card
      when the photo under the cursor is undecided and a search otherwise;
      once it is not, the review button if something is marked for deletion
      and the fetch button if not. */
  function DisplayOf(s: MainUiState): (d: Display)
    ensures d.SwipeCard? <==> s.numUnset > 0 && CurrentPhoto(s).Some? && CurrentPhoto(s).value.status == Unset
    ensures d.SwipeCard? ==> d.photo == s.photos[s.currentPhotoIndex]
    ensures d.SeekingUnset? <==> s.numUnset > 0 && !(CurrentPhoto(s).Some? && CurrentPhoto(s).value.status == Unset)
    ensures d.ReviewButton? <==> s.numUnset <= 0 && NumToDelete(s) > 0
    ensures d.ReviewButton? ==> d.numToDelete == |PhotosToDelete(s.photos)|
    ensures d.FetchMoreButton? <==> s.numUnset <= 0 && PhotosToDelete(s.photos) == []
  {
    var current := CurrentPhoto(s);
    if s.numUnset > 0 then
      if current.Some? && current.value.status == Unset then SwipeCard(current.value) else SeekingUnset
    else if NumToDelete(s) > 0 then ReviewButton(NumToDelete(s))
    else FetchMoreButton
  }

  /** The state after a drag settles: Left marks the photo under the cursor
      DELETE and moves on, Right marks it KEEP and moves on, Center does nothing. */
  function Settled(s: MainUiState, anchor: DragAnchors): (r: MainUiState)
    requires anchor != Center ==> 0 <= s.currentPhotoIndex < |s.photos|
  {
    match anchor
    case Left => Advanced(Marked(s, Delete, s.currentPhotoIndex))
    case Right => Advanced(Marked(s, Keep, s.currentPhotoIndex))
    case Center => s
  }

  /** One composition of the screen: shows `DisplayOf` the state, and calls
      `findUnsetPhoto` when it has nothing to show yet. */
  method Recompose(vm: MainViewModel) returns (d: Display)
    modifies vm
    ensures d == DisplayOf(old(vm.uiState)) && vm.notices == old(vm.notices)
    ensures d.SeekingUnset? ==> vm.uiState == SoughtUnset(old(vm.uiState))
    ensures !d.SeekingUnset? ==> vm.uiState == old(vm.uiState)
  {
    d := DisplayOf(vm.uiState);
    if d.SeekingUnset? {
      vm.FindUnsetPhoto();
    }
  }

  /** The handler run when a drag of the card settles. */
  method OnSettled(vm: MainViewModel, anchor: DragAnchors, now: int)
    requires vm.Valid()
    requires anchor != Center ==> 0 <= vm.uiState.currentPhotoIndex < |vm.uiState.photos|
    modifies vm, vm.dao
    ensures vm.Valid() && vm.notices == old(vm.notices)
    ensures vm.uiState == Settled(old(vm.uiState), anchor)
    ensures anchor != Right ==> vm.dao.table == old(vm.dao.table)
    ensures anchor == Right ==>
      vm.dao.table == Updated(old(vm.dao.table),
        GetMediaStatusEntity(old(vm.uiState).photos[old(vm.uiState).currentPhotoIndex].WithStatus(Keep), now))
  {
    match anchor
    case Left =>
      vm.MarkPhoto(Delete, vm.uiState.currentPhotoIndex, now);
      vm.NextPhoto();
    case Right =>
      vm.MarkPhoto(Keep, vm.uiState.currentPhotoIndex, now);
      vm.NextPhoto();
    case Center =>
  }

  /** `ReviewDeletedButton.onClick`: nothing when no photo is marked for
      deletion; otherwise the review dialog when it is enabled, and the
      deletion of the review list at once when it is not. */
  method OnReviewButtonClick(vm: MainViewModel, now: int)
    requires vm.Valid()
    modifies vm, vm.dao, vm.resolver
    ensures vm.Valid()
    ensures NumToDelete(old(vm.uiState)) == 0 ==>
      && vm.uiState == old(vm.uiState) && vm.dao.table == old(vm.dao.table)
      && vm.resolver.deletionRequests == old(vm.resolver.deletionRequests) && vm.notices == old(vm.notices)
    ensures NumToDelete(old(vm.uiState)) > 0 && old(vm.uiState).reviewDialogEnabled ==>
      && vm.uiState == old(vm.uiState).(showReviewDialog := true) && vm.dao.table == old(vm.dao.table)
      && vm.resolver.deletionRequests == old(vm.resolver.deletionRequests) && vm.notices == old(vm.notices)
    ensures NumToDelete(old(vm.uiState)) > 0 && !old(vm.uiState).reviewDialogEnabled ==>
      var t := PhotosToDelete(old(vm.uiState).photos);
      && vm.resolver.deletionRequests == old(vm.resolver.deletionRequests) + [Uris(t)]
      && vm.dao.table == UpdatedAll(old(vm.dao.table), Entities(t, now))
      && vm.uiState == Deleted(old(vm.uiState), t, SpaceSaved(vm.dao.table, old(vm.uiState).currentStatsTimeFrame, now))
      && vm.notices == old(vm.notices)
  {
    var numToDelete := NumToDelete(vm.uiState);
    if numToDelete > 0 {
      if vm.uiState.reviewDialogEnabled {
        vm.ShowReviewDialog();
      } else {
        vm.DeletePhotos(PhotosToDelete(vm.uiState.photos), now);
      }
    }
  }

  /** The dialog's per-photo cancel: marks that photo UNSET at its place in
      the queue. The dialog lists photos of the queue, so `p` is one of them. */
  method OnUnsetPhoto(vm: MainViewModel, p: Photo, now: int)
    requires vm.Valid() && p in vm.uiState.photos
    modifies vm, vm.dao
    ensures vm.Valid() && vm.notices == old(vm.notices)
    ensures vm.uiState == Marked(old(vm.uiState), Unset, IndexOf(old(vm.uiState).photos, p))
    ensures vm.dao.table == Updated(old(vm.dao.table), GetMediaStatusEntity(p.WithStatus(Unset), now))
  {
    vm.MarkPhoto(Unset, IndexOf(vm.uiState.photos, p), now);
  }

  /** The dialog's confirm: deletes the review list. */
  method OnConfirmation(vm: MainViewModel, now: int)
    requires vm.Valid()
    modifies vm, vm.dao, vm.resolver
    ensures vm.Valid()
    ensures var t := PhotosToDelete(old(vm.uiState).photos);
      t != [] ==>
      && vm.resolver.deletionRequests == old(vm.resolver.deletionRequests) + [Uris(t)]
      && vm.dao.table == UpdatedAll(old(vm.dao.table), Entities(t, now))
      && vm.uiState == Deleted(old(vm.uiState), t, SpaceSaved(vm.dao.table, old(vm.uiState).currentStatsTimeFrame, now))
      && vm.notices == old(vm.notices)
    ensures PhotosToDelete(old(vm.uiState).photos) == [] ==>
      && vm.uiState == old(vm.uiState) && vm.dao.table == old(vm.dao.table)
      && vm.resolver.deletionRequests == old(vm.resolver.deletionRequests)
      && vm.notices == old(vm.notices) + [NoPhotosDeleted]
  {
    vm.DeletePhotos(PhotosToDelete(vm.uiState.photos), now);
  }

  /** The dialog's dismissal. */
  method OnDismissRequest(vm: MainViewModel)
    modifies vm
    ensures vm.uiState == old(vm.uiState).(showReviewDialog := false) && vm.notices == old(vm.notices)
  {
    vm.DismissReviewDialog();
  }

  /** The dialog's cancel button fetches more photos. */
  method OnCancellation(vm: MainViewModel, photoLimit: int, first: seq<Candidate>, rest: seq<Candidate>,
                        now: int, hashOf: Hasher)
    returns (ghost batch1: seq<Photo>, ghost batch2: seq<Photo>, ghost middle: Table)
    requires vm.Valid()
    modifies vm, vm.dao
    ensures vm.Valid() && vm.notices == old(vm.notices)
    ensures Reconciled(old(vm.dao.table), first, 2, now, hashOf, batch1, middle)
    ensures Reconciled(middle, rest, photoLimit - 2, now, hashOf, batch2, vm.dao.table)
    ensures vm.uiState == AfterGetPhotos(old(vm.uiState), batch1 + batch2, photoLimit)
  {
    batch1, batch2, middle := vm.GetPhotos(photoLimit, first, rest, now, hashOf);
  }

  /** The dialog's "do not ask again". */
  method OnDisableReviewDialog(vm: MainViewModel)
    modifies vm
    ensures vm.uiState == old(vm.uiState).(reviewDialogEnabled := false) && vm.notices == old(vm.notices)
  {
    vm.DisableReviewDialog();
  }

  /** A positive count of some status means a photo with that status. */
  lemma {:induction false} CountPositiveHasMember(ps: seq<Photo>, u: PhotoStatus)
    requires CountStatus(ps, u) > 0
    ensures exists j :: 0 <= j < |ps| && ps[j].status == u
    decreases |ps|
  {
    var n := |ps| - 1;
    if ps[n].status != u {
      CountPositiveHasMember(ps[..n], u);
      var j :| 0 <= j < n && ps[..n][j].status == u;
      assert ps[j].status == u;
    }
  }

  /** A settled swipe on the card keeps the cached count right, and moves
      one photo onto the review list exactly when it went Left. Settling at
      the centre changes nothing. */
  lemma SettleKeepsCount(s: MainUiState, anchor: DragAnchors)
    requires DisplayOf(s).SwipeCard? && CountsUnset(s)
    ensures CountsUnset(Settled(s, anchor))
    ensures NumToDelete(Settled(s, anchor)) == NumToDelete(s) + (if anchor == Left then 1 else 0)
    ensures anchor == Center ==> Settled(s, anchor) == s
  {
    if anchor != Center {
      var st := if anchor == Left then Delete else Keep;
      SwipeKeepsCount(s, st);
      CountAfterSetStatus(s.photos, s.currentPhotoIndex, st, Delete);
    }
  }

  /** While the cached count is right and positive, the search always lands
      on a photo the card can show. */
  lemma SeekFindsCard(s: MainUiState)
    requires CountsUnset(s) && s.numUnset > 0
    ensures DisplayOf(SoughtUnset(s)).SwipeCard?
  {
    CountPositiveHasMember(s.photos, Unset);
  }

  /** When the cached count is positive but every queued photo is decided
      (more photos were asked for than arrived), the search finds nothing,
      and the screen stays in the searching state: searching again gives
      the same state. */
  lemma SeekStallsWhenNoneUnset(s: MainUiState)
    requires s.numUnset > 0 && forall j :: 0 <= j < |s.photos| ==> s.photos[j].status != Unset
    ensures SoughtUnset(s).currentPhotoIndex == -1
    ensures DisplayOf(SoughtUnset(s)).SeekingUnset?
    ensures SoughtUnset(SoughtUnset(s)) == SoughtUnset(s)
  {
  }

  /** Taking a photo off the review list in the dialog keeps the cached count
      right, shortens the list by one and brings the card back. */
  lemma DialogUnsetKeepsCount(s: MainUiState, p: Photo)
    requires CountsUnset(s) && p in PhotosToDelete(s.photos)
    ensures var r := Marked(s, Unset, IndexOf(s.photos, p));
      && CountsUnset(r)
      && NumToDelete(r) == NumToDelete(s) - 1
      && DisplayOf(r).SwipeCard?
  {
    assert p in s.photos && p.status == Delete;
    var i := IndexOf(s.photos, p);
    assert s.photos[i].status == Delete;
    UnmarkKeepsCount(s, i);
    CountAfterSetStatus(s.photos, i, Unset, Delete);
    var r := Marked(s, Unset, i);
    assert r.numUnset > 0 && CurrentPhoto(r) == Some(r.photos[r.currentPhotoIndex]);
  }

  /** Confirming empties the review list and, when the count was right,
      keeps it right. */
  lemma ConfirmClearsReviewList(s: MainUiState, saved: int)
    ensures var r := Deleted(s, PhotosToDelete(s.photos), saved);
      && NumToDelete(r) == 0
      && (CountsUnset(s) ==> CountsUnset(r))
  {
    DeleteKeepsCount(s, saved);
  }
}
