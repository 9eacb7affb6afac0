/** The review state machine (MainViewModel.kt): a photo queue with a cursor
    and a cached count of undecided photos, the review-dialog flags and the
    space-saved statistic, driven by the screen and backed by the status store. */
module ViewModel {
  import opened Wrappers
  import opened Photos
  import opened MediaStatuses
  import opened UiState
  import opened Dao
  import opened Sequences
  import opened ContentResolver

  /** Number of photos carrying status `s` (`count { it.status == s }`). */
  function CountStatus(ps: seq<Photo>, s: PhotoStatus): (n: nat)
    ensures n <= |ps|
    decreases |ps|
  {
    if ps == [] then 0
    else CountStatus(ps[..|ps| - 1], s) + (if ps[|ps| - 1].status == s then 1 else 0)
  }

  /** `indexOfFirst { it.status == s }`: the smallest index with status `s`,
      or -1 when there is none. */
  function IndexOfFirst(ps: seq<Photo>, s: PhotoStatus): (i: int)
    ensures -1 <= i < |ps|
    ensures i == -1 <==> forall j :: 0 <= j < |ps| ==> ps[j].status != s
    ensures 0 <= i ==> ps[i].status == s && forall j :: 0 <= j < i ==> ps[j].status != s
    decreases |ps|
  {
    if ps == [] then -1
    else if ps[0].status == s then 0
    else
      var k := IndexOfFirst(ps[1..], s);
      if k == -1 then -1 else k + 1
  }

  /** `indexOf(p)`: the smallest index holding a photo equal to `p`, or -1. */
  function IndexOf(ps: seq<Photo>, p: Photo): (i: int)
    ensures -1 <= i < |ps|
    ensures i == -1 <==> p !in ps
    ensures 0 <= i ==> ps[i] == p && forall j :: 0 <= j < i ==> ps[j] != p
    decreases |ps|
  {
    if ps == [] then -1
    else if ps[0] == p then 0
    else
      var k := IndexOf(ps[1..], p);
      if k == -1 then -1 else k + 1
  }

  /** `getPhotosToDelete`: the photos marked DELETE, in queue order. */
  function PhotosToDelete(ps: seq<Photo>): (r: seq<Photo>)
    ensures forall p :: p in r <==> p in ps && p.status == Delete
    ensures |r| == CountStatus(ps, Delete)
    decreases |ps|
  {
    if ps == [] then []
    else
      var n := |ps| - 1;
      if ps[n].status == Delete then PhotosToDelete(ps[..n]) + [ps[n]] else PhotosToDelete(ps[..n])
  }

  /** `filter { !photosToDelete.contains(it) }`: the photos equal to none of
      `t`, in queue order. */
  function Without(ps: seq<Photo>, t: seq<Photo>): seq<Photo>
    decreases |ps|
  {
    if ps == [] then []
    else
      var n := |ps| - 1;
      if ps[n] in t then Without(ps[..n], t) else Without(ps[..n], t) + [ps[n]]
  }

  /** The filter drops exactly the photos equal to one of `t`. */
  lemma {:induction false} WithoutMembers(ps: seq<Photo>, t: seq<Photo>)
    ensures forall p :: p in Without(ps, t) <==> p in ps && p !in t
    decreases |ps|
  {
    if ps != [] {
      var n := |ps| - 1;
      WithoutMembers(ps[..n], t);
      assert ps == ps[..n] + [ps[n]];
    }
  }

  /** The URIs handed to the platform for deletion, one per photo, in order. */
  function Uris(t: seq<Photo>): (us: seq<Uri>)
    ensures |us| == |t| && forall i :: 0 <= i < |t| ==> us[i] == t[i].uri
  {
    seq(|t|, i requires 0 <= i < |t| => t[i].uri)
  }

  /** The records written back for some photos, one per photo, in order. */
  function Entities(t: seq<Photo>, now: int): (rs: seq<MediaStatus>)
    ensures |rs| == |t| && forall i :: 0 <= i < |t| ==> rs[i] == GetMediaStatusEntity(t[i], now)
  {
    seq(|t|, i requires 0 <= i < |t| => GetMediaStatusEntity(t[i], now))
  }

  /** The total size of the DELETE rows modified within `frame` of `now`,
      both ends included: what the space-saved statistic shows. */
  ghost function SpaceSaved(table: Table, frame: TimeFrame, now: int): int
  {
    SizeSum(table, Selected(table, now - Milliseconds(frame), now, Delete))
  }

  /** The user-visible notices (toasts). */
  datatype Notice = NothingToUndo | NoPhotosDeleted

  // The state transitions, one per operation. Each method of the view model
  // below is proved to perform exactly its transition.

  /** After `getPhotos`: arrivals appended in order, the cursor back at the
      start and the undecided count set to the batch size asked for. */
  function AfterGetPhotos(s: MainUiState, arrived: seq<Photo>, photoLimit: int): (r: MainUiState)
    ensures |r.photos| == |s.photos| + |arrived|
    ensures r.photos[..|s.photos|] == s.photos && r.photos[|s.photos|..] == arrived
    ensures r.currentPhotoIndex == 0 && r.numUnset == photoLimit
    ensures r.(photos := s.photos, currentPhotoIndex := s.currentPhotoIndex, numUnset := s.numUnset) == s
  {
    s.(photos := s.photos + arrived, currentPhotoIndex := 0, numUnset := photoLimit)
  }

  /** After `markPhoto(status, i)`: only photo `i` changes, and only its
      status. Marking UNSET also moves the cursor to the first undecided
      photo, which is at or before `i`, and counts one more undecided photo. */
  function Marked(s: MainUiState, status: PhotoStatus, i: int): (r: MainUiState)
    requires 0 <= i < |s.photos|
    ensures |r.photos| == |s.photos| && r.photos[i] == s.photos[i].WithStatus(status)
    ensures forall j :: 0 <= j < |s.photos| && j != i ==> r.photos[j] == s.photos[j]
    ensures status == Unset ==>
      && r.currentPhotoIndex == IndexOfFirst(r.photos, Unset)
      && 0 <= r.currentPhotoIndex <= i
      && r.numUnset == s.numUnset + 1
    ensures status != Unset ==> r.currentPhotoIndex == s.currentPhotoIndex && r.numUnset == s.numUnset
    ensures r.(photos := s.photos, currentPhotoIndex := s.currentPhotoIndex, numUnset := s.numUnset) == s
  {
    var ps := s.photos[i := s.photos[i].WithStatus(status)];
    if status == Unset then
      s.(photos := ps, currentPhotoIndex := IndexOfFirst(ps, Unset), numUnset := s.numUnset + 1)
    else
      s.(photos := ps)
  }

  /** After `nextPhoto`: one step forward, one undecided photo fewer. */
  function Advanced(s: MainUiState): (r: MainUiState)
    ensures r.currentPhotoIndex - s.currentPhotoIndex == 1 && s.numUnset - r.numUnset == 1
    ensures r.(currentPhotoIndex := s.currentPhotoIndex, numUnset := s.numUnset) == s
  {
    s.(currentPhotoIndex := s.currentPhotoIndex + 1, numUnset := s.numUnset - 1)
  }

  /** After `findUnsetPhoto`: the cursor on the first undecided photo, or
      at -1 when every photo is decided. */
  function SoughtUnset(s: MainUiState): (r: MainUiState)
    ensures r.currentPhotoIndex == -1 <==> forall j :: 0 <= j < |s.photos| ==> s.photos[j].status != Unset
    ensures 0 <= r.currentPhotoIndex ==>
      && r.currentPhotoIndex < |s.photos| && s.photos[r.currentPhotoIndex].status == Unset
      && forall j :: 0 <= j < r.currentPhotoIndex ==> s.photos[j].status != Unset
    ensures r.(currentPhotoIndex := s.currentPhotoIndex) == s
  {
    s.(currentPhotoIndex := IndexOfFirst(s.photos, Unset))
  }

  /** After a successful `undo`: one step back, one more undecided photo,
      and the photo now under the cursor reset to UNSET. */
  function Undone(s: MainUiState): (r: MainUiState)
    requires 0 < s.currentPhotoIndex <= |s.photos|
    ensures r.currentPhotoIndex == s.currentPhotoIndex - 1 && r.numUnset == s.numUnset + 1
    ensures |r.photos| == |s.photos| && r.photos[r.currentPhotoIndex] == s.photos[r.currentPhotoIndex].WithStatus(Unset)
    ensures forall j :: 0 <= j < |s.photos| && j != r.currentPhotoIndex ==> r.photos[j] == s.photos[j]
    ensures r.(photos := s.photos, currentPhotoIndex := s.currentPhotoIndex, numUnset := s.numUnset) == s
  {
    var k := s.currentPhotoIndex - 1;
    s.(photos := s.photos[k := s.photos[k].WithStatus(Unset)], currentPhotoIndex := k, numUnset := s.numUnset + 1)
  }

  /** After `deletePhotos(t)` with `t` non-empty: the dialog closed, the
      photos of `t` gone from the queue (the rest kept in order), the cursor
      lowered by `|t|` with no floor, and the statistic refreshed. */
  function Deleted(s: MainUiState, t: seq<Photo>, saved: int): (r: MainUiState)
    ensures forall p :: p in r.photos <==> p in s.photos && p !in t
    ensures r.currentPhotoIndex == s.currentPhotoIndex - |t| && !r.showReviewDialog
    ensures r.spaceSavedInTimeFrame == saved
    ensures r.(photos := s.photos, currentPhotoIndex := s.currentPhotoIndex, showReviewDialog := s.showReviewDialog,
               spaceSavedInTimeFrame := s.spaceSavedInTimeFrame) == s
  {
    WithoutMembers(s.photos, t);
    s.(photos := Without(s.photos, t), currentPhotoIndex := s.currentPhotoIndex - |t|,
       showReviewDialog := false, spaceSavedInTimeFrame := saved)
  }

  /** The screen's view model. `uiState` is the current value of the state
      flow, replaced by a modified copy on every change; `notices` records the
      toasts shown. */
  class MainViewModel {
    const resolver: ContentResolverInterface
    const dao: MediaStatusDao
    var uiState: MainUiState
    ghost var notices: seq<Notice>

    ghost predicate Valid()
      reads this, dao
    {
      resolver.dao == dao && dao.Valid()
    }

    /** A fresh view model starts from the default state and fills in the
        statistic for the default window. */
    constructor (resolver: ContentResolverInterface, dao: MediaStatusDao, now: int)
      requires resolver.dao == dao && dao.Valid()
      ensures Valid() && this.resolver == resolver && this.dao == dao && notices == []
      ensures uiState == DefaultUiState.(spaceSavedInTimeFrame := SpaceSaved(dao.table, DefaultUiState.currentStatsTimeFrame, now))
    {
      this.resolver := resolver;
      this.dao := dao;
      uiState := DefaultUiState;
      notices := [];
      new;
      var saved := GetSpaceSavedInTimeFrame(uiState.currentStatsTimeFrame, now);
      uiState := uiState.(spaceSavedInTimeFrame := saved);
    }

    /** `getSpaceSavedInTimeFrame`: the sizes of the DELETE rows modified in
        `[now - frame, now]`, added up; 0 when there are none. */
    method GetSpaceSavedInTimeFrame(frame: TimeFrame, now: int) returns (total: int)
      ensures total == SpaceSaved(dao.table, frame, now)
    {
      var firstDateInTimeFrame := now - Milliseconds(frame);
      var sizes, keys := dao.GetSizeBetweenDates(firstDateInTimeFrame, now, Delete);
      total := Sum(sizes);
    }

    /** `getPhotos`: a first scan asking for 2 photos and a second asking for
        `photoLimit - 2`, both appended to the queue in arrival order; then
        the cursor goes back to 0 and the undecided count to `photoLimit`,
        however many photos arrived. Each scan draws its own random order of
        the media index, so each gets its own candidate stream. */
    method GetPhotos(photoLimit: int, first: seq<Candidate>, rest: seq<Candidate>, now: int, hashOf: Hasher)
      returns (ghost batch1: seq<Photo>, ghost batch2: seq<Photo>, ghost middle: Table)
      requires Valid()
      modifies this, dao
      ensures Valid() && notices == old(notices)
      ensures Reconciled(old(dao.table), first, 2, now, hashOf, batch1, middle)
      ensures Reconciled(middle, rest, photoLimit - 2, now, hashOf, batch2, dao.table)
      ensures uiState == AfterGetPhotos(old(uiState), batch1 + batch2, photoLimit)
    {
      ghost var t0 := dao.table;
      var emitted1, answers1 := resolver.GetPhotos(2, first, now, hashOf);
      middle := dao.table;
      assert Consumes(t0, first, 2, now, hashOf, answers1, emitted1, middle);
      var emitted2, answers2 := resolver.GetPhotos(photoLimit - 2, rest, now, hashOf);
      assert Consumes(middle, rest, photoLimit - 2, now, hashOf, answers2, emitted2, dao.table);
      uiState := uiState.(photos := uiState.photos + emitted1 + emitted2, currentPhotoIndex := 0, numUnset := photoLimit);
      batch1, batch2 := emitted1, emitted2;
      assert old(uiState).photos + emitted1 + emitted2 == old(uiState).photos + (batch1 + batch2);
    }

    /** `markPhoto(status, index)`: sets the photo's status (see `Marked`) and
        writes its record back, with the new status, unless it is being
        marked DELETE. */
    method MarkPhoto(status: PhotoStatus, index: int, now: int)
      requires Valid() && 0 <= index < |uiState.photos|
      modifies this, dao
      ensures Valid() && notices == old(notices)
      ensures uiState == Marked(old(uiState), status, index)
      ensures status != Delete ==> dao.table == Updated(old(dao.table), GetMediaStatusEntity(uiState.photos[index], now))
      ensures status == Delete ==> dao.table == old(dao.table)
    {
      var photo := uiState.photos[index].WithStatus(status);
      uiState := uiState.(photos := uiState.photos[index := photo]);
      if status != Delete {
        dao.Update(GetMediaStatusEntity(photo, now));
      }
      if status == Unset {
        uiState := uiState.(currentPhotoIndex := IndexOfFirst(uiState.photos, Unset), numUnset := uiState.numUnset + 1);
      }
    }

    /** `nextPhoto`. */
    method NextPhoto()
      modifies this
      ensures uiState == Advanced(old(uiState)) && notices == old(notices)
    {
      uiState := uiState.(currentPhotoIndex := uiState.currentPhotoIndex + 1, numUnset := uiState.numUnset - 1);
    }

    /** `findUnsetPhoto`. */
    method FindUnsetPhoto()
      modifies this
      ensures uiState == SoughtUnset(old(uiState)) && notices == old(notices)
    {
      uiState := uiState.(currentPhotoIndex := IndexOfFirst(uiState.photos, Unset));
    }

    /** `undo`: with nothing behind the cursor only a notice is shown;
        otherwise the step back of `Undone`, and the reset photo's record is
        written back. */
    method Undo(now: int)
      requires Valid()
      requires uiState.currentPhotoIndex > 0 ==> uiState.currentPhotoIndex <= |uiState.photos|
      modifies this, dao
      ensures Valid()
      ensures old(uiState.currentPhotoIndex) <= 0 ==>
        && uiState == old(uiState) && dao.table == old(dao.table)
        && notices == old(notices) + [NothingToUndo]
      ensures old(uiState.currentPhotoIndex) > 0 ==>
        && uiState == Undone(old(uiState)) && notices == old(notices)
        && dao.table == Updated(old(dao.table), GetMediaStatusEntity(uiState.photos[uiState.currentPhotoIndex], now))
    {
      if uiState.currentPhotoIndex > 0 {
        uiState := uiState.(currentPhotoIndex := uiState.currentPhotoIndex - 1, numUnset := uiState.numUnset + 1);
        var k := uiState.currentPhotoIndex;
        uiState := uiState.(photos := uiState.photos[k := uiState.photos[k].WithStatus(Unset)]);
        dao.Update(GetMediaStatusEntity(uiState.photos[k], now));
      } else {
        notices := notices + [NothingToUndo];
      }
    }

    /** `deletePhotos(t)`: with `t` empty only a notice is shown. Otherwise
        the platform is asked to delete exactly the URIs of `t`, each photo
        of `t` has its record written back (status DELETE for the photos the
        screen passes), and the queue moves as `Deleted` says, with the
        statistic taken after the writes. */
    method DeletePhotos(t: seq<Photo>, now: int)
      requires Valid()
      modifies this, dao, resolver
      ensures Valid()
      ensures t == [] ==>
        && uiState == old(uiState) && dao.table == old(dao.table)
        && resolver.deletionRequests == old(resolver.deletionRequests)
        && notices == old(notices) + [NoPhotosDeleted]
      ensures t != [] ==>
        && resolver.deletionRequests == old(resolver.deletionRequests) + [Uris(t)]
        && dao.table == UpdatedAll(old(dao.table), Entities(t, now))
        && uiState == Deleted(old(uiState), t, SpaceSaved(dao.table, old(uiState).currentStatsTimeFrame, now))
        && notices == old(notices)
    {
      if t != [] {
        resolver.DeletePhotos(Uris(t));
        var i := 0;
        while i < |t|
          invariant 0 <= i <= |t| && dao.Valid()
          invariant dao.table == UpdatedAll(old(dao.table), Entities(t, now)[..i])
          modifies dao
        {
          dao.Update(GetMediaStatusEntity(t[i], now));
          assert Entities(t, now)[..i + 1][..i] == Entities(t, now)[..i];
          i := i + 1;
        }
        assert Entities(t, now)[..i] == Entities(t, now);
        DismissReviewDialog();
        var saved := GetSpaceSavedInTimeFrame(uiState.currentStatsTimeFrame, now);
        uiState := uiState.(photos := Without(uiState.photos, t), currentPhotoIndex := uiState.currentPhotoIndex - |t|,
                            spaceSavedInTimeFrame := saved);
      } else {
        notices := notices + [NoPhotosDeleted];
      }
    }

    /** `showReviewDialog`. */
    method ShowReviewDialog()
      modifies this
      ensures uiState == old(uiState).(showReviewDialog := true) && notices == old(notices)
    {
      uiState := uiState.(showReviewDialog := true);
    }

    /** `dismissReviewDialog`. */
    method DismissReviewDialog()
      modifies this
      ensures uiState == old(uiState).(showReviewDialog := false) && notices == old(notices)
    {
      uiState := uiState.(showReviewDialog := false);
    }

    /** `toggleInfo`. */
    method ToggleInfo()
      modifies this
      ensures uiState == old(uiState).(showInfo := !old(uiState).showInfo) && notices == old(notices)
    {
      uiState := uiState.(showInfo := !uiState.showInfo);
    }

    /** `disableReviewDialog`: from now on the review button deletes at once. */
    method DisableReviewDialog()
      modifies this
      ensures uiState == old(uiState).(reviewDialogEnabled := false) && notices == old(notices)
    {
      uiState := uiState.(reviewDialogEnabled := false);
    }

    /** `cycleStatsTimeFrame`: the next window (wrapping after YEAR) and the
        statistic for it. */
    method CycleStatsTimeFrame(now: int)
      modifies this
      ensures notices == old(notices)
      ensures uiState == old(uiState).(
        currentStatsTimeFrame := NextTimeFrame(old(uiState).currentStatsTimeFrame),
        spaceSavedInTimeFrame := SpaceSaved(dao.table, NextTimeFrame(old(uiState).currentStatsTimeFrame), now))
    {
      var currentTimeFrame := uiState.currentStatsTimeFrame;
      var newTimeFrame :=
        if currentTimeFrame != Entries[|Entries| - 1] then Entries[Ordinal(currentTimeFrame) + 1] else Entries[0];
      var saved := GetSpaceSavedInTimeFrame(newTimeFrame, now);
      uiState := uiState.(currentStatsTimeFrame := newTimeFrame, spaceSavedInTimeFrame := saved);
    }
  }
}
