/** The statistics time windows and the review screen's state record
    (MainUiState.kt). */
module UiState {
  import opened Photos

  /** The statistics windows, in declaration (ordinal) order. */
  datatype TimeFrame = Day | Week | Month | Year

  /** Window lengths in milliseconds: a day, seven days, an average Gregorian
      month (365.2425 / 12 days) and twelve such months. */
  function Milliseconds(f: TimeFrame): (ms: int)
    ensures ms > 0
  {
    match f
    case Day => 86400000
    case Week => 604800000
    case Month => 2629746000
    case Year => 31556952000
  }

  /** `TimeFrame.entries`: every window exactly once, in ordinal order. */
  const Entries: seq<TimeFrame> := [Day, Week, Month, Year]

  function Ordinal(f: TimeFrame): (i: nat)
    ensures i < |Entries| && Entries[i] == f
  {
    match f
    case Day => 0
    case Week => 1
    case Month => 2
    case Year => 3
  }

  /** The window after `f`: the next entry by ordinal, or the first entry
      after the last one. */
  function NextTimeFrame(f: TimeFrame): (g: TimeFrame)
    ensures Ordinal(g) == (Ordinal(f) + 1) % |Entries|
  {
    if f != Entries[|Entries| - 1] then Entries[Ordinal(f) + 1] else Entries[0]
  }

  /** The review screen's state. `photos` is the review queue,
      `currentPhotoIndex` the cursor into it, `numUnset` the cached count of
      undecided photos, then the dialog and info flags and the statistics
      window with its last computed total. */
  datatype MainUiState = MainUiState(
    photos: seq<Photo>,
    currentPhotoIndex: int,
    numUnset: int,
    showReviewDialog: bool,
    reviewDialogEnabled: bool,
    showInfo: bool,
    currentStatsTimeFrame: TimeFrame,
    spaceSavedInTimeFrame: int)

  /** The state a fresh screen starts from. */
  const DefaultUiState: MainUiState :=
    MainUiState([], 0, 0, false, true, false, Week, 0)

  lemma DefaultUiStateValues()
    ensures DefaultUiState.photos == [] && DefaultUiState.currentPhotoIndex == 0 && DefaultUiState.numUnset == 0
    ensures !DefaultUiState.showReviewDialog && DefaultUiState.reviewDialogEnabled && !DefaultUiState.showInfo
    ensures DefaultUiState.currentStatsTimeFrame == Week && DefaultUiState.spaceSavedInTimeFrame == 0
  {
  }

  /** The window constants are related as the calendar suggests, and grow
      strictly along the ordinal order. */
  lemma TimeFrameDurations()
    ensures Milliseconds(Day) == 86400000
    ensures Milliseconds(Week) == 7 * Milliseconds(Day)
    ensures Milliseconds(Year) == 12 * Milliseconds(Month)
    ensures forall i, j :: 0 <= i < j < |Entries| ==> Milliseconds(Entries[i]) < Milliseconds(Entries[j])
  {
  }

  /** Cycling visits DAY, WEEK, MONTH, YEAR in order and returns to the
      start after four steps, from any window. */
  lemma {:induction false} CycleReturnsAfterFour(f: TimeFrame)
    ensures NextTimeFrame(Day) == Week && NextTimeFrame(Week) == Month
    ensures NextTimeFrame(Month) == Year && NextTimeFrame(Year) == Day
    ensures NextTimeFrame(NextTimeFrame(NextTimeFrame(NextTimeFrame(f)))) == f
    ensures forall k :: 1 <= k < 4 ==> Iterate(f, k) != f
  {
    assert Iterate(f, 1) == NextTimeFrame(f);
    assert Iterate(f, 2) == NextTimeFrame(NextTimeFrame(f));
    assert Iterate(f, 3) == NextTimeFrame(NextTimeFrame(NextTimeFrame(f)));
  }

  /** `k` successive cycles starting from `f`. */
  function Iterate(f: TimeFrame, k: nat): (g: TimeFrame)
    ensures Ordinal(g) == (Ordinal(f) + k) % |Entries|
  {
    if k == 0 then f else NextTimeFrame(Iterate(f, k - 1))
  }
}
