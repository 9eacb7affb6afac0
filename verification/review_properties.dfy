/** What the review transitions do to the queue, the cursor, the cached
    undecided count and the space-saved statistic, stated over the
    transition functions the view model's methods are proved to perform. */
module ReviewProperties {
  import opened Photos
  import opened MediaStatuses
  import opened UiState
  import opened Dao
  import opened Sequences
  import opened ContentResolver
  import opened ReconcileProperties
  import opened ViewModel

  /** The cached undecided count agrees with the queue. The screen relies on
      it to decide between the swipe card and the review button. */
  ghost predicate CountsUnset(s: MainUiState)
  {
    s.numUnset == CountStatus(s.photos, Unset)
  }

  /** Changing one photo's status moves exactly one unit between counts. */
  lemma {:induction false} CountAfterSetStatus(ps: seq<Photo>, i: int, st: PhotoStatus, u: PhotoStatus)
    requires 0 <= i < |ps|
    ensures CountStatus(ps[i := ps[i].WithStatus(st)], u) + (if ps[i].status == u then 1 else 0)
         == CountStatus(ps, u) + (if st == u then 1 else 0)
    decreases |ps|
  {
    var ps' := ps[i := ps[i].WithStatus(st)];
    var n := |ps| - 1;
    if i == n {
      assert ps'[..n] == ps[..n];
    } else {
      assert ps'[..n] == ps[..n][i := ps[..n][i].WithStatus(st)];
      CountAfterSetStatus(ps[..n], i, st, u);
    }
  }

  lemma {:induction false} CountAppend(a: seq<Photo>, b: seq<Photo>, u: PhotoStatus)
    ensures CountStatus(a + b, u) == CountStatus(a, u) + CountStatus(b, u)
    decreases |b|
  {
    if b != [] {
      var n := |b| - 1;
      assert a + b == (a + b[..n]) + [b[n]] && b == b[..n] + [b[n]];
      CountAppend(a, b[..n], u);
      CountSnoc(a + b[..n], b[n], u);
      CountSnoc(b[..n], b[n], u);
    } else {
      assert a + b == a;
    }
  }

  lemma {:induction false} CountAllUnset(ps: seq<Photo>)
    requires forall p :: p in ps ==> p.status == Unset
    ensures CountStatus(ps, Unset) == |ps|
    decreases |ps|
  {
    if ps != [] {
      var n := |ps| - 1;
      assert forall p :: p in ps[..n] ==> p in ps;
      CountAllUnset(ps[..n]);
    }
  }

  lemma CountSnoc(ps: seq<Photo>, x: Photo, u: PhotoStatus)
    ensures CountStatus(ps + [x], u) == CountStatus(ps, u) + (if x.status == u then 1 else 0)
  {
    assert (ps + [x])[..|ps|] == ps;
  }

  /** `filter` keeps the remaining photos in their queue order. */
  lemma {:induction false} WithoutIsSubsequence(ps: seq<Photo>, t: seq<Photo>)
    ensures IsSubsequence(Without(ps, t), ps)
    decreases |ps|
  {
    if ps != [] {
      var n := |ps| - 1;
      var w := Without(ps[..n], t);
      WithoutIsSubsequence(ps[..n], t);
      SubsequenceExtend(w, ps[..n], ps[n]);
      assert ps[..n] + [ps[n]] == ps;
      if ps[n] in t {
        assert Without(ps, t) == w;
      } else {
        assert Without(ps, t) == w + [ps[n]];
      }
    }
  }

  /** The review list is the DELETE photos in queue order. */
  lemma {:induction false} PhotosToDeleteIsSubsequence(ps: seq<Photo>)
    ensures IsSubsequence(PhotosToDelete(ps), ps)
    decreases |ps|
  {
    if ps != [] {
      var n := |ps| - 1;
      var d := PhotosToDelete(ps[..n]);
      PhotosToDeleteIsSubsequence(ps[..n]);
      SubsequenceExtend(d, ps[..n], ps[n]);
      assert ps[..n] + [ps[n]] == ps;
      assert PhotosToDelete(ps) == if ps[n].status == Delete then d + [ps[n]] else d;
    }
  }

  /** Removing only DELETE photos removes no undecided one. */
  lemma {:induction false} WithoutKeepsUnset(ps: seq<Photo>, t: seq<Photo>)
    requires forall i :: 0 <= i < |ps| ==> (ps[i] in t ==> ps[i].status == Delete)
    ensures CountStatus(Without(ps, t), Unset) == CountStatus(ps, Unset)
    decreases |ps|
  {
    if ps != [] {
      var n := |ps| - 1;
      assert forall i :: 0 <= i < n ==> ps[..n][i] == ps[i];
      WithoutKeepsUnset(ps[..n], t);
      if ps[n] !in t {
        CountSnoc(Without(ps[..n], t), ps[n], Unset);
      }
    }
  }

  /** Removing every DELETE photo leaves none. */
  lemma {:induction false} WithoutDropsDelete(ps: seq<Photo>, t: seq<Photo>)
    requires forall i :: 0 <= i < |ps| ==> (ps[i].status == Delete ==> ps[i] in t)
    ensures CountStatus(Without(ps, t), Delete) == 0
    decreases |ps|
  {
    if ps != [] {
      var n := |ps| - 1;
      assert forall i :: 0 <= i < n ==> ps[..n][i] == ps[i];
      WithoutDropsDelete(ps[..n], t);
      if ps[n] !in t {
        CountSnoc(Without(ps[..n], t), ps[n], Delete);
      }
    }
  }

  /** Removing exactly the DELETE photos shortens the queue by their number. */
  lemma {:induction false} WithoutLength(ps: seq<Photo>, t: seq<Photo>)
    requires forall i :: 0 <= i < |ps| ==> (ps[i] in t <==> ps[i].status == Delete)
    ensures |Without(ps, t)| == |ps| - CountStatus(ps, Delete)
    decreases |ps|
  {
    if ps != [] {
      var n := |ps| - 1;
      assert forall i :: 0 <= i < n ==> ps[..n][i] == ps[i];
      WithoutLength(ps[..n], t);
    }
  }

  /** Removing exactly the DELETE photos removes `CountStatus(Delete)` of
      them and no undecided one. */
  lemma WithoutDecided(ps: seq<Photo>, t: seq<Photo>)
    requires forall i :: 0 <= i < |ps| ==> (ps[i] in t <==> ps[i].status == Delete)
    ensures CountStatus(Without(ps, t), Unset) == CountStatus(ps, Unset)
    ensures CountStatus(Without(ps, t), Delete) == 0
    ensures |Without(ps, t)| == |ps| - CountStatus(ps, Delete)
  {
    WithoutKeepsUnset(ps, t);
    WithoutDropsDelete(ps, t);
    WithoutLength(ps, t);
  }

  /** A swipe (a KEEP or DELETE mark on the photo under the cursor, then
      `nextPhoto`) keeps the undecided count right exactly when the photo was
      still undecided; it records the decision and moves one step on. */
  lemma SwipeKeepsCount(s: MainUiState, st: PhotoStatus)
    requires 0 <= s.currentPhotoIndex < |s.photos| && st != Unset && CountsUnset(s)
    ensures var r := Advanced(Marked(s, st, s.currentPhotoIndex));
      && (CountsUnset(r) <==> s.photos[s.currentPhotoIndex].status == Unset)
      && r.currentPhotoIndex == s.currentPhotoIndex + 1
      && r.photos[s.currentPhotoIndex].status == st
  {
    CountAfterSetStatus(s.photos, s.currentPhotoIndex, st, Unset);
  }

  /** Taking a decided photo back to UNSET (the dialog's per-photo cancel)
      keeps the count right, and puts the cursor on the first undecided
      photo, at or before it. Doing it to an undecided photo breaks the count. */
  lemma UnmarkKeepsCount(s: MainUiState, i: int)
    requires 0 <= i < |s.photos| && CountsUnset(s)
    ensures var r := Marked(s, Unset, i);
      && (CountsUnset(r) <==> s.photos[i].status != Unset)
      && 0 <= r.currentPhotoIndex <= i && r.photos[r.currentPhotoIndex].status == Unset
  {
    CountAfterSetStatus(s.photos, i, Unset, Unset);
  }

  /** `undo` keeps the count right exactly when the photo it steps back to
      had been decided. */
  lemma UndoKeepsCount(s: MainUiState)
    requires 0 < s.currentPhotoIndex <= |s.photos| && CountsUnset(s)
    ensures CountsUnset(Undone(s)) <==> s.photos[s.currentPhotoIndex - 1].status != Unset
  {
    CountAfterSetStatus(s.photos, s.currentPhotoIndex - 1, Unset, Unset);
  }

  /** Deleting the review list keeps the count right, removes exactly the
      DELETE photos and keeps the rest in order. */
  lemma DeleteKeepsCount(s: MainUiState, saved: int)
    ensures var t := PhotosToDelete(s.photos);
      var r := Deleted(s, t, saved);
      && (CountsUnset(s) ==> CountsUnset(r))
      && |r.photos| == |s.photos| - |t|
      && CountStatus(r.photos, Delete) == 0
      && IsSubsequence(r.photos, s.photos)
  {
    var t := PhotosToDelete(s.photos);
    WithoutDecided(s.photos, t);
    WithoutIsSubsequence(s.photos, t);
  }

  /** When every photo has been swiped (cursor one past the end), deleting
      the review list leaves the cursor one past the end of the shorter queue. */
  lemma DeleteAtEndKeepsCursorAtEnd(s: MainUiState, saved: int)
    requires s.currentPhotoIndex == |s.photos|
    ensures var r := Deleted(s, PhotosToDelete(s.photos), saved);
      r.currentPhotoIndex == |r.photos|
  {
    WithoutDecided(s.photos, PhotosToDelete(s.photos));
  }

  /** The cursor is lowered with no floor: after two DELETE swipes, taking
      the first photo back in the dialog and confirming leaves the cursor at
      -1, before the start of the queue. */
  lemma DialogUnsetThenConfirmUnderflows(s: MainUiState, a: Photo, b: Photo, saved: int)
    requires s.photos == [a, b] && a.status == Delete && b.status == Delete && s.currentPhotoIndex == 2
    ensures var m := Marked(s, Unset, 0);
      Deleted(m, PhotosToDelete(m.photos), saved).currentPhotoIndex == -1
  {
    var m := Marked(s, Unset, 0);
    assert m.photos == [a.WithStatus(Unset), b];
    assert m.photos[..1] == [a.WithStatus(Unset)] && [a.WithStatus(Unset)][..0] == [];
    assert PhotosToDelete(m.photos) == [b];
  }

  /** `getPhotos` keeps the count right exactly when the batch size asked
      for equals the undecided photos already queued plus the ones that
      arrived; with fewer arrivals than asked for, the cached count runs ahead. */
  lemma AfterGetPhotosCount(s: MainUiState, arrived: seq<Photo>, photoLimit: int)
    requires CountsUnset(s) && forall p :: p in arrived ==> p.status == Unset
    ensures CountsUnset(AfterGetPhotos(s, arrived, photoLimit)) <==> photoLimit == s.numUnset + |arrived|
  {
    CountAppend(s.photos, arrived, Unset);
    CountAllUnset(arrived);
  }

  /** The same for a real `getPhotos` call: the photos of both scans are
      undecided, so the count is right only when exactly `photoLimit - n`
      photos arrived, `n` being the undecided photos queued before. */
  lemma GetPhotosCount(s: MainUiState, photoLimit: int, first: seq<Candidate>, rest: seq<Candidate>, now: int,
                       hashOf: Hasher, t0: Table, batch1: seq<Photo>, middle: Table, batch2: seq<Photo>, t2: Table)
    requires CountsUnset(s)
    requires Reconciled(t0, first, 2, now, hashOf, batch1, middle)
    requires Reconciled(middle, rest, photoLimit - 2, now, hashOf, batch2, t2)
    ensures CountsUnset(AfterGetPhotos(s, batch1 + batch2, photoLimit)) <==> photoLimit == s.numUnset + |batch1| + |batch2|
  {
    ReconcileEmitsCandidates(t0, first, 2, now, hashOf, batch1, middle);
    ReconcileEmitsCandidates(middle, rest, photoLimit - 2, now, hashOf, batch2, t2);
    AfterGetPhotosCount(s, batch1 + batch2, photoLimit);
  }

  /** Writing back a DELETE record modified inside the window, for a row
      that was not DELETE before, adds exactly its size to the statistic. */
  lemma MarkingDeletedAddsToSpaceSaved(t: Table, r: MediaStatus, frame: TimeFrame, now: int)
    requires KeyedByHash(t) && r.fileHash in t && t[r.fileHash].status != Delete
    requires r.status == Delete && now - Milliseconds(frame) <= r.dateModified <= now
    ensures SpaceSaved(Updated(t, r), frame, now) == SpaceSaved(t, frame, now) + r.size
  {
    var h := r.fileHash;
    var t' := Updated(t, r);
    var first := now - Milliseconds(frame);
    var sel := Selected(t, first, now, Delete);
    var sel' := Selected(t', first, now, Delete);
    assert sel' == sel + {h};
    assert h !in sel;
    SizeSumRemove(t', sel', h);
    assert sel' - {h} == sel;
    SizeSumSameSizes(t', t, sel);
  }

  /** Writing back a record that is not DELETE, for a row that was not
      DELETE either, leaves the statistic unchanged (a KEEP or UNSET mark). */
  lemma MarkingKeptLeavesSpaceSaved(t: Table, r: MediaStatus, frame: TimeFrame, now: int)
    requires KeyedByHash(t) && r.status != Delete
    requires r.fileHash in t ==> t[r.fileHash].status != Delete
    ensures SpaceSaved(Updated(t, r), frame, now) == SpaceSaved(t, frame, now)
  {
    var t' := Updated(t, r);
    var first := now - Milliseconds(frame);
    var sel := Selected(t, first, now, Delete);
    assert Selected(t', first, now, Delete) == sel;
    SizeSumSameSizes(t', t, sel);
  }

  /** The content hashes some records are stored under. */
  function RecordHashes(rs: seq<MediaStatus>): set<string>
  {
    set r | r in rs :: r.fileHash
  }

  /** A run of `update` calls keeps the primary-key discipline and leaves
      every row it does not name as it was. */
  lemma {:induction false} UpdatedAllKeeps(t0: Table, rs: seq<MediaStatus>)
    requires KeyedByHash(t0)
    ensures KeyedByHash(UpdatedAll(t0, rs))
    ensures forall h :: h in t0 && h !in RecordHashes(rs) ==> UpdatedAll(t0, rs)[h] == t0[h]
    decreases |rs|
  {
    if rs != [] {
      var n := |rs| - 1;
      UpdatedAllKeeps(t0, rs[..n]);
      assert RecordHashes(rs) == RecordHashes(rs[..n]) + {rs[n].fileHash} by {
        assert rs == rs[..n] + [rs[n]];
      }
    }
  }

  /** The total size of some photos. */
  function SizeOf(ps: seq<Photo>): int
    decreases |ps|
  {
    if ps == [] then 0 else SizeOf(ps[..|ps| - 1]) + ps[|ps| - 1].size
  }

  /** The records for one more photo are one more `update`, of a hash the
      earlier records do not use when all hashes differ. */
  lemma EntitiesSnoc(ps: seq<Photo>, now: int)
    requires ps != []
    requires forall i, j :: 0 <= i < j < |ps| ==> ps[i].fileHash != ps[j].fileHash
    ensures var n := |ps| - 1;
      && (forall t0 :: UpdatedAll(t0, Entities(ps, now)) == Updated(UpdatedAll(t0, Entities(ps[..n], now)), GetMediaStatusEntity(ps[n], now)))
      && ps[n].fileHash !in RecordHashes(Entities(ps[..n], now))
  {
    var n := |ps| - 1;
    var es := Entities(ps, now);
    var es' := Entities(ps[..n], now);
    assert es[..n] == es';
    forall r | r in es' ensures r.fileHash != ps[n].fileHash {
      var i :| 0 <= i < n && es'[i] == r;
    }
  }

  /** Confirming the deletion of photos marked DELETE, each with its own
      content and a stored row not yet DELETE, raises the space-saved
      statistic by exactly their total size: each written-back record is
      dated `now`, inside the window. */
  lemma {:induction false} DeleteAddsToSpaceSaved(t0: Table, ps: seq<Photo>, frame: TimeFrame, now: int)
    requires KeyedByHash(t0)
    requires forall i :: 0 <= i < |ps| ==>
      ps[i].status == Delete && ps[i].fileHash in t0 && t0[ps[i].fileHash].status != Delete
    requires forall i, j :: 0 <= i < j < |ps| ==> ps[i].fileHash != ps[j].fileHash
    ensures SpaceSaved(UpdatedAll(t0, Entities(ps, now)), frame, now) == SpaceSaved(t0, frame, now) + SizeOf(ps)
    decreases |ps|
  {
    if ps != [] {
      var n := |ps| - 1;
      var es' := Entities(ps[..n], now);
      assert forall i :: 0 <= i < n ==> ps[..n][i] == ps[i];
      DeleteAddsToSpaceSaved(t0, ps[..n], frame, now);
      var t' := UpdatedAll(t0, es');
      UpdatedAllKeeps(t0, es');
      EntitiesSnoc(ps, now);
      MarkingDeletedAddsToSpaceSaved(t', GetMediaStatusEntity(ps[n], now), frame, now);
    }
  }

  /** The KEEP round trip: once a photo's stored row has been written back
      as KEEP, no later scan hands on that content again, whatever
      identifier the index gives it, and the row stays KEEP. */
  lemma KeepThenScanSkips(t0: Table, p: Photo, now: int, cands: seq<Candidate>, numPhotos: int, later: int,
                          hashOf: Hasher, emitted: seq<Photo>, t1: Table)
    requires KeyedByHash(t0) && p.fileHash in t0
    requires Reconciled(Updated(t0, GetMediaStatusEntity(p.WithStatus(Keep), now)), cands, numPhotos, later, hashOf, emitted, t1)
    ensures forall q :: q in emitted ==> q.fileHash != p.fileHash
    ensures p.fileHash in t1 && t1[p.fileHash].status == Keep
  {
    var t := Updated(t0, GetMediaStatusEntity(p.WithStatus(Keep), now));
    assert KeyedByHash(t);
    ReconcileSkipsDecidedContent(t, cands, numPhotos, later, hashOf, emitted, t1);
    ReconcileKeepsDecisions(t, cands, numPhotos, later, hashOf, emitted, t1);
  }
}
