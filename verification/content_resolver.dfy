/** The reconciliation scan (ContentResolverInterface.getPhotos): candidate
    rows from the media index are checked against the status store and the
    ones that still need review are handed on, up to a counted limit. */
module ContentResolver {
  import opened Wrappers
  import opened Photos
  import opened MediaStatuses
  import opened Dao

  /** One row of the media-index query: the columns the scan reads and the
      bytes of the file behind it. `location` is what the EXIF reader
      reports for the file. */
  datatype Candidate = Candidate(
    id: int,
    dateTaken: int,
    dateAdded: int,
    size: int,
    album: Option<string>,
    description: Option<string>,
    displayName: Option<string>,
    resolution: Option<string>,
    bytes: seq<bv8>,
    location: Option<LatLong>)

  /** The content hash. The digest itself is not modelled: it is any fixed
      function from file bytes to a hex string, supplied by the caller. */
  type Hasher = seq<bv8> -> string

  /** The photo the nested `addPhoto` builds for a candidate: undecided,
      dated by the capture date when it is positive and by the date added
      otherwise. */
  function PhotoOf(c: Candidate, fileHash: string): Photo
  {
    Photo(
      id := c.id,
      uri := ContentUri(c.id),
      fileHash := fileHash,
      dateTaken := Some(if c.dateTaken > 0 then c.dateTaken else c.dateAdded),
      size := c.size,
      location := c.location,
      album := c.album,
      description := c.description,
      title := c.displayName,
      resolution := c.resolution,
      status := Unset)
  }

  /** The photos the candidates would become, in stream order. */
  function PhotosOf(cands: seq<Candidate>, hashOf: Hasher): (ps: seq<Photo>)
    ensures |ps| == |cands|
    ensures forall i :: 0 <= i < |cands| ==> ps[i] == PhotoOf(cands[i], hashOf(cands[i].bytes))
    decreases |cands|
  {
    if cands == [] then []
    else PhotosOf(cands[..|cands| - 1], hashOf) + [PhotoOf(cands[|cands| - 1], hashOf(cands[|cands| - 1].bytes))]
  }

  /** The three-way rule applied to a candidate within the limit. */
  datatype Verdict =
    | AlreadySwiped           // its id maps to a decided record: skip it
    | Repoint(r: MediaStatus) // its hash has a record `r`: move `r` to the new id
    | Fresh                   // nothing known: a new photo

  /** The rule, from what `findByHash` and `findByMediaStoreId` returned. */
  function Classify(byHash: Option<MediaStatus>, byId: Option<MediaStatus>): (v: Verdict)
    ensures v == AlreadySwiped <==> byId.Some? && byId.value.status != Unset
    ensures v.Repoint? <==> !(byId.Some? && byId.value.status != Unset) && byHash.Some?
    ensures v.Repoint? ==> v.r == byHash.value
  {
    if byId.Some? && byId.value.status != Unset then AlreadySwiped
    else if byHash.Some? then Repoint(byHash.value)
    else Fresh
  }

  /** The scan's state: the store table, the photos handed on so far (their
      number is the counter `numPhotosAdded`) and whether it has returned. */
  datatype Scan = Scan(table: Table, emitted: seq<Photo>, done: bool)

  function Init(table: Table): Scan
  {
    Scan(table, [], false)
  }

  /** Whether the scan queries the store for its next candidate. */
  predicate LooksUp(s: Scan, numPhotos: int)
  {
    !s.done && |s.emitted| <= numPhotos
  }

  /** The nested `addPhoto`: hand the photo on and insert its record. */
  function AddPhoto(s: Scan, c: Candidate, fileHash: string, now: int): Scan
  {
    var p := PhotoOf(c, fileHash);
    Scan(Inserted(s.table, GetMediaStatusEntity(p, now)), s.emitted + [p], s.done)
  }

  /** One turn of the scan loop, given the answer `byId` of the id lookup. */
  function Step(s: Scan, c: Candidate, byId: Option<MediaStatus>, numPhotos: int, now: int, hashOf: Hasher): Scan
  {
    if s.done then s
    else if |s.emitted| <= numPhotos then
      var fileHash := hashOf(c.bytes);
      match Classify(Lookup(s.table, fileHash), byId)
      case AlreadySwiped => s
      case Repoint(r) =>
        var s' := s.(table := Updated(s.table, r.(mediaStoreId := c.id, dateModified := now)));
        if r.status == Unset then AddPhoto(s', c, fileHash, now) else s'
      case Fresh => AddPhoto(s, c, fileHash, now)
    else s.(done := true)
  }

  /** The scan over `cands`, the `k`-th turn using `answers[k]`. */
  function Run(s0: Scan, cands: seq<Candidate>, answers: seq<Option<MediaStatus>>, numPhotos: int, now: int, hashOf: Hasher): Scan
    requires |answers| == |cands|
    decreases |cands|
  {
    if cands == [] then s0
    else
      var n := |cands| - 1;
      Step(Run(s0, cands[..n], answers[..n], numPhotos, now, hashOf), cands[n], answers[n], numPhotos, now, hashOf)
  }

  /** Every id lookup the scan made got an answer the store could give at
      that point of the scan. */
  ghost predicate Admissible(s0: Scan, cands: seq<Candidate>, answers: seq<Option<MediaStatus>>, numPhotos: int, now: int, hashOf: Hasher)
    requires |answers| == |cands|
    decreases |cands|
  {
    cands == [] ||
    (var n := |cands| - 1;
     var s := Run(s0, cands[..n], answers[..n], numPhotos, now, hashOf);
     Admissible(s0, cands[..n], answers[..n], numPhotos, now, hashOf) &&
     (LooksUp(s, numPhotos) ==> IdAnswer(s.table, cands[n].id, answers[n])))
  }

  /** Extending the stream by one candidate is one more `Step`, and one more
      admissible answer. */
  lemma RunSnoc(s0: Scan, cands: seq<Candidate>, answers: seq<Option<MediaStatus>>, i: nat, a: Option<MediaStatus>,
                numPhotos: int, now: int, hashOf: Hasher)
    requires i < |cands| && |answers| == i
    ensures var prev := Run(s0, cands[..i], answers, numPhotos, now, hashOf);
      && Run(s0, cands[..i + 1], answers + [a], numPhotos, now, hashOf) == Step(prev, cands[i], a, numPhotos, now, hashOf)
      && (Admissible(s0, cands[..i + 1], answers + [a], numPhotos, now, hashOf) <==>
          Admissible(s0, cands[..i], answers, numPhotos, now, hashOf) &&
          (LooksUp(prev, numPhotos) ==> IdAnswer(prev.table, cands[i].id, a)))
  {
    assert cands[..i + 1][..i] == cands[..i] && cands[..i + 1][i] == cands[i];
    assert (answers + [a])[..i] == answers;
  }

  /** The scan consumed the first |answers| candidates with those lookup
      answers, ended with `table` and `emitted`, and either saw the whole
      stream or returned at the limit. */
  ghost predicate Consumes(table0: Table, cands: seq<Candidate>, numPhotos: int, now: int, hashOf: Hasher,
                           answers: seq<Option<MediaStatus>>, emitted: seq<Photo>, table: Table)
  {
    |answers| <= |cands| &&
    Admissible(Init(table0), cands[..|answers|], answers, numPhotos, now, hashOf) &&
    var r := Run(Init(table0), cands[..|answers|], answers, numPhotos, now, hashOf);
    r.table == table && r.emitted == emitted && (|answers| == |cands| || r.done)
  }

  /** `getPhotos(numPhotos)` over the stream `cands`, started on `table0`,
      may hand on `emitted` and leave the store at `table`. */
  ghost predicate Reconciled(table0: Table, cands: seq<Candidate>, numPhotos: int, now: int, hashOf: Hasher,
                             emitted: seq<Photo>, table: Table)
  {
    exists answers :: Consumes(table0, cands, numPhotos, now, hashOf, answers, emitted, table)
  }

  class ContentResolverInterface {
    const dao: MediaStatusDao
    /** The URI lists handed to the platform for deletion, oldest first. */
    ghost var deletionRequests: seq<seq<Uri>>

    constructor (dao: MediaStatusDao)
      ensures this.dao == dao && deletionRequests == []
    {
      this.dao := dao;
      deletionRequests := [];
    }

    /** The nested `addPhoto`: the caller counts it and hands it on. */
    method AddPhoto(c: Candidate, fileHash: string, now: int) returns (p: Photo)
      requires dao.Valid()
      modifies dao
      ensures dao.Valid()
      ensures p == PhotoOf(c, fileHash)
      ensures dao.table == Inserted(old(dao.table), GetMediaStatusEntity(p, now))
    {
      p := PhotoOf(c, fileHash);
      dao.Insert(GetMediaStatusEntity(p, now));
    }

    /** `getPhotos`: the photos handed to `onAddPhoto`, in order, are
        returned; `answers` records the id lookups made. */
    method GetPhotos(numPhotos: int, cands: seq<Candidate>, now: int, hashOf: Hasher)
      returns (emitted: seq<Photo>, ghost answers: seq<Option<MediaStatus>>)
      requires dao.Valid()
      modifies dao
      ensures dao.Valid()
      ensures Consumes(old(dao.table), cands, numPhotos, now, hashOf, answers, emitted, dao.table)
    {
      ghost var s0 := Init(dao.table);
      var numPhotosAdded := 0;
      emitted, answers := [], [];
      var i := 0;
      while i < |cands|
        invariant 0 <= i <= |cands| && |answers| == i
        invariant dao.Valid()
        invariant numPhotosAdded == |emitted|
        invariant Admissible(s0, cands[..i], answers, numPhotos, now, hashOf)
        invariant Run(s0, cands[..i], answers, numPhotos, now, hashOf) == Scan(dao.table, emitted, false)
      {
        var c := cands[i];
        var fileHash := hashOf(c.bytes);
        ghost var prev := Scan(dao.table, emitted, false);
        if numPhotosAdded <= numPhotos {
          var findPhotoByHash := dao.FindByHash(fileHash);
          var findById := dao.FindByMediaStoreId(c.id);
          assert findPhotoByHash == Lookup(prev.table, fileHash);
          if findById.Some? && findById.value.status != Unset {
            assert Classify(findPhotoByHash, findById) == AlreadySwiped;
          } else if findPhotoByHash.Some? {
            dao.Update(findPhotoByHash.value.(mediaStoreId := c.id, dateModified := now));
            if findPhotoByHash.value.status == Unset {
              var p := AddPhoto(c, fileHash, now);
              numPhotosAdded := numPhotosAdded + 1;
              emitted := emitted + [p];
            }
          } else {
            var p := AddPhoto(c, fileHash, now);
            numPhotosAdded := numPhotosAdded + 1;
            emitted := emitted + [p];
          }
          assert Step(prev, c, findById, numPhotos, now, hashOf) == Scan(dao.table, emitted, false);
          RunSnoc(s0, cands, answers, i, findById, numPhotos, now, hashOf);
          answers := answers + [findById];
          i := i + 1;
        } else {
          RunSnoc(s0, cands, answers, i, None, numPhotos, now, hashOf);
          answers := answers + [None];
          return;
        }
      }
      assert cands[..i] == cands;
    }

    /** `deletePhotos`: only the request is modelled. */
    method DeletePhotos(uris: seq<Uri>)
      modifies this
      ensures deletionRequests == old(deletionRequests) + [uris]
    {
      deletionRequests := deletionRequests + [uris];
    }
  }
}
