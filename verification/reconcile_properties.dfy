/** What the reconciliation scan guarantees, for every legal sequence of
    answers to its id lookups. */
module ReconcileProperties {
  import opened Wrappers
  import opened Photos
  import opened MediaStatuses
  import opened Dao
  import opened Sequences
  import opened ContentResolver

  /** How many photos one call can hand on: the test `numPhotosAdded <= numPhotos`
      precedes every hand-off, so one more than `numPhotos`. */
  function Limit(numPhotos: int): nat
  {
    if numPhotos < 0 then 0 else numPhotos + 1
  }

  /** One turn hands on at most the candidate's photo, and only when it
      queried the store; it returns exactly when the counter has passed
      `numPhotos`. */
  lemma StepEmission(s: Scan, c: Candidate, byId: Option<MediaStatus>, numPhotos: int, now: int, hashOf: Hasher)
    ensures var r := Step(s, c, byId, numPhotos, now, hashOf);
      && (r.emitted == s.emitted || (LooksUp(s, numPhotos) && r.emitted == s.emitted + [PhotoOf(c, hashOf(c.bytes))]))
      && (r.done <==> s.done || |s.emitted| > numPhotos)
  {
  }

  /** One turn keeps the primary-key discipline, keeps every row and its
      decision, adds only UNSET rows, and hands a photo on only when its
      content had no row or an UNSET one. */
  lemma StepTable(s: Scan, c: Candidate, byId: Option<MediaStatus>, numPhotos: int, now: int, hashOf: Hasher)
    requires KeyedByHash(s.table)
    ensures var r := Step(s, c, byId, numPhotos, now, hashOf);
      && KeyedByHash(r.table) && s.table.Keys <= r.table.Keys
      && (forall h :: h in s.table ==> r.table[h].status == s.table[h].status)
      && (forall h :: h in r.table && h !in s.table ==> r.table[h].status == Unset)
      && (r.emitted != s.emitted ==> hashOf(c.bytes) in s.table ==> s.table[hashOf(c.bytes)].status == Unset)
  {
  }

  /** The store is only ever extended by undecided rows, and no existing
      row's decision is altered. */
  lemma {:induction false} RunKeepsDecisions(t0: Table, cands: seq<Candidate>, answers: seq<Option<MediaStatus>>,
                                             numPhotos: int, now: int, hashOf: Hasher)
    requires |answers| == |cands| && KeyedByHash(t0)
    ensures var r := Run(Init(t0), cands, answers, numPhotos, now, hashOf);
      && KeyedByHash(r.table)
      && t0.Keys <= r.table.Keys
      && (forall h :: h in t0 ==> r.table[h].status == t0[h].status)
      && (forall h :: h in r.table && h !in t0 ==> r.table[h].status == Unset)
    decreases |cands|
  {
    if cands != [] {
      var n := |cands| - 1;
      RunKeepsDecisions(t0, cands[..n], answers[..n], numPhotos, now, hashOf);
      StepTable(Run(Init(t0), cands[..n], answers[..n], numPhotos, now, hashOf), cands[n], answers[n], numPhotos, now, hashOf);
    }
  }

  /** At most `numPhotos + 1` photos are handed on, and a scan that returned
      early handed on exactly that many. */
  lemma {:induction false} RunEmitCount(t0: Table, cands: seq<Candidate>, answers: seq<Option<MediaStatus>>,
                                        numPhotos: int, now: int, hashOf: Hasher)
    requires |answers| == |cands|
    ensures var r := Run(Init(t0), cands, answers, numPhotos, now, hashOf);
      |r.emitted| <= Limit(numPhotos) && (r.done ==> |r.emitted| == Limit(numPhotos))
    decreases |cands|
  {
    if cands != [] {
      var n := |cands| - 1;
      RunEmitCount(t0, cands[..n], answers[..n], numPhotos, now, hashOf);
      StepEmission(Run(Init(t0), cands[..n], answers[..n], numPhotos, now, hashOf), cands[n], answers[n], numPhotos, now, hashOf);
    }
  }

  /** The photos handed on are candidates' photos, in stream order. */
  lemma {:induction false} RunEmitsInOrder(t0: Table, cands: seq<Candidate>, answers: seq<Option<MediaStatus>>,
                                           numPhotos: int, now: int, hashOf: Hasher)
    requires |answers| == |cands|
    ensures IsSubsequence(Run(Init(t0), cands, answers, numPhotos, now, hashOf).emitted, PhotosOf(cands, hashOf))
    decreases |cands|
  {
    if cands != [] {
      var n := |cands| - 1;
      var prev := Run(Init(t0), cands[..n], answers[..n], numPhotos, now, hashOf);
      RunEmitsInOrder(t0, cands[..n], answers[..n], numPhotos, now, hashOf);
      StepEmission(prev, cands[n], answers[n], numPhotos, now, hashOf);
      assert PhotosOf(cands, hashOf) == PhotosOf(cands[..n], hashOf) + [PhotoOf(cands[n], hashOf(cands[n].bytes))];
      SubsequenceExtend(prev.emitted, PhotosOf(cands[..n], hashOf), PhotoOf(cands[n], hashOf(cands[n].bytes)));
    }
  }

  /** No photo is handed on whose content already had a decided row when the
      scan started. */
  lemma {:induction false} RunNeverReemitsDecided(t0: Table, cands: seq<Candidate>, answers: seq<Option<MediaStatus>>,
                                                  numPhotos: int, now: int, hashOf: Hasher)
    requires |answers| == |cands| && KeyedByHash(t0)
    ensures forall p :: p in Run(Init(t0), cands, answers, numPhotos, now, hashOf).emitted ==>
      (p.fileHash in t0 ==> t0[p.fileHash].status == Unset)
    decreases |cands|
  {
    if cands != [] {
      var n := |cands| - 1;
      var prev := Run(Init(t0), cands[..n], answers[..n], numPhotos, now, hashOf);
      RunNeverReemitsDecided(t0, cands[..n], answers[..n], numPhotos, now, hashOf);
      RunKeepsDecisions(t0, cands[..n], answers[..n], numPhotos, now, hashOf);
      StepEmission(prev, cands[n], answers[n], numPhotos, now, hashOf);
      StepTable(prev, cands[n], answers[n], numPhotos, now, hashOf);
    }
  }

  /** The call-level bound: never more than `numPhotos + 1` photos. */
  lemma ReconcileEmitBound(t0: Table, cands: seq<Candidate>, numPhotos: int, now: int, hashOf: Hasher,
                           emitted: seq<Photo>, t1: Table)
    requires Reconciled(t0, cands, numPhotos, now, hashOf, emitted, t1)
    ensures |emitted| <= Limit(numPhotos)
    ensures |emitted| <= |cands|
  {
    var answers :| Consumes(t0, cands, numPhotos, now, hashOf, answers, emitted, t1);
    RunEmitCount(t0, cands[..|answers|], answers, numPhotos, now, hashOf);
    RunEmitsInOrder(t0, cands[..|answers|], answers, numPhotos, now, hashOf);
    SubsequenceLength(emitted, PhotosOf(cands[..|answers|], hashOf));
  }

  /** Every photo handed on is undecided, is the photo of one of the
      candidates, and they come in stream order. */
  lemma ReconcileEmitsCandidates(t0: Table, cands: seq<Candidate>, numPhotos: int, now: int, hashOf: Hasher,
                                 emitted: seq<Photo>, t1: Table)
    requires Reconciled(t0, cands, numPhotos, now, hashOf, emitted, t1)
    ensures IsSubsequence(emitted, PhotosOf(cands, hashOf))
    ensures forall p :: p in emitted ==> p.status == Unset
    ensures forall p :: p in emitted ==> exists c :: c in cands && p == PhotoOf(c, hashOf(c.bytes))
  {
    var answers :| Consumes(t0, cands, numPhotos, now, hashOf, answers, emitted, t1);
    var k := |answers|;
    RunEmitsInOrder(t0, cands[..k], answers, numPhotos, now, hashOf);
    PhotosOfPrefix(cands, k, hashOf);
    SubsequenceOfPrefix(emitted, PhotosOf(cands, hashOf), k);
    SubsequenceMembers(emitted, PhotosOf(cands, hashOf));
    forall p | p in emitted
      ensures p.status == Unset && exists c :: c in cands && p == PhotoOf(c, hashOf(c.bytes))
    {
      var i :| 0 <= i < |cands| && PhotosOf(cands, hashOf)[i] == p;
      assert cands[i] in cands;
    }
  }

  /** The store after a call: same primary-key discipline, no row lost, no
      decision changed, new rows undecided. */
  lemma ReconcileKeepsDecisions(t0: Table, cands: seq<Candidate>, numPhotos: int, now: int, hashOf: Hasher,
                                emitted: seq<Photo>, t1: Table)
    requires KeyedByHash(t0) && Reconciled(t0, cands, numPhotos, now, hashOf, emitted, t1)
    ensures KeyedByHash(t1) && t0.Keys <= t1.Keys
    ensures forall h :: h in t0 ==> t1[h].status == t0[h].status
    ensures forall h :: h in t1 && h !in t0 ==> t1[h].status == Unset
  {
    var answers :| Consumes(t0, cands, numPhotos, now, hashOf, answers, emitted, t1);
    RunKeepsDecisions(t0, cands[..|answers|], answers, numPhotos, now, hashOf);
  }

  /** Content already kept or deleted is never handed on again, whatever
      identifier the index now gives it. */
  lemma ReconcileSkipsDecidedContent(t0: Table, cands: seq<Candidate>, numPhotos: int, now: int, hashOf: Hasher,
                                     emitted: seq<Photo>, t1: Table)
    requires KeyedByHash(t0) && Reconciled(t0, cands, numPhotos, now, hashOf, emitted, t1)
    ensures forall p :: p in emitted && p.fileHash in t0 ==> t0[p.fileHash].status == Unset
  {
    var answers :| Consumes(t0, cands, numPhotos, now, hashOf, answers, emitted, t1);
    RunNeverReemitsDecided(t0, cands[..|answers|], answers, numPhotos, now, hashOf);
  }

  /** A one-candidate call sees the whole stream and makes one lookup. */
  lemma SingleCandidateRun(t0: Table, c: Candidate, numPhotos: int, now: int, hashOf: Hasher,
                           emitted: seq<Photo>, t1: Table)
    returns (byId: Option<MediaStatus>)
    requires numPhotos >= 0 && Reconciled(t0, [c], numPhotos, now, hashOf, emitted, t1)
    ensures IdAnswer(t0, c.id, byId)
    ensures Step(Init(t0), c, byId, numPhotos, now, hashOf) == Scan(t1, emitted, false)
  {
    var answers :| Consumes(t0, [c], numPhotos, now, hashOf, answers, emitted, t1);
    assert |answers| == 1;
    assert [c][..1] == [c] && [c][..0] == [] && answers[..0] == [];
    byId := answers[0];
  }

  /** A candidate whose identifier is carried only by decided rows is
      skipped: nothing handed on, nothing written. */
  lemma SkippedByDecidedId(t0: Table, c: Candidate, numPhotos: int, now: int, hashOf: Hasher,
                           emitted: seq<Photo>, t1: Table)
    requires numPhotos >= 0 && Reconciled(t0, [c], numPhotos, now, hashOf, emitted, t1)
    requires exists h :: h in t0 && t0[h].mediaStoreId == c.id
    requires forall h :: h in t0 && t0[h].mediaStoreId == c.id ==> t0[h].status != Unset
    ensures emitted == [] && t1 == t0
  {
    var byId := SingleCandidateRun(t0, c, numPhotos, now, hashOf, emitted, t1);
  }

  /** A candidate not skipped by its identifier whose content has a row:
      the row moves to the new identifier with a fresh date and keeps its
      decision (even when the identifier did not change); the photo is
      handed on only when that decision is UNSET, in which case the row is
      then replaced by the new photo's record. */
  lemma RepointedByHash(t0: Table, c: Candidate, numPhotos: int, now: int, hashOf: Hasher,
                        emitted: seq<Photo>, t1: Table)
    requires numPhotos >= 0 && KeyedByHash(t0) && Reconciled(t0, [c], numPhotos, now, hashOf, emitted, t1)
    requires forall h :: h in t0 && t0[h].mediaStoreId == c.id ==> t0[h].status == Unset
    requires hashOf(c.bytes) in t0
    ensures var h := hashOf(c.bytes);
      if t0[h].status == Unset then
        emitted == [PhotoOf(c, h)] && t1 == t0[h := GetMediaStatusEntity(PhotoOf(c, h), now)]
      else
        emitted == [] && t1 == t0[h := t0[h].(mediaStoreId := c.id, dateModified := now)]
    ensures t1[hashOf(c.bytes)].mediaStoreId == c.id && t1[hashOf(c.bytes)].status == t0[hashOf(c.bytes)].status
  {
    var byId := SingleCandidateRun(t0, c, numPhotos, now, hashOf, emitted, t1);
  }

  /** A candidate not skipped by its identifier whose content has no row is
      handed on and gets an UNSET row under its hash. */
  lemma InsertedWhenNew(t0: Table, c: Candidate, numPhotos: int, now: int, hashOf: Hasher,
                        emitted: seq<Photo>, t1: Table)
    requires numPhotos >= 0 && Reconciled(t0, [c], numPhotos, now, hashOf, emitted, t1)
    requires forall h :: h in t0 && t0[h].mediaStoreId == c.id ==> t0[h].status == Unset
    requires hashOf(c.bytes) !in t0
    ensures var h := hashOf(c.bytes);
      emitted == [PhotoOf(c, h)] && t1 == t0[h := GetMediaStatusEntity(PhotoOf(c, h), now)]
    ensures t1[hashOf(c.bytes)].status == Unset
  {
    var byId := SingleCandidateRun(t0, c, numPhotos, now, hashOf, emitted, t1);
  }

  function Min(a: int, b: int): int
  {
    if a < b then a else b
  }

  /** The content hashes of some candidates. */
  function Hashes(cs: seq<Candidate>, hashOf: Hasher): set<string>
  {
    set c | c in cs :: hashOf(c.bytes)
  }

  /** The scan state after `prefix` when every candidate so far was new. */
  ghost predicate FreshSoFar(t0: Table, s: Scan, prefix: seq<Candidate>, numPhotos: int, hashOf: Hasher)
  {
    var m := Min(|prefix|, Limit(numPhotos));
    && s.emitted == PhotosOf(prefix, hashOf)[..m]
    && (s.done <==> |prefix| > Limit(numPhotos))
    && (forall h :: h in s.table ==> s.table[h].status == Unset || (h in t0 && s.table[h] == t0[h]))
    && s.table.Keys <= t0.Keys + Hashes(prefix[..m], hashOf)
  }

  lemma HashesOfPrefix(cs: seq<Candidate>, m: nat, hashOf: Hasher)
    requires m <= |cs|
    ensures Hashes(cs[..m], hashOf) <= Hashes(cs, hashOf)
  {
    forall x | x in Hashes(cs[..m], hashOf) ensures x in Hashes(cs, hashOf) {
      var c' :| c' in cs[..m] && x == hashOf(c'.bytes);
      assert c' in cs;
    }
  }

  /** A candidate whose content has no row, and whose identifier is free or
      held by an UNSET row, is added as new content. */
  lemma FreshStepIsAdd(s: Scan, c: Candidate, byId: Option<MediaStatus>, numPhotos: int, now: int, hashOf: Hasher)
    requires LooksUp(s, numPhotos) && hashOf(c.bytes) !in s.table
    requires byId == None || byId.value.status == Unset
    ensures Step(s, c, byId, numPhotos, now, hashOf) == AddPhoto(s, c, hashOf(c.bytes), now)
  {
    assert Classify(Lookup(s.table, hashOf(c.bytes)), byId) == Fresh;
  }

  /** Adding a new candidate's photo extends the emitted prefix by one. */
  lemma FreshAddEmits(prefix: seq<Candidate>, c: Candidate, emitted: seq<Photo>, hashOf: Hasher)
    requires emitted == PhotosOf(prefix, hashOf)
    ensures emitted + [PhotoOf(c, hashOf(c.bytes))] == PhotosOf(prefix + [c], hashOf)
  {
    assert (prefix + [c])[..|prefix|] == prefix;
  }

  /** Adding a new candidate's photo keeps the scan in the all-new shape. */
  lemma FreshAddKeepsShape(t0: Table, s: Scan, prefix: seq<Candidate>, c: Candidate, numPhotos: int, now: int, hashOf: Hasher)
    requires FreshSoFar(t0, s, prefix, numPhotos, hashOf) && LooksUp(s, numPhotos)
    ensures FreshSoFar(t0, AddPhoto(s, c, hashOf(c.bytes), now), prefix + [c], numPhotos, hashOf)
  {
    var prefix' := prefix + [c];
    var h := hashOf(c.bytes);
    var m := |prefix|;
    assert Min(|prefix|, Limit(numPhotos)) == m && prefix[..m] == prefix;
    assert Min(|prefix'|, Limit(numPhotos)) == m + 1 && prefix'[..m + 1] == prefix';
    FreshAddEmits(prefix, c, s.emitted, hashOf);
    assert Hashes(prefix', hashOf) == Hashes(prefix, hashOf) + {h};
  }

  /** A new candidate within the limit is handed on. */
  lemma FreshStepAdds(t0: Table, s: Scan, prefix: seq<Candidate>, c: Candidate, byId: Option<MediaStatus>,
                      numPhotos: int, now: int, hashOf: Hasher)
    requires FreshSoFar(t0, s, prefix, numPhotos, hashOf) && LooksUp(s, numPhotos)
    requires hashOf(c.bytes) !in t0 && hashOf(c.bytes) !in Hashes(prefix, hashOf)
    requires forall h :: h in t0 && t0[h].mediaStoreId == c.id ==> t0[h].status == Unset
    requires IdAnswer(s.table, c.id, byId)
    ensures FreshSoFar(t0, Step(s, c, byId, numPhotos, now, hashOf), prefix + [c], numPhotos, hashOf)
  {
    assert prefix[..Min(|prefix|, Limit(numPhotos))] == prefix;
    FreshStepIsAdd(s, c, byId, numPhotos, now, hashOf);
    FreshAddKeepsShape(t0, s, prefix, c, numPhotos, now, hashOf);
  }

  /** Past the limit the scan stops and nothing more changes. */
  lemma FreshStepStops(t0: Table, s: Scan, prefix: seq<Candidate>, c: Candidate, byId: Option<MediaStatus>,
                       numPhotos: int, now: int, hashOf: Hasher)
    requires FreshSoFar(t0, s, prefix, numPhotos, hashOf) && !LooksUp(s, numPhotos)
    ensures FreshSoFar(t0, Step(s, c, byId, numPhotos, now, hashOf), prefix + [c], numPhotos, hashOf)
  {
    var prefix' := prefix + [c];
    var m := Limit(numPhotos);
    assert |prefix| >= m;
    assert prefix'[..m] == prefix[..m];
    assert prefix'[..|prefix|] == prefix;
    assert PhotosOf(prefix', hashOf)[..m] == PhotosOf(prefix, hashOf)[..m];
  }

  /** With pairwise distinct hashes, a candidate's hash is not among the
      hashes of the ones before it. */
  lemma NewHash(cands: seq<Candidate>, n: nat, hashOf: Hasher)
    requires n < |cands|
    requires forall i, j :: 0 <= i < j < |cands| ==> hashOf(cands[i].bytes) != hashOf(cands[j].bytes)
    ensures hashOf(cands[n].bytes) !in Hashes(cands[..n], hashOf)
  {
    forall c' | c' in cands[..n] ensures hashOf(c'.bytes) != hashOf(cands[n].bytes) {
      var i :| 0 <= i < n && cands[..n][i] == c';
    }
  }

  /** When every candidate is new content (distinct hashes with no row) and
      no decided row carries a candidate's identifier, the scan hands on
      exactly the first `numPhotos + 1` candidates' photos, or all of them if
      the stream is shorter. */
  lemma {:induction false} RunAllFresh(t0: Table, cands: seq<Candidate>, k: nat, answers: seq<Option<MediaStatus>>,
                                       numPhotos: int, now: int, hashOf: Hasher)
    requires k <= |cands| && |answers| == k
    requires Admissible(Init(t0), cands[..k], answers, numPhotos, now, hashOf)
    requires forall i :: 0 <= i < |cands| ==> hashOf(cands[i].bytes) !in t0
    requires forall i, j :: 0 <= i < j < |cands| ==> hashOf(cands[i].bytes) != hashOf(cands[j].bytes)
    requires forall i, h :: 0 <= i < |cands| && h in t0 && t0[h].mediaStoreId == cands[i].id ==> t0[h].status == Unset
    ensures FreshSoFar(t0, Run(Init(t0), cands[..k], answers, numPhotos, now, hashOf), cands[..k], numPhotos, hashOf)
    decreases k
  {
    if k == 0 {
      assert PhotosOf(cands[..0], hashOf)[..0] == [];
    } else {
      var n := k - 1;
      var c := cands[n];
      assert answers[..n] + [answers[n]] == answers;
      RunSnoc(Init(t0), cands, answers[..n], n, answers[n], numPhotos, now, hashOf);
      RunAllFresh(t0, cands, n, answers[..n], numPhotos, now, hashOf);
      NewHash(cands, n, hashOf);
      PrefixSnoc(cands, n);
      var s := Run(Init(t0), cands[..n], answers[..n], numPhotos, now, hashOf);
      if LooksUp(s, numPhotos) {
        FreshStepAdds(t0, s, cands[..n], c, answers[n], numPhotos, now, hashOf);
      } else {
        FreshStepStops(t0, s, cands[..n], c, answers[n], numPhotos, now, hashOf);
      }
    }
  }

  /** The photos of a prefix of the stream are a prefix of its photos. */
  lemma PhotosOfPrefix(cands: seq<Candidate>, k: nat, hashOf: Hasher)
    requires k <= |cands|
    ensures PhotosOf(cands[..k], hashOf) == PhotosOf(cands, hashOf)[..k]
  {
    var a := PhotosOf(cands[..k], hashOf);
    var b := PhotosOf(cands, hashOf)[..k];
    assert |a| == |b|;
    forall i | 0 <= i < k ensures a[i] == b[i] {
      assert cands[..k][i] == cands[i];
    }
  }

  /** `RunAllFresh` read against the whole stream. */
  lemma FreshRunEmits(t0: Table, cands: seq<Candidate>, k: nat, answers: seq<Option<MediaStatus>>,
                      numPhotos: int, now: int, hashOf: Hasher)
    requires k <= |cands| && |answers| == k
    requires Admissible(Init(t0), cands[..k], answers, numPhotos, now, hashOf)
    requires forall i :: 0 <= i < |cands| ==> hashOf(cands[i].bytes) !in t0
    requires forall i, j :: 0 <= i < j < |cands| ==> hashOf(cands[i].bytes) != hashOf(cands[j].bytes)
    requires forall i, h :: 0 <= i < |cands| && h in t0 && t0[h].mediaStoreId == cands[i].id ==> t0[h].status == Unset
    ensures var r := Run(Init(t0), cands[..k], answers, numPhotos, now, hashOf);
      && r.emitted == PhotosOf(cands, hashOf)[..Min(k, Limit(numPhotos))]
      && (r.done <==> k > Limit(numPhotos))
  {
    RunAllFresh(t0, cands, k, answers, numPhotos, now, hashOf);
    PhotosOfPrefix(cands, k, hashOf);
  }

  /** The call-level form: with only new content, the scan hands on
      `min(|cands|, numPhotos + 1)` photos, one more than `numPhotos`
      whenever the stream is long enough. */
  lemma AllFreshHandedOnUpToLimit(t0: Table, cands: seq<Candidate>, numPhotos: int, now: int, hashOf: Hasher,
                                  emitted: seq<Photo>, t1: Table)
    requires KeyedByHash(t0) && Reconciled(t0, cands, numPhotos, now, hashOf, emitted, t1)
    requires forall i :: 0 <= i < |cands| ==> hashOf(cands[i].bytes) !in t0
    requires forall i, j :: 0 <= i < j < |cands| ==> hashOf(cands[i].bytes) != hashOf(cands[j].bytes)
    requires forall i, h :: 0 <= i < |cands| && h in t0 && t0[h].mediaStoreId == cands[i].id ==> t0[h].status == Unset
    ensures emitted == PhotosOf(cands, hashOf)[..Min(|cands|, Limit(numPhotos))]
    ensures |cands| > numPhotos >= 0 ==> |emitted| == numPhotos + 1
  {
    var answers :| Consumes(t0, cands, numPhotos, now, hashOf, answers, emitted, t1);
    var k := |answers|;
    FreshRunEmits(t0, cands, k, answers, numPhotos, now, hashOf);
  }

  /** Two files with identical content but different identifiers are both
      handed on in one call: the second one finds the first one's UNSET row
      under the shared hash, moves it to its own identifier and is emitted. */
  lemma DuplicateContentHandedOnTwice(c1: Candidate, c2: Candidate, numPhotos: int, now: int, hashOf: Hasher,
                                      emitted: seq<Photo>, t1: Table)
    requires numPhotos >= 1 && c1.id != c2.id && hashOf(c1.bytes) == hashOf(c2.bytes)
    requires Reconciled(map[], [c1, c2], numPhotos, now, hashOf, emitted, t1)
    ensures |emitted| == 2 && emitted[0].fileHash == emitted[1].fileHash
    ensures emitted == [PhotoOf(c1, hashOf(c1.bytes)), PhotoOf(c2, hashOf(c2.bytes))]
  {
    var answers :| Consumes(map[], [c1, c2], numPhotos, now, hashOf, answers, emitted, t1);
    var cands := [c1, c2];
    var h := hashOf(c1.bytes);
    assert |answers| == 2 && cands[..2] == cands;
    assert cands[..1] == [c1] && [c1][..0] == [] && answers[..1][..0] == [];
    var s0 := Init(map[]);
    assert Admissible(s0, [c1], answers[..1], numPhotos, now, hashOf);
    assert IdAnswer(map[], c1.id, answers[0]);
    assert answers[0] == None;
    var s1 := Step(s0, c1, answers[0], numPhotos, now, hashOf);
    assert Run(s0, [c1], answers[..1], numPhotos, now, hashOf) == s1;
    assert s1.table == map[h := GetMediaStatusEntity(PhotoOf(c1, h), now)];
    assert s1.emitted == [PhotoOf(c1, h)];
    assert IdAnswer(s1.table, c2.id, answers[1]);
    assert answers[1] == None;
  }
}
