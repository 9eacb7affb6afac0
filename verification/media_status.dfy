/** The durable per-content status record (MediaStatus.kt) and its
    construction from a photo (Photo.getMediaStatusEntity). */
module MediaStatuses {
  import opened Photos

  /** One row of the `mediaStatus` table. `fileHash` is the primary key;
      `mediaStoreId` carries a non-unique index, so several rows may share it. */
  datatype MediaStatus = MediaStatus(
    fileHash: string,
    mediaStoreId: int,
    status: PhotoStatus,
    size: int,
    dateModified: int)

  /** The record persisted for a photo. `currentDate` is the clock reading
      taken at the call (0 on platforms too old to read it). */
  function GetMediaStatusEntity(p: Photo, currentDate: int): (r: MediaStatus)
    ensures r.fileHash == p.fileHash && r.mediaStoreId == p.id
    ensures r.status == p.status && r.size == p.size
    ensures r.dateModified == currentDate
  {
    MediaStatus(p.fileHash, p.id, p.status, p.size, currentDate)
  }

  /** The primary-key constraint: every row is stored under its own hash,
      so there is at most one row per hash. */
  ghost predicate KeyedByHash(table: map<string, MediaStatus>)
  {
    forall h :: h in table ==> table[h].fileHash == h
  }
}
