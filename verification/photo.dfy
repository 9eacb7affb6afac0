/** The in-memory media item handed from the reconciliation scan to the review
    screen (Photo.kt). */
module Photos {
  import opened Wrappers

  /** The review decision on one item; exactly three values, in this order. */
  datatype PhotoStatus = Unset | Delete | Keep

  /** A content URI of the media index. The index builds it by appending the
      item's platform id to the external images collection, so it is a
      function of that id. */
  datatype Uri = ContentUri(mediaStoreId: int)

  /** The EXIF latitude/longitude pair. It is a floating-point array that is
      compared by reference, so it is carried as an opaque handle. */
  datatype LatLong = LatLong(handle: nat)

  /** A candidate photo under review. `status` is the only field the review
      state machine changes; every other field is fixed when the photo is built. */
  datatype Photo = Photo(
    id: int,
    uri: Uri,
    fileHash: string,
    dateTaken: Option<int>,
    size: int,
    location: Option<LatLong>,
    album: Option<string>,
    description: Option<string>,
    title: Option<string>,
    resolution: Option<string>,
    status: PhotoStatus)
  {
    /** The same photo with another review decision (the only in-place change
        the source makes to a photo). */
    function WithStatus(s: PhotoStatus): (p: Photo)
      ensures p.status == s
      ensures p.(status := status) == this
    {
      this.(status := s)
    }
  }
}
