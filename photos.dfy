/** The photo rows `new_report` adds, and the photo count the API reports. */
module Photos {
  import opened Records
  import opened Uploads

  /** Every photo belongs to a report of the table. */
  ghost predicate PhotosKnown(photos: seq<ReportPhoto>, reports: seq<Report>)
  {
    forall i :: 0 <= i < |photos| ==> HasReport(reports, photos[i].reportId)
  }

  /**
   * The photos table after the uploads of report `reportId` are processed in
   * order: each upload that passes `allowed_file` adds one row with the next key.
   */
  function AddPhotos(photos: seq<ReportPhoto>, uploads: seq<string>, reportId: nat): seq<ReportPhoto>
    decreases |uploads|
  {
    if uploads == [] then photos
    else if AllowedFile(uploads[0]) then
      AddPhotos(photos + [ReportPhoto(NextId(photos, PhotoKey), uploads[0], reportId)], uploads[1..], reportId)
    else AddPhotos(photos, uploads[1..], reportId)
  }

  /** The number of photos that belong to report `reportId`. */
  function PhotoCount(photos: seq<ReportPhoto>, reportId: nat): nat
  {
    if photos == [] then 0
    else (if photos[0].reportId == reportId then 1 else 0) + PhotoCount(photos[1..], reportId)
  }

  lemma {:induction false} PhotoCountAppend(a: seq<ReportPhoto>, b: seq<ReportPhoto>, reportId: nat)
    ensures PhotoCount(a + b, reportId) == PhotoCount(a, reportId) + PhotoCount(b, reportId)
  {
    if a != [] {
      assert (a + b)[1..] == a[1..] + b;
      PhotoCountAppend(a[1..], b, reportId);
    } else {
      assert a + b == b;
    }
  }

  /** A report no photo row points at has no photos. */
  lemma {:induction false} PhotoCountOfUnreferenced(photos: seq<ReportPhoto>, reportId: nat)
    requires forall i :: 0 <= i < |photos| ==> photos[i].reportId != reportId
    ensures PhotoCount(photos, reportId) == 0
  {
    if photos != [] {
      PhotoCountOfUnreferenced(photos[1..], reportId);
    }
  }

  /**
   * The existing rows stay in front, unchanged, and behind them stands one
   * row per accepted upload, in upload order, each naming that upload and
   * belonging to the report.
   */
  lemma {:induction false} AddPhotosRows(photos: seq<ReportPhoto>, uploads: seq<string>, reportId: nat)
    ensures var after := AddPhotos(photos, uploads, reportId);
            var accepted := Accepted(uploads);
            |after| == |photos| + |accepted| && after[..|photos|] == photos &&
            forall i :: 0 <= i < |accepted| ==>
              after[|photos| + i].filename == accepted[i] && after[|photos| + i].reportId == reportId
    decreases |uploads|
  {
    if uploads != [] {
      if AllowedFile(uploads[0]) {
        var more := photos + [ReportPhoto(NextId(photos, PhotoKey), uploads[0], reportId)];
        AddPhotosRows(more, uploads[1..], reportId);
        var after := AddPhotos(more, uploads[1..], reportId);
        assert after[..|photos|] == after[..|more|][..|photos|];
      } else {
        AddPhotosRows(photos, uploads[1..], reportId);
      }
    }
  }

  /** The report gains exactly as many photos as there were accepted uploads. */
  lemma {:induction false} AddPhotosCount(photos: seq<ReportPhoto>, uploads: seq<string>, reportId: nat)
    ensures PhotoCount(AddPhotos(photos, uploads, reportId), reportId) ==
            PhotoCount(photos, reportId) + |Accepted(uploads)|
    decreases |uploads|
  {
    if uploads != [] {
      if AllowedFile(uploads[0]) {
        var p := ReportPhoto(NextId(photos, PhotoKey), uploads[0], reportId);
        AddPhotosCount(photos + [p], uploads[1..], reportId);
        PhotoCountAppend(photos, [p], reportId);
      } else {
        AddPhotosCount(photos, uploads[1..], reportId);
      }
    }
  }

  /** No other report gains a photo. */
  lemma {:induction false} AddPhotosKeepsOtherCounts(photos: seq<ReportPhoto>, uploads: seq<string>, reportId: nat, other: nat)
    requires other != reportId
    ensures PhotoCount(AddPhotos(photos, uploads, reportId), other) == PhotoCount(photos, other)
    decreases |uploads|
  {
    if uploads != [] {
      if AllowedFile(uploads[0]) {
        var p := ReportPhoto(NextId(photos, PhotoKey), uploads[0], reportId);
        AddPhotosKeepsOtherCounts(photos + [p], uploads[1..], reportId, other);
        PhotoCountAppend(photos, [p], other);
      } else {
        AddPhotosKeepsOtherCounts(photos, uploads[1..], reportId, other);
      }
    }
  }

  /** The photo keys stay increasing. */
  lemma {:induction false} AddPhotosKeepsIdsIncreasing(photos: seq<ReportPhoto>, uploads: seq<string>, reportId: nat)
    requires IdsIncreasing(photos, PhotoKey)
    ensures IdsIncreasing(AddPhotos(photos, uploads, reportId), PhotoKey)
    decreases |uploads|
  {
    if uploads != [] {
      if AllowedFile(uploads[0]) {
        var p := ReportPhoto(NextId(photos, PhotoKey), uploads[0], reportId);
        InsertKeepsIdsIncreasing(photos, PhotoKey, p);
        AddPhotosKeepsIdsIncreasing(photos + [p], uploads[1..], reportId);
      } else {
        AddPhotosKeepsIdsIncreasing(photos, uploads[1..], reportId);
      }
    }
  }
}
