/** The upload screen's file selection and localization state. The file
    picker itself and `FileReader` are browser calls whose results are
    passed in. */
module UploadScreen {
  import opened Wrappers
  import opened HistoryStore
  import opened ImageCompression
  import opened ScreenCommon

  /** `historyPhoto || photo`: the image a successful localization saves. */
  function HistoryImage(historyPhoto: Option<string>, photo: Option<string>): (image: Option<string>)
    ensures TruthyString(historyPhoto) ==> image == historyPhoto
    ensures !TruthyString(historyPhoto) ==> image == photo
  {
    if TruthyString(historyPhoto) then historyPhoto else photo
  }

  class UploadSession {
    /** The original image as a data URL, for the preview. */
    var photo: Option<string>
    /** The compressed thumbnail kept for history. */
    var historyPhoto: Option<string>
    /** The file as chosen, sent for localization. */
    var selectedFile: Option<File>
    var failed: bool
    var building: Option<string>
    var localizing: bool

    constructor ()
      ensures photo == None && historyPhoto == None && selectedFile == None
      ensures !failed && building == None && !localizing
    {
      photo, historyPhoto, selectedFile := None, None, None;
      failed, building, localizing := false, None, false;
    }

    /** `onFileSelected` up to `readAsDataURL`: a change event without a
        file does nothing; otherwise the failure flag is cleared and the
        original file is kept for the upload. */
    method OnFileSelected(file: Option<File>)
      modifies this
      ensures file.None? ==> unchanged(this)
      ensures file.Some? ==> !failed && selectedFile == file
      ensures photo == old(photo) && historyPhoto == old(historyPhoto)
      ensures building == old(building) && localizing == old(localizing)
    {
      if file.None? {
        return;
      }
      failed := false;
      selectedFile := file;
    }

    /** `reader.onload` for `file`: the original data URL becomes the
        preview, then the compressed thumbnail (800 wide, JPEG, quality 0.5)
        becomes the history photo. A rejected compression is not caught and
        leaves the history photo as it was. */
    method OnPreviewLoaded(file: File, preview: string, browser: Decoding)
      modifies this
      ensures photo == Some(preview)
      ensures var c := Compressed(Some(file), Some(ThumbnailOptions), browser);
        historyPhoto == if c.Ok? then Some(c.value) else old(historyPhoto)
      ensures selectedFile == old(selectedFile) && failed == old(failed)
      ensures building == old(building) && localizing == old(localizing)
    {
      photo := Some(preview);
      var compressed := Compressed(Some(file), Some(ThumbnailOptions), browser);
      if compressed.Ok? {
        historyPhoto := Some(compressed.value);
      }
    }

    /** `reupload`: forget the photo, the thumbnail, the file and the
        result, clear the flags and reopen the picker. */
    method Reupload()
      modifies this
      ensures photo == None && historyPhoto == None && selectedFile == None
      ensures !failed && building == None && !localizing
    {
      photo := None;
      historyPhoto := None;
      selectedFile := None;
      failed := false;
      building := None;
      localizing := false;
    }

    /** `localizePhoto`: without a selected file it fails before any
        request. Otherwise the original file is sent as the multipart field
        "file"; on success the building is shown, the thumbnail (or the
        preview when there is none yet) is saved to history with the reply's
        coordinates, and the map opens when both coordinates are truthy; on
        failure the flag is set and nothing is saved. */
    method LocalizePhoto(store: Storage, reply: Reply, timestamp: string)
      returns (ghost request: Option<Request>, ghost saved: Option<Entry>, ghost mapOpened: Option<(real, real)>)
      modifies this, store
      ensures photo == old(photo) && historyPhoto == old(historyPhoto) && selectedFile == old(selectedFile)
      ensures !localizing
      ensures selectedFile.None? ==>
        failed && request == None && building == old(building) &&
        saved == None && mapOpened == None && store.item == old(store.item)
      ensures selectedFile.Some? ==> request == Some(Multipart("file", selectedFile.value))
      ensures selectedFile.Some? && reply.Failed? ==>
        failed && building == old(building) && saved == None && mapOpened == None &&
        store.item == old(store.item)
      ensures selectedFile.Some? && reply.Located? ==>
        !failed && building == ShownBuilding(reply.detectedObject) &&
        saved == Some(LocatedEntry(HistoryImage(historyPhoto, photo), reply, timestamp)) &&
        store.item == AfterSave(store.fits, old(store.item), saved.value) &&
        mapOpened == MapTarget(reply.latitude, reply.longitude)
    {
      failed := false;
      localizing := true;
      request, saved, mapOpened := None, None, None;
      if selectedFile.None? {
        failed := true;
        localizing := false;
        return;
      }
      request := Some(Multipart("file", selectedFile.value));
      match reply {
        case Failed =>
          failed := true;
        case Located(detectedObject, latitude, longitude) =>
          building := ShownBuilding(detectedObject);
          var image := HistoryImage(historyPhoto, photo);
          var _ := SaveToHistory(store, image, Some(Location(latitude, longitude)), detectedObject, timestamp);
          saved := Some(LocatedEntry(image, reply, timestamp));
          mapOpened := MapTarget(latitude, longitude);
      }
      localizing := false;
    }
  }
}
