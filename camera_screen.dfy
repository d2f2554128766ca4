/** The camera screen's capture and localization state. Camera
    acquisition and release are device I/O and not part of this model. */
module CameraScreen {
  import opened Wrappers
  import opened HistoryStore
  import opened ImageCompression
  import opened DataUrl
  import opened ScreenCommon

  /** The outcome of a capture: the frame's PNG data URL turned into a file
      and compressed, or the error thrown on the way. */
  function Captured(rawDataUrl: string, atob: Atob, browser: Decoding): (r: Result<string, string>)
  {
    match FileOf(rawDataUrl, "capture.png", atob)
    case Err(e) => Err(e)
    case Ok(file) => Compressed(Some(file), Some(ThumbnailOptions), browser)
  }

  /** A capture succeeds exactly when `atob` accepts the payload and the
      browser reads and decodes the file. It then yields the encoding of a
      JPEG thumbnail at quality 0.5, at most 800 pixels wide and no larger
      than the frame. Otherwise it fails with the error of the first step
      that failed, and never with "No file provided". */
  lemma CaptureIsBoundedThumbnail(rawDataUrl: string, atob: Atob, browser: Decoding)
    ensures Captured(rawDataUrl, atob, browser).Ok? <==>
      atob(AtobArgument(rawDataUrl)).Some? && browser.readOk && browser.image.Some?
    ensures Captured(rawDataUrl, atob, browser).Ok? ==>
      var t := Thumbnail(TargetSize(800.0, browser.image.value), "image/jpeg", 0.5);
      Captured(rawDataUrl, atob, browser).value == browser.encode(t) &&
      t.canvas.width <= 800 && t.canvas.width <= browser.image.value.width &&
      t.canvas.height <= browser.image.value.height
    ensures atob(AtobArgument(rawDataUrl)).None? ==>
      Captured(rawDataUrl, atob, browser) == Err("InvalidCharacterError")
    ensures atob(AtobArgument(rawDataUrl)).Some? && !browser.readOk ==>
      Captured(rawDataUrl, atob, browser) == Err("File reading failed")
    ensures atob(AtobArgument(rawDataUrl)).Some? && browser.readOk && browser.image.None? ==>
      Captured(rawDataUrl, atob, browser) == Err("Image loading failed")
  {
    assert ResolveOptions(Some(ThumbnailOptions)) == Options(800.0, 0.5, "image/jpeg");
    var f := FileOf(rawDataUrl, "capture.png", atob);
    if f.Ok? {
      assert CompressImage(Some(f.value), Some(ThumbnailOptions), browser.readOk, browser.image).Ok? <==>
        browser.readOk && browser.image.Some?;
    }
  }

  class CameraSession {
    /** The compressed capture shown as preview and sent for localization. */
    var photo: Option<string>
    var failed: bool
    var building: Option<string>
    var localizing: bool

    constructor ()
      ensures photo == None && !failed && building == None && !localizing
    {
      photo, failed, building, localizing := None, false, None, false;
    }

    /** `takePhoto`: nothing happens unless the video and canvas elements
        exist; otherwise the frame is converted and compressed, and either
        becomes the photo or sets the failure flag. */
    method TakePhoto(videoReady: bool, canvasReady: bool, rawDataUrl: string, atob: Atob, browser: Decoding)
      modifies this
      ensures !(videoReady && canvasReady) ==> unchanged(this)
      ensures building == old(building) && localizing == old(localizing)
      ensures videoReady && canvasReady ==>
        var shot := Captured(rawDataUrl, atob, browser);
        (shot.Ok? ==> photo == Some(shot.value) && failed == old(failed)) &&
        (shot.Err? ==> photo == old(photo) && failed)
    {
      if !videoReady || !canvasReady {
        return;
      }
      var file := DataUrlToFile(rawDataUrl, "capture.png", atob);
      match file {
        case Err(_) =>
          failed := true;
        case Ok(f) =>
          var compressed := Compressed(Some(f), Some(ThumbnailOptions), browser);
          match compressed {
            case Ok(base64) => photo := Some(base64);
            case Err(_) => failed := true;
          }
      }
    }

    /** `retakePhoto`: back to the live view with every flag cleared. */
    method RetakePhoto()
      modifies this
      ensures photo == None && !failed && building == None && !localizing
    {
      photo := None;
      failed := false;
      building := None;
      localizing := false;
    }

    /** `localizePhoto`: send the compressed photo as JSON; on success show
        the building, save the same photo with the reply's coordinates to
        history and open the map when both coordinates are truthy; on
        failure set the flag and save nothing. The request, the saved entry
        and the map target are reported as ghost outputs. */
    method LocalizePhoto(store: Storage, reply: Reply, timestamp: string)
      returns (ghost request: Request, ghost saved: Option<Entry>, ghost mapOpened: Option<(real, real)>)
      modifies this, store
      ensures request == JsonImage(old(photo))
      ensures photo == old(photo) && !localizing
      ensures reply.Failed? ==>
        failed && building == old(building) && saved == None && mapOpened == None &&
        store.item == old(store.item)
      ensures reply.Located? ==>
        !failed && building == ShownBuilding(reply.detectedObject) &&
        saved == Some(LocatedEntry(old(photo), reply, timestamp)) &&
        store.item == AfterSave(store.fits, old(store.item), saved.value) &&
        mapOpened == MapTarget(reply.latitude, reply.longitude)
    {
      failed := false;
      localizing := true;
      request := JsonImage(photo);
      match reply {
        case Failed =>
          failed := true;
          saved, mapOpened := None, None;
        case Located(detectedObject, latitude, longitude) =>
          building := ShownBuilding(detectedObject);
          var _ := SaveToHistory(store, photo, Some(Location(latitude, longitude)), detectedObject, timestamp);
          saved := Some(LocatedEntry(photo, reply, timestamp));
          mapOpened := MapTarget(latitude, longitude);
      }
      localizing := false;
    }
  }
}
