# KaunoLens client core in Dafny

KaunoLens is a React client. It photographs a building, or takes an uploaded
picture, and sends it to a recognition service. It shows the building the
service names and opens a map at the returned coordinates. It also keeps a
search history in the browser's `localStorage`. This project models the parts of
the client that have logic of their own, and it proves what they promise:

- **History store** (`history_store.dfy`, module `HistoryStore`).
  - `saveToHistory` appends an entry to the log stored under `"history"`.
  - When the store refuses the write (quota exceeded), it drops the oldest
    entry and retries. Last of all it tries the new entry alone.
  - Storage is a class. It holds the stored value and a deterministic,
    uninterpreted capacity predicate `fits`. A ghost trace records every
    write attempt.
  - The method is proved against two specification functions. `LongestFit` is
    the longest suffix of the log plus the new entry that fits. `Attempts` is
    the sequence of logs tried.
- **History screen** (`history_screen.dfy`, module `HistoryScreen`). It reads
  the log once and shows it newest-first.
- **Thumbnail rule** (`image_compression.dfy`, module `ImageCompression`).
  `compressImage` does three things:
  - It applies the default options.
  - It rejects a missing file, a read failure and a decode failure, each with
    its own message.
  - It computes `scale = min(1, maxWidth / width)` and a canvas of
    `width*scale x height*scale`.
  Arithmetic is exact on reals. Storing into the canvas's unsigned-long size
  attributes is written out as truncation modulo 2^32. The scaled size never
  exceeds the image's own size, so the modulus never applies.
- **Data URL to file** (`data_url.dfy`, module `DataUrl`). This is the camera
  screen's `dataURLtoFile`:
  - It splits the URL at its commas.
  - It finds the MIME type with the regular expression `/:(.*?);/`, and falls
    back to `"image/png"`.
  - It decodes the payload with `atob`, which is a parameter.
  - It copies the character codes into a byte array with a backwards loop.
  - The `File` constructor lower-cases the type, or blanks it when it holds a
    character outside printable ASCII.
- **Screen sessions** (`camera_screen.dfy`, `upload_screen.dfy`, with shared
  values in `screen_common.dfy`).
  - The camera and upload screens are classes. Their fields are the screens'
    state variables, and one method per handler sets them.
  - The outcomes of the recognition request and of compression are
    parameters.
  - The request sent, the history entry saved and the map location opened are
    ghost outputs.

`wrappers.dfy` holds `Option`, `Result`, the byte type, the `File` value and
JavaScript truthiness for optional strings and numbers.

Where the code does something a reader might not expect, the model follows
the code:

- The camera screen sends the compressed thumbnail, not a full-quality image.
  It is the same string that it saves to history.
- A failed localization leaves `building` as it was. It does not clear it.
- Neither screen tags requests to discard stale responses.
- Neither handler guards against being started while a request is in flight.
  Only the disabled button does that, and the button is not modelled.
- `compressImage` also resolves for an image of width 0, because the scale
  is then `Math.min(1, Infinity)`, which is 1.

## Model

| member | source | states |
|---|---|---|
| HistoryStore.Load | src/utils/saveToHistory.js:10 | A missing "history" key reads as the empty log; otherwise the stored log is used as is |
| HistoryStore.LongestFitIsLongest | src/utils/saveToHistory.js:25-31 | The first accepted log is a non-empty suffix of the offered log and the store accepts it. Every longer suffix is refused. There is none exactly when no suffix is accepted |
| HistoryStore.AttemptsDropOldestFirst | src/utils/saveToHistory.js:28-31 | Attempt i is the offered log with its i oldest entries dropped. There are at most as many attempts as entries. Every attempt but the last is refused. The last is accepted, or it is the one-entry suffix |
| HistoryStore.AttemptsEndAtLongestFit | src/utils/saveToHistory.js:25-31 | The last attempt before the final one is accepted exactly when some suffix fits. It is then the longest fitting suffix; otherwise it is the new entry alone |
| HistoryStore.AttemptsUntilFirstFit | src/utils/saveToHistory.js:28-31 | When `s[d..]` is the first accepted suffix, or the one-entry suffix, the attempts are exactly `s[0..]` through `s[d..]` |
| HistoryStore.SaveKeepsLongestFittingSuffix | src/utils/saveToHistory.js:11-31 | If some suffix of old log plus entry fits, the save succeeds. The stored log is a suffix of old log plus entry, at least that long, ending with the new entry, and accepted by the store |
| HistoryStore.FailedSaveLeavesStore | src/utils/saveToHistory.js:13-34 | When no suffix fits, the stored value is unchanged |
| HistoryStore.FinalAttemptRepeatsRefusedLog | src/utils/saveToHistory.js:28-34 | When no suffix fits, the loop's last attempt was already `[entry]` and it was refused. So the final single-entry attempt cannot succeed |
| HistoryStore.UnlimitedStoreKeepsEverything | src/utils/saveToHistory.js:11-25 | A store that accepts everything ends up holding the old log with the new entry appended |
| HistoryStore.OneEntryStoreKeepsNewest | src/utils/saveToHistory.js:28-31 | A store that holds at most one entry ends up holding just the new entry |
| HistoryStore.Storage.TryPersist | src/utils/saveToHistory.js:13-22 | A write replaces the stored value and returns true exactly when the store accepts the log. A refused write returns false and changes nothing. The attempt is appended to the trace |
| HistoryStore.SaveToHistory | src/utils/saveToHistory.js:2-35 | The entry carries the given image, location, building and timestamp. The result is true exactly when some suffix fits, and the store then holds the longest such suffix, ending with the entry. A false result leaves the store unchanged. The attempts are `Attempts`, plus the final `[entry]` on failure, and there are at most the old length plus 2 of them |
| HistoryScreen.Reverse | src/pages/History.jsx:8 | The copy has the same length, and element i is element `n-1-i` of the original |
| HistoryScreen.ReverseTwice | src/pages/History.jsx:8 | Reversing the shown list gives back the stored log |
| HistoryScreen.Displayed | src/pages/History.jsx:7-8 | A missing key shows an empty list. Otherwise the shown list is the stored log reversed, with the same length |
| HistoryScreen.LoadHistory | src/pages/History.jsx:6-9 | Loading yields `Displayed` of the stored value and writes nothing, since the method has no `modifies` clause |
| HistoryScreen.SavedEntryShownFirst | src/pages/History.jsx:8 | After a successful save, the new entry is shown first |
| HistoryScreen.ThreeSavesShownNewestFirst | src/pages/History.jsx:6-9 | Saving a, b and c into an empty store with no quota shows [c, b, a] |
| ImageCompression.ResolveOptions | src/utils/imageCompression.js:5-9 | Each option that is left out takes its default: maxWidth 800, quality 0.5, "image/jpeg" |
| ImageCompression.Scale | src/utils/imageCompression.js:27 | The scale lies in (0, 1]. `width*scale` is at most maxWidth. The scale is 1 when the width is within the limit, and the width scales to exactly maxWidth otherwise |
| ImageCompression.ScaledDimension | src/utils/imageCompression.js:30-31 | The stored dimension is `floor(n*scale)`. It never exceeds n, and it equals n at scale 1 |
| ImageCompression.ScaledDown | src/utils/imageCompression.js:30-31 | Scaling by at most 1 stays within [0, n], so the unsigned-long conversion is plain truncation |
| ImageCompression.TargetSize | src/utils/imageCompression.js:27-31 | The canvas is no larger than the image in either dimension, and its width is at most maxWidth. An image within the limit keeps its size |
| ImageCompression.ProportionalScaling | src/utils/imageCompression.js:27-31 | An image wider than the limit becomes `floor(maxWidth)` wide. Its height is scaled by the same factor `maxWidth/width` |
| ImageCompression.DefaultLimitHalvesWideImage | src/utils/imageCompression.js:27-31 | 1600x1200 with the default limit becomes 800x600 |
| ImageCompression.CompressImage | src/utils/imageCompression.js:3-44 | The errors come in order: "No file provided", "File reading failed", "Image loading failed". The result succeeds exactly when all inputs are present, and it then has the resolved type and quality and the bounded canvas |
| ImageCompression.Compressed | src/utils/imageCompression.js:36-37 | The promise resolves with the encoding of that thumbnail, or rejects with the same reason |
| DataUrl.Header | src/pages/CameraScreen.jsx:67 | The first field holds no comma, is a prefix of the URL, and is followed by a comma unless it is the whole URL |
| DataUrl.Payload | src/pages/CameraScreen.jsx:67 | The second field is undefined exactly when there is no comma. Otherwise it is the comma-free text after the first comma, up to the next comma or the end |
| DataUrl.SplitRecoversFields | src/pages/CameraScreen.jsx:67 | For comma-free h and p, splitting `h + "," + p + rest` returns h and p, whatever follows the second comma |
| DataUrl.AtobArgument | src/pages/CameraScreen.jsx:69 | `atob` receives the second field, or "undefined" when there is none |
| DataUrl.FindMatch | src/pages/CameraScreen.jsx:68 | The result is the leftmost match of `/:(.*?);/`, and there is no match before it; `None` means there is no match at all |
| DataUrl.MimeType | src/pages/CameraScreen.jsx:68 | The MIME type is never empty |
| DataUrl.MimeTypeIsLeftmostGroup | src/pages/CameraScreen.jsx:68 | The MIME type is the lazy group of the leftmost match when that group is non-empty, else "image/png" |
| DataUrl.MimeTypeDefault | src/pages/CameraScreen.jsx:68 | A header with no match gives "image/png" |
| DataUrl.DeclaredTypeExtracted | src/pages/CameraScreen.jsx:68 | `data:<t>;base64` yields t for any non-empty t without a semicolon or a line terminator |
| DataUrl.CharCodes | src/pages/CameraScreen.jsx:70-72 | The bytes have the decoded string's length, and byte i is the code of character i |
| DataUrl.CopyCharCodes | src/pages/CameraScreen.jsx:70-72 | The backwards loop fills an array of the decoded string's length, with element i equal to the code of character i |
| DataUrl.FileType | src/pages/CameraScreen.jsx:73 | The file's type is the given type in ASCII lower case, character by character, when every character is in U+0020 to U+007E, and the empty string otherwise |
| DataUrl.FileTypeIdempotent | src/pages/CameraScreen.jsx:73 | Normalising an already normalised type changes nothing |
| DataUrl.FileTypeKeepsLowercase | src/pages/CameraScreen.jsx:73 | A printable type without upper-case letters is kept as is, and a type that differs from it only in letter case is mapped to it |
| DataUrl.DeclaredTypeLowered | src/pages/CameraScreen.jsx:68-73 | A header `data:<t>;base64` gives a file whose type is `t` normalised |
| DataUrl.UpperCaseTypeLowered | src/pages/CameraScreen.jsx:73 | The type "IMAGE/PNG" becomes "image/png" |
| DataUrl.FileOf | src/pages/CameraScreen.jsx:66-74 | A file results exactly when `atob` succeeds. It has the given name, the header's MIME type as the File constructor normalises it, and the decoded bytes |
| DataUrl.DataUrlToFile | src/pages/CameraScreen.jsx:66-74 | The imperative conversion returns exactly `FileOf` |
| ScreenCommon.ShownBuilding | src/pages/CameraScreen.jsx:138 | The building is shown exactly when `detectedObject` is a non-empty string, and it is then that string |
| ScreenCommon.MapTarget | src/pages/CameraScreen.jsx:148-153 | The map opens exactly when both coordinates are present and non-zero, and it opens at those coordinates |
| ScreenCommon.LocatedEntry | src/pages/CameraScreen.jsx:141-146 | The saved entry holds the given image and timestamp, the reply's coordinates and the reply's `detectedObject` |
| CameraScreen.CaptureIsBoundedThumbnail | src/pages/CameraScreen.jsx:89-104 | A capture succeeds exactly when `atob` accepts the payload and the browser reads and decodes the file. It then yields the encoding of a JPEG at quality 0.5, at most 800 wide and no larger than the frame. Otherwise the error is that of the first failing step: "InvalidCharacterError" from `atob`, then "File reading failed", then "Image loading failed"; never "No file provided" |
| CameraScreen.CameraSession.constructor | src/pages/CameraScreen.jsx:10-14 | The session starts with no photo, no building, and both flags false |
| CameraScreen.CameraSession.TakePhoto | src/pages/CameraScreen.jsx:76-105 | With no video or canvas element, nothing changes. Otherwise a successful capture becomes the photo, and a failure sets `failed` and keeps the photo. Building and localizing are untouched |
| CameraScreen.CameraSession.RetakePhoto | src/pages/CameraScreen.jsx:107-112 | Photo and building are cleared, and both flags are false |
| CameraScreen.CameraSession.LocalizePhoto | src/pages/CameraScreen.jsx:118-160 | The request carries the current (compressed) photo. On failure: `failed` is set, building is kept, nothing is saved and no map opens. On success: the building is shown, and the same photo is saved with the reply's data by `saveToHistory`. The map opens per `MapTarget`. `localizing` is false afterwards |
| UploadScreen.HistoryImage | src/pages/UploadScreen.jsx:109 | The saved image is the thumbnail when it is a non-empty string, else the preview |
| UploadScreen.UploadSession.constructor | src/pages/UploadScreen.jsx:9-15 | The session starts with everything empty and both flags false |
| UploadScreen.UploadSession.OnFileSelected | src/pages/UploadScreen.jsx:30-39 | An event with no file changes nothing. Otherwise `failed` is cleared and the original file is kept for upload |
| UploadScreen.UploadSession.OnPreviewLoaded | src/pages/UploadScreen.jsx:42-53 | The original data URL becomes the preview. A successful compression becomes the history photo, and a rejected one leaves it as it was |
| UploadScreen.UploadSession.Reupload | src/pages/UploadScreen.jsx:60-67 | Photo, thumbnail, file and building are cleared, and both flags are false |
| UploadScreen.UploadSession.LocalizePhoto | src/pages/UploadScreen.jsx:74-129 | With no file: it fails with no request, no save and no map. Otherwise it sends the original file as multipart field "file". On failure, building is kept and nothing is saved. On success, the building is shown and `HistoryImage` is saved with the reply's data, and the map opens per `MapTarget`. `localizing` is false afterwards |

## Left out

- Camera acquisition and release (`startCamera`, `stopCamera`, the video element) are device I/O. Whether both elements exist is a parameter of `TakePhoto`.
- `FileReader`, `Image` decoding and `canvas.toDataURL` are browser calls. Their outcomes are parameters: the `Decoding` value gives the read outcome, the decoded size and the encoder.
- Floating point is not modelled. Scale and dimensions use exact real arithmetic, an idealisation of JavaScript doubles; NaN and Infinity inputs are not represented.
- Images 2^31 pixels or more in one dimension are not modelled. A canvas size above 2^31 - 1 would select the default canvas size rather than wrap, and `ToUnsignedLong` does not represent that.
- ImageCompression.CompressImage: requires a positive `maxWidth` when one is given, because every caller passes 800; the behaviour for a zero or negative limit is not modelled.
- `fetch`, response status and `response.json()` are network calls. Their combined outcome is the `Reply` parameter, and every way they fail is `Reply.Failed`. This includes a `null` body, whose property access throws into the same `catch`.
- `localStorage` and `JSON.stringify`/`JSON.parse` are abstracted by the `Storage` class. The stored value is held as entries, and the quota is the uninterpreted predicate `fits`, assumed deterministic.
- Corrupt JSON under "history" makes `JSON.parse` throw. On the history screen the error is not caught. In both screens the throw from `saveToHistory` reaches `localizePhoto`'s `catch` after `building` has been set: the screen then shows the building, sets `failed` and opens no map. The model stores entries, not JSON text, so this case does not arise in it.
- `new Date().toLocaleString()` depends on the clock and the locale. The timestamp is a parameter.
- `console.warn` and `console.error` are logging only.
- Asynchronous interleavings are not modelled: each handler runs to completion as one step. `reader.onload` of the upload screen is the separate step `OnPreviewLoaded`. A compression rejected inside it escapes the handler's `try`, so `failed` is not set. That is how the model treats it, but the unhandled promise rejection itself is not modelled.
- `openPicker` (clearing and clicking the hidden file input) is a DOM call and is not modelled. `Reupload` models only the state reset.
- `window.open` is recorded only as the ghost `mapOpened` location. The URL text is not built.
- DataUrl.CopyCharCodes: does not state that the returned array is freshly allocated.
- JSX layout and styling, routing (`src/App.js`), `src/pages/HomeScreen.jsx`, `src/pages/SplashScreen.jsx` and `src/utils/localizeApi.js` are presentation or unused. They are not part of this model.
