/** What the camera and upload screens share: the recognition service's
    reply, the request they send, and the way they read the reply. */
module ScreenCommon {
  import opened Wrappers
  import opened HistoryStore
  import opened ImageCompression

  /** The outcome of the recognition request. `Failed` stands for a network
      error, a non-ok status and a body that is not JSON alike, since each
      ends in the same `catch`. Absent and null fields are `None`. */
  datatype Reply =
    | Failed
    | Located(detectedObject: Option<string>, latitude: Option<real>, longitude: Option<real>)

  /** The body of a recognition request. */
  datatype Request =
    | JsonImage(image: Option<string>)
    | Multipart(field: string, file: File)

  /** `{ maxWidth: 800, quality: 0.5, outputType: "image/jpeg" }`, passed by both screens. */
  const ThumbnailOptions: OptionsArg := OptionsArg(Some(800.0), Some(0.5), Some("image/jpeg"))

  /** `data.detectedObject || null`: the building shown on screen. */
  function ShownBuilding(detectedObject: Option<string>): (b: Option<string>)
    ensures b.Some? <==> TruthyString(detectedObject)
    ensures b.Some? ==> b == detectedObject
  {
    if TruthyString(detectedObject) then detectedObject else None
  }

  /** The map is opened at `(latitude, longitude)` only when both are truthy,
      so a missing or zero coordinate suppresses it. */
  function MapTarget(latitude: Option<real>, longitude: Option<real>): (target: Option<(real, real)>)
    ensures target.Some? <==> latitude.Some? && latitude.value != 0.0 && longitude.Some? && longitude.value != 0.0
    ensures target.Some? ==> target.value == (latitude.value, longitude.value)
  {
    if TruthyNumber(latitude) && TruthyNumber(longitude) then Some((latitude.value, longitude.value)) else None
  }

  /** The entry a successful localization saves: the given image, the
      reply's coordinates and building, and the caller's timestamp. */
  function LocatedEntry(image: Option<string>, reply: Reply, timestamp: string): (e: Entry)
    requires reply.Located?
    ensures e.image == image && e.timestamp == timestamp && e.building == reply.detectedObject
    ensures e.location == Some(Location(reply.latitude, reply.longitude))
  {
    Entry(image, Some(Location(reply.latitude, reply.longitude)), timestamp, reply.detectedObject)
  }
}
