/** `compressImage`: the size rule that turns a decoded image into a
    thumbnail canvas. Browser numbers are doubles; this model uses exact
    rationals, so it idealises the division and the multiplications. */
module ImageCompression {
  import opened Wrappers

  /** A WebIDL `unsigned long`, the type of an image's and a canvas's width and height. */
  type ULong = n: int | 0 <= n < 0x1_0000_0000

  datatype Options = Options(maxWidth: real, quality: real, outputType: string)

  /** The options object as a caller passes it; a `None` field is left out. */
  datatype OptionsArg = OptionsArg(maxWidth: Option<real>, quality: Option<real>, outputType: Option<string>)

  /** A decoded image. */
  datatype Image = Image(width: ULong, height: ULong)

  /** The canvas the image is drawn onto. */
  datatype Canvas = Canvas(width: ULong, height: ULong)

  /** What is handed to `canvas.toDataURL`: the drawn canvas, the encoding and the quality. */
  datatype Thumbnail = Thumbnail(canvas: Canvas, outputType: string, quality: real)

  /** How the browser treats one file: whether `FileReader` reads it, what
      `Image` decodes it to (`None` when decoding fails) and what
      `toDataURL` produces for a thumbnail of it. */
  datatype Decoding = Decoding(readOk: bool, image: Option<Image>, encode: Thumbnail -> string)

  const DefaultMaxWidth: real := 800.0
  const DefaultQuality: real := 0.5
  const DefaultOutputType: string := "image/jpeg"

  /** Destructuring with defaults: a field left out takes its default. */
  function ResolveOptions(arg: Option<OptionsArg>): (o: Options)
    ensures arg.None? ==> o == Options(800.0, 0.5, "image/jpeg")
    ensures arg.Some? ==>
      o.maxWidth == (if arg.value.maxWidth.Some? then arg.value.maxWidth.value else 800.0) &&
      o.quality == (if arg.value.quality.Some? then arg.value.quality.value else 0.5) &&
      o.outputType == (if arg.value.outputType.Some? then arg.value.outputType.value else "image/jpeg")
  {
    match arg
    case None => Options(DefaultMaxWidth, DefaultQuality, DefaultOutputType)
    case Some(OptionsArg(w, q, t)) =>
      Options(
        match w case Some(v) => v case None => DefaultMaxWidth,
        match q case Some(v) => v case None => DefaultQuality,
        match t case Some(v) => v case None => DefaultOutputType)
  }

  /** Assigning a non-negative number to an `unsigned long` attribute:
      truncate, then wrap modulo 2^32. Canvas sizes are reflected
      attributes, for which a value above 2^31 - 1 instead selects the
      default size; ScaledDown shows that the value never exceeds the
      image's own size, and image sizes that large are not modelled. */
  function ToUnsignedLong(x: real): (n: ULong)
    requires x >= 0.0
  {
    x.Floor % 0x1_0000_0000
  }

  /** `Math.min(1, maxWidth / width)`; a zero width divides to Infinity, so the scale is 1. */
  function Scale(maxWidth: real, width: ULong): (s: real)
    requires maxWidth > 0.0
    ensures 0.0 < s <= 1.0
    ensures width as real * s <= maxWidth
    ensures width as real <= maxWidth ==> s == 1.0
    ensures width as real > maxWidth ==> width as real * s == maxWidth
  {
    if width == 0 then 1.0
    else
      var q := maxWidth / width as real;
      assert width as real * q == maxWidth;
      if q < 1.0 then q
      else
        assert width as real * 1.0 <= width as real * q;
        1.0
  }

  /** One scaled dimension as the canvas stores it. */
  function ScaledDimension(n: ULong, s: real): (d: ULong)
    requires 0.0 < s <= 1.0
    ensures d == (n as real * s).Floor
    ensures d <= n && d as real <= n as real * s
    ensures s == 1.0 ==> d == n
  {
    ScaledDown(n, s);
    ToUnsignedLong(n as real * s)
  }

  /** Scaling by at most 1 never grows a dimension, so no wrap-around occurs. */
  lemma ScaledDown(n: ULong, s: real)
    requires 0.0 < s <= 1.0
    ensures 0.0 <= n as real * s <= n as real
    ensures ToUnsignedLong(n as real * s) == (n as real * s).Floor <= n
  {
    var x := n as real * s;
    var slack := 1.0 - s;
    assert 0.0 <= n as real * slack;
    assert x == n as real - n as real * slack;
    assert 0.0 <= x <= n as real;
    var f := x.Floor;
    assert f as real <= x < f as real + 1.0;
    assert f as real <= n as real;
    assert 0 <= f <= n;
  }

  /** The canvas size: width and height multiplied by the same scale. */
  function TargetSize(maxWidth: real, image: Image): (c: Canvas)
    requires maxWidth > 0.0
    ensures c.width <= image.width && c.height <= image.height
    ensures c.width as real <= maxWidth
    ensures image.width as real <= maxWidth ==> c == Canvas(image.width, image.height)
  {
    var s := Scale(maxWidth, image.width);
    Canvas(ScaledDimension(image.width, s), ScaledDimension(image.height, s))
  }

  /** An image wider than `maxWidth` comes out exactly `maxWidth` wide (rounded
      down) and its height is scaled by the same factor `maxWidth / width`. */
  lemma ProportionalScaling(maxWidth: real, image: Image)
    requires maxWidth > 0.0 && image.width as real > maxWidth
    ensures TargetSize(maxWidth, image).width == maxWidth.Floor
    ensures TargetSize(maxWidth, image).height == (image.height as real * (maxWidth / image.width as real)).Floor
  {
    var s := Scale(maxWidth, image.width);
    assert s == maxWidth / image.width as real;
    assert image.width as real * s == maxWidth;
  }

  /** 1600 x 1200 with the default width limit becomes 800 x 600. */
  lemma DefaultLimitHalvesWideImage()
    ensures TargetSize(DefaultMaxWidth, Image(1600, 1200)) == Canvas(800, 600)
  {
    ProportionalScaling(800.0, Image(1600, 1200));
    assert 1200.0 * (800.0 / 1600.0) == 600.0;
  }

  /** `compressImage(file, options)`: a missing file is rejected before
      anything is read; a read failure and a decode failure reject with
      their own messages; otherwise the image is drawn at `TargetSize` and
      encoded with the resolved type and quality. */
  function CompressImage(file: Option<File>, arg: Option<OptionsArg>, readOk: bool, decoded: Option<Image>): (r: Result<Thumbnail, string>)
    requires arg.Some? && arg.value.maxWidth.Some? ==> arg.value.maxWidth.value > 0.0
    ensures file.None? ==> r == Err("No file provided")
    ensures file.Some? && !readOk ==> r == Err("File reading failed")
    ensures file.Some? && readOk && decoded.None? ==> r == Err("Image loading failed")
    ensures r.Ok? <==> file.Some? && readOk && decoded.Some?
    ensures r.Ok? ==>
      var o := ResolveOptions(arg);
      r.value.canvas.width <= decoded.value.width && r.value.canvas.height <= decoded.value.height &&
      r.value.canvas.width as real <= o.maxWidth &&
      (decoded.value.width as real <= o.maxWidth ==> r.value.canvas == Canvas(decoded.value.width, decoded.value.height)) &&
      r.value.outputType == o.outputType && r.value.quality == o.quality
  {
    if file.None? then Err("No file provided")
    else if !readOk then Err("File reading failed")
    else match decoded
      case None => Err("Image loading failed")
      case Some(image) =>
        var o := ResolveOptions(arg);
        Ok(Thumbnail(TargetSize(o.maxWidth, image), o.outputType, o.quality))
  }

  /** The value the `compressImage` promise settles with: the encoded data URL, or the rejection reason. */
  function Compressed(file: Option<File>, arg: Option<OptionsArg>, browser: Decoding): (r: Result<string, string>)
    requires arg.Some? && arg.value.maxWidth.Some? ==> arg.value.maxWidth.value > 0.0
    ensures r.Ok? <==> CompressImage(file, arg, browser.readOk, browser.image).Ok?
    ensures r.Ok? ==> r.value == browser.encode(CompressImage(file, arg, browser.readOk, browser.image).value)
    ensures r.Err? ==> r.error == CompressImage(file, arg, browser.readOk, browser.image).error
  {
    match CompressImage(file, arg, browser.readOk, browser.image)
    case Ok(t) => Ok(browser.encode(t))
    case Err(e) => Err(e)
  }
}
