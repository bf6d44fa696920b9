/** The hover callback `display_hover` of Transx_Demo.py (lines 55-84) and the image reader
    `encode_image` it calls (lines 20-26), as pure functions. The file system is an oracle
    from path to read result; the callback's triple `(show, bbox, children)` is a `Reply`, and
    the Python exceptions it can raise are explicit `Raised` outcomes. */
module Hover {
  import opened Options
  import opened Strings
  import opened PosixPath

  /** The hovered point's bounding box, passed through to the tooltip unchanged. */
  datatype BBox = BBox(x0: real, x1: real, y0: real, y1: real)

  /** One entry of the `points` list: its `bbox` key and its `customdata` key, either of
      which may be absent. A `customdata` of Python `None` behaves as an absent one. */
  datatype Point = Point(bbox: Option<BBox>, customdata: Option<seq<string>>)

  /** The `hoverData` payload: a dictionary whose `points` key may be absent. */
  datatype HoverData = HoverData(points: Option<seq<Point>>)

  /** A Dash output: either Dash's `no_update` sentinel or a new value. */
  datatype Update<T> = NoUpdate | Set(value: T)

  /** The tooltip's children, reduced to the image source and the three caption lines. */
  datatype Tooltip = Tooltip(imageSrc: string, mjdLine: string, dmLine: string, nameLine: string)

  /** The callback's return triple. */
  datatype Reply = Reply(show: bool, bbox: Update<BBox>, children: Update<Tooltip>)

  /** The Python exceptions the callback lets escape. */
  datatype Exception =
    | KeyError(key: string)   // a missing dictionary key
    | IndexError              // `[0]` on an empty list
    | ValueError              // unpacking more than three values into three names
    | OSError                 // a read failure other than a missing file

  /** A Python call either returns a value or raises. */
  datatype Outcome<T> = Returned(value: T) | Raised(error: Exception)

  /** What opening and reading a path gives: no such file, another OS error, or the file's
      contents already in base64 (the empty file encodes to the empty string). */
  datatype ReadResult = NotFound | Unreadable | Contents(base64: string)

  /** The file system as seen by `encode_image`. */
  type Files = string -> ReadResult

  /** `encode_image`'s result together with the lines it prints. */
  datatype Encoding = Encoding(result: Outcome<Option<string>>, log: seq<string>)

  /** A callback invocation: its outcome, the path it read if any, and the lines it printed. */
  datatype Response = Response(outcome: Outcome<Reply>, read: Option<string>, log: seq<string>)

  const ImageDirectory: string := "./"
  const DataUriPrefix: string := "data:image/png;base64,"
  const MjdLabel: string := "MJD: "
  const DmLabel: string := "Burst DM: "
  const NotFoundLabel: string := "Image not found: "

  /** The reply that leaves the tooltip hidden and untouched. */
  const Hidden: Reply := Reply(false, NoUpdate, NoUpdate)

  /** `encode_image(path)`: a missing file is caught, reported and turned into `None`; any
      other read failure escapes; otherwise the base64 text is returned. */
  function EncodeImage(path: string, files: Files): (r: Encoding)
    ensures r.result.Raised? <==> files(path).Unreadable?
    ensures r.result == Returned(None) <==> files(path).NotFound?
    ensures r.log != [] <==> files(path).NotFound?
    ensures r.result.Returned? && r.result.value.Some? ==> files(path) == Contents(r.result.value.value)
    ensures files(path).NotFound? ==> r.log == [NotFoundLabel + path]
    ensures r.result.Raised? ==> r.result.error == OSError
  {
    match files(path)
    case NotFound => Encoding(Returned(None), [NotFoundLabel + path])
    case Unreadable => Encoding(Raised(OSError), [])
    case Contents(text) => Encoding(Returned(Some(text)), [])
  }

  /** The path the callback reads for an image name: `./` followed by a relative name; an
      absolute name replaces the directory, as `os.path.join` does. */
  function ImagePath(name: string): (r: string)
    ensures StartsWith(name, [Sep]) ==> r == name
    ensures !StartsWith(name, [Sep]) ==> r == ImageDirectory + name
  {
    assert ImageDirectory[|ImageDirectory| - 1] == Sep;
    Join(ImageDirectory, name)
  }

  /** The part of the callback after the unpacking: resolve, read, and build the tooltip
      unless the encoding is `None` or empty. */
  function ShowImage(bbox: BBox, name: string, mjd: string, dm: string, files: Files): (r: Response)
    ensures r.read == Some(ImagePath(name))
  {
    var path := ImagePath(name);
    var enc := EncodeImage(path, files);
    match enc.result
    case Raised(e) => Response(Raised(e), Some(path), enc.log)
    case Returned(encoded) =>
      if encoded.None? || encoded.value == [] then
        Response(Returned(Hidden), Some(path), enc.log)
      else
        var children := Tooltip(DataUriPrefix + encoded.value, MjdLabel + mjd, DmLabel + dm, name);
        Response(Returned(Reply(true, Set(bbox), Set(children))), Some(path), enc.log)
  }

  /** A callback invocation that raises before reading anything. */
  function Fail(e: Exception): Response {
    Response(Raised(e), None, [])
  }

  /** `display_hover(hoverData)`. The guards run in the source's order: no hover, the
      `points` key, the first point, its `bbox` key, the length of `customdata`, the
      three-way unpacking, and finally the image read. */
  function DisplayHover(hover: Option<HoverData>, files: Files): (r: Response)
    ensures r.outcome.Returned? && !r.outcome.value.show ==> r.outcome.value == Hidden
    ensures r.outcome.Returned? && r.outcome.value.show ==> r.outcome.value.bbox.Set? && r.outcome.value.children.Set?
    ensures r.read.Some? ==> hover.Some?
  {
    match hover
    case None => Response(Returned(Hidden), None, [])
    case Some(h) =>
      if h.points.None? then Fail(KeyError("points"))
      else if h.points.value == [] then Fail(IndexError)
      else
        var pt := h.points.value[0];
        if pt.bbox.None? then Fail(KeyError("bbox"))
        else
          var cd := pt.customdata.GetOr([]);
          if cd == [] || |cd| < 3 then Response(Returned(Hidden), None, [])
          else if |cd| > 3 then Fail(ValueError)
          else ShowImage(pt.bbox.value, cd[0], cd[1], cd[2], files)
  }

  /** The first point of a payload, when there is one. */
  function FirstPoint(h: HoverData): Option<Point> {
    if h.points.Some? && h.points.value != [] then Some(h.points.value[0]) else None
  }

  /** The payload carries a first point with a bounding box and exactly three customdata
      values: the callback gets as far as reading an image. */
  predicate Unpacks(hover: Option<HoverData>) {
    hover.Some? && FirstPoint(hover.value).Some? && FirstPoint(hover.value).value.bbox.Some?
    && |FirstPoint(hover.value).value.customdata.GetOr([])| == 3
  }

  /** The image name of a payload that unpacks. */
  function HoveredName(hover: Option<HoverData>): string
    requires Unpacks(hover)
  {
    FirstPoint(hover.value).value.customdata.value[0]
  }

  /** The exception a payload makes the callback raise before any read, if any. */
  function EarlyError(hover: Option<HoverData>): Option<Exception> {
    match hover
    case None => None
    case Some(h) =>
      if h.points.None? then Some(KeyError("points"))
      else if FirstPoint(h).None? then Some(IndexError)
      else if FirstPoint(h).value.bbox.None? then Some(KeyError("bbox"))
      else if |FirstPoint(h).value.customdata.GetOr([])| > 3 then Some(ValueError)
      else None
  }

  /** Without hover data the tooltip is hidden, nothing is read and nothing is printed,
      whatever the file system holds. */
  lemma NoHoverHides(files: Files)
    ensures DisplayHover(None, files) == Response(Returned(Hidden), None, [])
  {
  }

  /** The callback reads a file exactly when the payload unpacks, and then it reads the
      image directory joined with the first customdata value. */
  lemma ReadsIff(hover: Option<HoverData>, files: Files)
    ensures DisplayHover(hover, files).read.Some? <==> Unpacks(hover)
    ensures Unpacks(hover) ==> DisplayHover(hover, files).read == Some(ImagePath(HoveredName(hover)))
  {
    if hover.Some? && hover.value.points.Some? && hover.value.points.value != [] {
      assert FirstPoint(hover.value) == Some(hover.value.points.value[0]);
    }
  }

  /** The callback raises exactly on the early errors, in the source's order, or when the
      resolved file exists but cannot be read. */
  lemma RaisesIff(hover: Option<HoverData>, files: Files)
    ensures var r := DisplayHover(hover, files);
      r.outcome.Raised? <==>
        EarlyError(hover).Some? || (Unpacks(hover) && files(ImagePath(HoveredName(hover))).Unreadable?)
    ensures EarlyError(hover).Some? ==> DisplayHover(hover, files) == Fail(EarlyError(hover).value)
    ensures Unpacks(hover) && files(ImagePath(HoveredName(hover))).Unreadable? ==>
      DisplayHover(hover, files).outcome == Raised(OSError)
  {
    if hover.Some? && hover.value.points.Some? && hover.value.points.value != [] {
      assert FirstPoint(hover.value) == Some(hover.value.points.value[0]);
    }
  }

  /** The payload unpacks and the resolved file holds a non-empty encoding. */
  predicate FindsImage(hover: Option<HoverData>, files: Files) {
    Unpacks(hover) && files(ImagePath(HoveredName(hover))).Contents?
    && files(ImagePath(HoveredName(hover))).base64 != []
  }

  /** The tooltip is shown exactly when the payload unpacks and the resolved file holds a
      non-empty encoding; it then carries the point's bbox, the encoded image and the three
      caption lines built from the customdata values. */
  lemma ShownIff(hover: Option<HoverData>, files: Files)
    ensures var r := DisplayHover(hover, files);
      r.outcome.Returned? && r.outcome.value.show <==> FindsImage(hover, files)
    ensures FindsImage(hover, files) ==>
      var pt := FirstPoint(hover.value).value;
      var cd := pt.customdata.value;
      DisplayHover(hover, files).outcome == Returned(Reply(true, Set(pt.bbox.value),
        Set(Tooltip(DataUriPrefix + files(ImagePath(cd[0])).base64, MjdLabel + cd[1], DmLabel + cd[2], cd[0]))))
  {
    if hover.Some? && hover.value.points.Some? && hover.value.points.value != [] {
      var pt := hover.value.points.value[0];
      assert FirstPoint(hover.value) == Some(pt);
      if Unpacks(hover) {
        var cd := pt.customdata.value;
        ShowImageShown(pt.bbox.value, cd[0], cd[1], cd[2], files);
      }
    }
  }

  /** After the unpacking, the tooltip is shown exactly for a non-empty encoding. */
  lemma ShowImageShown(bbox: BBox, name: string, mjd: string, dm: string, files: Files)
    ensures var r := ShowImage(bbox, name, mjd, dm, files);
      r.outcome.Returned? && r.outcome.value.show <==>
        files(ImagePath(name)).Contents? && files(ImagePath(name)).base64 != []
    ensures files(ImagePath(name)).Contents? && files(ImagePath(name)).base64 != [] ==>
      ShowImage(bbox, name, mjd, dm, files).outcome == Returned(Reply(true, Set(bbox),
        Set(Tooltip(DataUriPrefix + files(ImagePath(name)).base64, MjdLabel + mjd, DmLabel + dm, name))))
  {
  }

  /** A missing file or an empty one hides the tooltip instead of raising; only the
      missing file prints a diagnostic naming the resolved path. */
  lemma MissingOrEmptyHides(hover: Option<HoverData>, files: Files)
    requires Unpacks(hover)
    requires files(ImagePath(HoveredName(hover))) in {NotFound, Contents([])}
    ensures DisplayHover(hover, files).outcome == Returned(Hidden)
    ensures DisplayHover(hover, files).log ==
      if files(ImagePath(HoveredName(hover))).NotFound?
      then [NotFoundLabel + ImagePath(HoveredName(hover))] else []
  {
    assert FirstPoint(hover.value) == Some(hover.value.points.value[0]);
  }

  /** Short customdata hides the tooltip without reading or printing. */
  lemma ShortCustomdataHides(h: HoverData, files: Files)
    requires FirstPoint(h).Some? && FirstPoint(h).value.bbox.Some?
    requires |FirstPoint(h).value.customdata.GetOr([])| < 3
    ensures DisplayHover(Some(h), files) == Response(Returned(Hidden), None, [])
  {
  }

  /** The callback prints something only for a missing image file. */
  lemma LogsIff(hover: Option<HoverData>, files: Files)
    ensures DisplayHover(hover, files).log != [] <==>
      Unpacks(hover) && files(ImagePath(HoveredName(hover))).NotFound?
  {
    if hover.Some? && hover.value.points.Some? && hover.value.points.value != [] {
      assert FirstPoint(hover.value) == Some(hover.value.points.value[0]);
    }
  }

  /** The callback depends on the file system only at the path it reads. */
  lemma ReadsOnlyResolvedPath(hover: Option<HoverData>, files: Files, other: Files)
    requires DisplayHover(hover, files).read.None? ||
      files(DisplayHover(hover, files).read.value) == other(DisplayHover(hover, files).read.value)
    ensures DisplayHover(hover, files) == DisplayHover(hover, other)
  {
  }
}
