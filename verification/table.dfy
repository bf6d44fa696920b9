/** The table of Transx_Demo.py: its eleven named columns (line 11), the derived
    `ImageFilename` column (line 14), and the `customdata` triple each plotted point carries
    (line 35). The end-to-end lemmas follow a hovered table row through `display_hover`. */
module Table {
  import opened Options
  import opened Strings
  import opened PosixPath
  import opened ImageNames
  import opened Hover

  /** One row of the input file. Cell values are kept as the text the callback formats;
      only `mjd`, `burstDm` and `imagePath` are ever read. */
  datatype Row = Row(col1: string, col2: string, mjd: string, burstDm: string,
                     col5: string, col6: string, col7: string, col8: string,
                     imagePath: string, col10: string, col11: string)

  /** The derived column: one image name per row, in row order. */
  function ImageFilenameColumn(rows: seq<Row>): (r: seq<string>)
    ensures |r| == |rows|
    ensures forall i :: 0 <= i < |rows| ==> r[i] == ImageFilename(rows[i].imagePath)
  {
    seq(|rows|, i requires 0 <= i < |rows| => ImageFilename(rows[i].imagePath))
  }

  /** No entry of the derived column holds a path separator. */
  lemma ColumnHasNoSeparator(rows: seq<Row>, i: int)
    requires 0 <= i < |rows|
    ensures Sep !in ImageFilenameColumn(rows)[i]
  {
  }

  /** Rows with different basenames get different image names, so a hovered name
      identifies the source image's basename. */
  lemma ColumnDistinct(rows: seq<Row>, i: int, j: int)
    requires 0 <= i < |rows| && 0 <= j < |rows|
    requires Basename(rows[i].imagePath) != Basename(rows[j].imagePath)
    ensures ImageFilenameColumn(rows)[i] != ImageFilenameColumn(rows)[j]
  {
    if ImageFilenameColumn(rows)[i] == ImageFilenameColumn(rows)[j] {
      ImageFilenameInjective(rows[i].imagePath, rows[j].imagePath);
    }
  }

  /** The `customdata` of a plotted point: three values, so the callback's unpacking
      succeeds; a separator-free image name, then the MJD and the burst DM. */
  function CustomData(row: Row): (r: seq<string>)
    ensures |r| == 3 && r[1] == row.mjd && r[2] == row.burstDm
    ensures Sep !in r[0]
  {
    [ImageFilename(row.imagePath), row.mjd, row.burstDm]
  }

  /** The image name a point carries determines the basename of its row's image path. */
  lemma CustomDataNamesBasename(row: Row)
    ensures OriginalBasename(CustomData(row)[0]) == Basename(row.imagePath)
  {
    ImageFilenameRestoresBasename(row.imagePath);
  }

  /** The payload Dash sends when the mouse rests on the point plotted for `row`: it never
      takes an early error path, and it names the row's image. */
  function HoverOn(row: Row, bbox: BBox): (r: HoverData)
    ensures FirstPoint(r) == Some(Point(Some(bbox), Some(CustomData(row))))
    ensures Unpacks(Some(r)) && EarlyError(Some(r)).None?
    ensures HoveredName(Some(r)) == ImageFilename(row.imagePath)
  {
    var cd := CustomData(row);
    var pt := Point(Some(bbox), Some(cd));
    var h := HoverData(Some([pt]));
    assert FirstPoint(h) == Some(pt);
    assert pt.customdata.GetOr([]) == cd;
    h
  }

  /** A name without separators is relative, so it is read from the image directory. */
  lemma PlainNameResolves(name: string)
    requires Sep !in name
    ensures ImagePath(name) == ImageDirectory + name
  {
    if name != [] {
      assert name[0] in name;
    }
  }

  /** Hovering a table point always unpacks, and reads `./` followed by the row's image name. */
  lemma TableHoverReads(row: Row, bbox: BBox, files: Files)
    ensures EarlyError(Some(HoverOn(row, bbox))).None? && Unpacks(Some(HoverOn(row, bbox)))
    ensures DisplayHover(Some(HoverOn(row, bbox)), files).read ==
      Some(ImageDirectory + ImageFilename(row.imagePath))
  {
    var hover := Some(HoverOn(row, bbox));
    ReadsIff(hover, files);
    PlainNameResolves(ImageFilename(row.imagePath));
  }

  /** Hovering a table point raises only when its image exists but cannot be read; it
      shows the tooltip exactly when the image has a non-empty encoding, and the tooltip
      then carries the row's MJD, burst DM and image name. */
  lemma TableHoverOutcome(row: Row, bbox: BBox, files: Files)
    ensures var path := ImageDirectory + ImageFilename(row.imagePath);
      var r := DisplayHover(Some(HoverOn(row, bbox)), files);
      (r.outcome.Raised? <==> files(path).Unreadable?)
      && (r.outcome.Returned? && r.outcome.value.show <==> files(path).Contents? && files(path).base64 != [])
      && (files(path).Contents? && files(path).base64 != [] ==>
          r.outcome == Returned(Reply(true, Set(bbox), Set(Tooltip(DataUriPrefix + files(path).base64,
            MjdLabel + row.mjd, DmLabel + row.burstDm, ImageFilename(row.imagePath))))))
  {
    var hover := Some(HoverOn(row, bbox));
    TableHoverReads(row, bbox, files);
    ReadsIff(hover, files);
    RaisesIff(hover, files);
    ShownIff(hover, files);
  }

  /** A row whose image path ends in `/` has the empty image name, so hovering it opens
      the image directory itself. Opening a directory is a read error other than a
      missing file, so the callback raises `OSError`. */
  lemma DirectoryRowRaises(row: Row, bbox: BBox, files: Files)
    requires EndsWith(row.imagePath, [Sep])
    requires files(ImageDirectory).Unreadable?
    ensures DisplayHover(Some(HoverOn(row, bbox)), files).read == Some(ImageDirectory)
    ensures DisplayHover(Some(HoverOn(row, bbox)), files).outcome == Raised(OSError)
  {
    ImageFilenameOfDirectory(row.imagePath);
    assert ImageDirectory + [] == ImageDirectory;
    TableHoverOutcome(row, bbox, files);
    TableHoverReads(row, bbox, files);
    RaisesIff(Some(HoverOn(row, bbox)), files);
  }

  lemma ExampleMjdLine(mjd: string)
    requires mjd == "59000.123"
    ensures MjdLabel + mjd == "MJD: 59000.123"
  {
  }

  lemma ExampleDmLine(dm: string)
    requires dm == "512.4"
    ensures DmLabel + dm == "Burst DM: 512.4"
  {
  }

  lemma ExamplePath(name: string)
    requires name == "scan_0007_replot.png"
    ensures ImageDirectory + name == "./scan_0007_replot.png"
  {
  }

  /** The worked example: the row with image path `/data/scan_0007.png`, MJD `59000.123`
      and burst DM `512.4`, with `./scan_0007_replot.png` present and non-empty, shows the
      tooltip captioned `MJD: 59000.123`, `Burst DM: 512.4` and `scan_0007_replot.png`. */
  lemma TableHoverExample(row: Row, bbox: BBox, files: Files)
    requires row.imagePath == "/data/scan_0007.png" && row.mjd == "59000.123" && row.burstDm == "512.4"
    requires files("./scan_0007_replot.png").Contents? && files("./scan_0007_replot.png").base64 != []
    ensures DisplayHover(Some(HoverOn(row, bbox)), files).outcome ==
      Returned(Reply(true, Set(bbox), Set(Tooltip(DataUriPrefix + files("./scan_0007_replot.png").base64,
        "MJD: 59000.123", "Burst DM: 512.4", "scan_0007_replot.png"))))
  {
    ImageFilenameExample(row.imagePath);
    ExampleMjdLine(row.mjd);
    ExampleDmLine(row.burstDm);
    ExamplePath(ImageFilename(row.imagePath));
    TableHoverOutcome(row, bbox, files);
  }
}
