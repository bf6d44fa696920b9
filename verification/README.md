# TransientX viewer: image names and the hover callback

`Transx_Demo.py` is a small Dash dashboard. It shows a table of burst detections and a
scatter plot of burst DM against MJD. When the mouse rests on a point, it shows that
detection's diagnostic image in a tooltip. This project models the two pieces of the
script that have their own logic, and proves properties of them:

* **The derived `ImageFilename` column** (line 14). A row's `ImagePath` becomes
  `os.path.basename(path).replace('.png', '_replot.png')`.
  * `posixpath.basename` is modelled through a single-character `rfind` (module `PosixPath`).
  * `str.replace` is modelled as a left-to-right scan that replaces non-overlapping
    occurrences (module `Strings`).
  * A second formulation of `str.replace` finds the first occurrence, copies what
    precedes it, and continues after it. This is the algorithm CPython uses. It is proved
    equal to the scan, and `str.find` and `str.count` are defined alongside it.
  * Module `ImageNames` proves the following for the derived name:
    * it contains no separator;
    * it is unchanged exactly when there is no `.png`;
    * its length grows by 7 per occurrence;
    * a `.png` suffix becomes `_replot.png`;
    * it can be inverted (replacing `_replot.png` back by `.png` restores the basename), so
      the derivation is injective on basenames;
    * the worked example `/data/scan_0007.png` gives `scan_0007_replot.png`.
* **The hover callback `display_hover`** (lines 55-84) and its helper `encode_image`
  (lines 20-26), modelled in module `Hover` as pure functions.
  * The file system is a parameter: a function from path to `NotFound`, `Unreadable` or
    `Contents(base64)`.
  * The callback returns a `Response`. It records:
    * either the returned triple `(show, bbox, children)` or the Python exception raised;
    * the path that was read, if any;
    * the lines printed.
  * Dash's `no_update` is `NoUpdate`.
  * The children are reduced to the image's `data:` URI and the three caption lines.
  * The guards run in the source's order:
    1. no hover data;
    2. the `points` key (`KeyError`);
    3. the first point (`IndexError`);
    4. its `bbox` key (`KeyError`);
    5. `customdata` absent or shorter than three entries (hidden);
    6. more than three entries (`ValueError` from the unpacking);
    7. the read of `os.path.join('./', name)` (a missing file or an empty encoding hides
       the tooltip, and any other `OSError` escapes).
* **The table** (module `Table`) ties the two together.
  * A `Row` has the eleven named columns of line 11.
  * The `customdata` triple of line 35 is `[ImageFilename, MJD, Burst_DM]`.
  * The end-to-end lemmas show that hovering a table point never takes an early error path.
    It always reads `./` followed by the row's image name, and it shows the row's MJD and
    DM when that file has a non-empty encoding.

Two behaviours of the code are kept as written:

* `encode_image` catches only `FileNotFoundError` (lines 24-26). A `PermissionError`, an
  `IsADirectoryError` or any other `OSError` escapes the callback, so the model raises
  `OSError` for `Unreadable`.
* `if not encoded` (line 71) hides the tooltip for an existing empty file, whose base64 is
  `""`, as well as for a missing one.

## Model

| member | source | states |
|---|---|---|
| Strings.Find | Transx_Demo.py:14 | an index `str.find` reports leaves room for the whole pattern after it |
| Strings.FindIsFirstOccurrence | Transx_Demo.py:14 | `str.find` reports an occurrence of the pattern, no occurrence starts earlier, and `None` (Python's -1) means there is none at all |
| Strings.ReplaceAllIsReplaceByFind | Transx_Demo.py:14 | the left-to-right scan `Strings.ReplaceAll` and the find-then-continue algorithm of `str.replace` give the same string for every input; with `Strings.FindIsFirstOccurrence` this characterises `ReplaceAll` as copying up to the first occurrence, writing the replacement and continuing after it |
| Strings.Count | Transx_Demo.py:14 | `str.count` is zero exactly when the pattern does not occur |
| Strings.CountFits | Transx_Demo.py:14 | the counted occurrences do not overlap: the pattern's length times the count is at most the string's length |
| Strings.ReplaceAllChars | Transx_Demo.py:14 | every character of the replaced string comes from the input or from the replacement |
| Strings.ReplaceWithoutOccurrence | Transx_Demo.py:14 | a string in which the pattern does not occur is returned unchanged |
| Strings.ReplaceByFindLength | Transx_Demo.py:14 | the find-then-continue result is longer than the input by the replacement's length minus the pattern's length, times the `str.count` of the pattern |
| Strings.ReplaceAllLength | Transx_Demo.py:14 | the same length law for `str.replace` itself |
| Strings.ReplaceUnchangedIff | Transx_Demo.py:14 | when the replacement differs in length from the pattern, `str.replace` leaves the string unchanged exactly when the pattern does not occur |
| Strings.ReplaceKeepsSuffix | Transx_Demo.py:14 | for a pattern that cannot overlap itself, a string ending in the pattern is replaced into one ending in the replacement |
| Strings.ReplacePrefixPullback | Transx_Demo.py:14 | a prefix of the output that avoids the replacement's first character was copied verbatim from the input |
| Strings.NeverStartsWithPattern | Transx_Demo.py:14 | the output never starts with the pattern when the replacement's first character is not in the pattern |
| Strings.ReplaceRoundTrip | Transx_Demo.py:14 | if the replacement is a marker followed by the pattern and its first character occurs neither later in the marker nor in the pattern, replacing it back by the pattern restores the input |
| Strings.ReplaceCopiesPlainPrefix | Transx_Demo.py:14 | characters that cannot begin the pattern pass through `str.replace` unchanged and do not disturb the rest |
| PosixPath.RFind | Transx_Demo.py:14 | the result is the greatest index holding the character, or -1 when it does not occur |
| PosixPath.Basename | Transx_Demo.py:14 | `os.path.basename` is a suffix of the path with no separator, and it is preceded by a separator unless it is the whole path |
| PosixPath.BasenameOfJoined | Transx_Demo.py:14 | the basename of a directory ending in `/` followed by a plain name is that name |
| PosixPath.Join | Transx_Demo.py:68 | `os.path.join(a, b)` returns an absolute `b` unchanged, otherwise starts with `a`, and always ends with `b`; between them sits exactly one `/` when `a` is non-empty and lacks a trailing `/`, and none otherwise |
| PosixPath.JoinInsertsSeparator | Transx_Demo.py:68 | a non-empty directory without a trailing `/` joined with a relative name is the directory, one `/`, then the name |
| ImageNames.NoSepAfterReplace | Transx_Demo.py:14 | replacing `.png` by `_replot.png` in a string without `/` introduces no `/` |
| ImageNames.ImageFilename | Transx_Demo.py:14 | the derived image name never contains `/` |
| ImageNames.ImageFilenameUnchangedIff | Transx_Demo.py:14 | the image name equals the basename exactly when the basename holds no `.png` |
| ImageNames.ImageFilenameLength | Transx_Demo.py:14 | the image name is the basename's length plus 7 for each non-overlapping `.png` |
| ImageNames.BasenameKeepsSuffix | Transx_Demo.py:14 | a suffix of the path without separator is still a suffix of its basename |
| ImageNames.ImageFilenameSuffix | Transx_Demo.py:14 | a path ending in `.png` yields an image name ending in `_replot.png` |
| ImageNames.ImageFilenameOfDirectory | Transx_Demo.py:14 | a path ending in `/` yields the empty image name |
| ImageNames.ImageFilenameRestoresBasename | Transx_Demo.py:14 | replacing `_replot.png` back by `.png` in the image name gives the basename back |
| ImageNames.ImageFilenameInjective | Transx_Demo.py:14 | two paths with the same image name have the same basename |
| ImageNames.ImageFilenameOfPngFile | Transx_Demo.py:14 | a directory followed by a stem without `/` or `.` and `.png` yields the stem followed by `_replot.png` |
| ImageNames.ImageFilenameExample | Transx_Demo.py:14 | `/data/scan_0007.png` yields `scan_0007_replot.png` |
| Hover.EncodeImage | Transx_Demo.py:20-26 | `encode_image` raises `OSError` exactly on a read failure other than a missing file, returns `None` exactly for a missing file and then prints `Image not found: ` followed by the path, prints nothing otherwise, and otherwise returns the file's encoding |
| Hover.ShowImage | Transx_Demo.py:68-84 | after unpacking, the callback reads the image directory joined with the image name |
| Hover.ShowImageShown | Transx_Demo.py:69-84 | once the customdata is unpacked, the tooltip is shown exactly when the resolved file has a non-empty encoding, and it then carries the bbox, the data URI and the three caption lines |
| Hover.DisplayHover | Transx_Demo.py:55-84 | a hidden reply is always `(False, no_update, no_update)`, a shown one sets both bbox and children, and nothing is read without hover data |
| Hover.NoHoverHides | Transx_Demo.py:56-57 | without hover data the tooltip is hidden, nothing is read and nothing is printed, whatever the files |
| Hover.ReadsIff | Transx_Demo.py:59-69 | a file is read exactly when the first point has a bbox and exactly three customdata values, and then it is `os.path.join('./', customdata[0])` |
| Hover.RaisesIff | Transx_Demo.py:59-69 | the callback raises exactly on a missing `points` key, an empty points list, a missing `bbox`, more than three customdata values (in that order) or an unreadable image, and raises `OSError` for the last |
| Hover.ShownIff | Transx_Demo.py:63-84 | the tooltip is shown exactly when the payload unpacks and the image has a non-empty encoding; it then carries the point's bbox, the `data:image/png;base64,` source and the lines `MJD: `+mjd, `Burst DM: `+dm and the image name |
| Hover.MissingOrEmptyHides | Transx_Demo.py:69-72 | a missing or empty image hides the tooltip instead of raising, and only the missing one prints `Image not found: ` with the resolved path |
| Hover.ShortCustomdataHides | Transx_Demo.py:61-64 | absent, empty or short customdata hides the tooltip without a read or a print |
| Hover.LogsIff | Transx_Demo.py:24-26 | the callback prints something exactly when the payload unpacks and the image file is missing |
| Hover.ReadsOnlyResolvedPath | Transx_Demo.py:68-69 | the response depends on the file system only at the one path it reads |
| Hover.ImagePath | Transx_Demo.py:68 | `os.path.join('./', name)` is `./` followed by the name, unless the name starts with `/`, which replaces the directory |
| Table.ImageFilenameColumn | Transx_Demo.py:14 | the derived column has one entry per row, the image name of that row's `ImagePath` |
| Table.ColumnHasNoSeparator | Transx_Demo.py:14 | no entry of the derived column contains `/` |
| Table.ColumnDistinct | Transx_Demo.py:14 | rows with different basenames get different image names |
| Table.CustomData | Transx_Demo.py:35 | a point's customdata has exactly three values: a name without `/`, the row's MJD and the row's burst DM |
| Table.CustomDataNamesBasename | Transx_Demo.py:35 | the first customdata value determines the basename of the row's `ImagePath` |
| Table.HoverOn | Transx_Demo.py:59-66 | the payload for a table point has a first point with its bbox and the row's customdata, so the callback unpacks it without error and the hovered name is the row's image name |
| Table.PlainNameResolves | Transx_Demo.py:17 | an image name without `/` is read from `./` followed by the name |
| Table.TableHoverReads | Transx_Demo.py:35 | hovering a point whose customdata is a row's `[ImageFilename, MJD, Burst_DM]` never takes an early error path and reads `./` followed by that row's image name |
| Table.TableHoverOutcome | Transx_Demo.py:59-84 | hovering a table point raises only for an unreadable image, shows the tooltip exactly when the image has a non-empty encoding, and the tooltip then carries the row's MJD, DM and image name |
| Table.DirectoryRowRaises | Transx_Demo.py:20-26 | a row whose `ImagePath` ends in `/` has an empty image name, so hovering it opens `./` itself, and when that read fails with an error other than a missing file the callback raises `OSError` |
| Table.TableHoverExample | Transx_Demo.py:75-84 | the row with `/data/scan_0007.png`, MJD `59000.123` and DM `512.4`, whose image has a non-empty encoding, shows `MJD: 59000.123`, `Burst DM: 512.4` and `scan_0007_replot.png` |

## Left out

- Loading `band1_3.txt` with pandas and naming its columns (lines 8-11) is library I/O and parsing. `Row` stands for an already parsed row.
- Each cell is text. Python's `str()` formatting of the float MJD and DM values (lines 78-79) is not modelled, so `mjd` and `burstDm` are opaque strings.
- The plotly figure and trace settings (lines 29-36) are charting-library glue. Only the `customdata` triple of line 35 is modelled (`Table.CustomData`).
- The Dash app, layout, data table, callback registration and `app.run` (lines 39-54, 86-87) are framework plumbing.
- The file read and base64 encoding inside `encode_image` (lines 22-23) are an oracle `Files`. It gives `Contents(base64)` for a readable file, without re-deriving base64.
- The tooltip's HTML component tree and style dictionaries (lines 75-82) are reduced to the image source and the three caption texts.
- The hover payload is reduced to the `points` list and each point's `bbox` and `customdata`. A bbox is four reals, passed through unchanged.
- `print` is modelled as the `log` field of the response, not as output.
- The `TypeError` that non-string customdata values would raise in `os.path.join` is not modelled: customdata entries are strings.
- A payload that is not a dictionary is not modelled.
- Strings.ReplaceAll: requires a non-empty pattern. Python's `str.replace` with an empty pattern inserts the replacement between characters, but the script only ever replaces `.png`.
- Characters are Dafny `char` values, with no Unicode normalisation.
- `os.path` is taken to be `posixpath`, which splits only at `/`. On Windows, `ntpath.basename` and `ntpath.join` also treat `\` as a separator and split after a drive colon.
- Table.TableHoverOutcome: the `Files` oracle is any function from path to read result and is not tied to a real file system. The oracle may give `Contents` for `./`, where Python's `open('./', 'rb')` raises `IsADirectoryError`, so this lemma admits a shown tooltip for a row whose `ImagePath` ends in `/`. Table.DirectoryRowRaises states the real outcome, under the assumption that `./` reads as `Unreadable`.
