/** The derived `ImageFilename` column: the basename of a row's `ImagePath` with every
    `.png` replaced by `_replot.png` (Transx_Demo.py line 14). */
module ImageNames {
  import opened Options
  import opened Strings
  import opened PosixPath

  const Png: string := ".png"
  const Replot: string := "_replot.png"

  /** Replacing `.png` by `_replot.png` introduces no separator. */
  lemma NoSepAfterReplace(b: string)
    requires Sep !in b
    ensures Sep !in ReplaceAll(b, Png, Replot)
  {
    forall c | c in ReplaceAll(b, Png, Replot)
      ensures c != Sep
    {
      ReplaceAllChars(b, Png, Replot, c);
    }
  }

  /** The name of the re-plotted image that belongs to the source image `imagePath`. */
  function ImageFilename(imagePath: string): (r: string)
    ensures Sep !in r
  {
    var b := Basename(imagePath);
    NoSepAfterReplace(b);
    ReplaceAll(b, Png, Replot)
  }

  /** The inverse direction: turn every `_replot.png` back into `.png`. */
  function OriginalBasename(imageFilename: string): string {
    ReplaceAll(imageFilename, Replot, Png)
  }

  /** The derived name is the basename unchanged exactly when the basename holds no `.png`. */
  lemma ImageFilenameUnchangedIff(imagePath: string)
    ensures ImageFilename(imagePath) == Basename(imagePath) <==> Find(Basename(imagePath), Png).None?
  {
    ReplaceUnchangedIff(Basename(imagePath), Png, Replot);
  }

  /** Every non-overlapping `.png` grows by the seven characters of `_replot`. */
  lemma ImageFilenameLength(imagePath: string)
    ensures |ImageFilename(imagePath)| == |Basename(imagePath)| + 7 * Count(Basename(imagePath), Png)
  {
    ReplaceAllLength(Basename(imagePath), Png, Replot);
  }

  /** No proper suffix of `.png` is a prefix of it: every such suffix lacks the leading dot. */
  lemma PngNoSelfOverlap()
    ensures NoSelfOverlap(Png)
  {
    forall k | 0 < k < |Png|
      ensures Png[k..] != Png[..|Png| - k]
    {
      assert Png[k..][0] == Png[k] != '.';
      assert Png[..|Png| - k][0] == '.';
    }
  }

  /** A suffix of `p` without a separator leaves the tail of `p` separator-free. */
  lemma SuffixHasNoSep(p: string, q: string)
    requires EndsWith(p, q) && Sep !in q
    ensures forall j :: |p| - |q| <= j < |p| ==> p[j] != Sep
  {
    var k := |p| - |q|;
    forall j | k <= j < |p|
      ensures p[j] != Sep
    {
      assert p[j] == q[j - k];
    }
  }

  /** The last separator of `p` lies before any suffix that holds none. */
  lemma LastSepBeforeSuffix(p: string, q: string)
    requires EndsWith(p, q) && Sep !in q
    ensures RFind(p, Sep) < |p| - |q|
  {
    SuffixHasNoSep(p, q);
    var r := RFind(p, Sep);
    assert r < 0 || p[r] == Sep;
  }

  /** A suffix without a separator survives `os.path.basename`. */
  lemma BasenameKeepsSuffix(p: string, q: string)
    requires EndsWith(p, q) && Sep !in q
    ensures EndsWith(Basename(p), q)
  {
    LastSepBeforeSuffix(p, q);
    var i := RFind(p, Sep) + 1;
    assert Basename(p) == p[i..];
    assert p[i..][|p| - i - |q|..] == p[|p| - |q|..];
  }

  /** A path ending in `.png` yields a name ending in `_replot.png`. */
  lemma ImageFilenameSuffix(imagePath: string)
    requires EndsWith(imagePath, Png)
    ensures EndsWith(ImageFilename(imagePath), Replot)
  {
    BasenameKeepsSuffix(imagePath, Png);
    PngNoSelfOverlap();
    ReplaceKeepsSuffix(Basename(imagePath), Png, Replot);
  }

  /** A path ending in a separator has an empty basename, hence an empty image name. */
  lemma ImageFilenameOfDirectory(imagePath: string)
    requires EndsWith(imagePath, [Sep])
    ensures ImageFilename(imagePath) == []
  {
    assert RFind(imagePath, Sep) == |imagePath| - 1;
  }

  lemma PngReplotReversible()
    ensures Reversible(Png, Replot)
  {
    assert Replot[1..7] == "replot";
    assert Replot[7..] == Png;
  }

  /** The image name determines the basename it was derived from. */
  lemma ImageFilenameRestoresBasename(imagePath: string)
    ensures OriginalBasename(ImageFilename(imagePath)) == Basename(imagePath)
  {
    PngReplotReversible();
    ReplaceRoundTrip(Basename(imagePath), Png, Replot);
  }

  /** Two paths share an image name only if they share a basename. */
  lemma ImageFilenameInjective(p: string, q: string)
    requires ImageFilename(p) == ImageFilename(q)
    ensures Basename(p) == Basename(q)
  {
    ImageFilenameRestoresBasename(p);
    ImageFilenameRestoresBasename(q);
  }

  /** The common case: a directory, a stem without separator or dot, and `.png`. */
  lemma ImageFilenameOfPngFile(dir: string, stem: string)
    requires EndsWith(dir, [Sep])
    requires Sep !in stem && Png[0] !in stem
    ensures ImageFilename(dir + (stem + Png)) == stem + Replot
  {
    var name := stem + Png;
    assert Basename(dir + name) == name by {
      assert Sep !in name;
      BasenameOfJoined(dir, name);
    }
    ReplaceCopiesPlainPrefix(stem, Png, Png, Replot);
    assert ReplaceAll(Png, Png, Replot) == Replot by {
      assert Png[|Png|..] == [];
    }
  }

  lemma ExampleParts(dir: string, stem: string)
    requires dir == "/data/" && stem == "scan_0007"
    ensures EndsWith(dir, [Sep]) && Sep !in stem && Png[0] !in stem
    ensures dir + (stem + Png) == "/data/scan_0007.png"
    ensures stem + Replot == "scan_0007_replot.png"
  {
  }

  /** The worked example: `/data/scan_0007.png` becomes `scan_0007_replot.png`. */
  lemma ImageFilenameExample(imagePath: string)
    requires imagePath == "/data/scan_0007.png"
    ensures ImageFilename(imagePath) == "scan_0007_replot.png"
  {
    var dir, stem := "/data/", "scan_0007";
    ExampleParts(dir, stem);
    ImageFilenameOfPngFile(dir, stem);
  }
}
