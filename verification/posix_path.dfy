/** The two `posixpath` functions the viewer calls: `os.path.basename` and the
    two-argument `os.path.join`, with `/` as the separator. */
module PosixPath {
  import opened Strings

  const Sep: char := '/'

  /** `str.rfind` for one character: the greatest index holding `c`, or -1. */
  function RFind(s: string, c: char): (r: int)
    ensures -1 <= r < |s|
    ensures r >= 0 ==> s[r] == c
    ensures forall j :: r < j < |s| ==> s[j] != c
    decreases |s|
  {
    if s == [] then -1
    else if s[|s| - 1] == c then |s| - 1
    else RFind(s[..|s| - 1], c)
  }

  /** `os.path.basename`: everything after the last separator. The result is the longest
      suffix of `p` that holds no separator. */
  function Basename(p: string): (r: string)
    ensures Sep !in r
    ensures |r| <= |p|
    ensures p == p[..|p| - |r|] + r
    ensures |r| == |p| || p[|p| - |r| - 1] == Sep
  {
    var i := RFind(p, Sep) + 1;
    assert forall c :: c in p[i..] ==> exists j :: i <= j < |p| && p[j] == c;
    p[i..]
  }

  /** `os.path.join(a, b)`: an absolute `b` discards `a`; otherwise `b` is appended,
      with a separator inserted unless `a` is empty or already ends in one. */
  function Join(a: string, b: string): (r: string)
    ensures StartsWith(b, [Sep]) ==> r == b
    ensures !StartsWith(b, [Sep]) ==> StartsWith(r, a)
    ensures EndsWith(r, b)
    ensures !StartsWith(b, [Sep]) ==> |r| == |a| + |b| + (if a == [] || EndsWith(a, [Sep]) then 0 else 1)
    ensures !StartsWith(b, [Sep]) && a != [] && !EndsWith(a, [Sep]) ==> r[|a|] == Sep
  {
    if StartsWith(b, [Sep]) then b
    else if a == [] || EndsWith(a, [Sep]) then a + b
    else a + [Sep] + b
  }

  /** Joining a non-empty directory that lacks a trailing separator with a relative name
      puts exactly one `/` between them. */
  lemma JoinInsertsSeparator(a: string, b: string)
    requires a != [] && !EndsWith(a, [Sep]) && !StartsWith(b, [Sep])
    ensures Join(a, b) == a + [Sep] + b
  {
    var r := Join(a, b);
    assert r[..|a|] == a;
    assert r[|a| + 1..] == b;
    assert r == r[..|a|] + [r[|a|]] + r[|a| + 1..];
  }

  /** Appending characters other than `c` leaves the last `c` where it was. */
  lemma {:induction false} RFindAppend(a: string, b: string, c: char)
    requires c !in b
    ensures RFind(a + b, c) == RFind(a, c)
    decreases |b|
  {
    if b != [] {
      var s := a + b;
      assert s[|s| - 1] == b[|b| - 1] != c;
      assert s[..|s| - 1] == a + b[..|b| - 1];
      RFindAppend(a, b[..|b| - 1], c);
    } else {
      assert a + b == a;
    }
  }

  /** The basename of a directory path followed by a plain name is that name. */
  lemma BasenameOfJoined(dir: string, name: string)
    requires EndsWith(dir, [Sep]) && Sep !in name
    ensures Basename(dir + name) == name
  {
    RFindAppend(dir, name, Sep);
    assert dir[|dir| - 1] == Sep;
    assert (dir + name)[|dir|..] == name;
  }
}
