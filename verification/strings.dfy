/** Python string operations on `seq<char>`: `str.startswith`, `str.endswith`,
    `str.find`, `str.count` and `str.replace` (without the optional count argument). */
module Strings {
  import opened Options

  predicate StartsWith(s: string, p: string) {
    |p| <= |s| && s[..|p|] == p
  }

  predicate EndsWith(s: string, p: string) {
    |p| <= |s| && s[|s| - |p|..] == p
  }

  /** `p` occurs in `s` starting at index `i`. */
  predicate OccursAt(s: string, p: string, i: int) {
    0 <= i && i + |p| <= |s| && s[i..i + |p|] == p
  }

  /** An occurrence at `j + 1` in `s` is an occurrence at `j` in `s[1..]`, and vice versa. */
  lemma OccursShiftAt(s: string, p: string, j: int)
    requires s != [] && 0 <= j
    ensures OccursAt(s, p, j + 1) <==> OccursAt(s[1..], p, j)
  {
    if j + 1 + |p| <= |s| {
      assert s[j + 1..j + 1 + |p|] == s[1..][j..j + |p|];
    }
  }

  /** `str.find`: the least index at which `p` occurs in `s` (Python's -1 is `None`). */
  function Find(s: string, p: string): (r: Option<nat>)
    ensures r.Some? ==> r.value + |p| <= |s|
    decreases |s|
  {
    if |s| < |p| then None
    else if StartsWith(s, p) then Some(0)
    else
      match Find(s[1..], p)
      case None => None
      case Some(i) => Some(i + 1)
  }

  /** `Find` reports an occurrence, and no occurrence starts earlier; `None` means
      there is no occurrence at all. */
  lemma {:induction false} FindIsFirstOccurrence(s: string, p: string)
    ensures Find(s, p).Some? ==> OccursAt(s, p, Find(s, p).value)
    ensures Find(s, p).Some? ==> forall j :: 0 <= j < Find(s, p).value ==> !OccursAt(s, p, j)
    ensures Find(s, p).None? ==> forall j :: !OccursAt(s, p, j)
    decreases |s|
  {
    if |s| < |p| {
    } else if StartsWith(s, p) {
      assert s[0..|p|] == s[..|p|];
    } else {
      FindIsFirstOccurrence(s[1..], p);
      forall j | 0 < j
        ensures OccursAt(s, p, j) <==> OccursAt(s[1..], p, j - 1)
      {
        OccursShiftAt(s, p, j - 1);
      }
    }
  }

  /** `str.replace(pat, rep)`: scans left to right and replaces every non-overlapping
      occurrence of `pat`; scanning resumes right after each replaced occurrence. */
  function ReplaceAll(s: string, pat: string, rep: string): (r: string)
    requires pat != []
    decreases |s|
  {
    if s == [] then []
    else if StartsWith(s, pat) then rep + ReplaceAll(s[|pat|..], pat, rep)
    else [s[0]] + ReplaceAll(s[1..], pat, rep)
  }

  /** Every character of the result comes from the input or from the replacement. */
  lemma {:induction false} ReplaceAllChars(s: string, pat: string, rep: string, c: char)
    requires pat != []
    requires c in ReplaceAll(s, pat, rep)
    ensures c in s || c in rep
    decreases |s|
  {
    if StartsWith(s, pat) {
      if c !in rep {
        ReplaceAllChars(s[|pat|..], pat, rep, c);
      }
    } else if s != [] {
      if c != s[0] {
        ReplaceAllChars(s[1..], pat, rep, c);
      }
    }
  }

  /** The find-and-continue formulation of `str.replace`: locate the first occurrence,
      copy what precedes it, emit `rep`, and continue after the occurrence. */
  function ReplaceByFind(s: string, pat: string, rep: string): string
    requires pat != []
    decreases |s|
  {
    match Find(s, pat)
    case None => s
    case Some(i) => s[..i] + rep + ReplaceByFind(s[i + |pat|..], pat, rep)
  }

  /** `str.count`: the number of non-overlapping occurrences found left to right. */
  function Count(s: string, pat: string): (r: nat)
    requires pat != []
    ensures r == 0 <==> Find(s, pat).None?
    decreases |s|
  {
    match Find(s, pat)
    case None => 0
    case Some(i) => 1 + Count(s[i + |pat|..], pat)
  }

  /** `d` added up `n` times, so that the inductive lemmas below stay linear. */
  function Times(d: int, n: nat): int {
    if n == 0 then 0 else d + Times(d, n - 1)
  }

  lemma {:induction false} TimesIsMul(d: int, n: nat)
    ensures Times(d, n) == d * n
  {
    if n > 0 {
      TimesIsMul(d, n - 1);
      MulDistributes(d, n - 1);
    }
  }

  lemma {:induction false} CountFitsSum(s: string, pat: string)
    requires pat != []
    ensures Times(|pat|, Count(s, pat)) <= |s|
    decreases |s|
  {
    var f := Find(s, pat);
    if f.Some? {
      var rest := s[f.value + |pat|..];
      assert Times(|pat|, Count(rest, pat)) <= |rest| by {
        CountFitsSum(rest, pat);
      }
      assert Count(s, pat) == 1 + Count(rest, pat) by {
        CountUnfold(s, pat, f.value, rest);
      }
      FitsStep(|s|, f.value, |pat|, |rest|, Count(rest, pat), Count(s, pat));
    } else {
      assert Count(s, pat) == 0;
    }
  }

  /** The arithmetic of one counted occurrence. */
  lemma FitsStep(len: int, i: int, patLen: int, restLen: int, n: nat, count: nat)
    requires 0 <= i && restLen == len - i - patLen
    requires Times(patLen, n) <= restLen
    requires count == 1 + n
    ensures Times(patLen, count) <= len
  {
  }

  /** The occurrences `str.count` counts do not overlap, so they fit side by side in `s`. */
  lemma CountFits(s: string, pat: string)
    requires pat != []
    ensures |pat| * Count(s, pat) <= |s|
  {
    CountFitsSum(s, pat);
    TimesIsMul(|pat|, Count(s, pat));
  }

  /** No proper suffix of `p` is also a prefix of it, so two occurrences never overlap. */
  predicate NoSelfOverlap(p: string) {
    forall k :: 0 < k < |p| ==> p[k..] != p[..|p| - k]
  }

  /** Where `s` does not start with `pat`, `str.find` looks one character further on. */
  lemma FindSkipsHead(s: string, pat: string)
    requires pat != [] && s != [] && !StartsWith(s, pat)
    ensures Find(s[1..], pat).None? ==> Find(s, pat).None?
    ensures Find(s[1..], pat).Some? ==> Find(s, pat) == Some(Find(s[1..], pat).value + 1)
  {
    if |s| < |pat| {
      assert Find(s[1..], pat).None?;
    }
  }

  lemma EmptyPrefix(s: string, x: string, y: string, a: string)
    requires a == s[..0] + x + y
    ensures a == x + y
  {
    assert s[..0] == [];
  }

  /** Where `pat` starts `s`, the find-and-continue algorithm replaces it first. */
  lemma ReplaceByFindAtStart(s: string, pat: string, rep: string)
    requires pat != [] && StartsWith(s, pat)
    ensures ReplaceByFind(s, pat, rep) == rep + ReplaceByFind(s[|pat|..], pat, rep)
  {
    assert Find(s, pat) == Some(0);
    ReplaceByFindUnfold(s, pat, rep);
    EmptyPrefix(s, rep, ReplaceByFind(s[|pat|..], pat, rep), ReplaceByFind(s, pat, rep));
  }

  lemma ReplaceByFindUnfold(s: string, pat: string, rep: string)
    requires pat != [] && Find(s, pat).Some?
    ensures var i := Find(s, pat).value;
      ReplaceByFind(s, pat, rep) == s[..i] + rep + ReplaceByFind(s[i + |pat|..], pat, rep)
  {
  }

  lemma ReplaceByFindLengthUnfold(s: string, pat: string, rep: string, i: nat, rest: string)
    requires pat != [] && Find(s, pat) == Some(i) && rest == s[i + |pat|..]
    ensures |ReplaceByFind(s, pat, rep)| == i + |rep| + |ReplaceByFind(rest, pat, rep)|
  {
    ReplaceByFindUnfold(s, pat, rep);
  }

  /** Prepending a character the scan does not match copies it to the output. */
  lemma ConsStep(s: string, i: nat, n: nat, x: string, y: string, a: string, b: string)
    requires s != [] && i + n + 1 <= |s|
    requires a == s[..i + 1] + x + y && b == s[1..][..i] + x + y
    ensures a == [s[0]] + b
  {
    assert s[..i + 1] == [s[0]] + s[1..][..i];
  }

  /** Where `str.find` on `s` is one past `str.find` on `s[1..]`, the find-and-continue
      algorithm copies `s[0]`. */
  lemma ReplaceByFindSkipsHead(s: string, pat: string, rep: string)
    requires pat != [] && s != []
    requires Find(s[1..], pat).None? ==> Find(s, pat).None?
    requires Find(s[1..], pat).Some? ==> Find(s, pat) == Some(Find(s[1..], pat).value + 1)
    ensures ReplaceByFind(s, pat, rep) == [s[0]] + ReplaceByFind(s[1..], pat, rep)
  {
    var t := s[1..];
    if Find(t, pat).None? {
      assert s == [s[0]] + t;
    } else {
      var i := Find(t, pat).value;
      assert t[i + |pat|..] == s[i + 1 + |pat|..];
      var tail := ReplaceByFind(t[i + |pat|..], pat, rep);
      ReplaceByFindUnfold(t, pat, rep);
      ReplaceByFindUnfold(s, pat, rep);
      ConsStep(s, i, |pat|, rep, tail, ReplaceByFind(s, pat, rep), ReplaceByFind(t, pat, rep));
    }
  }

  /** The recursive scan and the find-and-continue algorithm agree on every input. */
  lemma {:induction false} ReplaceAllIsReplaceByFind(s: string, pat: string, rep: string)
    requires pat != []
    ensures ReplaceAll(s, pat, rep) == ReplaceByFind(s, pat, rep)
    decreases |s|
  {
    if s == [] {
      assert Find(s, pat).None?;
    } else if StartsWith(s, pat) {
      ReplaceAllIsReplaceByFind(s[|pat|..], pat, rep);
      ReplaceByFindAtStart(s, pat, rep);
    } else {
      ReplaceAllIsReplaceByFind(s[1..], pat, rep);
      FindSkipsHead(s, pat);
      ReplaceByFindSkipsHead(s, pat, rep);
    }
  }

  /** A string with no occurrence of `pat` is returned unchanged. */
  lemma ReplaceWithoutOccurrence(s: string, pat: string, rep: string)
    requires pat != []
    requires Find(s, pat).None?
    ensures ReplaceAll(s, pat, rep) == s
  {
    ReplaceAllIsReplaceByFind(s, pat, rep);
  }

  lemma MulDistributes(d: int, n: int)
    ensures d * (1 + n) == d + d * n
  {
  }

  lemma MulNonZero(d: int, n: int)
    requires d != 0 && n != 0
    ensures d * n != 0
  {
  }

  lemma CountUnfold(s: string, pat: string, i: nat, rest: string)
    requires pat != [] && Find(s, pat) == Some(i) && rest == s[i + |pat|..]
    ensures Count(s, pat) == 1 + Count(rest, pat)
  {
  }

  lemma {:induction false} ReplaceByFindLengthSum(s: string, pat: string, rep: string)
    requires pat != []
    ensures |ReplaceByFind(s, pat, rep)| == |s| + Times(|rep| - |pat|, Count(s, pat))
    decreases |s|
  {
    var f := Find(s, pat);
    if f.Some? {
      var i := f.value;
      var rest := s[i + |pat|..];
      var out, restOut := ReplaceByFind(s, pat, rep), ReplaceByFind(rest, pat, rep);
      assert |out| == i + |rep| + |restOut| by {
        ReplaceByFindLengthUnfold(s, pat, rep, i, rest);
      }
      assert |restOut| == |rest| + Times(|rep| - |pat|, Count(rest, pat)) by {
        ReplaceByFindLengthSum(rest, pat, rep);
      }
      assert Count(s, pat) == 1 + Count(rest, pat) by {
        CountUnfold(s, pat, i, rest);
      }
      LengthStep(|out|, |s|, i, |rep|, |pat|, |restOut|, |rest|, Count(rest, pat), Count(s, pat));
    } else {
      assert Count(s, pat) == 0;
      assert ReplaceByFind(s, pat, rep) == s;
    }
  }

  /** The arithmetic of one replacement step. */
  lemma LengthStep(out: int, len: int, i: int, repLen: int, patLen: int,
                   restOut: int, restLen: int, n: nat, count: nat)
    requires out == i + repLen + restOut
    requires restOut == restLen + Times(repLen - patLen, n)
    requires restLen == len - i - patLen
    requires count == 1 + n
    ensures out == len + Times(repLen - patLen, count)
  {
  }

  /** Each replacement changes the length by `|rep| - |pat|`. */
  lemma ReplaceByFindLength(s: string, pat: string, rep: string)
    requires pat != []
    ensures |ReplaceByFind(s, pat, rep)| == |s| + (|rep| - |pat|) * Count(s, pat)
  {
    ReplaceByFindLengthSum(s, pat, rep);
    TimesIsMul(|rep| - |pat|, Count(s, pat));
  }

  lemma ReplaceAllLength(s: string, pat: string, rep: string)
    requires pat != []
    ensures |ReplaceAll(s, pat, rep)| == |s| + (|rep| - |pat|) * Count(s, pat)
  {
    ReplaceAllIsReplaceByFind(s, pat, rep);
    ReplaceByFindLength(s, pat, rep);
  }

  /** When the replacement has a different length, `str.replace` leaves a string unchanged
      exactly when the pattern does not occur in it. */
  lemma ReplaceUnchangedIff(s: string, pat: string, rep: string)
    requires pat != [] && |rep| != |pat|
    ensures ReplaceAll(s, pat, rep) == s <==> Find(s, pat).None?
  {
    ReplaceAllLength(s, pat, rep);
    if Find(s, pat).None? {
      ReplaceWithoutOccurrence(s, pat, rep);
    } else {
      MulNonZero(|rep| - |pat|, Count(s, pat));
    }
  }

  /** A string shorter than two copies of `pat` that both starts and ends with `pat`
      makes a proper suffix of `pat` equal to a prefix of it. */
  lemma OverlappingOccurrences(s: string, pat: string)
    requires StartsWith(s, pat) && EndsWith(s, pat)
    requires |pat| < |s| < 2 * |pat|
    ensures !NoSelfOverlap(pat)
  {
    var k := |s| - |pat|;
    assert pat[k..] == s[k..|pat|];
    assert s[k..|pat|] == pat[..|pat| - k];
  }

  lemma EndsWithDrop(s: string, n: nat, p: string)
    requires EndsWith(s, p) && n + |p| <= |s|
    ensures EndsWith(s[n..], p)
  {
    assert s[n..][|s| - n - |p|..] == s[|s| - |p|..];
  }

  lemma EndsWithExtend(a: string, b: string, p: string)
    requires EndsWith(b, p)
    ensures EndsWith(a + b, p)
  {
    assert (a + b)[|a + b| - |p|..] == b[|b| - |p|..];
  }

  /** A string that ends with a non-self-overlapping pattern has that final occurrence
      replaced, so the result ends with the replacement. */
  lemma {:induction false} ReplaceKeepsSuffix(s: string, pat: string, rep: string)
    requires pat != [] && NoSelfOverlap(pat)
    requires EndsWith(s, pat)
    ensures EndsWith(ReplaceAll(s, pat, rep), rep)
    decreases |s|
  {
    if StartsWith(s, pat) {
      if |s| == |pat| {
        assert s[|pat|..] == [];
        assert ReplaceAll(s, pat, rep) == rep + [];
        assert rep[|rep| - |rep|..] == rep;
      } else if |s| < 2 * |pat| {
        OverlappingOccurrences(s, pat);
        assert false;
      } else {
        EndsWithDrop(s, |pat|, pat);
        ReplaceKeepsSuffix(s[|pat|..], pat, rep);
        EndsWithExtend(rep, ReplaceAll(s[|pat|..], pat, rep), rep);
      }
    } else {
      EndsWithDrop(s, 1, pat);
      ReplaceKeepsSuffix(s[1..], pat, rep);
      EndsWithExtend([s[0]], ReplaceAll(s[1..], pat, rep), rep);
    }
  }

  /** The first character of the result: the replacement's where `pat` starts `s`,
      otherwise `s`'s own. */
  lemma ReplaceHead(s: string, pat: string, rep: string)
    requires pat != [] && rep != [] && s != []
    ensures ReplaceAll(s, pat, rep) != []
    ensures ReplaceAll(s, pat, rep)[0] == if StartsWith(s, pat) then rep[0] else s[0]
  {
  }

  /** A prefix of the result that avoids the replacement's first character was copied
      verbatim from the input. */
  lemma {:induction false} ReplacePrefixPullback(s: string, pat: string, rep: string, q: string)
    requires pat != [] && rep != []
    requires rep[0] !in q
    requires StartsWith(ReplaceAll(s, pat, rep), q)
    ensures StartsWith(s, q)
    ensures ReplaceAll(s, pat, rep) == q + ReplaceAll(s[|q|..], pat, rep)
    decreases |q|
  {
    if q == [] {
      assert s[0..] == s;
    } else {
      var r := ReplaceAll(s, pat, rep);
      assert s != [] && r[0] == q[0] by {
        assert r[..|q|] == q;
      }
      var t := s[1..];
      var rt := ReplaceAll(t, pat, rep);
      assert s[0] == q[0] && r == [s[0]] + rt by {
        ReplaceHead(s, pat, rep);
      }
      assert StartsWith(rt, q[1..]) by {
        StartsWithTail(s[0], rt, q);
      }
      ReplacePrefixPullback(t, pat, rep, q[1..]);
      var tailOut := ReplaceAll(t[|q| - 1..], pat, rep);
      assert s == [s[0]] + t;
      ConsPrefix(s[0], t, q);
      ConsJoin(s[0], q[1..], q, tailOut, rt, r);
    }
  }

  lemma ConsJoin(c: char, a: string, q: string, x: string, rt: string, r: string)
    requires rt == a + x && r == [c] + rt && [c] + a == q
    ensures r == q + x
  {
  }

  lemma ConsPrefix(c: char, t: string, q: string)
    requires q != [] && c == q[0] && StartsWith(t, q[1..])
    ensures StartsWith([c] + t, q)
    ensures ([c] + t)[|q|..] == t[|q| - 1..]
    ensures [c] + q[1..] == q
  {
    assert ([c] + t)[..|q|] == [c] + t[..|q| - 1];
  }

  /** Replacing `rep` by `pat` undoes replacing `pat` by `rep` when `rep` is some marker
      followed by `pat`, and the first character of `rep` occurs neither later in the
      marker nor in `pat`. */
  predicate Reversible(pat: string, rep: string) {
    && pat != []
    && |pat| < |rep|
    && EndsWith(rep, pat)
    && rep[0] !in rep[1..|rep| - |pat|]
    && rep[0] !in pat
  }

  /** The output never starts with `pat`: a leading `pat` is itself replaced. */
  lemma NeverStartsWithPattern(u: string, pat: string, rep: string)
    requires pat != [] && rep != [] && rep[0] !in pat
    ensures !StartsWith(ReplaceAll(u, pat, rep), pat)
  {
    if u != [] {
      ReplaceHead(u, pat, rep);
      if StartsWith(ReplaceAll(u, pat, rep), pat) {
        ReplacePrefixPullback(u, pat, rep, pat);
        assert false;
      }
    }
  }

  lemma StartsWithTail(c: char, r: string, p: string)
    requires p != [] && StartsWith([c] + r, p)
    ensures StartsWith(r, p[1..])
  {
    assert r[..|p| - 1] == ([c] + r)[1..|p|];
  }

  lemma StartsWithSplit(r: string, a: string, b: string)
    requires StartsWith(r, a + b)
    ensures StartsWith(r, a) && StartsWith(r[|a|..], b)
  {
    assert r[..|a|] == (a + b)[..|a|];
    assert r[|a|..][..|b|] == (a + b)[|a|..];
  }

  lemma DropPrefix(a: string, b: string)
    ensures (a + b)[|a|..] == b
  {
  }

  /** Under `Reversible`, the tail of `rep` is the marker's tail followed by `pat`. */
  lemma ReversibleTail(pat: string, rep: string)
    requires Reversible(pat, rep)
    ensures rep[1..] == rep[1..|rep| - |pat|] + pat
  {
  }

  /** A `rep` formed by a copied character and the rest of the output forces a `pat` at
      the front of a later replacement result. */
  lemma ReplacementAfterCopy(c: char, t: string, pat: string, rep: string)
    requires Reversible(pat, rep)
    requires StartsWith([c] + ReplaceAll(t, pat, rep), rep)
    ensures |rep| - |pat| - 1 <= |t|
    ensures StartsWith(ReplaceAll(t[|rep| - |pat| - 1..], pat, rep), pat)
  {
    var q := rep[1..|rep| - |pat|];
    var r := ReplaceAll(t, pat, rep);
    StartsWithTail(c, r, rep);
    ReversibleTail(pat, rep);
    StartsWithSplit(r, q, pat);
    ReplacePrefixPullback(t, pat, rep, q);
    DropPrefix(q, ReplaceAll(t[|q|..], pat, rep));
  }

  /** Where `s` does not start with `pat`, its copied first character does not start a
      `rep` in the output. */
  lemma CopiedHeadIsNotReplacement(s: string, pat: string, rep: string)
    requires Reversible(pat, rep)
    requires s != [] && !StartsWith(s, pat)
    ensures !StartsWith([s[0]] + ReplaceAll(s[1..], pat, rep), rep)
  {
    if StartsWith([s[0]] + ReplaceAll(s[1..], pat, rep), rep) {
      ReplacementAfterCopy(s[0], s[1..], pat, rep);
      NeverStartsWithPattern(s[1..][|rep| - |pat| - 1..], pat, rep);
      assert false;
    }
  }

  /** Replacing every `rep` by `pat` restores the input of the forward replacement. */
  lemma {:induction false} ReplaceRoundTrip(s: string, pat: string, rep: string)
    requires Reversible(pat, rep)
    ensures ReplaceAll(ReplaceAll(s, pat, rep), rep, pat) == s
    decreases |s|
  {
    if s != [] {
      if StartsWith(s, pat) {
        var t := s[|pat|..];
        ReplaceRoundTrip(t, pat, rep);
        var r := ReplaceAll(t, pat, rep);
        assert (rep + r)[..|rep|] == rep;
        assert (rep + r)[|rep|..] == r;
        assert s == pat + t;
      } else {
        var t := s[1..];
        ReplaceRoundTrip(t, pat, rep);
        var r := ReplaceAll(t, pat, rep);
        CopiedHeadIsNotReplacement(s, pat, rep);
        assert ([s[0]] + r)[1..] == r;
        assert s == [s[0]] + t;
      }
    }
  }

  /** Characters that cannot begin `pat` are copied through unchanged. */
  lemma {:induction false} ReplaceCopiesPlainPrefix(a: string, b: string, pat: string, rep: string)
    requires pat != [] && pat[0] !in a
    ensures ReplaceAll(a + b, pat, rep) == a + ReplaceAll(b, pat, rep)
    decreases |a|
  {
    if a != [] {
      var s := a + b;
      assert s[0] == a[0] != pat[0];
      assert !StartsWith(s, pat);
      assert s[1..] == a[1..] + b;
      assert ReplaceAll(s, pat, rep) == [a[0]] + ReplaceAll(a[1..] + b, pat, rep);
      ReplaceCopiesPlainPrefix(a[1..], b, pat, rep);
      var rb := ReplaceAll(b, pat, rep);
      assert a + rb == [a[0]] + (a[1..] + rb);
    } else {
      assert a + b == b;
    }
  }
}
