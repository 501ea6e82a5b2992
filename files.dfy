/**
  * The file-URL normaliser of `src/lib/files.ts`: it rewrites the file
  * references the API returns so that relative ones point at the
  * `/api/files/thumbnail/` endpoint, upper-cases the `assets` bucket segment
  * and guarantees a leading slash. The branch that parses an absolute URL
  * with the WHATWG URL parser, and the join of a relative result with the API
  * base URL, are passed in as functions.
  */
module Files {
  import opened Wrappers
  import opened JsStrings

  const FilesPrefix: string := "/api/files/"
  const ThumbnailPrefix: string := "/api/files/thumbnail/"

  // ------------------------------------------------------------ absolute

  /** How many ASCII letters `v` begins with. */
  function LeadingLetters(v: string): (n: nat)
    ensures n <= |v|
    ensures forall i :: 0 <= i < n ==> IsAsciiLetter(v[i])
    ensures n < |v| ==> !IsAsciiLetter(v[n])
  {
    if v != [] && IsAsciiLetter(v[0]) then 1 + LeadingLetters(v[1..]) else 0
  }

  /** `isAbsoluteUrl`: the pattern `^(?:[a-z]+:)?\/\/` (case-insensitive),
      or a `data:` value. The letters before the colon are the whole leading
      run of letters, since a colon is not a letter. */
  predicate IsAbsoluteUrl(v: string)
  {
    var n := LeadingLetters(v);
    || StartsWith(v, "//")
    || (n > 0 && StartsWith(v[n..], "://"))
    || StartsWith(v, "data:")
  }

  /** `ensureLeadingSlash`: a slash is added exactly when there is none. */
  function EnsureLeadingSlash(v: string): (r: string)
    ensures StartsWith(r, "/")
    ensures r == v <==> StartsWith(v, "/")
    ensures r != v ==> r == "/" + v
  {
    if StartsWith(v, "/") then v else "/" + v
  }

  // ------------------------------------------------- the assets segment

  /** The text `api/files/thumbnail/assets/` and `api/files/assets/`, which the
      pattern `\/?api\/files(?:\/thumbnail)?\/(assets)(?=\/)` recognises
      case-insensitively (the optional leading slash does not change which
      characters are replaced, so it is left out). */
  const ThumbnailAssets: string := "api/files/thumbnail/assets/"
  const FilesAssets: string := "api/files/assets/"

  /** `lit` (lower case) occurs at `k` in `s`, ignoring the case of ASCII
      letters, as the `i` flag compares. */
  predicate CiAt(s: string, k: nat, lit: string)
  {
    k + |lit| <= |s| && FoldAscii(s[k..k + |lit|]) == lit
  }

  /** `t` with its ASCII letters in lower case. */
  function FoldAscii(t: string): (r: string)
    ensures |r| == |t|
    ensures forall i :: 0 <= i < |t| ==> r[i] == AsciiLower(t[i])
  {
    seq(|t|, i requires 0 <= i < |t| => AsciiLower(t[i]))
  }

  /** Where the pattern matches at `k`: the length of the text before `assets`. */
  function MatchAt(s: string, k: nat): Option<nat>
  {
    if CiAt(s, k, ThumbnailAssets) then Some(20)
    else if CiAt(s, k, FilesAssets) then Some(10)
    else None
  }

  /** An `assets` segment the source upper-cases begins at `j`: it directly
      follows `api/files/` or `api/files/thumbnail/` and is followed by `/`. */
  predicate AssetsAt(s: string, j: int)
  {
    || (j >= 20 && CiAt(s, j - 20, ThumbnailAssets))
    || (j >= 10 && CiAt(s, j - 10, FilesAssets))
  }

  ghost predicate InAssetsSegment(s: string, i: int)
  {
    exists j :: AssetsAt(s, j) && j <= i < j + 6
  }

  /** `y` is `x` with, at most, some letters of its `assets` segments
      upper-cased. */
  ghost predicate UpToAssetsCase(x: string, y: string)
  {
    && |y| == |x|
    && forall i :: 0 <= i < |x| ==> y[i] == x[i] || (InAssetsSegment(x, i) && y[i] == AsciiUpper(x[i]))
  }

  /** The global replace of the pattern, scanning left to right from `k`:
      where the pattern matches, the prefix is kept and `assets` becomes
      `ASSETS`, and the scan resumes after it; elsewhere one character is
      copied. */
  function FixFrom(s: string, k: nat): (r: string)
    requires k <= |s|
    ensures |r| == |s| - k
    decreases |s| - k
  {
    if k == |s| then []
    else match MatchAt(s, k)
      case Some(p) => s[k..k + p] + "ASSETS" + FixFrom(s, k + p + 6)
      case None => [s[k]] + FixFrom(s, k + 1)
  }

  /** `ensureAssetsSegmentUppercase`: the global replace over the whole path. */
  function EnsureAssetsSegmentUppercase(path: string): (r: string)
    ensures |r| == |path|
  {
    if path == [] then path else FixFrom(path, 0)
  }

  /** The replace changes nothing but the case of `assets` segments. */
  lemma AssetsFixChangesOnlyAssets(path: string)
    ensures UpToAssetsCase(path, EnsureAssetsSegmentUppercase(path))
  {
    if path != [] {
      FixFromChangesOnlyAssets(path, 0);
    }
  }

  /** Every `assets` segment the pattern recognises comes out as `ASSETS`. */
  lemma AssetsFixUpperCasesSegments(path: string)
    ensures var r := EnsureAssetsSegmentUppercase(path);
      forall j :: AssetsAt(path, j) ==> r[j..j + 6] == "ASSETS"
  {
    if path != [] {
      FixFromCoversAssets(path);
    }
  }

  lemma UpperOfFolded(c: char, lower: char)
    requires 'a' <= lower <= 'z' && AsciiLower(c) == lower
    ensures AsciiUpper(c) == (lower as int - 32) as char
  {
  }

  /** The text the pattern matches when its prefix is `p` characters long. */
  function Pattern(p: nat): string
  {
    if p == 20 then ThumbnailAssets else FilesAssets
  }

  /** What the proofs need of the two literals: where `assets` sits, and that
      `ap` occurs only at their start. */
  lemma PatternFacts(p: nat)
    requires p == 20 || p == 10
    ensures |Pattern(p)| == p + 7
    ensures forall i :: 0 <= i < 6 ==> Pattern(p)[p + i] == "assets"[i]
    ensures Pattern(p)[0] == 'a' && Pattern(p)[1] == 'p'
    ensures forall d :: 0 < d < p + 6 ==> !(Pattern(p)[d] == 'a' && Pattern(p)[d + 1] == 'p')
  {
  }

  lemma MatchAtPattern(s: string, k: nat)
    requires MatchAt(s, k).Some?
    ensures var p := MatchAt(s, k).value; (p == 20 || p == 10) && CiAt(s, k, Pattern(p))
  {
  }

  lemma AssetsLetters(i: nat)
    requires i < 6
    ensures 'a' <= "assets"[i] <= 'z' && "ASSETS"[i] == ("assets"[i] as int - 32) as char
  {
  }

  lemma MatchedLetter(s: string, k: nat, p: nat, i: nat)
    requires (p == 20 || p == 10) && CiAt(s, k, Pattern(p)) && i < 6
    ensures k + p + i < |s| && AsciiUpper(s[k + p + i]) == "ASSETS"[i]
  {
    PatternFacts(p);
    CiAtChar(s, k, Pattern(p), p + i);
    AssetsLetters(i);
    UpperOfFolded(s[k + p + i], "assets"[i]);
  }

  /** Where the pattern matches at `k`, the six letters after the prefix are
      an `assets` segment, and upper-casing them spells `ASSETS`. */
  lemma MatchIsAssets(s: string, k: nat, p: nat)
    requires MatchAt(s, k) == Some(p)
    ensures k + p + 6 < |s| && AssetsAt(s, k + p)
    ensures forall i :: 0 <= i < 6 ==> AsciiUpper(s[k + p + i]) == "ASSETS"[i]
    ensures AsciiUpper(s[k + p]) == 'A' && AsciiUpper(s[k + p + 1]) == 'S'
  {
    MatchAtPattern(s, k);
    PatternFacts(p);
    forall i | 0 <= i < 6
      ensures AsciiUpper(s[k + p + i]) == "ASSETS"[i]
    {
      MatchedLetter(s, k, p, i);
    }
    MatchedLetter(s, k, p, 0);
    MatchedLetter(s, k, p, 1);
  }

  /** The scan changes a character only inside an `assets` segment, and there
      only to its upper-case form. */
  /** The characters the scan from `k` produces for positions `lo` to `hi`
      of `s` are the originals, or their upper-case form inside an `assets`
      segment. */
  ghost predicate ChangesOnlyAssets(s: string, r: string, k: nat, lo: nat, hi: nat)
    requires k <= lo <= hi <= |s| && |r| == |s| - k
  {
    forall i :: lo <= i < hi ==> r[i - k] == s[i] || (InAssetsSegment(s, i) && r[i - k] == AsciiUpper(s[i]))
  }

  lemma ChangesOnlyAssetsAtMatch(s: string, k: nat, p: nat)
    requires MatchAt(s, k) == Some(p)
    ensures k + p + 6 <= |s| && ChangesOnlyAssets(s, FixFrom(s, k), k, k, k + p + 6)
  {
    MatchIsAssets(s, k, p);
    var r := FixFrom(s, k);
    assert r == s[k..k + p] + "ASSETS" + FixFrom(s, k + p + 6);
    forall i | k + p <= i < k + p + 6
      ensures InAssetsSegment(s, i) && r[i - k] == AsciiUpper(s[i])
    {
      assert r[i - k] == "ASSETS"[i - k - p];
      assert AsciiUpper(s[k + p + (i - k - p)]) == "ASSETS"[i - k - p];
    }
  }

  lemma ChangesOnlyAssetsAfter(s: string, k: nat, q: nat)
    requires k < q <= |s|
    requires FixFrom(s, k)[q - k..] == FixFrom(s, q)
    requires ChangesOnlyAssets(s, FixFrom(s, q), q, q, |s|)
    ensures ChangesOnlyAssets(s, FixFrom(s, k), k, q, |s|)
  {
    var r, rest := FixFrom(s, k), FixFrom(s, q);
    forall d | 0 <= d < |s| - q
      ensures r[q - k + d] == rest[d]
    {
      assert r[q - k..][d] == r[q - k + d];
    }
  }

  /** The scan changes a character only inside an `assets` segment, and there
      only to its upper-case form. */
  lemma {:induction false} FixFromChangesOnlyAssets(s: string, k: nat)
    requires k <= |s|
    ensures ChangesOnlyAssets(s, FixFrom(s, k), k, k, |s|)
    decreases |s| - k
  {
    if k < |s| {
      var r := FixFrom(s, k);
      match MatchAt(s, k)
      case Some(p) =>
        FixFromChangesOnlyAssets(s, k + p + 6);
        ChangesOnlyAssetsAtMatch(s, k, p);
        assert r[k + p + 6 - k..] == FixFrom(s, k + p + 6);
        ChangesOnlyAssetsAfter(s, k, k + p + 6);
      case None =>
        FixFromChangesOnlyAssets(s, k + 1);
        assert r[k + 1 - k..] == FixFrom(s, k + 1);
        ChangesOnlyAssetsAfter(s, k, k + 1);
    }
  }

  /** Two matches of the pattern never overlap: inside a match, no position
      after its first can start another. */
  lemma CiAtChar(s: string, k: nat, lit: string, i: nat)
    requires CiAt(s, k, lit) && i < |lit|
    ensures AsciiLower(s[k + i]) == lit[i]
  {
    assert FoldAscii(s[k..k + |lit|])[i] == AsciiLower(s[k..k + |lit|][i]);
  }

  lemma CiAtStart(s: string, k: nat, lit: string)
    requires CiAt(s, k, lit) && |lit| >= 2
    ensures AsciiLower(s[k]) == lit[0] && AsciiLower(s[k + 1]) == lit[1]
  {
    CiAtChar(s, k, lit, 0);
    CiAtChar(s, k, lit, 1);
  }

  lemma NoMatchInside(s: string, k: nat, p: nat, m: nat)
    requires MatchAt(s, k) == Some(p)
    requires k < m < k + p + 6
    ensures MatchAt(s, m) == None
  {
    NoApInsideMatch(s, k, p, m);
    NoMatchWithoutAp(s, m);
  }

  /** Inside a match, no `a` is followed by `p`, ignoring case. */
  lemma NoApInsideMatch(s: string, k: nat, p: nat, m: nat)
    requires MatchAt(s, k) == Some(p)
    requires k < m < k + p + 6
    ensures m + 1 < |s| && !(AsciiLower(s[m]) == 'a' && AsciiLower(s[m + 1]) == 'p')
  {
    MatchAtPattern(s, k);
    PatternFacts(p);
    var lit := Pattern(p);
    CiAtChar(s, k, lit, m - k);
    CiAtChar(s, k, lit, m - k + 1);
  }

  /** Both patterns begin with `ap`, so no match starts elsewhere. */
  lemma NoMatchWithoutAp(s: string, m: nat)
    requires m + 1 < |s| && !(AsciiLower(s[m]) == 'a' && AsciiLower(s[m + 1]) == 'p')
    ensures MatchAt(s, m) == None
  {
    CiAtStartIf(s, m, ThumbnailAssets);
    CiAtStartIf(s, m, FilesAssets);
  }

  /** `CiAtStart` stated for any `m`, for use where the match is refuted. */
  lemma CiAtStartIf(s: string, m: nat, lit: string)
    requires |lit| >= 2
    ensures CiAt(s, m, lit) ==> AsciiLower(s[m]) == lit[0] && AsciiLower(s[m + 1]) == lit[1]
  {
    if CiAt(s, m, lit) {
      CiAtStart(s, m, lit);
    }
  }

  lemma CiAtAgree(s: string, k: nat, a: string, b: string, i: nat)
    requires CiAt(s, k, a) && CiAt(s, k, b) && i < |a| && i < |b|
    ensures a[i] == b[i]
  {
    CiAtChar(s, k, a, i);
    CiAtChar(s, k, b, i);
  }

  /** `api/files/assets/` and `api/files/thumbnail/assets/` differ at their
      eleventh character, so they never both match at one place. */
  lemma NotBothPatterns(s: string, k: nat)
    ensures CiAt(s, k, FilesAssets) ==> !CiAt(s, k, ThumbnailAssets)
  {
    if CiAt(s, k, FilesAssets) && CiAt(s, k, ThumbnailAssets) {
      CiAtAgree(s, k, FilesAssets, ThumbnailAssets, 10);
      assert false;
    }
  }

  /** The match that makes `j` an `assets` segment starts at `MatchStart(s, j)`. */
  function MatchStart(s: string, j: int): (m: nat)
    requires AssetsAt(s, j)
    ensures MatchAt(s, m) == Some(j - m)
  {
    if j >= 20 && CiAt(s, j - 20, ThumbnailAssets) then j - 20
    else
      NotBothPatterns(s, j - 10);
      j - 10
  }

  lemma SliceOfMiddle(a: string, b: string, c: string)
    ensures (a + b + c)[|a|..|a| + |b|] == b
  {
  }

  lemma SliceOfSuffix(a: string, b: string, i: nat, n: nat)
    requires |a| <= i && i + n <= |a| + |b|
    ensures (a + b)[i..i + n] == b[i - |a|..i - |a| + n]
  {
  }

  lemma CoversAtMatch(s: string, k: nat, j: nat)
    requires k <= j && MatchAt(s, k) == Some(j - k)
    ensures j + 6 <= |s| && FixFrom(s, k)[j - k..j - k + 6] == "ASSETS"
  {
    MatchIsAssets(s, k, j - k);
    assert FixFrom(s, k) == s[k..j] + "ASSETS" + FixFrom(s, j + 6);
    SliceOfMiddle(s[k..j], "ASSETS", FixFrom(s, j + 6));
  }

  /** Where the scan from `k` continues: after the match, or after one character. */
  function NextScan(s: string, k: nat): (q: nat)
    requires k < |s|
    ensures k < q <= |s|
  {
    match MatchAt(s, k)
    case Some(p) => MatchIsAssets(s, k, p); k + p + 6
    case None => k + 1
  }

  /** The scan from `k` ends with the scan from where it continues. */
  lemma FixFromStep(s: string, k: nat)
    requires k < |s|
    ensures var q := NextScan(s, k); FixFrom(s, k)[q - k..] == FixFrom(s, q)
  {
    var r := FixFrom(s, k);
    match MatchAt(s, k)
    case Some(p) =>
      assert r == (s[k..k + p] + "ASSETS") + FixFrom(s, k + p + 6);
    case None =>
      assert r == [s[k]] + FixFrom(s, k + 1);
  }

  /** The scan never steps over the start of a match. */
  lemma NextScanStopsAtMatch(s: string, k: nat, m: nat)
    requires k < m && MatchAt(s, m).Some?
    ensures NextScan(s, k) <= m
  {
    MatchIsAssets(s, m, MatchAt(s, m).value);
    match MatchAt(s, k)
    case Some(p) =>
      if m < k + p + 6 {
        NoMatchInside(s, k, p, m);
      }
    case None =>
  }

  lemma SliceOfTail(r: string, rest: string, d: nat, i: nat, n: nat)
    requires d <= |r| && r[d..] == rest && d <= i && i + n <= |r|
    ensures r[i..i + n] == rest[i - d..i - d + n]
  {
    assert r[d..][i - d..i - d + n] == r[i..i + n];
  }

  /** An upper-cased segment after the point where the scan continues is
      upper-cased in the scan from `k` too. */
  lemma CoversAfterStep(s: string, k: nat, j: nat)
    requires k < |s| && NextScan(s, k) <= j && j + 6 <= |s|
    requires var q := NextScan(s, k); FixFrom(s, q)[j - q..j - q + 6] == "ASSETS"
    ensures FixFrom(s, k)[j - k..j - k + 6] == "ASSETS"
  {
    var q := NextScan(s, k);
    FixFromStep(s, k);
    SliceOfTail(FixFrom(s, k), FixFrom(s, q), q - k, j - k, 6);
  }

  /** Every `assets` segment whose match starts at or after `k` is upper-cased
      by the scan from `k`. */
  lemma {:induction false} FixFromCoversFrom(s: string, k: nat, m: nat, j: nat)
    requires k <= m <= j && MatchAt(s, m) == Some(j - m)
    ensures j + 6 <= |s| && FixFrom(s, k)[j - k..j - k + 6] == "ASSETS"
    decreases |s| - k
  {
    MatchIsAssets(s, m, j - m);
    if k == m {
      CoversAtMatch(s, k, j);
    } else {
      NextScanStopsAtMatch(s, k, m);
      FixFromCoversFrom(s, NextScan(s, k), m, j);
      CoversAfterStep(s, k, j);
    }
  }

  lemma FixFromCoversAssets(s: string)
    ensures forall j :: AssetsAt(s, j) ==> FixFrom(s, 0)[j..j + 6] == "ASSETS"
  {
    forall j | AssetsAt(s, j)
      ensures FixFrom(s, 0)[j..j + 6] == "ASSETS"
    {
      FixFromCoversSegment(s, j);
    }
  }

  lemma FixFromCoversSegment(s: string, j: nat)
    requires AssetsAt(s, j)
    ensures j + 6 <= |s| && FixFrom(s, 0)[j..j + 6] == "ASSETS"
  {
    var m := MatchStart(s, j);
    FixFromCoversFrom(s, 0, m, j);
  }

  /** Case-insensitive matching does not see a change of case. */
  lemma MatchAtIgnoresCase(x: string, y: string, k: nat)
    requires |x| == |y| && k <= |x|
    requires forall i :: k <= i < |x| ==> AsciiLower(y[i]) == AsciiLower(x[i])
    ensures MatchAt(y, k) == MatchAt(x, k)
  {
    CiAtIgnoresCase(x, y, k, ThumbnailAssets);
    CiAtIgnoresCase(x, y, k, FilesAssets);
  }

  lemma CiAtIgnoresCase(x: string, y: string, k: nat, lit: string)
    requires |x| == |y| && k <= |x|
    requires forall i :: k <= i < |x| ==> AsciiLower(y[i]) == AsciiLower(x[i])
    ensures CiAt(y, k, lit) == CiAt(x, k, lit)
  {
    var n := |lit|;
    if k + n <= |x| {
      var fx, fy := FoldAscii(x[k..k + n]), FoldAscii(y[k..k + n]);
      forall i | 0 <= i < n
        ensures fy[i] == fx[i]
      {
        assert x[k..k + n][i] == x[k + i] && y[k..k + n][i] == y[k + i];
      }
      assert fx == fy;
    }
  }

  /** Scanning text that the scan from `k` has already produced, from the
      same position, changes nothing. */
  lemma {:induction false} FixFromStable(x: string, y: string, k: nat)
    requires |x| == |y| && k <= |x|
    requires forall i :: k <= i < |x| ==> AsciiLower(y[i]) == AsciiLower(x[i])
    requires y[k..] == FixFrom(x, k)
    ensures FixFrom(y, k) == y[k..]
    decreases |x| - k
  {
    if k < |x| {
      MatchAtIgnoresCase(x, y, k);
      var q := NextScan(x, k);
      FixFromStep(x, k);
      assert y[k..][q - k..] == y[q..];
      FixFromStable(x, y, q);
      StableStep(x, y, k);
    }
  }

  lemma {:induction false} StableStep(x: string, y: string, k: nat)
    requires |x| == |y| && k < |x|
    requires MatchAt(y, k) == MatchAt(x, k)
    requires y[k..] == FixFrom(x, k)
    requires FixFrom(y, NextScan(x, k)) == y[NextScan(x, k)..]
    ensures FixFrom(y, k) == y[k..]
  {
    match MatchAt(x, k)
    case Some(p) =>
      StableStepAtMatch(x, y, k, p);
    case None =>
      assert y[k..] == [y[k]] + y[k + 1..];
  }

  /** Where the pattern matches, the fixed text already holds `ASSETS`, so
      the fix rewrites it to itself. */
  lemma StableStepAtMatch(x: string, y: string, k: nat, p: nat)
    requires |x| == |y| && MatchAt(x, k) == Some(p) && MatchAt(y, k) == Some(p)
    requires y[k..] == FixFrom(x, k)
    requires FixFrom(y, k + p + 6) == y[k + p + 6..]
    ensures FixFrom(y, k) == y[k..]
  {
    MatchIsAssets(x, k, p);
    var rest := FixFrom(x, k + p + 6);
    assert y[k..] == x[k..k + p] + "ASSETS" + rest;
    SliceOfMiddle(x[k..k + p], "ASSETS", rest);
    SliceOfSlice(y, k, p, p + 6);
    SplitAt3(y, k, k + p, k + p + 6);
  }

  lemma SliceOfSlice(s: string, k: nat, a: nat, b: nat)
    requires a <= b && k + b <= |s|
    ensures s[k..][a..b] == s[k + a..k + b]
  {
  }

  lemma SplitAt3(s: string, a: nat, b: nat, c: nat)
    requires a <= b <= c <= |s|
    ensures s[a..] == s[a..b] + s[b..c] + s[c..]
  {
  }

  lemma AsciiLowerOfUpper(c: char)
    ensures AsciiLower(AsciiUpper(c)) == AsciiLower(c)
  {
  }

  /** Upper-casing the `assets` segment a second time changes nothing. */
  lemma EnsureAssetsSegmentUppercaseIdempotent(path: string)
    ensures EnsureAssetsSegmentUppercase(EnsureAssetsSegmentUppercase(path))
            == EnsureAssetsSegmentUppercase(path)
  {
    var r := EnsureAssetsSegmentUppercase(path);
    if path != [] {
      AssetsFixChangesOnlyAssets(path);
      forall i | 0 <= i < |path|
        ensures AsciiLower(r[i]) == AsciiLower(path[i])
      {
        AsciiLowerOfUpper(path[i]);
      }
      FixFromStable(path, r, 0);
      assert r[0..] == r;
    }
  }

  // --------------------------------------------------- the path rewriter

  /** `path.replace(/^\/+/, '')`: the path without its leading slashes. */
  function StripLeadingSlashes(path: string): (r: string)
    ensures |r| <= |path| && r == path[|path| - |r|..]
    ensures forall i :: 0 <= i < |path| - |r| ==> path[i] == '/'
    ensures r == [] || r[0] != '/'
  {
    if path != [] && path[0] == '/' then StripLeadingSlashes(path[1..]) else path
  }

  /** `/\.[^./]+$/.test(path)`: the path ends with a dot followed by at
      least one character that is neither a dot nor a slash. */
  predicate HasExtension(path: string)
  {
    var n := PlainSuffix(path);
    0 < n < |path| && path[|path| - n - 1] == '.'
  }

  predicate IsPlain(c: char)
  {
    c != '.' && c != '/'
  }

  /** How many characters at the end of `path` are neither `.` nor `/`. */
  function PlainSuffix(path: string): (n: nat)
    ensures n <= |path|
  {
    if path != [] && IsPlain(path[|path| - 1]) then 1 + PlainSuffix(path[..|path| - 1]) else 0
  }

  lemma {:induction false} PlainSuffixIsLongest(path: string)
    ensures var n := PlainSuffix(path);
      && (forall k :: |path| - n <= k < |path| ==> IsPlain(path[k]))
      && (n < |path| ==> !IsPlain(path[|path| - n - 1]))
  {
    if path != [] && IsPlain(path[|path| - 1]) {
      var init := path[..|path| - 1];
      PlainSuffixIsLongest(init);
      forall k | |path| - PlainSuffix(path) <= k < |path| - 1
        ensures IsPlain(path[k])
      {
        assert path[k] == init[k];
      }
    }
  }

  /** The regular expression matches where a dot at `i` is followed, up to
      the end, by one or more characters that are neither dots nor slashes. */
  ghost predicate ExtensionAt(path: string, i: int)
  {
    0 <= i < |path| - 1 && path[i] == '.' && forall k :: i < k < |path| ==> IsPlain(path[k])
  }

  /** `HasExtension` is the regular expression's test. */
  lemma HasExtensionMatchesPattern(path: string)
    ensures HasExtension(path) <==> exists i :: ExtensionAt(path, i)
  {
    PlainSuffixIsLongest(path);
    var n := PlainSuffix(path);
    if HasExtension(path) {
      assert ExtensionAt(path, |path| - n - 1);
    }
    if i :| ExtensionAt(path, i) {
      assert n == |path| - 1 - i;
    }
  }

  /** The path `insertThumbnailSegment` builds in each of its branches,
      before the assets fix every branch ends with. */
  function ThumbnailPath(path: string): string
  {
    if StartsWith(path, ThumbnailPrefix) then path
    else if StartsWith(path, FilesPrefix) then ReplaceFirst(path, FilesPrefix, ThumbnailPrefix)
    else
      var trimmedPath := StripLeadingSlashes(path);
      if StartsWith(trimmedPath, "api/files/thumbnail/") then
        EnsureLeadingSlash(trimmedPath)
      else if StartsWith(trimmedPath, "api/files/") then
        EnsureLeadingSlash(ReplaceFirst(trimmedPath, "api/files/", "api/files/thumbnail/"))
      else if HasExtension(trimmedPath) && !StartsWith(trimmedPath, "api/") then
        ThumbnailPrefix + trimmedPath
      else
        path
  }

  /** `insertThumbnailSegment`, the rewriter applied to relative paths. */
  function InsertThumbnailSegment(path: string): (r: string)
    ensures path == [] ==> r == []
  {
    if path == [] then path else EnsureAssetsSegmentUppercase(ThumbnailPath(path))
  }

  /** The rewriter's result is the branch's path, changed only in the case of
      its `assets` segments. */
  lemma InsertThumbnailSegmentFixesOnlyAssets(path: string)
    requires path != []
    ensures UpToAssetsCase(ThumbnailPath(path), InsertThumbnailSegment(path))
  {
    AssetsFixChangesOnlyAssets(ThumbnailPath(path));
  }

  // ------------------------------------------------- branch properties

  /** No character of `/api/files/thumbnail/` can begin an `assets` segment:
      its only `a`s are followed by `p` and `i`. */
  lemma ThumbnailPrefixHasNoAssets(d: int)
    requires 0 <= d < |ThumbnailPrefix|
    ensures AsciiUpper(ThumbnailPrefix[d]) == 'A' ==>
      d + 1 < |ThumbnailPrefix| && AsciiUpper(ThumbnailPrefix[d + 1]) != 'S'
  {
  }

  lemma OccursAtChar(x: string, pattern: string, o: nat, d: nat)
    requires OccursAt(x, pattern, o) && d < |pattern|
    ensures x[o + d] == pattern[d]
  {
    assert x[o..o + |pattern|][d] == x[o + d];
  }

  /** The characters of an `assets` segment upper-case to `ASSETS`. */
  lemma AssetsSegmentChar(x: string, j: int, d: nat)
    requires AssetsAt(x, j) && d < 6
    ensures j + d < |x| && AsciiUpper(x[j + d]) == "ASSETS"[d]
  {
    var m := MatchStart(x, j);
    MatchIsAssets(x, m, j - m);
    assert AsciiUpper(x[m + (j - m) + d]) == "ASSETS"[d];
  }

  /** `AssetsSegmentChar` stated for any `j`, for use where `AssetsAt(x, j)`
      is what is being refuted. */
  lemma AssetsSegmentCharIf(x: string, j: int, d: nat)
    requires d < 6
    ensures AssetsAt(x, j) ==> j + d < |x| && AsciiUpper(x[j + d]) == "ASSETS"[d]
  {
    if AssetsAt(x, j) {
      AssetsSegmentChar(x, j, d);
    }
  }

  /** Where `/api/files/thumbnail/` occurs at `o`, none of its characters lies
      in an `assets` segment. */
  lemma NoAssetsInThumbnailPrefix(x: string, o: nat, i: int)
    requires OccursAt(x, ThumbnailPrefix, o) && o <= i < o + |ThumbnailPrefix|
    ensures !InAssetsSegment(x, i)
  {
    forall j | j <= i < j + 6
      ensures !AssetsAt(x, j)
    {
      NoAssetsSegmentAt(x, o, i, j);
    }
  }

  /** An `assets` segment covering `i` would either start before `o`, and
      then cover the prefix's leading `/`, or start inside the prefix, at an
      `a` that is not followed by `s`. */
  lemma NoAssetsSegmentAt(x: string, o: nat, i: int, j: int)
    requires OccursAt(x, ThumbnailPrefix, o) && o <= i < o + |ThumbnailPrefix| && j <= i < j + 6
    ensures !AssetsAt(x, j)
  {
    if j < o {
      OccursAtChar(x, ThumbnailPrefix, o, 0);
      AssetsSegmentCharIf(x, j, o - j);
    } else {
      var d := j - o;
      OccursAtChar(x, ThumbnailPrefix, o, d);
      ThumbnailPrefixHasNoAssets(d);
      AssetsSegmentCharIf(x, j, 0);
      if d + 1 < |ThumbnailPrefix| {
        OccursAtChar(x, ThumbnailPrefix, o, d + 1);
        AssetsSegmentCharIf(x, j, 1);
      }
    }
  }

  /** The assets fix keeps every occurrence of `/api/files/thumbnail/`. */
  lemma UpToAssetsCaseKeepsThumbnailPrefix(x: string, y: string, o: nat)
    requires UpToAssetsCase(x, y) && OccursAt(x, ThumbnailPrefix, o)
    ensures OccursAt(y, ThumbnailPrefix, o)
  {
    forall i | o <= i < o + |ThumbnailPrefix|
      ensures y[i] == x[i]
    {
      NoAssetsInThumbnailPrefix(x, o, i);
    }
    assert y[o..o + |ThumbnailPrefix|] == x[o..o + |ThumbnailPrefix|];
  }

  lemma AssetsFixKeepsThumbnailStart(x: string)
    requires StartsWith(x, ThumbnailPrefix)
    ensures UpToAssetsCase(x, EnsureAssetsSegmentUppercase(x))
    ensures StartsWith(EnsureAssetsSegmentUppercase(x), ThumbnailPrefix)
  {
    AssetsFixChangesOnlyAssets(x);
    UpToAssetsCaseKeepsThumbnailPrefix(x, EnsureAssetsSegmentUppercase(x), 0);
  }

  /** Where the branch chosen for `path` gives a path under
      `/api/files/thumbnail/`, so does the rewriter, up to `assets` case. */
  lemma BranchResult(path: string, x: string)
    requires path != [] && ThumbnailPath(path) == x && StartsWith(x, ThumbnailPrefix)
    ensures var r := InsertThumbnailSegment(path);
      UpToAssetsCase(x, r) && StartsWith(r, ThumbnailPrefix)
  {
    AssetsFixKeepsThumbnailStart(x);
  }

  /** A path under `/api/files/thumbnail/` keeps its text except for the case
      of its `assets` segments. */
  lemma ThumbnailPathKept(path: string)
    requires StartsWith(path, ThumbnailPrefix)
    ensures var r := InsertThumbnailSegment(path);
      UpToAssetsCase(path, r) && StartsWith(r, ThumbnailPrefix)
  {
    AssetsFixKeepsThumbnailStart(path);
  }

  /** A path under `/api/files/` is moved under `/api/files/thumbnail/`. */
  lemma FilesPathMovedToThumbnail(path: string)
    requires !StartsWith(path, ThumbnailPrefix) && StartsWith(path, FilesPrefix)
    ensures var r := InsertThumbnailSegment(path);
      UpToAssetsCase(ThumbnailPrefix + path[|FilesPrefix|..], r) && StartsWith(r, ThumbnailPrefix)
  {
    ReplaceFirstAtStart(path, FilesPrefix, ThumbnailPrefix);
    AssetsFixKeepsThumbnailStart(ThumbnailPrefix + path[|FilesPrefix|..]);
  }

  /** `"/" + t` for a `t` that begins with `a`: the leading slash is added. */
  lemma SlashAdded(t: string)
    requires StartsWith(t, "api/")
    ensures EnsureLeadingSlash(t) == "/" + t
  {
    StartsWithChar(t, "api/", 0);
  }

  lemma SlashThenPrefix(t: string, p: string)
    requires StartsWith(t, p)
    ensures StartsWith("/" + t, "/" + p)
  {
    assert ("/" + t)[..|"/" + p|] == "/" + t[..|p|];
  }

  /** A path whose text after its leading slashes starts with
      `api/files/thumbnail/` gets exactly one leading slash. */
  lemma ApiThumbnailPathGetsOneSlash(path: string)
    requires !StartsWith(path, ThumbnailPrefix) && !StartsWith(path, FilesPrefix)
    requires StartsWith(StripLeadingSlashes(path), "api/files/thumbnail/")
    ensures var t, r := StripLeadingSlashes(path), InsertThumbnailSegment(path);
      UpToAssetsCase("/" + t, r) && StartsWith(r, ThumbnailPrefix)
  {
    var t := StripLeadingSlashes(path);
    ApiThumbnailBranch(path, t);
    SlashThenPrefix(t, "api/files/thumbnail/");
    ThumbnailPrefixIsSlashed();
    BranchResult(path, "/" + t);
  }

  lemma ApiThumbnailBranch(path: string, t: string)
    requires !StartsWith(path, ThumbnailPrefix) && !StartsWith(path, FilesPrefix)
    requires t == StripLeadingSlashes(path) && StartsWith(t, "api/files/thumbnail/")
    ensures ThumbnailPath(path) == "/" + t
  {
    StartsWithPrefixOf(t, "api/", "api/files/thumbnail/");
    SlashAdded(t);
  }

  /** A path whose text after its leading slashes starts with `api/files/`
      (and not `api/files/thumbnail/`) gets exactly one leading slash and
      `thumbnail/` inserted once. */
  lemma ApiFilesPathGetsThumbnail(path: string)
    requires !StartsWith(path, ThumbnailPrefix) && !StartsWith(path, FilesPrefix)
    requires var t := StripLeadingSlashes(path);
      StartsWith(t, "api/files/") && !StartsWith(t, "api/files/thumbnail/")
    ensures var t, r := StripLeadingSlashes(path), InsertThumbnailSegment(path);
      UpToAssetsCase(ThumbnailPrefix + t[10..], r) && StartsWith(r, ThumbnailPrefix)
  {
    var t := StripLeadingSlashes(path);
    ApiFilesBranch(path, t);
    StartsWithConcat(ThumbnailPrefix, t[10..]);
    BranchResult(path, ThumbnailPrefix + t[10..]);
  }

  lemma ApiFilesBranch(path: string, t: string)
    requires !StartsWith(path, ThumbnailPrefix) && !StartsWith(path, FilesPrefix)
    requires t == StripLeadingSlashes(path)
    requires StartsWith(t, "api/files/") && !StartsWith(t, "api/files/thumbnail/")
    ensures path != [] && ThumbnailPath(path) == ThumbnailPrefix + t[10..]
  {
    var rest := t[|"api/files/"|..];
    var moved := ReplaceFirst(t, "api/files/", "api/files/thumbnail/");
    ReplaceFirstAtStart(t, "api/files/", "api/files/thumbnail/");
    StartsWithConcat("api/files/thumbnail/", rest);
    StartsWithPrefixOf(moved, "api/", "api/files/thumbnail/");
    SlashAdded(moved);
    assert ThumbnailPath(path) == "/" + moved;
    Regroup2("/", "api/files/thumbnail/", rest);
    ThumbnailPrefixIsSlashed();
  }

  lemma ThumbnailPrefixIsSlashed()
    ensures "/" + "api/files/thumbnail/" == ThumbnailPrefix
  {
  }

  lemma Regroup2(a: string, b: string, c: string)
    ensures a + (b + c) == (a + b) + c
  {
  }

  /** A bare file name (its last segment has an extension, and it is not an
      `api/` path) is placed under `/api/files/thumbnail/`. */
  lemma FileNameMovedToThumbnail(path: string)
    requires !StartsWith(path, ThumbnailPrefix) && !StartsWith(path, FilesPrefix)
    requires var t := StripLeadingSlashes(path); HasExtension(t) && !StartsWith(t, "api/")
    ensures var t, r := StripLeadingSlashes(path), InsertThumbnailSegment(path);
      UpToAssetsCase(ThumbnailPrefix + t, r) && StartsWith(r, ThumbnailPrefix)
  {
    var t := StripLeadingSlashes(path);
    FileNameBranch(path, t);
    StartsWithConcat(ThumbnailPrefix, t);
    BranchResult(path, ThumbnailPrefix + t);
  }

  lemma FileNameBranch(path: string, t: string)
    requires !StartsWith(path, ThumbnailPrefix) && !StartsWith(path, FilesPrefix)
    requires t == StripLeadingSlashes(path) && HasExtension(t) && !StartsWith(t, "api/")
    ensures path != [] && ThumbnailPath(path) == ThumbnailPrefix + t
  {
    StartsWithPrefixOf(t, "api/", "api/files/thumbnail/");
    StartsWithPrefixOf(t, "api/", "api/files/");
  }

  /** Any other path is changed only by the assets fix. */
  lemma OtherPathOnlyAssetsFixed(path: string)
    requires !StartsWith(path, ThumbnailPrefix) && !StartsWith(path, FilesPrefix)
    requires var t := StripLeadingSlashes(path);
      !StartsWith(t, "api/files/") && !(HasExtension(t) && !StartsWith(t, "api/"))
    ensures UpToAssetsCase(path, InsertThumbnailSegment(path))
  {
    if path != [] {
      OtherBranch(path, StripLeadingSlashes(path));
      InsertThumbnailSegmentFixesOnlyAssets(path);
    }
  }

  lemma OtherBranch(path: string, t: string)
    requires !StartsWith(path, ThumbnailPrefix) && !StartsWith(path, FilesPrefix)
    requires t == StripLeadingSlashes(path)
    requires !StartsWith(t, "api/files/") && !(HasExtension(t) && !StartsWith(t, "api/"))
    ensures ThumbnailPath(path) == path
  {
    ApiFilesPrefixesThumbnail();
    StartsWithPrefixOf(t, "api/files/", "api/files/thumbnail/");
    assert !StartsWith(t, "api/files/thumbnail/");
  }

  lemma ApiFilesPrefixesThumbnail()
    ensures StartsWith("api/files/thumbnail/", "api/files/")
  {
  }

  // ------------------------------------------------------- the normaliser

  /** `normalizeFilePath`. The absolute-URL branch, which needs the URL
      parser and the API origin, is the parameter `absoluteBranch`. */
  function NormalizeFilePath(value: string, absoluteBranch: string -> string): (r: string)
    ensures value == [] || StartsWith(value, "data:") ==> r == value
  {
    if value == [] || StartsWith(value, "data:") then value
    else if IsAbsoluteUrl(value) then absoluteBranch(value)
    else if Contains(value, FilesPrefix) && !Contains(value, ThumbnailPrefix) then
      EnsureAssetsSegmentUppercase(ReplaceFirst(value, FilesPrefix, ThumbnailPrefix))
    else InsertThumbnailSegment(value)
  }

  /** A relative value holding `/api/files/` but not `/api/files/thumbnail/`
      has its first `/api/files/` replaced by `/api/files/thumbnail/`. */
  lemma FirstFilesPrefixReplaced(value: string, absoluteBranch: string -> string)
    requires value != [] && !IsAbsoluteUrl(value)
    requires Contains(value, FilesPrefix) && !Contains(value, ThumbnailPrefix)
    ensures var i, r := IndexOf(value, FilesPrefix).value, NormalizeFilePath(value, absoluteBranch);
      && UpToAssetsCase(value[..i] + ThumbnailPrefix + value[i + |FilesPrefix|..], r)
      && OccursAt(r, ThumbnailPrefix, i)
  {
    var i := IndexOf(value, FilesPrefix).value;
    var x := ReplaceFirst(value, FilesPrefix, ThumbnailPrefix);
    assert x == value[..i] + ThumbnailPrefix + value[i + |FilesPrefix|..];
    assert x[i..i + |ThumbnailPrefix|] == ThumbnailPrefix;
    AssetsFixChangesOnlyAssets(x);
    UpToAssetsCaseKeepsThumbnailPrefix(x, EnsureAssetsSegmentUppercase(x), i);
  }

  /** `resolveFileUrl`: `None` stands for both a missing value and a result of
      `undefined`; `join` is the resolution against the API base URL. */
  function ResolveFileUrl(input: Option<string>, absoluteBranch: string -> string, join: string -> string): (r: Option<string>)
    ensures input.None? ==> r.None?
  {
    match input
    case None => None
    case Some(s) =>
      var trimmed := Trim(s);
      if trimmed == [] then None
      else
        var normalized := NormalizeFilePath(trimmed, absoluteBranch);
        if IsAbsoluteUrl(normalized) then Some(normalized) else Some(join(normalized))
  }

  /** The resolver gives nothing exactly for a missing or blank input. */
  lemma ResolveFileUrlNoneIff(input: Option<string>, absoluteBranch: string -> string, join: string -> string)
    ensures ResolveFileUrl(input, absoluteBranch, join).None? <==> input.None? || AllWhitespace(input.value)
  {
    if input.Some? {
      TrimSpec(input.value);
    }
  }

  /** Whitespace around the input does not change what it resolves to. */
  lemma ResolveFileUrlIgnoresSurroundingWhitespace(s: string, absoluteBranch: string -> string, join: string -> string)
    ensures ResolveFileUrl(Some(s), absoluteBranch, join) == ResolveFileUrl(Some(Trim(s)), absoluteBranch, join)
  {
    TrimIdempotent(s);
  }

  /** A `data:` value is returned as it is, only trimmed. */
  lemma ResolveFileUrlKeepsDataUrls(s: string, absoluteBranch: string -> string, join: string -> string)
    requires StartsWith(Trim(s), "data:")
    ensures ResolveFileUrl(Some(s), absoluteBranch, join) == Some(Trim(s))
  {
  }

  /** A path that starts with one slash is relative, so the resolver joins it
      with the API base URL. */
  lemma RootPathIsRelative(v: string)
    requires StartsWith(v, "/") && !StartsWith(v, "//")
    ensures !IsAbsoluteUrl(v)
  {
  }

  /** Every path under `/api/files/thumbnail/` is relative. */
  lemma ThumbnailPathIsRelative(v: string)
    requires StartsWith(v, ThumbnailPrefix)
    ensures !IsAbsoluteUrl(v)
  {
    StartsWithChar(v, ThumbnailPrefix, 0);
    StartsWithChar(v, ThumbnailPrefix, 1);
    assert v[..1] == [v[0]] && v[..2] == [v[0], v[1]];
    RootPathIsRelative(v);
  }

  /** A scheme of ASCII letters followed by `://` makes a URL absolute. */
  lemma SchemeUrlIsAbsolute(scheme: string, rest: string)
    requires scheme != [] && forall i :: 0 <= i < |scheme| ==> IsAsciiLetter(scheme[i])
    ensures IsAbsoluteUrl(scheme + "://" + rest)
  {
    var v := scheme + "://" + rest;
    LeadingLettersOf(scheme, "://" + rest);
    assert v == scheme + ("://" + rest);
    assert v[|scheme|..] == "://" + rest;
  }

  lemma {:induction false} LeadingLettersOf(letters: string, rest: string)
    requires forall i :: 0 <= i < |letters| ==> IsAsciiLetter(letters[i])
    requires rest == [] || !IsAsciiLetter(rest[0])
    ensures LeadingLetters(letters + rest) == |letters|
  {
    if letters != [] {
      assert (letters + rest)[1..] == letters[1..] + rest;
      LeadingLettersOf(letters[1..], rest);
    }
  }
}
