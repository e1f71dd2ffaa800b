/**
 * The Android find cache (pathutil.go): a path-sorted list of every file of
 * the source tree and a leaf-ordered list of the directories holding the
 * build's leaf makefiles, from which the `find` invocations of the Android
 * build are answered without touching the file system; and the unescaping
 * of `$(wildcard)` patterns before they reach the glob matcher.
 *
 * Every finder hands its output to an `evalWriter` word by word; here each
 * returns the sequence of words it writes.
 */
module PathUtil {
  import opened Wrappers
  import opened StrUtil

  // ---------------------------------------------------------------------------
  // wildcardUnescape
  // ---------------------------------------------------------------------------

  /** The characters after which wildcardUnescape keeps the backslash. */
  predicate IsGlobMeta(c: char) {
    c == '*' || c == '?' || c == '[' || c == '\\'
  }

  /**
   * What wildcardUnescape writes for `pat`: a backslash before a glob
   * metacharacter or a backslash is written twice and the character after it
   * is then read afresh; a backslash before any other character is dropped
   * and that character written; everything else, a final lone backslash
   * included, is copied.
   */
  function Unescape(pat: String): (r: String)
    ensures |r| <= 2 * |pat|
  {
    if |pat| == 0 then []
    else if pat[0] == '\\' && |pat| > 1 then
      if IsGlobMeta(pat[1]) then ['\\', '\\'] + Unescape(pat[1..])
      else [pat[1]] + Unescape(pat[2..])
    else [pat[0]] + Unescape(pat[1..])
  }

  /** wildcardUnescape: the index loop with its manual skip past a dropped backslash. */
  method WildcardUnescape(pat: String) returns (r: String)
    ensures r == Unescape(pat)
  {
    r := [];
    var i := 0;
    while i < |pat|
      invariant 0 <= i <= |pat|
      invariant r + Unescape(pat[i..]) == Unescape(pat)
    {
      UnescapeAt(pat, i);
      if pat[i] == '\\' && i + 1 < |pat| {
        if IsGlobMeta(pat[i + 1]) {
          assert r + Unescape(pat[i..]) == (r + [pat[i]]) + [pat[i]] + Unescape(pat[i + 1..]);
          r := r + [pat[i]];
        } else {
          assert r + Unescape(pat[i..]) == r + [pat[i + 1]] + Unescape(pat[i + 2..]);
          i := i + 1;
        }
      } else {
        assert r + Unescape(pat[i..]) == r + [pat[i]] + Unescape(pat[i + 1..]);
      }
      r := r + [pat[i]];
      i := i + 1;
    }
    assert pat[i..] == [];
  }

  /** One step of Unescape at position `i`. */
  lemma UnescapeAt(pat: String, i: nat)
    requires i < |pat|
    ensures pat[i] == '\\' && i + 1 < |pat| && IsGlobMeta(pat[i + 1]) ==>
      Unescape(pat[i..]) == [pat[i], pat[i]] + Unescape(pat[i + 1..])
    ensures pat[i] == '\\' && i + 1 < |pat| && !IsGlobMeta(pat[i + 1]) ==>
      Unescape(pat[i..]) == [pat[i + 1]] + Unescape(pat[i + 2..])
    ensures !(pat[i] == '\\' && i + 1 < |pat|) ==>
      Unescape(pat[i..]) == [pat[i]] + Unescape(pat[i + 1..])
  {
    var rest := pat[i..];
    assert rest[1..] == pat[i + 1..];
    if i + 1 < |pat| {
      assert rest[2..] == pat[i + 2..];
    }
  }

  /** A pattern without a backslash comes back unchanged. */
  lemma {:induction false} UnescapeNoBackslash(pat: String)
    requires forall k :: 0 <= k < |pat| ==> pat[k] != '\\'
    ensures Unescape(pat) == pat
  {
    if |pat| > 0 {
      UnescapeNoBackslash(pat[1..]);
    }
  }

  /** Only backslashes are added or removed: every other character occurs as often as in the pattern. */
  lemma {:induction false} UnescapeKeepsOthers(pat: String, c: char)
    requires c != '\\'
    ensures Count(Unescape(pat), c) == Count(pat, c)
  {
    if |pat| > 0 {
      if pat[0] == '\\' && |pat| > 1 {
        if IsGlobMeta(pat[1]) {
          UnescapeKeepsOthers(pat[1..], c);
          CountAppend(['\\', '\\'], Unescape(pat[1..]), c);
        } else {
          UnescapeKeepsOthers(pat[2..], c);
          CountAppend([pat[1]], Unescape(pat[2..]), c);
          assert pat[1..][1..] == pat[2..];
        }
      } else {
        UnescapeKeepsOthers(pat[1..], c);
        CountAppend([pat[0]], Unescape(pat[1..]), c);
      }
    }
  }

  /** A glob pattern read as tokens: a character matched literally, or one of the metacharacters `*`, `?`, `[`. */
  datatype GlobTok = Lit(c: char) | Meta(c: char)

  predicate IsMetaChar(c: char) {
    c == '*' || c == '?' || c == '['
  }

  /**
   * How glob(3), which GNU make's wildcard relies on, reads a pattern: a
   * backslash quotes the character after it, and a final lone backslash
   * stands for itself.
   */
  function MakeGlobTokens(pat: String): seq<GlobTok> {
    if |pat| == 0 then []
    else if pat[0] == '\\' && |pat| > 1 then [Lit(pat[1])] + MakeGlobTokens(pat[2..])
    else if IsMetaChar(pat[0]) then [Meta(pat[0])] + MakeGlobTokens(pat[1..])
    else [Lit(pat[0])] + MakeGlobTokens(pat[1..])
  }

  /** Whether reading `pat` this way ends on a lone backslash. */
  predicate TrailingLone(pat: String) {
    if |pat| == 0 then false
    else if pat[0] == '\\' && |pat| > 1 then TrailingLone(pat[2..])
    else if |pat| == 1 then pat[0] == '\\'
    else TrailingLone(pat[1..])
  }

  /**
   * How Go's filepath.Match reads a pattern: the same, except that a final
   * lone backslash makes the pattern malformed.
   */
  function GoGlobTokens(g: String): Option<seq<GlobTok>> {
    if |g| == 0 then Some([])
    else if g[0] == '\\' then
      if |g| == 1 then None
      else match GoGlobTokens(g[2..])
        case None => None
        case Some(t) => Some([Lit(g[1])] + t)
    else match GoGlobTokens(g[1..])
      case None => None
      case Some(t) => Some([if IsMetaChar(g[0]) then Meta(g[0]) else Lit(g[0])] + t)
  }

  /**
   * As written, an escaped star reaches the Go matcher as an escaped
   * backslash followed by a live `*`: `\*` asks for a literal star but the
   * unescaped pattern asks for a backslash followed by anything.
   */
  lemma UnescapeTurnsEscapedStarIntoWildcard()
    ensures MakeGlobTokens("\\*") == [Lit('*')]
    ensures Unescape("\\*") == "\\\\*"
    ensures GoGlobTokens(Unescape("\\*")) == Some([Lit('\\'), Meta('*')])
  {
    assert Unescape("*") == "*";
    assert "\\\\*"[2..] == "*";
    assert "*"[1..] == [];
    var star: String := "*";
    var t := GoGlobTokens(star[1..]).value;
    assert t == [];
    assert GoGlobTokens(star) == Some([Meta('*')] + t);
    var g := Unescape("\\*");
    assert g[2..] == star;
    var u := GoGlobTokens(g[2..]).value;
    assert GoGlobTokens(g) == Some([Lit(g[1])] + u);
    assert u == [Meta('*')] && g[1] == '\\';
    assert [Lit(g[1])] + u == [Lit('\\'), Meta('*')];
  }

  /**
   * wildcardUnescape with the skip applied on both branches: an escape of a
   * metacharacter or backslash is copied as it stands, any other escape
   * reduced to its character.  The Go matcher then reads the same tokens as
   * glob(3) reads in the make pattern, except for a final lone backslash,
   * which both versions pass on and Go rejects.
   */
  function UnescapeFixed(pat: String): (r: String)
    ensures GoGlobTokens(r) == if TrailingLone(pat) then None else Some(MakeGlobTokens(pat))
  {
    if |pat| == 0 then []
    else if pat[0] == '\\' && |pat| > 1 then
      var rest := UnescapeFixed(pat[2..]);
      if IsGlobMeta(pat[1]) then
        assert (['\\', pat[1]] + rest)[2..] == rest;
        ['\\', pat[1]] + rest
      else
        assert ([pat[1]] + rest)[1..] == rest;
        [pat[1]] + rest
    else
      var rest := UnescapeFixed(pat[1..]);
      assert ([pat[0]] + rest)[1..] == rest;
      [pat[0]] + rest
  }

  // ---------------------------------------------------------------------------
  // Entries of the cache and the path helpers they are compared by
  // ---------------------------------------------------------------------------

  /** The type bits of an os.FileMode: directory, symbolic link, or any other non-regular kind. */
  datatype FileMode = FileMode(isDir: bool, isSymlink: bool, isOtherType: bool)

  /** os.FileMode.IsRegular: no type bit set. */
  predicate IsRegular(m: FileMode) {
    !m.isDir && !m.isSymlink && !m.isOtherType
  }

  /** fileInfo: a path of the tree and its mode. */
  datatype FileInfo = FileInfo(path: String, mode: FileMode)

  /** The position of the last slash of `p`. */
  function LastSlash(p: String): (r: Option<nat>)
    ensures r.Some? ==> r.value < |p| && p[r.value] == '/' && forall k :: r.value < k < |p| ==> p[k] != '/'
    ensures r.None? ==> forall k :: 0 <= k < |p| ==> p[k] != '/'
  {
    if |p| == 0 then None
    else if p[|p| - 1] == '/' then Some(|p| - 1)
    else LastSlash(p[..|p| - 1])
  }

  /** filepath.Base of a cleaned path: what follows the last slash. */
  function Base(p: String): (r: String)
    ensures |p| > 0 && p != "/" ==> HasSuffix(p, r) && forall k :: 0 <= k < |r| ==> r[k] != '/'
  {
    if |p| == 0 then "."
    else if p == "/" then "/"
    else match LastSlash(p)
      case None => p
      case Some(k) => p[k + 1..]
  }

  /** filepath.Dir of a cleaned path: what precedes the last slash, "." when there is none. */
  function Dir(p: String): (r: String)
    ensures r == "." || r == "/" || HasPrefix(p, r + "/")
  {
    match LastSlash(p)
    case None => "."
    case Some(k) =>
      if k == 0 then "/"
      else
        assert p[..k + 1] == p[..k] + "/";
        p[..k]
  }

  /** filepath.Ext: the suffix from the last dot of the final element, or nothing. */
  function Ext(p: String): (r: String)
    ensures r == [] || (HasSuffix(p, r) && r[0] == '.' && forall k :: 1 <= k < |r| ==> r[k] != '.' && r[k] != '/')
  {
    if |p| == 0 || p[|p| - 1] == '/' then []
    else if p[|p| - 1] == '.' then ['.']
    else
      var e := Ext(p[..|p| - 1]);
      if e == [] then []
      else
        assert p[|p| - |e| - 1..] == p[..|p| - 1][|p| - 1 - |e|..] + [p[|p| - 1]];
        e + [p[|p| - 1]]
  }

  // ---------------------------------------------------------------------------
  // The two orders the cache is sorted by
  // ---------------------------------------------------------------------------

  /** fileInfoByName.Less: byte order of the paths. */
  predicate NameLess(a: FileInfo, b: FileInfo) {
    Less(a.path, b.path)
  }

  /** The file list as sort.Sort(fileInfoByName) leaves it. */
  predicate NameSorted(files: seq<FileInfo>) {
    forall i, j :: 0 <= i < j < |files| ==> !NameLess(files[j], files[i])
  }

  /**
   * fileInfoByLeaf.Less: fewer slashes first; then by the directory part
   * with a slash appended; then files before directories; then by path.
   */
  predicate LeafLess(a: FileInfo, b: FileInfo) {
    var di, dj := Count(a.path, '/'), Count(b.path, '/');
    if di != dj then di < dj
    else
      var diri, dirj := Dir(a.path) + "/", Dir(b.path) + "/";
      if diri != dirj then Less(diri, dirj)
      else if a.mode.isDir != b.mode.isDir then !a.mode.isDir
      else Less(a.path, b.path)
  }

  /** The leaf ordering is irreflexive. */
  lemma LeafLessIrreflexive(a: FileInfo)
    ensures !LeafLess(a, a)
  {
    LessIrreflexive(a.path);
  }

  /** The leaf ordering is asymmetric. */
  lemma LeafLessAsymmetric(a: FileInfo, b: FileInfo)
    ensures LeafLess(a, b) ==> !LeafLess(b, a)
  {
    LessAsymmetric(Dir(a.path) + "/", Dir(b.path) + "/");
    LessAsymmetric(a.path, b.path);
  }

  /** The leaf ordering is transitive, so it is a strict order sort.Sort can use. */
  lemma LeafLessTransitive(a: FileInfo, b: FileInfo, c: FileInfo)
    requires LeafLess(a, b) && LeafLess(b, c)
    ensures LeafLess(a, c)
  {
    var da, db, dc := Dir(a.path) + "/", Dir(b.path) + "/", Dir(c.path) + "/";
    if Count(a.path, '/') == Count(b.path, '/') == Count(c.path, '/') {
      if da != db && db != dc {
        LessTransitive(da, db, dc);
        LessIrreflexive(da);
      } else if da == db && db == dc {
        if a.mode.isDir == b.mode.isDir == c.mode.isDir {
          LessTransitive(a.path, b.path, c.path);
        }
      } else if da != db {
        LessIrreflexive(da);
      } else {
        LessIrreflexive(db);
      }
    }
  }

  /** Two entries that differ in path or in being a directory are ordered one way or the other. */
  lemma LeafLessTotal(a: FileInfo, b: FileInfo)
    ensures (a.path == b.path && a.mode.isDir == b.mode.isDir) || LeafLess(a, b) || LeafLess(b, a)
  {
    LessTotal(Dir(a.path) + "/", Dir(b.path) + "/");
    LessTotal(a.path, b.path);
  }

  // ---------------------------------------------------------------------------
  // sort.Search
  // ---------------------------------------------------------------------------

  /** `f` switches from false to true at most once on [0, n). */
  predicate Monotone(f: nat -> bool, n: nat) {
    forall i: nat, j: nat :: i <= j < n && f(i) ==> f(j)
  }

  /** The probe of sort.Search in [lo, hi): the middle, rounded down. */
  function Mid(lo: nat, hi: nat): (h: nat)
    requires lo < hi
    ensures lo <= h < hi
  {
    lo + (hi - lo) / 2
  }

  /**
   * The index sort.Search settles on within [lo, hi): it probes the middle,
   * going right of it when `f` is false there and left otherwise.
   */
  function SearchFrom(lo: nat, hi: nat, f: nat -> bool): (r: nat)
    requires lo <= hi
    ensures lo <= r <= hi
    decreases hi - lo
  {
    if lo == hi then lo
    else
      var h := Mid(lo, hi);
      if !f(h) then SearchFrom(h + 1, hi, f) else SearchFrom(lo, h, f)
  }

  /** The binary search settles on a switch point of `f` when [lo, hi) lies between two of its sides. */
  lemma {:induction false} SearchFromSwitch(lo: nat, hi: nat, n: nat, f: nat -> bool)
    requires lo <= hi <= n
    requires hi < n ==> f(hi)
    requires 0 < lo ==> !f(lo - 1)
    ensures SearchFrom(lo, hi, f) < n ==> f(SearchFrom(lo, hi, f))
    ensures 0 < SearchFrom(lo, hi, f) ==> !f(SearchFrom(lo, hi, f) - 1)
    decreases hi - lo
  {
    if lo < hi {
      var h := Mid(lo, hi);
      if !f(h) {
        SearchFromSwitch(h + 1, hi, n, f);
      } else {
        SearchFromSwitch(lo, h, n, f);
      }
    }
  }

  /**
   * sort.Search: the binary search for an index where `f` turns true.  Even
   * for an `f` that is not monotone the result is a switch point; for a
   * monotone one it is the first index where `f` holds, or `n`.
   */
  method Search(n: nat, f: nat -> bool) returns (r: nat)
    ensures r <= n
    ensures r < n ==> f(r)
    ensures 0 < r ==> !f(r - 1)
    ensures Monotone(f, n) ==> forall k: nat :: k < r ==> !f(k)
    ensures r == SearchFrom(0, n, f)
  {
    var lo, hi := 0, n;
    while lo < hi
      invariant 0 <= lo <= hi <= n
      invariant SearchFrom(lo, hi, f) == SearchFrom(0, n, f)
    {
      var h := Mid(lo, hi);
      if !f(h) {
        lo := h + 1;
      } else {
        hi := h;
      }
    }
    r := lo;
    SearchFromSwitch(0, n, n, f);
    if Monotone(f, n) {
      forall k: nat | k < r ensures !f(k) {
        assert k <= r - 1 < n;
      }
    }
  }

  /** The first index whose path is not below `dir` in byte order, or |files|. */
  function LowerBound(files: seq<FileInfo>, dir: String): (r: nat)
    ensures r <= |files|
    ensures forall k :: 0 <= k < r ==> Less(files[k].path, dir)
    ensures r < |files| ==> !Less(files[r].path, dir)
  {
    if |files| == 0 || !Less(files[0].path, dir) then 0
    else
      var r := 1 + LowerBound(files[1..], dir);
      assert forall k :: 1 <= k < r ==> files[k] == files[1..][k - 1];
      r
  }

  /** The lower bound is the only index before which every path is below `dir` and at which none is. */
  lemma {:induction false} LowerBoundUnique(files: seq<FileInfo>, dir: String, r: nat)
    requires r <= |files| && (r < |files| ==> !Less(files[r].path, dir))
    requires forall k :: 0 <= k < r ==> Less(files[k].path, dir)
    ensures r == LowerBound(files, dir)
  {
    if |files| > 0 && Less(files[0].path, dir) {
      forall k | 0 <= k < r - 1 ensures Less(files[1..][k].path, dir) {
        assert files[1..][k] == files[k + 1];
      }
      LowerBoundUnique(files[1..], dir, r - 1);
    }
  }

  /** a <= b <= c in byte order gives a <= c. */
  lemma NotLessTransitive(a: String, b: String, c: String)
    requires !Less(b, a) && !Less(c, b)
    ensures !Less(c, a)
  {
    LessTotal(b, c);
    if Less(c, a) && Less(b, c) {
      LessTransitive(b, c, a);
    }
  }

  /** A proper prefix sorts before the longer string. */
  lemma {:induction false} PrefixLess(s: String, p: String)
    requires HasPrefix(s, p) && |p| < |s|
    ensures Less(p, s)
  {
    if |p| > 0 {
      assert s[1..][..|p| - 1] == p[1..];
      PrefixLess(s[1..], p[1..]);
    }
  }

  /** A string that sorts between `p` and a string starting with `p` also starts with `p`. */
  lemma {:induction false} BetweenKeepsPrefix(p: String, a: String, b: String)
    requires !Less(a, p) && !Less(b, a) && HasPrefix(b, p)
    ensures HasPrefix(a, p)
  {
    if |p| > 0 {
      assert a[0] == p[0];
      assert b[1..][..|p| - 1] == p[1..];
      BetweenKeepsPrefix(p[1..], a[1..], b[1..]);
      assert a[..|p|] == [a[0]] + a[1..][..|p| - 1];
    }
  }

  /**
   * In a path-sorted list the entries starting with `dir` form one block,
   * beginning at the lower bound of `dir`.
   */
  lemma SortedPrefixBlock(files: seq<FileInfo>, dir: String, k: nat)
    requires NameSorted(files) && k < |files| && HasPrefix(files[k].path, dir)
    ensures LowerBound(files, dir) <= k
    ensures forall m :: LowerBound(files, dir) <= m <= k ==> HasPrefix(files[m].path, dir)
  {
    var lb := LowerBound(files, dir);
    PrefixNotLess(files[k].path, dir);
    forall m | lb <= m <= k ensures HasPrefix(files[m].path, dir) {
      if m > lb {
        NotLessTransitive(dir, files[lb].path, files[m].path);
      }
      if m < k {
        assert !Less(files[k].path, files[m].path);
      } else {
        LessIrreflexive(files[k].path);
      }
      BetweenKeepsPrefix(dir, files[m].path, files[k].path);
    }
  }

  // ---------------------------------------------------------------------------
  // walk
  // ---------------------------------------------------------------------------

  /** What a walk callback may return besides nil: errSkipDir, or any other error. */
  datatype WalkErr = SkipDir | Failed(msg: String)

  /** A walk callback: given an index of the file list and its entry, nil or an error. */
  type WalkFn = (nat, FileInfo) -> Option<WalkErr>

  /** The indices the walk called its callback on, in order, and the error it returned. */
  datatype Walked = Walked(visited: seq<nat>, err: Option<WalkErr>)

  /** `p` is `dir` itself or lies below it. */
  predicate Under(p: String, dir: String) {
    p == dir || HasPrefix(p, dir + "/")
  }

  /** `p` lies below one of the skipped directories. */
  predicate PrunedBy(p: String, skips: seq<String>) {
    exists s :: s in skips && HasPrefix(p, s + "/")
  }

  predicate Increasing(vs: seq<nat>) {
    forall a, b :: 0 <= a < b < |vs| ==> vs[a] < vs[b]
  }

  function Prepend(v: nat, w: Walked): Walked {
    Walked([v] + w.visited, w.err)
  }

  lemma IncreasingCons(v: nat, vs: seq<nat>)
    requires Increasing(vs) && forall u :: u in vs ==> v < u
    ensures Increasing([v] + vs)
  {
    var ws := [v] + vs;
    forall a, b | 0 <= a < b < |ws| ensures ws[a] < ws[b] {
      assert ws[b] == vs[b - 1] && vs[b - 1] in vs;
      if a > 0 {
        assert ws[a] == vs[a - 1];
      }
    }
  }

  /**
   * The walk from index `i` on, with `skips` the directories skipped so far:
   * an entry equal to `dir` is always passed to the callback; the first entry
   * not starting with `dir` ends the walk; entries starting with `dir` but
   * not with `dir + "/"`, or lying below a skipped directory, are passed
   * over; errSkipDir from any other entry adds it to the skipped
   * directories; any other error ends the walk and is returned.
   */
  function WalkFrom(files: seq<FileInfo>, dir: String, walkFn: WalkFn, i: nat, skips: seq<String>): Walked
    decreases |files| - i
  {
    if i >= |files| then Walked([], None)
    else
      var p := files[i].path;
      if p == dir then
        match walkFn(i, files[i])
        case Some(e) => Walked([i], Some(e))
        case None => Prepend(i, WalkFrom(files, dir, walkFn, i + 1, skips))
      else if !HasPrefix(p, dir) then Walked([], None)
      else if !HasPrefix(p, dir + "/") || PrunedBy(p, skips) then WalkFrom(files, dir, walkFn, i + 1, skips)
      else match walkFn(i, files[i])
        case Some(SkipDir) => Prepend(i, WalkFrom(files, dir, walkFn, i + 1, skips + [p]))
        case Some(e) => Walked([i], Some(e))
        case None => Prepend(i, WalkFrom(files, dir, walkFn, i + 1, skips))
  }

  /** The whole walk: from the lower bound of `dir`, nothing skipped yet. */
  function WalkSpec(files: seq<FileInfo>, dir: String, walkFn: WalkFn): Walked {
    WalkFrom(files, dir, walkFn, LowerBound(files, dir), [])
  }

  /**
   * The callback sees entries in list order, each at most once, each `dir`
   * itself or below it, and none after the first entry that does not start
   * with `dir`.
   */
  lemma {:induction false} WalkStaysUnder(files: seq<FileInfo>, dir: String, walkFn: WalkFn, i: nat, skips: seq<String>)
    ensures var w := WalkFrom(files, dir, walkFn, i, skips);
      Increasing(w.visited) &&
      forall v :: v in w.visited ==>
        i <= v < |files| && Under(files[v].path, dir) &&
        forall m :: i <= m < v ==> HasPrefix(files[m].path, dir)
    decreases |files| - i, 1
  {
    if i < |files| {
      var p := files[i].path;
      assert HasPrefix(dir, dir) by {
        assert dir[..|dir|] == dir;
      }
      if p == dir {
        if walkFn(i, files[i]).None? {
          WalkStaysUnder(files, dir, walkFn, i + 1, skips);
          IncreasingCons(i, WalkFrom(files, dir, walkFn, i + 1, skips).visited);
        }
      } else if !HasPrefix(p, dir) {
      } else if !HasPrefix(p, dir + "/") || PrunedBy(p, skips) {
        WalkStaysUnder(files, dir, walkFn, i + 1, skips);
      } else {
        WalkStaysUnderBelow(files, dir, walkFn, i, skips);
      }
    }
  }

  /** WalkStaysUnder at an entry strictly below `dir` that the callback sees. */
  lemma {:induction false} WalkStaysUnderBelow(files: seq<FileInfo>, dir: String, walkFn: WalkFn, i: nat, skips: seq<String>)
    requires i < |files| && files[i].path != dir && HasPrefix(files[i].path, dir)
    requires HasPrefix(files[i].path, dir + "/") && !PrunedBy(files[i].path, skips)
    ensures var w := WalkFrom(files, dir, walkFn, i, skips);
      Increasing(w.visited) &&
      forall v :: v in w.visited ==>
        i <= v < |files| && Under(files[v].path, dir) &&
        forall m :: i <= m < v ==> HasPrefix(files[m].path, dir)
    decreases |files| - i, 0
  {
    var p := files[i].path;
    match walkFn(i, files[i])
    case Some(SkipDir) =>
      WalkStaysUnder(files, dir, walkFn, i + 1, skips + [p]);
      IncreasingCons(i, WalkFrom(files, dir, walkFn, i + 1, skips + [p]).visited);
    case Some(e) =>
    case None =>
      WalkStaysUnder(files, dir, walkFn, i + 1, skips);
      IncreasingCons(i, WalkFrom(files, dir, walkFn, i + 1, skips).visited);
  }

  /** The callback answered errSkipDir for entry `v`, which is not `dir` itself. */
  predicate SkippedAt(files: seq<FileInfo>, dir: String, walkFn: WalkFn, v: nat) {
    v < |files| && walkFn(v, files[v]) == Some(SkipDir) && files[v].path != dir
  }

  lemma UnderHasPrefix(p: String, dir: String)
    requires Under(p, dir)
    ensures HasPrefix(p, dir)
  {
    if p == dir {
      assert p[..|dir|] == dir;
    } else {
      assert p[..|dir|] == (dir + "/")[..|dir|];
    }
  }

  lemma PrunedByMore(p: String, skips: seq<String>, s: String)
    requires PrunedBy(p, skips)
    ensures PrunedBy(p, skips + [s])
  {
    var t :| t in skips && HasPrefix(p, t + "/");
    assert t in skips + [s];
  }

  /** No entry below a directory skipped before the walk got to `i` reaches the callback. */
  lemma {:induction false} WalkAvoidsSkips(files: seq<FileInfo>, dir: String, walkFn: WalkFn, i: nat, skips: seq<String>)
    ensures var w := WalkFrom(files, dir, walkFn, i, skips);
      forall v :: v in w.visited && v < |files| && files[v].path != dir ==> !PrunedBy(files[v].path, skips)
    decreases |files| - i
  {
    if i < |files| {
      var p := files[i].path;
      if p == dir {
        if walkFn(i, files[i]).None? {
          WalkAvoidsSkips(files, dir, walkFn, i + 1, skips);
        }
      } else if !HasPrefix(p, dir) {
      } else if !HasPrefix(p, dir + "/") || PrunedBy(p, skips) {
        WalkAvoidsSkips(files, dir, walkFn, i + 1, skips);
      } else {
        match walkFn(i, files[i])
        case Some(SkipDir) =>
          WalkAvoidsSkips(files, dir, walkFn, i + 1, skips + [p]);
          var w := WalkFrom(files, dir, walkFn, i, skips);
          forall v | v in w.visited && v < |files| && files[v].path != dir ensures !PrunedBy(files[v].path, skips) {
            if v != i && PrunedBy(files[v].path, skips) {
              PrunedByMore(files[v].path, skips, p);
            }
          }
        case Some(e) =>
        case None =>
          WalkAvoidsSkips(files, dir, walkFn, i + 1, skips);
      }
    }
  }

  /**
   * Once the callback has answered errSkipDir for an entry below `dir`, no
   * later entry below that entry's path plus a slash reaches the callback.
   */
  lemma {:induction false} WalkPrunes(files: seq<FileInfo>, dir: String, walkFn: WalkFn, i: nat, skips: seq<String>)
    ensures var w := WalkFrom(files, dir, walkFn, i, skips);
      forall u, v :: u in w.visited && v in w.visited && u < v && SkippedAt(files, dir, walkFn, u) && v < |files| ==>
        !HasPrefix(files[v].path, files[u].path + "/")
    decreases |files| - i, 2
  {
    if i < |files| {
      var p := files[i].path;
      if p == dir {
        if walkFn(i, files[i]).None? {
          WalkPrunes(files, dir, walkFn, i + 1, skips);
          WalkStaysUnder(files, dir, walkFn, i + 1, skips);
        }
      } else if !HasPrefix(p, dir) {
      } else if !HasPrefix(p, dir + "/") || PrunedBy(p, skips) {
        WalkPrunes(files, dir, walkFn, i + 1, skips);
      } else {
        WalkPrunesBelow(files, dir, walkFn, i, skips);
      }
    }
  }

  /** WalkPrunes at an entry strictly below `dir` that the callback sees. */
  lemma {:induction false} WalkPrunesBelow(files: seq<FileInfo>, dir: String, walkFn: WalkFn, i: nat, skips: seq<String>)
    requires i < |files| && files[i].path != dir && HasPrefix(files[i].path, dir)
    requires HasPrefix(files[i].path, dir + "/") && !PrunedBy(files[i].path, skips)
    ensures var w := WalkFrom(files, dir, walkFn, i, skips);
      forall u, v :: u in w.visited && v in w.visited && u < v && SkippedAt(files, dir, walkFn, u) && v < |files| ==>
        !HasPrefix(files[v].path, files[u].path + "/")
    decreases |files| - i, 1
  {
    match walkFn(i, files[i])
    case Some(SkipDir) =>
      WalkPrunesSkipped(files, dir, walkFn, i, skips);
    case Some(e) =>
    case None =>
      WalkPrunes(files, dir, walkFn, i + 1, skips);
      WalkStaysUnder(files, dir, walkFn, i + 1, skips);
  }

  /** WalkPrunes at an entry below `dir` for which the callback answers errSkipDir. */
  lemma {:induction false} WalkPrunesSkipped(files: seq<FileInfo>, dir: String, walkFn: WalkFn, i: nat, skips: seq<String>)
    requires i < |files| && files[i].path != dir && HasPrefix(files[i].path, dir)
    requires HasPrefix(files[i].path, dir + "/") && !PrunedBy(files[i].path, skips)
    requires walkFn(i, files[i]) == Some(SkipDir)
    ensures var w := WalkFrom(files, dir, walkFn, i, skips);
      forall u, v :: u in w.visited && v in w.visited && u < v && SkippedAt(files, dir, walkFn, u) && v < |files| ==>
        !HasPrefix(files[v].path, files[u].path + "/")
    decreases |files| - i, 0
  {
    var p := files[i].path;
    var skips' := skips + [p];
    WalkPrunes(files, dir, walkFn, i + 1, skips');
    WalkAvoidsSkips(files, dir, walkFn, i + 1, skips');
    WalkStaysUnder(files, dir, walkFn, i + 1, skips');
    var rest := WalkFrom(files, dir, walkFn, i + 1, skips');
    var w := WalkFrom(files, dir, walkFn, i, skips);
    assert w.visited == [i] + rest.visited;
    forall v | v in rest.visited && v < |files| ensures !HasPrefix(files[v].path, p + "/") {
      if files[v].path != dir {
        assert p in skips' && !PrunedBy(files[v].path, skips');
      } else {
        assert |p + "/"| > |dir| by {
          assert HasPrefix(p, dir + "/");
        }
      }
    }
    forall u, v | u in w.visited && v in w.visited && u < v && SkippedAt(files, dir, walkFn, u) && v < |files|
      ensures !HasPrefix(files[v].path, files[u].path + "/")
    {
      assert v in rest.visited;
    }
  }

  /**
   * A walk ends with an error only right after the callback returned it, and
   * returns it unchanged; errSkipDir comes back only when it was the answer
   * for `dir` itself.
   */
  lemma {:induction false} WalkErrorIsLast(files: seq<FileInfo>, dir: String, walkFn: WalkFn, i: nat, skips: seq<String>)
    ensures var w := WalkFrom(files, dir, walkFn, i, skips);
      w.err.Some? ==>
        |w.visited| > 0 && w.visited[|w.visited| - 1] < |files| &&
        walkFn(w.visited[|w.visited| - 1], files[w.visited[|w.visited| - 1]]) == w.err &&
        (w.err == Some(SkipDir) ==> files[w.visited[|w.visited| - 1]].path == dir)
    decreases |files| - i, 1
  {
    if i < |files| {
      var p := files[i].path;
      if p == dir {
        if walkFn(i, files[i]).None? {
          var rest := WalkFrom(files, dir, walkFn, i + 1, skips);
          assert WalkFrom(files, dir, walkFn, i, skips) == Prepend(i, rest);
          WalkErrorIsLast(files, dir, walkFn, i + 1, skips);
          LastOfPrepend(i, rest);
        }
      } else if !HasPrefix(p, dir) {
      } else if !HasPrefix(p, dir + "/") || PrunedBy(p, skips) {
        WalkErrorIsLast(files, dir, walkFn, i + 1, skips);
      } else {
        WalkErrorIsLastBelow(files, dir, walkFn, i, skips);
      }
    }
  }

  /** WalkErrorIsLast at an entry strictly below `dir` that the callback sees. */
  lemma {:induction false} WalkErrorIsLastBelow(files: seq<FileInfo>, dir: String, walkFn: WalkFn, i: nat, skips: seq<String>)
    requires i < |files| && files[i].path != dir && HasPrefix(files[i].path, dir)
    requires HasPrefix(files[i].path, dir + "/") && !PrunedBy(files[i].path, skips)
    ensures var w := WalkFrom(files, dir, walkFn, i, skips);
      w.err.Some? ==>
        |w.visited| > 0 && w.visited[|w.visited| - 1] < |files| &&
        walkFn(w.visited[|w.visited| - 1], files[w.visited[|w.visited| - 1]]) == w.err &&
        (w.err == Some(SkipDir) ==> files[w.visited[|w.visited| - 1]].path == dir)
    decreases |files| - i, 0
  {
    var p := files[i].path;
    match walkFn(i, files[i])
    case Some(SkipDir) =>
      WalkErrorIsLast(files, dir, walkFn, i + 1, skips + [p]);
      LastOfPrepend(i, WalkFrom(files, dir, walkFn, i + 1, skips + [p]));
    case Some(e) =>
    case None =>
      WalkErrorIsLast(files, dir, walkFn, i + 1, skips);
      LastOfPrepend(i, WalkFrom(files, dir, walkFn, i + 1, skips));
  }

  /** Every callback before the one that ended the walk answered nil or errSkipDir for an entry other than `dir`. */
  lemma {:induction false} WalkEarlierAnswers(files: seq<FileInfo>, dir: String, walkFn: WalkFn, i: nat, skips: seq<String>)
    ensures var w := WalkFrom(files, dir, walkFn, i, skips);
      forall v :: v in w.visited && v < |files| && (w.err.None? || v < w.visited[|w.visited| - 1]) ==>
        walkFn(v, files[v]) == None || SkippedAt(files, dir, walkFn, v)
    decreases |files| - i, 1
  {
    if i < |files| {
      var p := files[i].path;
      if p == dir {
        if walkFn(i, files[i]).None? {
          WalkEarlierAnswers(files, dir, walkFn, i + 1, skips);
          LastOfPrepend(i, WalkFrom(files, dir, walkFn, i + 1, skips));
        }
      } else if !HasPrefix(p, dir) {
      } else if !HasPrefix(p, dir + "/") || PrunedBy(p, skips) {
        WalkEarlierAnswers(files, dir, walkFn, i + 1, skips);
      } else {
        WalkEarlierAnswersBelow(files, dir, walkFn, i, skips);
      }
    }
  }

  /** WalkEarlierAnswers at an entry strictly below `dir` that the callback sees. */
  lemma {:induction false} WalkEarlierAnswersBelow(files: seq<FileInfo>, dir: String, walkFn: WalkFn, i: nat, skips: seq<String>)
    requires i < |files| && files[i].path != dir && HasPrefix(files[i].path, dir)
    requires HasPrefix(files[i].path, dir + "/") && !PrunedBy(files[i].path, skips)
    ensures var w := WalkFrom(files, dir, walkFn, i, skips);
      forall v :: v in w.visited && v < |files| && (w.err.None? || v < w.visited[|w.visited| - 1]) ==>
        walkFn(v, files[v]) == None || SkippedAt(files, dir, walkFn, v)
    decreases |files| - i, 0
  {
    var p := files[i].path;
    match walkFn(i, files[i])
    case Some(SkipDir) =>
      WalkEarlierAnswers(files, dir, walkFn, i + 1, skips + [p]);
      LastOfPrepend(i, WalkFrom(files, dir, walkFn, i + 1, skips + [p]));
    case Some(e) =>
    case None =>
      WalkEarlierAnswers(files, dir, walkFn, i + 1, skips);
      LastOfPrepend(i, WalkFrom(files, dir, walkFn, i + 1, skips));
  }

  lemma LastOfPrepend(v: nat, w: Walked)
    ensures |w.visited| > 0 ==> Prepend(v, w).visited[|w.visited|] == w.visited[|w.visited| - 1]
  {
  }

  /**
   * Every entry at or below `dir` before the cut-off that the callback never
   * saw was passed over for a reason: it lies below a skipped directory, or
   * the walk had already ended with an error.
   */
  lemma {:induction false} WalkComplete(files: seq<FileInfo>, dir: String, walkFn: WalkFn, i: nat, skips: seq<String>, k: nat)
    requires i <= k < |files|
    requires forall m :: i <= m <= k ==> HasPrefix(files[m].path, dir)
    requires Under(files[k].path, dir)
    requires k !in WalkFrom(files, dir, walkFn, i, skips).visited
    ensures var w := WalkFrom(files, dir, walkFn, i, skips);
      (w.err.Some? && |w.visited| > 0 && w.visited[|w.visited| - 1] < k) ||
      (files[k].path != dir &&
        (PrunedBy(files[k].path, skips) ||
         exists v :: v in w.visited && v < k && SkippedAt(files, dir, walkFn, v) && HasPrefix(files[k].path, files[v].path + "/")))
    decreases |files| - i, 1
  {
    var p := files[i].path;
    var w := WalkFrom(files, dir, walkFn, i, skips);
    assert HasPrefix(p, dir);
    if p == dir {
      if walkFn(i, files[i]).None? {
        WalkComplete(files, dir, walkFn, i + 1, skips, k);
        var rest := WalkFrom(files, dir, walkFn, i + 1, skips);
        assert w.visited == [i] + rest.visited;
      }
    } else if !HasPrefix(p, dir + "/") || PrunedBy(p, skips) {
      if k > i {
        WalkComplete(files, dir, walkFn, i + 1, skips, k);
      }
    } else {
      match walkFn(i, files[i])
      case Some(SkipDir) =>
        WalkCompleteSkipped(files, dir, walkFn, i, skips, k);
      case Some(e) =>
      case None =>
        WalkComplete(files, dir, walkFn, i + 1, skips, k);
        var rest := WalkFrom(files, dir, walkFn, i + 1, skips);
        assert w.visited == [i] + rest.visited;
    }
  }

  /** WalkComplete at an entry strictly below `dir` for which the callback answers errSkipDir. */
  lemma {:induction false} WalkCompleteSkipped(files: seq<FileInfo>, dir: String, walkFn: WalkFn, i: nat, skips: seq<String>, k: nat)
    requires i <= k < |files|
    requires files[i].path != dir && HasPrefix(files[i].path, dir + "/") && !PrunedBy(files[i].path, skips)
    requires walkFn(i, files[i]) == Some(SkipDir)
    requires forall m :: i <= m <= k ==> HasPrefix(files[m].path, dir)
    requires Under(files[k].path, dir)
    requires k !in WalkFrom(files, dir, walkFn, i, skips).visited
    ensures var w := WalkFrom(files, dir, walkFn, i, skips);
      (w.err.Some? && |w.visited| > 0 && w.visited[|w.visited| - 1] < k) ||
      (files[k].path != dir &&
        (PrunedBy(files[k].path, skips) ||
         exists v :: v in w.visited && v < k && SkippedAt(files, dir, walkFn, v) && HasPrefix(files[k].path, files[v].path + "/")))
    decreases |files| - i, 0
  {
    var p := files[i].path;
    var w := WalkFrom(files, dir, walkFn, i, skips);
    var skips' := skips + [p];
    WalkComplete(files, dir, walkFn, i + 1, skips', k);
    var rest := WalkFrom(files, dir, walkFn, i + 1, skips');
    assert w.visited == [i] + rest.visited;
    if files[k].path != dir && PrunedBy(files[k].path, skips') && !PrunedBy(files[k].path, skips) {
      var s :| s in skips' && HasPrefix(files[k].path, s + "/");
      assert s == p;
      assert i in w.visited && SkippedAt(files, dir, walkFn, i);
    }
  }

  /**
   * On a path-sorted list the callback sees every entry at or below `dir`
   * except those below a directory it asked to skip, unless it ended the
   * walk with an error first.
   */
  lemma WalkSpecComplete(files: seq<FileInfo>, dir: String, walkFn: WalkFn, k: nat)
    requires NameSorted(files) && k < |files| && Under(files[k].path, dir)
    requires k !in WalkSpec(files, dir, walkFn).visited
    ensures var w := WalkSpec(files, dir, walkFn);
      (w.err.Some? && |w.visited| > 0 && w.visited[|w.visited| - 1] < k) ||
      (files[k].path != dir &&
        exists v :: v in w.visited && v < k && SkippedAt(files, dir, walkFn, v) && HasPrefix(files[k].path, files[v].path + "/"))
  {
    UnderHasPrefix(files[k].path, dir);
    SortedPrefixBlock(files, dir, k);
    WalkComplete(files, dir, walkFn, LowerBound(files, dir), [], k);
  }

  /**
   * With a callback that never answers errSkipDir, a walk over a path-sorted
   * list sees exactly the entries at or below `dir`, in order, unless an error
   * stops it; the error is the callback's answer for the last entry seen.
   */
  lemma WalkWithoutSkips(files: seq<FileInfo>, dir: String, walkFn: WalkFn)
    requires NameSorted(files)
    requires forall k: nat, fi: FileInfo :: walkFn(k, fi) != Some(SkipDir)
    ensures var w := WalkSpec(files, dir, walkFn);
      Increasing(w.visited) &&
      (forall v :: v in w.visited ==> v < |files| && Under(files[v].path, dir)) &&
      (w.err.None? ==> forall k :: 0 <= k < |files| && Under(files[k].path, dir) ==> k in w.visited) &&
      (w.err.None? ==> forall v :: v in w.visited ==> walkFn(v, files[v]) == None) &&
      (w.err.Some? ==>
        (|w.visited| > 0 && w.visited[|w.visited| - 1] < |files| &&
         Under(files[w.visited[|w.visited| - 1]].path, dir) &&
         walkFn(w.visited[|w.visited| - 1], files[w.visited[|w.visited| - 1]]) == w.err))
  {
    var lb := LowerBound(files, dir);
    var w := WalkSpec(files, dir, walkFn);
    WalkStaysUnder(files, dir, walkFn, lb, []);
    WalkErrorIsLast(files, dir, walkFn, lb, []);
    WalkEarlierAnswers(files, dir, walkFn, lb, []);
    if w.err.None? {
      forall k | 0 <= k < |files| && Under(files[k].path, dir) ensures k in w.visited {
        if k !in w.visited {
          WalkSpecComplete(files, dir, walkFn, k);
        }
      }
    } else {
      assert w.visited[|w.visited| - 1] in w.visited;
    }
  }

  // ---------------------------------------------------------------------------
  // The finders
  // ---------------------------------------------------------------------------

  /** `-not -name '.*' -and -type f -and -not -type l`, as findInDir tests it. */
  predicate InDirShown(fi: FileInfo) {
    !HasPrefix(Base(fi.path), ".") && IsRegular(fi.mode)
  }

  /** `-name "*<ext>" -and -not -name ".*"`, as findExtFilesUnder tests it. */
  predicate ExtShown(fi: FileInfo, ext: String) {
    Ext(Base(fi.path)) == ext && !HasPrefix(Base(fi.path), ".")
  }

  /** The walk result `w` after the callbacks on `vs` have already happened. */
  function Prefixed(vs: seq<nat>, w: Walked): Walked {
    Walked(vs + w.visited, w.err)
  }

  lemma PrefixedPrepend(vs: seq<nat>, v: nat, w: Walked)
    ensures Prefixed(vs, Prepend(v, w)) == Prefixed(vs + [v], w)
    ensures Prefixed(vs, Walked([v], w.err)) == Walked(vs + [v], w.err)
  {
    assert vs + ([v] + w.visited) == vs + [v] + w.visited;
  }

  /** The `for _, skip := range skipdirs` test of walk: whether `p` lies below one of the skipped directories. */
  method SkippedBelow(p: String, skipdirs: seq<String>) returns (pruned: bool)
    ensures pruned <==> PrunedBy(p, skipdirs)
  {
    pruned := false;
    var j := 0;
    while j < |skipdirs| && !pruned
      invariant 0 <= j <= |skipdirs|
      invariant pruned <==> exists m :: 0 <= m < j && HasPrefix(p, skipdirs[m] + "/")
    {
      if HasPrefix(p, skipdirs[j] + "/") {
        pruned := true;
      }
      j := j + 1;
    }
  }

  /** `-type d -a -name ".svn"`: the directories findJavaResourceFileGroup prunes. */
  predicate IsSvnDir(fi: FileInfo) {
    fi.mode.isDir && Base(fi.path) == ".svn"
  }

  /** The base names findJavaResourceFileGroup leaves out: Java sources, the two HTML pages, editor and Finder droppings. */
  predicate JavaExcluded(base: String) {
    Ext(base) == ".java" || base == "package.html" || base == "overview.html" ||
    (HasPrefix(base, ".") && HasSuffix(base, ".swp")) || base == ".DS_Store" || HasSuffix(base, "~")
  }

  /** A regular file findJavaResourceFileGroup writes when the walk reaches it. */
  predicate JavaShown(fi: FileInfo) {
    IsRegular(fi.mode) && !JavaExcluded(Base(fi.path))
  }

  /** The callback of findJavaResourceFileGroup: errSkipDir for a .svn directory, nil otherwise. */
  function JavaWalkFn(k: nat, fi: FileInfo): Option<WalkErr> {
    if IsSvnDir(fi) then Some(SkipDir) else None
  }

  /** Entry `k` lies below a .svn directory of the list that is itself strictly below `d`. */
  predicate InSvn(files: seq<FileInfo>, d: String, k: nat)
    requires k < |files|
  {
    exists m :: 0 <= m < |files| && IsSvnDir(files[m]) && HasPrefix(files[m].path, d + "/") &&
      HasPrefix(files[k].path, files[m].path + "/")
  }

  lemma PrefixTransitive(a: String, b: String, c: String)
    requires HasPrefix(a, b) && HasPrefix(b, c)
    ensures HasPrefix(a, c)
  {
    assert a[..|c|] == a[..|b|][..|c|];
  }

  lemma LastIsLargest(vs: seq<nat>, v: nat)
    requires Increasing(vs) && v in vs
    ensures v <= vs[|vs| - 1]
  {
    var a :| 0 <= a < |vs| && vs[a] == v;
  }

  /** In a name-sorted list a directory comes before every entry below it. */
  lemma ParentFirst(files: seq<FileInfo>, k: nat, m: nat)
    requires NameSorted(files) && k < |files| && m < |files|
    requires HasPrefix(files[k].path, files[m].path + "/")
    ensures m < k
  {
    PrefixTransitive(files[k].path, files[m].path + "/", files[m].path);
    PrefixLess(files[k].path, files[m].path);
  }

  /**
   * An entry strictly below `d` that the walk never reached, though it comes
   * before a reached one, lies below an earlier directory the callback
   * skipped.
   */
  lemma SkippedAncestor(files: seq<FileInfo>, d: String, walkFn: WalkFn, k: nat, m: nat)
    requires NameSorted(files) && m < k && k in WalkSpec(files, d, walkFn).visited
    requires m < |files| && HasPrefix(files[m].path, d + "/") && m !in WalkSpec(files, d, walkFn).visited
    ensures exists v :: (v in WalkSpec(files, d, walkFn).visited && v < m && SkippedAt(files, d, walkFn, v) &&
      HasPrefix(files[m].path, files[v].path + "/"))
  {
    var w := WalkSpec(files, d, walkFn);
    WalkStaysUnder(files, d, walkFn, LowerBound(files, d), []);
    WalkSpecComplete(files, d, walkFn, m);
    LastIsLargest(w.visited, k);
  }

  /** No entry the Java resource walk reaches lies below the .svn directory `m` strictly below `d`. */
  lemma JavaSvnPruned(files: seq<FileInfo>, d: String, k: nat, m: nat)
    requires NameSorted(files) && k in WalkSpec(files, d, JavaWalkFn).visited
    requires m < |files| && IsSvnDir(files[m]) && HasPrefix(files[m].path, d + "/")
    ensures k < |files| && !HasPrefix(files[k].path, files[m].path + "/")
  {
    var w := WalkSpec(files, d, JavaWalkFn);
    WalkStaysUnder(files, d, JavaWalkFn, LowerBound(files, d), []);
    WalkPrunes(files, d, JavaWalkFn, LowerBound(files, d), []);
    if HasPrefix(files[k].path, files[m].path + "/") {
      ParentFirst(files, k, m);
      if m !in w.visited {
        SkippedAncestor(files, d, JavaWalkFn, k, m);
        var v :| v in w.visited && v < m && SkippedAt(files, d, JavaWalkFn, v) &&
          HasPrefix(files[m].path, files[v].path + "/");
        PrefixTransitive(files[k].path, files[m].path + "/", files[m].path);
        PrefixTransitive(files[k].path, files[m].path, files[v].path + "/");
      }
    }
  }

  /** Nothing the Java resource walk reaches lies below a .svn directory strictly below `d`. */
  lemma JavaWalkSound(files: seq<FileInfo>, d: String, k: nat)
    requires NameSorted(files)
    requires k in WalkSpec(files, d, JavaWalkFn).visited
    ensures k < |files| && !InSvn(files, d, k)
  {
    WalkStaysUnder(files, d, JavaWalkFn, LowerBound(files, d), []);
    forall m | 0 <= m < |files| && IsSvnDir(files[m]) && HasPrefix(files[m].path, d + "/")
      ensures !HasPrefix(files[k].path, files[m].path + "/")
    {
      JavaSvnPruned(files, d, k, m);
    }
  }

  /**
   * Unless `d` itself is a .svn directory, the Java resource walk reaches
   * every entry at or below `d` that lies below no .svn directory strictly
   * below `d`.
   */
  lemma JavaWalkComplete(files: seq<FileInfo>, d: String, k: nat)
    requires NameSorted(files)
    requires forall m :: 0 <= m < |files| && files[m].path == d ==> !IsSvnDir(files[m])
    requires k < |files| && Under(files[k].path, d) && !InSvn(files, d, k)
    ensures k in WalkSpec(files, d, JavaWalkFn).visited
  {
    var lb := LowerBound(files, d);
    WalkStaysUnder(files, d, JavaWalkFn, lb, []);
    WalkErrorIsLast(files, d, JavaWalkFn, lb, []);
    if k !in WalkSpec(files, d, JavaWalkFn).visited {
      WalkSpecComplete(files, d, JavaWalkFn, k);
    }
  }

  /** The prefix findleaves scans for directory `p`: `p` and a slash, except that "." scans the top level. */
  function ScanPrefix(p: String): String {
    if p + "/" == "./" then "" else p + "/"
  }

  /**
   * The search predicate of findleaves: in the leaf order, `fi` sorts at or
   * after the first entry directly inside the directory whose scan prefix
   * is `d`, at `depth` slashes.
   */
  predicate LeafAtLeast(fi: FileInfo, depth: nat, d: String) {
    var di := Count(fi.path, '/');
    if di != depth then di >= depth
    else if Dir(fi.path) + "/" != d then !Less(Dir(fi.path) + "/", d)
    else !Less(fi.path, d)
  }

  /**
   * `w` is what findleaves records for a hit while scanning prefix `d`: "./"
   * and the path of a leaf that is no directory, carries the wanted base
   * name and lies under `d` (at the top level: contains no slash).
   */
  predicate LeafFound(leaves: seq<FileInfo>, w: String, d: String, name: String) {
    exists k :: 0 <= k < |leaves| && w == "./" + leaves[k].path && !leaves[k].mode.isDir &&
      Base(leaves[k].path) == name && HasPrefix(leaves[k].path, d) &&
      (d == "" ==> IndexOf(leaves[k].path, '/').None?)
  }

  /** `p` is the path of a directory entry of the leaf list. */
  predicate LeafDir(leaves: seq<FileInfo>, p: String) {
    exists k :: 0 <= k < |leaves| && leaves[k].mode.isDir && leaves[k].path == p
  }

  /** `s` is the scan prefix of a directory entry of the leaf list. */
  predicate ScannedLeafDir(leaves: seq<FileInfo>, clean: String -> String, s: String) {
    exists k :: 0 <= k < |leaves| && leaves[k].mode.isDir && s == ScanPrefix(clean(leaves[k].path))
  }

  /** The search predicate of findleaves for the scan prefix `d`, over the leaf list. */
  function AtLeastFn(lv: seq<FileInfo>, d: String): nat -> bool {
    (k: nat) => k < |lv| && LeafAtLeast(lv[k], Count(d, '/'), d)
  }

  /** Where the scan of `d` starts: the index sort.Search settles on. */
  function ScanStart(lv: seq<FileInfo>, d: String): (i: nat)
    ensures i <= |lv|
  {
    SearchFrom(0, |lv|, AtLeastFn(lv, d))
  }

  /** Leaf `fi` is inside the scan of `d`: under `d`, and at the top level without a slash. */
  predicate InScan(fi: FileInfo, d: String) {
    HasPrefix(fi.path, d) && (d == "" ==> IndexOf(fi.path, '/').None?)
  }

  /** The end of the scan of `d` begun at `i`: the first leaf from `i` on outside it, or |lv|. */
  function ScanEnd(lv: seq<FileInfo>, d: String, i: nat): (e: nat)
    requires i <= |lv|
    ensures i <= e <= |lv|
    decreases |lv| - i
  {
    if i == |lv| || !InScan(lv[i], d) then i else ScanEnd(lv, d, i + 1)
  }

  /** Every leaf from `i` up to ScanEnd is in the scan, and the one at ScanEnd is not. */
  lemma {:induction false} ScanEndSpec(lv: seq<FileInfo>, d: String, i: nat)
    requires i <= |lv|
    ensures forall k :: i <= k < ScanEnd(lv, d, i) ==> InScan(lv[k], d)
    ensures ScanEnd(lv, d, i) < |lv| ==> !InScan(lv[ScanEnd(lv, d, i)], d)
    decreases |lv| - i
  {
    if i < |lv| && InScan(lv[i], d) {
      ScanEndSpec(lv, d, i + 1);
    }
  }

  /** Leaf `fi` is what findleaves looks for: not a directory, with base name `name`. */
  predicate NamedFile(fi: FileInfo, name: String) {
    !fi.mode.isDir && Base(fi.path) == name
  }

  /** The first leaf in [a, e) that NamedFile accepts. */
  function FirstNamed(lv: seq<FileInfo>, name: String, a: nat, e: nat): (h: Option<nat>)
    requires a <= e <= |lv|
    ensures h.Some? ==> a <= h.value < e
    decreases e - a
  {
    if a == e then None
    else if NamedFile(lv[a], name) then Some(a)
    else FirstNamed(lv, name, a + 1, e)
  }

  /** FirstNamed finds a leaf NamedFile accepts with none before it in the range, and None means there is none. */
  lemma {:induction false} FirstNamedSpec(lv: seq<FileInfo>, name: String, a: nat, e: nat)
    requires a <= e <= |lv|
    ensures var h := FirstNamed(lv, name, a, e);
      (h.Some? ==> NamedFile(lv[h.value], name) && forall k :: a <= k < h.value ==> !NamedFile(lv[k], name)) &&
      (h.None? ==> forall k :: a <= k < e ==> !NamedFile(lv[k], name))
    decreases e - a
  {
    if a < e && !NamedFile(lv[a], name) {
      FirstNamedSpec(lv, name, a + 1, e);
    }
  }

  /** The paths of the directory leaves in [a, b), in order. */
  function DirsIn(lv: seq<FileInfo>, a: nat, b: nat): seq<String>
    requires a <= b <= |lv|
    decreases b - a
  {
    if a == b then [] else DirsIn(lv, a, b - 1) + (if lv[b - 1].mode.isDir then [lv[b - 1].path] else [])
  }

  /** DirsIn holds exactly the paths of the directory leaves of [a, b). */
  lemma {:induction false} DirsInSpec(lv: seq<FileInfo>, a: nat, b: nat)
    requires a <= b <= |lv|
    ensures forall t :: 0 <= t < |DirsIn(lv, a, b)| ==> LeafDir(lv, DirsIn(lv, a, b)[t])
    ensures forall k :: a <= k < b && lv[k].mode.isDir ==> lv[k].path in DirsIn(lv, a, b)
    decreases b - a
  {
    if a < b {
      DirsInSpec(lv, a, b - 1);
      assert lv[b - 1].mode.isDir ==> LeafDir(lv, lv[b - 1].path);
    }
  }

  /**
   * The outcome of one scan of `d`, over the block from ScanStart to
   * ScanEnd: when `d` is deep enough for `mindepth`, the first leaf of the
   * block that NamedFile accepts, written "./"-relative; and the directory
   * leaves of the block before that hit, or of the whole block without one.
   */
  function ScanResult(lv: seq<FileInfo>, d: String, name: String, mindepth: int, topdepth: int): (r: (Option<String>, seq<String>))
    ensures r.0.Some? ==> LeafFound(lv, r.0.value, d, name) && (mindepth < 0 || Count(d, '/') >= topdepth + mindepth)
    ensures forall t :: 0 <= t < |r.1| ==> LeafDir(lv, r.1[t])
  {
    var i0 := ScanStart(lv, d);
    var e := ScanEnd(lv, d, i0);
    var h := if mindepth < 0 || Count(d, '/') >= topdepth + mindepth then FirstNamed(lv, name, i0, e) else None;
    if h.Some? then
      var k := h.value;
      assert InScan(lv[k], d) && NamedFile(lv[k], name) by {
        ScanEndSpec(lv, d, i0);
        FirstNamedSpec(lv, name, i0, e);
      }
      DirsInSpec(lv, i0, k);
      (Some("./" + lv[k].path), DirsIn(lv, i0, k))
    else
      DirsInSpec(lv, i0, e);
      (None, DirsIn(lv, i0, e))
  }

  /** The hit of a scan, as a function of the scan prefix. */
  function HitFn(lv: seq<FileInfo>, name: String, mindepth: int, topdepth: int): String -> Option<String> {
    (d: String) => ScanResult(lv, d, name, mindepth, topdepth).0
  }

  /** The directories a scan queues, as a function of the scan prefix. */
  function SubdirsFn(lv: seq<FileInfo>, name: String, mindepth: int, topdepth: int): String -> seq<String> {
    (d: String) => ScanResult(lv, d, name, mindepth, topdepth).1
  }

  /** The directories the scans `sc` queued, scan after scan, when scanning `d` queues `subs(d)`. */
  function QueuedBy(subs: String -> seq<String>, sc: seq<String>): seq<String>
    decreases |sc|
  {
    if |sc| == 0 then [] else QueuedBy(subs, sc[..|sc| - 1]) + subs(sc[|sc| - 1])
  }

  lemma QueuedBySnoc(subs: String -> seq<String>, sc: seq<String>, d: String)
    ensures QueuedBy(subs, sc + [d]) == QueuedBy(subs, sc) + subs(d)
  {
    assert (sc + [d])[..|sc|] == sc;
  }

  /**
   * The queue of findleaves after the scans `sc`: it is `top` followed by
   * what each scan queued; scan j was of queue entry j; `dirs` is the rest of
   * the queue.
   */
  ghost predicate QueueState(subs: String -> seq<String>, clean: String -> String, top: String, dirs: seq<String>, sc: seq<String>) {
    var queue := [top] + QueuedBy(subs, sc);
    |sc| <= |queue| && dirs == queue[|sc|..] &&
    forall j :: 0 <= j < |sc| ==> sc[j] == ScanPrefix(clean(queue[j]))
  }

  /** Taking the head off the tail `q[k..]` and appending `x` is the tail of `q + x` one further on. */
  lemma QueueAdvance<T>(q: seq<T>, x: seq<T>, k: nat)
    requires k < |q|
    ensures q[k..][1..] + x == (q + x)[k + 1..]
    ensures forall j :: 0 <= j <= k ==> (q + x)[j] == q[j]
  {
  }

  /** Scanning the head of the queue and queueing what the scan met keeps the queue state. */
  lemma QueueStateStep(subs: String -> seq<String>, clean: String -> String, top: String, dirs: seq<String>,
                       sc: seq<String>, d: String)
    requires QueueState(subs, clean, top, dirs, sc)
    requires |dirs| > 0 && d == ScanPrefix(clean(dirs[0]))
    ensures QueueState(subs, clean, top, dirs[1..] + subs(d), sc + [d])
  {
    var sc' := sc + [d];
    var queue := [top] + QueuedBy(subs, sc);
    QueuedBySnoc(subs, sc, d);
    assert [top] + QueuedBy(subs, sc') == queue + subs(d);
    QueueAdvance(queue, subs(d), |sc|);
    forall j | 0 <= j < |sc'| ensures sc'[j] == ScanPrefix(clean((queue + subs(d))[j])) {
      if j < |sc| {
        assert sc'[j] == sc[j];
      }
    }
  }

  /**
   * The hits of findleaves after the scans `sc`, when scanning `d` hits
   * `hit(d)`: the scans with a hit are exactly those listed in `hs`, in
   * order, and `found` holds their hits.
   */
  ghost predicate HitState(hit: String -> Option<String>, sc: seq<String>, found: seq<String>, hs: seq<nat>) {
    |found| == |hs| && Increasing(hs) &&
    (forall j :: 0 <= j < |sc| ==> (hit(sc[j]).Some? <==> j in hs)) &&
    (forall t :: 0 <= t < |hs| ==> hs[t] < |sc| && hit(sc[hs[t]]) == Some(found[t]))
  }

  /** Recording one more scan, and its hit when it has one, keeps the hit state. */
  lemma HitStateStep(hit: String -> Option<String>, sc: seq<String>, found: seq<String>, hs: seq<nat>, d: String)
    requires HitState(hit, sc, found, hs)
    ensures hit(d).None? ==> HitState(hit, sc + [d], found, hs)
    ensures hit(d).Some? ==> HitState(hit, sc + [d], found + [hit(d).value], hs + [|sc|])
  {
    var sc' := sc + [d];
    assert forall j :: 0 <= j < |sc| ==> sc'[j] == sc[j];
    assert |sc| !in hs;
    if hit(d).Some? {
      var hs' := hs + [|sc|];
      var found' := found + [hit(d).value];
      forall j | 0 <= j < |sc'|
        ensures hit(sc'[j]).Some? <==> j in hs'
      {
        assert j in hs' <==> j in hs || j == |sc|;
      }
      forall t | 0 <= t < |hs'|
        ensures hs'[t] < |sc'| && hit(sc'[hs'[t]]) == Some(found'[t])
      {
        if t < |hs| {
          assert hs'[t] == hs[t] && found'[t] == found[t];
        }
      }
      forall a, b | 0 <= a < b < |hs'| ensures hs'[a] < hs'[b] {
        if b < |hs| {
          assert hs'[a] == hs[a] && hs'[b] == hs[b];
        }
      }
    }
  }

  /** Extending the range by the leaf at `i` adds its path exactly when it is a directory. */
  lemma DirsInSnoc(lv: seq<FileInfo>, a: nat, i: nat)
    requires a <= i < |lv|
    ensures DirsIn(lv, a, i + 1) == DirsIn(lv, a, i) + (if lv[i].mode.isDir then [lv[i].path] else [])
  {
  }

  /** Every directory the scans `sc` queued is a directory leaf. */
  lemma {:induction false} QueuedLeafDirs(lv: seq<FileInfo>, name: String, mindepth: int, topdepth: int, sc: seq<String>)
    ensures forall t :: 0 <= t < |QueuedBy(SubdirsFn(lv, name, mindepth, topdepth), sc)| ==>
      LeafDir(lv, QueuedBy(SubdirsFn(lv, name, mindepth, topdepth), sc)[t])
    decreases |sc|
  {
    if |sc| > 0 {
      QueuedLeafDirs(lv, name, mindepth, topdepth, sc[..|sc| - 1]);
      var r := ScanResult(lv, sc[|sc| - 1], name, mindepth, topdepth);
      assert forall t :: 0 <= t < |r.1| ==> LeafDir(lv, r.1[t]);
    }
  }

  /**
   * Hence, in the breadth-first state, every scanned prefix is the top
   * directory's or a directory leaf's, and every hit is a leaf findleaves
   * looks for, under the prefix it was found in, at a depth `mindepth`
   * allows.
   */
  lemma StatesSound(lv: seq<FileInfo>, clean: String -> String, name: String, mindepth: int, topdepth: int,
                    top: String, dirs: seq<String>, sc: seq<String>, found: seq<String>, hs: seq<nat>)
    requires QueueState(SubdirsFn(lv, name, mindepth, topdepth), clean, top, dirs, sc)
    requires HitState(HitFn(lv, name, mindepth, topdepth), sc, found, hs)
    ensures forall j :: 0 <= j < |sc| ==> sc[j] == ScanPrefix(clean(top)) || ScannedLeafDir(lv, clean, sc[j])
    ensures forall t :: 0 <= t < |hs| ==>
      hs[t] < |sc| && LeafFound(lv, found[t], sc[hs[t]], name) && (mindepth < 0 || Count(sc[hs[t]], '/') >= topdepth + mindepth)
  {
    var queue := [top] + QueuedBy(SubdirsFn(lv, name, mindepth, topdepth), sc);
    QueuedLeafDirs(lv, name, mindepth, topdepth, sc);
    forall j | 0 <= j < |sc| ensures sc[j] == ScanPrefix(clean(top)) || ScannedLeafDir(lv, clean, sc[j]) {
      if j > 0 {
        assert LeafDir(lv, queue[j]);
        var k :| 0 <= k < |lv| && lv[k].mode.isDir && lv[k].path == queue[j];
        assert sc[j] == ScanPrefix(clean(lv[k].path));
      }
    }
    forall t | 0 <= t < |hs|
      ensures hs[t] < |sc| && LeafFound(lv, found[t], sc[hs[t]], name) && (mindepth < 0 || Count(sc[hs[t]], '/') >= topdepth + mindepth)
    {
      assert HitFn(lv, name, mindepth, topdepth)(sc[hs[t]]) == Some(found[t]);
    }
  }

  /**
   * What a walk callback writes: for each visited entry in order, the name
   * of the entries `keep` accepts.
   */
  method WriteKept(files: seq<FileInfo>, visited: seq<nat>, keep: FileInfo -> bool, name: FileInfo -> String)
    returns (words: seq<String>, ghost written: seq<nat>)
    requires Increasing(visited) && forall v :: v in visited ==> v < |files|
    ensures Increasing(written) && |words| == |written|
    ensures forall k :: k in written <==> k in visited && keep(files[k])
    ensures forall j :: 0 <= j < |written| ==> written[j] < |files| && words[j] == name(files[written[j]])
  {
    words, written := [], [];
    for n := 0 to |visited|
      invariant Increasing(written) && |words| == |written|
      invariant forall k :: k in written <==> k in visited[..n] && k < |files| && keep(files[k])
      invariant forall j :: 0 <= j < |written| ==> written[j] < |files| && words[j] == name(files[written[j]])
    {
      var v := visited[n];
      assert v in visited;
      assert visited[..n + 1] == visited[..n] + [v];
      if keep(files[v]) {
        forall j | 0 <= j < |written| ensures written[j] < v {
          assert written[j] in written;
          var m :| 0 <= m < n && visited[m] == written[j];
        }
        words := words + [name(files[v])];
        written := written + [v];
      }
    }
    assert visited[..|visited|] == visited;
  }

  /**
   * androidFindCacheT once both of its lists have arrived: `files`, every
   * path of the tree, sorted by fileInfoByName, and `leaves`, the leaf
   * makefiles and the directories above them, sorted by fileInfoByLeaf.
   * filepath.Clean is the parameter `clean`.
   */
  class FindCache {
    const clean: String -> String
    var files: seq<FileInfo>
    var leaves: seq<FileInfo>

    constructor (clean: String -> String, files: seq<FileInfo>, leaves: seq<FileInfo>)
      ensures this.clean == clean && this.files == files && this.leaves == leaves
    {
      this.clean := clean;
      this.files := files;
      this.leaves := leaves;
    }

    /** filepath.Join of two elements. */
    function JoinPath(a: String, b: String): String {
      if a == [] && b == [] then []
      else if a == [] then clean(b)
      else if b == [] then clean(a)
      else clean(a + "/" + b)
    }

    /**
     * walk: the entries at or below `dir`, from the lower bound of `dir` in
     * the sorted list, handed to `walkFn` in order.  Returns the indices the
     * callback was called on and the error the walk returns.
     */
    /** The sort.Search call that starts walk: the first entry not below `dir` in the name order. */
    method SearchStart(dir: String) returns (start: nat)
      requires NameSorted(files)
      ensures start == LowerBound(files, dir)
    {
      var fs := files;
      var atLeast := (k: nat) => k < |fs| && !Less(fs[k].path, dir);
      assert Monotone(atLeast, |fs|) by {
        forall i: nat, j: nat | i <= j < |fs| && atLeast(i) ensures atLeast(j) {
          if i < j {
            NotLessTransitive(dir, fs[i].path, fs[j].path);
          }
        }
      }
      start := Search(|fs|, atLeast);
      forall k | 0 <= k < start ensures Less(fs[k].path, dir) {
        assert !atLeast(k);
      }
      if start < |fs| {
        assert atLeast(start);
      }
      LowerBoundUnique(fs, dir, start);
    }

    method Walk(dir: String, walkFn: WalkFn) returns (visited: seq<nat>, err: Option<WalkErr>)
      requires NameSorted(files)
      ensures Walked(visited, err) == WalkSpec(files, dir, walkFn)
    {
      var fs := files;
      var start := SearchStart(dir);
      var skipdirs: seq<String> := [];
      visited, err := [], None;
      var i := start;
      while i < |fs|
        invariant start <= i <= |fs|
        invariant WalkSpec(fs, dir, walkFn) == Prefixed(visited, WalkFrom(fs, dir, walkFn, i, skipdirs))
        decreases |fs| - i
      {
        var p := fs[i].path;
        ghost var here := WalkFrom(fs, dir, walkFn, i, skipdirs);
        if p == dir {
          var e := walkFn(i, fs[i]);
          PrefixedPrepend(visited, i, WalkFrom(fs, dir, walkFn, i + 1, skipdirs));
          visited := visited + [i];
          if e.Some? {
            err := e;
            return;
          }
        } else if !HasPrefix(p, dir) {
          assert visited + [] == visited;
          return;
        } else if HasPrefix(p, dir + "/") {
          var pruned := SkippedBelow(p, skipdirs);
          if !pruned {
            var e := walkFn(i, fs[i]);
            if e == Some(SkipDir) {
              PrefixedPrepend(visited, i, WalkFrom(fs, dir, walkFn, i + 1, skipdirs + [p]));
              skipdirs := skipdirs + [p];
            } else {
              PrefixedPrepend(visited, i, WalkFrom(fs, dir, walkFn, i + 1, skipdirs));
            }
            visited := visited + [i];
            if e.Some? && e != Some(SkipDir) {
              err := e;
              return;
            }
          }
        }
        i := i + 1;
      }
      assert visited + [] == visited;
    }

    /**
     * findInDir, for `find ./ -not -name '.*' -and -type f -and -not -type l`
     * in `dir`: every regular file at or below the cleaned `dir` whose base
     * name does not start with a dot, in list order, written relative to
     * `dir` with "./" in front.
     */
    method FindInDir(dir: String) returns (words: seq<String>, ghost written: seq<nat>)
      requires NameSorted(files)
      ensures Increasing(written) && |words| == |written|
      ensures forall k :: k in written <==> 0 <= k < |files| && Under(files[k].path, clean(dir)) && InDirShown(files[k])
      ensures forall j :: 0 <= j < |written| ==>
        written[j] < |files| && words[j] == "./" + TrimPrefix(files[written[j]].path, clean(dir) + "/")
    {
      var d := clean(dir);
      var walkFn: WalkFn := (k: nat, fi: FileInfo) => None;
      var visited, err := Walk(d, walkFn);
      WalkWithoutSkips(files, d, walkFn);
      words, written := WriteKept(files, visited, InDirShown, (fi: FileInfo) => "./" + TrimPrefix(fi.path, d + "/"));
    }

    /**
     * findExtFilesUnder, for `find -L root -name "*ext" -and -not -name ".*"`
     * run in `chdir`: false, with nothing written, when any entry at or
     * below the joined directory is a symbolic link; otherwise true, and
     * every entry there whose base name has extension `ext` and does not
     * start with a dot, in list order, written relative to `chdir`.
     */
    method FindExtFilesUnder(chdir: String, root: String, ext: String)
      returns (ok: bool, words: seq<String>, ghost written: seq<nat>)
      requires NameSorted(files)
      ensures ok <==> forall k :: 0 <= k < |files| && Under(files[k].path, JoinPath(clean(chdir), root)) ==>
        !files[k].mode.isSymlink
      ensures !ok ==> words == [] && written == []
      ensures Increasing(written) && |words| == |written|
      ensures forall k :: k in written <==>
        ok && 0 <= k < |files| && Under(files[k].path, JoinPath(clean(chdir), root)) && ExtShown(files[k], ext)
      ensures forall j :: 0 <= j < |written| ==>
        written[j] < |files| && words[j] == TrimPrefix(files[written[j]].path, clean(chdir) + "/")
    {
      var c := clean(chdir);
      var dir := JoinPath(c, root);
      var walkFn: WalkFn := (k: nat, fi: FileInfo) => if fi.mode.isSymlink then Some(Failed("symlink " + fi.path)) else None;
      var matches, err := Walk(dir, walkFn);
      WalkWithoutSkips(files, dir, walkFn);
      if err.Some? {
        var last := matches[|matches| - 1];
        assert Under(files[last].path, dir) && files[last].mode.isSymlink;
        return false, [], [];
      }
      ok := true;
      words, written := WriteKept(files, matches, (fi: FileInfo) => ExtShown(fi, ext), (fi: FileInfo) => TrimPrefix(fi.path, c + "/"));
    }
  
    /**
     * findJavaResourceFileGroup, for `find . -type d -a -name ".svn" -prune
     * -o -type f ... -print` in `dir`: the regular files at or below the
     * cleaned `dir`, in list order, minus the excluded names and minus
     * everything below a .svn directory, written relative to `dir` as given
     * with "./" in front.  When `dir` itself is a .svn directory the walk
     * stops at once.
     */
    method FindJavaResourceFileGroup(dir: String) returns (words: seq<String>, ghost written: seq<nat>)
      requires NameSorted(files)
      ensures Increasing(written) && |words| == |written|
      ensures forall j :: 0 <= j < |written| ==>
        written[j] < |files| && words[j] == "./" + TrimPrefix(files[written[j]].path, dir + "/")
      ensures forall k :: k in written ==>
        k < |files| && Under(files[k].path, clean(dir)) && JavaShown(files[k]) && !InSvn(files, clean(dir), k)
      ensures (forall m :: 0 <= m < |files| && files[m].path == clean(dir) ==> !IsSvnDir(files[m])) ==>
        forall k :: 0 <= k < |files| && Under(files[k].path, clean(dir)) && JavaShown(files[k]) && !InSvn(files, clean(dir), k) ==>
          k in written
    {
      var d := clean(dir);
      var visited, err := Walk(d, JavaWalkFn);
      WalkStaysUnder(files, d, JavaWalkFn, LowerBound(files, d), []);
      words, written := WriteKept(files, visited, JavaShown, (fi: FileInfo) => "./" + TrimPrefix(fi.path, dir + "/"));
      forall k | k in written ensures k < |files| && !InSvn(files, d, k) {
        JavaWalkSound(files, d, k);
      }
      if forall m :: 0 <= m < |files| && files[m].path == d ==> !IsSvnDir(files[m]) {
        forall k | 0 <= k < |files| && Under(files[k].path, d) && JavaShown(files[k]) && !InSvn(files, d, k)
          ensures k in written
        {
          JavaWalkComplete(files, d, k);
        }
      }
    }
  
    /** Where findleaves starts scanning the prefix `d`: sort.Search with the leaf-order predicate. */
    method LeafSearchStart(d: String) returns (start: nat)
      ensures start == ScanStart(leaves, d) && start <= |leaves|
    {
      start := Search(|leaves|, AtLeastFn(leaves, d));
    }

    /**
     * One pass of findleaves' Scandir loop over the scan prefix `d`: from the
     * search's starting point, while the leaves stay under `d`, the first
     * non-directory leaf named `name` (looked for only when `d` is deep
     * enough for `mindepth`), and the directories met before it, in order.
     */
    method ScanDir(d: String, topdepth: int, mindepth: int, name: String) returns (hit: Option<String>, subdirs: seq<String>)
      ensures (hit, subdirs) == ScanResult(leaves, d, name, mindepth, topdepth)
      ensures hit.Some? ==>
        LeafFound(leaves, hit.value, d, name) && (mindepth < 0 || Count(d, '/') >= topdepth + mindepth)
      ensures forall t :: 0 <= t < |subdirs| ==> LeafDir(leaves, subdirs[t])
    {
      var lv := leaves;
      var depth := Count(d, '/');
      var look := mindepth < 0 || depth >= topdepth + mindepth;
      var i0 := LeafSearchStart(d);
      ghost var e := ScanEnd(lv, d, i0);
      var i := i0;
      hit, subdirs := None, [];
      while i < |lv|
        invariant i0 <= i <= e && ScanEnd(lv, d, i) == e
        invariant look ==> FirstNamed(lv, name, i, e) == FirstNamed(lv, name, i0, e)
        invariant subdirs == DirsIn(lv, i0, i)
        decreases |lv| - i
      {
        // the two breaks of the Scandir loop: a slash at the top level, a leaf outside `d`
        if !InScan(lv[i], d) {
          break;
        }
        assert ScanEnd(lv, d, i) == ScanEnd(lv, d, i + 1);
        if look {
          if NamedFile(lv[i], name) {
            hit := Some("./" + lv[i].path);
            return;
          }
          assert FirstNamed(lv, name, i, e) == FirstNamed(lv, name, i + 1, e);
        }
        DirsInSnoc(lv, i0, i);
        if lv[i].mode.isDir {
          subdirs := subdirs + [lv[i].path];
        }
        i := i + 1;
      }
    }

    /**
     * findleaves: a breadth-first search of the leaf list from the cleaned
     * `dir`.  Each directory is scanned from the index sort.Search finds up
     * to the first leaf outside it; the first matching file of a directory
     * deep enough is recorded and ends that directory's scan, and the
     * directories met on the way are queued.  The recorded paths are
     * written sorted.  The queue loop runs at most `fuel` scans; `ok` says
     * whether the queue ran empty within them.  `prunes` is not consulted.
     */
    method Findleaves(dir: String, name: String, prunes: seq<String>, mindepth: int, fuel: nat)
      returns (ok: bool, words: seq<String>, ghost found: seq<String>, ghost scanned: seq<String>, ghost hits: seq<nat>)
      ensures ok ==> Sorted(words) && multiset(words) == multiset(found)
      ensures !ok ==> words == [] && |scanned| == fuel
      ensures |scanned| <= fuel
      ensures |found| == |hits| && Increasing(hits)
      ensures forall j :: 0 <= j < |scanned| ==>
        scanned[j] == ScanPrefix(clean(clean(dir))) || ScannedLeafDir(leaves, clean, scanned[j])
      ensures forall j :: 0 <= j < |hits| ==>
        hits[j] < |scanned| && LeafFound(leaves, found[j], scanned[hits[j]], name) &&
        (mindepth < 0 || Count(scanned[hits[j]], '/') >= Count(clean(dir), '/') + mindepth)
      ensures var queue := [clean(dir)] + QueuedBy(SubdirsFn(leaves, name, mindepth, Count(clean(dir), '/')), scanned);
        |scanned| <= |queue| && (ok <==> |scanned| == |queue|) &&
        forall j :: 0 <= j < |scanned| ==> scanned[j] == ScanPrefix(clean(queue[j]))
      ensures forall j :: 0 <= j < |scanned| ==>
        (ScanResult(leaves, scanned[j], name, mindepth, Count(clean(dir), '/')).0.Some? <==> j in hits)
      ensures forall t :: 0 <= t < |hits| ==>
        ScanResult(leaves, scanned[hits[t]], name, mindepth, Count(clean(dir), '/')).0 == Some(found[t])
    {
      var top := clean(dir);
      var topdepth := Count(top, '/');
      var dirs := [top];
      var hitList: seq<String> := [];
      ghost var sc: seq<String> := [];
      ghost var hs: seq<nat> := [];
      var steps := 0;
      while |dirs| > 0 && steps < fuel
        invariant |sc| == steps <= fuel
        invariant QueueState(SubdirsFn(leaves, name, mindepth, topdepth), clean, top, dirs, sc)
        invariant HitState(HitFn(leaves, name, mindepth, topdepth), sc, hitList, hs)
        decreases fuel - steps
      {
        var d := clean(dirs[0]) + "/";
        if d == "./" {
          d := "";
        }
        assert d == ScanPrefix(clean(dirs[0]));
        var hit, subdirs := ScanDir(d, topdepth, mindepth, name);
        QueueStateStep(SubdirsFn(leaves, name, mindepth, topdepth), clean, top, dirs, sc, d);
        HitStateStep(HitFn(leaves, name, mindepth, topdepth), sc, hitList, hs, d);
        dirs := dirs[1..] + subdirs;
        if hit.Some? {
          hitList := hitList + [hit.value];
          ghost var at: nat := |sc|;
          hs := hs + [at];
        }
        sc := sc + [d];
        steps := steps + 1;
      }
      StatesSound(leaves, clean, name, mindepth, topdepth, top, dirs, sc, hitList, hs);
      found, scanned, hits := hitList, sc, hs;
      if |dirs| > 0 {
        return false, [], found, scanned, hits;
      }
      ok := true;
      words := SortStrings(hitList);
    }
  }
}
