/**
 * The string helpers the built-in functions rely on: the word scanner and
 * writer, single-wildcard pattern matching and substitution, substring search,
 * byte-wise string order, sorting and decimal rendering.  Their own source
 * (strutil.cc) is not part of this model; each is given the definition its
 * callers in func.cc, dep.go and pathutil.go depend on.
 */
module StrUtil {
  import opened Wrappers

  type String = seq<char>

  // ---------------------------------------------------------------------------
  // Words: maximal runs of non-whitespace characters
  // ---------------------------------------------------------------------------

  /** The C `isspace` set: space, tab, newline, vertical tab, form feed, carriage return. */
  predicate IsSpace(c: char) {
    c == ' ' || ('\t' <= c <= '\r')
  }

  predicate NoSpace(w: String) {
    forall i :: 0 <= i < |w| ==> !IsSpace(w[i])
  }

  /** A word is non-empty and holds no whitespace. */
  predicate IsWord(w: String) {
    |w| > 0 && NoSpace(w)
  }

  predicate AllWords(ws: seq<String>) {
    forall i :: 0 <= i < |ws| ==> IsWord(ws[i])
  }

  /** `s` without its leading whitespace (TrimLeftSpace). */
  function TrimLeftSpace(s: String): (r: String)
    ensures |r| <= |s|
  {
    if |s| > 0 && IsSpace(s[0]) then TrimLeftSpace(s[1..]) else s
  }

  /** What TrimLeftSpace removes is exactly the leading run of whitespace. */
  lemma {:induction false} TrimLeftSpaceSpec(s: String)
    ensures var r := TrimLeftSpace(s);
      r == s[|s| - |r|..] && (r == [] || !IsSpace(r[0])) &&
      forall i :: 0 <= i < |s| - |r| ==> IsSpace(s[i])
  {
    if |s| > 0 && IsSpace(s[0]) {
      TrimLeftSpaceSpec(s[1..]);
    }
  }

  /** Length of the run of non-whitespace characters that `s` starts with. */
  function WordLen(s: String): (k: nat)
    ensures k <= |s|
    ensures forall i :: 0 <= i < k ==> !IsSpace(s[i])
    ensures k < |s| ==> IsSpace(s[k])
  {
    if |s| == 0 || IsSpace(s[0]) then 0 else 1 + WordLen(s[1..])
  }

  /** The words of `s`, left to right: what WordScanner yields. */
  function Words(s: String): (ws: seq<String>)
    ensures AllWords(ws)
    decreases |s|
  {
    if |s| == 0 then []
    else if IsSpace(s[0]) then Words(s[1..])
    else
      var k := WordLen(s);
      var rest := Words(s[k..]);
      var ws := [s[..k]] + rest;
      assert forall i :: 1 <= i < |ws| ==> ws[i] == rest[i - 1];
      ws
  }

  /** Words separated by single spaces: what WordWriter produces. */
  function Join(ws: seq<String>): String {
    if |ws| == 0 then []
    else if |ws| == 1 then ws[0]
    else ws[0] + [' '] + Join(ws[1..])
  }

  /** Appending one more word to a joined list adds one separator and the word. */
  lemma {:induction false} JoinSnoc(ws: seq<String>, w: String)
    ensures Join(ws + [w]) == if ws == [] then w else Join(ws) + [' '] + w
  {
    if |ws| > 1 {
      assert (ws + [w])[1..] == ws[1..] + [w];
      JoinSnoc(ws[1..], w);
    } else if |ws| == 1 {
      assert (ws + [w])[1..] == [w];
    }
  }

  lemma WordLenOfWordThenSpace(w: String, rest: String)
    requires NoSpace(w)
    requires rest == [] || IsSpace(rest[0])
    ensures WordLen(w + rest) == |w|
    decreases |w|
  {
    if |w| > 0 {
      assert (w + rest)[1..] == w[1..] + rest;
      WordLenOfWordThenSpace(w[1..], rest);
    }
  }

  lemma WordsSkipsSpace(s: String)
    requires |s| > 0 && IsSpace(s[0])
    ensures Words(s) == Words(s[1..])
  {
  }

  /** Scanning joined words gives the same words back: the writer and scanner round-trip. */
  lemma {:induction false} WordsOfJoin(ws: seq<String>)
    requires AllWords(ws)
    ensures Words(Join(ws)) == ws
  {
    if |ws| == 1 {
      WordLenOfWordThenSpace(ws[0], []);
      assert ws[0] + [] == ws[0];
      assert ws[0][|ws[0]|..] == [];
    } else if |ws| > 1 {
      var rest := [' '] + Join(ws[1..]);
      var s := ws[0] + rest;
      assert Join(ws) == s;
      WordLenOfWordThenSpace(ws[0], rest);
      assert s[..|ws[0]|] == ws[0];
      assert s[|ws[0]|..] == rest;
      WordsSkipsSpace(rest);
      assert rest[1..] == Join(ws[1..]);
      WordsOfJoin(ws[1..]);
      assert ws == [ws[0]] + ws[1..];
    }
  }

  /** Normalising whitespace twice is the same as normalising it once. */
  lemma StripIdempotent(s: String)
    ensures Words(Join(Words(s))) == Words(s)
    ensures Join(Words(Join(Words(s)))) == Join(Words(s))
  {
    WordsOfJoin(Words(s));
  }

  // ---------------------------------------------------------------------------
  // Prefixes, suffixes, substring search, character counts
  // ---------------------------------------------------------------------------

  predicate HasPrefix(s: String, p: String) {
    |p| <= |s| && s[..|p|] == p
  }

  predicate HasSuffix(s: String, p: String) {
    |p| <= |s| && s[|s| - |p|..] == p
  }

  /** `s` without the prefix `p` when it has it, else `s` (strings.TrimPrefix). */
  function TrimPrefix(s: String, p: String): (r: String)
    ensures HasPrefix(s, p) ==> p + r == s
    ensures !HasPrefix(s, p) ==> r == s
  {
    if HasPrefix(s, p) then s[|p|..] else s
  }

  /** The first index of `c` in `s`. */
  function IndexOf(s: String, c: char): (r: Option<nat>)
    ensures r.Some? ==> r.value < |s| && s[r.value] == c
    ensures r.Some? ==> forall i :: 0 <= i < r.value ==> s[i] != c
    ensures r.None? ==> forall i :: 0 <= i < |s| ==> s[i] != c
  {
    if |s| == 0 then None
    else if s[0] == c then Some(0)
    else match IndexOf(s[1..], c)
      case None => None
      case Some(i) => Some(i + 1)
  }

  function Count(s: String, c: char): (n: nat)
    ensures n <= |s|
  {
    if |s| == 0 then 0 else (if s[0] == c then 1 else 0) + Count(s[1..], c)
  }

  lemma {:induction false} CountAppend(a: String, b: String, c: char)
    ensures Count(a + b, c) == Count(a, c) + Count(b, c)
  {
    if |a| > 0 {
      assert (a + b)[1..] == a[1..] + b;
      CountAppend(a[1..], b, c);
    } else {
      assert a + b == b;
    }
  }

  predicate OccursAt(s: String, p: String, j: nat) {
    j + |p| <= |s| && s[j..j + |p|] == p
  }

  /** The first occurrence of `p` in `s` at or after `from` (std::string::find). */
  function FindFrom(s: String, p: String, from: nat): (r: Option<nat>)
    ensures r.Some? ==> from <= r.value && r.value + |p| <= |s|
    decreases |s| - from
  {
    if from + |p| > |s| then None
    else if s[from..from + |p|] == p then Some(from)
    else FindFrom(s, p, from + 1)
  }

  /** A hit of FindFrom is an occurrence. */
  lemma {:induction false} FindFromOccurs(s: String, p: String, from: nat)
    ensures FindFrom(s, p, from).Some? ==> OccursAt(s, p, FindFrom(s, p, from).value)
    decreases |s| - from
  {
    if from + |p| <= |s| && s[from..from + |p|] != p {
      FindFromOccurs(s, p, from + 1);
    }
  }

  /** FindFrom finds the first occurrence at or after `from`, and None means there is none. */
  lemma {:induction false} FindFromFirst(s: String, p: String, from: nat)
    ensures var r := FindFrom(s, p, from);
      (r.Some? ==> OccursAt(s, p, r.value) && forall j :: from <= j < r.value ==> !OccursAt(s, p, j)) &&
      (r.None? ==> forall j :: from <= j ==> !OccursAt(s, p, j))
    decreases |s| - from
  {
    if from + |p| <= |s| && s[from..from + |p|] != p {
      FindFromFirst(s, p, from + 1);
    }
  }

  // ---------------------------------------------------------------------------
  // Single-wildcard patterns
  // ---------------------------------------------------------------------------

  /**
   * Whether word `w` matches `pat`: without a `%`, only the pattern itself
   * matches; with one, `w` must start with the text before the first `%`, end
   * with the text after it, and be long enough for both.
   */
  predicate MatchPattern(w: String, pat: String) {
    match IndexOf(pat, '%')
    case None => w == pat
    case Some(i) => |w| + 1 >= |pat| && HasPrefix(w, pat[..i]) && HasSuffix(w, pat[i + 1..])
  }

  /** What the `%` of `pat` captures in a matching word `w`. */
  function Stem(w: String, pat: String): (stem: String)
    requires IndexOf(pat, '%').Some? && MatchPattern(w, pat)
    ensures w == pat[..IndexOf(pat, '%').value] + stem + pat[IndexOf(pat, '%').value + 1..]
  {
    var i := IndexOf(pat, '%').value;
    var stem := w[i..|w| - (|pat| - i - 1)];
    assert w == w[..i] + stem + w[|w| - (|pat| - i - 1)..];
    stem
  }

  /**
   * The word `w` rewritten by `pat` -> `repl` (AppendSubstPattern): a word that
   * does not match is kept; a match is replaced by `repl`, with the stem put
   * in place of the first `%` of `repl` when it has one.
   */
  function SubstPattern(w: String, pat: String, repl: String): String {
    if !MatchPattern(w, pat) then w
    else match IndexOf(pat, '%')
      case None => repl
      case Some(_) =>
        match IndexOf(repl, '%')
        case None => repl
        case Some(j) => repl[..j] + Stem(w, pat) + repl[j + 1..]
  }

  /** Rewriting by a pattern into itself changes nothing. */
  lemma SubstPatternSelf(w: String, pat: String)
    ensures SubstPattern(w, pat, pat) == w
  {
    if MatchPattern(w, pat) && IndexOf(pat, '%').Some? {
      var stem := Stem(w, pat);
    }
  }

  /**
   * A word rewritten from `pat` to `repl` (both with a `%`) matches `repl` with
   * the same stem, so rewriting it back from `repl` to `pat` restores it.
   */
  lemma SubstPatternRoundTrip(w: String, pat: String, repl: String)
    requires IndexOf(pat, '%').Some? && IndexOf(repl, '%').Some?
    requires MatchPattern(w, pat)
    ensures MatchPattern(SubstPattern(w, pat, repl), repl)
    ensures Stem(SubstPattern(w, pat, repl), repl) == Stem(w, pat)
    ensures SubstPattern(SubstPattern(w, pat, repl), repl, pat) == w
  {
    var i := IndexOf(pat, '%').value;
    var j := IndexOf(repl, '%').value;
    var stem := Stem(w, pat);
    var r := repl[..j] + stem + repl[j + 1..];
    assert SubstPattern(w, pat, repl) == r;
    assert r[..j] == repl[..j];
    assert r[|r| - |repl[j + 1..]|..] == repl[j + 1..];
    assert MatchPattern(r, repl);
    var stem2 := Stem(r, repl);
    assert r[j..|r| - (|repl| - j - 1)] == stem;
  }

  // ---------------------------------------------------------------------------
  // Byte-wise lexicographic order (std::string::operator<, Go string <)
  // ---------------------------------------------------------------------------

  predicate Less(a: String, b: String)
    decreases |a|
  {
    if |b| == 0 then false
    else if |a| == 0 then true
    else a[0] < b[0] || (a[0] == b[0] && Less(a[1..], b[1..]))
  }

  lemma {:induction false} LessIrreflexive(a: String)
    ensures !Less(a, a)
  {
    if |a| > 0 {
      LessIrreflexive(a[1..]);
    }
  }

  lemma {:induction false} LessAsymmetric(a: String, b: String)
    ensures Less(a, b) ==> !Less(b, a)
  {
    if |a| > 0 && |b| > 0 && a[0] == b[0] {
      LessAsymmetric(a[1..], b[1..]);
    }
  }

  lemma {:induction false} LessTransitive(a: String, b: String, c: String)
    requires Less(a, b) && Less(b, c)
    ensures Less(a, c)
  {
    if |a| > 0 && a[0] == b[0] && b[0] == c[0] {
      LessTransitive(a[1..], b[1..], c[1..]);
    }
  }

  lemma {:induction false} LessTotal(a: String, b: String)
    ensures a == b || Less(a, b) || Less(b, a)
  {
    if |a| > 0 && |b| > 0 && a[0] == b[0] {
      LessTotal(a[1..], b[1..]);
      if a[1..] == b[1..] {
        assert a == [a[0]] + a[1..] && b == [b[0]] + b[1..];
      }
    }
  }

  /** A proper prefix sorts before the longer string. */
  lemma {:induction false} PrefixNotLess(s: String, p: String)
    requires HasPrefix(s, p)
    ensures !Less(s, p)
  {
    if |p| > 0 {
      assert s[1..][..|p| - 1] == p[1..];
      PrefixNotLess(s[1..], p[1..]);
    }
  }

  // ---------------------------------------------------------------------------
  // Sorting (std::sort, sort.Strings) and duplicate removal
  // ---------------------------------------------------------------------------

  /** Non-decreasing in the string order. */
  predicate Sorted(s: seq<String>) {
    forall i, j :: 0 <= i < j < |s| ==> !Less(s[j], s[i])
  }

  /** Strictly increasing in the string order. */
  predicate StrictlySorted(s: seq<String>) {
    forall i, j :: 0 <= i < j < |s| ==> Less(s[i], s[j])
  }

  function Insert(x: String, s: seq<String>): (r: seq<String>)
    requires Sorted(s)
    ensures Sorted(r) && multiset(r) == multiset(s) + multiset{x}
    ensures |r| == |s| + 1
  {
    if |s| == 0 then [x]
    else if !Less(s[0], x) then
      LessTotal(s[0], x);
      assert forall j :: 0 <= j < |s| ==> !Less(s[j], x) by {
        forall j | 0 <= j < |s| ensures !Less(s[j], x) {
          if j > 0 && Less(s[j], x) {
            assert !Less(s[j], s[0]);
            LessTotal(s[j], s[0]);
            if s[j] != s[0] { LessTransitive(s[0], s[j], x); }
          }
        }
      }
      [x] + s
    else
      var r := [s[0]] + Insert(x, s[1..]);
      assert s == [s[0]] + s[1..];
      assert Sorted(r) by {
        forall i, j | 0 <= i < j < |r| ensures !Less(r[j], r[i]) {
          if i == 0 {
            assert r[j] in multiset(Insert(x, s[1..]));
            assert r[j] in multiset(s[1..]) + multiset{x};
            if r[j] == x {
              LessAsymmetric(s[0], x);
            } else {
              assert r[j] in s[1..];
            }
          }
        }
      }
      r
  }

  /** The words in sorted order, duplicates kept. */
  function SortStrings(s: seq<String>): (r: seq<String>)
    ensures Sorted(r) && multiset(r) == multiset(s) && |r| == |s|
  {
    if |s| == 0 then []
    else
      assert s == [s[0]] + s[1..];
      Insert(s[0], SortStrings(s[1..]))
  }

  /** Sorting a sorted list returns it unchanged. */
  lemma {:induction false} SortStringsSorted(s: seq<String>)
    requires Sorted(s)
    ensures SortStrings(s) == s
  {
    if |s| > 0 {
      SortStringsSorted(s[1..]);
      assert Sorted(s[1..]);
      LessTotal(s[0], s[0]);
      LessIrreflexive(s[0]);
    }
  }

  /** Drops every element equal to the one it follows (the `prev` test of SortFunc). */
  function Dedup(s: seq<String>): (r: seq<String>)
    ensures |r| <= |s|
    ensures forall x :: x in r <==> x in s
  {
    if |s| == 0 then []
    else
      var d := Dedup(s[..|s| - 1]);
      assert s == s[..|s| - 1] + [s[|s| - 1]];
      if |d| > 0 && d[|d| - 1] == s[|s| - 1] then d else d + [s[|s| - 1]]
  }

  /** Removing adjacent duplicates from a sorted list leaves a strictly increasing one. */
  lemma {:induction false} DedupOfSorted(s: seq<String>)
    requires Sorted(s)
    ensures StrictlySorted(Dedup(s))
    ensures |s| > 0 ==> |Dedup(s)| > 0 && Dedup(s)[|Dedup(s)| - 1] == s[|s| - 1]
  {
    if |s| > 0 {
      var init := s[..|s| - 1];
      var x := s[|s| - 1];
      assert Sorted(init);
      DedupOfSorted(init);
      var d := Dedup(init);
      if !(|d| > 0 && d[|d| - 1] == x) {
        forall i | 0 <= i < |d| ensures Less(d[i], x) {
          assert d[i] in init;
          var k :| 0 <= k < |init| && init[k] == d[i];
          assert !Less(x, d[i]);
          LessTotal(d[i], x);
        }
      }
    }
  }

  /** A strictly increasing list has no adjacent duplicates to drop. */
  lemma {:induction false} DedupOfStrictlySorted(s: seq<String>)
    requires StrictlySorted(s)
    ensures Dedup(s) == s
  {
    if |s| > 0 {
      var init := s[..|s| - 1];
      assert StrictlySorted(init);
      DedupOfStrictlySorted(init);
      if |init| > 0 {
        LessIrreflexive(s[|s| - 1]);
        assert Less(init[|init| - 1], s[|s| - 1]);
      }
      assert s == init + [s[|s| - 1]];
    }
  }

  lemma StrictlySortedIsSorted(s: seq<String>)
    requires StrictlySorted(s)
    ensures Sorted(s)
  {
    forall i, j | 0 <= i < j < |s| ensures !Less(s[j], s[i]) {
      LessAsymmetric(s[i], s[j]);
    }
  }

  // ---------------------------------------------------------------------------
  // Decimal rendering (sprintf "%d" of a non-negative int)
  // ---------------------------------------------------------------------------

  predicate IsDigit(c: char) {
    '0' <= c <= '9'
  }

  function DigitChar(d: nat): (c: char)
    requires d < 10
    ensures IsDigit(c) && DigitValue(c) == d
  {
    ('0' as int + d) as char
  }

  /** The value of a decimal digit (0 for any other character). */
  function DigitValue(c: char): (d: nat)
    ensures d < 10
  {
    if IsDigit(c) then c as int - '0' as int else 0
  }

  /** The base-10 value of a string of digits. */
  function DigitsValue(ds: String): nat {
    DigitsValueFrom(0, ds)
  }

  /** The value of the digits `ds` read after a prefix whose value is `acc`. */
  function DigitsValueFrom(acc: nat, ds: String): nat
    decreases |ds|
  {
    if |ds| == 0 then acc else DigitsValueFrom(acc * 10 + DigitValue(ds[0]), ds[1..])
  }

  lemma {:induction false} DigitsValueAppend(acc: nat, a: String, b: String)
    ensures DigitsValueFrom(acc, a + b) == DigitsValueFrom(DigitsValueFrom(acc, a), b)
    decreases |a|
  {
    if |a| > 0 {
      assert (a + b)[1..] == a[1..] + b;
      DigitsValueAppend(acc * 10 + DigitValue(a[0]), a[1..], b);
    } else {
      assert a + b == b;
    }
  }

  /** `n` in decimal, without sign or leading zeros. */
  function NatToString(n: nat): (r: String)
    ensures |r| > 0 && forall i :: 0 <= i < |r| ==> IsDigit(r[i])
  {
    if n < 10 then [DigitChar(n)] else NatToString(n / 10) + [DigitChar(n % 10)]
  }

  /** Reading back a rendered number gives the number. */
  lemma {:induction false} NatToStringValue(n: nat)
    ensures DigitsValue(NatToString(n)) == n
  {
    if n >= 10 {
      NatToStringValue(n / 10);
      var c := DigitChar(n % 10);
      DigitsValueAppend(0, NatToString(n / 10), [c]);
      assert [c][1..] == [];
      assert DigitsValueFrom(n / 10, [c]) == DigitsValueFrom((n / 10) * 10 + n % 10, []);
      assert NatToString(n) == NatToString(n / 10) + [c];
    } else {
      var c := DigitChar(n);
      assert [c][1..] == [];
      assert DigitsValueFrom(0, [c]) == DigitsValueFrom(n, []);
    }
  }
}
