/**
 * The built-in text functions of the make evaluator (func.cc).
 *
 * An argument of a function call is a `Value`, evaluated against the
 * evaluator's variable table; the `Evaluator` records every argument it is
 * asked to evaluate, in order, so that the contracts below can say which
 * arguments a handler evaluated (the laziness of `if`, `and`, `or`).  Each
 * handler appends its result to a caller-owned `Output` buffer, through a
 * `WordWriter` where the source uses one.  `Evaluator.Error` aborts the
 * evaluation: the handler records the message and returns.
 */
module Func {
  import opened Wrappers
  import opened StrUtil

  // ---------------------------------------------------------------------------
  // Argument values, the evaluator and the output buffer
  // ---------------------------------------------------------------------------

  /** An unevaluated argument: literal text, a variable reference, or two values side by side. */
  datatype Value = Literal(text: String) | VarRef(name: String) | Concat(left: Value, right: Value)

  /** What `v` expands to under the variable table `vars` (an undefined variable is empty). */
  function ValueOf(v: Value, vars: map<String, String>): String {
    match v
    case Literal(t) => t
    case VarRef(n) => if n in vars then vars[n] else []
    case Concat(l, r) => ValueOf(l, vars) + ValueOf(r, vars)
  }

  /** The string a handler appends to (`string* s`). */
  class Output {
    var text: String

    constructor (text: String)
      ensures this.text == text
    {
      this.text := text;
    }

    /** AppendString. */
    method Append(t: String)
      modifies this
      ensures text == old(text) + t
    {
      text := text + t;
    }
  }

  class Evaluator {
    var vars: map<String, String>
    /** Every argument evaluated so far, in evaluation order. */
    var evaluated: seq<Value>
    /** The message of the error that aborted evaluation, if any. */
    var error: Option<String>

    constructor (vars: map<String, String>)
      ensures this.vars == vars && evaluated == [] && error == None
    {
      this.vars := vars;
      evaluated := [];
      error := None;
    }

    /** `v->Eval(ev)`: the expansion of `v`. */
    method Eval(v: Value) returns (r: String)
      modifies this`evaluated
      ensures r == ValueOf(v, vars)
      ensures evaluated == old(evaluated) + [v]
    {
      evaluated := evaluated + [v];
      r := ValueOf(v, vars);
    }

    /** `v->Eval(ev, s)`: the expansion of `v`, appended to `s`. */
    method EvalInto(v: Value, s: Output)
      modifies this`evaluated, s
      ensures s.text == old(s.text) + ValueOf(v, vars)
      ensures evaluated == old(evaluated) + [v]
    {
      var r := Eval(v);
      s.Append(r);
    }

    /** `ev->Error(msg)`: reports `msg` and ends the evaluation. */
    method Error(msg: String)
      modifies this`error
      ensures error == Some(msg)
    {
      error := Some(msg);
    }

    /** Binds `name` to `value` for one scope, returning the binding it hides (ScopedVar's constructor). */
    method PushVar(name: String, value: String) returns (saved: Option<String>)
      modifies this`vars
      ensures vars == old(vars)[name := value]
      ensures saved == if name in old(vars) then Some(old(vars)[name]) else None
    {
      saved := if name in vars then Some(vars[name]) else None;
      vars := vars[name := value];
    }

    /** Restores the binding `PushVar` hid (ScopedVar's destructor). */
    method PopVar(name: String, saved: Option<String>)
      modifies this`vars
      ensures vars == match saved
        case Some(v) => old(vars)[name := v]
        case None => old(vars) - {name}
    {
      match saved
      case Some(v) => vars := vars[name := v];
      case None => vars := vars - {name};
    }
  }

  /** A scope that pushes and then pops a binding leaves the table as it was. */
  lemma PushPopRestores(vars: map<String, String>, name: String, value: String)
    ensures var saved := if name in vars then Some(vars[name]) else None;
      (match saved
       case Some(v) => vars[name := value][name := v]
       case None => vars[name := value] - {name}) == vars
  {
  }

  /**
   * Writes words separated by single spaces: the first write adds no
   * separator, every later one adds one space first.
   */
  class WordWriter {
    const out: Output
    var needsSpace: bool

    constructor (out: Output)
      ensures this.out == out && !needsSpace
    {
      this.out := out;
      needsSpace := false;
    }

    method MaybeAddWhitespace()
      modifies this, out
      ensures needsSpace
      ensures out.text == old(out.text) + (if old(needsSpace) then " " else "")
    {
      if needsSpace {
        out.Append(" ");
      } else {
        needsSpace := true;
      }
    }

    method Write(w: String)
      modifies this, out
      ensures needsSpace
      ensures out.text == old(out.text) + (if old(needsSpace) then " " else "") + w
    {
      MaybeAddWhitespace();
      out.Append(w);
    }
  }

  /** `f` applied to each word, in order. */
  function MapWords(f: String -> String, ws: seq<String>): (r: seq<String>)
    ensures |r| == |ws| && forall i :: 0 <= i < |ws| ==> r[i] == f(ws[i])
  {
    seq(|ws|, i requires 0 <= i < |ws| => f(ws[i]))
  }

  lemma MapWordsSnoc(f: String -> String, ws: seq<String>, i: nat)
    requires i < |ws|
    ensures MapWords(f, ws[..i + 1]) == MapWords(f, ws[..i]) + [f(ws[i])]
  {
  }

  /** Writing one more item through a WordWriter extends the joined text by it. */
  lemma WriteExtendsJoin(prefix: String, done: seq<String>, x: String)
    ensures prefix + Join(done) + (if |done| > 0 then " " else "") + x == prefix + Join(done + [x])
  {
    JoinSnoc(done, x);
    if |done| > 0 {
      AppendAssoc(prefix, Join(done), " ", x);
    } else {
      assert prefix + Join(done) + "" == prefix;
    }
  }

  /** Writing `w` and then appending `t` directly extends the joined text by `w + t`. */
  lemma WriteAppendExtendsJoin(prefix: String, done: seq<String>, w: String, t: String)
    ensures prefix + Join(done) + (if |done| > 0 then " " else "") + w + t == prefix + Join(done + [w + t])
  {
    var sep: String := if |done| > 0 then " " else "";
    assert prefix + Join(done) + sep + w + t == prefix + Join(done) + sep + (w + t);
    WriteExtendsJoin(prefix, done, w + t);
  }

  // ---------------------------------------------------------------------------
  // Numeric arguments (GetNumericValueForFunc)
  // ---------------------------------------------------------------------------

  const LONG_MAX: int := 0x7FFF_FFFF_FFFF_FFFF
  const LONG_MIN: int := -0x8000_0000_0000_0000
  const INT_MIN: int := -0x8000_0000
  const INT_MAX: int := 0x7FFF_FFFF

  /** The number of decimal digits `s` starts with. */
  function LeadingDigits(s: String): (k: nat)
    ensures k <= |s|
    ensures k < |s| ==> !IsDigit(s[k])
  {
    if |s| == 0 || !IsDigit(s[0]) then 0 else 1 + LeadingDigits(s[1..])
  }

  /**
   * `strtol(s, &end, 10)`: the value read and the number of characters
   * consumed (`end - s`).  Leading whitespace and one sign are accepted; with
   * no digits nothing is consumed and the value is 0; a value out of range
   * is clamped to LONG_MAX or LONG_MIN.
   */
  function Strtol(s: String): (r: (int, nat))
    ensures LONG_MIN <= r.0 <= LONG_MAX && r.1 <= |s|
  {
    var t := TrimLeftSpace(s);
    var (v, k) := StrtolSigned(t);
    if k == 0 then (0, 0) else (v, |s| - |t| + k)
  }

  /** `strtol` past the whitespace: an optional sign, then the digits. */
  function StrtolSigned(t: String): (r: (int, nat))
    ensures LONG_MIN <= r.0 <= LONG_MAX && r.1 <= |t|
  {
    var signLen := if |t| > 0 && (t[0] == '+' || t[0] == '-') then 1 else 0;
    var negative := signLen == 1 && t[0] == '-';
    var k := LeadingDigits(t[signLen..]);
    if k == 0 then (0, 0)
    else (Clamp(negative, DigitsValue(t[signLen..][..k])), signLen + k)
  }

  /** The clamped value of a signed magnitude, as `strtol` returns it. */
  function Clamp(negative: bool, magnitude: nat): (v: int)
    ensures LONG_MIN <= v <= LONG_MAX
  {
    var m: int := magnitude;
    if negative then (if -m < LONG_MIN then LONG_MIN else -m)
    else (if m > LONG_MAX then LONG_MAX else m)
  }

  /** The C conversion of a `long` to a 32-bit `int`: the low 32 bits, in two's complement. */
  function ToInt32(v: int): (n: int)
    ensures INT_MIN <= n <= INT_MAX
    ensures INT_MIN <= v <= INT_MAX ==> n == v
  {
    var low := v % 0x1_0000_0000;
    if low > INT_MAX then low - 0x1_0000_0000 else low
  }

  /**
   * The numeric value of a function argument: -1 unless the text after its
   * leading whitespace is entirely one `strtol` number that is non-negative
   * and below LONG_MAX; that number is then truncated to an `int`.
   */
  function GetNumericValueForFunc(buf: String): (n: int)
    ensures INT_MIN <= n <= INT_MAX
  {
    var s := TrimLeftSpace(buf);
    var (v, end) := Strtol(s);
    if v < 0 || v == LONG_MAX || end != |s| then -1 else ToInt32(v)
  }

  lemma {:induction false} LeadingDigitsOfDigits(s: String, rest: String)
    requires forall i :: 0 <= i < |s| ==> IsDigit(s[i])
    requires rest == [] || !IsDigit(rest[0])
    ensures LeadingDigits(s + rest) == |s|
  {
    if |s| > 0 {
      assert (s + rest)[1..] == s[1..] + rest;
      LeadingDigitsOfDigits(s[1..], rest);
    }
  }

  /** A string of whitespace, the empty string included, has the value 0. */
  lemma NumericOfBlank(buf: String)
    requires forall i :: 0 <= i < |buf| ==> IsSpace(buf[i])
    ensures GetNumericValueForFunc(buf) == 0
  {
    TrimLeftSpaceSpec(buf);
  }

  /** A sign `strtol` accepts before the digits: none, `+` or `-`. */
  predicate IsSign(sign: String) {
    sign == "" || sign == "+" || sign == "-"
  }

  /** `strtol` on an optional sign, digits, then a tail that does not start with a digit. */
  lemma StrtolOfNumber(sign: String, d: String, rest: String)
    requires IsSign(sign)
    requires |d| > 0 && forall i :: 0 <= i < |d| ==> IsDigit(d[i])
    requires rest == [] || !IsDigit(rest[0])
    ensures Strtol(sign + d + rest) == (Clamp(sign == "-", DigitsValue(d)), |sign| + |d|)
  {
    var s := sign + d + rest;
    assert TrimLeftSpace(s) == s by {
      assert !IsSpace(s[0]);
    }
    if sign == "" {
      assert s == d + rest;
      StrtolSignedOfDigits(d, rest);
    } else {
      StrtolSignedOfSigned(sign[0], d, rest);
      assert s == [sign[0]] + d + rest;
    }
  }

  lemma StrtolSignedOfDigits(d: String, rest: String)
    requires |d| > 0 && forall i :: 0 <= i < |d| ==> IsDigit(d[i])
    requires rest == [] || !IsDigit(rest[0])
    ensures StrtolSigned(d + rest) == (Clamp(false, DigitsValue(d)), |d|)
  {
    var t := d + rest;
    var k := LeadingDigits(t);
    assert k == |d| && t[0..][..k] == d by {
      LeadingDigitsOfDigits(d, rest);
    }
  }

  lemma StrtolSignedOfSigned(c: char, d: String, rest: String)
    requires c == '+' || c == '-'
    requires |d| > 0 && forall i :: 0 <= i < |d| ==> IsDigit(d[i])
    requires rest == [] || !IsDigit(rest[0])
    ensures StrtolSigned([c] + d + rest) == (Clamp(c == '-', DigitsValue(d)), 1 + |d|)
  {
    var t := [c] + d + rest;
    var u := t[1..];
    assert u == d + rest;
    LeadingDigitsOfDigits(d, rest);
    assert u[..|d|] == d;
    assert StrtolSigned(t) == (Clamp(c == '-', DigitsValue(u[..|d|])), 1 + |d|);
  }

  /**
   * A number written in decimal reads back as itself, truncated to an `int`
   * when it is below LONG_MAX, and as -1 from LONG_MAX on.
   */
  lemma NumericOfDecimal(n: nat)
    ensures GetNumericValueForFunc(NatToString(n)) == if n < LONG_MAX then ToInt32(n) else -1
  {
    NumericOfDigits(NatToString(n));
    NatToStringValue(n);
  }

  /** A non-empty string of digits reads as its value, the same way. */
  lemma NumericOfDigits(d: String)
    requires |d| > 0 && forall i :: 0 <= i < |d| ==> IsDigit(d[i])
    ensures var v := DigitsValue(d);
      GetNumericValueForFunc(d) == if v < LONG_MAX then ToInt32(v) else -1
  {
    var v := DigitsValue(d);
    assert TrimLeftSpace(d) == d by {
      assert !IsSpace(d[0]);
    }
    assert Strtol(d) == (Clamp(false, v), |d|) by {
      StrtolOfNumber("", d, []);
      assert "" + d + [] == d;
    }
    if v < LONG_MAX {
      assert Clamp(false, v) == v;
    } else {
      assert Clamp(false, v) == LONG_MAX;
    }
  }

  /** Hence every `int` from 0 up reads back exactly. */
  lemma NumericOfSmallDecimal(n: nat)
    requires n <= INT_MAX
    ensures GetNumericValueForFunc(NatToString(n)) == n
  {
    NumericOfDecimal(n);
  }

  /** Leading whitespace is skipped. */
  lemma NumericSkipsLeadingSpace(c: char, buf: String)
    requires IsSpace(c)
    ensures GetNumericValueForFunc([c] + buf) == GetNumericValueForFunc(buf)
  {
    assert ([c] + buf)[1..] == buf;
  }

  /**
   * A number, signed or not, followed by any text that does not continue its
   * digits, trailing whitespace included, is -1.
   */
  lemma NumericRejectsTrailing(sign: String, d: String, rest: String)
    requires IsSign(sign)
    requires |d| > 0 && forall i :: 0 <= i < |d| ==> IsDigit(d[i])
    requires |rest| > 0 && !IsDigit(rest[0])
    ensures GetNumericValueForFunc(sign + d + rest) == -1
  {
    var s := sign + d + rest;
    assert TrimLeftSpace(s) == s by {
      assert !IsSpace(s[0]);
    }
    StrtolOfNumber(sign, d, rest);
  }

  /** A negative number is -1, whatever follows its digits. */
  lemma NumericRejectsNegative(d: String, rest: String)
    requires |d| > 0 && forall i :: 0 <= i < |d| ==> IsDigit(d[i])
    requires DigitsValue(d) > 0
    requires rest == [] || !IsDigit(rest[0])
    ensures GetNumericValueForFunc("-" + d + rest) == -1
  {
    var s := "-" + d + rest;
    assert TrimLeftSpace(s) == s by {
      assert !IsSpace(s[0]);
    }
    StrtolOfNumber("-", d, rest);
  }

  /** Text that starts with neither a digit nor a sign followed by a digit is -1. */
  lemma NumericRejectsNonNumber(buf: String)
    requires |buf| > 0 && !IsSpace(buf[0]) && !IsDigit(buf[0])
    requires (buf[0] == '+' || buf[0] == '-') && |buf| > 1 ==> !IsDigit(buf[1])
    ensures GetNumericValueForFunc(buf) == -1
  {
    assert TrimLeftSpace(buf) == buf;
    if buf[0] == '+' || buf[0] == '-' {
      assert LeadingDigits(buf[1..]) == 0;
    } else {
      assert LeadingDigits(buf) == 0;
    }
  }

  // ---------------------------------------------------------------------------
  // Per-word transformers: patsubst, strip, dir, notdir, suffix, basename,
  // addsuffix, addprefix
  // ---------------------------------------------------------------------------

  /** The rewrite `patsubst` applies to one word. */
  function PatsubstFn(pat: String, repl: String): String -> String {
    w => SubstPattern(w, pat, repl)
  }

  /**
   * Evaluates `pat`, `repl` and the text, then writes each word of the text
   * rewritten by `pat` -> `repl`, words separated by single spaces.
   */
  method Patsubst(args: seq<Value>, ev: Evaluator, s: Output)
    requires |args| == 3
    modifies ev`evaluated, s
    ensures ev.evaluated == old(ev.evaluated) + args
    ensures s.text == old(s.text) + Join(MapWords(
      PatsubstFn(ValueOf(args[0], ev.vars), ValueOf(args[1], ev.vars)), Words(ValueOf(args[2], ev.vars))))
  {
    var pat := ev.Eval(args[0]);
    var repl := ev.Eval(args[1]);
    var str := ev.Eval(args[2]);
    assert args == [args[0], args[1], args[2]];
    var ws := Words(str);
    var f := PatsubstFn(pat, repl);
    var ww := new WordWriter(s);
    var s0 := s.text;
    for i := 0 to |ws|
      invariant s.text == s0 + Join(MapWords(f, ws[..i]))
      invariant ww.needsSpace == (i > 0)
      modifies ww, s
    {
      ww.MaybeAddWhitespace();
      s.Append(SubstPattern(ws[i], pat, repl));
      MapWordsSnoc(f, ws, i);
      WriteExtendsJoin(s0, MapWords(f, ws[..i]), f(ws[i]));
    }
    assert ws[..|ws|] == ws;
  }

  /** Rewriting by `patsubst` and back restores every word that matched the first pattern. */
  lemma PatsubstRoundTrip(ws: seq<String>, pat: String, repl: String)
    requires IndexOf(pat, '%').Some? && IndexOf(repl, '%').Some?
    requires forall i :: 0 <= i < |ws| ==> MatchPattern(ws[i], pat)
    ensures MapWords(PatsubstFn(repl, pat), MapWords(PatsubstFn(pat, repl), ws)) == ws
  {
    var once := MapWords(PatsubstFn(pat, repl), ws);
    var twice := MapWords(PatsubstFn(repl, pat), once);
    forall i | 0 <= i < |ws| ensures twice[i] == ws[i] {
      SubstPatternRoundTrip(ws[i], pat, repl);
    }
  }

  /** Writes the words of the text separated by single spaces. */
  method Strip(args: seq<Value>, ev: Evaluator, s: Output)
    requires |args| == 1
    modifies ev`evaluated, s
    ensures ev.evaluated == old(ev.evaluated) + args
    ensures s.text == old(s.text) + Join(Words(ValueOf(args[0], ev.vars)))
  {
    var str := ev.Eval(args[0]);
    assert args == [args[0]];
    var ws := Words(str);
    var ww := new WordWriter(s);
    var s0 := s.text;
    for i := 0 to |ws|
      invariant s.text == s0 + Join(ws[..i])
      invariant ww.needsSpace == (i > 0)
      modifies ww, s
    {
      ww.Write(ws[i]);
      assert ws[..i + 1] == ws[..i] + [ws[i]];
      WriteExtendsJoin(s0, ws[..i], ws[i]);
    }
    assert ws[..|ws|] == ws;
  }

  /** What `dir` writes for one word: its directory, with a `/` after it unless the word is `/`. */
  function DirFn(dirname: String -> String): String -> String {
    w => dirname(w) + (if w != "/" then "/" else "")
  }

  /** What `notdir` writes for one word: nothing for `/`, else its last component. */
  function NotdirFn(basename: String -> String): String -> String {
    w => if w == "/" then "" else basename(w)
  }

  /**
   * The shared loop of `dir`, `notdir` and `basename`: writes `f` of each word
   * of the text through a WordWriter.  `dir` writes `Dirname(tok)` and then
   * its `/` straight into the buffer; the two appends are folded into `f`.
   */
  method WriteEachWord(f: String -> String, args: seq<Value>, ev: Evaluator, s: Output)
    requires |args| == 1
    modifies ev`evaluated, s
    ensures ev.evaluated == old(ev.evaluated) + args
    ensures s.text == old(s.text) + Join(MapWords(f, Words(ValueOf(args[0], ev.vars))))
  {
    var text := ev.Eval(args[0]);
    assert args == [args[0]];
    var ws := Words(text);
    var ww := new WordWriter(s);
    var s0 := s.text;
    for i := 0 to |ws|
      invariant s.text == s0 + Join(MapWords(f, ws[..i]))
      invariant ww.needsSpace == (i > 0)
      modifies ww, s
    {
      ww.Write(f(ws[i]));
      MapWordsSnoc(f, ws, i);
      WriteExtendsJoin(s0, MapWords(f, ws[..i]), f(ws[i]));
    }
    assert ws[..|ws|] == ws;
  }

  /** `dir`, over the path helper `dirname` (Dirname), which is not part of this model. */
  method Dir(dirname: String -> String, args: seq<Value>, ev: Evaluator, s: Output)
    requires |args| == 1
    modifies ev`evaluated, s
    ensures ev.evaluated == old(ev.evaluated) + args
    ensures s.text == old(s.text) + Join(MapWords(DirFn(dirname), Words(ValueOf(args[0], ev.vars))))
  {
    WriteEachWord(DirFn(dirname), args, ev, s);
  }

  /** `notdir`, over the path helper `basename` (Basename), which is not part of this model. */
  method Notdir(basename: String -> String, args: seq<Value>, ev: Evaluator, s: Output)
    requires |args| == 1
    modifies ev`evaluated, s
    ensures ev.evaluated == old(ev.evaluated) + args
    ensures s.text == old(s.text) + Join(MapWords(NotdirFn(basename), Words(ValueOf(args[0], ev.vars))))
  {
    WriteEachWord(NotdirFn(basename), args, ev, s);
  }

  /** `basename`, over the path helper `stripExt` (StripExt), which is not part of this model. */
  method Basename(stripExt: String -> String, args: seq<Value>, ev: Evaluator, s: Output)
    requires |args| == 1
    modifies ev`evaluated, s
    ensures ev.evaluated == old(ev.evaluated) + args
    ensures s.text == old(s.text) + Join(MapWords(stripExt, Words(ValueOf(args[0], ev.vars))))
  {
    WriteEachWord(stripExt, args, ev, s);
  }

  /** The non-empty extensions of the words, in order. */
  function NonEmptyExts(getExt: String -> String, ws: seq<String>): (r: seq<String>)
    ensures |r| <= |ws|
    ensures forall i :: 0 <= i < |r| ==> r[i] != []
  {
    if |ws| == 0 then []
    else
      var r := NonEmptyExts(getExt, ws[..|ws| - 1]);
      var e := getExt(ws[|ws| - 1]);
      if e == [] then r else r + [e]
  }

  /** A list whose every word has an extension keeps all of them, in order. */
  lemma {:induction false} NonEmptyExtsAll(getExt: String -> String, ws: seq<String>)
    requires forall i :: 0 <= i < |ws| ==> getExt(ws[i]) != []
    ensures NonEmptyExts(getExt, ws) == MapWords(getExt, ws)
  {
    if |ws| > 0 {
      NonEmptyExtsAll(getExt, ws[..|ws| - 1]);
    }
  }

  /** `suffix`, over the path helper `getExt` (GetExt), which is not part of this model: empty extensions are skipped. */
  method Suffix(getExt: String -> String, args: seq<Value>, ev: Evaluator, s: Output)
    requires |args| == 1
    modifies ev`evaluated, s
    ensures ev.evaluated == old(ev.evaluated) + args
    ensures s.text == old(s.text) + Join(NonEmptyExts(getExt, Words(ValueOf(args[0], ev.vars))))
  {
    var text := ev.Eval(args[0]);
    assert args == [args[0]];
    var ws := Words(text);
    var ww := new WordWriter(s);
    var s0 := s.text;
    for i := 0 to |ws|
      invariant s.text == s0 + Join(NonEmptyExts(getExt, ws[..i]))
      invariant ww.needsSpace == (|NonEmptyExts(getExt, ws[..i])| > 0)
      modifies ww, s
    {
      var suf := getExt(ws[i]);
      assert ws[..i + 1][..i] == ws[..i];
      if suf != [] {
        WriteExtendsJoin(s0, NonEmptyExts(getExt, ws[..i]), suf);
        ww.Write(suf);
      }
    }
    assert ws[..|ws|] == ws;
  }

  /** What `addsuffix` writes for one word. */
  function AddsuffixFn(suf: String): String -> String {
    w => w + suf
  }

  /** What `addprefix` writes for one word. */
  function AddprefixFn(pre: String): String -> String {
    w => pre + w
  }

  /** Writes each word of the text followed by the suffix. */
  method Addsuffix(args: seq<Value>, ev: Evaluator, s: Output)
    requires |args| == 2
    modifies ev`evaluated, s
    ensures ev.evaluated == old(ev.evaluated) + args
    ensures s.text == old(s.text) + Join(MapWords(AddsuffixFn(ValueOf(args[0], ev.vars)), Words(ValueOf(args[1], ev.vars))))
  {
    var suf := ev.Eval(args[0]);
    var text := ev.Eval(args[1]);
    assert args == [args[0], args[1]];
    var ws := Words(text);
    var f := AddsuffixFn(suf);
    var ww := new WordWriter(s);
    var s0 := s.text;
    for i := 0 to |ws|
      invariant s.text == s0 + Join(MapWords(f, ws[..i]))
      invariant ww.needsSpace == (i > 0)
      modifies ww, s
    {
      MapWordsSnoc(f, ws, i);
      WriteAppendExtendsJoin(s0, MapWords(f, ws[..i]), ws[i], suf);
      ww.Write(ws[i]);
      s.Append(suf);
    }
    assert ws[..|ws|] == ws;
  }

  /** Writes each word of the text preceded by the prefix. */
  method Addprefix(args: seq<Value>, ev: Evaluator, s: Output)
    requires |args| == 2
    modifies ev`evaluated, s
    ensures ev.evaluated == old(ev.evaluated) + args
    ensures s.text == old(s.text) + Join(MapWords(AddprefixFn(ValueOf(args[0], ev.vars)), Words(ValueOf(args[1], ev.vars))))
  {
    var pre := ev.Eval(args[0]);
    var text := ev.Eval(args[1]);
    assert args == [args[0], args[1]];
    var ws := Words(text);
    var f := AddprefixFn(pre);
    var ww := new WordWriter(s);
    var s0 := s.text;
    for i := 0 to |ws|
      invariant s.text == s0 + Join(MapWords(f, ws[..i]))
      invariant ww.needsSpace == (i > 0)
      modifies ww, s
    {
      MapWordsSnoc(f, ws, i);
      WriteAppendExtendsJoin(s0, MapWords(f, ws[..i]), pre, ws[i]);
      ww.Write(pre);
      s.Append(ws[i]);
    }
    assert ws[..|ws|] == ws;
  }

  /**
   * With a suffix (or prefix) free of whitespace, the words of the output are
   * exactly the input words with the suffix (prefix) attached.
   */
  lemma AddsuffixWords(text: String, suf: String)
    requires NoSpace(suf)
    ensures Words(Join(MapWords(AddsuffixFn(suf), Words(text)))) == MapWords(AddsuffixFn(suf), Words(text))
  {
    var ws := Words(text);
    var r := MapWords(AddsuffixFn(suf), ws);
    forall i | 0 <= i < |r| ensures IsWord(r[i]) {
      assert r[i] == ws[i] + suf;
      assert IsWord(ws[i]);
    }
    WordsOfJoin(r);
  }

  lemma AddprefixWords(text: String, pre: String)
    requires NoSpace(pre)
    ensures Words(Join(MapWords(AddprefixFn(pre), Words(text)))) == MapWords(AddprefixFn(pre), Words(text))
  {
    var ws := Words(text);
    var r := MapWords(AddprefixFn(pre), ws);
    forall i | 0 <= i < |r| ensures IsWord(r[i]) {
      assert r[i] == pre + ws[i];
      assert IsWord(ws[i]);
    }
    WordsOfJoin(r);
  }

  // ---------------------------------------------------------------------------
  // subst and findstring
  // ---------------------------------------------------------------------------

  /**
   * `str` from `index` on with every occurrence of the non-empty `pat`
   * replaced by `repl`: occurrences are taken left to right, and the search
   * resumes just after each one, so they never overlap.
   */
  function ReplaceFrom(str: String, pat: String, repl: String, index: nat): String
    requires |pat| > 0 && index <= |str|
    decreases |str| - index
  {
    match FindFrom(str, pat, index)
    case None => str[index..]
    case Some(f) => str[index..f] + repl + ReplaceFrom(str, pat, repl, f + |pat|)
  }

  /** The result of `subst`: an empty pattern leaves the text unchanged. */
  function SubstText(pat: String, repl: String, str: String): String {
    if |pat| == 0 then str else ReplaceFrom(str, pat, repl, 0)
  }

  /**
   * `subst` as written: the search loop, run for at most `fuel` iterations
   * that find an occurrence; None when it would need more.
   */
  function SubstLoopAsWritten(pat: String, repl: String, str: String, index: nat, fuel: nat): Option<String>
    requires index <= |str|
    decreases fuel
  {
    if index < |str| then
      match FindFrom(str, pat, index)
      case None => Some(str[index..])
      case Some(f) =>
        if fuel == 0 then None
        else match SubstLoopAsWritten(pat, repl, str, f + |pat|, fuel - 1)
          case None => None
          case Some(rest) => Some(str[index..f] + repl + rest)
    else Some(str[index..])
  }

  /**
   * With an empty pattern and a non-empty text the loop as written finds an
   * occurrence at `index` itself and advances `index` by 0: no number of
   * iterations ends it.
   */
  lemma {:induction false} SubstEmptyPatternDiverges(repl: String, str: String, fuel: nat)
    requires |str| > 0
    ensures SubstLoopAsWritten([], repl, str, 0, fuel) == None
  {
    assert str[0..0] == [];
    assert FindFrom(str, [], 0) == Some(0);
    if fuel > 0 {
      SubstEmptyPatternDiverges(repl, str, fuel - 1);
    }
  }

  /** With a non-empty pattern the loop as written ends within |str| - index + 1 iterations and computes ReplaceFrom. */
  lemma {:induction false} SubstLoopAgrees(pat: String, repl: String, str: String, index: nat, fuel: nat)
    requires |pat| > 0 && index <= |str| && fuel >= |str| - index
    ensures SubstLoopAsWritten(pat, repl, str, index, fuel) == Some(ReplaceFrom(str, pat, repl, index))
    decreases |str| - index
  {
    if index < |str| {
      match FindFrom(str, pat, index)
      case None =>
      case Some(f) =>
        SubstLoopAgrees(pat, repl, str, f + |pat|, fuel - 1);
    }
  }

  /** Whatever the loop as written computes from `index` on, for a non-empty pattern, is ReplaceFrom. */
  lemma {:induction false} SubstLoopSound(pat: String, repl: String, str: String, index: nat, fuel: nat)
    requires |pat| > 0 && index <= |str|
    ensures SubstLoopAsWritten(pat, repl, str, index, fuel).Some? ==>
              SubstLoopAsWritten(pat, repl, str, index, fuel).value == ReplaceFrom(str, pat, repl, index)
    decreases fuel
  {
    if index < |str| {
      match FindFrom(str, pat, index)
      case None =>
      case Some(f) =>
        if fuel > 0 {
          SubstLoopSound(pat, repl, str, f + |pat|, fuel - 1);
        }
    }
  }

  /**
   * Wherever the loop as written finishes, it agrees with SubstText: for a
   * non-empty pattern, and for an empty pattern on an empty text, where it
   * writes nothing.
   */
  lemma SubstAgreesWhereItEnds(pat: String, repl: String, str: String, fuel: nat)
    ensures SubstLoopAsWritten(pat, repl, str, 0, fuel).Some? ==>
              SubstLoopAsWritten(pat, repl, str, 0, fuel).value == SubstText(pat, repl, str)
  {
    if |pat| == 0 {
      if |str| > 0 {
        SubstEmptyPatternDiverges(repl, str, fuel);
      }
    } else {
      SubstLoopSound(pat, repl, str, 0, fuel);
    }
  }

  /**
   * Writes the text with each occurrence of the pattern replaced.  An empty
   * pattern leaves the text unchanged.
   */
  method Subst(args: seq<Value>, ev: Evaluator, s: Output)
    requires |args| == 3
    modifies ev`evaluated, s
    ensures ev.evaluated == old(ev.evaluated) + args
    ensures s.text == old(s.text) + SubstText(ValueOf(args[0], ev.vars), ValueOf(args[1], ev.vars), ValueOf(args[2], ev.vars))
  {
    var pat := ev.Eval(args[0]);
    var repl := ev.Eval(args[1]);
    var str := ev.Eval(args[2]);
    assert args == [args[0], args[1], args[2]];
    if |pat| == 0 {
      s.Append(str);
      return;
    }
    assert SubstText(pat, repl, str) == ReplaceFrom(str, pat, repl, 0);
    ReplaceAll(str, pat, repl, s);
  }

  /**
   * The search loop of SubstFunc for a non-empty pattern: copy the text up to
   * each occurrence, write the replacement, resume after the occurrence.
   */
  method ReplaceAll(str: String, pat: String, repl: String, s: Output)
    requires |pat| > 0
    modifies s
    ensures s.text == old(s.text) + ReplaceFrom(str, pat, repl, 0)
  {
    var s0 := s.text;
    var index := 0;
    while index < |str|
      invariant index <= |str|
      invariant s.text + ReplaceFrom(str, pat, repl, index) == s0 + ReplaceFrom(str, pat, repl, 0)
      decreases |str| - index
    {
      var found := FindFrom(str, pat, index);
      if found.None? {
        break;
      }
      var f := found.value;
      var before := str[index..f];
      ReplaceStep(str, pat, repl, index, s.text, s0 + ReplaceFrom(str, pat, repl, 0));
      s.Append(before);
      s.Append(repl);
      index := f + |pat|;
    }
    ReplaceFromRest(str, pat, repl, index);
    s.Append(str[index..]);
  }

  /** One step of the replacement loop keeps what is written followed by what remains equal to `whole`. */
  lemma ReplaceStep(str: String, pat: String, repl: String, index: nat, t: String, whole: String)
    requires |pat| > 0 && index <= |str| && FindFrom(str, pat, index).Some?
    requires t + ReplaceFrom(str, pat, repl, index) == whole
    ensures var f := FindFrom(str, pat, index).value;
      f + |pat| <= |str| && t + str[index..f] + repl + ReplaceFrom(str, pat, repl, f + |pat|) == whole
  {
    var f := FindFrom(str, pat, index).value;
    ReplaceFromFound(str, pat, repl, index);
    AppendAssoc(t, str[index..f], repl, ReplaceFrom(str, pat, repl, f + |pat|));
  }

  lemma AppendAssoc(before: String, a: String, b: String, rest: String)
    ensures before + (a + b + rest) == before + a + b + rest
  {
  }

  /** One step of ReplaceFrom: the text before the next occurrence, `repl`, then the rest. */
  lemma ReplaceFromFound(str: String, pat: String, repl: String, index: nat)
    requires |pat| > 0 && index <= |str| && FindFrom(str, pat, index).Some?
    ensures var f := FindFrom(str, pat, index).value;
      f + |pat| <= |str| &&
      ReplaceFrom(str, pat, repl, index) == str[index..f] + repl + ReplaceFrom(str, pat, repl, f + |pat|)
  {
  }

  /** Where no occurrence is left, in particular at the end of the text, ReplaceFrom is the rest of the text. */
  lemma ReplaceFromRest(str: String, pat: String, repl: String, index: nat)
    requires |pat| > 0 && index <= |str|
    requires index == |str| || FindFrom(str, pat, index).None?
    ensures ReplaceFrom(str, pat, repl, index) == str[index..]
  {
  }

  /** Replacing a pattern by itself changes nothing. */
  lemma {:induction false} ReplaceFromSelf(str: String, pat: String, index: nat)
    requires |pat| > 0 && index <= |str|
    ensures ReplaceFrom(str, pat, pat, index) == str[index..]
    decreases |str| - index
  {
    match FindFrom(str, pat, index)
    case None =>
    case Some(f) =>
      FindFromOccurs(str, pat, index);
      ReplaceFromSelf(str, pat, f + |pat|);
      assert str[f..f + |pat|] == pat;
      assert str[index..] == str[index..f] + str[f..f + |pat|] + str[f + |pat|..];
  }

  lemma SubstSelf(pat: String, str: String)
    ensures SubstText(pat, pat, str) == str
  {
    if |pat| > 0 {
      ReplaceFromSelf(str, pat, 0);
    }
  }

  /** A text in which the pattern does not occur is written unchanged. */
  lemma SubstAbsent(pat: String, repl: String, str: String)
    requires |pat| > 0
    requires forall j :: 0 <= j ==> !OccursAt(str, pat, j)
    ensures SubstText(pat, repl, str) == str
  {
    FindFromFirst(str, pat, 0);
  }

  /** Writes the first argument when it occurs in the second. */
  method Findstring(args: seq<Value>, ev: Evaluator, s: Output)
    requires |args| == 2
    modifies ev`evaluated, s
    ensures ev.evaluated == old(ev.evaluated) + args
    ensures var find := ValueOf(args[0], ev.vars);
      s.text == old(s.text) + (if exists j :: OccursAt(ValueOf(args[1], ev.vars), find, j) then find else [])
  {
    var find := ev.Eval(args[0]);
    var in_ := ev.Eval(args[1]);
    assert args == [args[0], args[1]];
    var found := FindFrom(in_, find, 0);
    FindFromFirst(in_, find, 0);
    if found.Some? {
      s.Append(find);
    }
  }

  // ---------------------------------------------------------------------------
  // filter, filter-out and sort
  // ---------------------------------------------------------------------------

  /** Whether `w` matches one of the patterns. */
  predicate MatchesAny(w: String, pats: seq<String>) {
    exists i :: 0 <= i < |pats| && MatchPattern(w, pats[i])
  }

  /** The words that match some pattern (`keep`) or that match none (`!keep`), in order, duplicates kept. */
  function Filtered(ws: seq<String>, pats: seq<String>, keep: bool): seq<String> {
    if |ws| == 0 then []
    else
      var r := Filtered(ws[..|ws| - 1], pats, keep);
      if MatchesAny(ws[|ws| - 1], pats) == keep then r + [ws[|ws| - 1]] else r
  }

  /**
   * `filter` and `filter-out` partition the words: each word goes to exactly
   * one side, decided by whether it matches a pattern, and the two sides
   * together hold every word as often as the input does.
   */
  lemma {:induction false} FilterPartition(ws: seq<String>, pats: seq<String>)
    ensures |Filtered(ws, pats, true)| + |Filtered(ws, pats, false)| == |ws|
    ensures multiset(Filtered(ws, pats, true)) + multiset(Filtered(ws, pats, false)) == multiset(ws)
    ensures forall w :: w in Filtered(ws, pats, true) ==> MatchesAny(w, pats)
    ensures forall w :: w in Filtered(ws, pats, false) ==> !MatchesAny(w, pats)
  {
    if |ws| > 0 {
      var init := ws[..|ws| - 1];
      FilterPartition(init, pats);
      assert ws == init + [ws[|ws| - 1]];
    }
  }

  /** Words that all match are all kept by `filter`, in order. */
  lemma {:induction false} FilterKeepsMatching(ws: seq<String>, pats: seq<String>)
    requires forall i :: 0 <= i < |ws| ==> MatchesAny(ws[i], pats)
    ensures Filtered(ws, pats, true) == ws
    ensures Filtered(ws, pats, false) == []
  {
    if |ws| > 0 {
      FilterKeepsMatching(ws[..|ws| - 1], pats);
      assert ws == ws[..|ws| - 1] + [ws[|ws| - 1]];
    }
  }

  /** The index of the first pattern `w` matches, or |pats| (the inner loop of FilterFunc and FilterOutFunc). */
  method FirstMatch(w: String, pats: seq<String>) returns (j: nat)
    ensures j <= |pats|
    ensures j < |pats| ==> MatchPattern(w, pats[j])
    ensures forall k :: 0 <= k < j ==> !MatchPattern(w, pats[k])
  {
    j := 0;
    while j < |pats|
      invariant j <= |pats|
      invariant forall k :: 0 <= k < j ==> !MatchPattern(w, pats[k])
    {
      if MatchPattern(w, pats[j]) {
        return;
      }
      j := j + 1;
    }
  }

  /** The shared loop of `filter` (`keep`) and `filter-out` (`!keep`). */
  method FilterWords(keep: bool, args: seq<Value>, ev: Evaluator, s: Output)
    requires |args| == 2
    modifies ev`evaluated, s
    ensures ev.evaluated == old(ev.evaluated) + args
    ensures s.text == old(s.text) + Join(Filtered(Words(ValueOf(args[1], ev.vars)), Words(ValueOf(args[0], ev.vars)), keep))
  {
    var patBuf := ev.Eval(args[0]);
    var text := ev.Eval(args[1]);
    assert args == [args[0], args[1]];
    var pats := Words(patBuf);
    var ws := Words(text);
    var ww := new WordWriter(s);
    var s0 := s.text;
    for i := 0 to |ws|
      invariant s.text == s0 + Join(Filtered(ws[..i], pats, keep))
      invariant ww.needsSpace == (|Filtered(ws[..i], pats, keep)| > 0)
      modifies ww, s
    {
      var j := FirstMatch(ws[i], pats);
      var matched := j < |pats|;
      assert matched == MatchesAny(ws[i], pats);
      assert ws[..i + 1][..i] == ws[..i];
      if matched == keep {
        WriteExtendsJoin(s0, Filtered(ws[..i], pats, keep), ws[i]);
        ww.Write(ws[i]);
      }
    }
    assert ws[..|ws|] == ws;
  }

  /** Writes the words of the text that match some pattern word. */
  method Filter(args: seq<Value>, ev: Evaluator, s: Output)
    requires |args| == 2
    modifies ev`evaluated, s
    ensures ev.evaluated == old(ev.evaluated) + args
    ensures s.text == old(s.text) + Join(Filtered(Words(ValueOf(args[1], ev.vars)), Words(ValueOf(args[0], ev.vars)), true))
  {
    FilterWords(true, args, ev, s);
  }

  /** Writes the words of the text that match no pattern word. */
  method FilterOut(args: seq<Value>, ev: Evaluator, s: Output)
    requires |args| == 2
    modifies ev`evaluated, s
    ensures ev.evaluated == old(ev.evaluated) + args
    ensures s.text == old(s.text) + Join(Filtered(Words(ValueOf(args[1], ev.vars)), Words(ValueOf(args[0], ev.vars)), false))
  {
    FilterWords(false, args, ev, s);
  }

  /** The words `sort` writes: sorted, each distinct word once. */
  function SortedWords(ws: seq<String>): seq<String> {
    Dedup(SortStrings(ws))
  }

  /** `sort` writes a strictly increasing list holding exactly the distinct input words. */
  lemma SortedWordsSpec(ws: seq<String>)
    ensures StrictlySorted(SortedWords(ws))
    ensures forall w :: w in SortedWords(ws) <==> w in ws
  {
    var t := SortStrings(ws);
    DedupOfSorted(t);
    forall w ensures w in t <==> w in ws {
      assert w in t <==> w in multiset(t);
    }
  }

  /** Sorting the output of `sort` again gives the same words. */
  lemma SortIdempotent(text: String)
    ensures Words(Join(SortedWords(Words(SortedWordsText(text))))) == Words(SortedWordsText(text))
    ensures SortedWords(Words(SortedWordsText(text))) == Words(SortedWordsText(text))
  {
    var ws := Words(text);
    var r := SortedWords(ws);
    SortedWordsSpec(ws);
    assert AllWords(r) by {
      forall i | 0 <= i < |r| ensures IsWord(r[i]) {
        assert r[i] in ws;
      }
    }
    WordsOfJoin(r);
    StrictlySortedIsSorted(r);
    SortStringsSorted(r);
    DedupOfStrictlySorted(r);
  }

  /** The text `sort` writes for `text`. */
  function SortedWordsText(text: String): String {
    Join(SortedWords(Words(text)))
  }

  /** Sorting keeps every element a word. */
  lemma SortStringsWords(ws: seq<String>)
    requires AllWords(ws)
    ensures AllWords(SortStrings(ws))
  {
    var toks := SortStrings(ws);
    forall i | 0 <= i < |toks| ensures IsWord(toks[i]) {
      assert toks[i] in multiset(ws);
    }
  }

  /** One more element extends the deduplicated list unless it equals the element before it. */
  lemma DedupSnoc(ts: seq<String>, i: nat)
    requires i < |ts|
    ensures Dedup(ts[..i + 1]) == if i > 0 && ts[i - 1] == ts[i] then Dedup(ts[..i]) else Dedup(ts[..i]) + [ts[i]]
  {
    assert ts[..i + 1][..i] == ts[..i];
    if i > 0 {
      var d := Dedup(ts[..i]);
      assert |d| > 0 && d[|d| - 1] == ts[i - 1] by {
        assert ts[..i] == ts[..i - 1] + [ts[i - 1]];
      }
    }
  }

  /** Sorts the words (std::sort on the scanned words) and writes each distinct word once. */
  method Sort(args: seq<Value>, ev: Evaluator, s: Output)
    requires |args| == 1
    modifies ev`evaluated, s
    ensures ev.evaluated == old(ev.evaluated) + args
    ensures s.text == old(s.text) + SortedWordsText(ValueOf(args[0], ev.vars))
  {
    var list := ev.Eval(args[0]);
    assert args == [args[0]];
    var ws := Words(list);
    var toks := SortStrings(ws);
    SortStringsWords(ws);
    WriteDistinct(toks, s);
  }

  /** The writing loop of `sort`: each word is written unless it equals the one before it. */
  method WriteDistinct(toks: seq<String>, s: Output)
    requires AllWords(toks)
    modifies s
    ensures s.text == old(s.text) + Join(Dedup(toks))
  {
    var ww := new WordWriter(s);
    var s0 := s.text;
    var prev: String := [];
    for i := 0 to |toks|
      invariant s.text == s0 + Join(Dedup(toks[..i]))
      invariant ww.needsSpace == (|Dedup(toks[..i])| > 0)
      invariant prev == if i == 0 then [] else toks[i - 1]
      modifies ww, s
    {
      DedupSnoc(toks, i);
      var write := prev != toks[i];
      assert write == !(i > 0 && toks[i - 1] == toks[i]) by {
        assert IsWord(toks[i]);
      }
      if write {
        WriteExtendsJoin(s0, Dedup(toks[..i]), toks[i]);
        ww.Write(toks[i]);
        prev := toks[i];
      }
    }
    assert toks[..|toks|] == toks;
  }

  // ---------------------------------------------------------------------------
  // word, wordlist, words, firstword, lastword, join
  // ---------------------------------------------------------------------------

  /** The error for an index argument that is not a number (`ordinal` is "first" or "second"). */
  function NonNumericMsg(ordinal: String, fname: String, arg: String): String {
    "*** non-numeric " + ordinal + " argument to `" + fname + "' function: '" + arg + "'."
  }

  /** The error `word` reports for the index 0. */
  const WordZeroMsg: String := "*** first argument to `word' function must be greater than 0."

  /** The error `wordlist` reports for the start index 0. */
  function WordlistZeroMsg(arg: String): String {
    "*** invalid first argument to `wordlist' function: " + arg + "`"
  }

  /** The `n`-th word, counting from 1, or nothing when there are fewer words. */
  function NthWord(ws: seq<String>, n: int): (w: String)
    requires n >= 1
    ensures n <= |ws| ==> w == ws[n - 1]
    ensures n > |ws| ==> w == []
  {
    if n <= |ws| then ws[n - 1] else []
  }

  /**
   * Reads the index; a non-numeric or zero index is an error and the text is
   * not evaluated.  Otherwise writes the word at that index, if there is one.
   */
  method Word(args: seq<Value>, ev: Evaluator, s: Output)
    requires |args| == 2
    modifies ev`evaluated, ev`error, s
    ensures var nStr := ValueOf(args[0], ev.vars); var n := GetNumericValueForFunc(nStr);
      if n < 0 then
        ev.error == Some(NonNumericMsg("first", "word", nStr)) &&
        ev.evaluated == old(ev.evaluated) + [args[0]] && s.text == old(s.text)
      else if n == 0 then
        ev.error == Some(WordZeroMsg) &&
        ev.evaluated == old(ev.evaluated) + [args[0]] && s.text == old(s.text)
      else
        ev.error == old(ev.error) && ev.evaluated == old(ev.evaluated) + args &&
        s.text == old(s.text) + NthWord(Words(ValueOf(args[1], ev.vars)), n)
  {
    var nStr := ev.Eval(args[0]);
    var n := GetNumericValueForFunc(nStr);
    if n < 0 {
      ev.Error(NonNumericMsg("first", "word", nStr));
      return;
    }
    if n == 0 {
      ev.Error(WordZeroMsg);
      return;
    }
    var text := ev.Eval(args[1]);
    assert args == [args[0], args[1]];
    WriteNthWord(Words(text), n, s);
  }

  /** Counts the words down from `n` and writes the one where the count reaches zero. */
  method WriteNthWord(ws: seq<String>, n: int, s: Output)
    requires n >= 1
    modifies s
    ensures s.text == old(s.text) + NthWord(ws, n)
  {
    var k := n;
    for i := 0 to |ws|
      invariant k == n - i && k > 0
      invariant s.text == old(s.text)
    {
      k := k - 1;
      if k == 0 {
        s.Append(ws[i]);
        break;
      }
    }
  }

  /** `firstword`: the first word, or nothing. */
  method Firstword(args: seq<Value>, ev: Evaluator, s: Output)
    requires |args| == 1
    modifies ev`evaluated, s
    ensures ev.evaluated == old(ev.evaluated) + args
    ensures s.text == old(s.text) + NthWord(Words(ValueOf(args[0], ev.vars)), 1)
  {
    var text := ev.Eval(args[0]);
    assert args == [args[0]];
    var ws := Words(text);
    if |ws| > 0 {
      s.Append(ws[0]);
    }
  }

  /** `lastword`: the last word, or nothing. */
  method Lastword(args: seq<Value>, ev: Evaluator, s: Output)
    requires |args| == 1
    modifies ev`evaluated, s
    ensures ev.evaluated == old(ev.evaluated) + args
    ensures var ws := Words(ValueOf(args[0], ev.vars));
      s.text == old(s.text) + (if |ws| == 0 then [] else NthWord(ws, |ws|))
  {
    var text := ev.Eval(args[0]);
    assert args == [args[0]];
    var ws := Words(text);
    var last: String := [];
    for i := 0 to |ws|
      invariant last == if i == 0 then [] else ws[i - 1]
    {
      last := ws[i];
    }
    s.Append(last);
  }

  /** The words at positions `si` to `ei` (from 1, inclusive), in order. */
  function WordRange(ws: seq<String>, si: int, ei: int): (r: seq<String>)
    requires si >= 1
    ensures ei < si ==> r == []
    ensures |r| == if si <= ei && si <= |ws| then (if ei < |ws| then ei else |ws|) - si + 1 else 0
    ensures forall k :: 0 <= k < |r| ==> r[k] == ws[si - 1 + k]
  {
    var hi := if ei < |ws| then ei else |ws|;
    if si - 1 < hi then ws[si - 1..hi] else []
  }

  lemma WordRangeSnoc(ws: seq<String>, si: int, ei: int, i: nat)
    requires si >= 1 && i < |ws|
    ensures WordRange(ws[..i + 1], si, ei) ==
      WordRange(ws[..i], si, ei) + (if si <= i + 1 <= ei then [ws[i]] else [])
  {
  }

  /** A one-word range is the word at that position. */
  lemma WordRangeSingle(ws: seq<String>, n: int)
    requires n >= 1
    ensures Join(WordRange(ws, n, n)) == NthWord(ws, n)
  {
    if n <= |ws| {
      assert WordRange(ws, n, n) == [ws[n - 1]];
    }
  }

  /**
   * Reads both indices; a non-numeric or zero start, or a non-numeric end, is
   * an error.  Otherwise writes the words from the start to the end index.
   */
  method Wordlist(args: seq<Value>, ev: Evaluator, s: Output)
    requires |args| == 3
    modifies ev`evaluated, ev`error, s
    ensures var sStr := ValueOf(args[0], ev.vars); var si := GetNumericValueForFunc(sStr);
      si <= 0 ==>
        ev.error == Some(if si < 0 then NonNumericMsg("first", "wordlist", sStr) else WordlistZeroMsg(sStr)) &&
        ev.evaluated == old(ev.evaluated) + [args[0]] && s.text == old(s.text)
    ensures var si := GetNumericValueForFunc(ValueOf(args[0], ev.vars));
      var eStr := ValueOf(args[1], ev.vars); var ei := GetNumericValueForFunc(eStr);
      si > 0 && ei < 0 ==>
        ev.error == Some(NonNumericMsg("second", "wordlist", eStr)) &&
        ev.evaluated == old(ev.evaluated) + [args[0], args[1]] && s.text == old(s.text)
    ensures var si := GetNumericValueForFunc(ValueOf(args[0], ev.vars));
      var ei := GetNumericValueForFunc(ValueOf(args[1], ev.vars));
      si > 0 && ei >= 0 ==>
        ev.error == old(ev.error) && ev.evaluated == old(ev.evaluated) + args &&
        s.text == old(s.text) + Join(WordRange(Words(ValueOf(args[2], ev.vars)), si, ei))
  {
    var sStr := ev.Eval(args[0]);
    var si := GetNumericValueForFunc(sStr);
    if si < 0 {
      ev.Error(NonNumericMsg("first", "wordlist", sStr));
      return;
    }
    if si == 0 {
      ev.Error(WordlistZeroMsg(sStr));
      return;
    }
    WordlistFrom(si, args, ev, s);
  }

  /** The rest of `wordlist` once the start index `si` is known to be valid. */
  method WordlistFrom(si: int, args: seq<Value>, ev: Evaluator, s: Output)
    requires |args| == 3 && si >= 1
    modifies ev`evaluated, ev`error, s
    ensures var eStr := ValueOf(args[1], ev.vars); var ei := GetNumericValueForFunc(eStr);
      if ei < 0 then
        ev.error == Some(NonNumericMsg("second", "wordlist", eStr)) &&
        ev.evaluated == old(ev.evaluated) + [args[1]] && s.text == old(s.text)
      else
        ev.error == old(ev.error) && ev.evaluated == old(ev.evaluated) + args[1..] &&
        s.text == old(s.text) + Join(WordRange(Words(ValueOf(args[2], ev.vars)), si, ei))
  {
    var eStr := ev.Eval(args[1]);
    var ei := GetNumericValueForFunc(eStr);
    if ei < 0 {
      ev.Error(NonNumericMsg("second", "wordlist", eStr));
      return;
    }
    var text := ev.Eval(args[2]);
    assert args[1..] == [args[1], args[2]];
    WriteWordRange(Words(text), si, ei, s);
  }

  /** Writes, space-separated, the words whose 1-based position lies between `si` and `ei`. */
  method WriteWordRange(ws: seq<String>, si: int, ei: int, s: Output)
    requires si >= 1
    modifies s
    ensures s.text == old(s.text) + Join(WordRange(ws, si, ei))
  {
    var ww := new WordWriter(s);
    var s0 := s.text;
    var i := 0;
    while i < |ws|
      invariant i <= |ws|
      invariant s.text == s0 + Join(WordRange(ws[..i], si, ei))
      invariant ww.needsSpace == (si <= i && si <= ei)
      modifies ww, s
    {
      WordRangeSnoc(ws, si, ei, i);
      i := i + 1;
      if si <= i && i <= ei {
        assert |WordRange(ws[..i - 1], si, ei)| > 0 <==> si <= i - 1;
        WriteExtendsJoin(s0, WordRange(ws[..i - 1], si, ei), ws[i - 1]);
        ww.Write(ws[i - 1]);
      } else {
        assert WordRange(ws[..i], si, ei) == WordRange(ws[..i - 1], si, ei);
      }
    }
    assert ws[..|ws|] == ws;
  }

  /** `words`: the number of words, in decimal. */
  method WordCount(args: seq<Value>, ev: Evaluator, s: Output)
    requires |args| == 1
    modifies ev`evaluated, s
    ensures ev.evaluated == old(ev.evaluated) + args
    ensures s.text == old(s.text) + NatToString(|Words(ValueOf(args[0], ev.vars))|)
  {
    var text := ev.Eval(args[0]);
    assert args == [args[0]];
    var ws := Words(text);
    var n := 0;
    for i := 0 to |ws|
      invariant n == i
    {
      n := n + 1;
    }
    s.Append(NatToString(n));
  }

  /** The count `words` writes reads back, as an index, as the number of words. */
  lemma WordCountReadsBack(text: String)
    requires |Words(text)| <= INT_MAX
    ensures GetNumericValueForFunc(NatToString(|Words(text)|)) == |Words(text)|
    ensures |Words(text)| > 0 ==>
      NthWord(Words(text), GetNumericValueForFunc(NatToString(|Words(text)|))) == Words(text)[|Words(text)| - 1]
  {
    NumericOfSmallDecimal(|Words(text)|);
  }

  /** The pairs `join` writes: each word of the first list glued to the word at the same place in the second. */
  function Pairwise(ws1: seq<String>, ws2: seq<String>): (r: seq<String>)
    ensures |r| == if |ws1| < |ws2| then |ws1| else |ws2|
    ensures forall i :: 0 <= i < |r| ==> r[i] == ws1[i] + ws2[i]
  {
    if |ws1| == 0 || |ws2| == 0 then [] else [ws1[0] + ws2[0]] + Pairwise(ws1[1..], ws2[1..])
  }

  /** Joining two lists of equally many words and splitting the result again gives the glued pairs. */
  lemma JoinWordsRoundTrip(text1: String, text2: String)
    ensures Words(Join(Pairwise(Words(text1), Words(text2)))) == Pairwise(Words(text1), Words(text2))
  {
    var r := Pairwise(Words(text1), Words(text2));
    forall i | 0 <= i < |r| ensures IsWord(r[i]) {
      assert IsWord(Words(text1)[i]) && IsWord(Words(text2)[i]);
    }
    WordsOfJoin(r);
  }

  /**
   * Writes the words of the two lists glued pairwise, stopping at the end of
   * the shorter list.
   */
  method JoinLists(args: seq<Value>, ev: Evaluator, s: Output)
    requires |args| == 2
    modifies ev`evaluated, s
    ensures ev.evaluated == old(ev.evaluated) + args
    ensures s.text == old(s.text) + Join(Pairwise(Words(ValueOf(args[0], ev.vars)), Words(ValueOf(args[1], ev.vars))))
  {
    var list1 := ev.Eval(args[0]);
    var list2 := ev.Eval(args[1]);
    assert args == [args[0], args[1]];
    var ws1 := Words(list1);
    var ws2 := Words(list2);
    var ww := new WordWriter(s);
    var s0 := s.text;
    var i := 0;
    while i < |ws1| && i < |ws2|
      invariant i <= |ws1| && i <= |ws2|
      invariant s.text == s0 + Join(Pairwise(ws1[..i], ws2[..i]))
      invariant ww.needsSpace == (i > 0)
      modifies ww, s
    {
      PairwiseSnoc(ws1, ws2, i);
      WriteAppendExtendsJoin(s0, Pairwise(ws1[..i], ws2[..i]), ws1[i], ws2[i]);
      ww.Write(ws1[i]);
      s.Append(ws2[i]);
      i := i + 1;
    }
    PairwisePrefix(ws1, ws2, i);
  }

  lemma PairwiseSnoc(ws1: seq<String>, ws2: seq<String>, i: nat)
    requires i < |ws1| && i < |ws2|
    ensures Pairwise(ws1[..i + 1], ws2[..i + 1]) == Pairwise(ws1[..i], ws2[..i]) + [ws1[i] + ws2[i]]
  {
    var a := Pairwise(ws1[..i + 1], ws2[..i + 1]);
    var b := Pairwise(ws1[..i], ws2[..i]) + [ws1[i] + ws2[i]];
    assert |a| == |b|;
    forall k | 0 <= k < |a| ensures a[k] == b[k] {
    }
  }

  lemma PairwisePrefix(ws1: seq<String>, ws2: seq<String>, i: nat)
    requires i <= |ws1| && i <= |ws2| && (i == |ws1| || i == |ws2|)
    ensures Pairwise(ws1[..i], ws2[..i]) == Pairwise(ws1, ws2)
  {
    var a := Pairwise(ws1[..i], ws2[..i]);
    var b := Pairwise(ws1, ws2);
    assert |a| == |b|;
    forall k | 0 <= k < |a| ensures a[k] == b[k] {
    }
  }

  // ---------------------------------------------------------------------------
  // if, and, or
  // ---------------------------------------------------------------------------

  /**
   * Evaluates the condition, then exactly one branch: the then-part when the
   * condition is non-empty, else the else-part when there is one.
   */
  method If(args: seq<Value>, ev: Evaluator, s: Output)
    requires 2 <= |args| <= 3
    modifies ev`evaluated, s
    ensures var cond := ValueOf(args[0], ev.vars);
      if cond != [] then
        ev.evaluated == old(ev.evaluated) + [args[0], args[1]] &&
        s.text == old(s.text) + ValueOf(args[1], ev.vars)
      else if |args| > 2 then
        ev.evaluated == old(ev.evaluated) + [args[0], args[2]] &&
        s.text == old(s.text) + ValueOf(args[2], ev.vars)
      else
        ev.evaluated == old(ev.evaluated) + [args[0]] && s.text == old(s.text)
  {
    var cond := ev.Eval(args[0]);
    if |cond| == 0 {
      if |args| > 2 {
        ev.EvalInto(args[2], s);
      }
    } else {
      ev.EvalInto(args[1], s);
    }
  }

  /** The expansions of `args`, in order. */
  function Values(args: seq<Value>, vars: map<String, String>): (vs: seq<String>)
    ensures |vs| == |args| && forall i :: 0 <= i < |args| ==> vs[i] == ValueOf(args[i], vars)
  {
    seq(|args|, i requires 0 <= i < |args| => ValueOf(args[i], vars))
  }

  /** The position of the first empty string, or |vs| when there is none. */
  function FirstEmpty(vs: seq<String>): (k: nat)
    ensures k <= |vs|
    ensures forall i :: 0 <= i < k ==> vs[i] != []
    ensures k < |vs| ==> vs[k] == []
  {
    if |vs| == 0 || vs[0] == [] then 0 else 1 + FirstEmpty(vs[1..])
  }

  /** The position of the first non-empty string, or |vs| when there is none. */
  function FirstNonEmpty(vs: seq<String>): (k: nat)
    ensures k <= |vs|
    ensures forall i :: 0 <= i < k ==> vs[i] == []
    ensures k < |vs| ==> vs[k] != []
  {
    if |vs| == 0 || vs[0] != [] then 0 else 1 + FirstNonEmpty(vs[1..])
  }

  /** The result of `and`: the last value when every value is non-empty, otherwise nothing. */
  function AndValue(vs: seq<String>): (r: String)
    ensures r != [] <==> |vs| > 0 && forall i :: 0 <= i < |vs| ==> vs[i] != []
    ensures r != [] ==> r == vs[|vs| - 1]
  {
    if FirstEmpty(vs) < |vs| || |vs| == 0 then [] else vs[|vs| - 1]
  }

  /** How many arguments `and` evaluates: up to and including the first empty one. */
  function AndCount(vs: seq<String>): (n: nat)
    ensures n <= |vs|
    ensures n < |vs| ==> n > 0 && vs[n - 1] == []
  {
    var k := FirstEmpty(vs);
    if k < |vs| then k + 1 else k
  }

  /** The result of `or`: the first non-empty value, or nothing. */
  function OrValue(vs: seq<String>): (r: String)
    ensures r == [] <==> forall i :: 0 <= i < |vs| ==> vs[i] == []
    ensures r != [] ==> exists k :: 0 <= k < |vs| && r == vs[k] && forall i :: 0 <= i < k ==> vs[i] == []
  {
    var k := FirstNonEmpty(vs);
    if k < |vs| then vs[k] else []
  }

  /** How many arguments `or` evaluates: up to and including the first non-empty one. */
  function OrCount(vs: seq<String>): (n: nat)
    ensures n <= |vs|
    ensures n < |vs| ==> n > 0 && vs[n - 1] != []
  {
    var k := FirstNonEmpty(vs);
    if k < |vs| then k + 1 else k
  }

  /**
   * Evaluates the arguments in order, stopping after the first empty one;
   * writes the last value when none was empty.
   */
  method And(args: seq<Value>, ev: Evaluator, s: Output)
    modifies ev`evaluated, s
    ensures var vs := Values(args, ev.vars);
      ev.evaluated == old(ev.evaluated) + args[..AndCount(vs)] &&
      s.text == old(s.text) + AndValue(vs)
  {
    ghost var vs := Values(args, ev.vars);
    var cond: Option<String> := None;
    for i := 0 to |args|
      invariant ev.evaluated == old(ev.evaluated) + args[..i]
      invariant FirstEmpty(vs) >= i
      invariant cond == if i == 0 then None else Some(vs[i - 1])
      invariant s.text == old(s.text)
    {
      var c := ev.Eval(args[i]);
      assert args[..i + 1] == args[..i] + [args[i]];
      cond := Some(c);
      if |c| == 0 {
        FirstEmptyAt(vs, i);
        return;
      }
      FirstEmptyPast(vs, i);
    }
    if cond.Some? {
      s.Append(cond.value);
    }
  }

  lemma FirstEmptyAt(vs: seq<String>, i: nat)
    requires i < |vs| && FirstEmpty(vs) >= i && vs[i] == []
    ensures FirstEmpty(vs) == i && AndCount(vs) == i + 1 && AndValue(vs) == []
  {
  }

  lemma FirstEmptyPast(vs: seq<String>, i: nat)
    requires i < |vs| && FirstEmpty(vs) >= i && vs[i] != []
    ensures FirstEmpty(vs) >= i + 1
  {
  }

  /**
   * Evaluates the arguments in order, stopping at the first non-empty one,
   * which it writes.
   */
  method Or(args: seq<Value>, ev: Evaluator, s: Output)
    modifies ev`evaluated, s
    ensures var vs := Values(args, ev.vars);
      ev.evaluated == old(ev.evaluated) + args[..OrCount(vs)] &&
      s.text == old(s.text) + OrValue(vs)
  {
    ghost var vs := Values(args, ev.vars);
    for i := 0 to |args|
      invariant ev.evaluated == old(ev.evaluated) + args[..i]
      invariant FirstNonEmpty(vs) >= i
      invariant s.text == old(s.text)
    {
      var c := ev.Eval(args[i]);
      assert args[..i + 1] == args[..i] + [args[i]];
      if |c| != 0 {
        FirstNonEmptyAt(vs, i);
        s.Append(c);
        return;
      }
    }
  }

  lemma FirstNonEmptyAt(vs: seq<String>, i: nat)
    requires i < |vs| && FirstNonEmpty(vs) >= i && vs[i] != []
    ensures FirstNonEmpty(vs) == i && OrCount(vs) == i + 1 && OrValue(vs) == vs[i]
  {
  }

  /** `and` and `or` agree on a single argument: both give it back. */
  lemma AndOrSingle(v: String)
    ensures AndValue([v]) == v && OrValue([v]) == v
  {
  }

  /** De Morgan, as far as emptiness goes: `or` is empty exactly when every value is, `and` when some value is. */
  lemma AndOrEmptiness(vs: seq<String>)
    requires |vs| > 0
    ensures OrValue(vs) == [] ==> AndValue(vs) == []
    ensures AndValue(vs) != [] ==> OrValue(vs) == vs[0]
  {
  }

  // ---------------------------------------------------------------------------
  // foreach
  // ---------------------------------------------------------------------------

  /** What the body expands to with the loop variable `name` bound to a word. */
  function BodyFn(body: Value, name: String, vars: map<String, String>): String -> String {
    w => ValueOf(body, vars[name := w])
  }

  /**
   * Binds the variable named by the first argument to each word of the
   * second in turn and writes the body's expansion for each, separated by
   * single spaces; the variable's previous binding is restored afterwards.
   */
  method Foreach(args: seq<Value>, ev: Evaluator, s: Output)
    requires |args| == 3
    modifies ev`evaluated, ev`vars, s
    ensures ev.vars == old(ev.vars)
    ensures var ws := Words(ValueOf(args[1], ev.vars));
      ev.evaluated == old(ev.evaluated) + [args[0], args[1]] + seq(|ws|, _ => args[2]) &&
      s.text == old(s.text) + Join(MapWords(BodyFn(args[2], ValueOf(args[0], ev.vars), ev.vars), ws))
  {
    ghost var vars := ev.vars;
    var name := ev.Eval(args[0]);
    var list := ev.Eval(args[1]);
    var ws := Words(list);
    var f := BodyFn(args[2], name, vars);
    var ww := new WordWriter(s);
    var s0 := s.text;
    ghost var e0 := ev.evaluated;
    for i := 0 to |ws|
      invariant ev.vars == vars
      invariant ev.evaluated == e0 + Copies(args[2], i)
      invariant s.text == s0 + Join(MapWords(f, ws[..i]))
      invariant ww.needsSpace == (i > 0)
      modifies ww, s, ev`vars, ev`evaluated
    {
      ForeachBody(name, ws[i], args[2], ww, ev, s);
      MapWordsSnoc(f, ws, i);
      WriteExtendsJoin(s0, MapWords(f, ws[..i]), f(ws[i]));
    }
    CopiesSeq(args[2], |ws|);
    assert ws[..|ws|] == ws;
  }

  /**
   * One pass of the `foreach` loop: the variable is bound to `w`, the
   * separator and the body's expansion are written, and the binding is undone.
   */
  method ForeachBody(name: String, w: String, body: Value, ww: WordWriter, ev: Evaluator, s: Output)
    requires ww.out == s
    modifies ww, s, ev`vars, ev`evaluated
    ensures ev.vars == old(ev.vars)
    ensures ev.evaluated == old(ev.evaluated) + [body]
    ensures ww.needsSpace
    ensures s.text == old(s.text) + (if old(ww.needsSpace) then " " else "") + ValueOf(body, old(ev.vars)[name := w])
  {
    ghost var vars := ev.vars;
    var saved := ev.PushVar(name, w);
    ww.MaybeAddWhitespace();
    ev.EvalInto(body, s);
    ev.PopVar(name, saved);
    PushPopRestores(vars, name, w);
  }

  /** `n` copies of `v`, built one at a time as the loop of `foreach` evaluates its body. */
  function Copies(v: Value, n: nat): (r: seq<Value>)
    ensures |r| == n
  {
    if n == 0 then [] else Copies(v, n - 1) + [v]
  }

  /** The copies are the constant sequence. */
  lemma {:induction false} CopiesSeq(v: Value, n: nat)
    ensures Copies(v, n) == seq(n, _ => v)
  {
    if n > 0 {
      CopiesSeq(v, n - 1);
      assert seq(n, _ => v) == seq(n - 1, _ => v) + [v];
    }
  }

  /** With a body that is just the loop variable, `foreach` writes the words back, normalised. */
  lemma ForeachIdentity(name: String, vars: map<String, String>, ws: seq<String>)
    ensures MapWords(BodyFn(VarRef(name), name, vars), ws) == ws
  {
  }

  // ---------------------------------------------------------------------------
  // The tail of shell: trailing newlines removed, inner newlines made spaces
  // ---------------------------------------------------------------------------

  /**
   * The newline-stripping loop as written: it looks at the last character
   * before checking that there is one, so on output that is empty or made of
   * newlines only it reads before the start of the string (`None`).
   */
  function TrimNewlinesAsWritten(o: String): (r: Option<String>)
    decreases |o|
  {
    if |o| == 0 then None
    else if o[|o| - 1] == '\n' then TrimNewlinesAsWritten(o[..|o| - 1])
    else Some(o)
  }

  /** The loop goes wrong exactly on output made only of newlines, the empty output included. */
  lemma {:induction false} TrimNewlinesAsWrittenFails(o: String)
    ensures TrimNewlinesAsWritten(o).None? <==> forall i :: 0 <= i < |o| ==> o[i] == '\n'
  {
    if |o| > 0 && o[|o| - 1] == '\n' {
      TrimNewlinesAsWrittenFails(o[..|o| - 1]);
      assert forall i :: 0 <= i < |o| - 1 ==> o[..|o| - 1][i] == o[i];
    }
  }

  /** For instance, a command that prints nothing, or one empty line. */
  lemma TrimNewlinesAsWrittenOnEmpty()
    ensures TrimNewlinesAsWritten("").None? && TrimNewlinesAsWritten("\n").None?
  {
    TrimNewlinesAsWrittenFails("\n");
  }

  /** `o` without its trailing newlines (the loop with the emptiness check added). */
  function TrimTrailingNewlines(o: String): (r: String)
    ensures |r| <= |o| && r == o[..|r|]
    ensures r == [] || r[|r| - 1] != '\n'
    ensures forall i :: |r| <= i < |o| ==> o[i] == '\n'
    decreases |o|
  {
    if |o| > 0 && o[|o| - 1] == '\n' then TrimTrailingNewlines(o[..|o| - 1]) else o
  }

  /** Wherever the loop as written does return, the corrected loop returns the same. */
  lemma {:induction false} TrimNewlinesAgree(o: String)
    ensures TrimNewlinesAsWritten(o).Some? ==> TrimNewlinesAsWritten(o).value == TrimTrailingNewlines(o)
  {
    if |o| > 0 && o[|o| - 1] == '\n' {
      TrimNewlinesAgree(o[..|o| - 1]);
    }
  }

  /** Every newline replaced by a space. */
  function NewlinesToSpaces(o: String): (r: String)
    ensures |r| == |o|
    ensures forall i :: 0 <= i < |o| ==> r[i] == (if o[i] == '\n' then ' ' else o[i])
  {
    seq(|o|, i requires 0 <= i < |o| => if o[i] == '\n' then ' ' else o[i])
  }

  /** The text shell appends holds no newline, and is the output up to its trailing newlines otherwise unchanged. */
  lemma ShellTextHasNoNewline(o: String)
    ensures var r := NewlinesToSpaces(TrimTrailingNewlines(o));
      (forall i :: 0 <= i < |r| ==> r[i] != '\n') &&
      (forall i :: 0 <= i < |r| && o[i] != '\n' ==> r[i] == o[i])
  {
  }

  /**
   * `shell`: evaluates the command and appends its output with trailing
   * newlines removed and other newlines turned into spaces.  Running the
   * command is not modelled: its output is the parameter `out`.
   */
  method Shell(args: seq<Value>, ev: Evaluator, s: Output, out: String)
    requires |args| == 1
    modifies ev`evaluated, s
    ensures ev.evaluated == old(ev.evaluated) + args
    ensures s.text == old(s.text) + NewlinesToSpaces(TrimTrailingNewlines(out))
  {
    var cmd := ev.Eval(args[0]);
    assert args == [args[0]];
    var o := out;
    while |o| > 0 && o[|o| - 1] == '\n'
      invariant TrimTrailingNewlines(o) == TrimTrailingNewlines(out)
      decreases |o|
    {
      o := o[..|o| - 1];
    }
    ghost var trimmed := o;
    for i := 0 to |o|
      invariant |o| == |trimmed|
      invariant forall j :: 0 <= j < i ==> o[j] == (if trimmed[j] == '\n' then ' ' else trimmed[j])
      invariant forall j :: i <= j < |o| ==> o[j] == trimmed[j]
    {
      if o[i] == '\n' {
        o := o[i := ' '];
      }
    }
    s.Append(o);
  }
}
