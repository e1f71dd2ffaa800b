/**
 * Building the dependency graph (dep.go): the rule tables a `DepBuilder`
 * fills from the parsed rules, the choice of the rule that makes a target,
 * and the memoised construction of the plan.
 *
 * The parts of the world the builder consults but that are not modelled here
 * form an `Env`: path cleaning (filepath.Clean), the extension of a path
 * (filepath.Ext), the path without its extension (stripExt), the files that
 * exist on disk, and the appending of a `+=` target-specific variable
 * (AppendVar).  Single-`%` patterns use the matching and substitution of
 * module StrUtil.
 */
module Dep {
  import opened Wrappers
  import opened StrUtil

  // ---------------------------------------------------------------------------
  // Rules, variables, nodes, errors
  // ---------------------------------------------------------------------------

  /** A parsed rule (`Rule`): its targets, prerequisites and recipe. */
  datatype Rule = Rule(
    outputs: seq<String>,
    inputs: seq<String>,
    orderOnlyInputs: seq<String>,
    outputPatterns: seq<String>,
    isDoubleColon: bool,
    isSuffixRule: bool,
    cmds: seq<String>,
    filename: String,
    lineno: int,
    cmdLineno: int)

  /** How a target-specific variable is assigned: `=` or `:=`, `+=`, `?=`. */
  datatype AssignOp = Set | AppendTo | SetIfUnset

  /** A variable: its text and, for a target-specific one, how it is assigned. */
  datatype Var = Var(text: String, op: AssignOp)

  type Vars = map<String, Var>

  /** The binding of `name` in `m`, if any. */
  function Lookup(m: Vars, name: String): Option<Var> {
    if name in m then Some(m[name]) else None
  }

  /** What the builder consults but does not compute itself. */
  datatype Env = Env(
    clean: String -> String,
    ext: String -> String,
    stripExt: String -> String,
    onDisk: set<String>,
    appendVar: (Var, Var) -> Var)

  /** A node of the plan; `deps` are positions in the builder's node list. */
  datatype DepNode = DepNode(
    output: String,
    cmds: seq<String>,
    deps: seq<nat>,
    hasRule: bool,
    isOrderOnly: bool,
    actualInputs: seq<String>,
    targetSpecificVars: Vars,
    filename: String,
    lineno: int)

  /** The fatal conditions of the builder (Error, ErrorNoLocation and panic in the source). */
  datatype DepError =
    | MixedColons(filename: String, lineno: int, output: String)
    | NoTargets
    | ImplicitRuleOutputs(outputs: seq<String>)
    | SuffixRuleInputs(count: nat)
    | MultipleOutputPatterns
    | DepthExceeded

  /** replaceSuffix: `s` with its extension replaced by `newsuf`. */
  function ReplaceSuffix(env: Env, s: String, newsuf: String): (r: String)
    ensures HasSuffix(r, "." + newsuf)
  {
    var r := env.stripExt(s) + "." + newsuf;
    assert r[|r| - |"." + newsuf|..] == "." + newsuf;
    r
  }

  // ---------------------------------------------------------------------------
  // Suffix rules
  // ---------------------------------------------------------------------------

  /**
   * The two suffixes of a suffix-rule target `.in.out`: the target starts
   * with a dot and the rest holds exactly one more dot.
   */
  function SuffixSplit(output: String): (r: Option<(String, String)>)
    ensures r.Some? ==> output == "." + r.value.0 + "." + r.value.1
    ensures r.Some? ==> Count(r.value.0, '.') == 0 && Count(r.value.1, '.') == 0
  {
    if |output| == 0 || output[0] != '.' then None
    else
      var rest := output[1..];
      match IndexOf(rest, '.')
      case None => None
      case Some(d) =>
        if IndexOf(rest[d + 1..], '.').Some? then None
        else
          NoIndexNoCount(rest[..d], '.');
          NoIndexNoCount(rest[d + 1..], '.');
          assert output == "." + rest[..d] + "." + rest[d + 1..];
          Some((rest[..d], rest[d + 1..]))
  }

  lemma {:induction false} NoIndexNoCount(s: String, c: char)
    requires forall i :: 0 <= i < |s| ==> s[i] != c
    ensures Count(s, c) == 0
  {
    if |s| > 0 {
      NoIndexNoCount(s[1..], c);
    }
  }

  lemma {:induction false} CountPositive(s: String, c: char, i: nat)
    requires i < |s| && s[i] == c
    ensures Count(s, c) > 0
  {
    if i > 0 {
      CountPositive(s[1..], c, i - 1);
    }
  }

  /** A target is a suffix-rule target exactly when it starts with a dot and one more dot follows. */
  lemma SuffixSplitIff(output: String)
    ensures SuffixSplit(output).Some? <==> |output| > 0 && output[0] == '.' && Count(output[1..], '.') == 1
  {
    if |output| > 0 && output[0] == '.' {
      var rest := output[1..];
      match IndexOf(rest, '.')
      case None =>
        NoIndexNoCount(rest, '.');
      case Some(d) =>
        assert rest == rest[..d] + [rest[d]] + rest[d + 1..];
        CountAppend(rest[..d] + [rest[d]], rest[d + 1..], '.');
        CountAppend(rest[..d], [rest[d]], '.');
        NoIndexNoCount(rest[..d], '.');
        assert Count([rest[d]], '.') == 1;
        match IndexOf(rest[d + 1..], '.')
        case None =>
          NoIndexNoCount(rest[d + 1..], '.');
        case Some(e) =>
          CountPositive(rest[d + 1..], '.', e);
    }
  }

  /** The suffix rules after registering `rule` for `output` when it is a suffix-rule target. */
  function SuffixRulesAfter(suffixRules: map<String, seq<Rule>>, rule: Rule, output: String): map<String, seq<Rule>> {
    match SuffixSplit(output)
    case None => suffixRules
    case Some((inputSuffix, outputSuffix)) =>
      var r := rule.(inputs := [inputSuffix], isSuffixRule := true);
      suffixRules[outputSuffix := [r] + (if outputSuffix in suffixRules then suffixRules[outputSuffix] else [])]
  }

  /** Every registered suffix rule has the one input suffix it was registered with. */
  ghost predicate SuffixRulesWellFormed(suffixRules: map<String, seq<Rule>>) {
    forall k, i :: k in suffixRules && 0 <= i < |suffixRules[k]| ==>
      |suffixRules[k][i].inputs| == 1 && suffixRules[k][i].isSuffixRule
  }

  lemma SuffixRulesAfterWellFormed(suffixRules: map<String, seq<Rule>>, rule: Rule, output: String)
    requires SuffixRulesWellFormed(suffixRules)
    ensures SuffixRulesWellFormed(SuffixRulesAfter(suffixRules, rule, output))
  {
  }

  // ---------------------------------------------------------------------------
  // Merging two rules for the same target
  // ---------------------------------------------------------------------------

  /**
   * mergeRules: the rule for `output` after `rule` is read when `oldRule`
   * was already there.  Mixing `:` and `::` is an error.  A double-colon rule
   * appends its commands; otherwise the new commands win unless there are
   * none.  The inputs of the rule with commands come first.
   */
  function MergeRules(oldRule: Rule, rule: Rule, output: String, isSuffixRule: bool): (r: Result<Rule, DepError>)
    ensures r.Err? <==> oldRule.isDoubleColon != rule.isDoubleColon
    ensures r.Err? ==> r.error == MixedColons(rule.filename, rule.lineno, output)
    ensures r.Ok? ==>
      r.value.cmds == (if rule.isDoubleColon then oldRule.cmds + rule.cmds
                       else if |rule.cmds| == 0 then oldRule.cmds
                       else rule.cmds)
    ensures r.Ok? ==>
      r.value.inputs == (if |rule.cmds| > 0 then rule.inputs + oldRule.inputs else oldRule.inputs + rule.inputs)
    ensures r.Ok? ==>
      r.value.orderOnlyInputs == (if |rule.cmds| > 0 then rule.orderOnlyInputs + oldRule.orderOnlyInputs
                                  else oldRule.orderOnlyInputs + rule.orderOnlyInputs)
    ensures r.Ok? ==> r.value.outputPatterns == rule.outputPatterns + oldRule.outputPatterns
    ensures r.Ok? ==> r.value.outputs == rule.outputs && r.value.isDoubleColon == rule.isDoubleColon
    ensures r.Ok? ==> r.value == rule.(cmds := r.value.cmds, inputs := r.value.inputs,
                                       orderOnlyInputs := r.value.orderOnlyInputs,
                                       outputPatterns := r.value.outputPatterns)
  {
    if oldRule.isDoubleColon != rule.isDoubleColon then Err(MixedColons(rule.filename, rule.lineno, output))
    else
      var cmds :=
        if rule.isDoubleColon then oldRule.cmds + rule.cmds
        else if |oldRule.cmds| > 0 && |rule.cmds| == 0 then oldRule.cmds
        else rule.cmds;
      var inputs := if |rule.cmds| > 0 then rule.inputs + oldRule.inputs else oldRule.inputs + rule.inputs;
      var orderOnly :=
        if |rule.cmds| > 0 then rule.orderOnlyInputs + oldRule.orderOnlyInputs
        else oldRule.orderOnlyInputs + rule.orderOnlyInputs;
      Ok(rule.(cmds := cmds, inputs := inputs, orderOnlyInputs := orderOnly,
               outputPatterns := rule.outputPatterns + oldRule.outputPatterns))
  }

  /** The rules of `rs` merged left to right, the way repeated rules for one target are. */
  function MergeAll(first: Rule, rs: seq<Rule>, output: String): Result<Rule, DepError>
    decreases |rs|
  {
    if |rs| == 0 then Ok(first)
    else match MergeRules(first, rs[0], output, false)
      case Err(e) => Err(e)
      case Ok(m) => MergeAll(m, rs[1..], output)
  }

  /** The recipe of single-colon rules read one after another is the last recipe given. */
  lemma {:induction false} MergeAllKeepsLastCommands(first: Rule, rs: seq<Rule>, output: String)
    requires !first.isDoubleColon && forall i :: 0 <= i < |rs| ==> !rs[i].isDoubleColon
    ensures MergeAll(first, rs, output).Ok?
    ensures var cmds := MergeAll(first, rs, output).value.cmds;
      (forall i :: 0 <= i < |rs| ==> |rs[i].cmds| == 0) ==> cmds == first.cmds
    ensures var cmds := MergeAll(first, rs, output).value.cmds;
      forall i :: 0 <= i < |rs| && |rs[i].cmds| > 0 && (forall j :: i < j < |rs| ==> |rs[j].cmds| == 0) ==>
        cmds == rs[i].cmds
    decreases |rs|
  {
    if |rs| > 0 {
      var m := MergeRules(first, rs[0], output, false).value;
      MergeAllKeepsLastCommands(m, rs[1..], output);
      assert forall i :: 1 <= i < |rs| ==> rs[1..][i - 1] == rs[i];
    }
  }

  /** The recipes of double-colon rules read one after another are all kept, in order. */
  lemma {:induction false} MergeAllConcatenatesDoubleColon(first: Rule, rs: seq<Rule>, output: String)
    requires first.isDoubleColon && forall i :: 0 <= i < |rs| ==> rs[i].isDoubleColon
    ensures MergeAll(first, rs, output).Ok?
    ensures MergeAll(first, rs, output).value.cmds == first.cmds + ConcatCmds(rs)
    decreases |rs|
  {
    if |rs| > 0 {
      var m := DoubleColonStep(first, rs[0], output);
      assert forall i :: 0 <= i < |rs[1..]| ==> rs[1..][i].isDoubleColon;
      MergeAllConcatenatesDoubleColon(m, rs[1..], output);
      CmdsAssoc(first.cmds, rs[0].cmds, ConcatCmds(rs[1..]));
    }
  }

  /** Merging two double-colon rules succeeds and concatenates their recipes. */
  lemma DoubleColonStep(first: Rule, rule: Rule, output: String) returns (m: Rule)
    requires first.isDoubleColon && rule.isDoubleColon
    ensures MergeRules(first, rule, output, false) == Ok(m)
    ensures m.isDoubleColon && m.cmds == first.cmds + rule.cmds
  {
    m := MergeRules(first, rule, output, false).value;
  }

  lemma CmdsAssoc(a: seq<String>, b: seq<String>, c: seq<String>)
    ensures a + b + c == a + (b + c)
  {
  }

  function ConcatCmds(rs: seq<Rule>): seq<String> {
    if |rs| == 0 then [] else rs[0].cmds + ConcatCmds(rs[1..])
  }

  // ---------------------------------------------------------------------------
  // The rule tables
  // ---------------------------------------------------------------------------

  /**
   * The explicit-rule tables: the rule for each target, the suffix rules by
   * output suffix, the first rule with an ordinary target, and that target.
   */
  datatype RuleTable = RuleTable(
    rules: map<String, Rule>,
    suffixRules: map<String, seq<Rule>>,
    firstRule: Option<Rule>,
    firstTarget: Option<String>)

  /** Empty tables, as NewDepBuilder starts with. */
  const EmptyTable: RuleTable := RuleTable(map[], map[], None, None)

  /**
   * The invariant of the tables: suffix rules are well formed; the first rule
   * has a target; the first target is a target with a rule and does not start
   * with a dot, and it is set exactly when the first rule is.
   */
  ghost predicate TableValid(t: RuleTable) {
    SuffixRulesWellFormed(t.suffixRules) &&
    (t.firstRule.Some? ==> |t.firstRule.value.outputs| > 0) &&
    (t.firstRule.Some? <==> t.firstTarget.Some?) &&
    (t.firstTarget.Some? ==> t.firstTarget.value in t.rules && !HasPrefix(t.firstTarget.value, "."))
  }

  /** One (cleaned) target of an explicit rule: suffix-rule registration, then merge or insert. */
  function ExplicitOutput(t: RuleTable, rule: Rule, output: String): Result<RuleTable, DepError> {
    var suffixRules := SuffixRulesAfter(t.suffixRules, rule, output);
    var isSuffixRule := SuffixSplit(output).Some?;
    if output in t.rules then
      match MergeRules(t.rules[output], rule, output, isSuffixRule)
      case Err(e) => Err(e)
      case Ok(r) => Ok(t.(rules := t.rules[output := r], suffixRules := suffixRules))
    else
      var becomesFirst := t.firstRule.None? && !HasPrefix(output, ".");
      Ok(RuleTable(t.rules[output := rule], suffixRules,
        if becomesFirst then Some(rule) else t.firstRule,
        if becomesFirst then Some(output) else t.firstTarget))
  }

  /** populateExplicitRule: every target of `rule`, cleaned, in order; the first error ends it. */
  function ExplicitRule(t: RuleTable, rule: Rule, outputs: seq<String>, clean: String -> String): Result<RuleTable, DepError>
    decreases |outputs|
  {
    if |outputs| == 0 then Ok(t)
    else match ExplicitOutput(t, rule, clean(outputs[0]))
      case Err(e) => Err(e)
      case Ok(t') => ExplicitRule(t', rule, outputs[1..], clean)
  }

  lemma ExplicitOutputValid(t: RuleTable, rule: Rule, output: String)
    requires TableValid(t) && |rule.outputs| > 0
    ensures ExplicitOutput(t, rule, output).Ok? ==> TableValid(ExplicitOutput(t, rule, output).value)
  {
    SuffixRulesAfterWellFormed(t.suffixRules, rule, output);
  }

  lemma {:induction false} ExplicitRuleValid(t: RuleTable, rule: Rule, outputs: seq<String>, clean: String -> String)
    requires TableValid(t) && (|outputs| > 0 ==> |rule.outputs| > 0)
    ensures ExplicitRule(t, rule, outputs, clean).Ok? ==> TableValid(ExplicitRule(t, rule, outputs, clean).value)
    decreases |outputs|
  {
    if |outputs| > 0 {
      ExplicitOutputValid(t, rule, clean(outputs[0]));
      if ExplicitOutput(t, rule, clean(outputs[0])).Ok? {
        ExplicitRuleValid(ExplicitOutput(t, rule, clean(outputs[0])).value, rule, outputs[1..], clean);
      }
    }
  }

  /** A rule without targets changes nothing. */
  lemma ExplicitRuleNoOutputs(t: RuleTable, rule: Rule, clean: String -> String)
    ensures ExplicitRule(t, rule, [], clean) == Ok(t)
  {
  }

  /** Once the first rule is chosen it never changes. */
  lemma {:induction false} FirstRuleSetOnce(t: RuleTable, rule: Rule, outputs: seq<String>, clean: String -> String)
    requires t.firstRule.Some?
    ensures var r := ExplicitRule(t, rule, outputs, clean);
      r.Ok? ==> r.value.firstRule == t.firstRule && r.value.firstTarget == t.firstTarget
    decreases |outputs|
  {
    if |outputs| > 0 && ExplicitOutput(t, rule, clean(outputs[0])).Ok? {
      FirstRuleSetOnce(ExplicitOutput(t, rule, clean(outputs[0])).value, rule, outputs[1..], clean);
    }
  }

  /**
   * When there was no first rule and the rule's targets make one, it is this
   * rule, and the first target is the first of its cleaned targets that was
   * new to the table and does not start with a dot: every target before it
   * starts with a dot or was already in the table.
   */
  lemma {:induction false} FirstRuleChosen(t: RuleTable, rule: Rule, outputs: seq<String>, clean: String -> String)
    requires t.firstRule.None?
    ensures var r := ExplicitRule(t, rule, outputs, clean);
      r.Ok? && r.value.firstRule.Some? ==>
        r.value.firstRule == Some(rule) &&
        exists i :: 0 <= i < |outputs| && r.value.firstTarget == Some(clean(outputs[i])) &&
          !HasPrefix(clean(outputs[i]), ".") && clean(outputs[i]) !in t.rules &&
          forall j :: 0 <= j < i ==> HasPrefix(clean(outputs[j]), ".") || clean(outputs[j]) in t.rules
    decreases |outputs|
  {
    if |outputs| > 0 {
      var o := clean(outputs[0]);
      match ExplicitOutput(t, rule, o)
      case Err(_) =>
      case Ok(t') =>
        if t'.firstRule.Some? {
          FirstRuleSetOnce(t', rule, outputs[1..], clean);
        } else {
          FirstRuleChosen(t', rule, outputs[1..], clean);
          var r := ExplicitRule(t', rule, outputs[1..], clean);
          if r.Ok? && r.value.firstRule.Some? {
            var i :| 0 <= i < |outputs[1..]| && r.value.firstTarget == Some(clean(outputs[1..][i])) &&
              !HasPrefix(clean(outputs[1..][i]), ".") && clean(outputs[1..][i]) !in t'.rules &&
              forall j :: 0 <= j < i ==> HasPrefix(clean(outputs[1..][j]), ".") || clean(outputs[1..][j]) in t'.rules;
            assert outputs[1..][i] == outputs[i + 1];
            forall j | 0 <= j < i + 1
              ensures HasPrefix(clean(outputs[j]), ".") || clean(outputs[j]) in t.rules
            {
              if j > 0 {
                assert outputs[1..][j - 1] == outputs[j];
              }
            }
          }
        }
    }
  }

  /** Every cleaned target of the rule has a rule afterwards. */
  lemma {:induction false} ExplicitRuleRegisters(t: RuleTable, rule: Rule, outputs: seq<String>, clean: String -> String)
    ensures var r := ExplicitRule(t, rule, outputs, clean);
      r.Ok? ==> (t.rules.Keys <= r.value.rules.Keys &&
        forall i :: 0 <= i < |outputs| ==> clean(outputs[i]) in r.value.rules)
    decreases |outputs|
  {
    if |outputs| > 0 && ExplicitOutput(t, rule, clean(outputs[0])).Ok? {
      ExplicitRuleRegisters(ExplicitOutput(t, rule, clean(outputs[0])).value, rule, outputs[1..], clean);
      assert forall i :: 1 <= i < |outputs| ==> outputs[1..][i - 1] == outputs[i];
    }
  }

  /** The implicit rules one rule contributes: one copy per output pattern, each with that single pattern. */
  function ImplicitCopies(rule: Rule): (rs: seq<Rule>)
    ensures |rs| == |rule.outputPatterns|
    ensures forall i :: 0 <= i < |rs| ==> rs[i] == rule.(outputPatterns := [rule.outputPatterns[i]])
  {
    seq(|rule.outputPatterns|, i requires 0 <= i < |rule.outputPatterns| => rule.(outputPatterns := [rule.outputPatterns[i]]))
  }

  /** `s` in reverse order. */
  function Reverse<T>(s: seq<T>): (r: seq<T>)
    ensures |r| == |s| && forall i :: 0 <= i < |s| ==> r[i] == s[|s| - 1 - i]
  {
    seq(|s|, i requires 0 <= i < |s| => s[|s| - 1 - i])
  }

  lemma ReverseReverse<T>(s: seq<T>)
    ensures Reverse(Reverse(s)) == s
  {
  }

  /** A rule with its inputs and order-only inputs cleaned. */
  function CleanInputs(rule: Rule, clean: String -> String): (r: Rule)
    ensures |r.inputs| == |rule.inputs| && |r.orderOnlyInputs| == |rule.orderOnlyInputs|
    ensures forall i :: 0 <= i < |rule.inputs| ==> r.inputs[i] == clean(rule.inputs[i])
    ensures forall i :: 0 <= i < |rule.orderOnlyInputs| ==> r.orderOnlyInputs[i] == clean(rule.orderOnlyInputs[i])
    ensures r == rule.(inputs := r.inputs, orderOnlyInputs := r.orderOnlyInputs)
  {
    rule.(inputs := seq(|rule.inputs|, i requires 0 <= i < |rule.inputs| => clean(rule.inputs[i])),
          orderOnlyInputs := seq(|rule.orderOnlyInputs|, i requires 0 <= i < |rule.orderOnlyInputs| => clean(rule.orderOnlyInputs[i])))
  }

  /** The tables after populateRules has read `rules` (before the implicit rules are reversed). */
  function PopulateTables(t: RuleTable, rules: seq<Rule>, clean: String -> String): Result<RuleTable, DepError>
    decreases |rules|
  {
    if |rules| == 0 then Ok(t)
    else
      var rule := CleanInputs(rules[0], clean);
      match ExplicitRule(t, rule, rule.outputs, clean)
      case Err(e) => Err(e)
      case Ok(t') => PopulateTables(t', rules[1..], clean)
  }

  /** The implicit rules populateRules collects, in reading order. */
  function ImplicitOf(rules: seq<Rule>, clean: String -> String): seq<Rule>
    decreases |rules|
  {
    if |rules| == 0 then []
    else
      var rule := CleanInputs(rules[0], clean);
      (if |rule.outputs| == 0 then ImplicitCopies(rule) else []) + ImplicitOf(rules[1..], clean)
  }

  /** The implicit rules collected so far, plus those of `rules`, in reading order. */
  lemma ImplicitOfSnoc(rules: seq<Rule>, i: nat, clean: String -> String)
    requires i < |rules|
    ensures ImplicitOf(rules[..i + 1], clean) ==
      ImplicitOf(rules[..i], clean) +
      (if |rules[i].outputs| == 0 then ImplicitCopies(CleanInputs(rules[i], clean)) else [])
  {
    ImplicitOfAppend(rules[..i], [rules[i]], clean);
    assert rules[..i] + [rules[i]] == rules[..i + 1];
  }

  lemma {:induction false} ImplicitOfAppend(a: seq<Rule>, b: seq<Rule>, clean: String -> String)
    ensures ImplicitOf(a + b, clean) == ImplicitOf(a, clean) + ImplicitOf(b, clean)
    decreases |a|
  {
    if |a| == 0 {
      assert a + b == b;
    } else {
      assert (a + b)[1..] == a[1..] + b;
      ImplicitOfAppend(a[1..], b, clean);
    }
  }

  lemma {:induction false} PopulateTablesValid(t: RuleTable, rules: seq<Rule>, clean: String -> String)
    requires TableValid(t)
    ensures PopulateTables(t, rules, clean).Ok? ==> TableValid(PopulateTables(t, rules, clean).value)
    decreases |rules|
  {
    if |rules| > 0 {
      var rule := CleanInputs(rules[0], clean);
      ExplicitRuleValid(t, rule, rule.outputs, clean);
      if ExplicitRule(t, rule, rule.outputs, clean).Ok? {
        PopulateTablesValid(ExplicitRule(t, rule, rule.outputs, clean).value, rules[1..], clean);
      }
    }
  }

  /**
   * The default target as written: the first target of the first rule,
   * whatever target made it the first rule.
   */
  function DefaultTargetAsWritten(t: RuleTable): Option<String>
    requires TableValid(t)
  {
    if t.firstRule.None? then None else Some(t.firstRule.value.outputs[0])
  }

  /** The default target: the first target that made a rule the first rule. */
  function DefaultTarget(t: RuleTable): (r: Option<String>)
    requires TableValid(t)
    ensures r.Some? ==> r.value in t.rules && !HasPrefix(r.value, ".")
    ensures r.None? <==> t.firstRule.None?
  {
    t.firstTarget
  }

  /**
   * A rule whose first target starts with a dot but whose second does not
   * becomes the first rule through its second target, yet the default
   * target as written is its first, dotted target, which GNU make never
   * picks as the default goal.
   */
  lemma DefaultTargetAsWrittenIsDotted(clean: String -> String, rule: Rule)
    requires clean(".x") == ".x" && clean("all") == "all"
    requires rule.outputs == [".x", "all"]
    ensures var r := ExplicitRule(EmptyTable, rule, rule.outputs, clean);
      r.Ok? && TableValid(r.value) &&
      DefaultTargetAsWritten(r.value) == Some(".x") && HasPrefix(".x", ".") &&
      DefaultTarget(r.value) == Some("all")
  {
    assert SuffixSplit(".x").None? by {
      assert IndexOf(".x"[1..], '.').None?;
    }
    assert !HasPrefix("all", ".");
    var t1 := ExplicitOutput(EmptyTable, rule, ".x").value;
    assert t1.firstRule.None?;
    var t2 := ExplicitOutput(t1, rule, "all").value;
    assert rule.outputs[1..] == ["all"];
    assert ExplicitRule(t1, rule, ["all"], clean) == ExplicitRule(t2, rule, [], clean);
    assert t2.firstRule == Some(rule);
  }

  // ---------------------------------------------------------------------------
  // Target-specific variables and their restoration
  // ---------------------------------------------------------------------------

  /** `m` with `name` bound to `o`, or unbound when `o` is None. */
  function Put(m: Vars, name: String, o: Option<Var>): (r: Vars)
    ensures Lookup(r, name) == o
    ensures forall n :: n != name ==> Lookup(r, n) == Lookup(m, n)
  {
    if o.Some? then m[name := o.value] else m - {name}
  }

  /** Two variable tables with the same bindings are the same table. */
  lemma VarsExt(a: Vars, b: Vars)
    requires forall n :: Lookup(a, n) == Lookup(b, n)
    ensures a == b
  {
    assert forall n :: n in a <==> Lookup(a, n).Some?;
    assert forall n :: n in b <==> Lookup(b, n).Some?;
  }

  /**
   * A saved binding (Vars.save): putting it back restores `name` in the
   * global table (`inDb`) or in the target-specific one.
   */
  datatype Restore = Restore(inDb: bool, name: String, saved: Option<Var>)

  /** The tables after running `rs` in order, as the deferred restoration does. */
  function ApplyRestores(rs: seq<Restore>, v: Vars, t: Vars): (Vars, Vars)
    decreases |rs|
  {
    if |rs| == 0 then (v, t)
    else if rs[0].inDb then ApplyRestores(rs[1..], Put(v, rs[0].name, rs[0].saved), t)
    else ApplyRestores(rs[1..], v, Put(t, rs[0].name, rs[0].saved))
  }

  /** Whether no restoration of `rs` is for `name`. */
  predicate Unmentioned(rs: seq<Restore>, name: String) {
    forall k :: 0 <= k < |rs| ==> rs[k].name != name
  }

  /** Running restorations that do not mention `name` commutes with binding `name`. */
  lemma {:induction false} ApplyRestoresFrame(rs: seq<Restore>, v: Vars, t: Vars, name: String, x: Option<Var>, y: Option<Var>)
    requires Unmentioned(rs, name)
    ensures var (v', t') := ApplyRestores(rs, v, t);
      ApplyRestores(rs, Put(v, name, x), Put(t, name, y)) == (Put(v', name, x), Put(t', name, y))
    decreases |rs|
  {
    if |rs| > 0 {
      if rs[0].inDb {
        var a := Put(Put(v, name, x), rs[0].name, rs[0].saved);
        var b := Put(Put(v, rs[0].name, rs[0].saved), name, x);
        VarsExt(a, b);
        ApplyRestoresFrame(rs[1..], Put(v, rs[0].name, rs[0].saved), t, name, x, y);
      } else {
        var a := Put(Put(t, name, y), rs[0].name, rs[0].saved);
        var b := Put(Put(t, rs[0].name, rs[0].saved), name, y);
        VarsExt(a, b);
        ApplyRestoresFrame(rs[1..], v, Put(t, rs[0].name, rs[0].saved), name, x, y);
      }
    }
  }

  lemma {:induction false} ApplyRestoresAppend(rs: seq<Restore>, more: seq<Restore>, v: Vars, t: Vars)
    ensures var (v', t') := ApplyRestores(rs, v, t);
      ApplyRestores(rs + more, v, t) == ApplyRestores(more, v', t')
    decreases |rs|
  {
    if |rs| == 0 {
      assert rs + more == more;
    } else {
      assert (rs + more)[1..] == rs[1..] + more;
      if rs[0].inDb {
        ApplyRestoresAppend(rs[1..], more, Put(v, rs[0].name, rs[0].saved), t);
      } else {
        ApplyRestoresAppend(rs[1..], more, v, Put(t, rs[0].name, rs[0].saved));
      }
    }
  }

  /**
   * Saving `name` in both tables, then binding it, keeps the property that
   * the saved list restores the original tables.
   */
  lemma SaveThenBind(rs: seq<Restore>, v: Vars, t: Vars, v0: Vars, t0: Vars, name: String, x: Option<Var>, y: Option<Var>)
    requires Unmentioned(rs, name)
    requires ApplyRestores(rs, v, t) == (v0, t0)
    requires Lookup(v, name) == Lookup(v0, name) && Lookup(t, name) == Lookup(t0, name)
    ensures ApplyRestores(rs + [Restore(true, name, Lookup(v, name)), Restore(false, name, Lookup(t, name))],
                          Put(v, name, x), Put(t, name, y)) == (v0, t0)
  {
    var a, b := Lookup(v, name), Lookup(t, name);
    var tail := [Restore(true, name, a), Restore(false, name, b)];
    ApplyRestoresAppend(rs, tail, Put(v, name, x), Put(t, name, y));
    ApplyRestoresFrame(rs, v, t, name, x, y);
    RestoreBoth(Put(v0, name, x), Put(t0, name, y), name, a, b);
    VarsExt(Put(Put(v0, name, x), name, a), v0);
    VarsExt(Put(Put(t0, name, y), name, b), t0);
  }

  lemma RestoreBoth(v: Vars, t: Vars, name: String, a: Option<Var>, b: Option<Var>)
    ensures ApplyRestores([Restore(true, name, a), Restore(false, name, b)], v, t) == (Put(v, name, a), Put(t, name, b))
  {
    var tail := [Restore(true, name, a), Restore(false, name, b)];
    assert tail[1..] == [Restore(false, name, b)];
    assert tail[1..][1..] == [];
    assert ApplyRestores(tail[1..][1..], Put(v, name, a), Put(t, name, b)) == (Put(v, name, a), Put(t, name, b));
    assert ApplyRestores(tail[1..], Put(v, name, a), t) == (Put(v, name, a), Put(t, name, b));
  }

  /**
   * The bindings of `name` in the global and target-specific tables after a
   * target-specific variable `v` is applied: `=`/`:=` sets both; `+=` sets
   * both to `v` when the global one is unset or empty and to the appended
   * variable otherwise; `?=` sets both only when the global one is unset.
   */
  function TargetVarEffect(db: Option<Var>, tsv: Option<Var>, v: Var, appendVar: (Var, Var) -> Var): (r: (Option<Var>, Option<Var>))
    ensures v.op == Set ==> r == (Some(v), Some(v))
    ensures v.op == SetIfUnset ==> r == (if db.None? then (Some(v), Some(v)) else (db, tsv))
    ensures v.op == AppendTo && db.Some? && db.value.text != [] ==>
      r == (Some(appendVar(db.value, v)), Some(appendVar(db.value, v)))
    ensures v.op == AppendTo && (db.None? || db.value.text == []) ==> r == (Some(v), Some(v))
    ensures (r.0.Some? && r.0 == r.1) || r == (db, tsv)
  {
    match v.op
    case Set => (Some(v), Some(v))
    case AppendTo =>
      if db.None? || db.value.text == [] then (Some(v), Some(v))
      else var a := appendVar(db.value, v); (Some(a), Some(a))
    case SetIfUnset =>
      if db.None? then (Some(v), Some(v)) else (db, tsv)
  }

  // ---------------------------------------------------------------------------
  // The builder
  // ---------------------------------------------------------------------------

  /**
   * For every name of `tv` outside `remaining`, the tables hold what applying
   * `tv[name]` to the original bindings gives.
   */
  ghost predicate EffectsHold(tv: Vars, remaining: set<String>, v0: Vars, t0: Vars, v: Vars, t: Vars, appendVar: (Var, Var) -> Var) {
    forall n :: n in tv && n !in remaining ==>
      (Lookup(v, n), Lookup(t, n)) == TargetVarEffect(Lookup(v0, n), Lookup(t0, n), tv[n], appendVar)
  }

  /** Names not of `tv`, or still in `remaining`, keep their original bindings. */
  ghost predicate AgreeOutside(tv: Vars, remaining: set<String>, v0: Vars, t0: Vars, v: Vars, t: Vars) {
    forall n :: (n !in tv || n in remaining) ==> Lookup(v, n) == Lookup(v0, n) && Lookup(t, n) == Lookup(t0, n)
  }

  /**
   * `t` is the target-specific table in force once the variables `tv`, if
   * any, are applied to the global table `v0` and the target-specific table
   * `t0`: the effect of `tv[n]` for each of its names, the old binding
   * elsewhere.
   */
  ghost predicate AppliedTsvs(t: Vars, tv: Option<Vars>, v0: Vars, t0: Vars, appendVar: (Var, Var) -> Var) {
    forall n :: Lookup(t, n) ==
      (if tv.Some? && n in tv.value then TargetVarEffect(Lookup(v0, n), Lookup(t0, n), tv.value[n], appendVar).1
       else Lookup(t0, n))
  }

  /** After all of `tv` is applied, the target-specific table is the one AppliedTsvs describes. */
  lemma EffectsGiveTsvs(tv: Vars, v0: Vars, t0: Vars, v: Vars, t: Vars, appendVar: (Var, Var) -> Var)
    requires EffectsHold(tv, {}, v0, t0, v, t, appendVar) && AgreeOutside(tv, {}, v0, t0, v, t)
    ensures AppliedTsvs(t, Some(tv), v0, t0, appendVar)
  {
    forall n
      ensures Lookup(t, n) ==
        (if n in tv then TargetVarEffect(Lookup(v0, n), Lookup(t0, n), tv[n], appendVar).1 else Lookup(t0, n))
    {
      if n in tv {
        assert (Lookup(v, n), Lookup(t, n)) == TargetVarEffect(Lookup(v0, n), Lookup(t0, n), tv[n], appendVar);
      }
    }
  }

  lemma ApplyStep(tv: Vars, remaining: set<String>, v0: Vars, t0: Vars, v: Vars, t: Vars, name: String,
                  x: Option<Var>, y: Option<Var>, appendVar: (Var, Var) -> Var)
    requires name in tv && name in remaining
    requires EffectsHold(tv, remaining, v0, t0, v, t, appendVar) && AgreeOutside(tv, remaining, v0, t0, v, t)
    requires (x, y) == TargetVarEffect(Lookup(v, name), Lookup(t, name), tv[name], appendVar)
    ensures EffectsHold(tv, remaining - {name}, v0, t0, Put(v, name, x), Put(t, name, y), appendVar)
    ensures AgreeOutside(tv, remaining - {name}, v0, t0, Put(v, name, x), Put(t, name, y))
  {
  }

  /** What pickRule answers: the rule to use, its target-specific variables, and whether there is one. */
  datatype Pick = Pick(rule: Option<Rule>, vars: Option<Vars>, present: bool)

  /** The input of `rule` as `output` needs it: pattern-substituted, suffix-replaced, or as written. */
  function ActualInput(env: Env, rule: Rule, output: String, input: String): String {
    if |rule.outputPatterns| > 0 then SubstPattern(output, rule.outputPatterns[0], input)
    else if rule.isSuffixRule then ReplaceSuffix(env, output, input)
    else input
  }

  function ActualInputs(env: Env, rule: Rule, output: String): (r: seq<String>)
    ensures |r| == |rule.inputs|
    ensures forall k :: 0 <= k < |r| ==> r[k] == ActualInput(env, rule, output, rule.inputs[k])
  {
    seq(|rule.inputs|, k requires 0 <= k < |rule.inputs| => ActualInput(env, rule, output, rule.inputs[k]))
  }

  /** Each planned target names its own node, and every dependency is a node. */
  ghost predicate GraphOk(done: map<String, nat>, nodes: seq<DepNode>) {
    (forall o :: o in done ==> done[o] < |nodes| && nodes[done[o]].output == o) &&
    (forall i, k :: 0 <= i < |nodes| && 0 <= k < |nodes[i].deps| ==> nodes[i].deps[k] < |nodes|)
  }

  /** From one plan to the next, nodes are only added, keep their targets, and planned targets keep their node. */
  ghost predicate GrowsTo(d0: map<String, nat>, n0: seq<DepNode>, d1: map<String, nat>, n1: seq<DepNode>) {
    |n0| <= |n1| &&
    (forall i :: 0 <= i < |n0| ==> n1[i].output == n0[i].output) &&
    (forall o :: o in d0 ==> o in d1 && d1[o] == d0[o])
  }

  /** `cs` are the nodes planned for `names`, position by position, among `count` nodes. */
  ghost predicate ChildrenIn(done: map<String, nat>, count: nat, cs: seq<nat>, names: seq<String>) {
    |cs| == |names| &&
    forall k :: 0 <= k < |cs| ==> names[k] in done && done[names[k]] == cs[k] && cs[k] < count
  }

  /** Recording a new target with an empty node of its own keeps the graph consistent and only grows it. */
  lemma AddNode(done: map<String, nat>, nodes: seq<DepNode>, output: String, node: DepNode)
    requires GraphOk(done, nodes) && output !in done && node.output == output && |node.deps| == 0
    ensures GraphOk(done[output := |nodes|], nodes + [node])
    ensures GrowsTo(done, nodes, done[output := |nodes|], nodes + [node])
  {
    var nodes' := nodes + [node];
    forall i, k | 0 <= i < |nodes'| && 0 <= k < |nodes'[i].deps| ensures nodes'[i].deps[k] < |nodes'| {
      assert i < |nodes| && nodes'[i] == nodes[i];
    }
  }

  lemma GrowsTransitive(d0: map<String, nat>, n0: seq<DepNode>, d1: map<String, nat>, n1: seq<DepNode>,
                        d2: map<String, nat>, n2: seq<DepNode>)
    requires GrowsTo(d0, n0, d1, n1) && GrowsTo(d1, n1, d2, n2)
    ensures GrowsTo(d0, n0, d2, n2)
  {
  }

  lemma ChildrenGrow(d0: map<String, nat>, n0: seq<DepNode>, d1: map<String, nat>, n1: seq<DepNode>,
                     cs: seq<nat>, names: seq<String>)
    requires ChildrenIn(d0, |n0|, cs, names) && GrowsTo(d0, n0, d1, n1)
    ensures ChildrenIn(d1, |n1|, cs, names)
  {
  }

  lemma ChildrenSnoc(done: map<String, nat>, count: nat, cs: seq<nat>, names: seq<String>, name: String)
    requires ChildrenIn(done, count, cs, names) && name in done && done[name] < count
    ensures ChildrenIn(done, count, cs + [done[name]], names + [name])
  {
  }

  lemma ChildrenAppend(done: map<String, nat>, count: nat, a: seq<nat>, an: seq<String>, b: seq<nat>, bn: seq<String>)
    requires ChildrenIn(done, count, a, an) && ChildrenIn(done, count, b, bn)
    ensures ChildrenIn(done, count, a + b, an + bn)
  {
  }

  /** Marking a node order-only keeps the plan well formed. */
  lemma MarkOrderOnly(done: map<String, nat>, nodes: seq<DepNode>, c: nat)
    requires GraphOk(done, nodes) && c < |nodes|
    ensures var marked := nodes[c := nodes[c].(isOrderOnly := true)];
      GraphOk(done, marked) && GrowsTo(done, nodes, done, marked)
  {
    var marked := nodes[c := nodes[c].(isOrderOnly := true)];
    assert forall i :: 0 <= i < |nodes| ==> marked[i].deps == nodes[i].deps && marked[i].output == nodes[i].output;
  }

  /** DepBuilder: the rule tables, the variables, and the plan built so far. */
  class DepBuilder {
    const env: Env
    var rules: map<String, Rule>
    var ruleVars: map<String, Vars>
    var implicitRules: seq<Rule>
    var suffixRules: map<String, seq<Rule>>
    var firstRule: Option<Rule>
    /** The target through which `firstRule` became the first rule. */
    var firstTarget: Option<String>
    var vars: Vars
    /** The node built for each target, as a position in `nodes`. */
    var done: map<String, nat>
    var nodes: seq<DepNode>
    var trace: seq<String>
    /** The target-specific variables in effect for the target being planned. */
    var tsvs: Vars

    function Table(): RuleTable
      reads this`rules, this`suffixRules, this`firstRule, this`firstTarget
    {
      RuleTable(rules, suffixRules, firstRule, firstTarget)
    }

    /** Every implicit rule has exactly one output pattern. */
    ghost predicate PatternsValid()
      reads this`implicitRules
    {
      forall i :: 0 <= i < |implicitRules| ==> |implicitRules[i].outputPatterns| == 1
    }

    /** What planning relies on: single-pattern implicit rules and a well-formed plan. */
    ghost predicate PlanValid()
      reads this`implicitRules, this`done, this`nodes
    {
      PatternsValid() && GraphOk(done, nodes)
    }

    ghost predicate Valid()
      reads this`rules, this`suffixRules, this`firstRule, this`firstTarget, this`implicitRules, this`done, this`nodes
    {
      TableValid(Table()) && PlanValid()
    }

    /** The builder NewDepBuilder starts from, before its rules are read. */
    constructor (ruleVars: map<String, Vars>, vars: Vars, env: Env)
      ensures this.env == env && this.ruleVars == ruleVars && this.vars == vars
      ensures Table() == EmptyTable && implicitRules == []
      ensures done == map[] && nodes == [] && trace == [] && tsvs == map[]
      ensures Valid()
    {
      this.env := env;
      this.rules := map[];
      this.ruleVars := ruleVars;
      this.implicitRules := [];
      this.suffixRules := map[];
      this.firstRule := None;
      this.firstTarget := None;
      this.vars := vars;
      this.done := map[];
      this.nodes := [];
      this.trace := [];
      this.tsvs := map[];
    }

    // -------------------------------------------------------------------------
    // Reading the rules
    // -------------------------------------------------------------------------

    /** populateSuffixRule: registers `rule` as a suffix rule when `output` is `.in.out`. */
    method PopulateSuffixRule(rule: Rule, output: String) returns (isSuffixRule: bool)
      modifies this`suffixRules
      ensures isSuffixRule == SuffixSplit(output).Some?
      ensures suffixRules == SuffixRulesAfter(old(suffixRules), rule, output)
    {
      if |output| == 0 || output[0] != '.' {
        return false;
      }
      var rest := output[1..];
      var dotIndex := IndexOf(rest, '.');
      if dotIndex.None? || IndexOf(rest[dotIndex.value + 1..], '.').Some? {
        return false;
      }
      var inputSuffix := rest[..dotIndex.value];
      var outputSuffix := rest[dotIndex.value + 1..];
      var r := rule.(inputs := [inputSuffix], isSuffixRule := true);
      var existing := if outputSuffix in suffixRules then suffixRules[outputSuffix] else [];
      suffixRules := suffixRules[outputSuffix := [r] + existing];
      return true;
    }

    /** populateExplicitRule: each target of `rule`, cleaned, is registered or merged. */
    method PopulateExplicitRule(rule: Rule) returns (err: Option<DepError>)
      modifies this`rules, this`suffixRules, this`firstRule, this`firstTarget
      ensures match ExplicitRule(old(Table()), rule, rule.outputs, env.clean)
        case Ok(t) => err.None? && Table() == t
        case Err(e) => err == Some(e)
    {
      if |rule.outputs| == 0 {
        return None;
      }
      for i := 0 to |rule.outputs|
        invariant ExplicitRule(old(Table()), rule, rule.outputs, env.clean) ==
          ExplicitRule(Table(), rule, rule.outputs[i..], env.clean)
      {
        var output := env.clean(rule.outputs[i]);
        assert rule.outputs[i..][1..] == rule.outputs[i + 1..];
        var isSuffixRule := PopulateSuffixRule(rule, output);
        if output in rules {
          var r := MergeRules(rules[output], rule, output, isSuffixRule);
          if r.Err? {
            return Some(r.error);
          }
          rules := rules[output := r.value];
        } else {
          rules := rules[output := rule];
          if firstRule.None? && !HasPrefix(output, ".") {
            firstRule := Some(rule);
            firstTarget := Some(output);
          }
        }
      }
      return None;
    }

    /** populateImplicitRule: one implicit rule per output pattern, appended in order. */
    method PopulateImplicitRule(rule: Rule)
      modifies this`implicitRules
      ensures implicitRules == old(implicitRules) + ImplicitCopies(rule)
    {
      for i := 0 to |rule.outputPatterns|
        invariant implicitRules == old(implicitRules) + ImplicitCopies(rule)[..i]
      {
        implicitRules := implicitRules + [rule.(outputPatterns := [rule.outputPatterns[i]])];
      }
      assert ImplicitCopies(rule)[..|rule.outputPatterns|] == ImplicitCopies(rule);
    }

    /** The last part of populateRules: the implicit rules are reversed in place. */
    method ReverseImplicitRules()
      modifies this`implicitRules
      ensures implicitRules == Reverse(old(implicitRules))
    {
      var n := |implicitRules|;
      for i := 0 to n / 2
        invariant |implicitRules| == n
        invariant forall k :: 0 <= k < i ==> implicitRules[k] == old(implicitRules)[n - 1 - k]
        invariant forall k :: n - i <= k < n ==> implicitRules[k] == old(implicitRules)[n - 1 - k]
        invariant forall k :: i <= k < n - i ==> implicitRules[k] == old(implicitRules)[k]
      {
        var r := implicitRules[i];
        var j := n - i - 1;
        implicitRules := implicitRules[i := implicitRules[j]][j := r];
      }
    }

    /**
     * populateRules: cleans each rule's inputs, registers its targets, keeps
     * target-less rules as implicit rules, and finally reverses the implicit
     * rules so that the last one defined is tried first.
     */
    method PopulateRules(rs: seq<Rule>) returns (err: Option<DepError>)
      modifies this`rules, this`suffixRules, this`firstRule, this`firstTarget, this`implicitRules
      ensures match PopulateTables(old(Table()), rs, env.clean)
        case Ok(t) => err.None? && Table() == t &&
          implicitRules == Reverse(old(implicitRules) + ImplicitOf(rs, env.clean))
        case Err(e) => err == Some(e)
    {
      for i := 0 to |rs|
        invariant PopulateTables(old(Table()), rs, env.clean) == PopulateTables(Table(), rs[i..], env.clean)
        invariant implicitRules == old(implicitRules) + ImplicitOf(rs[..i], env.clean)
      {
        var rule := CleanInputs(rs[i], env.clean);
        assert rs[i..][1..] == rs[i + 1..];
        ImplicitOfSnoc(rs, i, env.clean);
        var e := PopulateExplicitRule(rule);
        if e.Some? {
          return e;
        }
        if |rule.outputs| == 0 {
          PopulateImplicitRule(rule);
        }
      }
      assert rs[..|rs|] == rs;
      ReverseImplicitRules();
      return None;
    }

    // -------------------------------------------------------------------------
    // Choosing a rule
    // -------------------------------------------------------------------------

    /** exists: a target with a rule, a phony target, or a file on disk. */
    predicate Exists(target: String)
      reads this`rules
    {
      target in rules || (".PHONY" in rules && target in rules[".PHONY"].inputs) || target in env.onDisk
    }

    /** canPickImplicitRule: the target matches the pattern and every substituted input exists. */
    predicate CanPickImplicitRule(rule: Rule, output: String)
      requires |rule.outputPatterns| > 0
      reads this`rules
    {
      MatchPattern(output, rule.outputPatterns[0]) &&
      forall input :: input in rule.inputs ==> Exists(SubstPattern(output, rule.outputPatterns[0], input))
    }

    /**
     * mergeImplicitRuleVars: the variables of the implicit rule's single
     * output pattern, overridden by the target's own; more than one output
     * is a fatal error.
     */
    function MergeImplicitRuleVars(outputs: seq<String>, vars: Vars): (r: Result<Vars, DepError>)
      reads this`ruleVars
      ensures r.Err? <==> |outputs| != 1
      ensures r.Err? ==> r.error == ImplicitRuleOutputs(outputs)
      ensures r.Ok? ==> r.value.Keys == vars.Keys + (if outputs[0] in ruleVars then ruleVars[outputs[0]].Keys else {})
      ensures r.Ok? ==> forall n :: n in vars ==> r.value[n] == vars[n]
      ensures r.Ok? ==> forall n :: n in r.value && n !in vars ==> r.value[n] == ruleVars[outputs[0]][n]
    {
      if |outputs| != 1 then Err(ImplicitRuleOutputs(outputs))
      else if outputs[0] !in ruleVars then Ok(vars)
      else Ok(ruleVars[outputs[0]] + vars)
    }

    /** The position of the first implicit rule at or after `i` that can make `output`. */
    function FirstPickable(output: String, i: nat): (r: nat)
      requires PatternsValid() && i <= |implicitRules|
      reads this`implicitRules, this`rules
      ensures i <= r <= |implicitRules|
      ensures r < |implicitRules| ==> CanPickImplicitRule(implicitRules[r], output)
      ensures forall k :: i <= k < r ==> !CanPickImplicitRule(implicitRules[k], output)
      decreases |implicitRules| - i
    {
      if i == |implicitRules| then i
      else if CanPickImplicitRule(implicitRules[i], output) then i
      else FirstPickable(output, i + 1)
    }

    /** The position of the first suffix rule in `srules` that panics or whose input exists. */
    function FirstSuffix(srules: seq<Rule>, output: String, i: nat): (r: nat)
      requires i <= |srules|
      reads this`rules
      ensures i <= r <= |srules|
      ensures r < |srules| ==> |srules[r].inputs| != 1 || Exists(ReplaceSuffix(env, output, srules[r].inputs[0]))
      ensures forall k :: i <= k < r ==> |srules[k].inputs| == 1 && !Exists(ReplaceSuffix(env, output, srules[k].inputs[0]))
      decreases |srules| - i
    {
      if i == |srules| then i
      else if |srules[i].inputs| != 1 || Exists(ReplaceSuffix(env, output, srules[i].inputs[0])) then i
      else FirstSuffix(srules, output, i + 1)
    }

    /** The choice among the suffix rules for `output`'s extension. */
    function SuffixPick(output: String, rule: Option<Rule>, vars: Option<Vars>): Result<Pick, DepError>
      reads this`rules, this`ruleVars, this`suffixRules
    {
      var ext := env.ext(output);
      if !HasPrefix(ext, ".") || ext[1..] !in suffixRules then Ok(Pick(rule, vars, rule.Some?))
      else
        var srules := suffixRules[ext[1..]];
        var j := FirstSuffix(srules, output, 0);
        if j == |srules| then Ok(Pick(rule, vars, rule.Some?))
        else
          var irule := srules[j];
          if |irule.inputs| != 1 then Err(SuffixRuleInputs(|irule.inputs|))
          else if rule.Some? then
            var input := ReplaceSuffix(env, output, irule.inputs[0]);
            Ok(Pick(Some(rule.value.(inputs := [input] + rule.value.inputs, cmds := irule.cmds, cmdLineno := irule.cmdLineno)), vars, true))
          else if vars.None? then Ok(Pick(Some(irule), vars, true))
          else match MergeImplicitRuleVars(irule.outputs, vars.value)
            case Err(e) => Err(e)
            case Ok(v) => Ok(Pick(Some(irule), Some(v), true))
    }

    /**
     * pickRule, as a function of the tables: an explicit rule with commands;
     * else the first implicit rule that applies (its commands and inputs
     * grafted onto the explicit rule when there is one); else the first
     * suffix rule whose source exists; else the explicit rule, if any.
     */
    function PickRuleSpec(output: String): Result<Pick, DepError>
      requires PatternsValid()
      reads this`rules, this`ruleVars, this`implicitRules, this`suffixRules
    {
      var rule := if output in rules then Some(rules[output]) else None;
      var vars := if output in ruleVars then Some(ruleVars[output]) else None;
      if rule.Some? && |rule.value.cmds| > 0 then Ok(Pick(rule, vars, true))
      else
        var i := FirstPickable(output, 0);
        if i < |implicitRules| then
          var irule := implicitRules[i];
          if rule.Some? then
            Ok(Pick(Some(rule.value.(outputPatterns := irule.outputPatterns, inputs := irule.inputs + rule.value.inputs,
                                     cmds := irule.cmds, cmdLineno := irule.cmdLineno)), vars, true))
          else if vars.None? then Ok(Pick(Some(irule), vars, true))
          else Ok(Pick(Some(irule), Some(MergeImplicitRuleVars(irule.outputPatterns, vars.value).value), true))
        else SuffixPick(output, rule, vars)
    }

    /** pickRule: the same choice, made by scanning the implicit and suffix rules in order. */
    method PickRule(output: String) returns (r: Result<Pick, DepError>)
      requires PatternsValid()
      ensures r == PickRuleSpec(output)
    {
      var rule := if output in rules then Some(rules[output]) else None;
      var vars := if output in ruleVars then Some(ruleVars[output]) else None;
      if rule.Some? && |rule.value.cmds| > 0 {
        return Ok(Pick(rule, vars, true));
      }
      for i := 0 to |implicitRules|
        invariant forall k :: 0 <= k < i ==> !CanPickImplicitRule(implicitRules[k], output)
      {
        var irule := implicitRules[i];
        if !CanPickImplicitRule(irule, output) {
          continue;
        }
        assert FirstPickable(output, 0) == i;
        if rule.Some? {
          var merged := rule.value.(outputPatterns := irule.outputPatterns, inputs := irule.inputs + rule.value.inputs,
                                    cmds := irule.cmds, cmdLineno := irule.cmdLineno);
          return Ok(Pick(Some(merged), vars, true));
        }
        if vars.Some? {
          // An implicit rule has a single output pattern, so the merge never panics.
          vars := Some(MergeImplicitRuleVars(irule.outputPatterns, vars.value).value);
        }
        return Ok(Pick(Some(irule), vars, true));
      }
      assert FirstPickable(output, 0) == |implicitRules|;
      r := PickSuffixRule(output, rule, vars);
    }

    /** The suffix-rule part of pickRule. */
    method PickSuffixRule(output: String, rule: Option<Rule>, vars: Option<Vars>) returns (r: Result<Pick, DepError>)
      ensures r == SuffixPick(output, rule, vars)
    {
      var outputSuffix := env.ext(output);
      if !HasPrefix(outputSuffix, ".") || outputSuffix[1..] !in suffixRules {
        return Ok(Pick(rule, vars, rule.Some?));
      }
      var srules := suffixRules[outputSuffix[1..]];
      for i := 0 to |srules|
        invariant forall k :: 0 <= k < i ==> |srules[k].inputs| == 1 && !Exists(ReplaceSuffix(env, output, srules[k].inputs[0]))
      {
        var irule := srules[i];
        if |irule.inputs| != 1 {
          assert FirstSuffix(srules, output, 0) == i;
          return Err(SuffixRuleInputs(|irule.inputs|));
        }
        if !Exists(ReplaceSuffix(env, output, irule.inputs[0])) {
          continue;
        }
        assert FirstSuffix(srules, output, 0) == i;
        if rule.Some? {
          var input := ReplaceSuffix(env, output, irule.inputs[0]);
          return Ok(Pick(Some(rule.value.(inputs := [input] + rule.value.inputs, cmds := irule.cmds, cmdLineno := irule.cmdLineno)), vars, true));
        }
        if vars.Some? {
          var v := MergeImplicitRuleVars(irule.outputs, vars.value);
          if v.Err? {
            return Err(v.error);
          }
          return Ok(Pick(Some(irule), Some(v.value), true));
        }
        return Ok(Pick(Some(irule), vars, true));
      }
      assert FirstSuffix(srules, output, 0) == |srules|;
      return Ok(Pick(rule, vars, rule.Some?));
    }

    /** A rule is present exactly when one was picked. */
    lemma PickPresentHasRule(output: String)
      requires PatternsValid()
      ensures PickRuleSpec(output).Ok? && PickRuleSpec(output).value.present ==> PickRuleSpec(output).value.rule.Some?
    {
    }

    /**
     * Without an explicit rule that has commands, the first implicit rule
     * that applies supplies the commands, and its inputs come before the
     * explicit rule's.
     */
    lemma PickFirstImplicit(output: String, i: nat)
      requires PatternsValid() && i < |implicitRules|
      requires output !in rules || |rules[output].cmds| == 0
      requires CanPickImplicitRule(implicitRules[i], output)
      requires forall k :: 0 <= k < i ==> !CanPickImplicitRule(implicitRules[k], output)
      ensures PickRuleSpec(output).Ok? && PickRuleSpec(output).value.present
      ensures PickRuleSpec(output).value.rule.Some?
      ensures PickRuleSpec(output).value.rule.value.cmds == implicitRules[i].cmds
      ensures PickRuleSpec(output).value.rule.value.inputs ==
        implicitRules[i].inputs + (if output in rules then rules[output].inputs else [])
    {
      assert FirstPickable(output, 0) == i;
    }

    /**
     * After populateRules has reversed the implicit rules, of the rules that
     * apply to a target the one defined last is tried first.
     */
    lemma LaterImplicitRuleWins(output: String, defined: seq<Rule>, i: nat)
      requires PatternsValid() && implicitRules == Reverse(defined)
      requires forall j :: 0 <= j < |defined| ==> |defined[j].outputPatterns| == 1
      requires i < |defined| && CanPickImplicitRule(defined[i], output)
      requires forall j :: i < j < |defined| ==> !CanPickImplicitRule(defined[j], output)
      ensures FirstPickable(output, 0) == |defined| - 1 - i
      ensures implicitRules[FirstPickable(output, 0)] == defined[i]
    {
      var f := FirstPickable(output, 0);
      assert implicitRules[|defined| - 1 - i] == defined[i];
      forall k | 0 <= k < |defined| - 1 - i
        ensures !CanPickImplicitRule(implicitRules[k], output)
      {
        assert implicitRules[k] == defined[|defined| - 1 - k];
      }
    }

    /** A suffix rule always has one input suffix, so the panic of the suffix search never fires. */
    lemma SuffixPickNeverPanics(output: String, rule: Option<Rule>, vars: Option<Vars>)
      requires SuffixRulesWellFormed(suffixRules)
      ensures !(SuffixPick(output, rule, vars).Err? && SuffixPick(output, rule, vars).error.SuffixRuleInputs?)
    {
      var ext := env.ext(output);
      if HasPrefix(ext, ".") && ext[1..] in suffixRules {
        var srules := suffixRules[ext[1..]];
        var j := FirstSuffix(srules, output, 0);
        if j < |srules| {
          assert |srules[j].inputs| == 1;
        }
      }
    }

    /**
     * Nothing is present for a target without a rule when no implicit rule
     * applies and no suffix rule for its extension has a source that exists.
     */
    lemma PickNothing(output: String)
      requires PatternsValid() && SuffixRulesWellFormed(suffixRules) && output !in rules
      requires forall k :: 0 <= k < |implicitRules| ==> !CanPickImplicitRule(implicitRules[k], output)
      requires var ext := env.ext(output);
        HasPrefix(ext, ".") && ext[1..] in suffixRules ==>
          forall k :: 0 <= k < |suffixRules[ext[1..]]| ==>
            !Exists(ReplaceSuffix(env, output, suffixRules[ext[1..]][k].inputs[0]))
      ensures PickRuleSpec(output).Ok? && !PickRuleSpec(output).value.present
    {
      assert FirstPickable(output, 0) == |implicitRules|;
      var ext := env.ext(output);
      if HasPrefix(ext, ".") && ext[1..] in suffixRules {
        var srules := suffixRules[ext[1..]];
        assert FirstSuffix(srules, output, 0) == |srules|;
      }
    }

    // -------------------------------------------------------------------------
    // Building the plan
    // -------------------------------------------------------------------------

    /**
     * Applies the target-specific variables `tv` to the global and
     * target-specific tables, saving each name's previous bindings first.
     * The names are taken in no particular order, as a Go map is iterated.
     */
    method ApplyTargetVars(tv: Vars) returns (restores: seq<Restore>)
      modifies this`vars, this`tsvs
      ensures ApplyRestores(restores, vars, tsvs) == (old(vars), old(tsvs))
      ensures EffectsHold(tv, {}, old(vars), old(tsvs), vars, tsvs, env.appendVar)
      ensures AgreeOutside(tv, {}, old(vars), old(tsvs), vars, tsvs)
    {
      restores := [];
      var remaining := tv.Keys;
      while remaining != {}
        invariant remaining <= tv.Keys
        invariant forall k :: 0 <= k < |restores| ==> restores[k].name !in remaining
        invariant ApplyRestores(restores, vars, tsvs) == (old(vars), old(tsvs))
        invariant EffectsHold(tv, remaining, old(vars), old(tsvs), vars, tsvs, env.appendVar)
        invariant AgreeOutside(tv, remaining, old(vars), old(tsvs), vars, tsvs)
        decreases |remaining|
      {
        var name :| name in remaining;
        ghost var prevVars, prevTsvs, prevRestores := vars, tsvs, restores;
        restores := restores + [Restore(true, name, Lookup(vars, name)), Restore(false, name, Lookup(tsvs, name))];
        ghost var x, y := ApplyTargetVar(name, tv[name]);
        ApplyStep(tv, remaining, old(vars), old(tsvs), prevVars, prevTsvs, name, x, y, env.appendVar);
        SaveThenBind(prevRestores, prevVars, prevTsvs, old(vars), old(tsvs), name, x, y);
        remaining := remaining - {name};
      }
    }

    /** One target-specific variable, by its assignment operator. */
    method ApplyTargetVar(name: String, v: Var) returns (ghost x: Option<Var>, ghost y: Option<Var>)
      modifies this`vars, this`tsvs
      ensures (x, y) == TargetVarEffect(Lookup(old(vars), name), Lookup(old(tsvs), name), v, env.appendVar)
      ensures vars == Put(old(vars), name, x) && tsvs == Put(old(tsvs), name, y)
    {
      match v.op {
        case Set =>
          vars := vars[name := v];
          tsvs := tsvs[name := v];
        case AppendTo =>
          if name !in vars || vars[name].text == [] {
            vars := vars[name := v];
            tsvs := tsvs[name := v];
          } else {
            var appended := env.appendVar(vars[name], v);
            vars := vars[name := appended];
            tsvs := tsvs[name := appended];
          }
        case SetIfUnset =>
          if name !in vars {
            vars := vars[name := v];
            tsvs := tsvs[name := v];
          }
      }
      x, y := Lookup(vars, name), Lookup(tsvs, name);
      VarsExt(vars, Put(old(vars), name, x));
      VarsExt(tsvs, Put(old(tsvs), name, y));
    }

    /** Runs the saved restorations in order, as the deferred function does. */
    method RunRestores(restores: seq<Restore>)
      modifies this`vars, this`tsvs
      ensures (vars, tsvs) == ApplyRestores(restores, old(vars), old(tsvs))
    {
      for i := 0 to |restores|
        invariant ApplyRestores(restores, old(vars), old(tsvs)) == ApplyRestores(restores[i..], vars, tsvs)
      {
        assert restores[i..][1..] == restores[i + 1..];
        var r := restores[i];
        if r.inDb {
          if r.saved.Some? {
            vars := vars[r.name := r.saved.value];
          } else {
            vars := vars - {r.name};
          }
        } else {
          if r.saved.Some? {
            tsvs := tsvs[r.name := r.saved.value];
          } else {
            tsvs := tsvs - {r.name};
          }
        }
      }
    }

    /**
     * Node `id` records the plan for `output` under the pick `p`: without a
     * rule it has no dependencies; with one it has the rule's commands, its
     * actual inputs, and as dependencies the nodes of its actual inputs
     * followed by those of its order-only inputs.
     */
    ghost predicate Planned(id: nat, output: String, p: Pick)
      reads this`done, this`nodes
    {
      id < |nodes| && nodes[id].output == output && nodes[id].hasRule == p.present &&
      (!p.present ==> nodes[id].deps == [] && nodes[id].cmds == []) &&
      (p.present ==>
        p.rule.Some? &&
        nodes[id].cmds == p.rule.value.cmds &&
        nodes[id].filename == p.rule.value.filename &&
        nodes[id].lineno == (if |p.rule.value.cmds| > 0 then p.rule.value.cmdLineno else 0) &&
        nodes[id].actualInputs == ActualInputs(env, p.rule.value, output) &&
        ChildrenIn(done, |nodes|, nodes[id].deps, ActualInputs(env, p.rule.value, output) + p.rule.value.orderOnlyInputs))
    }

    /**
     * When `p` has a rule, node `id` keeps as its variables the
     * target-specific table in force while its inputs were planned: `t0` with
     * the pick's variables applied over `v0`.
     */
    ghost predicate PlannedUnder(id: nat, p: Pick, v0: Vars, t0: Vars)
      reads this`nodes
    {
      p.present ==> id < |nodes| && AppliedTsvs(nodes[id].targetSpecificVars, p.vars, v0, t0, env.appendVar)
    }

    /**
     * buildPlan: the node for `output`, reused when the target was planned
     * before; otherwise a new node whose dependencies are planned first, under
     * the target's variables, which are restored afterwards.  `fuel` bounds
     * the depth of the recursion.
     */
    method BuildPlan(output: String, neededBy: String, fuel: nat) returns (r: Result<nat, DepError>)
      requires PlanValid()
      modifies this`nodes, this`done, this`trace, this`vars, this`tsvs
      ensures PlanValid() && GrowsTo(old(done), old(nodes), done, nodes)
      ensures trace == old(trace) && vars == old(vars) && tsvs == old(tsvs)
      ensures output in old(done) ==> r == Ok(old(done)[output]) && nodes == old(nodes) && done == old(done)
      ensures r.Ok? ==> output in done && done[output] == r.value
      ensures r.Ok? && output !in old(done) ==>
        old(PickRuleSpec(output)).Ok? && Planned(r.value, output, old(PickRuleSpec(output)).value) &&
        PlannedUnder(r.value, old(PickRuleSpec(output)).value, old(vars), old(tsvs))
      decreases fuel, 5
    {
      if output in done {
        return Ok(done[output]);
      }
      if fuel == 0 {
        return Err(DepthExceeded);
      }
      ghost var spec := PickRuleSpec(output);
      var id := |nodes|;
      var node := DepNode(output, [], [], false, false, [], map[], [], 0);
      AddNode(done, nodes, output, node);
      nodes := nodes + [node];
      done := done[output := id];
      ghost var d1, n1 := done, nodes;
      assert PickRuleSpec(output) == spec;
      r := BuildNew(id, output, fuel);
      GrowsTransitive(old(done), old(nodes), d1, n1, done, nodes);
      assert r.Ok? ==> spec.Ok? && Planned(r.value, output, spec.value) && PlannedUnder(r.value, spec.value, old(vars), old(tsvs));
    }

    /** buildPlan for a target met for the first time, once its empty node `id` is recorded. */
    method BuildNew(id: nat, output: String, fuel: nat) returns (r: Result<nat, DepError>)
      requires PlanValid() && fuel > 0
      requires id < |nodes| && nodes[id] == DepNode(output, [], [], false, false, [], map[], [], 0)
      requires output in done && done[output] == id
      modifies this`nodes, this`done, this`trace, this`vars, this`tsvs
      ensures PlanValid() && GrowsTo(old(done), old(nodes), done, nodes)
      ensures trace == old(trace) && vars == old(vars) && tsvs == old(tsvs)
      ensures r.Ok? ==> r.value == id && old(PickRuleSpec(output)).Ok? && Planned(id, output, old(PickRuleSpec(output)).value)
      ensures r.Ok? ==> PlannedUnder(id, old(PickRuleSpec(output)).value, old(vars), old(tsvs))
      decreases fuel, 4
    {
      var pick := PickRule(output);
      if pick.Err? {
        return Err(pick.error);
      }
      if !pick.value.present {
        return Ok(id);
      }
      PickPresentHasRule(output);
      r := BuildWithVars(id, output, pick.value.rule.value, pick.value.vars, fuel);
    }

    /**
     * buildPlan once a rule is picked: the target-specific variables, when
     * there are any, are bound for the planning of the inputs and restored
     * afterwards, as the deferred restores do.
     */
    method BuildWithVars(id: nat, output: String, rule: Rule, tv: Option<Vars>, fuel: nat) returns (r: Result<nat, DepError>)
      requires PlanValid() && fuel > 0 && id < |nodes| && nodes[id].output == output
      modifies this`nodes, this`done, this`trace, this`vars, this`tsvs
      ensures PlanValid() && GrowsTo(old(done), old(nodes), done, nodes)
      ensures trace == old(trace) && vars == old(vars) && tsvs == old(tsvs)
      ensures r.Ok? ==> r.value == id && Planned(id, output, Pick(Some(rule), None, true))
      ensures r.Ok? ==> AppliedTsvs(nodes[id].targetSpecificVars, tv, old(vars), old(tsvs), env.appendVar)
      decreases fuel, 3
    {
      var restores: seq<Restore> := [];
      if tv.Some? {
        restores := ApplyTargetVars(tv.value);
        EffectsGiveTsvs(tv.value, old(vars), old(tsvs), vars, tsvs, env.appendVar);
      }
      assert AppliedTsvs(tsvs, tv, old(vars), old(tsvs), env.appendVar);
      r := BuildRule(id, output, rule, fuel);
      RunRestores(restores);
    }

    /**
     * The part of buildPlan that runs under the target's variables: the
     * inputs and the order-only inputs are planned, then node `id` is filled.
     */
    method BuildRule(id: nat, output: String, rule: Rule, fuel: nat) returns (r: Result<nat, DepError>)
      requires PlanValid() && fuel > 0 && id < |nodes| && nodes[id].output == output
      modifies this`nodes, this`done, this`trace, this`vars, this`tsvs
      ensures PlanValid() && GrowsTo(old(done), old(nodes), done, nodes)
      ensures trace == old(trace) && vars == old(vars) && tsvs == old(tsvs)
      ensures r.Ok? ==> r.value == id && Planned(id, output, Pick(Some(rule), None, true))
      ensures r.Ok? ==> nodes[id].targetSpecificVars == old(tsvs)
      decreases fuel, 2
    {
      if |rule.inputs| > 0 && |rule.outputPatterns| > 1 {
        return Err(MultipleOutputPatterns);
      }
      var actualInputs := ActualInputs(env, rule, output);
      var inputs := BuildEach(actualInputs, output, false, fuel);
      if inputs.Err? {
        return Err(inputs.error);
      }
      ghost var d1, n1 := done, nodes;
      var orderOnly := BuildEach(rule.orderOnlyInputs, output, true, fuel);
      if orderOnly.Err? {
        return Err(orderOnly.error);
      }
      ChildrenGrow(d1, n1, done, nodes, inputs.value, actualInputs);
      ChildrenAppend(done, |nodes|, inputs.value, actualInputs, orderOnly.value, rule.orderOnlyInputs);
      ghost var d2, n2 := done, nodes;
      nodes := nodes[id := nodes[id].(
        deps := inputs.value + orderOnly.value,
        hasRule := true,
        cmds := rule.cmds,
        actualInputs := actualInputs,
        targetSpecificVars := tsvs,
        filename := rule.filename,
        lineno := if |rule.cmds| > 0 then rule.cmdLineno else 0)];
      FillKeeps(d2, n2, id, nodes[id]);
      return Ok(id);
    }

    /**
     * The loops of buildPlan over the inputs and over the order-only inputs:
     * each is planned with itself pushed on the trace; order-only ones mark
     * their node.
     */
    method BuildEach(inputs: seq<String>, output: String, orderOnly: bool, fuel: nat) returns (r: Result<seq<nat>, DepError>)
      requires PlanValid() && fuel > 0
      modifies this`nodes, this`done, this`trace, this`vars, this`tsvs
      ensures PlanValid() && GrowsTo(old(done), old(nodes), done, nodes)
      ensures trace == old(trace) && vars == old(vars) && tsvs == old(tsvs)
      ensures r.Ok? ==> ChildrenIn(done, |nodes|, r.value, inputs)
      decreases fuel, 1
    {
      var children: seq<nat> := [];
      for i := 0 to |inputs|
        invariant PlanValid() && GrowsTo(old(done), old(nodes), done, nodes)
        invariant trace == old(trace) && vars == old(vars) && tsvs == old(tsvs)
        invariant ChildrenIn(done, |nodes|, children, inputs[..i])
      {
        ghost var d0, n0 := done, nodes;
        var n := BuildOne(inputs[i], output, orderOnly, fuel);
        GrowsTransitive(old(done), old(nodes), d0, n0, done, nodes);
        ChildrenGrow(d0, n0, done, nodes, children, inputs[..i]);
        if n.Err? {
          return Err(n.error);
        }
        ChildrenSnoc(done, |nodes|, children, inputs[..i], inputs[i]);
        assert inputs[..i + 1] == inputs[..i] + [inputs[i]];
        children := children + [n.value];
      }
      assert inputs[..|inputs|] == inputs;
      return Ok(children);
    }

    /** One input: planned with itself pushed on the trace, and marked when order-only. */
    method BuildOne(input: String, output: String, orderOnly: bool, fuel: nat) returns (r: Result<nat, DepError>)
      requires PlanValid() && fuel > 0
      modifies this`nodes, this`done, this`trace, this`vars, this`tsvs
      ensures PlanValid() && GrowsTo(old(done), old(nodes), done, nodes)
      ensures trace == old(trace) && vars == old(vars) && tsvs == old(tsvs)
      ensures r.Ok? ==> input in done && done[input] == r.value && r.value < |nodes|
      ensures r.Ok? && orderOnly ==> nodes[r.value].isOrderOnly
      decreases fuel, 0
    {
      trace := trace + [input];
      r := BuildPlan(input, output, fuel - 1);
      trace := trace[..|trace| - 1];
      if r.Ok? && orderOnly {
        ghost var d1, n1 := done, nodes;
        MarkOrderOnly(done, nodes, r.value);
        nodes := nodes[r.value := nodes[r.value].(isOrderOnly := true)];
        GrowsTransitive(old(done), old(nodes), d1, n1, done, nodes);
      }
    }

    /** The targets Eval plans: those asked for, or else the corrected default target (`DefaultTarget` of the table). */
    function Goals(targets: seq<String>): Option<seq<String>>
      reads this`firstTarget
    {
      if |targets| > 0 then Some(targets)
      else if firstTarget.Some? then Some([firstTarget.value])
      else None
    }

    /**
     * Eval: plans every target asked for, or the default target when none
     * is; without either there is nothing to make.  Each target starts with
     * a fresh trace and no target-specific variables.
     */
    method Eval(targets: seq<String>, fuel: nat) returns (r: Result<seq<nat>, DepError>)
      requires PlanValid()
      modifies this`nodes, this`done, this`trace, this`vars, this`tsvs
      ensures PlanValid() && GrowsTo(old(done), old(nodes), done, nodes) && vars == old(vars)
      ensures Goals(targets).None? ==> r == Err(NoTargets)
      ensures r.Ok? ==> Goals(targets).Some? && ChildrenIn(done, |nodes|, r.value, Goals(targets).value)
      ensures r.Ok? ==> forall k :: 0 <= k < |r.value| ==> nodes[r.value[k]].output == Goals(targets).value[k]
    {
      var ts := targets;
      if |ts| == 0 {
        if firstTarget.None? {
          return Err(NoTargets);
        }
        ts := [firstTarget.value];
      }
      var result: seq<nat> := [];
      for i := 0 to |ts|
        invariant PlanValid() && GrowsTo(old(done), old(nodes), done, nodes) && vars == old(vars)
        invariant ChildrenIn(done, |nodes|, result, ts[..i])
      {
        ghost var d0, n0 := done, nodes;
        var n := PlanTarget(ts[i], fuel);
        GrowsTransitive(old(done), old(nodes), d0, n0, done, nodes);
        ChildrenGrow(d0, n0, done, nodes, result, ts[..i]);
        if n.Err? {
          return Err(n.error);
        }
        ChildrenSnoc(done, |nodes|, result, ts[..i], ts[i]);
        assert ts[..i + 1] == ts[..i] + [ts[i]];
        result := result + [n.value];
      }
      assert ts[..|ts|] == ts;
      return Ok(result);
    }

    /** One target of Eval: a fresh trace holding just the target, and no target-specific variables. */
    method PlanTarget(target: String, fuel: nat) returns (r: Result<nat, DepError>)
      requires PlanValid()
      modifies this`nodes, this`done, this`trace, this`vars, this`tsvs
      ensures PlanValid() && GrowsTo(old(done), old(nodes), done, nodes) && vars == old(vars)
      ensures trace == [target] && tsvs == map[]
      ensures r.Ok? ==> target in done && done[target] == r.value && r.value < |nodes|
    {
      trace := [target];
      tsvs := map[];
      r := BuildPlan(target, "", fuel);
    }
  }

  /** Filling in a node's fields other than its target keeps the plan well formed. */
  lemma FillKeeps(done: map<String, nat>, nodes: seq<DepNode>, id: nat, node: DepNode)
    requires GraphOk(done, nodes) && id < |nodes| && node.output == nodes[id].output
    requires forall k :: 0 <= k < |node.deps| ==> node.deps[k] < |nodes|
    ensures GraphOk(done, nodes[id := node]) && GrowsTo(done, nodes, done, nodes[id := node])
  {
  }


}
