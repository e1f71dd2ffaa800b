# kati core: text functions, rule tables and the Android find cache

This project models three parts of kati, a Make-compatible build tool, and
proves properties of the model.

- **The built-in text functions of the evaluator (`func.cc`).**
  - Each handler evaluates its argument values and appends its result to a
    caller-owned output buffer.
    - `patsubst`, `strip`, `subst`, `findstring`, `filter`, `filter-out`,
      `sort`, `word`, `wordlist`, `words`, `firstword`, `lastword`, `join`,
      `dir`, `notdir`, `suffix`, `basename`, `addsuffix` and `addprefix`.
    - The lazy `if`, `and` and `or`.
    - `foreach`, with its scoped variable binding.
    - The text post-processing of `shell`.
  - The numeric-argument parser (`strtol` followed by the narrowing to `int`).
  - The registry of function descriptors: a static table inserted into a
    name-keyed map and looked up by name.
- **The dependency builder (`dep.go`).**
  - Populating the rule tables:
    - suffix-rule detection;
    - merging repeated explicit rules;
    - choosing the first rule;
    - collecting and reversing the implicit rules.
  - Rule picking by priority.
  - The memoised recursive plan builder, with its target-specific variable
    save and restore.
  - The choice of the default goal.
- **The sequential parts of the Android find cache (`pathutil.go`).**
  - The glob-pattern unescaper.
  - The walk over the name-sorted file list: lower-bound search, prefix
    cut-off and skip-directory pruning.
  - The name and leaf orderings.
  - The `find` emulations built on the walk: `findInDir`,
    `findExtFilesUnder`, `findJavaResourceFileGroup` and `findleaves`.

## Layout

- `wrappers.dfy`: `Option` and `Result`.
- `strutil.dfy` (`StrUtil`): the string helpers the core calls but does not
  define.
  - Whitespace word splitting (`Words`) and joining with single spaces
    (`Join`).
  - Prefix and suffix tests, substring search and character counting.
  - The single-`%` pattern match and rewrite (`MatchPattern`, `Stem`,
    `SubstPattern`).
  - The byte-wise string order (`Less`), sorting and duplicate removal.
  - Decimal digits.
- `func.dfy` (`Func`): the handlers.
  - An argument is a `Value`: literal text, a variable reference or a
    concatenation.
  - The `Evaluator` class holds the variable table, records every argument
    it evaluates (which makes the laziness of `if`/`and`/`or` observable),
    and holds the error raised through `Error`.
  - `Output` is the `string* s` buffer.
  - `WordWriter` is the separator-inserting writer.
  - Each handler is a method over these objects, with its word-scanning
    loop and loop invariants.
- `functable.dfy` (`FuncTable`): the descriptor table, and the
  `FuncRegistry` class holding the name map.
- `dep.dfy` (`Dep`): rules, the rule tables as values, and the
  `DepBuilder` class.
  - Node references become indices into a node list, with `done` mapping a
    target to its index.
  - `clean`, `ext`, `stripExt`, the on-disk file set and `AppendVar` are
    parameters (`Env`).
- `pathutil.dfy` (`PathUtil`): the unescaper, paths, the two orders, the
  walk as a function (`WalkFrom`/`WalkSpec`) with its lemmas, and the
  `FindCache` class whose methods implement the walk and the finders.
  - `filepath.Clean` is the parameter `clean` of the cache.
  - Entries are indices into the sorted `files` list.
  - The words a finder writes are returned as a sequence; a ghost sequence
    says which entries they come from.

## Model

| member | source | states |
|---|---|---|
| Func.Evaluator.Eval | func.cc:23-25 | evaluating an argument yields its value under the current variables and appends the argument to the record of evaluated arguments |
| Func.Evaluator.EvalInto | func.cc:322-324 | `Eval(ev, s)` appends the argument's value to the buffer and records the evaluation |
| Func.Evaluator.Error | func.cc:128-133 | an error records its message; the handler stops there |
| Func.Evaluator.PushVar | func.cc:399-401 | binding the loop variable replaces its value and returns the previous binding, if any |
| Func.Evaluator.PopVar | func.cc:399-404 | leaving the scope restores the saved binding, or removes the name when there was none |
| Func.PushPopRestores | func.cc:399-404 | binding a name and restoring what was saved gives back the original variable table |
| Func.WordWriter.MaybeAddWhitespace | func.cc:28 | writes one space before every word except the first |
| Func.WordWriter.Write | func.cc:37 | writes the separator, then the word |
| Func.WriteExtendsJoin | func.cc:36-37 | writing one more word through the writer extends the buffer from the join of the earlier words to the join of all of them |
| Func.Patsubst | func.cc:22-31 | evaluates the pattern, the replacement and the text in that order; the buffer gains each word of the text rewritten by the pattern, words separated by single spaces |
| StrUtil.Stem | func.cc:29 | a word matching a `%` pattern is the pattern's prefix, the stem and the pattern's suffix |
| StrUtil.SubstPatternSelf | func.cc:29 | rewriting a word by a pattern into the same pattern leaves it unchanged |
| StrUtil.SubstPatternRoundTrip | func.cc:29 | when both patterns contain `%`, a matching word rewrites to a word that matches the replacement with the same stem, and rewriting back restores the word |
| Func.PatsubstRoundTrip | func.cc:22-31 | `patsubst` from `pat` to `repl` and back again returns every word that matched `pat` |
| StrUtil.TrimLeftSpace | func.cc:115 | the result is a suffix of the input |
| StrUtil.TrimLeftSpaceSpec | func.cc:115 | exactly the leading whitespace is removed: what is dropped is all space, and the result is empty or starts with a non-space |
| StrUtil.WordLen | func.cc:36 | the first word ends at the first whitespace character |
| StrUtil.Words | func.cc:36 | the scanner yields only non-empty words that contain no whitespace |
| StrUtil.WordsSkipsSpace | func.cc:36 | leading whitespace does not change the words |
| StrUtil.WordsOfJoin | func.cc:36-37 | scanning words joined by single spaces gives back exactly those words |
| StrUtil.StripIdempotent | func.cc:33-39 | `strip` is idempotent: stripping its own output changes nothing |
| Func.Strip | func.cc:33-39 | the buffer gains the words of the text separated by single spaces |
| StrUtil.FindFrom | func.cc:47 | a search hit starts at or after the start position and fits in the string |
| StrUtil.FindFromOccurs | func.cc:47 | a search hit is an occurrence of the pattern |
| StrUtil.FindFromFirst | func.cc:47 | the hit is the leftmost occurrence at or after the start position, and a miss means there is no occurrence there |
| Func.SubstLoopAgrees | func.cc:45-54 | with a non-empty pattern the search loop as written terminates and produces the left-to-right, non-overlapping replacement |
| Func.SubstEmptyPatternDiverges | func.cc:45-54 | with an empty pattern and non-empty text the loop as written never finishes, whatever the iteration bound |
| Func.SubstLoopSound | func.cc:45-54 | whenever the loop as written finishes from a position with a non-empty pattern, it has produced the left-to-right, non-overlapping replacement of the rest of the text |
| Func.SubstAgreesWhereItEnds | func.cc:41-55 | wherever the loop as written finishes (any pattern, any text), its result is the modelled `subst` result |
| Func.ReplaceFromFound | func.cc:47-52 | at a hit, the text before it is copied, the replacement written, and the search resumes just after the occurrence |
| Func.ReplaceAll | func.cc:45-54 | with a non-empty pattern, the search-and-copy loop appends the left-to-right, non-overlapping replacement of the text |
| Func.ReplaceStep | func.cc:47-52 | one loop step keeps the text written so far, followed by the replacement of the rest, equal to the whole result |
| Func.ReplaceFromRest | func.cc:48-54 | once no occurrence remains, the rest of the text is copied unchanged |
| Func.ReplaceFromSelf | func.cc:41-55 | replacing a non-empty pattern by itself leaves the text unchanged |
| Func.SubstSelf | func.cc:41-55 | `subst` of a pattern by itself is the identity, the empty pattern included |
| Func.SubstAbsent | func.cc:41-55 | text without an occurrence of the pattern passes through unchanged |
| Func.Subst | func.cc:41-55 | evaluates the three arguments in order; the buffer gains the text with each left-to-right occurrence of a non-empty pattern replaced; an empty pattern leaves the text unchanged, which is what the source writes for empty text and what it evidently intends otherwise (see Findings) |
| Func.Findstring | func.cc:57-62 | the buffer gains the searched string exactly when it occurs in the text |
| Func.FirstMatch | func.cc:71-76 | the pattern loop stops at the first pattern the word matches, or runs out |
| Func.FilterPartition | func.cc:64-97 | `filter` and `filter-out` partition the words: every word lands in exactly one side, decided by whether it matches a pattern, with multiplicities preserved |
| Func.FilterKeepsMatching | func.cc:64-97 | when every word matches, `filter` keeps all of them in order and `filter-out` keeps none |
| Func.FilterWords | func.cc:64-97 | the buffer gains, in order, the words whose match status is the one asked for |
| Func.Filter | func.cc:64-78 | the buffer gains, in input order and with duplicates, the words that match some pattern word |
| Func.FilterOut | func.cc:80-97 | the buffer gains, in input order and with duplicates, the words that match no pattern word |
| StrUtil.LessIrreflexive | func.cc:103 | the string order is irreflexive |
| StrUtil.LessAsymmetric | func.cc:103 | the string order is asymmetric |
| StrUtil.LessTransitive | func.cc:103 | the string order is transitive |
| StrUtil.LessTotal | func.cc:103 | any two distinct strings are ordered one way or the other |
| StrUtil.PrefixNotLess | pathutil.go:365-367 | a string never sorts before its own prefix |
| StrUtil.Insert | func.cc:103 | inserting into a sorted list keeps it sorted and adds exactly that element |
| StrUtil.SortStrings | func.cc:103 | the sorted list is ordered and is a permutation of the input |
| StrUtil.SortStringsSorted | func.cc:103 | sorting an already sorted list returns it unchanged |
| StrUtil.Dedup | func.cc:105-111 | dropping repeats keeps exactly the same set of strings |
| StrUtil.DedupOfSorted | func.cc:105-111 | dropping adjacent repeats from a sorted list leaves it strictly increasing, ending in the same last element |
| StrUtil.DedupOfStrictlySorted | func.cc:105-111 | a strictly increasing list has no repeats to drop |
| Func.DedupSnoc | func.cc:106-110 | one loop step writes the next word unless it equals the previous one |
| Func.SortedWordsSpec | func.cc:99-112 | `sort` writes a strictly increasing list whose set is the input's set of words |
| Func.SortStringsWords | func.cc:102-103 | sorting keeps every element a word |
| Func.SortIdempotent | func.cc:99-112 | sorting the output of `sort` again gives the same words and the same text |
| Func.WriteDistinct | func.cc:104-111 | the loop writes each word of the list unless it equals the one before, so the buffer gains the list with adjacent repeats dropped, separated by single spaces |
| Func.Sort | func.cc:99-112 | the buffer gains the distinct words of the list in increasing order, separated by single spaces |
| Func.LeadingDigits | func.cc:117 | `strtol` reads the digits up to the first non-digit |
| Func.Strtol | func.cc:117 | the value `strtol` returns lies in the `long` range and it consumes at most the whole string |
| Func.StrtolSigned | func.cc:117 | the same bounds after an optional sign |
| Func.Clamp | func.cc:117 | an out-of-range magnitude saturates at `LONG_MAX` or `LONG_MIN` |
| Func.ToInt32 | func.cc:121 | the `long` to `int` conversion lands in the `int` range and keeps values already in it |
| Func.GetNumericValueForFunc | func.cc:114-122 | the result is an `int` |
| Func.LeadingDigitsOfDigits | func.cc:117 | digits followed by a non-digit are read in full |
| Func.StrtolOfNumber | func.cc:117 | a signed run of digits parses to its value, clamped, consuming the sign and the digits |
| Func.StrtolSignedOfDigits | func.cc:117 | an unsigned run of digits parses to its clamped value |
| Func.StrtolSignedOfSigned | func.cc:117 | a `+` or `-` followed by a run of digits parses to the digits' value, negated for `-`, clamped to the `long` range |
| Func.NumericOfBlank | func.cc:114-122 | an empty or all-space argument yields 0 |
| Func.NumericSkipsLeadingSpace | func.cc:115 | leading whitespace is skipped |
| Func.NumericOfDigits | func.cc:114-122 | a run of digits yields its value narrowed to `int` when below `LONG_MAX`, and -1 at `LONG_MAX` or above |
| Func.NumericOfDecimal | func.cc:114-122 | the decimal form of `n` yields `n` narrowed to `int` when below `LONG_MAX`, otherwise -1 |
| Func.NumericOfSmallDecimal | func.cc:114-122 | the decimal form of an `int`-sized `n` yields `n` |
| Func.NumericRejectsTrailing | func.cc:118-119 | any optionally signed run of digits followed by a non-digit yields -1, because the parse stops before the end |
| Func.NumericRejectsNegative | func.cc:118-119 | any `-` followed by a run of digits of positive value yields -1, whatever follows the digits |
| Func.NumericRejectsNonNumber | func.cc:115-119 | text that starts with neither a digit nor a sign followed by a digit yields -1 |
| Func.NthWord | func.cc:137-143 | for `n >= 1`, the `n`-th word counting from 1, or nothing past the last word |
| Func.WriteNthWord | func.cc:137-143 | the counting loop appends exactly the `n`-th word |
| Func.Word | func.cc:124-144 | a negative index reports the non-numeric error and a zero index the must-be-positive error, each before the text is evaluated; otherwise the buffer gains the `n`-th word |
| Func.Firstword | func.cc:190-196 | the buffer gains the first word, or nothing |
| Func.Lastword | func.cc:198-205 | the buffer gains the last word, or nothing |
| Func.WordRange | func.cc:169-176 | the words at positions `si..ei` inclusive, counting from 1, in order; none when `ei < si` |
| Func.WordRangeSnoc | func.cc:171-176 | each loop step adds the word at position `i` exactly when `si <= i <= ei` |
| Func.WordRangeSingle | func.cc:124-177 | `wordlist n,n` writes what `word n` writes |
| Func.WriteWordRange | func.cc:168-176 | the loop appends the words of positions `si..ei`, separated by single spaces |
| Func.WordlistFrom | func.cc:160-176 | a negative end index reports the second-argument error; otherwise the buffer gains the word range |
| Func.Wordlist | func.cc:146-177 | a negative or zero start index reports its error before anything else is evaluated, and a negative end index reports its error before the text is evaluated; otherwise the buffer gains the words `si..ei` |
| StrUtil.NatToString | func.cc:185-186 | `%d` of a count is a non-empty run of digits |
| StrUtil.NatToStringValue | func.cc:185-186 | the digits read back as the count |
| Func.WordCount | func.cc:179-188 | the buffer gains the decimal number of words |
| Func.WordCountReadsBack | func.cc:179-188 | the number `words` writes parses back to the count, and `word` of it is the last word |
| Func.Pairwise | func.cc:213-219 | pairs the two lists position by position, as far as the shorter one reaches |
| Func.PairwiseSnoc | func.cc:213-219 | each loop step adds the concatenation of the next two words |
| Func.PairwisePrefix | func.cc:214 | the loop stops when either list runs out |
| Func.JoinLists | func.cc:207-220 | the buffer gains the concatenated word pairs, separated by single spaces |
| Func.JoinWordsRoundTrip | func.cc:207-220 | scanning the output of `join` gives back the pairs |
| Func.MapWords | func.cc:237-295 | a per-word handler writes one result for each word, in order |
| Func.WriteEachWord | func.cc:237-275 | the shared loop writes the per-word result of each word, separated by single spaces |
| Func.Dir | func.cc:237-245 | the buffer gains, for each word, its directory part followed by `/` unless the word is `/` |
| Func.Notdir | func.cc:247-257 | the buffer gains, for each word, its last component, and an empty word for `/` |
| Func.NonEmptyExts | func.cc:262-266 | only non-empty extensions are written |
| Func.NonEmptyExtsAll | func.cc:259-267 | when every word has an extension, one is written per word |
| Func.Suffix | func.cc:259-267 | the buffer gains the non-empty extensions of the words, in order |
| Func.Basename | func.cc:269-275 | the buffer gains each word without its extension |
| Func.Addsuffix | func.cc:277-285 | the buffer gains each word followed by the suffix |
| Func.Addprefix | func.cc:287-295 | the buffer gains the prefix followed by each word |
| Func.AddsuffixWords | func.cc:277-285 | with a suffix free of whitespace, scanning the output gives exactly the suffixed words |
| Func.AddprefixWords | func.cc:287-295 | with a prefix free of whitespace, scanning the output gives exactly the prefixed words |
| Func.If | func.cc:318-326 | evaluates the condition, then exactly one of the branches: `then` for a non-empty condition, `else` when present, nothing otherwise; the buffer gains that branch's value |
| Func.Values | func.cc:330-342 | the value of each argument, in order |
| Func.FirstEmpty | func.cc:330-334 | the position of the first empty value, or the length |
| Func.FirstNonEmpty | func.cc:341-347 | the position of the first non-empty value, or the length |
| Func.AndValue | func.cc:328-338 | `and` yields something exactly when there are arguments and none is empty, and then yields the last value |
| Func.AndCount | func.cc:330-334 | `and` stops evaluating just after the first empty value |
| Func.FirstEmptyAt | func.cc:330-334 | the first empty value stops `and` there with an empty result |
| Func.FirstEmptyPast | func.cc:330-334 | a non-empty value lets `and` carry on |
| Func.And | func.cc:328-338 | evaluates the arguments up to and including the first empty one, and appends `and`'s value |
| Func.OrValue | func.cc:340-348 | `or` yields nothing exactly when every value is empty, otherwise the first non-empty value |
| Func.OrCount | func.cc:341-347 | `or` stops evaluating just after the first non-empty value |
| Func.FirstNonEmptyAt | func.cc:341-347 | the first non-empty value stops `or` with that value |
| Func.Or | func.cc:340-348 | evaluates the arguments up to and including the first non-empty one, and appends `or`'s value |
| Func.AndOrSingle | func.cc:328-348 | with one argument, `and` and `or` both yield it |
| Func.AndOrEmptiness | func.cc:328-348 | if `or` yields nothing then so does `and`; if `and` yields something then `or` yields the first value |
| Func.ForeachBody | func.cc:398-403 | one pass binds the variable to the word, writes the separator and the body's expansion under that binding, then restores the variable table |
| Func.Foreach | func.cc:394-405 | evaluates the name and the list, then the body once per word with the name bound to that word; the buffer gains the expansions separated by single spaces, and the variable table is left as it was |
| Func.ForeachIdentity | func.cc:394-405 | a body that is just the loop variable reproduces the words |
| Func.TrimNewlinesAsWrittenFails | func.cc:381-382 | the trimming loop as written reads before the start of the output exactly when the output is empty or all newlines |
| Func.TrimNewlinesAsWrittenOnEmpty | func.cc:381-382 | in particular it does so for empty output and for a single newline |
| Func.TrimNewlinesAgree | func.cc:381-382 | wherever the loop as written is defined, it agrees with the corrected trimming |
| Func.TrimTrailingNewlines | func.cc:381-382 | removes exactly the trailing newlines: a prefix that does not end in a newline, and everything dropped is a newline |
| Func.NewlinesToSpaces | func.cc:383-386 | each newline becomes a space, every other character is kept |
| Func.ShellTextHasNoNewline | func.cc:381-387 | the text `shell` writes has no newline, and every other character of the output is kept in place |
| Func.Shell | func.cc:365-388 | evaluates the command and appends the command's output with trailing newlines removed and the others turned into spaces |
| FuncTable.FuncInfosDistinct | func.cc:432-473 | the table's names are pairwise distinct |
| FuncTable.FuncInfosArity | func.cc:432-473 | every minimum argument count is at most the count, and only `if` has two different counts |
| FuncTable.FuncRegistry.constructor | func.cc:480 | a new registry has an empty map |
| FuncTable.RegisterOne | func.cc:481-484 | inserting an entry whose name is absent extends the map to one more table entry |
| FuncTable.FuncRegistry.RegisterAll | func.cc:480-485 | with distinct names every insertion succeeds (the `CHECK` holds) and the map holds exactly the table, each entry under its own name |
| FuncTable.FuncRegistry.InitFuncTable | func.cc:479-486 | after initialisation the map holds all 35 entries, each under its own name |
| FuncTable.FuncRegistry.GetFuncInfo | func.cc:492-497 | finds an entry exactly when the name is in the table, and that entry carries the name |
| FuncTable.LookupFindsEntry | func.cc:479-497 | each table entry is found under its own name |
| Dep.ReplaceSuffix | dep.go:43-48 | the result ends in `.` and the new suffix |
| Dep.SuffixSplit | dep.go:277-291 | a suffix-rule target is `.`, the input suffix, `.` and the output suffix, neither suffix containing a dot |
| Dep.SuffixSplitIff | dep.go:277-287 | a target is a suffix-rule target exactly when it starts with `.` and the rest contains exactly one `.` |
| Dep.SuffixRulesAfterWellFormed | dep.go:289-296 | registering a suffix rule keeps every suffix rule with exactly one input |
| Dep.MergeRules | dep.go:300-328 | fails exactly when one rule is double-colon and the other is not; otherwise the commands are concatenated for `::`, kept from the old rule when the new one has none, and replaced otherwise; inputs and order-only inputs come new-first when the new rule has commands, old-first otherwise; output patterns come new-first; the file name, line numbers and suffix-rule flag are the new rule's |
| Dep.MergeAllKeepsLastCommands | dep.go:311-315 | over a sequence of single-colon rules, the merged commands are those of the last rule that had any, or the first rule's |
| Dep.MergeAllConcatenatesDoubleColon | dep.go:311-312 | over a sequence of double-colon rules, the merged commands are all the commands in order |
| Dep.ExplicitOutputValid | dep.go:336-348 | registering one target keeps the table invariant |
| Dep.ExplicitRuleValid | dep.go:330-350 | populating an explicit rule keeps the table invariant |
| Dep.ExplicitRuleNoOutputs | dep.go:331-334 | a rule with no targets changes nothing |
| Dep.FirstRuleSetOnce | dep.go:345-347 | once the first rule is set it never changes |
| Dep.FirstRuleChosen | dep.go:345-347 | the first rule is set to the rule at hand, through the first of its cleaned targets that is new to the table and does not start with `.`; every target before it starts with `.` or already had a rule |
| Dep.ExplicitRuleRegisters | dep.go:335-349 | every cleaned target gets a rule and no rule disappears |
| Dep.DepBuilder.constructor | dep.go:399-410 | a new builder has empty tables, no nodes and no trace |
| Dep.DepBuilder.PopulateSuffixRule | dep.go:277-298 | reports a suffix rule exactly for a suffix-rule target, and then prepends a copy of the rule with the input suffix as its only input to that output suffix's list |
| Dep.DepBuilder.PopulateExplicitRule | dep.go:330-350 | the tables become those of registering each cleaned target in turn, or the mixed-colon error is reported |
| Dep.ImplicitCopies | dep.go:352-359 | one copy of the rule per output pattern, each with only that pattern |
| Dep.DepBuilder.PopulateImplicitRule | dep.go:352-359 | appends those copies to the implicit rules |
| Dep.Reverse | dep.go:376-384 | the reversed list has element `i` at position `n-1-i` |
| Dep.ReverseReverse | dep.go:376-384 | reversing twice gives the list back |
| Dep.DepBuilder.ReverseImplicitRules | dep.go:376-384 | the swap loop leaves the implicit rules exactly reversed |
| Dep.CleanInputs | dep.go:363-368 | every input and every order-only input is cleaned, in place and order, and every other field of the rule is kept |
| Dep.ImplicitOfSnoc | dep.go:371-373 | a rule adds implicit rules exactly when it has no targets |
| Dep.ImplicitOfAppend | dep.go:362-374 | collecting implicit rules distributes over concatenation |
| Dep.PopulateTablesValid | dep.go:361-374 | populating all rules keeps the table invariant |
| Dep.DepBuilder.PopulateRules | dep.go:361-385 | the tables are those of populating every rule with cleaned inputs, and the implicit rules are the collected ones reversed |
| Dep.DepBuilder.MergeImplicitRuleVars | dep.go:80-98 | fails unless there is exactly one output; otherwise the rule's own variables override the output's target-specific ones |
| Dep.DepBuilder.FirstPickable | dep.go:114-117 | the first implicit rule whose pattern matches and whose inputs all exist |
| Dep.DepBuilder.FirstSuffix | dep.go:145-151 | the first suffix rule whose substituted input exists, or the first malformed one |
| Dep.DepBuilder.PickSuffixRule | dep.go:137-169 | the suffix-rule stage of the pick, as its specification function |
| Dep.DepBuilder.PickRule | dep.go:100-170 | the pick is the explicit rule with commands, else the first applicable implicit rule merged into the explicit one, else the first applicable suffix rule, else the explicit rule |
| Dep.DepBuilder.PickPresentHasRule | dep.go:100-170 | a pick reported present always carries a rule |
| Dep.DepBuilder.PickFirstImplicit | dep.go:114-128 | without an explicit rule with commands, the first applicable implicit rule is picked, supplying its commands and putting its inputs first |
| Dep.DepBuilder.LaterImplicitRuleWins | dep.go:114-135 | after the reversal, the last-defined applicable implicit rule is the one picked |
| Dep.DepBuilder.SuffixPickNeverPanics | dep.go:145-148 | with well-formed suffix rules the one-input panic cannot happen |
| Dep.DepBuilder.PickNothing | dep.go:100-170 | without an explicit rule, with no implicit rule applicable and no suffix rule for the extension whose substituted input exists, the pick is not present |
| Dep.TargetVarEffect | dep.go:197-215 | `:=`/`=` binds in both tables; `+=` appends to a non-empty old value and otherwise binds the new value in both tables; `?=` binds only if unset |
| Dep.DepBuilder.ApplyTargetVar | dep.go:194-215 | one binding step updates the variables and the target-specific variables as above |
| Dep.ApplyStep | dep.go:192-216 | applying one more variable keeps the effects applied so far and the other names untouched |
| Dep.ApplyRestoresFrame | dep.go:217-221 | restores that do not mention a name leave it alone |
| Dep.ApplyRestoresAppend | dep.go:217-221 | running restores in two batches is running them in one |
| Dep.SaveThenBind | dep.go:195-196 | saving a name in both tables before binding it lets the restores bring back the original tables |
| Dep.RestoreBoth | dep.go:195-196 | the two saved bindings restore both tables |
| Dep.EffectsGiveTsvs | dep.go:190-216 | after applying a rule's variables, each name's target-specific binding is its effect's target-specific part for the rule's names and the old binding for the others |
| Dep.DepBuilder.ApplyTargetVars | dep.go:190-222 | after binding all target-specific variables the recorded restores bring back the original tables |
| Dep.DepBuilder.RunRestores | dep.go:217-221 | running the restores applies them in order |
| Dep.ActualInputs | dep.go:227-236 | each input is substituted through the output pattern, else through the suffix, else kept |
| Dep.MarkOrderOnly | dep.go:256-257 | marking a child order-only keeps the node graph consistent |
| Dep.FillKeeps | dep.go:262-274 | filling in a node keeps the graph consistent |
| Dep.DepBuilder.BuildOne | dep.go:238-259 | a child is planned under the trace entry, which is popped again; order-only children are marked |
| Dep.DepBuilder.BuildEach | dep.go:227-260 | every input is planned in order and the children are their nodes |
| Dep.DepBuilder.BuildRule | dep.go:223-274 | the inputs and order-only inputs are planned, and the node is filled with its children, commands and actual inputs; it carries the target-specific variables in force while it was planned |
| Dep.DepBuilder.BuildWithVars | dep.go:190-274 | the target-specific variables are bound while the rule is planned and restored afterwards, so the variable tables come back unchanged; the node carries the target-specific variables the rule's bindings produce |
| Dep.DepBuilder.BuildNew | dep.go:185-275 | for a target already recorded in `done`, a failed pick is reported; a target without a rule gets an empty node; otherwise the node is planned by the picked rule and carries the target-specific variables its pick's bindings produce |
| Dep.DepBuilder.BuildPlan | dep.go:172-275 | a known target returns its node with nothing changed; a new one is recorded before recursing and planned by its pick; trace and variables are unchanged afterwards; a new node with a pick carries the target-specific variables that pick's bindings produce over the tables at the call |
| Dep.DefaultTarget | dep.go:413-418 | the corrected default goal is a target with a rule that does not start with `.`, and exists exactly when a first rule was set |
| Dep.DefaultTargetAsWrittenIsDotted | dep.go:413-418 | as written, a rule `.x all:` makes `.x` the default goal, though `all` is the target that made it the first rule |
| Dep.DepBuilder.PlanTarget | dep.go:426-432 | each goal is planned with a fresh trace and fresh target-specific variables |
| Dep.DepBuilder.Eval | dep.go:412-436 | without goals and without a first rule it reports "No targets"; without goals it plans the corrected default goal `Dep.DefaultTarget` (see Findings); otherwise each goal's node comes back, in order |
| PathUtil.Unescape | pathutil.go:40-54 | the unescaped pattern is at most twice as long |
| PathUtil.UnescapeAt | pathutil.go:42-52 | one loop step: a backslash before a glob metacharacter is written twice, a backslash before anything else is dropped for that character, anything else is copied |
| PathUtil.WildcardUnescape | pathutil.go:40-54 | the loop computes the unescaping |
| PathUtil.UnescapeNoBackslash | pathutil.go:40-54 | a pattern without a backslash is returned unchanged |
| PathUtil.UnescapeKeepsOthers | pathutil.go:40-54 | every character other than the backslash occurs as often as before |
| PathUtil.UnescapeTurnsEscapedStarIntoWildcard | pathutil.go:43-49 | as written, `\*` (a literal star) becomes an escaped backslash followed by a live star |
| PathUtil.UnescapeFixed | pathutil.go:40-54 | the corrected unescaping means to Go's matcher exactly what the pattern means to `glob(3)` |
| PathUtil.Base | pathutil.go:414 | the last path element: a suffix of the path with no slash |
| PathUtil.Dir | pathutil.go:349-350 | the directory is `.`, `/`, or a prefix followed by a slash |
| PathUtil.Ext | pathutil.go:456 | the extension is empty or a dot-led suffix without another dot or slash |
| PathUtil.LeafLessIrreflexive | pathutil.go:343-360 | the leaf order is irreflexive |
| PathUtil.LeafLessAsymmetric | pathutil.go:343-360 | the leaf order is asymmetric |
| PathUtil.LeafLessTransitive | pathutil.go:343-360 | the leaf order is transitive |
| PathUtil.LeafLessTotal | pathutil.go:343-360 | two entries differing in path or kind are ordered one way or the other, by slash count, then directory, then non-directories first, then path |
| PathUtil.SearchFromSwitch | pathutil.go:365-367 | between bounds where the predicate fails just below `lo` and holds at `hi`, the bisection lands on a switch point |
| PathUtil.Search | pathutil.go:365-367 | the binary search returns a switch point, for a monotone predicate the first index where it holds, and always the index its bisection specification gives |
| PathUtil.LowerBound | pathutil.go:365-367 | the first index whose path is not below `dir` in the name order |
| PathUtil.LowerBoundUnique | pathutil.go:365-369 | any switch point of that predicate is the lower bound |
| PathUtil.SortedPrefixBlock | pathutil.go:372-383 | in a name-sorted list the entries starting with `dir` form a block beginning at the lower bound |
| PathUtil.WalkStaysUnder | pathutil.go:372-386 | the callback sees entries in list order, each once, each `dir` or below `dir/`, and none after an entry not starting with `dir` |
| PathUtil.WalkAvoidsSkips | pathutil.go:387-391 | no entry below a skipped directory reaches the callback |
| PathUtil.WalkPrunes | pathutil.go:387-397 | after the callback answers skip-dir for an entry, no later entry below it is visited |
| PathUtil.WalkErrorIsLast | pathutil.go:374-401 | a returned error is the last callback's own answer, and a skip-dir comes back only from `dir` itself |
| PathUtil.WalkEarlierAnswers | pathutil.go:393-401 | every callback before the last answered nil or skipped a directory below `dir` |
| PathUtil.WalkComplete | pathutil.go:372-403 | an entry below `dir` within the block is missed only after an error or because it lies below a skipped directory |
| PathUtil.WalkSpecComplete | pathutil.go:364-404 | on a sorted list, every entry at or below `dir` is visited unless an error stopped the walk first or it lies below a skipped directory |
| PathUtil.WalkWithoutSkips | pathutil.go:364-404 | with a callback that never skips, the walk visits exactly the entries at or below `dir` when no error occurs, and stops at the entry whose answer is the error otherwise |
| PathUtil.SkippedBelow | pathutil.go:387-391 | the skip check holds exactly when the path lies below a recorded skip directory |
| PathUtil.WriteKept | pathutil.go:452-466 | writes, in visit order, a name for exactly the visited entries that pass the filter |
| PathUtil.FindCache.constructor | pathutil.go:147-154 | the cache holds the given file and leaf lists |
| PathUtil.FindCache.SearchStart | pathutil.go:365-367 | the search finds the lower bound of `dir` in the name-sorted list |
| PathUtil.FindCache.Walk | pathutil.go:364-404 | the loop visits exactly the entries, and returns exactly the error, of the walk specification started at the lower bound |
| PathUtil.FindCache.FindInDir | pathutil.go:409-428 | writes `./` plus the path relative to the cleaned `dir` for exactly the regular, non-hidden entries at or below it, in list order |
| PathUtil.FindCache.FindExtFilesUnder | pathutil.go:434-468 | returns false and writes nothing exactly when a symlink lies at or below `chdir/root`; otherwise writes the path relative to `chdir` of exactly the entries there with extension `ext` whose base is not hidden |
| PathUtil.ParentFirst | pathutil.go:335-337 | in the name order a directory comes before every entry below it |
| PathUtil.SkippedAncestor | pathutil.go:387-397 | an entry below `dir` that the walk passed over lies below an earlier skipped directory |
| PathUtil.JavaSvnPruned | pathutil.go:478-482 | nothing below a `.svn` directory strictly below `dir` is visited |
| PathUtil.JavaWalkSound | pathutil.go:476-505 | every entry the Java resource walk visits lies outside every `.svn` directory below `dir` |
| PathUtil.JavaWalkComplete | pathutil.go:476-505 | unless `dir` itself is a `.svn` directory, every entry at or below `dir` outside the `.svn` directories is visited |
| PathUtil.FindCache.FindJavaResourceFileGroup | pathutil.go:476-505 | writes `./` plus the path relative to `dir` as given, for regular files at or below the cleaned `dir` that are not excluded by name and not inside a `.svn` directory, in list order; all of them unless `dir` itself is a `.svn` directory |
| PathUtil.ScanEndSpec | pathutil.go:535-541 | the scan block runs from its start up to the first leaf that is outside the prefix, or has a slash at the top level |
| PathUtil.FirstNamedSpec | pathutil.go:542-548 | the hit of a block is its first non-directory leaf with the wanted base name, and no hit means the block has none |
| PathUtil.DirsInSpec | pathutil.go:550-552 | the directories queued from a range are directory leaves, and every directory leaf of the range is queued |
| PathUtil.ScanResult | pathutil.go:514-553 | one scan's outcome: a hit is a leaf with the wanted name under the prefix, only at a depth `mindepth` allows; the queued paths are directory leaves |
| PathUtil.FindCache.LeafSearchStart | pathutil.go:521-531 | the start of a scan is the index the binary search settles on for the leaf-order predicate |
| PathUtil.FindCache.ScanDir | pathutil.go:521-553 | one scan of a directory: from the search's start, while the leaves stay in the block, the first matching file (looked for only at a depth `mindepth` allows) and every directory met before it, in order, exactly as the scan specification says |
| PathUtil.QueueStateStep | pathutil.go:513-553 | scanning the head of the queue and appending what the scan met keeps the queue the top directory followed by every scan's directories, scan `j` being of queue entry `j` |
| PathUtil.HitStateStep | pathutil.go:542-548 | recording one more scan keeps the hits exactly the scans with a hit, in order, each with its own hit |
| PathUtil.QueuedLeafDirs | pathutil.go:550-552 | every directory any scan queued is a directory leaf |
| PathUtil.StatesSound | pathutil.go:507-555 | in that state every scanned prefix is the top directory's or a directory leaf's, and every hit is a wanted leaf under its prefix at an allowed depth |
| PathUtil.FindCache.Findleaves | pathutil.go:507-562 | the words are the found paths in sorted order; each found path is `./` and a non-directory leaf with the wanted name under a scanned directory deep enough for `mindepth`; at most one per scanned directory; every scanned directory is the start or a directory leaf; the scans follow the queue in order, the queue being the start followed by the directories each scan met; `ok` holds exactly when the queue was used up; every scanned directory's hit is recorded, and only those |

## Left out

- `WildcardFunc`, `RealpathFunc` and `AbspathFunc` (`func.cc:222-235`, `297-316`): they call `glob`, `realpath` and the file system.
- `EvalFunc`: it calls the makefile parser and evaluator, which are not part of this model.
- `ValueFunc`, `CallFunc`, `OriginFunc` and `FlavorFunc`: they print a "TODO" message and do nothing else.
- `InfoFunc`, `WarningFunc` and `ErrorFunc`: they only print or raise an error. `Evaluator.Error` stands for the error path.
- `QuitFuncTable` (it frees the map), the handler functions stored in the descriptors, and the interning of names.
- `Func.Shell`: the `popen`/`fread` loop is left out. The command's output is a parameter.
- `Func.Evaluator.Error`: an error aborts the evaluation, so the model's handlers stop where the source's `ev->Error` is called. What `Error` prints is not modelled.
- `WordScanner`, `WordWriter`, `MatchPattern`, `AppendSubstPattern`, `Dirname`, `Basename`, `GetExt`, `StripExt` and `ScopedVar` are not part of this model. They are given definitions here:
  - `Words` splits on runs of whitespace;
  - `Join` separates with single spaces;
  - the writer puts one space before every word but the first;
  - `MatchPattern` and `SubstPattern` handle a single `%`;
  - `Dirname`, `Basename`, `GetExt` and `StripExt` are function parameters.
- `Func.Foreach`: the separators written around empty body expansions are those of the writer above. The real `WordWriter` is not part of this model.
- `Func.JoinLists`: follows the code, which stops at the shorter list. GNU make also copies the longer list's tail.
- `Func.WordCount`: word counts above `INT_MAX`, where `int n` would overflow, are not modelled.
- `Dep.DepBuilder.Eval`: without goals it plans the corrected default goal (`Dep.DefaultTarget`, the target that made the rule first), not `firstRule.outputs[0]` as `dep.go:417` does; for a first rule `.x all:` the source plans `.x` and the model plans `all` (see Findings, and `Dep.DefaultTargetAsWrittenIsDotted`).
- `Dep.DepBuilder.BuildPlan`: runs under a `fuel` bound and reports `DepthExceeded` when the bound is reached. The bound is needed because the recursion's termination depends on the abstract `clean` and pattern substitution.
- The file-system fallback of `exists` (`dep.go:63`): it is the set `env.onDisk`.
- `AppendVar` and `newEvaluator`: they are the parameter `env.appendVar`.
- `filepath.Clean`, `filepath.Ext` and `stripExt`: they are parameters.
- The `Log`, `LogStats` and `reportStats` output, and the statistics counters.
- The override warnings in `mergeRules` (`dep.go:304-307`): they only print.
- `Dep.MergeRules`: the Go slice aliasing of `append` on shared rule slices is not modelled. The merged rule is a fresh value.
- `Dep.DepBuilder.ApplyTargetVars`: Go's map iteration order is not modelled. The variables are applied in some order, and the contract holds for every order.
- `Error`, `ErrorNoLocation` and `panic`: they become `DepError` results.
- `wildcardGlob` and `wildcard`: they call the file system, `/bin/sh` and `filepath.Glob`.
- The `wildcardCache` mutex.
- `AndroidFindCacheInit`, `init`, `start`, `ready` and `leavesReady`: they are goroutines, channels, `sync.Once` and directory walking. The cache is built from given `files` and `leaves` lists.
- `logf` output.
- `filepath.Clean` and `filepath.Join`: `Join` is defined through the cache's `clean` parameter.
- `PathUtil.Base`, `PathUtil.Dir` and `PathUtil.Ext`: they follow Go for cleaned paths.
- `PathUtil.FindCache.Walk`: the callback's side effects are represented by the list of visited indices. A finder's writes are computed from that list.
- File modes: they are three flags (directory, symlink, other non-regular).
- `PathUtil.UnescapeFixed`: a `[...]` class is treated as single metacharacter tokens; the tokens compared do not interpret classes.
- `PathUtil.FindCache.Findleaves`: the work-queue loop runs at most `fuel` scans. When the queue is not empty by then, `ok` is false and nothing is written. The source always returns true. The `prunes` argument is accepted and not used, as in the source.
- `PathUtil.FindCache.ScanDir`: the two break tests of the scan loop are one predicate, `InScan`. The scan starts where the binary search settles; no sortedness of the leaf list is assumed, so the model does not state that this is the first leaf of the directory.

## Findings

| source | as written | input that shows it | evidently intended | confidence | as-written member | corrected member |
|---|---|---|---|---|---|---|
| func.cc:45-54 | `subst` searches from `index` and resumes at `found + pat->size()` | `$(subst ,x,abc)`: the empty pattern is found at `index` itself, so `index` never advances and the loop never ends | an empty pattern leaves the text unchanged, which is what the loop already gives for empty text; wherever the loop as written finishes it agrees with this (`Func.SubstAgreesWhereItEnds`) | high, not executed | Func.SubstEmptyPatternDiverges | Func.Subst |
| func.cc:381-382 | `while (out[out.size()-1] == '\n')` pops trailing newlines | a command that prints nothing, or only newlines: the loop reads `out[-1]` | stop when the output is empty | high, not executed | Func.TrimNewlinesAsWrittenFails | Func.TrimTrailingNewlines |
| dep.go:413-418 | the default goal is `firstRule.outputs[0]` | the rule `.x all:` becomes the first rule because of `all`, but the goal is `.x` | the target that made the rule first, which never starts with `.` | medium, not executed | Dep.DefaultTargetAsWrittenIsDotted | Dep.DefaultTarget |
| pathutil.go:43-49 | a backslash before `*`, `?`, `[` or `\` is written, then written again | `\*`, which asks for a literal star, becomes `\\*`: a literal backslash followed by a wildcard | keep the escape as is, so that `filepath.Glob` matches a literal metacharacter | medium, not executed | PathUtil.UnescapeTurnsEscapedStarIntoWildcard | PathUtil.UnescapeFixed |
