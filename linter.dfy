/**
 * The rule-gating loop of the package linter: which rules run on which
 * package file, the error each failing rule yields, and which files end
 * up in the result. Condition closures are given as their outcomes and a
 * rule's check as a function from the package configuration to an
 * optional error message.
 */
module Linter {
  import opened Results
  import opened Text

  /** A parsed package configuration, reduced to what identifies it. */
  datatype Config = Config(packageName: string)

  datatype Rule = Rule(
    name: string,
    description: string,
    severity: string,
    conditions: seq<bool>,
    lintFunc: Config -> Option<string>)

  datatype Options = Options(skipRules: seq<string>, verbose: bool)

  /** A package file as read from the repository, with its `#nolint:` rule names. */
  datatype LintFile = LintFile(config: Config, noLint: seq<string>)

  datatype EvalRuleError = EvalRuleError(rule: Rule, message: string)
  datatype EvalResult = EvalResult(file: string, errors: seq<EvalRuleError>)

  /** Consults the conditions in order and stops at the first that does not hold. */
  method ShouldEvaluate(conditions: seq<bool>) returns (should: bool, consulted: nat)
    ensures should <==> forall j :: 0 <= j < |conditions| ==> conditions[j]
    ensures should ==> consulted == |conditions|
    ensures !should ==> 0 < consulted <= |conditions| && !conditions[consulted - 1]
                        && forall j :: 0 <= j < consulted - 1 ==> conditions[j]
  {
    should := true;
    consulted := 0;
    if |conditions| > 0 {
      for k := 0 to |conditions|
        invariant should && consulted == k
        invariant forall j :: 0 <= j < k ==> conditions[j]
      {
        consulted := consulted + 1;
        if !conditions[k] {
          should := false;
          break;
        }
      }
    }
  }

  /** Whether a rule is evaluated on a file: all conditions hold and neither the options nor the file skip it. */
  predicate Evaluates(options: Options, file: LintFile, rule: Rule) {
    && (forall j :: 0 <= j < |rule.conditions| ==> rule.conditions[j])
    && rule.name !in options.skipRules
    && rule.name !in file.noLint
  }

  /** `[name]: error (severity)`, followed by ` - (description)` in verbose mode. */
  function Message(rule: Rule, err: string, verbose: bool): (r: string)
    ensures HasPrefix(r, "[" + rule.name + "]: " + err)
    ensures !verbose ==> r == "[" + rule.name + "]: " + err + " (" + rule.severity + ")"
  {
    var msg := "[" + rule.name + "]: " + err + " (" + rule.severity + ")";
    if verbose then msg + " - (" + rule.description + ")" else msg
  }

  /** The verbose message is the plain one with the description appended. */
  lemma VerboseMessageExtends(rule: Rule, err: string)
    ensures Message(rule, err, true) == Message(rule, err, false) + " - (" + rule.description + ")"
  {
  }

  // ----- `fmt.Errorf(msg)` with no operands -----

  /** The position after the flag characters `#0+- ` from `i` on. */
  function SkipFlags(s: string, i: nat): (j: nat)
    requires i <= |s|
    ensures i <= j <= |s| && (j < |s| ==> s[j] !in "#0+- ")
    decreases |s| - i
  {
    if i < |s| && s[i] in "#0+- " then SkipFlags(s, i + 1) else i
  }

  /** The position after the decimal digits from `i` on. */
  function SkipDigits(s: string, i: nat): (j: nat)
    requires i <= |s|
    ensures i <= j <= |s| && (j < |s| ==> !('0' <= s[j] <= '9'))
    decreases |s| - i
  {
    if i < |s| && '0' <= s[i] <= '9' then SkipDigits(s, i + 1) else i
  }

  /** The position after a width from `i` on: `*` or digits. */
  function WidthEnd(s: string, i: nat): (j: nat)
    requires i <= |s|
    ensures i <= j <= |s|
  {
    if i < |s| && s[i] == '*' then i + 1 else SkipDigits(s, i)
  }

  /** The position after a precision from `i` on: `.` then `*` or digits, taken only when a character follows the `.`. */
  function PrecisionEnd(s: string, i: nat): (j: nat)
    requires i <= |s|
    ensures i <= j <= |s|
  {
    if i + 1 < |s| && s[i] == '.' then
      (if s[i + 1] == '*' then i + 2 else SkipDigits(s, i + 1))
    else i
  }

  /**
   * The text Go's `fmt` produces for the format `s` with no operands:
   * `%%` gives `%`; any other verb, after flags, width and precision,
   * gives `%!v(MISSING)`; a `*` width or precision adds `%!(BADWIDTH)` or
   * `%!(BADPREC)`; a `%` with no verb after it gives `%!(NOVERB)`.
   */
  function FormatNoOperands(s: string): string
    decreases |s|
  {
    if s == [] then ""
    else if s[0] != '%' then [s[0]] + FormatNoOperands(s[1..])
    else
      var w := SkipFlags(s, 1);
      var p := WidthEnd(s, w);
      var v := PrecisionEnd(s, p);
      var notes := (if p == w + 1 && s[w] == '*' then "%!(BADWIDTH)" else "")
                   + (if v == p + 2 && s[p + 1] == '*' then "%!(BADPREC)" else "");
      if v == |s| then notes + "%!(NOVERB)"
      else notes + (if s[v] == '%' then "%" else "%!" + [s[v]] + "(MISSING)") + FormatNoOperands(s[v + 1..])
  }

  /** Text without `%` comes through the formatting unchanged. */
  lemma {:induction false} FormatNoOperandsPlain(s: string)
    requires '%' !in s
    ensures FormatNoOperands(s) == s
    decreases |s|
  {
    if s != [] {
      assert s[0] in s;
      assert forall c :: c in s[1..] ==> c in s;
      FormatNoOperandsPlain(s[1..]);
      assert s == [s[0]] + s[1..];
    }
  }

  /** The text of the error the source stores for a failing rule. */
  function StoredMessage(rule: Rule, err: string, verbose: bool): string {
    FormatNoOperands(Message(rule, err, verbose))
  }

  /** The stored error is the message itself when no part of it holds a `%`. */
  lemma StoredMessageIsMessage(rule: Rule, err: string, verbose: bool)
    requires '%' !in rule.name && '%' !in err && '%' !in rule.severity
    requires verbose ==> '%' !in rule.description
    ensures StoredMessage(rule, err, verbose) == Message(rule, err, verbose)
  {
    FormatNoOperandsPlain(Message(rule, err, verbose));
  }

  /**
   * A lint error holding `%`, two width digits and a verb (a
   * percent-encoded URL such as `a%20b`) is garbled in the stored error:
   * the stored text is the message of the error with that directive
   * replaced by `%!b(MISSING)`, so it is not the message itself.
   */
  lemma StoredMessageGarbled(rule: Rule, pre: string, directive: string, post: string)
    requires '%' !in rule.name && '%' !in rule.severity && '%' !in pre && '%' !in post
    requires IsWidthDirective(directive)
    ensures StoredMessage(rule, pre + (directive + post), false)
            == Message(rule, pre + (MissingOperand(directive[3]) + post), false)
    ensures StoredMessage(rule, pre + (directive + post), false) != Message(rule, pre + (directive + post), false)
  {
    var x, y := MessageHead(rule), MessageTail(rule);
    var g := MissingOperand(directive[3]);
    MessageSplit(rule, pre + (directive + post));
    MessageSplit(rule, pre + (g + post));
    calc {
      StoredMessage(rule, pre + (directive + post), false);
      FormatNoOperands(x + ((pre + (directive + post)) + y));
      { FormatPlainHead(x, (pre + (directive + post)) + y); }
      x + FormatNoOperands((pre + (directive + post)) + y);
      { Regroup(pre, directive, post, y); }
      x + FormatNoOperands(pre + (directive + (post + y)));
      { FormatPlainHead(pre, directive + (post + y)); }
      x + (pre + FormatNoOperands(directive + (post + y)));
      { FormatDirective(directive, post + y); }
      x + (pre + (g + FormatNoOperands(post + y)));
      { FormatNoOperandsPlain(post + y); }
      x + (pre + (g + (post + y)));
      { Regroup(pre, g, post, y); }
      x + ((pre + (g + post)) + y);
      Message(rule, pre + (g + post), false);
    }
  }

  /** `%`, a width of two digits not starting with `0`, and a verb: not `%`, and not the `[` of an argument index. */
  predicate IsWidthDirective(d: string) {
    && |d| == 4 && d[0] == '%' && '1' <= d[1] <= '9' && '0' <= d[2] <= '9'
    && d[3] !in "#0+- .%*[" && !('0' <= d[3] <= '9')
  }

  /** What `fmt` prints for a verb that has no operand. */
  function MissingOperand(verb: char): string {
    "%!" + [verb] + "(MISSING)"
  }

  function MessageHead(rule: Rule): string { "[" + rule.name + "]: " }
  function MessageTail(rule: Rule): string { " (" + rule.severity + ")" }

  lemma MessageSplit(rule: Rule, err: string)
    ensures Message(rule, err, false) == MessageHead(rule) + (err + MessageTail(rule))
  {
  }

  lemma Regroup(a: string, b: string, c: string, d: string)
    ensures (a + (b + c)) + d == a + (b + (c + d))
  {
  }

  /** Formatting text that starts with `%`-free text keeps that text. */
  lemma FormatPlainHead(a: string, b: string)
    requires '%' !in a
    ensures FormatNoOperands(a + b) == a + FormatNoOperands(b)
  {
    FormatPrefix(a + b, |a|);
    assert (a + b)[..|a|] == a && (a + b)[|a|..] == b;
  }

  lemma FormatDirective(d: string, b: string)
    requires IsWidthDirective(d)
    ensures FormatNoOperands(d + b) == MissingOperand(d[3]) + FormatNoOperands(b)
  {
    MissingVerb(d + b);
    assert (d + b)[4..] == b;
  }

  /** `%`, two width digits and a verb, with no operand: the verb is reported missing. */
  lemma MissingVerb(t: string)
    requires |t| >= 4 && t[0] == '%' && '1' <= t[1] <= '9' && '0' <= t[2] <= '9'
    requires t[3] !in "#0+- .%*[" && !('0' <= t[3] <= '9')
    ensures FormatNoOperands(t) == "%!" + [t[3]] + "(MISSING)" + FormatNoOperands(t[4..])
  {
    assert t[1] !in "#0+- ";
    assert SkipFlags(t, 1) == 1;
    assert SkipDigits(t, 3) == 3;
    assert SkipDigits(t, 1) == 3;
    assert WidthEnd(t, 1) == 3 && PrecisionEnd(t, 3) == 3;
  }

  /** Formatting a text whose first `k` characters are not `%` keeps them and formats the rest. */
  lemma {:induction false} FormatPrefix(s: string, k: nat)
    requires k <= |s| && '%' !in s[..k]
    ensures FormatNoOperands(s) == s[..k] + FormatNoOperands(s[k..])
    decreases k
  {
    if k > 0 {
      assert s[0] == s[..k][0];
      assert '%' !in s[1..][..k - 1] by {
        assert forall c :: c in s[1..][..k - 1] ==> c in s[..k];
      }
      FormatPrefix(s[1..], k - 1);
      assert s[1..][k - 1..] == s[k..];
      assert s[..k] == [s[0]] + s[1..][..k - 1];
    }
  }

  /** The errors of the evaluated rules that fail on the file, in rule order. */
  function FailedRules(options: Options, file: LintFile, rules: seq<Rule>): (r: seq<EvalRuleError>)
    ensures |r| <= |rules|
  {
    if rules == [] then []
    else
      var rule := rules[|rules| - 1];
      FailedRules(options, file, rules[..|rules| - 1])
      + (if Evaluates(options, file, rule) && rule.lintFunc(file.config).Some?
         then [EvalRuleError(rule, Message(rule, rule.lintFunc(file.config).value, options.verbose))]
         else [])
  }

  /**
   * Every reported error comes from a rule that was evaluated and failed,
   * and carries that rule's message; conversely every evaluated rule that
   * fails is reported.
   */
  lemma {:induction false} FailedRulesExactly(options: Options, file: LintFile, rules: seq<Rule>)
    ensures forall e :: e in FailedRules(options, file, rules) ==>
              && e.rule in rules
              && Evaluates(options, file, e.rule)
              && e.rule.lintFunc(file.config).Some?
              && e.message == Message(e.rule, e.rule.lintFunc(file.config).value, options.verbose)
    ensures forall k :: 0 <= k < |rules| && Evaluates(options, file, rules[k]) && rules[k].lintFunc(file.config).Some? ==>
              EvalRuleError(rules[k], Message(rules[k], rules[k].lintFunc(file.config).value, options.verbose))
                in FailedRules(options, file, rules)
    decreases |rules|
  {
    if rules != [] {
      var n := |rules|;
      FailedRulesExactly(options, file, rules[..n - 1]);
      forall k | 0 <= k < n - 1 ensures rules[..n - 1][k] == rules[k] { }
    }
  }

  /** A rule skipped by the options or by the file never yields an error. */
  lemma SkippedRuleNeverReported(options: Options, file: LintFile, rules: seq<Rule>, name: string)
    requires name in options.skipRules || name in file.noLint
    ensures forall e :: e in FailedRules(options, file, rules) ==> e.rule.name != name
  {
    FailedRulesExactly(options, file, rules);
  }

  /** The per-file loop over the rules. */
  method LintFileRules(options: Options, file: LintFile, rules: seq<Rule>) returns (failedRules: seq<EvalRuleError>)
    ensures failedRules == FailedRules(options, file, rules)
  {
    failedRules := [];
    for i := 0 to |rules|
      invariant failedRules == FailedRules(options, file, rules[..i])
    {
      assert rules[..i + 1][..i] == rules[..i];
      var rule := rules[i];
      var shouldEvaluate, _ := ShouldEvaluate(rule.conditions);
      if !shouldEvaluate {
        continue;
      }
      if rule.name in options.skipRules {
        continue;
      }
      if rule.name in file.noLint {
        continue;
      }
      var outcome := rule.lintFunc(file.config);
      if outcome.Some? {
        var msg := "[" + rule.name + "]: " + outcome.value + " (" + rule.severity + ")";
        if options.verbose {
          msg := msg + " - (" + rule.description + ")";
        }
        failedRules := failedRules + [EvalRuleError(rule, msg)];
      }
    }
    assert rules[..|rules|] == rules;
  }

  /** The files listed in a result. */
  function FilesOf(results: seq<EvalResult>): set<string> {
    set k | 0 <= k < |results| :: results[k].file
  }

  lemma FilesOfAppend(results: seq<EvalResult>, r: EvalResult)
    ensures FilesOf(results + [r]) == FilesOf(results) + {r.file}
  {
    var s := results + [r];
    forall x | x in FilesOf(results) ensures x in FilesOf(s) {
      var k :| 0 <= k < |results| && results[k].file == x;
      assert s[k].file == x;
    }
    assert s[|results|].file == r.file;
  }

  /**
   * `results` reports the files in `visited`: each entry is such a file with
   * the errors of its failing rules, each such file with errors appears,
   * and no file appears twice.
   */
  ghost predicate ReportsVisited(results: seq<EvalResult>, options: Options, rules: seq<Rule>,
                                 files: map<string, LintFile>, visited: set<string>) {
    && (forall k :: 0 <= k < |results| ==>
          && results[k].file in files
          && results[k].file in visited
          && results[k].errors == FailedRules(options, files[results[k].file], rules)
          && results[k].errors != [])
    && (forall name :: name in files && name in visited && FailedRules(options, files[name], rules) != [] ==>
          name in FilesOf(results))
    && (forall i, j :: 0 <= i < j < |results| ==> results[i].file != results[j].file)
  }

  /** `results` is a lint result for all of `files`. */
  ghost predicate ReportsExactly(results: seq<EvalResult>, options: Options, rules: seq<Rule>, files: map<string, LintFile>) {
    ReportsVisited(results, options, rules, files, files.Keys)
  }

  lemma ReportsStep(results: seq<EvalResult>, options: Options, rules: seq<Rule>, files: map<string, LintFile>,
                    visited: set<string>, name: string, failed: seq<EvalRuleError>)
    requires ReportsVisited(results, options, rules, files, visited)
    requires name in files && name !in visited && failed == FailedRules(options, files[name], rules)
    ensures ReportsVisited(if failed != [] then results + [EvalResult(name, failed)] else results,
                           options, rules, files, visited + {name})
  {
    if failed != [] {
      FilesOfAppend(results, EvalResult(name, failed));
    }
  }

  /** Moving one name from the remaining files to the visited ones keeps them complementary. */
  lemma VisitOne(keys: set<string>, visited: set<string>, remaining: set<string>, name: string)
    requires remaining <= keys && visited == keys - remaining && name in remaining
    ensures remaining - {name} <= keys && visited + {name} == keys - (remaining - {name})
    ensures name in keys && name !in visited
  {
  }

  /**
   * Lints every package file; the files are visited in an unspecified
   * order. A failure to read the packages is returned with an empty result.
   */
  method Lint(options: Options, rules: seq<Rule>, filesToLint: Result<map<string, LintFile>, string>)
    returns (results: seq<EvalResult>, err: Option<string>)
    ensures filesToLint.Err? ==> results == [] && err == Some(filesToLint.error)
    ensures filesToLint.Ok? ==> err.None? && ReportsExactly(results, options, rules, filesToLint.value)
  {
    if filesToLint.Err? {
      return [], Some(filesToLint.error);
    }
    var files := filesToLint.value;
    results := [];
    var visited: set<string> := {};
    var remaining := files.Keys;
    while remaining != {}
      invariant remaining <= files.Keys
      invariant visited == files.Keys - remaining
      invariant ReportsVisited(results, options, rules, files, visited)
      decreases remaining
    {
      var name :| name in remaining;
      VisitOne(files.Keys, visited, remaining, name);
      var failedRules := LintFileRules(options, files[name], rules);
      ReportsStep(results, options, rules, files, visited, name, failedRules);
      if failedRules != [] {
        results := results + [EvalResult(name, failedRules)];
      }
      visited := visited + {name};
      remaining := remaining - {name};
    }
    err := None;
  }

  /** The files `Print` reports, in result order. */
  function Reported(results: seq<EvalResult>): seq<string> {
    if results == [] then []
    else Reported(results[..|results| - 1])
         + (if results[|results| - 1].errors != [] then [results[|results| - 1].file] else [])
  }

  /** Reports each file with errors; `noIssues` is whether "No linting issues found!" is printed. */
  method Print(results: seq<EvalResult>) returns (reported: seq<string>, noIssues: bool)
    ensures reported == Reported(results)
    ensures noIssues <==> forall k :: 0 <= k < |results| ==> results[k].errors == []
  {
    var foundAny := false;
    reported := [];
    for i := 0 to |results|
      invariant reported == Reported(results[..i])
      invariant foundAny <==> exists k :: 0 <= k < i && results[k].errors != []
    {
      assert results[..i + 1][..i] == results[..i];
      if results[i].errors != [] {
        foundAny := true;
        reported := reported + [results[i].file];
      }
    }
    assert results[..|results|] == results;
    noIssues := !foundAny;
  }

  /**
   * Linting then printing: the linter reports no issues exactly when no
   * rule that is evaluated fails on any file.
   */
  lemma NoIssuesExactly(results: seq<EvalResult>, options: Options, rules: seq<Rule>, files: map<string, LintFile>)
    requires ReportsExactly(results, options, rules, files)
    ensures (forall k :: 0 <= k < |results| ==> results[k].errors == []) <==>
            (forall name :: name in files ==> FailedRules(options, files[name], rules) == [])
  {
    if exists name :: name in files && FailedRules(options, files[name], rules) != [] {
      var name :| name in files && FailedRules(options, files[name], rules) != [];
      assert name in FilesOf(results);
      var k :| 0 <= k < |results| && results[k].file == name;
      assert results[k].errors != [];
    }
  }
}
