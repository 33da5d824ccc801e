/**
 * The parameters of the `SVD` action (DoParameterSVD, lines 168-206): a table
 * from node-name pattern to keep ratio, taken either from one pattern given
 * directly or from a rule file (ParseSVDConfigFile, lines 145-157), in which
 * every line is a pattern and a ratio separated by blanks.
 */
module SvdConfig {
  import opened Strings

  /** A rule line splits into exactly two tokens: a pattern and a keep ratio. */
  predicate IsRule(line: string)
  {
    |Split(line, Blanks)| == 2
  }

  function Pattern(line: string): string
    requires IsRule(line)
  {
    Split(line, Blanks)[0]
  }

  function Ratio(line: string): string
    requires IsRule(line)
  {
    Split(line, Blanks)[1]
  }

  /** The number of lines before the first line that is not a rule; all of them when every line is one. */
  function RulesBefore(lines: seq<string>): (n: nat)
    ensures n <= |lines|
    ensures forall i :: 0 <= i < n ==> IsRule(lines[i])
    ensures n < |lines| ==> !IsRule(lines[n])
  {
    if lines == [] || !IsRule(lines[0]) then 0 else 1 + RulesBefore(lines[1..])
  }

  /**
   * The table after the rules `lines` are entered into `config` in order,
   * each ratio converted by `toFloat` (`(float) todouble(...)`).
   */
  function ApplyRules(config: map<string, real>, lines: seq<string>, toFloat: string -> real): map<string, real>
    requires forall i :: 0 <= i < |lines| ==> IsRule(lines[i])
  {
    if lines == [] then config
    else
      var last := lines[|lines| - 1];
      ApplyRules(config, lines[..|lines| - 1], toFloat)[Pattern(last) := toFloat(Ratio(last))]
  }

  /**
   * Lines 145-157. The lines of the rule file are read in order; at the
   * first line that does not split into two tokens (a blank line included)
   * the parse fails, keeping what the earlier lines entered; otherwise each
   * line sets its pattern's ratio. The table passed by reference is `config`
   * on entry and `result` on return.
   */
  method ParseSvdConfigFile(lines: seq<string>, config: map<string, real>, toFloat: string -> real)
    returns (ok: bool, result: map<string, real>)
    ensures ok <==> forall i :: 0 <= i < |lines| ==> IsRule(lines[i])
    ensures result == ApplyRules(config, lines[..RulesBefore(lines)], toFloat)
  {
    result := config;
    var i := 0;
    while i < |lines|
      invariant 0 <= i <= |lines|
      invariant forall k :: 0 <= k < i ==> IsRule(lines[k])
      invariant result == ApplyRules(config, lines[..i], toFloat)
    {
      var tokens := Split(lines[i], Blanks);
      if |tokens| != 2 {
        assert RulesBefore(lines) == i;
        return false, result;
      }
      assert lines[..i + 1][..i] == lines[..i];
      result := result[tokens[0] := toFloat(tokens[1])];
      i := i + 1;
    }
    assert lines[..i] == lines;
    return true, result;
  }

  /** A pattern set by some rule gets the ratio of the LAST rule for it. */
  lemma {:induction false} LastRuleWins(config: map<string, real>, lines: seq<string>, toFloat: string -> real, i: nat)
    requires forall k :: 0 <= k < |lines| ==> IsRule(lines[k])
    requires i < |lines|
    requires forall j :: i < j < |lines| ==> Pattern(lines[j]) != Pattern(lines[i])
    ensures Pattern(lines[i]) in ApplyRules(config, lines, toFloat)
    ensures ApplyRules(config, lines, toFloat)[Pattern(lines[i])] == toFloat(Ratio(lines[i]))
    decreases |lines|
  {
    var init := lines[..|lines| - 1];
    if i < |lines| - 1 {
      assert init[i] == lines[i];
      LastRuleWins(config, init, toFloat, i);
    }
  }

  /** A pattern no rule sets keeps its entry in `config`, or stays absent. */
  lemma {:induction false} UnruledUnchanged(config: map<string, real>, lines: seq<string>, toFloat: string -> real, p: string)
    requires forall k :: 0 <= k < |lines| ==> IsRule(lines[k])
    requires forall j :: 0 <= j < |lines| ==> Pattern(lines[j]) != p
    ensures p in ApplyRules(config, lines, toFloat) <==> p in config
    ensures p in config ==> ApplyRules(config, lines, toFloat)[p] == config[p]
    decreases |lines|
  {
    if lines != [] {
      UnruledUnchanged(config, lines[..|lines| - 1], toFloat, p);
    }
  }

  /** What the action does after reading its parameters. */
  datatype SvdPlan =
    | ShowUsage                   // the rule file did not parse (lines 189-193)
    | MissingModelPath            // `modelPath` is empty (lines 196-200)
    | Decompose(rules: map<string, real>, alignedSize: nat, saveModel: bool)

  /**
   * Lines 172-205, without the network: a non-empty `NodeNameRegex` gives
   * the one rule `regex -> KeepRatio`; otherwise the rules come from the
   * rule file, and a file that does not parse ends the action with the
   * usage text. An empty `modelPath` then ends it; otherwise the network is
   * decomposed with the rules and saved when `outputmodelPath` is not empty.
   * `KeepRatio` defaults to 0.4 and `AlignedSize` to 8.
   */
  method PlanParameterSvd(modelPath: string, outputModelPath: string, keepRatio: real, alignedSize: nat,
                          nodeNameRegex: string, ruleLines: seq<string>, toFloat: string -> real)
    returns (plan: SvdPlan)
    ensures nodeNameRegex != [] ==>
              plan == if modelPath == [] then MissingModelPath
                      else Decompose(map[nodeNameRegex := keepRatio], alignedSize, outputModelPath != [])
    ensures nodeNameRegex == [] ==>
              (plan == ShowUsage <==> exists i :: 0 <= i < |ruleLines| && !IsRule(ruleLines[i]))
    ensures nodeNameRegex == [] && (forall i :: 0 <= i < |ruleLines| ==> IsRule(ruleLines[i])) ==>
              plan == if modelPath == [] then MissingModelPath
                      else Decompose(ApplyRules(map[], ruleLines, toFloat), alignedSize, outputModelPath != [])
  {
    var svdConfig: map<string, real> := map[];
    if nodeNameRegex != [] {
      svdConfig := svdConfig[nodeNameRegex := keepRatio];
    } else {
      var ok;
      ok, svdConfig := ParseSvdConfigFile(ruleLines, svdConfig, toFloat);
      if !ok {
        return ShowUsage;
      }
      assert ruleLines[..RulesBefore(ruleLines)] == ruleLines;
    }
    if modelPath == [] {
      return MissingModelPath;
    }
    plan := Decompose(svdConfig, alignedSize, outputModelPath != []);
  }
}
