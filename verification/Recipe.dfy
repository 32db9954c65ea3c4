/** recipe/types.go: layers, merge rules and the policy lookup. */
module Recipe {
  import opened Values

  /** MergeStrategy is a string type in Go: any other text is possible and behaves as replace. */
  datatype MergeStrategy = Replace | Union | Append | Unrecognised(text: string)

  datatype MergeRule = MergeRule(path: string, strategy: MergeStrategy)

  /** What merging reads besides its operands: the recipe's rules, and `fmt.Sprintf("%v", _)`,
      which stays uninterpreted. */
  datatype Policy = Policy(rules: seq<MergeRule>, render: Value -> string)
  {
    function MergeStrategyFor(path: string): MergeStrategy {
      FirstMatch(rules, path)
    }
  }

  function FirstMatch(rules: seq<MergeRule>, path: string): MergeStrategy {
    if rules == [] then Replace
    else if rules[0].path == path then rules[0].strategy
    else FirstMatch(rules[1..], path)
  }

  /** Of several rules for one path the first one decides. */
  lemma {:induction false} FirstRuleDecides(policy: Policy, path: string, i: nat)
    requires i < |policy.rules| && policy.rules[i].path == path
    requires forall j | 0 <= j < i :: policy.rules[j].path != path
    ensures policy.MergeStrategyFor(path) == policy.rules[i].strategy
    decreases i
  {
    if i > 0 {
      FirstRuleDecides(policy.(rules := policy.rules[1..]), path, i - 1);
    }
  }

  /** A path without a rule is replaced. */
  lemma {:induction false} UnlistedPathReplaces(policy: Policy, path: string)
    requires forall rule | rule in policy.rules :: rule.path != path
    ensures policy.MergeStrategyFor(path) == Replace
    decreases |policy.rules|
  {
    if policy.rules != [] {
      UnlistedPathReplaces(policy.(rules := policy.rules[1..]), path);
    }
  }

  /** The static content after YAML decoding: an error, an empty document, or a map. */
  datatype Parsed = Malformed | Empty | Document(patch: map<string, Value>)

  /** A dynamic layer is any partial function from the accumulated config to a patch. */
  datatype LayerBody =
    | Static(content: Parsed)
    | Dynamic(script: map<string, Value> -> Option<map<string, Value>>)
    | UnknownType(text: string)

  datatype Layer = Layer(name: string, body: LayerBody, source: Source)
}
