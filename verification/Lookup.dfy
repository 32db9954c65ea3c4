/** internal/cli/resolve.go, `LookupPath`, and how dotted paths built by `joinPath` address nodes. */
module Lookup {
  import opened Values
  import opened Recipe
  import opened Merge
  import opened Layers
  import opened Text

  method LookupPath(tree: map<string, Value>, path: string) returns (r: Option<Value>)
    ensures r == At(Map(tree), Split(path, '.'))
  {
    var parts := Split(path, '.');
    var cur := Map(tree);
    for i := 0 to |parts|
      invariant At(Map(tree), parts) == At(cur, parts[i..])
    {
      if !cur.Map? || parts[i] !in cur.entries { return None; }
      assert parts[i..][1..] == parts[i + 1..];
      cur := cur.entries[parts[i]];
    }
    return Some(cur);
  }

  method LookupExplain(tree: map<string, Explain>, path: string) returns (r: Option<Explain>)
    ensures r == ExplainAt(Tree(tree), Split(path, '.'))
  {
    var parts := Split(path, '.');
    var cur := Tree(tree);
    for i := 0 to |parts|
      invariant ExplainAt(Tree(tree), parts) == ExplainAt(cur, parts[i..])
    {
      if !cur.Tree? || parts[i] !in cur.children { return None; }
      assert parts[i..][1..] == parts[i + 1..];
      cur := cur.children[parts[i]];
    }
    return Some(cur);
  }

  /** For a locally resolved recipe a path is found in the config exactly when it is found in the
      explain tree, and the two nodes mirror each other. */
  lemma LookupsAgree(cs: seq<Contribution>, policy: Policy, path: string)
    ensures var v, e := At(ConfigOf(cs, policy), Split(path, '.')), ExplainAt(ExplainOf(cs, policy), Split(path, '.'));
            (v.Some? <==> e.Some?) && (v.Some? ==> Mirror(v.value, e.value, ProvsOf(cs)))
  {
    MirrorInvariant(cs, policy);
    MirrorAt(ConfigOf(cs, policy), ExplainOf(cs, policy), ProvsOf(cs), Split(path, '.'));
  }

  lemma {:induction false} PathIsJoin(prefix: string, keys: seq<string>)
    requires prefix != ""
    ensures PathFrom(prefix, keys) == Join([prefix] + keys, '.')
    decreases |keys|
  {
    if keys != [] {
      var longer := prefix + "." + keys[0];
      PathIsJoin(longer, keys[1..]);
      assert ([prefix] + keys)[1..] == keys;
      assert ([longer] + keys[1..])[1..] == keys[1..];
      if |keys| > 1 {
        assert Join(keys, '.') == keys[0] + "." + Join(keys[1..], '.');
        assert longer + "." + Join(keys[1..], '.') == prefix + "." + (keys[0] + "." + Join(keys[1..], '.'));
      }
    }
  }

  /** The key sequences that a dotted path can address. */
  predicate Addressable(keys: seq<string>) {
    keys != [] && (forall k | k in keys :: '.' !in k) && (|keys| == 1 || keys[0] != "")
  }

  /** Splitting the policy path of a node gives back its keys exactly when the keys are dot-free and
      the first of several is not empty. */
  lemma PathSplitsBack(keys: seq<string>)
    ensures Split(PathFrom("", keys), '.') == keys <==> Addressable(keys)
  {
    if keys != [] && forall k | k in keys :: '.' !in k {
      PathLength(keys);
      if Addressable(keys) { PathOfAddressable(keys); }
    } else {
      SplitIsFree(PathFrom("", keys), '.');
    }
  }

  lemma PathOfAddressable(keys: seq<string>)
    requires Addressable(keys)
    ensures Split(PathFrom("", keys), '.') == keys
  {
    assert keys == [keys[0]] + keys[1..];
    if keys[0] != "" {
      PathIsJoin(keys[0], keys[1..]);
    } else {
      assert keys[1..] == [];
    }
    SplitJoin(keys, '.');
  }

  /** An empty first key leaves no trace in the path. */
  lemma {:induction false} PathLength(keys: seq<string>)
    requires keys != [] && forall k | k in keys :: '.' !in k
    ensures |Split(PathFrom("", keys), '.')| <= |keys|
    ensures |keys| > 1 && keys[0] == "" ==> |Split(PathFrom("", keys), '.')| < |keys|
    decreases |keys|
  {
    if Addressable(keys) {
      PathOfAddressable(keys);
    } else {
      PathLength(keys[1..]);
    }
  }

  /** Distinct addressable nodes have distinct policy paths, and looking a node's path up reaches it. */
  lemma PathsAddressNodes(keys: seq<string>, others: seq<string>, tree: Value)
    requires Addressable(keys) && Addressable(others)
    ensures PathFrom("", keys) == PathFrom("", others) <==> keys == others
    ensures At(tree, Split(PathFrom("", keys), '.')) == At(tree, keys)
  {
    PathSplitsBack(keys);
    PathSplitsBack(others);
  }
}
