/** resolve/resolve.go: the loop that turns a recipe's ordered layers into a config and an explain tree. */
module Resolve {
  import opened Values
  import opened Recipe
  import opened Merge
  import opened Layers

  datatype Failure =
    | BadContent(layer: string)
    | ScriptFailed(layer: string)
    | UnknownLayerType(layer: string, text: string)

  datatype Resolution = Resolution(config: map<string, Value>, explain: map<string, Explain>)

  const NO_SOURCE := Source("", "", "")

  function ProvenanceOf(layer: Layer): Provenance {
    Provenance(layer.name, if layer.source != NO_SOURCE then Some(layer.source) else None)
  }

  /** What one layer contributes on top of the config accumulated so far. */
  function Contribute(layer: Layer, accumulated: map<string, Value>): Result<Contribution, Failure> {
    match layer.body
    case Static(Malformed) => Err(BadContent(layer.name))
    case Static(Empty) => Ok(Contribution(map[], ProvenanceOf(layer)))
    case Static(Document(patch)) => Ok(Contribution(patch, ProvenanceOf(layer)))
    case Dynamic(script) =>
      (match script(accumulated)
       case None => Err(ScriptFailed(layer.name))
       case Some(patch) => Ok(Contribution(patch, ProvenanceOf(layer))))
    case UnknownType(text) => Err(UnknownLayerType(layer.name, text))
  }

  /** `cs` is a run of the layers: each one contributes on top of exactly the config of those before it. */
  ghost predicate Runs(layers: seq<Layer>, policy: Policy, cs: seq<Contribution>) {
    && |cs| <= |layers|
    && forall i | 0 <= i < |cs| :: Contribute(layers[i], ConfigOf(cs[..i], policy).entries) == Ok(cs[i])
  }

  /** The longest run of the layers that starts with `cs`. */
  ghost function RunFrom(layers: seq<Layer>, policy: Policy, cs: seq<Contribution>): (run: seq<Contribution>)
    requires Runs(layers, policy, cs)
    ensures Runs(layers, policy, run)
    ensures |run| < |layers| ==> Contribute(layers[|run|], ConfigOf(run, policy).entries).Err?
    decreases |layers| - |cs|
  {
    if |cs| == |layers| then cs
    else match Contribute(layers[|cs|], ConfigOf(cs, policy).entries)
         case Err(_) => cs
         case Ok(c) =>
           RunsLonger(layers, policy, cs, c);
           RunFrom(layers, policy, cs + [c])
  }

  lemma RunsLonger(layers: seq<Layer>, policy: Policy, cs: seq<Contribution>, c: Contribution)
    requires Runs(layers, policy, cs) && |cs| < |layers|
    requires Contribute(layers[|cs|], ConfigOf(cs, policy).entries) == Ok(c)
    ensures Runs(layers, policy, cs + [c])
  {
    assert (cs + [c])[..|cs|] == cs;
    assert forall i | 0 <= i < |cs| :: (cs + [c])[..i] == cs[..i];
  }

  /** `Resolve` folds the complete run of the layers, or fails with what the first layer that cannot
      contribute reports. */
  method Resolve(layers: seq<Layer>, policy: Policy) returns (r: Result<Resolution, Failure>)
    ensures var run := RunFrom(layers, policy, []);
            if |run| == |layers| then
              r == Ok(Resolution(ConfigOf(run, policy).entries, ChildrenOf(ExplainOf(run, policy))))
            else
              && r == Err(Contribute(layers[|run|], ConfigOf(run, policy).entries).error)
              && var layer := layers[|run|];
                 match layer.body
                 case Static(content) => content == Malformed && r == Err(BadContent(layer.name))
                 case Dynamic(script) =>
                   script(ConfigOf(run, policy).entries) == None && r == Err(ScriptFailed(layer.name))
                 case UnknownType(text) => r == Err(UnknownLayerType(layer.name, text))
  {
    hide Merged, Explained;
    ghost var cs: seq<Contribution> := [];
    var config, explain := Map(map[]), Tree(map[]);
    for i := 0 to |layers|
      invariant |cs| == i && Runs(layers, policy, cs)
      invariant RunFrom(layers, policy, cs) == RunFrom(layers, policy, [])
      invariant config == ConfigOf(cs, policy) && explain == ExplainOf(cs, policy)
    {
      var layer := layers[i];
      var patch: map<string, Value>;
      match layer.body {
        case Static(content) =>
          match content {
            case Malformed => return Err(BadContent(layer.name));
            case Empty => patch := map[];
            case Document(m) => patch := m;
          }
        case Dynamic(script) =>
          var m := script(MapOf(config));
          if m.None? { return Err(ScriptFailed(layer.name)); }
          patch := m.value;
        case UnknownType(text) =>
          return Err(UnknownLayerType(layer.name, text));
      }
      var prov := Provenance(layer.name, None);
      if layer.source != NO_SOURCE {
        prov := prov.(source := Some(layer.source));
      }
      config, explain := MergeValue(config, explain, Map(patch), prov, "", policy);
      RunsLonger(layers, policy, cs, Contribution(patch, prov));
      assert (cs + [Contribution(patch, prov)])[..i] == cs;
      cs := cs + [Contribution(patch, prov)];
    }
    return Ok(Resolution(MapOf(config), ChildrenOf(explain)));
  }

  /** What every contribution of a run is, layer by layer, and why a run that is not complete stops. */
  lemma RunIsTheLayers(layers: seq<Layer>, policy: Policy)
    ensures var run := RunFrom(layers, policy, []);
            && |run| <= |layers|
            && (forall i | 0 <= i < |run| ::
                  && run[i].prov == Provenance(layers[i].name,
                       if layers[i].source == Source("", "", "") then None else Some(layers[i].source))
                  && match layers[i].body
                     case Static(Malformed) => false
                     case Static(Empty) => run[i].patch == map[]
                     case Static(Document(patch)) => run[i].patch == patch
                     case Dynamic(script) => script(ConfigOf(run[..i], policy).entries) == Some(run[i].patch)
                     case UnknownType(_) => false)
            && (|run| < |layers| ==>
                  match layers[|run|].body
                  case Static(content) => content == Malformed
                  case Dynamic(script) => script(ConfigOf(run, policy).entries) == None
                  case UnknownType(_) => true)
  {
    var run := RunFrom(layers, policy, []);
    forall i | 0 <= i < |run| ensures Contribute(layers[i], ConfigOf(run[..i], policy).entries) == Ok(run[i]) {}
  }

  /** A recipe of static documents resolves whatever the policy, to exactly these documents merged in order. */
  lemma DocumentsResolve(layers: seq<Layer>, policy: Policy)
    requires forall layer | layer in layers :: layer.body.Static? && layer.body.content.Document?
    ensures RunFrom(layers, policy, []) ==
            seq(|layers|, i requires 0 <= i < |layers| =>
              Contribution(layers[i].body.content.patch, Provenance(layers[i].name,
                if layers[i].source == Source("", "", "") then None else Some(layers[i].source))))
  {
    assert forall i | 0 <= i < |layers| :: layers[i] in layers;
    RunIsTheLayers(layers, policy);
  }

  /** In the result of a recipe, a leaf is attributed to a provenance exactly when that is the
      provenance of the layer that wrote the leaf last. */
  lemma ResolvedLeafNamesItsLayer(layers: seq<Layer>, policy: Policy, keys: seq<string>, prov: Provenance)
    requires |RunFrom(layers, policy, [])| == |layers|
    ensures var run := RunFrom(layers, policy, []);
            var attributed := ExplainAt(ExplainOf(run, policy), keys) == Some(Leaf(prov));
            IsLeaf(At(ConfigOf(run, policy), keys)) && attributed <==>
            exists i :: && LastWrites(run, keys, i)
                        && prov == Provenance(layers[i].name,
                             if layers[i].source == Source("", "", "") then None else Some(layers[i].source))
  {
    var run := RunFrom(layers, policy, []);
    RunIsTheLayers(layers, policy);
    LastWriter(run, policy, keys, prov);
  }
}
