/** Whole layer sequences: what the fold of `mergeValue` over any number of layers leaves at every key path. */
module Layers {
  import opened Values
  import opened Recipe
  import opened Merge

  /** One layer after parsing or script execution. */
  datatype Contribution = Contribution(patch: map<string, Value>, prov: Provenance)
  {
    function AsMap(): Value { Map(patch) }
  }

  function ConfigOf(cs: seq<Contribution>, policy: Policy): (config: Value)
    ensures config.Map?
  {
    if cs == [] then Map(map[])
    else Merged(ConfigOf(cs[..|cs| - 1], policy), cs[|cs| - 1].AsMap(), "", policy)
  }

  function ExplainOf(cs: seq<Contribution>, policy: Policy): Explain {
    if cs == [] then Tree(map[])
    else
      var before, last := cs[..|cs| - 1], cs[|cs| - 1];
      Explained(ConfigOf(before, policy), ExplainOf(before, policy), last.AsMap(), last.prov)
  }

  ghost function ProvsOf(cs: seq<Contribution>): set<Provenance> {
    set c | c in cs :: c.prov
  }

  // ---- the mirror invariant ----

  lemma {:induction false} MergeKeepsMirror(base: Value, explain: Explain, patch: Value, prov: Provenance, path: string,
                                            policy: Policy, provs: set<Provenance>)
    requires Mirror(base, explain, provs) || !base.Map?
    ensures Mirror(Merged(base, patch, path, policy), Explained(base, explain, patch, prov), provs + {prov})
    decreases patch
  {
    if patch.Map? {
      var p, b, be := patch.entries, MapOf(base), ChildrenOf(explain);
      var m, e := Merged(base, patch, path, policy).entries, Explained(base, explain, patch, prov).children;
      forall k | k in m ensures Mirror(m[k], e[k], provs + {prov}) {
        if k in p {
          var below := if k in b then ChildExplain(be, k) else Absent;
          MergeKeepsMirror(Child(b, k), below, p[k], prov, JoinPath(path, k), policy, provs);
        } else {
          MirrorWiden(b[k], be[k], provs, provs + {prov});
        }
      }
    }
  }

  /** After any number of layers the explain tree has exactly the config's shape, and each of its
      leaves is the provenance of a layer already merged. */
  lemma {:induction false} MirrorInvariant(cs: seq<Contribution>, policy: Policy)
    ensures Mirror(ConfigOf(cs, policy), ExplainOf(cs, policy), ProvsOf(cs))
  {
    if cs != [] {
      var before, last := cs[..|cs| - 1], cs[|cs| - 1];
      MirrorInvariant(before, policy);
      MergeKeepsMirror(ConfigOf(before, policy), ExplainOf(before, policy), last.AsMap(), last.prov, "", policy,
        ProvsOf(before));
      assert cs == before + [last];
      assert ProvsOf(before) + {last.prov} == ProvsOf(cs);
    }
  }

  // ---- what one patch does to one key path ----

  predicate IsLeaf(node: Option<Value>) {
    node.Some? && !node.value.Map?
  }

  predicate IsListNode(node: Option<Value>) {
    node.Some? && node.value.List?
  }

  /** The patch has a non-map at a proper prefix of `keys`. */
  predicate Cuts(patch: Value, keys: seq<string>) {
    exists n | 0 <= n < |keys| :: IsLeaf(At(patch, keys[..n]))
  }

  /** `Cuts`, one key at a time. */
  lemma {:induction false} CutsStep(patch: Value, keys: seq<string>)
    requires keys != []
    ensures Cuts(patch, keys) <==>
            !patch.Map? || (keys[0] in patch.entries && Cuts(patch.entries[keys[0]], keys[1..]))
  {
    if Cuts(patch, keys) && patch.Map? {
      var n :| 0 <= n < |keys| && IsLeaf(At(patch, keys[..n]));
      assert keys[..n][1..] == keys[1..][..n - 1];
    }
    if !patch.Map? {
      assert IsLeaf(At(patch, keys[..0]));
    } else if keys[0] in patch.entries && Cuts(patch.entries[keys[0]], keys[1..]) {
      var n :| 0 <= n < |keys[1..]| && IsLeaf(At(patch.entries[keys[0]], keys[1..][..n]));
      assert keys[..n + 1][1..] == keys[1..][..n];
      assert IsLeaf(At(patch, keys[..n + 1]));
    }
  }

  /** The config node at a key path after one merge, from the nodes of base and patch. */
  lemma {:induction false} MergedAt(base: Value, patch: Value, path: string, policy: Policy, keys: seq<string>)
    ensures var here, after := At(patch, keys), At(Merged(base, patch, path, policy), keys);
            if Cuts(patch, keys) then after == None
            else if here == None then after == At(base, keys)
            else after == Some(Merged(OrNull(At(base, keys)), here.value, PathFrom(path, keys), policy))
    decreases keys
  {
    if keys != [] {
      CutsStep(patch, keys);
      if patch.Map? && keys[0] in patch.entries {
        MergedAt(Child(MapOf(base), keys[0]), patch.entries[keys[0]], JoinPath(path, keys[0]), policy, keys[1..]);
      }
    }
  }

  lemma ExplainedChild(base: Value, explain: Explain, patch: Value, prov: Provenance, k: string)
    requires patch.Map?
    ensures var b, be, after := MapOf(base), ChildrenOf(explain), Explained(base, explain, patch, prov);
            var prior := if k in b then ChildExplain(be, k) else Absent;
            && after.Tree?
            && (k in after.children <==> k in b || k in patch.entries)
            && (k in patch.entries ==> after.children[k] == Explained(Child(b, k), prior, patch.entries[k], prov))
            && (k in b && k !in patch.entries ==> after.children[k] == prior)
  {
  }

  /** The explain node at a key path after one merge. */
  lemma {:induction false} ExplainedAt(base: Value, explain: Explain, patch: Value, prov: Provenance, keys: seq<string>,
                                       provs: set<Provenance>)
    requires Mirror(base, explain, provs) || (!base.Map? && explain == Absent)
    ensures var here, after := At(patch, keys), ExplainAt(Explained(base, explain, patch, prov), keys);
            && (IsLeaf(here) ==> after == Some(Leaf(prov)))
            && (!Cuts(patch, keys) && here == None ==> after == ExplainAt(explain, keys))
    decreases keys
  {
    hide Cuts;
    if keys == [] {
    } else {
      hide Explained;
      CutsStep(patch, keys);
      if patch.Map? {
        var b, be, k := MapOf(base), ChildrenOf(explain), keys[0];
        ExplainedChild(base, explain, patch, prov, k);
        if k in patch.entries {
          var below := if k in b then ChildExplain(be, k) else Absent;
          ExplainedAt(Child(b, k), below, patch.entries[k], prov, keys[1..], provs);
        }
      }
    }
  }

  /** One more layer, seen from one key path. */
  lemma AfterLayer(cs: seq<Contribution>, policy: Policy, keys: seq<string>)
    requires cs != []
    ensures var before, last := cs[..|cs| - 1], cs[|cs| - 1];
            var here := At(last.AsMap(), keys);
            var config, explain := At(ConfigOf(cs, policy), keys), ExplainAt(ExplainOf(cs, policy), keys);
            if Cuts(last.AsMap(), keys) then config == None
            else if here == None then
              config == At(ConfigOf(before, policy), keys) && explain == ExplainAt(ExplainOf(before, policy), keys)
            else
              && config == Some(
                   Merged(OrNull(At(ConfigOf(before, policy), keys)), here.value, PathFrom("", keys), policy))
              && (IsLeaf(here) ==> explain == Some(Leaf(last.prov)))
  {
    var before, last := cs[..|cs| - 1], cs[|cs| - 1];
    MirrorInvariant(before, policy);
    MergedAt(ConfigOf(before, policy), last.AsMap(), "", policy, keys);
    ExplainedAt(ConfigOf(before, policy), ExplainOf(before, policy), last.AsMap(), last.prov, keys, ProvsOf(before));
  }

  lemma NothingYet(policy: Policy, keys: seq<string>)
    ensures At(ConfigOf([], policy), keys) == if keys == [] then Some(Map(map[])) else None
  {
  }

  lemma {:induction false} CutHidesPath(patch: Value, keys: seq<string>)
    ensures Cuts(patch, keys) ==> At(patch, keys) == None
    decreases keys
  {
    if keys != [] {
      CutsStep(patch, keys);
      if patch.Map? && keys[0] in patch.entries {
        CutHidesPath(patch.entries[keys[0]], keys[1..]);
      }
    }
  }

  // ---- the last writer ----

  /** Layer `i` writes a non-map at `keys`; no later layer defines `keys` or has a non-map above it. */
  ghost predicate LastWrites(cs: seq<Contribution>, keys: seq<string>, i: int) {
    && 0 <= i < |cs|
    && IsLeaf(At(cs[i].AsMap(), keys))
    && forall j | i < j < |cs| :: At(cs[j].AsMap(), keys) == None && !Cuts(cs[j].AsMap(), keys)
  }

  /** Layer `i` has a map at `keys`; no later layer has a non-map at `keys` or above it. */
  ghost predicate LastOpens(cs: seq<Contribution>, keys: seq<string>, i: int) {
    && 0 <= i < |cs|
    && At(cs[i].AsMap(), keys).Some? && !IsLeaf(At(cs[i].AsMap(), keys))
    && forall j | i < j < |cs| :: !IsLeaf(At(cs[j].AsMap(), keys)) && !Cuts(cs[j].AsMap(), keys)
  }

  /** A key path is a leaf of the final config attributed to `prov` exactly when the last layer to
      write a leaf there, undisturbed by later layers, carries `prov`. */
  lemma {:induction false} LastWriter(cs: seq<Contribution>, policy: Policy, keys: seq<string>, prov: Provenance)
    ensures (IsLeaf(At(ConfigOf(cs, policy), keys)) && ExplainAt(ExplainOf(cs, policy), keys) == Some(Leaf(prov)))
       <==> (exists i :: LastWrites(cs, keys, i) && cs[i].prov == prov)
  {
    hide At, ExplainAt, PathFrom;
    NothingYet(policy, keys);
    if cs != [] {
      var n := |cs| - 1;
      var before, last := cs[..n], cs[n];
      AfterLayer(cs, policy, keys);
      CutHidesPath(last.AsMap(), keys);
      if IsLeaf(At(last.AsMap(), keys)) {
        assert LastWrites(cs, keys, n);
        assert forall i :: LastWrites(cs, keys, i) ==> i == n;
      } else if !Cuts(last.AsMap(), keys) && At(last.AsMap(), keys) == None {
        LastWriter(before, policy, keys, prov);
        LastWritesBefore(cs, keys);
        if i :| LastWrites(before, keys, i) && before[i].prov == prov {
          assert LastWrites(cs, keys, i) && cs[i].prov == prov;
        }
      }
    }
  }

  lemma LastWritesBefore(cs: seq<Contribution>, keys: seq<string>)
    requires cs != []
    requires At(cs[|cs| - 1].AsMap(), keys) == None && !Cuts(cs[|cs| - 1].AsMap(), keys)
    ensures forall i :: LastWrites(cs, keys, i) <==> LastWrites(cs[..|cs| - 1], keys, i)
  {
    var before := cs[..|cs| - 1];
    forall i | LastWrites(before, keys, i) ensures LastWrites(cs, keys, i) {
      forall j | i < j < |cs| ensures At(cs[j].AsMap(), keys) == None && !Cuts(cs[j].AsMap(), keys) {
        if j < |before| { assert before[j] == cs[j]; }
      }
    }
    forall i | LastWrites(cs, keys, i) ensures LastWrites(before, keys, i) {
      assert i < |before| && before[i] == cs[i];
      assert forall j | i < j < |before| :: before[j] == cs[j];
    }
  }

  /** Every leaf of the final config has a last writer, and only one. */
  lemma LeafHasOneWriter(cs: seq<Contribution>, policy: Policy, keys: seq<string>)
    ensures IsLeaf(At(ConfigOf(cs, policy), keys)) <==> exists i :: LastWrites(cs, keys, i)
    ensures forall i, j :: LastWrites(cs, keys, i) && LastWrites(cs, keys, j) ==> i == j
  {
    hide At, ExplainAt, PathFrom;
    var leaf := At(ConfigOf(cs, policy), keys);
    MirrorInvariant(cs, policy);
    MirrorAt(ConfigOf(cs, policy), ExplainOf(cs, policy), ProvsOf(cs), keys);
    if IsLeaf(leaf) {
      LastWriter(cs, policy, keys, ExplainAt(ExplainOf(cs, policy), keys).value.prov);
    }
    if i :| LastWrites(cs, keys, i) {
      LastWriter(cs, policy, keys, cs[i].prov);
    }
  }

  lemma LastOpensBefore(cs: seq<Contribution>, keys: seq<string>)
    requires cs != []
    requires At(cs[|cs| - 1].AsMap(), keys) == None && !Cuts(cs[|cs| - 1].AsMap(), keys)
    ensures forall i :: LastOpens(cs, keys, i) <==> LastOpens(cs[..|cs| - 1], keys, i)
  {
    var before := cs[..|cs| - 1];
    forall i | LastOpens(before, keys, i) ensures LastOpens(cs, keys, i) {
      forall j | i < j < |cs| ensures !IsLeaf(At(cs[j].AsMap(), keys)) && !Cuts(cs[j].AsMap(), keys) {
        if j < |before| { assert before[j] == cs[j]; }
      }
    }
    forall i | LastOpens(cs, keys, i) ensures LastOpens(before, keys, i) {
      assert i < |before| && before[i] == cs[i];
      assert forall j | i < j < |before| :: before[j] == cs[j];
    }
  }

  /** The maps of the final config: below the root, a key path holds a map exactly when some layer
      opened one there and no later layer put a non-map on the path. */
  lemma {:induction false} LastOpener(cs: seq<Contribution>, policy: Policy, keys: seq<string>)
    requires keys != []
    ensures (At(ConfigOf(cs, policy), keys).Some? && !IsLeaf(At(ConfigOf(cs, policy), keys)))
       <==> (exists i :: LastOpens(cs, keys, i))
  {
    hide At, ExplainAt, PathFrom;
    NothingYet(policy, keys);
    if cs != [] {
      var n := |cs| - 1;
      var before, last := cs[..n], cs[n];
      var here := At(last.AsMap(), keys);
      AfterLayer(cs, policy, keys);
      CutHidesPath(last.AsMap(), keys);
      if here.Some? && here.value.Map? {
        assert LastOpens(cs, keys, n);
      } else if !Cuts(last.AsMap(), keys) && here == None {
        LastOpener(before, policy, keys);
        LastOpensBefore(cs, keys);
        if i :| LastOpens(before, keys, i) { assert LastOpens(cs, keys, i); }
        if i :| LastOpens(cs, keys, i) { assert LastOpens(before, keys, i); }
      }
    }
  }

  /** A scalar or null, and a list no rule combines, is exactly what its last writer wrote. */
  lemma {:induction false} LastWriterValue(cs: seq<Contribution>, policy: Policy, keys: seq<string>, i: int)
    requires LastWrites(cs, keys, i)
    requires var s := policy.MergeStrategyFor(PathFrom("", keys));
             At(cs[i].AsMap(), keys).value.List? ==> !s.Union? && !s.Append?
    ensures At(ConfigOf(cs, policy), keys) == At(cs[i].AsMap(), keys)
    decreases |cs|
  {
    hide At, ExplainAt, PathFrom;
    AfterLayer(cs, policy, keys);
    if i < |cs| - 1 {
      LastWritesBefore(cs, keys);
      LastWriterValue(cs[..|cs| - 1], policy, keys, i);
    } else {
      CutHidesPath(cs[i].AsMap(), keys);
    }
  }

  // ---- lists ----

  /** The patch wipes out whatever list was at `keys`: a non-list written there, or a non-map above. */
  predicate Resets(patch: Value, keys: seq<string>) {
    Cuts(patch, keys) || (At(patch, keys).Some? && !At(patch, keys).value.List?)
  }

  /** The number of layers up to and including the last one that resets `keys`. */
  function LastReset(cs: seq<Contribution>, keys: seq<string>): (s: nat)
    ensures s <= |cs|
    ensures s > 0 ==> Resets(cs[s - 1].AsMap(), keys)
    ensures forall j | s <= j < |cs| :: !Resets(cs[j].AsMap(), keys)
  {
    if cs == [] then 0
    else if Resets(cs[|cs| - 1].AsMap(), keys) then |cs|
    else LastReset(cs[..|cs| - 1], keys)
  }

  /** All the list elements the layers from `start` on have at `keys`, in layer order. */
  function ElementsSince(cs: seq<Contribution>, keys: seq<string>, start: nat): seq<Value> {
    if |cs| <= start then []
    else ElementsSince(cs[..|cs| - 1], keys, start) + AsList(OrNull(At(cs[|cs| - 1].AsMap(), keys)))
  }

  lemma ListsBefore(cs: seq<Contribution>, before: seq<Contribution>, last: Contribution, keys: seq<string>, s: nat)
    requires cs == before + [last] && s <= |before|
    ensures (exists j :: s <= j < |cs| && IsListNode(At(cs[j].AsMap(), keys))) <==>
            IsListNode(At(last.AsMap(), keys)) ||
            exists j :: s <= j < |before| && IsListNode(At(before[j].AsMap(), keys))
  {
    if j :| s <= j < |before| && IsListNode(At(before[j].AsMap(), keys)) {
      assert IsListNode(At(cs[j].AsMap(), keys));
    }
    assert cs[|before|] == last;
  }

  /** The final config has a list at `keys` exactly when some layer since the last reset has one. */
  lemma {:induction false} ListPresence(cs: seq<Contribution>, policy: Policy, keys: seq<string>)
    ensures IsListNode(At(ConfigOf(cs, policy), keys))
       <==> exists j :: LastReset(cs, keys) <= j < |cs| && IsListNode(At(cs[j].AsMap(), keys))
  {
    hide ConfigOf, ExplainOf, At, ExplainAt, PathFrom;
    NothingYet(policy, keys);
    if cs != [] {
      var before, last := cs[..|cs| - 1], cs[|cs| - 1];
      AfterLayer(cs, policy, keys);
      CutHidesPath(last.AsMap(), keys);
      if !Resets(last.AsMap(), keys) {
        ListPresence(before, policy, keys);
        assert cs == before + [last];
        ListsBefore(cs, before, last, keys, LastReset(cs, keys));
      }
    }
  }

  lemma {:induction false} ElementsWithoutList(cs: seq<Contribution>, policy: Policy, keys: seq<string>)
    requires !IsListNode(At(ConfigOf(cs, policy), keys))
    ensures ElementsSince(cs, keys, LastReset(cs, keys)) == []
  {
    hide ConfigOf, ExplainOf, At, ExplainAt, PathFrom;
    NothingYet(policy, keys);
    if cs != [] {
      AfterLayer(cs, policy, keys);
      if !Resets(cs[|cs| - 1].AsMap(), keys) {
        ElementsWithoutList(cs[..|cs| - 1], policy, keys);
      }
    }
  }

  /** At an append path the final list is the concatenation, in layer order, of every list since the last reset. */
  lemma {:induction false} AppendAccumulates(cs: seq<Contribution>, policy: Policy, keys: seq<string>)
    requires policy.MergeStrategyFor(PathFrom("", keys)).Append?
    requires IsListNode(At(ConfigOf(cs, policy), keys))
    ensures At(ConfigOf(cs, policy), keys).value.items == ElementsSince(cs, keys, LastReset(cs, keys))
  {
    hide ConfigOf, ExplainOf, At, ExplainAt, PathFrom;
    NothingYet(policy, keys);
    if cs != [] {
      var before, last := cs[..|cs| - 1], cs[|cs| - 1];
      AfterLayer(cs, policy, keys);
      if IsListNode(At(ConfigOf(before, policy), keys)) {
        AppendAccumulates(before, policy, keys);
      } else {
        ElementsWithoutList(before, policy, keys);
      }
    }
  }

  /** At a union path it is the first-occurrence deduplication of that concatenation. */
  lemma {:induction false} UnionAccumulates(cs: seq<Contribution>, policy: Policy, keys: seq<string>)
    requires policy.MergeStrategyFor(PathFrom("", keys)).Union?
    requires IsListNode(At(ConfigOf(cs, policy), keys))
    ensures At(ConfigOf(cs, policy), keys).value.items
         == Dedup(ElementsSince(cs, keys, LastReset(cs, keys)), policy.render)
  {
    hide ConfigOf, ExplainOf, At, ExplainAt, PathFrom, DedupAfter;
    NothingYet(policy, keys);
    if cs != [] {
      var before, last := cs[..|cs| - 1], cs[|cs| - 1];
      var earlier := ElementsSince(before, keys, LastReset(before, keys));
      AfterLayer(cs, policy, keys);
      if IsListNode(At(ConfigOf(before, policy), keys)) {
        UnionAccumulates(before, policy, keys);
      } else {
        ElementsWithoutList(before, policy, keys);
      }
      var more := AsList(OrNull(At(last.AsMap(), keys)));
      DedupAbsorbs(earlier, more, policy.render);
      assert more == [] ==> earlier + more == earlier;
      assert earlier == [] ==> earlier + more == more && [] + more == more;
    }
  }
}
