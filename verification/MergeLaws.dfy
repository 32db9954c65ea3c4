/** Algebra of the merge: when patches may be regrouped, and when re-merging one changes nothing. */
module MergeLaws {
  import opened Values
  import opened Recipe
  import opened Merge
  import opened Layers

  /** Merging optional trees: a key the patch lacks keeps the base's node. */
  function MergedOpt(base: Option<Value>, patch: Option<Value>, path: string, policy: Policy): Option<Value> {
    if patch.None? then base
    else Some(Merged(OrNull(base), patch.value, path, policy))
  }

  function Entry(v: Option<Value>, k: string): Option<Value> {
    if v.Some? && v.value.Map? && k in v.value.entries then Some(v.value.entries[k]) else None
  }

  /** A merge with a map patch, one key at a time. */
  lemma MergedEntry(base: Option<Value>, patch: Option<Value>, path: string, policy: Policy, k: string)
    requires patch.Some? && patch.value.Map?
    ensures Entry(MergedOpt(base, patch, path, policy), k)
         == MergedOpt(Entry(base, k), Entry(patch, k), JoinPath(path, k), policy)
  {
  }

  lemma EqualMaps(v: Option<Value>, w: Option<Value>)
    requires v.Some? && v.value.Map? && w.Some? && w.value.Map?
    ensures v == w <==> forall k :: Entry(v, k) == Entry(w, k)
  {
    if forall k :: Entry(v, k) == Entry(w, k) {
      var m, n := v.value.entries, w.value.entries;
      forall k ensures k in m <==> k in n { assert Entry(v, k) == Entry(w, k); }
      forall k | k in m ensures m[k] == n[k] { assert Entry(v, k) == Entry(w, k); }
      assert m == n;
    }
  }

  // ---- regrouping ----

  /** Nothing of `a` survives being merged under `c`: every leaf and every list element of `a`
      is overridden, or already leads the list it would be combined with. */
  predicate Absorbed(a: Option<Value>, c: Value, path: string, policy: Policy)
    decreases c
  {
    match c
    case Map(m) =>
      a.Some? && a.value.Map? ==>
        forall k | k in a.value.entries :: k in m && Absorbed(Entry(a, k), m[k], JoinPath(path, k), policy)
    case List(items) =>
      var l := AsList(OrNull(a));
      (match policy.MergeStrategyFor(path)
       case Append => l == []
       case Union => Dedup(l, policy.render) <= Dedup(items, policy.render)
       case _ => true)
    case _ => true
  }

  /** When `b` is a value of another kind standing between `a` and `c`, `c` must absorb `a`. */
  predicate Regroups(a: Option<Value>, b: Option<Value>, c: Option<Value>, path: string, policy: Policy)
    decreases OrNull(c)
  {
    if a.None? || b.None? || c.None? then true
    else if b.value.Map? && c.value.Map? then
      a.value.Map? ==>
        forall k | k in c.value.entries ::
          Regroups(Entry(a, k), Entry(b, k), Some(c.value.entries[k]), JoinPath(path, k), policy)
    else if b.value.List? && c.value.List? then true
    else Absorbed(a, c.value, path, policy)
  }

  /** At every path all three trees have, they agree on being a map, a list or something else. */
  predicate SameKinds(a: Option<Value>, b: Option<Value>, c: Option<Value>)
    decreases OrNull(c)
  {
    a.Some? && b.Some? && c.Some? ==>
      && (a.value.Map? <==> b.value.Map?) && (b.value.Map? <==> c.value.Map?)
      && (a.value.List? <==> b.value.List?) && (b.value.List? <==> c.value.List?)
      && (c.value.Map? ==>
            forall k | k in c.value.entries :: SameKinds(Entry(a, k), Entry(b, k), Some(c.value.entries[k])))
  }

  lemma PrefixDedup(l: seq<Value>, items: seq<Value>, render: Value -> string)
    ensures Dedup(l + items, render) == Dedup(items, render) <==> Dedup(l, render) <= Dedup(items, render)
  {
    hide DedupAfter;
    var dl, di, seen := Dedup(l, render), Dedup(items, render), Renderings(l, render);
    DedupAppend(l, items, {}, render);
    assert {} + seen == seen;
    if dl <= di {
      var rest := di[|dl|..];
      assert di == dl + rest;
      DedupTwice(items, {}, {}, render);
      DedupTwice(l, {}, {}, render);
      DedupRenderings(l, {}, render);
      DedupAppend(dl, rest, {}, render);
      assert {} + Renderings(dl, render) == seen;
      assert rest == DedupAfter(rest, seen, render);
      DedupTwice(items, {}, seen, render);
      DedupAppend(dl, rest, seen, render);
      assert seen + Renderings(dl, render) == seen;
      DedupTwice(l, {}, seen, render);
      AllSeen(l, seen, render);
    }
  }

  lemma {:induction false} AllSeen(xs: seq<Value>, seen: set<string>, render: Value -> string)
    requires Renderings(xs, render) <= seen
    ensures DedupAfter(xs, seen, render) == []
  {
    if xs != [] {
      assert render(xs[0]) in Renderings(xs, render);
      AllSeen(xs[1..], seen, render);
    }
  }

  lemma AbsorbedLists(a: Option<Value>, items: seq<Value>, path: string, policy: Policy)
    ensures MergedOpt(a, Some(List(items)), path, policy) == MergedOpt(None, Some(List(items)), path, policy)
       <==> Absorbed(a, List(items), path, policy)
  {
    hide DedupAfter;
    var l := AsList(OrNull(a));
    PrefixDedup(l, items, policy.render);
    assert [] + items == items;
    if l != [] { assert |l + items| > |items|; }
  }

  lemma {:induction false} AbsorbedExactly(a: Option<Value>, c: Value, path: string, policy: Policy)
    ensures MergedOpt(a, Some(c), path, policy) == MergedOpt(None, Some(c), path, policy)
       <==> Absorbed(a, c, path, policy)
    decreases c
  {
    match c
    case Map(m) =>
      hide Merged;
      var with, without := MergedOpt(a, Some(c), path, policy), MergedOpt(None, Some(c), path, policy);
      EqualMaps(with, without);
      forall k
        ensures Entry(with, k) == Entry(without, k) <==>
                (Entry(a, k) == None || (k in m && Absorbed(Entry(a, k), m[k], JoinPath(path, k), policy)))
      {
        MergedEntry(a, Some(c), path, policy, k);
        MergedEntry(None, Some(c), path, policy, k);
        if k in m { AbsorbedExactly(Entry(a, k), m[k], JoinPath(path, k), policy); }
      }
    case List(items) =>
      AbsorbedLists(a, items, path, policy);
    case _ =>
  }

  /** Merging with a patch that was merged over nothing first makes no difference. */
  lemma {:induction false} NormalisedPatch(a: Option<Value>, c: Value, path: string, policy: Policy)
    ensures MergedOpt(a, MergedOpt(None, Some(c), path, policy), path, policy) == MergedOpt(a, Some(c), path, policy)
    decreases c
  {
    match c
    case Map(m) =>
      var norm := MergedOpt(None, Some(c), path, policy);
      EqualMaps(MergedOpt(a, norm, path, policy), MergedOpt(a, Some(c), path, policy));
      forall k ensures Entry(MergedOpt(a, norm, path, policy), k) == Entry(MergedOpt(a, Some(c), path, policy), k) {
        MergedEntry(a, norm, path, policy, k);
        MergedEntry(None, Some(c), path, policy, k);
        MergedEntry(a, Some(c), path, policy, k);
        if k in m { NormalisedPatch(Entry(a, k), m[k], JoinPath(path, k), policy); }
      }
    case List(items) =>
      var l := AsList(OrNull(a));
      DedupAbsorbs(l, items, policy.render);
      assert [] + items == items;
    case _ =>
  }

  /** A value of another kind between `a` and `c` hides `a` from a left-to-right merge only. */
  lemma RegroupingAcrossKinds(a: Option<Value>, b: Value, c: Value, path: string, policy: Policy)
    requires !(b.Map? && c.Map?) && !(b.List? && c.List?)
    ensures MergedOpt(MergedOpt(a, Some(b), path, policy), Some(c), path, policy)
         == MergedOpt(a, MergedOpt(Some(b), Some(c), path, policy), path, policy)
       <==> Absorbed(a, c, path, policy)
  {
    AbsorbedExactly(a, c, path, policy);
    NormalisedPatch(a, c, path, policy);
    var ab := Merged(OrNull(a), b, path, policy);
    if c.Map? || c.List? {
      assert Merged(b, c, path, policy) == Merged(Null, c, path, policy);
      assert Merged(ab, c, path, policy) == Merged(Null, c, path, policy);
    }
  }

  lemma RegroupingLists(a: Option<Value>, b: seq<Value>, c: seq<Value>, path: string, policy: Policy)
    ensures MergedOpt(MergedOpt(a, Some(List(b)), path, policy), Some(List(c)), path, policy)
         == MergedOpt(a, MergedOpt(Some(List(b)), Some(List(c)), path, policy), path, policy)
  {
    var l := AsList(OrNull(a));
    assert l + b + c == l + (b + c);
    DedupAbsorbs(l + b, c, policy.render);
    DedupAbsorbs(l, b + c, policy.render);
  }

  /** Merging `a`, `b`, `c` left to right equals merging `a` with the merge of `b` and `c`
      exactly when no value of another kind in `b` shields `a` from `c`. */
  lemma {:induction false} RegroupingExactly(a: Option<Value>, b: Option<Value>, c: Option<Value>, path: string,
                                             policy: Policy)
    ensures MergedOpt(MergedOpt(a, b, path, policy), c, path, policy)
         == MergedOpt(a, MergedOpt(b, c, path, policy), path, policy)
       <==> Regroups(a, b, c, path, policy)
    decreases OrNull(c)
  {
    if c.None? {
    } else if b.None? {
      NormalisedPatch(a, c.value, path, policy);
    } else if b.value.Map? && c.value.Map? {
      var left := MergedOpt(MergedOpt(a, b, path, policy), c, path, policy);
      var right := MergedOpt(a, MergedOpt(b, c, path, policy), path, policy);
      EqualMaps(left, right);
      forall k ensures Entry(left, k) == Entry(right, k) <==>
                       Regroups(Entry(a, k), Entry(b, k), Entry(c, k), JoinPath(path, k), policy)
      {
        MergedEntry(a, b, path, policy, k);
        MergedEntry(MergedOpt(a, b, path, policy), c, path, policy, k);
        MergedEntry(b, c, path, policy, k);
        MergedEntry(a, MergedOpt(b, c, path, policy), path, policy, k);
        if k in c.value.entries {
          RegroupingExactly(Entry(a, k), Entry(b, k), Entry(c, k), JoinPath(path, k), policy);
        }
      }
    } else if b.value.List? && c.value.List? {
      RegroupingLists(a, b.value.items, c.value.items, path, policy);
    } else {
      RegroupingAcrossKinds(a, b.value, c.value, path, policy);
    }
  }

  lemma {:induction false} SameKindsRegroup(a: Option<Value>, b: Option<Value>, c: Option<Value>, path: string,
                                            policy: Policy)
    requires SameKinds(a, b, c)
    ensures Regroups(a, b, c, path, policy)
    decreases OrNull(c)
  {
    if a.Some? && b.Some? && c.Some? && c.value.Map? {
      forall k | k in c.value.entries
        ensures Regroups(Entry(a, k), Entry(b, k), Some(c.value.entries[k]), JoinPath(path, k), policy)
      {
        SameKindsRegroup(Entry(a, k), Entry(b, k), Some(c.value.entries[k]), JoinPath(path, k), policy);
      }
    }
  }

  /** Trees that agree on kinds merge associatively under every policy. */
  lemma MergeIsAssociative(a: Value, b: Value, c: Value, path: string, policy: Policy)
    requires SameKinds(Some(a), Some(b), Some(c))
    ensures Merged(Merged(a, b, path, policy), c, path, policy) == Merged(a, Merged(b, c, path, policy), path, policy)
  {
    SameKindsRegroup(Some(a), Some(b), Some(c), path, policy);
    RegroupingExactly(Some(a), Some(b), Some(c), path, policy);
  }

  /** Map, scalar, map at one key: the scalar clears the first map only when it is merged first. */
  lemma RegroupingFails(policy: Policy, path: string)
    ensures var a, b, c := Map(map["x" := Null]), Bool(true), Map(map["y" := Null]);
            Merged(Merged(a, b, path, policy), c, path, policy) != Merged(a, Merged(b, c, path, policy), path, policy)
  {
    var a, b, c := Map(map["x" := Null]), Bool(true), Map(map["y" := Null]);
    assert "x" in Merged(a, Merged(b, c, path, policy), path, policy).entries;
    assert "x" !in Merged(Merged(a, b, path, policy), c, path, policy).entries;
  }

  /** Two adjacent layers as one: the second merged over the first. */
  function Squashed(c: Contribution, d: Contribution, policy: Policy): Contribution {
    Contribution(MapOf(Merged(c.AsMap(), d.AsMap(), "", policy)), d.prov)
  }

  /** Squashing the last two layers keeps the config exactly when they regroup over the layers before. */
  lemma SquashingLast(front: seq<Contribution>, c: Contribution, d: Contribution, policy: Policy)
    ensures ConfigOf(front + [c, d], policy) == ConfigOf(front + [Squashed(c, d, policy)], policy)
       <==> Regroups(Some(ConfigOf(front, policy)), Some(c.AsMap()), Some(d.AsMap()), "", policy)
  {
    hide Merged, Regroups, ConfigOf;
    var s := Squashed(c, d, policy);
    MergedMaps(c.AsMap(), d.AsMap(), policy);
    OneMoreLayer(front, s, policy);
    OneMoreLayer(front, c, policy);
    OneMoreLayer(front + [c], d, policy);
    assert front + [c, d] == (front + [c]) + [d];
    RegroupingExactly(Some(ConfigOf(front, policy)), Some(c.AsMap()), Some(d.AsMap()), "", policy);
  }

  lemma OneMoreLayer(cs: seq<Contribution>, c: Contribution, policy: Policy)
    ensures ConfigOf(cs + [c], policy) == Merged(ConfigOf(cs, policy), c.AsMap(), "", policy)
  {
    assert (cs + [c])[..|cs|] == cs;
  }

  lemma MergedMaps(a: Value, b: Value, policy: Policy)
    requires b.Map?
    ensures Merged(a, b, "", policy).Map?
  {
  }

  /** The three layers of a recipe for which it does not: a map, a scalar and a map at one key. */
  lemma SquashingFails(k: string, prov: Provenance, policy: Policy)
    ensures var a := Contribution(map[k := Map(map["x" := Null])], prov);
            var b := Contribution(map[k := Bool(true)], prov);
            var c := Contribution(map[k := Map(map["y" := Null])], prov);
            ConfigOf([a, b, c], policy) != ConfigOf([a, Squashed(b, c, policy)], policy)
  {
    hide Regroups, ConfigOf, Merged, Absorbed;
    var x, y, path := Map(map["x" := Null]), Map(map["y" := Null]), JoinPath("", k);
    var a, b := Contribution(map[k := x], prov), Contribution(map[k := Bool(true)], prov);
    var c := Contribution(map[k := y], prov);
    FirstLayer(k, x, prov, policy);
    ShieldedMap(path, policy);
    NotRegrouped(Some(ConfigOf([a], policy)), Some(b.AsMap()), Some(c.AsMap()), "", policy, k);
    SquashingLast([a], b, c, policy);
    assert [a] + [b, c] == [a, b, c] && [a] + [Squashed(b, c, policy)] == [a, Squashed(b, c, policy)];
  }

  lemma FirstLayer(k: string, x: Value, prov: Provenance, policy: Policy)
    requires x == Map(map["x" := Null])
    ensures Entry(Some(ConfigOf([Contribution(map[k := x], prov)], policy)), k) == Some(x)
  {
    var a := Contribution(map[k := x], prov);
    OneMoreLayer([], a, policy);
    assert [] + [a] == [a];
    MergedEntry(Some(Map(map[])), Some(a.AsMap()), "", policy, k);
    NormalisedLeafMap(x, JoinPath("", k), policy);
  }

  lemma ShieldedMap(path: string, policy: Policy)
    ensures !Regroups(Some(Map(map["x" := Null])), Some(Bool(true)), Some(Map(map["y" := Null])), path, policy)
  {
    var x, y := Map(map["x" := Null]), Map(map["y" := Null]);
    assert "x" in x.entries && "x" !in y.entries;
    assert !Absorbed(Some(x), y, path, policy);
  }

  lemma NotRegrouped(a: Option<Value>, b: Option<Value>, c: Option<Value>, path: string, policy: Policy, k: string)
    requires a.Some? && b.Some? && c.Some? && a.value.Map? && b.value.Map? && c.value.Map? && k in c.value.entries
    requires !Regroups(Entry(a, k), Entry(b, k), Entry(c, k), JoinPath(path, k), policy)
    ensures !Regroups(a, b, c, path, policy)
  {
  }

  lemma NormalisedLeafMap(x: Value, path: string, policy: Policy)
    requires x == Map(map["x" := Null])
    ensures Merged(Null, x, path, policy) == x
  {
    assert Merged(Null, x, path, policy).entries == x.entries;
  }

  /** Layers after them see no difference then: a regrouping pair may be squashed anywhere in a recipe. */
  lemma {:induction false} SquashingAnywhere(front: seq<Contribution>, c: Contribution, d: Contribution,
                                             back: seq<Contribution>, policy: Policy)
    requires Regroups(Some(ConfigOf(front, policy)), Some(c.AsMap()), Some(d.AsMap()), "", policy)
    ensures ConfigOf(front + [c, d] + back, policy) == ConfigOf(front + [Squashed(c, d, policy)] + back, policy)
    decreases |back|
  {
    hide Merged, Regroups, ConfigOf;
    var long, short := front + [c, d], front + [Squashed(c, d, policy)];
    if back == [] {
      assert long + back == long && short + back == short;
      SquashingLast(front, c, d, policy);
    } else {
      var shorter, last := back[..|back| - 1], back[|back| - 1];
      SquashingAnywhere(front, c, d, shorter, policy);
      OneMoreLayer(long + shorter, last, policy);
      OneMoreLayer(short + shorter, last, policy);
      assert long + back == (long + shorter) + [last] && short + back == (short + shorter) + [last];
    }
  }

  // ---- re-merging ----

  /** No rule appends to a non-empty list of the patch. */
  predicate AppendsNothing(patch: Value, path: string, policy: Policy)
    decreases patch
  {
    match patch
    case Map(m) => forall k | k in m :: AppendsNothing(m[k], JoinPath(path, k), policy)
    case List(items) => policy.MergeStrategyFor(path).Append? ==> items == []
    case _ => true
  }

  /** Merging the same patch once more changes the config exactly when it appends something. */
  lemma {:induction false} RemergingConfig(base: Option<Value>, patch: Value, path: string, policy: Policy)
    ensures var once := MergedOpt(base, Some(patch), path, policy);
            MergedOpt(once, Some(patch), path, policy) == once <==> AppendsNothing(patch, path, policy)
    decreases patch
  {
    var once := MergedOpt(base, Some(patch), path, policy);
    match patch
    case Map(m) =>
      var twice := MergedOpt(once, Some(patch), path, policy);
      EqualMaps(twice, once);
      forall k
        ensures Entry(twice, k) == Entry(once, k) <==> (k in m ==> AppendsNothing(m[k], JoinPath(path, k), policy))
      {
        MergedEntry(base, Some(patch), path, policy, k);
        MergedEntry(once, Some(patch), path, policy, k);
        if k in m { RemergingConfig(Entry(base, k), m[k], JoinPath(path, k), policy); }
      }
    case List(items) =>
      var l := AsList(OrNull(base));
      var d := Dedup(l + items, policy.render);
      DedupAbsorbs(l + items, items, policy.render);
      DedupAppend(l + items, items, {}, policy.render);
      AllSeen(items, {} + Renderings(l + items, policy.render), policy.render);
      assert d + [] == d;
      assert |l + items + items| == |l + items| + |items|;
      assert items == [] ==> l + items + items == l + items;
    case _ =>
  }

  /** Merging it once more under the same provenance never changes the explain tree. */
  lemma {:induction false} RemergingExplain(base: Value, explain: Explain, patch: Value, prov: Provenance, path: string,
                                            policy: Policy)
    ensures var once, onceExp := Merged(base, patch, path, policy), Explained(base, explain, patch, prov);
            Explained(once, onceExp, patch, prov) == onceExp
    decreases patch
  {
    if patch.Map? {
      var p, b, be := patch.entries, MapOf(base), ChildrenOf(explain);
      var once, onceExp := Merged(base, patch, path, policy), Explained(base, explain, patch, prov);
      var twice := Explained(once, onceExp, patch, prov);
      forall k | k in p ensures twice.children[k] == onceExp.children[k] {
        var below := if k in b then ChildExplain(be, k) else Absent;
        RemergingExplain(Child(b, k), below, p[k], prov, JoinPath(path, k), policy);
      }
      assert twice.children == onceExp.children;
    }
  }
}
