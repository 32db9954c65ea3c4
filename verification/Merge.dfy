/** resolve/merge.go: the recursive merge of one patch into a config tree and its explain tree. */
module Merge {
  import opened Values
  import opened Recipe

  function JoinPath(prefix: string, key: string): string {
    if prefix == "" then key else prefix + "." + key
  }

  /** The policy path of the node reached from `prefix` along `keys`. */
  function PathFrom(prefix: string, keys: seq<string>): string
    decreases |keys|
  {
    if keys == [] then prefix else PathFrom(JoinPath(prefix, keys[0]), keys[1..])
  }

  function AsList(v: Value): seq<Value> {
    if v.List? then v.items else []
  }

  /** The elements of `xs` whose rendering is neither in `seen` nor repeated, first occurrences kept. */
  function DedupAfter(xs: seq<Value>, seen: set<string>, render: Value -> string): seq<Value> {
    if xs == [] then []
    else if render(xs[0]) in seen then DedupAfter(xs[1..], seen, render)
    else [xs[0]] + DedupAfter(xs[1..], seen + {render(xs[0])}, render)
  }

  function Dedup(xs: seq<Value>, render: Value -> string): seq<Value> {
    DedupAfter(xs, {}, render)
  }

  ghost function Renderings(xs: seq<Value>, render: Value -> string): set<string> {
    set x | x in xs :: render(x)
  }

  /** Two lists at one policy path. */
  function MergedLists(base: seq<Value>, patch: seq<Value>, path: string, policy: Policy): seq<Value> {
    match policy.MergeStrategyFor(path)
    case Union => Dedup(base + patch, policy.render)
    case Append => base + patch
    case _ => patch
  }

  /** What merging `patch` over `base` at `path` means, key by key and without any visiting order. */
  function Merged(base: Value, patch: Value, path: string, policy: Policy): Value
    decreases patch
  {
    match patch
    case Map(p) =>
      var b := MapOf(base);
      Map(map k | k in b.Keys + p.Keys ::
        if k in p then Merged(Child(b, k), p[k], JoinPath(path, k), policy) else b[k])
    case List(p) => List(MergedLists(AsList(base), p, path, policy))
    case _ => patch
  }

  /** The explain tree that goes with `Merged`: every leaf of the patch is attributed to `prov`. */
  function Explained(base: Value, explain: Explain, patch: Value, prov: Provenance): Explain
    decreases patch
  {
    match patch
    case Map(p) =>
      var b, be := MapOf(base), ChildrenOf(explain);
      Tree(map k | k in b.Keys + p.Keys ::
        var prior := if k in b then ChildExplain(be, k) else Absent;
        if k in p then Explained(Child(b, k), prior, p[k], prov) else prior)
    case _ => Leaf(prov)
  }

  lemma MergedByKey(base: Value, patch: Value, path: string, policy: Policy, m: map<string, Value>)
    requires patch.Map?
    requires forall k :: k in m <==> k in MapOf(base) || k in patch.entries
    requires forall k | k in MapOf(base) && k !in patch.entries :: m[k] == MapOf(base)[k]
    requires forall k | k in patch.entries ::
               m[k] == Merged(Child(MapOf(base), k), patch.entries[k], JoinPath(path, k), policy)
    ensures Merged(base, patch, path, policy) == Map(m)
  {
    var goal := Merged(base, patch, path, policy);
    assert goal.Map?;
    forall k | k in m ensures k in goal.entries && goal.entries[k] == m[k] {}
    SameMap(m, goal.entries);
  }

  lemma ExplainedByKey(base: Value, explain: Explain, patch: Value, prov: Provenance, m: map<string, Explain>)
    requires patch.Map?
    requires forall k :: k in m <==> k in MapOf(base) || k in patch.entries
    requires forall k | k in MapOf(base) && k !in patch.entries :: m[k] == ChildExplain(ChildrenOf(explain), k)
    requires forall k | k in patch.entries ::
               var prior := if k in MapOf(base) then ChildExplain(ChildrenOf(explain), k) else Absent;
               m[k] == Explained(Child(MapOf(base), k), prior, patch.entries[k], prov)
    ensures Explained(base, explain, patch, prov) == Tree(m)
  {
    var goal := Explained(base, explain, patch, prov);
    assert goal.Tree?;
    forall k | k in m ensures k in goal.children && goal.children[k] == m[k] {}
    SameMap(m, goal.children);
  }

  /** `mergeValue`. */
  method MergeValue(base: Value, baseExplain: Explain, patch: Value, prov: Provenance, path: string, policy: Policy)
    returns (value: Value, explain: Explain)
    ensures value == Merged(base, patch, path, policy)
    ensures explain == Explained(base, baseExplain, patch, prov)
    decreases patch, 1
  {
    match patch
    case Map(p) =>
      var b := MapOf(base);
      var outVal, outExp := CopyBase(b, ChildrenOf(baseExplain));
      outVal, outExp := MergeKeys(outVal, outExp, patch, prov, path, policy);
      value, explain := Map(outVal), Tree(outExp);
      MergedByKey(base, patch, path, policy, outVal);
      ExplainedByKey(base, baseExplain, patch, prov, outExp);

    case List(p) =>
      explain := Leaf(prov);
      match policy.MergeStrategyFor(path) {
        case Union =>
          var out := UnionLists(AsList(base), p, policy.render);
          value := List(out);
        case Append =>
          value := List(AsList(base) + p);
        case _ =>
          value := patch;
      }

    case _ =>
      value, explain := patch, Leaf(prov);
  }

  /** The first loop of the map case, over the base's keys in whatever order the runtime picks. */
  method CopyBase(b: map<string, Value>, be: map<string, Explain>)
    returns (outVal: map<string, Value>, outExp: map<string, Explain>)
    ensures outVal == b
    ensures outExp == map k | k in b :: ChildExplain(be, k)
  {
    outVal, outExp := map[], map[];
    var todo := b.Keys;
    while todo != {}
      invariant todo <= b.Keys
      invariant forall k :: k in outVal <==> k in b && k !in todo
      invariant forall k :: k in outExp <==> k in b && k !in todo
      invariant forall k | k in outVal :: outVal[k] == b[k] && outExp[k] == ChildExplain(be, k)
      decreases todo
    {
      var k :| k in todo;
      outVal, outExp := outVal[k := b[k]], outExp[k := ChildExplain(be, k)];
      todo := todo - {k};
    }
  }

  /** The second loop of the map case, over the patch's keys in whatever order the runtime picks. */
  method MergeKeys(b: map<string, Value>, be: map<string, Explain>, patch: Value, prov: Provenance, path: string,
                   policy: Policy)
    returns (outVal: map<string, Value>, outExp: map<string, Explain>)
    requires patch.Map? && be.Keys == b.Keys
    ensures forall k :: k in outVal <==> k in b || k in patch.entries
    ensures forall k :: k in outExp <==> k in b || k in patch.entries
    ensures forall k | k in b && k !in patch.entries :: outVal[k] == b[k] && outExp[k] == be[k]
    ensures forall k | k in patch.entries ::
              && outVal[k] == Merged(Child(b, k), patch.entries[k], JoinPath(path, k), policy)
              && outExp[k] == Explained(Child(b, k), ChildExplain(be, k), patch.entries[k], prov)
    decreases patch, 0
  {
    var p := patch.entries;
    outVal, outExp := b, be;
    var todo := p.Keys;
    while todo != {}
      invariant todo <= p.Keys
      invariant forall k :: k in outVal <==> k in b || (k in p && k !in todo)
      invariant forall k :: k in outExp <==> k in b || (k in p && k !in todo)
      invariant forall k | k in b && (k !in p || k in todo) :: outVal[k] == b[k] && outExp[k] == be[k]
      invariant forall k | k in p && k !in todo :: outVal[k] == Merged(Child(b, k), p[k], JoinPath(path, k), policy)
      invariant forall k | k in p && k !in todo :: outExp[k] == Explained(Child(b, k), ChildExplain(be, k), p[k], prov)
      decreases todo
    {
      var k :| k in todo;
      var mv, me := MergeValue(Child(outVal, k), ChildExplain(outExp, k), p[k], prov, JoinPath(path, k), policy);
      outVal, outExp := outVal[k := mv], outExp[k := me];
      todo := todo - {k};
    }
  }

  method UnionLists(a: seq<Value>, b: seq<Value>, render: Value -> string) returns (out: seq<Value>)
    ensures out == Dedup(a + b, render)
  {
    var seen: set<string> := {};
    out := [];
    out, seen := AddAll(a, out, seen, render);
    out, seen := AddAll(b, out, seen, render);
    DedupAppend(a, b, {}, render);
  }

  /** One of the two range loops of `unionLists`, with its `add` closure over `out` and `seen`. */
  method AddAll(xs: seq<Value>, out: seq<Value>, seen: set<string>, render: Value -> string)
    returns (outNow: seq<Value>, seenNow: set<string>)
    ensures outNow == out + DedupAfter(xs, seen, render)
    ensures seenNow == seen + Renderings(xs, render)
  {
    outNow, seenNow := out, seen;
    for i := 0 to |xs|
      invariant outNow + DedupAfter(xs[i..], seenNow, render) == out + DedupAfter(xs, seen, render)
      invariant seenNow + Renderings(xs[i..], render) == seen + Renderings(xs, render)
    {
      assert xs[i..] == [xs[i]] + xs[i + 1..];
      RenderingsOfCons(xs[i], xs[i + 1..], render);
      var key := render(xs[i]);
      if key !in seenNow {
        seenNow, outNow := seenNow + {key}, outNow + [xs[i]];
      }
    }
  }

  lemma RenderingsOfCons(x: Value, xs: seq<Value>, render: Value -> string)
    ensures Renderings([x] + xs, render) == {render(x)} + Renderings(xs, render)
  {
    assert render(x) in Renderings([x] + xs, render) by { assert x in [x] + xs; }
    forall y | y in xs ensures render(y) in Renderings([x] + xs, render) { assert y in [x] + xs; }
  }

  // ---- first-occurrence deduplication ----

  lemma {:induction false} DedupAppend(x: seq<Value>, y: seq<Value>, seen: set<string>, render: Value -> string)
    ensures DedupAfter(x + y, seen, render)
         == DedupAfter(x, seen, render) + DedupAfter(y, seen + Renderings(x, render), render)
  {
    if x == [] {
      assert x + y == y;
      assert seen + Renderings(x, render) == seen;
    } else {
      var key := render(x[0]);
      assert (x + y)[1..] == x[1..] + y;
      DedupAppend(x[1..], y, seen + {key}, render);
      assert x == [x[0]] + x[1..];
      assert seen + {key} + Renderings(x[1..], render) == seen + Renderings(x, render);
      if key in seen {
        assert seen + {key} == seen;
      }
    }
  }

  lemma {:induction false} DedupTwice(xs: seq<Value>, fewer: set<string>, seen: set<string>, render: Value -> string)
    requires fewer <= seen
    ensures DedupAfter(DedupAfter(xs, fewer, render), seen, render) == DedupAfter(xs, seen, render)
  {
    if xs != [] {
      var key := render(xs[0]);
      if key in fewer {
        DedupTwice(xs[1..], fewer, seen, render);
      } else if key in seen {
        DedupTwice(xs[1..], fewer + {key}, seen, render);
      } else {
        DedupTwice(xs[1..], fewer + {key}, seen + {key}, render);
      }
    }
  }

  lemma {:induction false} DedupRenderings(xs: seq<Value>, seen: set<string>, render: Value -> string)
    ensures Renderings(DedupAfter(xs, seen, render), render) == Renderings(xs, render) - seen
  {
    if xs != [] {
      var key := render(xs[0]);
      DedupRenderings(xs[1..], if key in seen then seen else seen + {key}, render);
      assert xs == [xs[0]] + xs[1..];
      assert Renderings(xs, render) == {key} + Renderings(xs[1..], render);
      if key !in seen {
        var rest := DedupAfter(xs[1..], seen + {key}, render);
        assert Renderings([xs[0]] + rest, render) == {key} + Renderings(rest, render);
      }
    }
  }

  /** Deduplicating either operand of a concatenation first makes no difference. */
  lemma DedupAbsorbs(x: seq<Value>, y: seq<Value>, render: Value -> string)
    ensures Dedup(Dedup(x, render) + y, render) == Dedup(x + y, render)
    ensures Dedup(x + Dedup(y, render), render) == Dedup(x + y, render)
  {
    var d := Dedup(x, render);
    assert {} + Renderings(d, render) == {} + Renderings(x, render) by {
      DedupRenderings(x, {}, render);
    }
    DedupAppend(d, y, {}, render);
    DedupAppend(x, y, {}, render);
    DedupTwice(x, {}, {}, render);
    DedupAppend(x, Dedup(y, render), {}, render);
    DedupTwice(y, {}, {} + Renderings(x, render), render);
  }

  /** No earlier element renders like element `i`. */
  ghost predicate IsFirst(xs: seq<Value>, i: nat, render: Value -> string)
    requires i < |xs|
  {
    forall j | 0 <= j < i :: render(xs[j]) != render(xs[i])
  }

  /** `Dedup` keeps exactly the elements that no earlier element renders like, in their order. */
  lemma DedupKeepsFirstOccurrences(xs: seq<Value>, render: Value -> string) returns (kept: seq<nat>)
    ensures forall m, n | 0 <= m < n < |kept| :: kept[m] < kept[n]
    ensures forall n | 0 <= n < |kept| :: kept[n] < |xs| && IsFirst(xs, kept[n], render)
    ensures forall i: nat | i < |xs| && IsFirst(xs, i, render) :: i in kept
    ensures |kept| == |Dedup(xs, render)|
    ensures forall n | 0 <= n < |kept| :: Dedup(xs, render)[n] == xs[kept[n]]
  {
    assert xs[0..] == xs && Renderings(xs[..0], render) == {};
    kept := KeptFrom(xs, 0, render);
  }

  lemma {:induction false} KeptFrom(xs: seq<Value>, start: nat, render: Value -> string) returns (kept: seq<nat>)
    requires start <= |xs|
    ensures forall m, n | 0 <= m < n < |kept| :: kept[m] < kept[n]
    ensures forall n | 0 <= n < |kept| :: start <= kept[n] < |xs| && IsFirst(xs, kept[n], render)
    ensures forall i: nat | start <= i < |xs| && IsFirst(xs, i, render) :: i in kept
    ensures |kept| == |DedupAfter(xs[start..], Renderings(xs[..start], render), render)|
    ensures forall n | 0 <= n < |kept| ::
              DedupAfter(xs[start..], Renderings(xs[..start], render), render)[n] == xs[kept[n]]
    decreases |xs| - start
  {
    if start == |xs| {
      kept := [];
    } else {
      var seen, key := Renderings(xs[..start], render), render(xs[start]);
      FirstOrSeen(xs, start, render);
      var rest := KeptFrom(xs, start + 1, render);
      hide Renderings, IsFirst;
      assert xs[start..][1..] == xs[start + 1..];
      if key in seen {
        assert seen + {key} == seen;
        kept := rest;
      } else {
        kept := [start] + rest;
      }
    }
  }

  lemma FirstOrSeen(xs: seq<Value>, start: nat, render: Value -> string)
    requires start < |xs|
    ensures IsFirst(xs, start, render) <==> render(xs[start]) !in Renderings(xs[..start], render)
    ensures Renderings(xs[..start + 1], render) == Renderings(xs[..start], render) + {render(xs[start])}
  {
    assert xs[..start + 1] == xs[..start] + [xs[start]];
  }
}
