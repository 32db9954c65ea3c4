/** Decoded configuration values (Go's `any` as YAML, JSON or Starlark produce it),
    explain trees, and reading either of them along a sequence of keys. */
module Values {

  datatype Option<+T> = None | Some(value: T)

  datatype Result<+T, +E> = Ok(value: T) | Err(error: E)

  /** Go's 64-bit `int` and `int64`. */
  type Int64 = i: int | -0x8000_0000_0000_0000 <= i < 0x8000_0000_0000_0000

  /** `Int` is Go's int, which YAML decodes to, and `Wide` its int64, which Starlark ints come back as.
      `Float` carries the bits of a float64, which nothing here looks into. `Other` is any
      further Go type a decoder may produce (uint64, time.Time, map[any]any, ...). */
  datatype Value =
    | Null
    | Bool(b: bool)
    | Int(i: Int64)
    | Wide(w: Int64)
    | Float(bits: nat)
    | Str(s: string)
    | Other(repr: string)
    | List(items: seq<Value>)
    | Map(entries: map<string, Value>)

  /** gitsource.Source */
  datatype Source = Source(repo: string, path: string, ref: string)

  /** resolve.Provenance; `source` is nil for a layer without one. */
  datatype Provenance = Provenance(layer: string, source: Option<Source>)

  /** The `any` of an explain tree: nil, a Provenance, a string (only in a JSON-decoded tree) or a map. */
  datatype Explain =
    | Absent
    | Leaf(prov: Provenance)
    | JsonText(text: string)
    | Tree(children: map<string, Explain>)

  /** `m, _ := v.(map[string]any)` */
  function MapOf(v: Value): map<string, Value> {
    if v.Map? then v.entries else map[]
  }

  function ChildrenOf(e: Explain): map<string, Explain> {
    if e.Tree? then e.children else map[]
  }

  /** `m[k]`, nil when the key is missing. */
  function Child(m: map<string, Value>, k: string): Value {
    if k in m then m[k] else Null
  }

  function ChildExplain(m: map<string, Explain>, k: string): Explain {
    if k in m then m[k] else Absent
  }

  /** The Go `any` of an optional node. */
  function OrNull(node: Option<Value>): Value {
    if node.Some? then node.value else Null
  }

  /** The node of `v` at a key path, if there is one. */
  function At(v: Value, keys: seq<string>): Option<Value> {
    if keys == [] then Some(v)
    else if v.Map? && keys[0] in v.entries then At(v.entries[keys[0]], keys[1..])
    else None
  }

  function ExplainAt(e: Explain, keys: seq<string>): Option<Explain> {
    if keys == [] then Some(e)
    else if e.Tree? && keys[0] in e.children then ExplainAt(e.children[keys[0]], keys[1..])
    else None
  }

  lemma SameMap<V>(m: map<string, V>, n: map<string, V>)
    requires forall k :: k in m <==> k in n
    requires forall k | k in m :: m[k] == n[k]
    ensures m == n
  {
  }

  /** The explain tree has exactly the shape of the config tree: maps face maps with the same keys,
      and every scalar, null or list faces one Provenance taken from `provs`. */
  ghost predicate Mirror(v: Value, e: Explain, provs: set<Provenance>)
    decreases v
  {
    match v
    case Map(m) => e.Tree? && e.children.Keys == m.Keys && forall k | k in m :: Mirror(m[k], e.children[k], provs)
    case _ => e.Leaf? && e.prov in provs
  }

  lemma {:induction false} MirrorAt(v: Value, e: Explain, provs: set<Provenance>, keys: seq<string>)
    requires Mirror(v, e, provs)
    ensures At(v, keys).Some? <==> ExplainAt(e, keys).Some?
    ensures At(v, keys).Some? ==> Mirror(At(v, keys).value, ExplainAt(e, keys).value, provs)
  {
    if keys != [] && v.Map? && keys[0] in v.entries {
      MirrorAt(v.entries[keys[0]], e.children[keys[0]], provs, keys[1..]);
    }
  }

  lemma {:induction false} MirrorWiden(v: Value, e: Explain, some: set<Provenance>, more: set<Provenance>)
    requires Mirror(v, e, some) && some <= more
    ensures Mirror(v, e, more)
    decreases v
  {
    if v.Map? {
      forall k | k in v.entries ensures Mirror(v.entries[k], e.children[k], more) {
        MirrorWiden(v.entries[k], e.children[k], some, more);
      }
    }
  }

  lemma {:induction false} AtConcat(v: Value, front: seq<string>, back: seq<string>)
    ensures At(v, front + back) == if At(v, front).Some? then At(At(v, front).value, back) else None
  {
    if front == [] {
      assert front + back == back;
    } else {
      assert (front + back)[1..] == front[1..] + back;
      if v.Map? && front[0] in v.entries {
        AtConcat(v.entries[front[0]], front[1..], back);
      }
    }
  }

  lemma {:induction false} ExplainAtConcat(e: Explain, front: seq<string>, back: seq<string>)
    ensures ExplainAt(e, front + back)
         == if ExplainAt(e, front).Some? then ExplainAt(ExplainAt(e, front).value, back) else None
  {
    if front == [] {
      assert front + back == back;
    } else {
      assert (front + back)[1..] == front[1..] + back;
      if e.Tree? && front[0] in e.children {
        ExplainAtConcat(e.children[front[0]], front[1..], back);
      }
    }
  }

  /** `nodes` leads from `v` along the keys, one map entry at a time. */
  ghost predicate Descends(v: Value, keys: seq<string>, nodes: seq<Value>) {
    && |nodes| == |keys| + 1 && nodes[0] == v
    && forall i | 0 <= i < |keys| ::
         nodes[i].Map? && keys[i] in nodes[i].entries && nodes[i + 1] == nodes[i].entries[keys[i]]
  }

  ghost predicate ExplainDescends(e: Explain, keys: seq<string>, nodes: seq<Explain>) {
    && |nodes| == |keys| + 1 && nodes[0] == e
    && forall i | 0 <= i < |keys| ::
         nodes[i].Tree? && keys[i] in nodes[i].children && nodes[i + 1] == nodes[i].children[keys[i]]
  }

  /** The node at a key path is the end of the descent along it, and there is none exactly when some key is missing. */
  lemma {:induction false} AtIsDescent(v: Value, keys: seq<string>)
    ensures At(v, keys).Some? <==> exists nodes :: Descends(v, keys, nodes)
    ensures forall nodes | Descends(v, keys, nodes) :: At(v, keys) == Some(nodes[|keys|])
  {
    if keys == [] {
      assert Descends(v, keys, [v]);
    } else {
      if v.Map? && keys[0] in v.entries {
        var child := v.entries[keys[0]];
        AtIsDescent(child, keys[1..]);
        if nodes :| Descends(child, keys[1..], nodes) { assert Descends(v, keys, [v] + nodes); }
      }
      forall nodes | Descends(v, keys, nodes) ensures At(v, keys) == Some(nodes[|keys|]) {
        assert nodes[1] == v.entries[keys[0]];
        assert Descends(nodes[1], keys[1..], nodes[1..]);
      }
    }
  }

  lemma {:induction false} ExplainAtIsDescent(e: Explain, keys: seq<string>)
    ensures ExplainAt(e, keys).Some? <==> exists nodes :: ExplainDescends(e, keys, nodes)
    ensures forall nodes | ExplainDescends(e, keys, nodes) :: ExplainAt(e, keys) == Some(nodes[|keys|])
  {
    if keys == [] {
      assert ExplainDescends(e, keys, [e]);
    } else {
      if e.Tree? && keys[0] in e.children {
        var child := e.children[keys[0]];
        ExplainAtIsDescent(child, keys[1..]);
        if nodes :| ExplainDescends(child, keys[1..], nodes) { assert ExplainDescends(e, keys, [e] + nodes); }
      }
      forall nodes | ExplainDescends(e, keys, nodes) ensures ExplainAt(e, keys) == Some(nodes[|keys|]) {
        assert nodes[1] == e.children[keys[0]];
        assert ExplainDescends(nodes[1], keys[1..], nodes[1..]);
      }
    }
  }
}
