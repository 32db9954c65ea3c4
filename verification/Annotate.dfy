/** internal/cli/annotate.go: the config tree printed with, after every leaf, a comment naming its layer. */
module Annotate {
  import opened Values
  import opened Recipe
  import opened Layers
  import opened Text

  /** `yaml.Marshal` of a scalar, and `fmt.Sprint` of whatever is neither a string nor nil: left uninterpreted. */
  datatype Formats = Formats(scalar: Value -> string, sprint: Explain -> string)

  function Pad(indent: nat): string {
    if indent == 0 then "" else "  " + Pad(indent - 1)
  }

  function Sprint(e: Explain, formats: Formats): string {
    match e
    case JsonText(text) => text
    case Absent => "<nil>"
    case _ => formats.sprint(e)
  }

  /** The layer and source an explain node stands for: a Provenance, or the map one decodes into. */
  function AsProvenance(e: Explain, formats: Formats): Option<Provenance> {
    match e
    case Leaf(p) => Some(p)
    case Tree(m) =>
      if !ChildExplain(m, "layer").JsonText? then None
      else
        var source := ChildExplain(m, "source");
        Some(Provenance(m["layer"].text,
          if source.Tree? then
            var sm := source.children;
            Some(Source(Sprint(ChildExplain(sm, "repo"), formats),
                        Sprint(ChildExplain(sm, "path"), formats),
                        Sprint(ChildExplain(sm, "ref"), formats)))
          else None))
    case _ => None
  }

  /** What one Fprintln or Fprintf of the walk prints: a map's key, a list's header, a scalar or a list item. */
  datatype Line =
    | KeyLine(indent: nat, key: string)
    | HeaderLine(indent: nat, key: string, origin: Option<Provenance>)
    | ScalarLine(indent: nat, key: string, value: Value, origin: Option<Provenance>)
    | ItemLine(indent: nat, value: Value)

  function Comment(origin: Option<Provenance>): string {
    match origin
    case None => ""
    case Some(Provenance(layer, None)) => "  # " + layer
    case Some(Provenance(layer, Some(s))) => "  # " + layer + " (" + s.repo + "@" + s.ref + ":" + s.path + ")"
  }

  function LineText(line: Line, formats: Formats): string {
    match line
    case KeyLine(indent, key) => Pad(indent) + key + ":\n"
    case HeaderLine(indent, key, origin) => Pad(indent) + key + ":" + Comment(origin) + "\n"
    case ScalarLine(indent, key, v, origin) =>
      Pad(indent) + (if key == "" then "" else key + ": ") + formats.scalar(v) + Comment(origin) + "\n"
    case ItemLine(indent, v) => Pad(indent) + "  - " + formats.scalar(v) + "\n"
  }

  function TextOf(lines: seq<Line>, formats: Formats): string {
    if lines == [] then "" else TextOf(lines[..|lines| - 1], formats) + LineText(lines[|lines| - 1], formats)
  }

  /** strings.Builder, kept as the lines printed to it. */
  class Builder {
    var lines: seq<Line>

    constructor ()
      ensures lines == []
    {
      lines := [];
    }

    method Print(line: Line)
      modifies this
      ensures lines == old(lines) + [line]
    {
      lines := lines + [line];
    }
  }

  function KeyLines(key: string, indent: nat): seq<Line> {
    if key == "" then [] else [KeyLine(indent, key)]
  }

  function Inner(key: string, indent: nat): nat {
    if key == "" then indent else indent + 1
  }

  function ItemLines(items: seq<Value>, indent: nat): seq<Line> {
    seq(|items|, i requires 0 <= i < |items| => ItemLine(indent, items[i]))
  }

  /** The lines `writeAnnotated` adds for a node. */
  ghost function Lines(key: string, cfg: Value, explain: Explain, indent: nat, formats: Formats): seq<Line>
    decreases cfg
  {
    match cfg
    case Map(m) =>
      var ks := KeyOrder(m.Keys);
      KeyLines(key, indent) + LinesOfKeys(ks, |ks|, cfg, ChildrenOf(explain), Inner(key, indent), formats)
    case List(items) => [HeaderLine(indent, key, AsProvenance(explain, formats))] + ItemLines(items, indent)
    case _ => [ScalarLine(indent, key, cfg, AsProvenance(explain, formats))]
  }

  /** The lines for the first `n` of the sorted keys. */
  ghost function LinesOfKeys(ks: seq<string>, n: nat, cfg: Value, exp: map<string, Explain>, indent: nat,
                             formats: Formats): seq<Line>
    requires n <= |ks| && cfg.Map? && forall k | k in ks :: k in cfg.entries
    decreases cfg, n
  {
    if n == 0 then []
    else
      var k := ks[n - 1];
      LinesOfKeys(ks, n - 1, cfg, exp, indent, formats)
        + Lines(k, cfg.entries[k], ChildExplain(exp, k), indent, formats)
  }

  lemma Associate(s: seq<Line>, t: seq<Line>, u: seq<Line>)
    ensures (s + t) + u == s + (t + u)
  {
  }

  method WriteAnnotated(b: Builder, key: string, cfg: Value, explain: Explain, indent: nat, formats: Formats)
    modifies b
    ensures b.lines == old(b.lines) + Lines(key, cfg, explain, indent, formats)
    decreases cfg
  {
    match cfg
    case Map(m) =>
      var inner := indent;
      if key != "" {
        b.Print(KeyLine(indent, key));
        inner := indent + 1;
      }
      assert b.lines == old(b.lines) + KeyLines(key, indent) && inner == Inner(key, indent);
      var keys := InKeyOrder(m.Keys);
      WriteKeys(b, keys, cfg, ChildrenOf(explain), inner, formats);
      Associate(old(b.lines), KeyLines(key, indent),
        LinesOfKeys(keys, |keys|, cfg, ChildrenOf(explain), inner, formats));

    case List(items) =>
      var header := HeaderLine(indent, key, AsProvenance(explain, formats));
      b.Print(header);
      WriteItems(b, items, indent);
      Associate(old(b.lines), [header], ItemLines(items, indent));

    case _ =>
      b.Print(ScalarLine(indent, key, cfg, AsProvenance(explain, formats)));
  }

  /** The loop over the items of a list. */
  method WriteItems(b: Builder, items: seq<Value>, indent: nat)
    modifies b
    ensures b.lines == old(b.lines) + ItemLines(items, indent)
  {
    for i := 0 to |items|
      invariant b.lines == old(b.lines) + ItemLines(items, indent)[..i]
    {
      b.Print(ItemLine(indent, items[i]));
    }
  }

  /** The loop over the sorted keys. */
  method WriteKeys(b: Builder, keys: seq<string>, cfg: Value, exp: map<string, Explain>, indent: nat, formats: Formats)
    requires cfg.Map? && forall k | k in keys :: k in cfg.entries
    modifies b
    ensures b.lines == old(b.lines) + LinesOfKeys(keys, |keys|, cfg, exp, indent, formats)
    decreases cfg, |keys|
  {
    hide Lines, AsProvenance;
    for i := 0 to |keys|
      invariant b.lines == old(b.lines) + LinesOfKeys(keys, i, cfg, exp, indent, formats)
    {
      WriteAnnotated(b, keys[i], cfg.entries[keys[i]], ChildExplain(exp, keys[i]), indent, formats);
    }
  }

  function TrimNewlines(s: string): string {
    if s != "" && s[|s| - 1] == '\n' then TrimNewlines(s[..|s| - 1]) else s
  }

  method FormatAnnotated(cfg: Value, explain: Explain, formats: Formats) returns (r: string)
    ensures r == TrimNewlines(TextOf(Lines("", cfg, explain, 0, formats), formats))
  {
    hide Lines, TextOf;
    var b := new Builder();
    WriteAnnotated(b, "", cfg, explain, 0, formats);
    assert b.lines == Lines("", cfg, explain, 0, formats);
    r := TrimNewlines(TextOf(b.lines, formats));
  }

  // ---- both representations of provenance print alike ----

  function DecodedSource(s: Source): Explain {
    Tree(map["repo" := JsonText(s.repo), "path" := JsonText(s.path), "ref" := JsonText(s.ref)])
  }

  /** An explain tree after a trip through JSON: a Provenance comes back as a map. */
  function Decoded(e: Explain): Explain {
    match e
    case Leaf(p) =>
      Tree(match p.source
           case Some(s) => map["layer" := JsonText(p.layer), "source" := DecodedSource(s)]
           case None => map["layer" := JsonText(p.layer)])
    case Tree(m) => Tree(map k | k in m :: Decoded(m[k]))
    case _ => e
  }

  lemma DecodedProvenance(p: Provenance, formats: Formats)
    ensures AsProvenance(Decoded(Leaf(p)), formats) == Some(p)
  {
    if p.source.Some? {
      var m := Decoded(Leaf(p)).children;
      assert ChildExplain(m, "layer") == JsonText(p.layer);
      assert ChildExplain(m, "source") == DecodedSource(p.source.value);
    }
  }

  /** For a config and its explain tree, the annotated view does not depend on whether the tree came
      from a local resolution or from the central service. */
  lemma {:induction false} DecodedViewIsTheSame(key: string, cfg: Value, explain: Explain, provs: set<Provenance>,
                                                indent: nat, formats: Formats)
    requires Mirror(cfg, explain, provs)
    ensures Lines(key, cfg, Decoded(explain), indent, formats) == Lines(key, cfg, explain, indent, formats)
    decreases cfg
  {
    if cfg.Map? {
      var ks := KeyOrder(cfg.entries.Keys);
      var exp, decoded := explain.children, Decoded(explain).children;
      DecodedKeysAreTheSame(ks, |ks|, cfg, exp, decoded, provs, Inner(key, indent), formats);
    } else {
      DecodedProvenance(explain.prov, formats);
    }
  }

  lemma {:induction false} DecodedKeysAreTheSame(ks: seq<string>, n: nat, cfg: Value, exp: map<string, Explain>,
                                                 decoded: map<string, Explain>, provs: set<Provenance>, indent: nat,
                                                 formats: Formats)
    requires n <= |ks| && cfg.Map? && forall k | k in ks :: k in cfg.entries
    requires forall k | k in ks :: k in exp && k in decoded && decoded[k] == Decoded(exp[k])
    requires forall k | k in ks :: Mirror(cfg.entries[k], exp[k], provs)
    ensures LinesOfKeys(ks, n, cfg, decoded, indent, formats) == LinesOfKeys(ks, n, cfg, exp, indent, formats)
    decreases cfg, n
  {
    hide Lines, Decoded, Mirror;
    if n > 0 {
      var k := ks[n - 1];
      DecodedKeysAreTheSame(ks, n - 1, cfg, exp, decoded, provs, indent, formats);
      DecodedViewIsTheSame(k, cfg.entries[k], exp[k], provs, indent, formats);
    }
  }

  // ---- lookups in a decoded explain tree ----

  /** The paths that lead into the map a provenance decodes to. */
  predicate InProvenance(p: Provenance, keys: seq<string>) {
    || keys == ["layer"]
    || (p.source.Some? && (keys == ["source"] || keys in {["source", "repo"], ["source", "path"], ["source", "ref"]}))
  }

  lemma LookupInSource(s: Source, keys: seq<string>)
    ensures ExplainAt(DecodedSource(s), keys).Some? <==> keys in {[], ["repo"], ["path"], ["ref"]}
  {
    if |keys| == 1 {
      assert keys == [keys[0]];
    } else if |keys| > 1 {
      assert keys[1..] != [];
    }
  }

  lemma LookupInProvenance(p: Provenance, keys: seq<string>)
    requires keys != []
    ensures ExplainAt(Decoded(Leaf(p)), keys).Some? <==> InProvenance(p, keys)
  {
    assert keys == [keys[0]] + keys[1..];
    if keys[0] == "source" && p.source.Some? {
      LookupInSource(p.source.value, keys[1..]);
      assert Decoded(Leaf(p)).children["source"] == DecodedSource(p.source.value);
      assert forall name: string :: [keys[0], name] == [keys[0]] + [name];
    }
  }

  /** The first `n` keys lead to a leaf of the config, the rest into that leaf's provenance. */
  predicate OvershootsAt(v: Value, e: Explain, keys: seq<string>, n: nat)
    requires n < |keys|
  {
    IsLeaf(At(v, keys[..n])) &&
    match ExplainAt(e, keys[..n])
    case Some(Leaf(p)) => InProvenance(p, keys[n..])
    case _ => false
  }

  ghost predicate Overshoots(v: Value, e: Explain, keys: seq<string>) {
    exists n :: 0 <= n < |keys| && OvershootsAt(v, e, keys, n)
  }

  lemma OvershootsStep(v: Value, e: Explain, keys: seq<string>)
    requires keys != [] && v.Map? && e.Tree? && e.children.Keys == v.entries.Keys
    ensures Overshoots(v, e, keys) <==>
            keys[0] in v.entries && Overshoots(v.entries[keys[0]], e.children[keys[0]], keys[1..])
  {
    hide InProvenance;
    var k := keys[0];
    forall n | 0 < n < |keys|
      ensures OvershootsAt(v, e, keys, n) <==>
              k in v.entries && OvershootsAt(v.entries[k], e.children[k], keys[1..], n - 1)
    {
      assert keys[..n][0] == k && keys[..n][1..] == keys[1..][..n - 1] && keys[n..] == keys[1..][n - 1..];
    }
    assert !OvershootsAt(v, e, keys, 0);
    if k in v.entries && Overshoots(v.entries[k], e.children[k], keys[1..]) {
      var n :| 0 <= n < |keys[1..]| && OvershootsAt(v.entries[k], e.children[k], keys[1..], n);
      assert OvershootsAt(v, e, keys, n + 1);
    }
  }

  lemma OvershootsFromLeaf(v: Value, p: Provenance, keys: seq<string>)
    requires keys != [] && !v.Map?
    ensures Overshoots(v, Leaf(p), keys) <==> InProvenance(p, keys)
  {
    assert keys[..0] == [] && keys[0..] == keys;
    assert OvershootsAt(v, Leaf(p), keys, 0) <==> InProvenance(p, keys);
    assert forall n | 0 < n < |keys| :: keys[..n] != [];
  }

  /** A path of the config is always found in the decoded explain tree, at the decoded node. The decoded
      tree has further paths, namely those that go on from a leaf into its provenance. */
  lemma {:induction false} DecodedLookup(v: Value, e: Explain, provs: set<Provenance>, keys: seq<string>)
    requires Mirror(v, e, provs)
    ensures At(v, keys).Some? ==>
              ExplainAt(e, keys).Some? && ExplainAt(Decoded(e), keys) == Some(Decoded(ExplainAt(e, keys).value))
    ensures ExplainAt(Decoded(e), keys).Some? <==>
              At(v, keys).Some? || Overshoots(v, e, keys)
    decreases |keys|
  {
    if keys == [] {
    } else if v.Map? {
      OvershootsStep(v, e, keys);
      assert Decoded(e).Tree? && Decoded(e).children.Keys == v.entries.Keys;
      if keys[0] in v.entries {
        assert Decoded(e).children[keys[0]] == Decoded(e.children[keys[0]]);
        hide Overshoots, Decoded;
        DecodedLookup(v.entries[keys[0]], e.children[keys[0]], provs, keys[1..]);
      }
    } else {
      LookupInProvenance(e.prov, keys);
      OvershootsFromLeaf(v, e.prov, keys);
    }
  }

  // ---- every leaf is annotated with the layer that wrote it last ----

  /** The annotated view written without looking at an explain tree: the line of every scalar and the
      header of every list carries the provenance `author` has for its key path. */
  ghost function LinesBy(author: seq<string> -> Provenance, key: string, cfg: Value, at: seq<string>, indent: nat)
    : seq<Line>
    decreases cfg
  {
    match cfg
    case Map(m) =>
      var ks := KeyOrder(m.Keys);
      KeyLines(key, indent) + LinesOfKeysBy(author, ks, |ks|, cfg, at, Inner(key, indent))
    case List(items) => [HeaderLine(indent, key, Some(author(at)))] + ItemLines(items, indent)
    case _ => [ScalarLine(indent, key, cfg, Some(author(at)))]
  }

  ghost function LinesOfKeysBy(author: seq<string> -> Provenance, ks: seq<string>, n: nat, cfg: Value, at: seq<string>,
                               indent: nat): seq<Line>
    requires n <= |ks| && cfg.Map? && forall k | k in ks :: k in cfg.entries
    decreases cfg, n
  {
    if n == 0 then []
    else
      var k := ks[n - 1];
      LinesOfKeysBy(author, ks, n - 1, cfg, at, indent) + LinesBy(author, k, cfg.entries[k], at + [k], indent)
  }

  /** `author` names, for every leaf of the config below `at`, the provenance the explain tree has there. */
  ghost predicate Authors(author: seq<string> -> Provenance, root: Value, rootExplain: Explain) {
    forall keys | IsLeaf(At(root, keys)) :: ExplainAt(rootExplain, keys) == Some(Leaf(author(keys)))
  }

  lemma {:induction false} LinesByAuthors(author: seq<string> -> Provenance, root: Value, rootExplain: Explain,
                                              key: string, cfg: Value, explain: Explain, at: seq<string>, indent: nat,
                                              provs: set<Provenance>, formats: Formats)
    requires Authors(author, root, rootExplain) && Mirror(cfg, explain, provs)
    requires At(root, at) == Some(cfg) && ExplainAt(rootExplain, at) == Some(explain)
    ensures Lines(key, cfg, explain, indent, formats) == LinesBy(author, key, cfg, at, indent)
    decreases cfg
  {
    if cfg.Map? {
      var ks := KeyOrder(cfg.entries.Keys);
      LinesOfKeysByAuthors(author, root, rootExplain, ks, |ks|, cfg, explain, at, Inner(key, indent), provs, formats);
    } else {
      assert IsLeaf(At(root, at));
    }
  }

  lemma {:induction false} LinesOfKeysByAuthors(author: seq<string> -> Provenance, root: Value, rootExplain: Explain,
                                                ks: seq<string>, n: nat, cfg: Value, explain: Explain,
                                                at: seq<string>, indent: nat, provs: set<Provenance>, formats: Formats)
    requires Authors(author, root, rootExplain) && Mirror(cfg, explain, provs)
    requires At(root, at) == Some(cfg) && ExplainAt(rootExplain, at) == Some(explain)
    requires n <= |ks| && cfg.Map? && forall k | k in ks :: k in cfg.entries
    ensures LinesOfKeys(ks, n, cfg, explain.children, indent, formats)
         == LinesOfKeysBy(author, ks, n, cfg, at, indent)
    decreases cfg, n
  {
    hide Lines, LinesBy;
    if n > 0 {
      var k := ks[n - 1];
      LinesOfKeysByAuthors(author, root, rootExplain, ks, n - 1, cfg, explain, at, indent, provs, formats);
      AtConcat(root, at, [k]);
      ExplainAtConcat(rootExplain, at, [k]);
      assert [k][1..] == [];
      LinesByAuthors(author, root, rootExplain, k, cfg.entries[k], explain.children[k], at + [k], indent, provs,
        formats);
    }
  }

  /** The provenance of the layer that wrote the leaf at `keys` last. */
  ghost function LastAuthor(cs: seq<Contribution>, keys: seq<string>): Provenance {
    if i :| LastWrites(cs, keys, i) then cs[i].prov else Provenance("", None)
  }

  /** The annotated view of any part of a resolved recipe, local or decoded, comments every leaf with
      its last writer: wherever the config has a node, both explain trees have the matching one. */
  lemma AnnotatedViewNamesLastWriters(cs: seq<Contribution>, policy: Policy, keys: seq<string>, formats: Formats)
    requires At(ConfigOf(cs, policy), keys).Some?
    ensures ExplainAt(ExplainOf(cs, policy), keys).Some? && ExplainAt(Decoded(ExplainOf(cs, policy)), keys).Some?
    ensures var v := At(ConfigOf(cs, policy), keys).value;
            var expected := LinesBy(k => LastAuthor(cs, k), "", v, keys, 0);
            && Lines("", v, ExplainAt(ExplainOf(cs, policy), keys).value, 0, formats) == expected
            && Lines("", v, ExplainAt(Decoded(ExplainOf(cs, policy)), keys).value, 0, formats) == expected
  {
    hide Lines, LinesBy, Decoded;
    var cfg, explain, author := ConfigOf(cs, policy), ExplainOf(cs, policy), k => LastAuthor(cs, k);
    forall k | IsLeaf(At(cfg, k)) ensures ExplainAt(explain, k) == Some(Leaf(author(k))) {
      LeafHasOneWriter(cs, policy, k);
      LastWriter(cs, policy, k, author(k));
    }
    MirrorInvariant(cs, policy);
    MirrorAt(cfg, explain, ProvsOf(cs), keys);
    DecodedLookup(cfg, explain, ProvsOf(cs), keys);
    var v, e := At(cfg, keys).value, ExplainAt(explain, keys).value;
    LinesByAuthors(author, cfg, explain, "", v, e, keys, 0, ProvsOf(cs), formats);
    DecodedViewIsTheSame("", v, e, ProvsOf(cs), 0, formats);
  }
}
