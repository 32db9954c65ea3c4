/** Reading the annotated view back: what its lines and its text say about the two trees it was printed from. */
module ReadBack {
  import opened Values
  import opened Recipe
  import opened Layers
  import opened Text
  import opened Annotate

  // ---- a reader of annotated lines ----

  /** A config node with the explain node that belongs to it. */
  datatype Annotated = Annotated(value: Value, explain: Explain)

  function KeyOf(line: Line): string {
    if line.ItemLine? then "" else line.key
  }

  function Origin(origin: Option<Provenance>): Explain {
    match origin
    case None => Absent
    case Some(p) => Leaf(p)
  }

  /** A line that goes on with what a line at `indent` began: a deeper one, or an item of a list. */
  predicate Continues(line: Line, indent: nat) {
    line.indent > indent || (line.ItemLine? && line.indent == indent)
  }

  function BlockLength(lines: seq<Line>, indent: nat): (n: nat)
    ensures n <= |lines|
  {
    if lines == [] || !Continues(lines[0], indent) then 0 else 1 + BlockLength(lines[1..], indent)
  }

  function ReadItems(lines: seq<Line>, indent: nat): seq<Value> {
    if lines == [] then []
    else
      (if lines[0].ItemLine? && lines[0].indent == indent then [lines[0].value] else [])
        + ReadItems(lines[1..], indent)
  }

  /** A node from its first line and the block that goes on with it. */
  function ReadNode(line: Line, block: seq<Line>): Annotated
    decreases |block|, 1
  {
    match line
    case KeyLine(indent, _) => AsNode(ReadEntries(block, indent + 1))
    case HeaderLine(indent, _, origin) => Annotated(List(ReadItems(block, indent)), Origin(origin))
    case ScalarLine(_, _, v, origin) => Annotated(v, Origin(origin))
    case ItemLine(_, v) => Annotated(v, Absent)
  }

  /** The entries at `indent`, accepted only with keys in ascending order. */
  function ReadEntries(lines: seq<Line>, indent: nat): map<string, Annotated>
    decreases |lines|, 0
  {
    if lines == [] then map[]
    else
      var first, n := lines[0], BlockLength(lines[1..], lines[0].indent);
      var rest := ReadEntries(lines[1 + n..], indent);
      if first.indent == indent && KeyOf(first) != "" && forall k | k in rest :: Before(KeyOf(first), k)
      then rest[KeyOf(first) := ReadNode(first, lines[1..1 + n])]
      else rest
  }

  function AsNode(entries: map<string, Annotated>): Annotated {
    Annotated(Map(map k | k in entries :: entries[k].value), Tree(map k | k in entries :: entries[k].explain))
  }

  /** A whole view: entries at the margin, or a single list or scalar. */
  function Read(lines: seq<Line>): Annotated {
    if lines != [] && KeyOf(lines[0]) == "" then ReadNode(lines[0], lines[1..]) else AsNode(ReadEntries(lines, 0))
  }

  // ---- the view reads back as the trees it was printed from ----

  /** No key of a map, at any depth outside lists, is the empty string. */
  ghost predicate NoEmptyKey(v: Value) {
    v.Map? ==> "" !in v.entries && forall k | k in v.entries :: NoEmptyKey(v.entries[k])
  }

  ghost predicate DeepAndPlain(lines: seq<Line>, indent: nat) {
    forall l | l in lines :: l.indent >= indent && (l.ScalarLine? ==> !l.value.Map?)
  }

  lemma {:induction false} LinesAreDeepAndPlain(key: string, cfg: Value, explain: Explain, indent: nat,
                                                formats: Formats)
    ensures DeepAndPlain(Lines(key, cfg, explain, indent, formats), indent)
    decreases cfg
  {
    if cfg.Map? {
      var ks := KeyOrder(cfg.entries.Keys);
      KeysAreDeepAndPlain(ks, |ks|, cfg, ChildrenOf(explain), Inner(key, indent), formats);
    }
  }

  lemma {:induction false} KeysAreDeepAndPlain(ks: seq<string>, n: nat, cfg: Value, exp: map<string, Explain>,
                                               indent: nat, formats: Formats)
    requires n <= |ks| && cfg.Map? && forall k | k in ks :: k in cfg.entries
    ensures DeepAndPlain(LinesOfKeys(ks, n, cfg, exp, indent, formats), indent)
    decreases cfg, n
  {
    hide Lines;
    if n > 0 {
      var k := ks[n - 1];
      KeysAreDeepAndPlain(ks, n - 1, cfg, exp, indent, formats);
      LinesAreDeepAndPlain(k, cfg.entries[k], ChildExplain(exp, k), indent, formats);
    }
  }

  /** The first line of a node has its key, if it has one, and is no item. */
  lemma {:induction false} FirstOfNode(key: string, cfg: Value, explain: Explain, indent: nat, formats: Formats)
    ensures var lines := Lines(key, cfg, explain, indent, formats);
            && (key != "" ==> lines != [] && lines[0].key == key)
            && (lines != [] ==> !lines[0].ItemLine?)
    decreases cfg
  {
    if cfg.Map? && key == "" {
      var ks := KeyOrder(cfg.entries.Keys);
      FirstOfKeys(ks, |ks|, cfg, ChildrenOf(explain), indent, formats);
    }
  }

  lemma {:induction false} FirstOfKeys(ks: seq<string>, n: nat, cfg: Value, exp: map<string, Explain>, indent: nat,
                                       formats: Formats)
    requires n <= |ks| && cfg.Map? && forall k | k in ks :: k in cfg.entries
    ensures var lines := LinesOfKeys(ks, n, cfg, exp, indent, formats);
            lines != [] ==> !lines[0].ItemLine? && ("" !in ks ==> KeyOf(lines[0]) != "")
    decreases cfg, n
  {
    hide Lines;
    if n > 0 {
      var k := ks[n - 1];
      FirstOfKeys(ks, n - 1, cfg, exp, indent, formats);
      FirstOfNode(k, cfg.entries[k], ChildExplain(exp, k), indent, formats);
    }
  }

  lemma {:induction false} BlockEnds(block: seq<Line>, tail: seq<Line>, indent: nat)
    requires forall l | l in block :: Continues(l, indent)
    requires tail != [] ==> !Continues(tail[0], indent)
    ensures BlockLength(block + tail, indent) == |block|
  {
    if block == [] {
      assert block + tail == tail;
    } else {
      assert (block + tail)[1..] == block[1..] + tail;
      BlockEnds(block[1..], tail, indent);
    }
  }

  lemma {:induction false} ItemsRead(items: seq<Value>, indent: nat)
    ensures ReadItems(ItemLines(items, indent), indent) == items
  {
    if items != [] {
      ItemsRead(items[1..], indent);
      assert ItemLines(items, indent)[1..] == ItemLines(items[1..], indent);
    }
  }

  /** The lines of an entry: a first line with its key and indent, a block, and the node they read as. */
  ghost predicate ReadsAs(lines: seq<Line>, key: string, indent: nat, node: Annotated) {
    && lines != [] && !lines[0].ItemLine? && lines[0].key == key && lines[0].indent == indent
    && (forall l | l in lines[1..] :: Continues(l, indent))
    && ReadNode(lines[0], lines[1..]) == node
  }

  lemma LeafHasNoEmptyKey(v: Value)
    ensures !v.Map? ==> NoEmptyKey(v)
  {
  }

  lemma {:induction false} EntryReads(key: string, cfg: Value, explain: Explain, provs: set<Provenance>, indent: nat,
                                      formats: Formats)
    requires Mirror(cfg, explain, provs) && NoEmptyKey(cfg) && (key != "" || !cfg.Map?)
    ensures ReadsAs(Lines(key, cfg, explain, indent, formats), key, indent, Annotated(cfg, explain))
    decreases cfg, 3, 0
  {
    var lines := Lines(key, cfg, explain, indent, formats);
    if cfg.Map? {
      MapReads(key, cfg, explain, provs, indent, formats);
    } else if cfg.List? {
      assert lines[1..] == ItemLines(cfg.items, indent);
      ItemsRead(cfg.items, indent);
    } else {
      assert lines[1..] == [];
    }
  }

  lemma {:induction false} MapReads(key: string, cfg: Value, explain: Explain, provs: set<Provenance>, indent: nat,
                                    formats: Formats)
    requires Mirror(cfg, explain, provs) && NoEmptyKey(cfg) && cfg.Map? && key != ""
    ensures ReadsAs(Lines(key, cfg, explain, indent, formats), key, indent, Annotated(cfg, explain))
    decreases cfg, 2, 0
  {
    hide Lines, LinesOfKeys, NoEmptyKey, ReadEntries, AsNode;
    var ks := KeyOrder(cfg.entries.Keys);
    var block := LinesOfKeys(ks, |ks|, cfg, explain.children, indent + 1, formats);
    hide Mirror;
    MapLines(key, cfg, explain, indent, formats);
    KeysAreDeepAndPlain(ks, |ks|, cfg, explain.children, indent + 1, formats);
    AllEntriesRead(cfg, explain, provs, indent + 1, formats);
    assert ([KeyLine(indent, key)] + block)[1..] == block;
  }

  lemma MapLines(key: string, cfg: Value, explain: Explain, indent: nat, formats: Formats)
    requires cfg.Map? && explain.Tree? && key != ""
    ensures var ks := KeyOrder(cfg.entries.Keys);
            Lines(key, cfg, explain, indent, formats) ==
            [KeyLine(indent, key)] + LinesOfKeys(ks, |ks|, cfg, explain.children, indent + 1, formats)
  {
    hide LinesOfKeys;
  }

  /** The lines of all entries of a map, at the indent of its keys. */
  lemma {:induction false} AllEntriesRead(cfg: Value, explain: Explain, provs: set<Provenance>, indent: nat,
                                          formats: Formats)
    requires Mirror(cfg, explain, provs) && NoEmptyKey(cfg) && cfg.Map?
    ensures var ks := KeyOrder(cfg.entries.Keys);
            AsNode(ReadEntries(LinesOfKeys(ks, |ks|, cfg, explain.children, indent, formats), indent))
              == Annotated(cfg, explain)
    decreases cfg, 1, 0
  {
    hide Lines, LinesOfKeys, NoEmptyKey, ReadEntries, AsNode, Extends;
    var ks := KeyOrder(cfg.entries.Keys);
    var lines := LinesOfKeys(ks, |ks|, cfg, explain.children, indent, formats);
    assert explain.children.Keys == cfg.entries.Keys;
    hide Mirror;
    NothingReads(indent);
    EntriesRead(ks, |ks|, cfg, explain, provs, indent, formats, []);
    assert lines + [] == lines;
    NodeOfAll(ReadEntries(lines, indent), ks, cfg, explain);
  }

  lemma NothingReads(indent: nat)
    ensures ReadEntries([], indent) == map[]
  {
  }

  lemma NodeOfAll(es: map<string, Annotated>, ks: seq<string>, cfg: Value, explain: Explain)
    requires cfg.Map? && explain.Tree? && explain.children.Keys == cfg.entries.Keys
    requires ListsInOrder(ks, cfg.entries.Keys) && Extends(es, map[], ks, |ks|, cfg, explain)
    ensures AsNode(es) == Annotated(cfg, explain)
  {
    assert ks[..|ks|] == ks;
    forall k | k in es ensures es[k] == Annotated(cfg.entries[k], explain.children[k]) {
      var i :| 0 <= i < |ks| && ks[i] == k;
    }
    SameMap(map k | k in es :: es[k].value, cfg.entries);
    SameMap(map k | k in es :: es[k].explain, explain.children);
  }

  lemma EntryOf(cfg: Value, explain: Explain, provs: set<Provenance>, k: string)
    requires Mirror(cfg, explain, provs) && NoEmptyKey(cfg) && cfg.Map? && k in cfg.entries
    ensures k != "" && explain.Tree? && k in explain.children
    ensures Mirror(cfg.entries[k], explain.children[k], provs) && NoEmptyKey(cfg.entries[k])
  {
  }

  /** `es` is `t` and the first `n` nodes under their keys. */
  ghost predicate Extends(es: map<string, Annotated>, t: map<string, Annotated>, ks: seq<string>, n: nat, cfg: Value,
                          explain: Explain)
    requires n <= |ks| && cfg.Map? && explain.Tree?
    requires forall k | k in ks :: k in cfg.entries && k in explain.children
  {
    && (forall k :: k in es <==> k in t || k in ks[..n])
    && (forall i | 0 <= i < n :: es[ks[i]] == Annotated(cfg.entries[ks[i]], explain.children[ks[i]]))
    && (forall k | k in t :: es[k] == t[k])
  }

  lemma ExtendsMore(es: map<string, Annotated>, t: map<string, Annotated>, ks: seq<string>, n: nat, cfg: Value,
                    explain: Explain)
    requires 0 < n <= |ks| && cfg.Map? && explain.Tree?
    requires forall k | k in ks :: k in cfg.entries && k in explain.children
    requires var k := ks[n - 1];
             k !in t && Extends(es, t[k := Annotated(cfg.entries[k], explain.children[k])], ks, n - 1, cfg, explain)
    ensures Extends(es, t, ks, n, cfg, explain)
  {
    var k := ks[n - 1];
    assert ks[..n] == ks[..n - 1] + [k];
    assert k in t[k := Annotated(cfg.entries[k], explain.children[k])];
  }

  /** The lines of the first `n` entries before a tail of further ones. */
  lemma {:induction false} EntriesRead(ks: seq<string>, n: nat, cfg: Value, explain: Explain, provs: set<Provenance>,
                                       indent: nat, formats: Formats, tail: seq<Line>)
    requires Mirror(cfg, explain, provs) && NoEmptyKey(cfg) && cfg.Map? && explain.Tree? && Ascending(ks) && n <= |ks|
    requires forall k | k in ks :: k in cfg.entries && k in explain.children
    requires tail != [] ==> tail[0].indent == indent && !tail[0].ItemLine?
    requires forall k, i | k in ReadEntries(tail, indent) && 0 <= i < n :: Before(ks[i], k)
    ensures Extends(ReadEntries(LinesOfKeys(ks, n, cfg, explain.children, indent, formats) + tail, indent),
                    ReadEntries(tail, indent), ks, n, cfg, explain)
    decreases cfg, 0, n
  {
    hide Mirror, NoEmptyKey, ReadEntries, ReadNode, Continues, Lines, Extends, Before, Ascending;
    if n == 0 {
      assert [] + tail == tail;
      ExtendsNothing(ReadEntries(tail, indent), ks, cfg, explain);
    } else {
      var k := ks[n - 1];
      EntryOf(cfg, explain, provs, k);
      var v, e := cfg.entries[k], explain.children[k];
      var before := LinesOfKeys(ks, n - 1, cfg, explain.children, indent, formats);
      var here := Lines(k, v, e, indent, formats);
      EntryReads(k, v, e, provs, indent, formats);
      assert LinesOfKeys(ks, n, cfg, explain.children, indent, formats) == before + here;
      hide LinesOfKeys;
      assert before + here + tail == before + (here + tail);
      EntryBeforeTail(here, k, indent, Annotated(v, e), tail);
      assert (here + tail)[0] == here[0];
      hide ReadsAs;
      EarlierKeys(ks, n, ReadEntries(tail, indent));
      EntriesRead(ks, n - 1, cfg, explain, provs, indent, formats, here + tail);
      ExtendsMore(ReadEntries(before + (here + tail), indent), ReadEntries(tail, indent), ks, n, cfg, explain);
    }
  }

  lemma ExtendsNothing(t: map<string, Annotated>, ks: seq<string>, cfg: Value, explain: Explain)
    requires cfg.Map? && explain.Tree? && forall k | k in ks :: k in cfg.entries && k in explain.children
    ensures Extends(t, t, ks, 0, cfg, explain)
  {
  }

  lemma EarlierKeys(ks: seq<string>, n: nat, t: map<string, Annotated>)
    requires 0 < n <= |ks| && Ascending(ks)
    requires forall k, i | k in t && 0 <= i < n :: Before(ks[i], k)
    ensures ks[n - 1] !in t && forall i | 0 <= i < n - 1 :: Before(ks[i], ks[n - 1])
  {
    BeforeTotal(ks[n - 1], ks[n - 1]);
    hide Before;
  }

  lemma EntryBeforeTail(lines: seq<Line>, key: string, indent: nat, node: Annotated, tail: seq<Line>)
    requires ReadsAs(lines, key, indent, node) && key != ""
    requires tail != [] ==> tail[0].indent == indent && !tail[0].ItemLine?
    requires forall k | k in ReadEntries(tail, indent) :: Before(key, k)
    ensures ReadEntries(lines + tail, indent) == ReadEntries(tail, indent)[key := node]
  {
    BlockEnds(lines[1..], tail, indent);
    var all := lines + tail;
    assert all[1..] == lines[1..] + tail;
    assert all[1..|lines|] == lines[1..] && all[|lines|..] == tail;
  }

  /** Whatever is read has no empty keys. */
  lemma {:induction false} NodeHasNoEmptyKey(line: Line, block: seq<Line>)
    requires DeepAndPlain([line] + block, 0) && !line.ItemLine?
    ensures NoEmptyKey(ReadNode(line, block).value)
    decreases |block|, 1
  {
    assert line in [line] + block && forall l | l in block :: l in [line] + block;
    if line.KeyLine? {
      EntriesHaveNoEmptyKey(block, line.indent + 1);
    }
  }

  lemma {:induction false} EntriesHaveNoEmptyKey(lines: seq<Line>, indent: nat)
    requires DeepAndPlain(lines, 0)
    ensures forall k | k in ReadEntries(lines, indent) :: k != "" && NoEmptyKey(ReadEntries(lines, indent)[k].value)
    decreases |lines|, 0
  {
    hide ReadNode, BlockLength, Before, NoEmptyKey;
    if lines != [] {
      var n := BlockLength(lines[1..], lines[0].indent);
      assert forall l | l in lines[1 + n..] :: l in lines;
      EntriesHaveNoEmptyKey(lines[1 + n..], indent);
      if KeyOf(lines[0]) != "" {
        assert forall l | l in [lines[0]] + lines[1..1 + n] :: l in lines;
        NodeHasNoEmptyKey(lines[0], lines[1..1 + n]);
      }
    }
  }

  /** The annotated view folds a config and its explain tree into one, and reads back as these two,
      exactly when no key of the config is empty. */
  lemma ViewReadsBack(cfg: Value, explain: Explain, provs: set<Provenance>, formats: Formats)
    requires Mirror(cfg, explain, provs)
    ensures Read(Lines("", cfg, explain, 0, formats)) == Annotated(cfg, explain) <==> NoEmptyKey(cfg)
  {
    hide Lines, Mirror, NoEmptyKey, ReadNode, ReadEntries, AsNode;
    if !cfg.Map? {
      EntryReads("", cfg, explain, provs, 0, formats);
      LeafHasNoEmptyKey(cfg);
    } else if NoEmptyKey(cfg) {
      MapViewReadsBack(cfg, explain, provs, formats);
    } else {
      ReadHasNoEmptyKey(cfg, explain, formats);
    }
  }

  lemma MapViewReadsBack(cfg: Value, explain: Explain, provs: set<Provenance>, formats: Formats)
    requires Mirror(cfg, explain, provs) && cfg.Map? && NoEmptyKey(cfg)
    ensures Read(Lines("", cfg, explain, 0, formats)) == Annotated(cfg, explain)
  {
    var ks := KeyOrder(cfg.entries.Keys);
    var lines := LinesOfKeys(ks, |ks|, cfg, explain.children, 0, formats);
    assert Lines("", cfg, explain, 0, formats) == lines by { hide LinesOfKeys, Mirror, NoEmptyKey; }
    FirstOfKeys(ks, |ks|, cfg, explain.children, 0, formats);
    assert "" !in ks;
    AllEntriesRead(cfg, explain, provs, 0, formats);
    hide Lines, LinesOfKeys, Mirror, NoEmptyKey, ReadNode, ReadEntries, AsNode;
  }

  lemma ReadHasNoEmptyKey(cfg: Value, explain: Explain, formats: Formats)
    ensures NoEmptyKey(Read(Lines("", cfg, explain, 0, formats)).value)
  {
    var lines := Lines("", cfg, explain, 0, formats);
    LinesAreDeepAndPlain("", cfg, explain, 0, formats);
    FirstOfNode("", cfg, explain, 0, formats);
    hide Lines, ReadNode, ReadEntries;
    if lines != [] && KeyOf(lines[0]) == "" {
      assert [lines[0]] + lines[1..] == lines;
      NodeHasNoEmptyKey(lines[0], lines[1..]);
    } else {
      EntriesHaveNoEmptyKey(lines, 0);
    }
  }

  /** The same for any part of a resolved recipe, from the local and from the decoded explain tree. */
  lemma ResolvedViewReadsBack(cs: seq<Contribution>, policy: Policy, keys: seq<string>, formats: Formats)
    requires At(ConfigOf(cs, policy), keys).Some?
    ensures ExplainAt(ExplainOf(cs, policy), keys).Some? && ExplainAt(Decoded(ExplainOf(cs, policy)), keys).Some?
    ensures var v := At(ConfigOf(cs, policy), keys).value;
            var local := ExplainAt(ExplainOf(cs, policy), keys).value;
            var decoded := ExplainAt(Decoded(ExplainOf(cs, policy)), keys).value;
            && (Read(Lines("", v, local, 0, formats)) == Annotated(v, local) <==> NoEmptyKey(v))
            && (Read(Lines("", v, decoded, 0, formats)) == Annotated(v, local) <==> NoEmptyKey(v))
  {
    hide Lines, Decoded, Read, NoEmptyKey;
    var cfg, explain := ConfigOf(cs, policy), ExplainOf(cs, policy);
    MirrorInvariant(cs, policy);
    MirrorAt(cfg, explain, ProvsOf(cs), keys);
    DecodedLookup(cfg, explain, ProvsOf(cs), keys);
    var v, e := At(cfg, keys).value, ExplainAt(explain, keys).value;
    ViewReadsBack(v, e, ProvsOf(cs), formats);
    DecodedViewIsTheSame("", v, e, ProvsOf(cs), 0, formats);
  }

  /** A map under an empty key is printed as if its entries stood in its place. */
  lemma EmptyKeyLeavesNoTrace(m: map<string, Value>, children: map<string, Explain>, formats: Formats)
    ensures Lines("", Map(map["" := Map(m)]), Tree(map["" := Tree(children)]), 0, formats)
         == Lines("", Map(m), Tree(children), 0, formats)
  {
    var outer, ks := Map(map["" := Map(m)]), [""];
    assert outer.entries.Keys == {""};
    ListingIsUnique(KeyOrder({""}), ks, {""});
    assert LinesOfKeys(ks, 0, outer, map["" := Tree(children)], 0, formats) == [];
    assert LinesOfKeys(ks, 1, outer, map["" := Tree(children)], 0, formats)
        == [] + Lines("", Map(m), Tree(children), 0, formats);
  }

  // ---- provenance and comments ----

  /** Only a Provenance, or a map with a text under "layer", gives a comment; a field missing from a
      decoded source shows as <nil>. */
  lemma ProvenanceFound(e: Explain, formats: Formats)
    ensures AsProvenance(e, formats).Some? <==>
            e.Leaf? || (e.Tree? && "layer" in e.children && e.children["layer"].JsonText?)
    ensures e.Leaf? ==> AsProvenance(e, formats) == Some(e.prov)
    ensures e.Tree? && AsProvenance(e, formats).Some? ==>
              var p := AsProvenance(e, formats).value;
              && p.layer == e.children["layer"].text
              && (p.source.Some? <==> "source" in e.children && e.children["source"].Tree?)
              && (p.source.Some? ==>
                    var fields := e.children["source"].children;
                    && ("repo" !in fields ==> p.source.value.repo == "<nil>")
                    && ("path" !in fields ==> p.source.value.path == "<nil>")
                    && ("ref" !in fields ==> p.source.value.ref == "<nil>"))
  {
  }

  function CutAtFirst(s: string, sep: char): Option<(string, string)> {
    if s == "" then None
    else if s[0] == sep then Some(("", s[1..]))
    else match CutAtFirst(s[1..], sep)
         case None => None
         case Some((front, back)) => Some(([s[0]] + front, back))
  }

  function CutAtLast(s: string, sep: char): Option<(string, string)> {
    if s == "" then None
    else
      var n := |s| - 1;
      if s[n] == sep then Some((s[..n], ""))
      else match CutAtLast(s[..n], sep)
           case None => None
           case Some((front, back)) => Some((front, back + [s[n]]))
  }

  lemma {:induction false} FirstCut(front: string, sep: char, back: string)
    requires sep !in front
    ensures CutAtFirst(front + [sep] + back, sep) == Some((front, back))
    ensures CutAtFirst(front, sep) == None
  {
    var s := front + [sep] + back;
    if front == "" {
      assert s[1..] == back;
    } else {
      assert s[1..] == front[1..] + [sep] + back;
      FirstCut(front[1..], sep, back);
      assert front == [front[0]] + front[1..];
    }
  }

  lemma {:induction false} LastCut(front: string, sep: char, back: string)
    requires sep !in back
    ensures CutAtLast(front + [sep] + back, sep) == Some((front, back))
  {
    var s, n := front + [sep] + back, |back| - 1;
    if back == "" {
      assert s[..|s| - 1] == front;
    } else {
      assert s[..|s| - 1] == front + [sep] + back[..n];
      LastCut(front, sep, back[..n]);
      assert back == back[..n] + [back[n]];
    }
  }

  /** Reads `  # layer` or `  # layer (repo@ref:path)`. */
  function ReadComment(s: string): Option<Provenance> {
    if |s| < 4 then None
    else
      match CutAtFirst(s[4..], '(')
      case None => Some(Provenance(s[4..], None))
      case Some((layer, rest)) =>
        if layer == "" || rest == "" then None
        else
          match CutAtLast(rest[..|rest| - 1], '@')
          case None => None
          case Some((repo, refAndPath)) =>
            match CutAtFirst(refAndPath, ':')
            case None => None
            case Some((ref, path)) => Some(Provenance(layer[..|layer| - 1], Some(Source(repo, path, ref))))
  }

  /** The layer's name has no opening parenthesis, and '@' and ':' are where they belong. */
  predicate Legible(p: Provenance) {
    && '(' !in p.layer
    && (p.source.Some? ==>
          '@' !in p.source.value.ref && ':' !in p.source.value.ref && '@' !in p.source.value.path)
  }

  /** A comment reads back as the provenance it was printed for, unless a name in it contains what the
      reader looks for. The repository may contain anything. */
  lemma CommentReadsBack(p: Provenance)
    requires Legible(p)
    ensures ReadComment(Comment(Some(p))) == Some(p)
    ensures Comment(None) == ""
  {
    var s := Comment(Some(p));
    if p.source == None {
      assert s[4..] == p.layer;
      FirstCut(p.layer, '(', "");
    } else {
      var src := p.source.value;
      var layer, refAndPath := p.layer + " ", src.ref + [':'] + src.path;
      var inner := src.repo + ['@'] + refAndPath;
      assert s[4..] == layer + ['('] + (inner + ")");
      assert (inner + ")")[..|inner|] == inner && layer[..|p.layer|] == p.layer;
      FirstCut(layer, '(', inner + ")");
      LastCut(src.repo, '@', refAndPath);
      FirstCut(src.ref, ':', src.path);
    }
  }

  // ---- the text of the lines ----

  /** A line's text without its final newline. */
  function Shown(line: Line, formats: Formats): string {
    var t := LineText(line, formats);
    t[..|t| - 1]
  }

  /** Nothing that is printed contains a newline, and the last line shows something. */
  ghost predicate OneLiners(lines: seq<Line>, formats: Formats) {
    && lines != []
    && (forall l | l in lines :: '\n' !in Shown(l, formats))
    && Shown(lines[|lines| - 1], formats) != ""
  }

  function ShownLines(lines: seq<Line>, formats: Formats): seq<string> {
    seq(|lines|, i requires 0 <= i < |lines| => Shown(lines[i], formats))
  }

  lemma ShownMore(lines: seq<Line>, formats: Formats)
    requires lines != []
    ensures var n := |lines| - 1;
            ShownLines(lines, formats) == ShownLines(lines[..n], formats) + [Shown(lines[n], formats)]
  {
    hide Shown;
  }

  lemma {:induction false} JoinMore(parts: seq<string>, last: string, sep: char)
    requires |parts| > 0
    ensures Join(parts + [last], sep) == Join(parts, sep) + [sep] + last
  {
    if |parts| > 1 {
      JoinMore(parts[1..], last, sep);
      assert (parts + [last])[1..] == parts[1..] + [last];
    } else {
      assert (parts + [last])[1..] == [last];
    }
  }

  lemma ShownIsAllButNewline(line: Line, formats: Formats)
    ensures LineText(line, formats) == Shown(line, formats) + "\n"
  {
  }

  lemma {:induction false} TextIsJoined(lines: seq<Line>, formats: Formats)
    requires lines != []
    ensures TextOf(lines, formats) == Join(ShownLines(lines, formats), '\n') + "\n"
  {
    var n := |lines| - 1;
    ShownIsAllButNewline(lines[n], formats);
    ShownMore(lines, formats);
    hide Shown, LineText;
    if n == 0 {
      assert TextOf(lines[..0], formats) == "";
    } else {
      TextIsJoined(lines[..n], formats);
      JoinMore(ShownLines(lines[..n], formats), Shown(lines[n], formats), '\n');
    }
  }

  lemma {:induction false} LastOfJoined(parts: seq<string>, sep: char)
    requires |parts| > 0 && parts[|parts| - 1] != ""
    ensures Join(parts, sep) != ""
    ensures var j, last := Join(parts, sep), parts[|parts| - 1]; j[|j| - 1] == last[|last| - 1]
  {
    if |parts| > 1 {
      LastOfJoined(parts[1..], sep);
    }
  }

  /** Splitting the annotated text gives the lines in order. */
  lemma TextSplitsIntoLines(lines: seq<Line>, formats: Formats)
    requires OneLiners(lines, formats)
    ensures Split(TrimNewlines(TextOf(lines, formats)), '\n') == ShownLines(lines, formats)
  {
    hide Shown, ShownLines, TextOf, TrimNewlines, Join, Split;
    var shown := ShownLines(lines, formats);
    ShownParts(lines, formats);
    TextIsJoined(lines, formats);
    LastOfJoined(shown, '\n');
    TrimOne(Join(shown, '\n'));
    SplitJoin(shown, '\n');
  }

  lemma ShownParts(lines: seq<Line>, formats: Formats)
    requires OneLiners(lines, formats)
    ensures var shown := ShownLines(lines, formats);
            && |shown| == |lines| && Free(shown, '\n')
            && var last := shown[|shown| - 1];
               last != "" && last[|last| - 1] != '\n'
  {
    hide Shown;
    var shown, n := ShownLines(lines, formats), |lines| - 1;
    forall p | p in shown ensures '\n' !in p {
      var i :| 0 <= i < |shown| && shown[i] == p;
      assert lines[i] in lines && p == Shown(lines[i], formats);
    }
    var last := Shown(lines[n], formats);
    assert shown[n] == last && last[|last| - 1] in last && lines[n] in lines;
  }

  lemma TrimOne(s: string)
    requires s != "" && s[|s| - 1] != '\n'
    ensures TrimNewlines(s + "\n") == s
  {
    assert (s + "\n")[..|s|] == s;
  }

  /** What a printed line shows: two spaces a level, a key, a rendered value and an origin, or a list item. */
  datatype TextLine =
    | EntryText(spaces: nat, key: string, rendered: Option<string>, origin: Option<Provenance>)
    | ItemText(spaces: nat, item: string)

  function Spaces(s: string): (n: nat)
    ensures n <= |s|
  {
    if s == "" || s[0] != ' ' then 0 else 1 + Spaces(s[1..])
  }

  lemma OneMoreSpace(s: string, n: nat)
    requires n <= |s|
    ensures Spaces(" " + s) == 1 + Spaces(s) && (" " + s)[1 + n..] == s[n..]
  {
    assert (" " + s)[1..] == s;
  }

  lemma PadIsTwoMore(indent: nat, rest: string)
    requires indent > 0
    ensures Pad(indent) + rest == " " + (" " + (Pad(indent - 1) + rest))
  {
    var shorter := Pad(indent - 1);
    assert Pad(indent) == "  " + shorter;
    hide Pad;
  }

  lemma {:induction false} PadIsSpaces(indent: nat, rest: string)
    requires rest == "" || rest[0] != ' '
    ensures var s := Pad(indent) + rest;
            Spaces(s) == 2 * indent && 2 * indent <= |s| && s[2 * indent..] == rest
  {
    if indent == 0 {
      assert Pad(indent) + rest == rest;
    } else {
      PadIsTwoMore(indent, rest);
      hide Pad, Spaces;
      PadIsSpaces(indent - 1, rest);
      var shorter := Pad(indent - 1) + rest;
      OneMoreSpace(shorter, 2 * (indent - 1));
      OneMoreSpace(" " + shorter, 2 * indent - 1);
    }
  }

  lemma {:induction false} PadOneMore(indent: nat)
    ensures Pad(indent) + "  " == Pad(indent + 1)
  {
    if indent > 0 {
      PadOneMore(indent - 1);
      assert Pad(indent) + "  " == "  " + (Pad(indent - 1) + "  ");
    }
  }

  /** The comment at the end, and what stands before it. */
  function ReadValue(s: string): (string, Option<Provenance>) {
    match CutAtFirst(s, '#')
    case None => (s, None)
    case Some((front, _)) =>
      if 2 <= |front| <= |s| then (front[..|front| - 2], ReadComment(s[|front| - 2..])) else (s, None)
  }

  function ReadLine(s: string): TextLine {
    var n := Spaces(s);
    var t := s[n..];
    if |t| >= 2 && t[0] == '-' && t[1] == ' ' then ItemText(n, t[2..])
    else
      var (front, origin) := ReadValue(t);
      match CutAtFirst(front, ':')
      case None => EntryText(n, "", Some(front), origin)
      case Some((key, after)) => EntryText(n, key, if after == "" then None else Some(after[1..]), origin)
  }

  function Meaning(line: Line, formats: Formats): TextLine {
    match line
    case KeyLine(indent, key) => EntryText(2 * indent, key, None, None)
    case HeaderLine(indent, key, origin) => EntryText(2 * indent, key, None, origin)
    case ScalarLine(indent, key, v, origin) => EntryText(2 * indent, key, Some(formats.scalar(v)), origin)
    case ItemLine(indent, v) => ItemText(2 * indent + 2, formats.scalar(v))
  }

  /** What is printed can be told apart: no comment sign in a value, no colon in a key, and nothing at the
      beginning that looks like the indent or an item. */
  predicate LegibleLine(line: Line, formats: Formats) {
    match line
    case KeyLine(_, key) => LegibleKey(key)
    case HeaderLine(_, key, origin) => LegibleKey(key) && (origin.Some? ==> Legible(origin.value))
    case ScalarLine(_, key, v, origin) =>
      && (if key == "" then formats.scalar(v) != "" && LegibleKey(formats.scalar(v)) else LegibleKey(key))
      && '#' !in formats.scalar(v)
      && (origin.Some? ==> Legible(origin.value))
    case ItemLine(_, _) => true
  }

  predicate LegibleKey(key: string) {
    key != "" ==> key[0] != ' ' && key[0] != '-' && ':' !in key && '#' !in key
  }

  lemma ValueReadsBack(rendered: string, origin: Option<Provenance>)
    requires '#' !in rendered && (origin.Some? ==> Legible(origin.value))
    ensures ReadValue(rendered + Comment(origin)) == (rendered, origin)
  {
    if origin == None {
      assert rendered + Comment(origin) == rendered;
      FirstCut(rendered, '#', "");
    } else {
      var comment := Comment(origin);
      CommentReadsBack(origin.value);
      CommentBegins(origin.value);
      hide Comment, ReadComment;
      var s, front := rendered + comment, rendered + "  ";
      assert s == front + ['#'] + comment[3..];
      FirstCut(front, '#', comment[3..]);
      assert s[|front| - 2..] == comment && front[..|front| - 2] == rendered;
    }
  }

  lemma CommentBegins(p: Provenance)
    ensures var c := Comment(Some(p)); |c| >= 4 && c[..3] == "  #"
  {
  }

  lemma EntryReadsBack(indent: nat, front: string, origin: Option<Provenance>)
    requires front != "" && front[0] != ' ' && front[0] != '-' && '#' !in front
    requires origin.Some? ==> Legible(origin.value)
    ensures ReadLine(Pad(indent) + (front + Comment(origin))) ==
            match CutAtFirst(front, ':')
            case None => EntryText(2 * indent, "", Some(front), origin)
            case Some((key, after)) =>
              EntryText(2 * indent, key, if after == "" then None else Some(after[1..]), origin)
  {
    PadIsSpaces(indent, front + Comment(origin));
    ValueReadsBack(front, origin);
    hide Comment, CutAtFirst, Spaces, Pad, ReadValue;
  }

  lemma ItemReadsBack(indent: nat, item: string)
    ensures ReadLine(Pad(indent) + "  - " + item) == ItemText(2 * indent + 2, item)
  {
    PadOneMore(indent);
    PadIsSpaces(indent + 1, "- " + item);
    hide Spaces, Pad;
    assert Pad(indent) + "  - " + item == Pad(indent + 1) + ("- " + item);
    assert ("- " + item)[2..] == item;
  }

  /** Each legible line reads back as what it says. */
  lemma LineReadsBack(line: Line, formats: Formats)
    requires LegibleLine(line, formats)
    ensures ReadLine(Shown(line, formats)) == Meaning(line, formats)
  {
    ShownText(line, formats);
    hide Comment, CutAtFirst, Pad, ReadLine, LineText, Shown;
    match line
    case KeyLine(indent, key) =>
      EntryReadsBack(indent, key + ":", None);
      FirstCut(key, ':', "");
      assert key + ":" + "" == key + ":";
    case HeaderLine(indent, key, origin) =>
      EntryReadsBack(indent, key + ":", origin);
      FirstCut(key, ':', "");
      assert key + ":" + "" == key + ":";
    case ScalarLine(indent, key, v, origin) =>
      if key == "" {
        EntryReadsBack(indent, formats.scalar(v), origin);
        FirstCut(formats.scalar(v), ':', "");
      } else {
        EntryReadsBack(indent, key + ": " + formats.scalar(v), origin);
        FirstCut(key, ':', " " + formats.scalar(v));
        assert key + ":" + (" " + formats.scalar(v)) == key + ": " + formats.scalar(v);
        assert (" " + formats.scalar(v))[1..] == formats.scalar(v);
      }
    case ItemLine(indent, v) =>
      ItemReadsBack(indent, formats.scalar(v));
  }

  lemma ShownText(line: Line, formats: Formats)
    ensures Shown(line, formats) ==
            match line
            case KeyLine(indent, key) => Pad(indent) + ((key + ":") + Comment(None))
            case HeaderLine(indent, key, origin) => Pad(indent) + ((key + ":") + Comment(origin))
            case ScalarLine(indent, key, v, origin) =>
              var value := formats.scalar(v);
              Pad(indent) + ((if key == "" then value else key + ": " + value) + Comment(origin))
            case ItemLine(indent, v) => Pad(indent) + "  - " + formats.scalar(v)
  {
    CommentReadsBack(Provenance("", None));
    hide Comment, Pad;
    match line
    case KeyLine(indent, key) => Regroup(Pad(indent), key, ":", "");
    case HeaderLine(indent, key, origin) => Regroup(Pad(indent), key, ":", Comment(origin));
    case ScalarLine(indent, key, v, origin) =>
      Regroup(Pad(indent), if key == "" then "" else key + ": ", formats.scalar(v), Comment(origin));
    case ItemLine(_, _) =>
  }

  lemma Regroup(s: string, t: string, u: string, v: string)
    ensures s + ((t + u) + v) == s + t + u + v
    ensures "" + u == u && s + t + u + "" == s + t + u
  {
  }

  /** The text of a view whose lines are legible and fit on one line each reads back, line by line, as what
      the lines say. */
  lemma TextReadsBack(lines: seq<Line>, formats: Formats)
    requires OneLiners(lines, formats) && forall l | l in lines :: LegibleLine(l, formats)
    ensures var texts := Split(TrimNewlines(TextOf(lines, formats)), '\n');
            |texts| == |lines| && forall i | 0 <= i < |lines| :: ReadLine(texts[i]) == Meaning(lines[i], formats)
  {
    hide ReadLine, Shown, LegibleLine, Split;
    TextSplitsIntoLines(lines, formats);
    forall i | 0 <= i < |lines| ensures ReadLine(Shown(lines[i], formats)) == Meaning(lines[i], formats) {
      LineReadsBack(lines[i], formats);
    }
  }
}
