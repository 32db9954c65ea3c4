/** resolve/convert.go: config values to Starlark values, for a dynamic layer's inputs, and back. */
module Convert {
  import opened Values

  /** A Starlark dict keeps its entries in insertion order. `OtherValue` is a tuple, a set, a function, ... */
  datatype Starlark =
    | NoneValue
    | BoolValue(b: bool)
    | StringValue(s: string)
    | IntValue(i: int)
    | FloatValue(bits: nat)
    | ListValue(items: seq<Starlark>)
    | DictValue(entries: seq<DictEntry>)
    | OtherValue(kind: string)

  datatype DictEntry = DictEntry(key: Starlark, value: Starlark)

  datatype Unsupported = UnsupportedGoType | IntOverflow | KeyNotString | UnsupportedStarlarkType

  predicate FitsInt64(i: int) {
    -0x8000_0000_0000_0000 <= i < 0x8000_0000_0000_0000
  }

  /** No Go type in `v` that the conversion does not know. */
  predicate Supported(v: Value)
    decreases v
  {
    match v
    case List(items) => forall i | 0 <= i < |items| :: Supported(items[i])
    case Map(m) => forall k | k in m :: Supported(m[k])
    case Other(_) => false
    case _ => true
  }

  /** `s` is a Starlark picture of `v`; the order of dict entries is free. */
  ghost predicate Represents(s: Starlark, v: Value)
    decreases v
  {
    match v
    case Null => s == NoneValue
    case Bool(b) => s == BoolValue(b)
    case Str(t) => s == StringValue(t)
    case Int(i) => s == IntValue(i)
    case Wide(i) => s == IntValue(i)
    case Float(bits) => s == FloatValue(bits)
    case Other(_) => false
    case List(items) =>
      s.ListValue? && |s.items| == |items| && forall i | 0 <= i < |items| :: Represents(s.items[i], items[i])
    case Map(m) =>
      && s.DictValue?
      && DistinctKeys(s.entries)
      && (forall e | e in s.entries :: e.key.StringValue? && e.key.s in m)
      && (forall k | k in m :: exists e :: e in s.entries && e.key == StringValue(k) && Represents(e.value, m[k]))
  }

  ghost predicate DistinctKeys(entries: seq<DictEntry>) {
    forall i, j | 0 <= i < j < |entries| :: entries[i].key != entries[j].key
  }

  /** A value Starlark can build: dicts have no key twice. */
  ghost predicate WellFormed(s: Starlark) {
    match s
    case ListValue(items) => forall i | 0 <= i < |items| :: WellFormed(items[i])
    case DictValue(entries) => DistinctKeys(entries) && forall e | e in entries :: WellFormed(e.value)
    case _ => true
  }

  predicate Convertible(s: Starlark) {
    match s
    case IntValue(i) => FitsInt64(i)
    case ListValue(items) => forall i | 0 <= i < |items| :: Convertible(items[i])
    case DictValue(entries) => forall e | e in entries :: e.key.StringValue? && Convertible(e.value)
    case OtherValue(_) => false
    case _ => true
  }

  /** `starlarkToGo` on a convertible value. */
  function GoValue(s: Starlark): Value
    requires Convertible(s)
    decreases s
  {
    match s
    case NoneValue => Null
    case BoolValue(b) => Bool(b)
    case StringValue(t) => Str(t)
    case IntValue(i) => Wide(i)
    case FloatValue(bits) => Float(bits)
    case ListValue(items) => List(seq(|items|, i requires 0 <= i < |items| => GoValue(items[i])))
    case DictValue(entries) => Map(GoEntries(s, |entries|))
  }

  /** The first `n` entries of a dict, later keys overwriting earlier ones. */
  function GoEntries(s: Starlark, n: nat): (m: map<string, Value>)
    requires Convertible(s) && s.DictValue? && n <= |s.entries|
    decreases s, n
  {
    if n == 0 then map[]
    else
      var e := s.entries[n - 1];
      GoEntries(s, n - 1)[e.key.s := GoValue(e.value)]
  }

  /** What is wrong with a value: its own fault, or the first one among its elements in order. */
  function Fault(s: Starlark): Option<Unsupported>
    decreases s
  {
    match s
    case IntValue(i) => if FitsInt64(i) then None else Some(IntOverflow)
    case OtherValue(_) => Some(UnsupportedStarlarkType)
    case ListValue(items) => FaultAmong(s, |items|)
    case DictValue(entries) => FaultAmong(s, |entries|)
    case _ => None
  }

  /** Element `i` of a list, or entry `i` of a dict, whose key is looked at before its value. */
  function FaultAt(s: Starlark, i: nat): Option<Unsupported>
    requires (s.ListValue? && i < |s.items|) || (s.DictValue? && i < |s.entries|)
    decreases s, i, 0
  {
    if s.ListValue? then Fault(s.items[i])
    else if !s.entries[i].key.StringValue? then Some(KeyNotString)
    else Fault(s.entries[i].value)
  }

  /** The first fault among the first `n` elements. */
  function FaultAmong(s: Starlark, n: nat): Option<Unsupported>
    requires (s.ListValue? && n <= |s.items|) || (s.DictValue? && n <= |s.entries|)
    decreases s, n
  {
    if n == 0 then None
    else
      var earlier := FaultAmong(s, n - 1);
      if earlier.Some? then earlier else FaultAt(s, n - 1)
  }

  /** A fault among the first elements is the fault of the whole. */
  lemma {:induction false} FirstFaultStays(s: Starlark, i: nat, n: nat)
    requires (s.ListValue? && n <= |s.items|) || (s.DictValue? && n <= |s.entries|)
    requires i <= n && FaultAmong(s, i).Some?
    ensures FaultAmong(s, n) == FaultAmong(s, i)
    decreases n
  {
    if i < n {
      FirstFaultStays(s, i, n - 1);
    }
  }

  /** Without a fault among the first elements each of them is without. */
  lemma {:induction false} NoFaultAmong(s: Starlark, n: nat, i: nat)
    requires (s.ListValue? && n <= |s.items|) || (s.DictValue? && n <= |s.entries|)
    requires i < n && FaultAmong(s, n) == None
    ensures FaultAt(s, i) == None
    decreases n
  {
    if i < n - 1 {
      NoFaultAmong(s, n - 1, i);
    }
  }

  /** A fault among the first elements is the fault of one of them, with no fault before it. */
  lemma {:induction false} FirstFault(s: Starlark, n: nat) returns (i: nat)
    requires (s.ListValue? && n <= |s.items|) || (s.DictValue? && n <= |s.entries|)
    requires FaultAmong(s, n).Some?
    ensures i < n && FaultAt(s, i) == FaultAmong(s, n) && FaultAmong(s, i) == None
    decreases n
  {
    if FaultAmong(s, n - 1).Some? {
      i := FirstFault(s, n - 1);
    } else {
      i := n - 1;
    }
  }

  /** Behind every reported fault there is a value that is at fault itself: an int outside int64, a dict
      with a key that is no string, or a value of an unknown type. */
  lemma {:induction false} FaultHasCulprit(s: Starlark) returns (culprit: Starlark)
    requires Fault(s).Some?
    ensures Within(culprit, s)
    ensures match Fault(s).value
            case IntOverflow => culprit.IntValue? && !(-0x8000_0000_0000_0000 <= culprit.i <= 0x7fff_ffff_ffff_ffff)
            case KeyNotString => culprit.DictValue? && exists e :: e in culprit.entries && !e.key.StringValue?
            case UnsupportedStarlarkType => culprit.OtherValue?
            case UnsupportedGoType => false
    decreases s
  {
    culprit := s;
    if s.ListValue? {
      var i := FirstFault(s, |s.items|);
      culprit := FaultHasCulprit(s.items[i]);
    } else if s.DictValue? {
      var i := FirstFault(s, |s.entries|);
      assert s.entries[i] in s.entries;
      if s.entries[i].key.StringValue? {
        culprit := FaultHasCulprit(s.entries[i].value);
      }
    }
  }

  /** `t` is `s` or somewhere inside it. */
  ghost predicate Within(t: Starlark, s: Starlark)
    decreases s
  {
    || t == s
    || (s.ListValue? && exists i :: 0 <= i < |s.items| && Within(t, s.items[i]))
    || (s.DictValue? && exists e :: e in s.entries && Within(t, e.value))
  }

  /** Exactly the convertible values are without fault. */
  lemma {:induction false} ConvertibleIsFaultless(s: Starlark)
    ensures Convertible(s) <==> Fault(s) == None
    decreases s
  {
    if s.ListValue? || s.DictValue? {
      if Fault(s) == None {
        FaultlessConverts(s);
      } else if Convertible(s) {
        var i := FirstFault(s, if s.ListValue? then |s.items| else |s.entries|);
        if s.DictValue? { assert s.entries[i] in s.entries; }
        ConvertibleIsFaultless(if s.ListValue? then s.items[i] else s.entries[i].value);
      }
    }
  }

  lemma {:induction false} FaultlessConverts(s: Starlark)
    requires (s.ListValue? || s.DictValue?) && Fault(s) == None
    ensures Convertible(s)
    decreases s, 0
  {
    if s.ListValue? {
      forall i | 0 <= i < |s.items| ensures Convertible(s.items[i]) {
        NoFaultAmong(s, |s.items|, i);
        ConvertibleIsFaultless(s.items[i]);
      }
    } else {
      forall e | e in s.entries ensures e.key.StringValue? && Convertible(e.value) {
        var i :| 0 <= i < |s.entries| && s.entries[i] == e;
        NoFaultAmong(s, |s.entries|, i);
        ConvertibleIsFaultless(e.value);
      }
    }
  }

  /** Only supported trees have a picture. */
  lemma {:induction false} PicturesAreOfSupported(s: Starlark, v: Value)
    requires Represents(s, v)
    ensures Supported(v)
    decreases v
  {
    match v
    case List(items) =>
      forall i | 0 <= i < |items| ensures Supported(items[i]) {
        PicturesAreOfSupported(s.items[i], items[i]);
      }
    case Map(m) =>
      forall k | k in m ensures Supported(m[k]) {
        var e :| e in s.entries && e.key == StringValue(k) && Represents(e.value, m[k]);
        PicturesAreOfSupported(e.value, m[k]);
      }
    case _ =>
  }

  /** `goToStarlark`: succeeds exactly on supported trees, with a picture of the tree. Map entries are
      inserted in whatever order the runtime visits them. */
  method GoToStarlark(v: Value) returns (r: Result<Starlark, Unsupported>)
    ensures r.Ok? <==> Supported(v)
    ensures r.Ok? ==> Represents(r.value, v) && WellFormed(r.value)
    ensures r.Err? ==> r.error == UnsupportedGoType
    decreases v
  {
    match v
    case Null => return Ok(NoneValue);
    case Bool(b) => return Ok(BoolValue(b));
    case Str(s) => return Ok(StringValue(s));
    case Int(i) => return Ok(IntValue(i));
    case Wide(i) => return Ok(IntValue(i));
    case Float(bits) => return Ok(FloatValue(bits));
    case Other(_) => return Err(UnsupportedGoType);

    case List(items) =>
      var elems: seq<Starlark> := [];
      for i := 0 to |items|
        invariant |elems| == i
        invariant forall j | 0 <= j < i :: Supported(items[j]) && Represents(elems[j], items[j]) && WellFormed(elems[j])
      {
        var e := GoToStarlark(items[i]);
        if e.Err? { return Err(e.error); }
        elems := elems + [e.value];
      }
      return Ok(ListValue(elems));

    case Map(m) =>
      var entries: seq<DictEntry> := [];
      var todo := m.Keys;
      while todo != {}
        invariant todo <= m.Keys
        invariant DistinctKeys(entries)
        invariant forall e | e in entries ::
                    e.key.StringValue? && e.key.s in m && e.key.s !in todo && WellFormed(e.value)
        invariant forall k | k in m && k !in todo ::
                    Supported(m[k]) && exists e :: e in entries && e.key == StringValue(k) && Represents(e.value, m[k])
        decreases todo
      {
        var k :| k in todo;
        var sv := GoToStarlark(m[k]);
        if sv.Err? { return Err(sv.error); }
        var e := DictEntry(StringValue(k), sv.value);
        assert forall x | x in entries :: x in entries + [e];
        assert e in entries + [e];
        entries := entries + [e];
        todo := todo - {k};
      }
      return Ok(DictValue(entries));
  }

  /** `starlarkToGo`: converts exactly the convertible values, and reports the first fault of any other. */
  method StarlarkToGo(s: Starlark) returns (r: Result<Value, Unsupported>)
    ensures r.Ok? <==> Convertible(s)
    ensures r.Ok? ==> r.value == GoValue(s)
    ensures r.Err? ==> Fault(s) == Some(r.error)
    decreases s, 1
  {
    ConvertibleIsFaultless(s);
    match s
    case NoneValue => return Ok(Null);
    case BoolValue(b) => return Ok(Bool(b));
    case StringValue(t) => return Ok(Str(t));
    case IntValue(i) =>
      if !FitsInt64(i) { return Err(IntOverflow); }
      return Ok(Wide(i));
    case FloatValue(bits) => return Ok(Float(bits));
    case OtherValue(_) => return Err(UnsupportedStarlarkType);
    case ListValue(_) => r := ListToGo(s);
    case DictValue(_) => r := DictToGo(s);
  }

  /** The list case of `starlarkToGo`. */
  method ListToGo(s: Starlark) returns (r: Result<Value, Unsupported>)
    requires s.ListValue?
    ensures r == if Fault(s) == None then (ConvertibleIsFaultless(s); Ok(GoValue(s))) else Err(Fault(s).value)
    decreases s, 0
  {
    var items := s.items;
    var out: seq<Value> := [];
    for i := 0 to |items|
      invariant |out| == i && FaultAmong(s, i) == None
      invariant forall j | 0 <= j < i :: Convertible(items[j]) && out[j] == GoValue(items[j])
    {
      var e := StarlarkToGo(items[i]);
      ConvertibleIsFaultless(items[i]);
      if e.Err? {
        FirstFaultStays(s, i + 1, |items|);
        return Err(e.error);
      }
      out := out + [e.value];
    }
    ConvertibleIsFaultless(s);
    assert out == GoValue(s).items;
    return Ok(List(out));
  }

  /** The dict case of `starlarkToGo`. */
  method DictToGo(s: Starlark) returns (r: Result<Value, Unsupported>)
    requires s.DictValue?
    ensures r == if Fault(s) == None then (ConvertibleIsFaultless(s); Ok(GoValue(s))) else Err(Fault(s).value)
    decreases s, 0
  {
    var entries := s.entries;
    var out: map<string, Value> := map[];
    for i := 0 to |entries|
      invariant FaultAmong(s, i) == None
      invariant Convertible(s) ==> out == GoEntries(s, i)
    {
      var e := entries[i];
      assert e in entries;
      if !e.key.StringValue? {
        FirstFaultStays(s, i + 1, |entries|);
        return Err(KeyNotString);
      }
      var gv := StarlarkToGo(e.value);
      ConvertibleIsFaultless(e.value);
      if gv.Err? {
        FirstFaultStays(s, i + 1, |entries|);
        return Err(gv.error);
      }
      out := out[e.key.s := gv.value];
    }
    ConvertibleIsFaultless(s);
    return Ok(Map(out));
  }

  // ---- round trips ----

  /** Every `int` becomes an `int64`. */
  function Widened(v: Value): Value
    decreases v
  {
    match v
    case Int(i) => Wide(i)
    case List(items) => List(seq(|items|, i requires 0 <= i < |items| => Widened(items[i])))
    case Map(m) => Map(map k | k in m :: Widened(m[k]))
    case _ => v
  }

  /** Widening changes the ints and nothing else, at every key path. */
  lemma {:induction false} WidenedAt(v: Value, keys: seq<string>)
    ensures At(Widened(v), keys).Some? <==> At(v, keys).Some?
    ensures At(v, keys).Some? ==>
              var after := At(Widened(v), keys).value;
              match At(v, keys).value
              case Int(i) => after == Wide(i)
              case List(items) => after.List? && |after.items| == |items|
                                  && forall i | 0 <= i < |items| :: after.items[i] == Widened(items[i])
              case Map(m) => after.Map? && after.entries.Keys == m.Keys
              case other => after == other
    decreases keys
  {
    if keys != [] && v.Map? && keys[0] in v.entries {
      WidenedAt(v.entries[keys[0]], keys[1..]);
    }
  }

  /** The keys of the first `n` entries are the keys of what they convert to. */
  lemma {:induction false} KeysConvert(s: Starlark, n: nat)
    requires Convertible(s) && s.DictValue? && n <= |s.entries|
    ensures forall i | 0 <= i < n :: s.entries[i].key.s in GoEntries(s, n)
    ensures forall k | k in GoEntries(s, n) :: exists i :: 0 <= i < n && s.entries[i].key == StringValue(k)
    decreases n
  {
    hide GoValue;
    if n > 0 {
      KeysConvert(s, n - 1);
      assert s.entries[n - 1].key == StringValue(s.entries[n - 1].key.s);
      forall k | k in GoEntries(s, n) ensures exists i :: 0 <= i < n && s.entries[i].key == StringValue(k) {
        if k in GoEntries(s, n - 1) {
          var i :| 0 <= i < n - 1 && s.entries[i].key == StringValue(k);
        }
      }
    }
  }

  /** With distinct keys no entry overwrites another. */
  lemma {:induction false} EntryConverts(s: Starlark, n: nat, i: nat)
    requires Convertible(s) && s.DictValue? && i < n <= |s.entries| && DistinctKeys(s.entries)
    ensures s.entries[i].key.s in GoEntries(s, n)
    ensures GoEntries(s, n)[s.entries[i].key.s] == GoValue(s.entries[i].value)
    decreases n
  {
    hide GoValue;
    if i < n - 1 {
      EntryConverts(s, n - 1, i);
      assert s.entries[i].key != s.entries[n - 1].key;
    }
  }

  /** From Go to Starlark and back: any picture of a tree converts, to the tree with its ints widened. */
  lemma {:induction false} ThereAndBack(s: Starlark, v: Value)
    requires Represents(s, v)
    ensures Convertible(s) && GoValue(s) == Widened(v)
    decreases v
  {
    match v
    case List(items) =>
      forall i | 0 <= i < |items| ensures Convertible(s.items[i]) && GoValue(s.items[i]) == Widened(items[i]) {
        ThereAndBack(s.items[i], items[i]);
      }
      assert GoValue(s).items == Widened(v).items;
    case Map(m) =>
      forall i | 0 <= i < |s.entries|
        ensures Convertible(s.entries[i].value) && GoValue(s.entries[i].value) == Widened(m[s.entries[i].key.s])
      {
        EntryOfKey(s, m, s.entries[i]);
        ThereAndBack(s.entries[i].value, m[s.entries[i].key.s]);
      }
      assert Convertible(s) by {
        forall e | e in s.entries ensures Convertible(e.value) {
          var i :| 0 <= i < |s.entries| && s.entries[i] == e;
        }
      }
      KeysOfPicture(s, m);
      DictConverts(s, m);
    case _ =>
  }

  lemma KeysOfPicture(s: Starlark, m: map<string, Value>)
    requires Represents(s, Map(m))
    ensures DistinctKeys(s.entries)
    ensures forall i | 0 <= i < |s.entries| :: s.entries[i].key.StringValue? && s.entries[i].key.s in m
    ensures forall k | k in m :: exists i :: 0 <= i < |s.entries| && s.entries[i].key == StringValue(k)
  {
    forall k | k in m ensures exists i :: 0 <= i < |s.entries| && s.entries[i].key == StringValue(k) {
      var e :| e in s.entries && e.key == StringValue(k) && Represents(e.value, m[k]);
      var i :| 0 <= i < |s.entries| && s.entries[i] == e;
    }
  }

  lemma DictConverts(s: Starlark, m: map<string, Value>)
    requires s.DictValue? && Represents(s, Map(m)) && Convertible(s)
    requires forall i | 0 <= i < |s.entries| :: s.entries[i].key.StringValue? && s.entries[i].key.s in m
    requires forall i | 0 <= i < |s.entries| :: GoValue(s.entries[i].value) == Widened(m[s.entries[i].key.s])
    ensures GoValue(s) == Widened(Map(m))
  {
    hide Represents, Convertible;
    var n := |s.entries|;
    KeysOfPicture(s, m);
    KeysConvert(s, n);
    var out, wide := GoEntries(s, n), map k | k in m :: Widened(m[k]);
    assert GoValue(s) == Map(out) && Widened(Map(m)) == Map(wide);
    hide GoValue, Widened, GoEntries;
    forall k | k in out ensures k in wide && out[k] == wide[k] {
      var i :| 0 <= i < n && s.entries[i].key == StringValue(k);
      EntryConverts(s, n, i);
    }
    forall k | k in wide ensures k in out {
      var i :| 0 <= i < n && s.entries[i].key == StringValue(k);
    }
    SameMap(out, wide);
  }

  /** Keys being distinct, the entry that represents a key's value is the only one with that key. */
  lemma EntryOfKey(s: Starlark, m: map<string, Value>, e: DictEntry)
    requires Represents(s, Map(m)) && e in s.entries
    ensures Represents(e.value, m[e.key.s])
  {
    var f :| f in s.entries && f.key == StringValue(e.key.s) && Represents(f.value, m[e.key.s]);
    var i :| 0 <= i < |s.entries| && s.entries[i] == e;
    var j :| 0 <= j < |s.entries| && s.entries[j] == f;
    assert !(i < j) && !(j < i);
  }

  /** From Starlark to Go and back: a convertible value is a picture of what it converts to. */
  lemma {:induction false} BackAndThere(s: Starlark)
    requires WellFormed(s) && Convertible(s)
    ensures Supported(GoValue(s)) && Represents(s, GoValue(s))
    decreases s
  {
    match s
    case ListValue(items) =>
      forall i | 0 <= i < |items| ensures Supported(GoValue(items[i])) && Represents(items[i], GoValue(items[i])) {
        BackAndThere(items[i]);
      }
    case DictValue(entries) =>
      var m := GoEntries(s, |entries|);
      KeysConvert(s, |entries|);
      forall i | 0 <= i < |entries|
        ensures entries[i].key.s in m && m[entries[i].key.s] == GoValue(entries[i].value)
        ensures Supported(GoValue(entries[i].value)) && Represents(entries[i].value, GoValue(entries[i].value))
      {
        assert entries[i] in entries;
        EntryConverts(s, |entries|, i);
        BackAndThere(entries[i].value);
      }
      forall e | e in entries ensures e.key.StringValue? && e.key.s in m {
        var i :| 0 <= i < |entries| && entries[i] == e;
      }
      forall k | k in m
        ensures Supported(m[k]) && exists e :: e in entries && e.key == StringValue(k) && Represents(e.value, m[k])
      {
        var i :| 0 <= i < |entries| && entries[i].key == StringValue(k);
        assert entries[i] in entries;
      }
    case _ =>
  }

  /** Equal but for the order of dict entries. */
  ghost predicate SameUpToOrder(s: Starlark, t: Starlark) {
    match s
    case ListValue(items) =>
      t.ListValue? && |t.items| == |items| && forall i | 0 <= i < |items| :: SameUpToOrder(items[i], t.items[i])
    case DictValue(entries) =>
      && t.DictValue?
      && (forall e | e in entries :: exists f :: f in t.entries && f.key == e.key && SameUpToOrder(e.value, f.value))
      && (forall f | f in t.entries :: exists e :: e in entries && e.key == f.key)
    case _ => s == t
  }

  /** Any two pictures of one tree are the same up to the order of dict entries. */
  lemma {:induction false} PicturesAgree(s: Starlark, t: Starlark, v: Value)
    requires Represents(s, v) && Represents(t, v)
    ensures SameUpToOrder(s, t)
    decreases v
  {
    match v
    case List(items) =>
      forall i | 0 <= i < |items| ensures SameUpToOrder(s.items[i], t.items[i]) {
        PicturesAgree(s.items[i], t.items[i], items[i]);
      }
    case Map(m) =>
      forall e | e in s.entries
        ensures exists f :: f in t.entries && f.key == e.key && SameUpToOrder(e.value, f.value)
      {
        var k := e.key.s;
        var f :| f in t.entries && f.key == StringValue(k) && Represents(f.value, m[k]);
        EntryOfKey(s, m, e);
        PicturesAgree(e.value, f.value, m[k]);
      }
      forall f | f in t.entries ensures exists e :: e in s.entries && e.key == f.key {
        var e :| e in s.entries && e.key == StringValue(f.key.s) && Represents(e.value, m[f.key.s]);
      }
    case _ =>
  }

  /** A Starlark value survives the trip through Go: whatever picture of the converted value is built,
      it is the value again up to dict order. */
  lemma StarlarkSurvives(s: Starlark, t: Starlark)
    requires WellFormed(s) && Convertible(s) && Represents(t, GoValue(s))
    ensures SameUpToOrder(s, t)
  {
    BackAndThere(s);
    PicturesAgree(s, t, GoValue(s));
  }
}
