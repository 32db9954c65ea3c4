/** webui/src/lib/diff.ts: the line diff, its dynamic-programming table and its greedy walk. */
module Diff {
  import opened Text

  datatype Tag = Eq | Add | Del

  datatype DiffOp = DiffOp(t: Tag, line: string)

  // ---- scripts and common subsequences, independent of the algorithm ----

  /** The lines of the operations whose tag is `t` or Eq: the old text for Del, the new one for Add. */
  function Side(ops: seq<DiffOp>, t: Tag): seq<string> {
    if ops == [] then []
    else (if ops[0].t == t || ops[0].t == Eq then [ops[0].line] else []) + Side(ops[1..], t)
  }

  /** An edit script that turns `a` into `b`. */
  predicate IsScript(ops: seq<DiffOp>, a: seq<string>, b: seq<string>) {
    Side(ops, Del) == a && Side(ops, Add) == b
  }

  function Count(ops: seq<DiffOp>, t: Tag): nat {
    if ops == [] then 0 else (if ops[0].t == t then 1 else 0) + Count(ops[1..], t)
  }

  /** `c` can be read off `a` by deleting lines. */
  predicate Subsequence(c: seq<string>, a: seq<string>) {
    c == [] || (a != [] && (Subsequence(c, a[1..]) || (c[0] == a[0] && Subsequence(c[1..], a[1..]))))
  }

  predicate Common(c: seq<string>, a: seq<string>, b: seq<string>) {
    Subsequence(c, a) && Subsequence(c, b)
  }

  // ---- the recurrence the table is filled with ----

  function Max(x: nat, y: nat): nat {
    if x >= y then x else y
  }

  function Lcs(a: seq<string>, b: seq<string>): nat
    decreases |a| + |b|
  {
    if a == [] || b == [] then 0
    else if a[0] == b[0] then Lcs(a[1..], b[1..]) + 1
    else Max(Lcs(a[1..], b), Lcs(a, b[1..]))
  }

  lemma {:induction false} SubsequenceTail(c: seq<string>, a: seq<string>)
    requires c != [] && Subsequence(c, a)
    ensures a != [] && Subsequence(c[1..], a[1..])
    ensures c[0] != a[0] ==> Subsequence(c, a[1..])
  {
    if !(c[0] == a[0] && Subsequence(c[1..], a[1..])) {
      SubsequenceTail(c, a[1..]);
      SubsequenceWeaken(c[1..], a[1..]);
    }
  }

  lemma {:induction false} SubsequenceWeaken(c: seq<string>, a: seq<string>)
    requires a != [] && Subsequence(c, a[1..])
    ensures Subsequence(c, a)
  {
  }

  /** No common subsequence is longer than `Lcs`. */
  lemma {:induction false} LcsIsUpperBound(c: seq<string>, a: seq<string>, b: seq<string>)
    requires Common(c, a, b)
    ensures |c| <= Lcs(a, b)
    decreases |a| + |b|
  {
    if c != [] {
      SubsequenceTail(c, a);
      SubsequenceTail(c, b);
      if a[0] == b[0] {
        LcsIsUpperBound(c[1..], a[1..], b[1..]);
      } else if c[0] != a[0] {
        LcsIsUpperBound(c, a[1..], b);
      } else {
        LcsIsUpperBound(c, a, b[1..]);
      }
    }
  }

  /** Some common subsequence is as long as `Lcs`. */
  lemma {:induction false} LcsIsReached(a: seq<string>, b: seq<string>) returns (c: seq<string>)
    ensures Common(c, a, b) && |c| == Lcs(a, b)
    decreases |a| + |b|
  {
    if a == [] || b == [] {
      c := [];
    } else if a[0] == b[0] {
      var rest := LcsIsReached(a[1..], b[1..]);
      c := [a[0]] + rest;
      assert c[1..] == rest;
    } else if Lcs(a[1..], b) >= Lcs(a, b[1..]) {
      c := LcsIsReached(a[1..], b);
    } else {
      c := LcsIsReached(a, b[1..]);
    }
  }

  /** Dropping the first line of one text costs at most one common line. */
  lemma {:induction false} LcsIsMonotone(a: seq<string>, b: seq<string>)
    ensures a != [] ==> Lcs(a[1..], b) <= Lcs(a, b)
    ensures b != [] ==> Lcs(a, b[1..]) <= Lcs(a, b)
  {
    if a != [] {
      var c := LcsIsReached(a[1..], b);
      LcsIsUpperBound(c, a, b);
    }
    if b != [] {
      var c := LcsIsReached(a, b[1..]);
      LcsIsUpperBound(c, a, b);
    }
  }

  // ---- costs ----

  function Cost(ops: seq<DiffOp>): nat {
    Count(ops, Add) + Count(ops, Del)
  }

  function Kept(ops: seq<DiffOp>): seq<string> {
    if ops == [] then []
    else (if ops[0].t == Eq then [ops[0].line] else []) + Kept(ops[1..])
  }

  /** The kept lines of a script are a common subsequence, and each one saves two operations. */
  lemma {:induction false} KeptIsCommon(ops: seq<DiffOp>, a: seq<string>, b: seq<string>)
    requires IsScript(ops, a, b)
    ensures Common(Kept(ops), a, b)
    ensures |Kept(ops)| == Count(ops, Eq)
    ensures Cost(ops) + 2 * Count(ops, Eq) == |a| + |b|
  {
    if ops != [] {
      var rest := ops[1..];
      KeptIsCommon(rest, Side(rest, Del), Side(rest, Add));
      match ops[0].t
      case Eq =>
        assert a[1..] == Side(rest, Del) && b[1..] == Side(rest, Add) && Kept(ops)[1..] == Kept(rest);
      case Del =>
        assert a[1..] == Side(rest, Del) && b == Side(rest, Add) && Kept(ops) == Kept(rest);
      case Add =>
        assert a == Side(rest, Del) && b[1..] == Side(rest, Add) && Kept(ops) == Kept(rest);
    }
  }

  /** A script that keeps as many lines as the longest common subsequence is at least as cheap as any other. */
  lemma KeepingMostIsCheapest(ops: seq<DiffOp>, other: seq<DiffOp>, a: seq<string>, b: seq<string>)
    requires IsScript(ops, a, b) && Count(ops, Eq) == Lcs(a, b)
    requires IsScript(other, a, b)
    ensures Cost(ops) <= Cost(other)
    ensures Count(ops, Add) <= Count(other, Add) && Count(ops, Del) <= Count(other, Del)
  {
    KeptIsCommon(ops, a, b);
    KeptIsCommon(other, a, b);
    LcsIsUpperBound(Kept(other), a, b);
    SideCount(ops, Add);
    SideCount(other, Add);
    SideCount(ops, Del);
    SideCount(other, Del);
  }

  lemma {:induction false} SideCount(ops: seq<DiffOp>, t: Tag)
    requires t != Eq
    ensures |Side(ops, t)| == Count(ops, t) + Count(ops, Eq)
  {
    if ops != [] {
      SideCount(ops[1..], t);
    }
  }

  lemma {:induction false} SideConcat(x: seq<DiffOp>, y: seq<DiffOp>, t: Tag)
    ensures Side(x + y, t) == Side(x, t) + Side(y, t)
    ensures Count(x + y, t) == Count(x, t) + Count(y, t)
  {
    if x == [] {
      assert x + y == y;
    } else {
      assert (x + y)[0] == x[0] && (x + y)[1..] == x[1..] + y;
      SideConcat(x[1..], y, t);
      var head := if x[0].t == t || x[0].t == Eq then [x[0].line] else [];
      assert head + (Side(x[1..], t) + Side(y, t)) == (head + Side(x[1..], t)) + Side(y, t);
    }
  }

  // ---- hunk shape ----

  /** No addition is immediately followed by a deletion. */
  ghost predicate Canonical(ops: seq<DiffOp>) {
    forall k | 0 <= k < |ops| - 1 :: !(ops[k].t == Add && ops[k + 1].t == Del)
  }

  /** Hence between two kept lines all deletions come before all additions. */
  lemma {:induction false} DeletionsFirst(ops: seq<DiffOp>, i: nat, j: nat)
    requires Canonical(ops) && i < j < |ops|
    requires forall k | i <= k <= j :: ops[k].t != Eq
    requires ops[i].t == Add
    ensures ops[j].t == Add
    decreases j - i
  {
    assert !(ops[i].t == Add && ops[i + 1].t == Del);
    if i + 1 < j {
      DeletionsFirst(ops, i + 1, j);
    }
  }

  // ---- which of the cheapest scripts ----

  /** Keep a common first line; otherwise delete if that loses no more common lines than adding does. */
  function Greedy(a: seq<string>, b: seq<string>): (ops: seq<DiffOp>)
    decreases |a| + |b|
  {
    if a == [] && b == [] then []
    else if a != [] && b != [] && a[0] == b[0] then [DiffOp(Eq, a[0])] + Greedy(a[1..], b[1..])
    else if b == [] || (a != [] && Lcs(a[1..], b) >= Lcs(a, b[1..])) then [DiffOp(Del, a[0])] + Greedy(a[1..], b)
    else [DiffOp(Add, b[0])] + Greedy(a, b[1..])
  }

  /** At the first difference from `other`, if there is one, `ops` keeps a line where `other` does not,
      or deletes one where `other` adds one. */
  ghost predicate Precedes(ops: seq<DiffOp>, other: seq<DiffOp>) {
    ops == other ||
    exists k :: && 0 <= k < |ops| && k < |other| && ops[..k] == other[..k] && ops[k] != other[k]
                && other[k].t != Eq && (ops[k].t == Eq || (ops[k].t == Del && other[k].t == Add))
  }

  lemma PrecedesTail(ops: seq<DiffOp>, other: seq<DiffOp>)
    requires ops != [] && other != [] && ops[0] == other[0] && Precedes(ops[1..], other[1..])
    ensures Precedes(ops, other)
  {
    if ops[1..] == other[1..] {
      assert ops == [ops[0]] + ops[1..] && other == [other[0]] + other[1..];
    } else {
      var k :| && 0 <= k < |ops[1..]| && k < |other[1..]| && ops[1..][..k] == other[1..][..k]
               && ops[1..][k] != other[1..][k]
               && other[1..][k].t != Eq && (ops[1..][k].t == Eq || (ops[1..][k].t == Del && other[1..][k].t == Add));
      assert ops[..k + 1] == [ops[0]] + ops[1..][..k] && other[..k + 1] == [other[0]] + other[1..][..k];
      assert ops[k + 1] == ops[1..][k] && other[k + 1] == other[1..][k];
    }
  }

  /** Of all the cheapest scripts the greedy one comes first. */
  lemma {:induction false} GreedyIsFirst(other: seq<DiffOp>, a: seq<string>, b: seq<string>)
    requires IsScript(other, a, b) && Count(other, Eq) == Lcs(a, b)
    ensures Precedes(Greedy(a, b), other)
    decreases |other|
  {
    if other != [] {
      var ops, op, rest := Greedy(a, b), other[0], other[1..];
      var a', b' := if op.t == Add then a else a[1..], if op.t == Del then b else b[1..];
      assert IsScript(rest, a', b') && (op.t != Add ==> op.line == a[0]) && (op.t != Del ==> op.line == b[0]);
      KeptIsCommon(rest, a', b');
      LcsIsUpperBound(Kept(rest), a', b');
      LcsIsMonotone(a, b);
      if ops[0] == op {
        assert ops[1..] == Greedy(a', b');
        GreedyIsFirst(rest, a', b');
        PrecedesTail(ops, other);
      } else {
        assert ops[..0] == other[..0];
      }
    }
  }

  // ---- the algorithm ----

  /** Rows from `i` on hold the Lcs of the two suffixes. */
  ghost predicate Filled(dp: array2<nat>, a: seq<string>, b: seq<string>, i: nat)
    requires dp.Length0 == |a| + 1 && dp.Length1 == |b| + 1
    reads dp
  {
    forall k, l | i <= k <= |a| && 0 <= l <= |b| :: dp[k, l] == Lcs(a[k..], b[l..])
  }

  /** The recurrence, on the suffixes the loops stand at. */
  lemma Turn(a: seq<string>, b: seq<string>, i: nat, j: nat)
    requires i < |a| && j < |b|
    ensures Lcs(a[i..], b[j..]) == if a[i] == b[j] then Lcs(a[i + 1..], b[j + 1..]) + 1
                                   else Max(Lcs(a[i + 1..], b[j..]), Lcs(a[i..], b[j + 1..]))
    ensures Lcs(a[i + 1..], b[j + 1..]) <= Lcs(a[i + 1..], b[j..])
  {
    assert a[i..][1..] == a[i + 1..] && b[j..][1..] == b[j + 1..];
    LcsIsMonotone(a[i + 1..], b[j..]);
  }

  /** The same for the greedy script, also when one of the texts has ended. */
  lemma GreedyStep(a: seq<string>, b: seq<string>, i: nat, j: nat)
    requires i <= |a| && j <= |b|
    ensures Greedy(a[i..], b[j..]) ==
            if i == |a| && j == |b| then []
            else if i < |a| && j < |b| && a[i] == b[j] then [DiffOp(Eq, a[i])] + Greedy(a[i + 1..], b[j + 1..])
            else if j == |b| || (i < |a| && Lcs(a[i + 1..], b[j..]) >= Lcs(a[i..], b[j + 1..]))
              then [DiffOp(Del, a[i])] + Greedy(a[i + 1..], b[j..])
            else [DiffOp(Add, b[j])] + Greedy(a[i..], b[j + 1..])
  {
    assert i < |a| ==> a[i..][1..] == a[i + 1..];
    assert j < |b| ==> b[j..][1..] == b[j + 1..];
  }

  method FillTable(a: seq<string>, b: seq<string>) returns (dp: array2<nat>)
    ensures fresh(dp) && dp.Length0 == |a| + 1 && dp.Length1 == |b| + 1
    ensures Filled(dp, a, b, 0)
  {
    hide Lcs;
    LcsOfNothing(a, b);
    var n, m := |a|, |b|;
    dp := new nat[n + 1, m + 1]((_, _) => 0);
    for i := n downto 0
      invariant Filled(dp, a, b, i)
      invariant forall k, l | 0 <= k < i && 0 <= l <= m :: dp[k, l] == 0
    {
      for j := m downto 0
        invariant Filled(dp, a, b, i + 1)
        invariant forall l | j <= l <= m :: dp[i, l] == Lcs(a[i..], b[l..])
        invariant forall k, l | 0 <= k < i && 0 <= l <= m :: dp[k, l] == 0
      {
        Turn(a, b, i, j);
        dp[i, j] := if a[i] == b[j] then dp[i + 1, j + 1] + 1 else Max(dp[i + 1, j], dp[i, j + 1]);
      }
    }
  }

  lemma LcsOfNothing(a: seq<string>, b: seq<string>)
    ensures forall j | 0 <= j <= |b| :: Lcs(a[|a|..], b[j..]) == 0
    ensures forall i | 0 <= i <= |a| :: Lcs(a[i..], b[|b|..]) == 0
  {
  }

  /** What the walk has emitted once it stands at line `i` of `a` and line `j` of `b`. */
  ghost predicate Walked(out: seq<DiffOp>, a: seq<string>, b: seq<string>, i: nat, j: nat) {
    && i <= |a| && j <= |b|
    && IsScript(out, a[..i], b[..j])
    && Count(out, Eq) + Lcs(a[i..], b[j..]) == Lcs(a, b)
    && Canonical(out)
  }

  /** After an addition the walk cannot emit a deletion before the next kept line. */
  ghost predicate NoDeletionNext(out: seq<DiffOp>, a: seq<string>, b: seq<string>, i: nat, j: nat)
    requires i <= |a| && j <= |b|
  {
    out != [] && out[|out| - 1].t == Add && i < |a| ==>
      Lcs(a[i + 1..], b[j..]) < Lcs(a[i..], b[j..])
  }

  lemma Start(a: seq<string>, b: seq<string>)
    ensures Walked([], a, b, 0, 0) && NoDeletionNext([], a, b, 0, 0)
  {
  }

  lemma OneMore(ops: seq<DiffOp>, op: DiffOp, t: Tag)
    ensures Side(ops + [op], t) == Side(ops, t) + if op.t == t || op.t == Eq then [op.line] else []
    ensures Count(ops + [op], t) == Count(ops, t) + if op.t == t then 1 else 0
  {
    SideConcat(ops, [op], t);
    assert Side([op][1..], t) == [];
  }

  /** Emitting the operation that fits the current lines moves the walk on. */
  lemma Emit(out: seq<DiffOp>, op: DiffOp, a: seq<string>, b: seq<string>, i: nat, j: nat, i': nat, j': nat)
    requires Walked(out, a, b, i, j) && i' <= |a| && j' <= |b|
    requires i' == (if op.t == Add then i else i + 1) && j' == (if op.t == Del then j else j + 1)
    requires op.t != Add ==> op.line == a[i]
    requires op.t != Del ==> op.line == b[j]
    requires Lcs(a[i..], b[j..]) == (if op.t == Eq then 1 else 0) + Lcs(a[i'..], b[j'..])
    requires op.t == Del && out != [] ==> out[|out| - 1].t != Add
    ensures Walked(out + [op], a, b, i', j')
  {
    hide Lcs, Side, Count;
    OneMore(out, op, Del);
    OneMore(out, op, Add);
    OneMore(out, op, Eq);
    if i' > i { assert a[..i'] == a[..i] + [a[i]]; }
    if j' > j { assert b[..j'] == b[..j] + [b[j]]; }
  }

  /** The greedy walk over the filled table. */
  method Walk(a: seq<string>, b: seq<string>, dp: array2<nat>) returns (out: seq<DiffOp>, i: nat, j: nat)
    requires dp.Length0 == |a| + 1 && dp.Length1 == |b| + 1
    requires Filled(dp, a, b, 0)
    ensures Walked(out, a, b, i, j) && NoDeletionNext(out, a, b, i, j)
    ensures out + Greedy(a[i..], b[j..]) == Greedy(a, b)
    ensures i == |a| || j == |b|
  {
    hide Lcs, Greedy, Walked, NoDeletionNext;
    out, i, j := [], 0, 0;
    Start(a, b);
    assert a[0..] == a && b[0..] == b;
    while i < |a| && j < |b|
      invariant i <= |a| && j <= |b|
      invariant Walked(out, a, b, i, j) && NoDeletionNext(out, a, b, i, j)
      invariant out + Greedy(a[i..], b[j..]) == Greedy(a, b)
      decreases |a| - i + |b| - j
    {
      WalkStep(out, a, b, i, j);
      if a[i] == b[j] {
        out := out + [DiffOp(Eq, a[i])];
        i, j := i + 1, j + 1;
      } else if dp[i + 1, j] >= dp[i, j + 1] {
        out := out + [DiffOp(Del, a[i])];
        i := i + 1;
      } else {
        out := out + [DiffOp(Add, b[j])];
        j := j + 1;
      }
    }
  }

  /** What one round of the walk emits keeps all that the walk promises. */
  lemma WalkStep(out: seq<DiffOp>, a: seq<string>, b: seq<string>, i: nat, j: nat)
    requires i < |a| && j < |b| && Walked(out, a, b, i, j) && NoDeletionNext(out, a, b, i, j)
    ensures var deletes := Lcs(a[i + 1..], b[j..]) >= Lcs(a[i..], b[j + 1..]);
            var op := if a[i] == b[j] then DiffOp(Eq, a[i])
                      else if deletes then DiffOp(Del, a[i]) else DiffOp(Add, b[j]);
            var i', j' := if op.t == Add then i else i + 1, if op.t == Del then j else j + 1;
            && Walked(out + [op], a, b, i', j') && NoDeletionNext(out + [op], a, b, i', j')
            && out + [op] + Greedy(a[i'..], b[j'..]) == out + Greedy(a[i..], b[j..])
  {
    GreedyEmits(out, a, b, i, j);
    Turn(a, b, i, j);
    hide Lcs, Greedy, IsScript, Canonical;
    if a[i] == b[j] {
      Emit(out, DiffOp(Eq, a[i]), a, b, i, j, i + 1, j + 1);
    } else if Lcs(a[i + 1..], b[j..]) >= Lcs(a[i..], b[j + 1..]) {
      Emit(out, DiffOp(Del, a[i]), a, b, i, j, i + 1, j);
    } else {
      Emit(out, DiffOp(Add, b[j]), a, b, i, j, i, j + 1);
    }
  }

  lemma GreedyEmits(out: seq<DiffOp>, a: seq<string>, b: seq<string>, i: nat, j: nat)
    requires i < |a| && j < |b|
    ensures var deletes := Lcs(a[i + 1..], b[j..]) >= Lcs(a[i..], b[j + 1..]);
            var op := if a[i] == b[j] then DiffOp(Eq, a[i])
                      else if deletes then DiffOp(Del, a[i]) else DiffOp(Add, b[j]);
            var i', j' := if op.t == Add then i else i + 1, if op.t == Del then j else j + 1;
            out + [op] + Greedy(a[i'..], b[j'..]) == out + Greedy(a[i..], b[j..])
  {
    GreedyStep(a, b, i, j);
    hide Lcs, Greedy;
  }

  /** The two loops after the walk, at most one of which has lines left. */
  method Finish(walked: seq<DiffOp>, a: seq<string>, b: seq<string>, i0: nat, j0: nat) returns (out: seq<DiffOp>)
    requires Walked(walked, a, b, i0, j0) && NoDeletionNext(walked, a, b, i0, j0)
    requires walked + Greedy(a[i0..], b[j0..]) == Greedy(a, b)
    requires i0 == |a| || j0 == |b|
    ensures Walked(out, a, b, |a|, |b|) && out == Greedy(a, b)
  {
    out := walked;
    var i, j := i0, j0;
    assert i <= |a| && j <= |b|;
    hide Lcs, Greedy, Walked, NoDeletionNext;
    while i < |a|
      invariant i <= |a| && j <= |b| && (i < |a| ==> j == |b|)
      invariant Walked(out, a, b, i, j) && NoDeletionNext(out, a, b, i, j)
      invariant out + Greedy(a[i..], b[j..]) == Greedy(a, b)
    {
      DeleteRest(out, a, b, i);
      out := out + [DiffOp(Del, a[i])];
      i := i + 1;
    }
    while j < |b|
      invariant j <= |b| && Walked(out, a, b, |a|, j)
      invariant out + Greedy(a[|a|..], b[j..]) == Greedy(a, b)
    {
      AddRest(out, a, b, j);
      out := out + [DiffOp(Add, b[j])];
      j := j + 1;
    }
    GreedyStep(a, b, |a|, |b|);
  }

  lemma DeleteRest(out: seq<DiffOp>, a: seq<string>, b: seq<string>, i: nat)
    requires i < |a| && Walked(out, a, b, i, |b|) && NoDeletionNext(out, a, b, i, |b|)
    ensures var longer := out + [DiffOp(Del, a[i])];
            && Walked(longer, a, b, i + 1, |b|) && NoDeletionNext(longer, a, b, i + 1, |b|)
            && longer + Greedy(a[i + 1..], b[|b|..]) == out + Greedy(a[i..], b[|b|..])
  {
    LcsOfNothing(a, b);
    GreedyStep(a, b, i, |b|);
    hide Lcs, Greedy, IsScript, Canonical;
    Emit(out, DiffOp(Del, a[i]), a, b, i, |b|, i + 1, |b|);
  }

  lemma AddRest(out: seq<DiffOp>, a: seq<string>, b: seq<string>, j: nat)
    requires j < |b| && Walked(out, a, b, |a|, j)
    ensures var longer := out + [DiffOp(Add, b[j])];
            && Walked(longer, a, b, |a|, j + 1)
            && longer + Greedy(a[|a|..], b[j + 1..]) == out + Greedy(a[|a|..], b[j..])
  {
    LcsOfNothing(a, b);
    GreedyStep(a, b, |a|, j);
    hide Lcs, Greedy, IsScript, Canonical;
    Emit(out, DiffOp(Add, b[j]), a, b, |a|, j, |a|, j + 1);
  }

  /** A script that keeps most is cheapest, and the greedy one comes first among the cheapest. */
  lemma GreedyIsFirstOfCheapest(out: seq<DiffOp>, a: seq<string>, b: seq<string>)
    requires Walked(out, a, b, |a|, |b|) && out == Greedy(a, b)
    ensures IsScript(out, a, b) && Count(out, Eq) == Lcs(a, b)
    ensures forall other | IsScript(other, a, b) :: Cost(out) <= Cost(other)
    ensures forall other | IsScript(other, a, b) && Cost(other) == Cost(out) :: Precedes(out, other)
  {
    LcsOfNothing(a, b);
    hide Lcs, Side, Count, Greedy, Precedes;
    assert a[..|a|] == a && b[..|b|] == b;
    forall other | IsScript(other, a, b)
      ensures Cost(out) <= Cost(other)
      ensures Cost(other) == Cost(out) ==> Precedes(out, other)
    {
      KeepingMostIsCheapest(out, other, a, b);
      KeptIsCommon(out, a, b);
      KeptIsCommon(other, a, b);
      if Cost(other) == Cost(out) { GreedyIsFirst(other, a, b); }
    }
  }

  /** `diffLines`: of all scripts from one text to the other that no script beats, the first one, which is
      in canonical form. */
  method DiffLines(aText: string, bText: string) returns (out: seq<DiffOp>)
    ensures IsScript(out, Split(aText, '\n'), Split(bText, '\n'))
    ensures Join(Side(out, Del), '\n') == aText && Join(Side(out, Add), '\n') == bText
    ensures Count(out, Eq) == Lcs(Split(aText, '\n'), Split(bText, '\n'))
    ensures forall other | IsScript(other, Split(aText, '\n'), Split(bText, '\n')) :: Cost(out) <= Cost(other)
    ensures forall other | IsScript(other, Split(aText, '\n'), Split(bText, '\n')) && Cost(other) == Cost(out) ::
              Precedes(out, other)
    ensures Canonical(out)
  {
    hide Lcs, Split, Count, Side, Cost, Subsequence, Greedy, Precedes;
    var a, b := Split(aText, '\n'), Split(bText, '\n');
    var dp := FillTable(a, b);
    var i, j;
    out, i, j := Walk(a, b, dp);
    out := Finish(out, a, b, i, j);
    GreedyIsFirstOfCheapest(out, a, b);
    JoinSplit(aText, '\n');
    JoinSplit(bText, '\n');
  }
}
