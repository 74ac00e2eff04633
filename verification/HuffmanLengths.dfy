/** From byte frequencies to code lengths: the tree builder and what its lengths promise. */
module HuffmanLengths {
  import opened Bytes
  import opened HuffmanOptimal

  // ---- forests over a frequency table ----

  /** Leaves carry the table's frequencies and no symbol occurs twice. */
  predicate Good(t: Tree, frequencies: seq<nat>)
  {
    match t
    case Leaf(s, f) => s < |frequencies| && frequencies[s] == f && f > 0
    case Node(l, r) => Good(l, frequencies) && Good(r, frequencies) && Symbols(l) !! Symbols(r)
  }

  function AllSymbols(forest: seq<Tree>): set<nat>
  {
    if forest == [] then {} else AllSymbols(forest[..|forest| - 1]) + Symbols(forest[|forest| - 1])
  }

  predicate Proper(forest: seq<Tree>, frequencies: seq<nat>)
  {
    forest != [] ==>
      var front, last := forest[..|forest| - 1], forest[|forest| - 1];
      Proper(front, frequencies) && Good(last, frequencies) && AllSymbols(front) !! Symbols(last)
  }

  lemma ProperAppend(forest: seq<Tree>, t: Tree, frequencies: seq<nat>)
    requires Proper(forest, frequencies) && Good(t, frequencies) && AllSymbols(forest) !! Symbols(t)
    ensures Proper(forest + [t], frequencies)
    ensures AllSymbols(forest + [t]) == AllSymbols(forest) + Symbols(t)
  {
    assert (forest + [t])[..|forest|] == forest;
  }

  lemma {:induction false} ProperRemove(forest: seq<Tree>, k: nat, frequencies: seq<nat>)
    requires k < |forest| && Proper(forest, frequencies)
    ensures Proper(RemoveAt(forest, k), frequencies) && Good(forest[k], frequencies)
    ensures AllSymbols(RemoveAt(forest, k)) !! Symbols(forest[k])
    ensures AllSymbols(forest) == AllSymbols(RemoveAt(forest, k)) + Symbols(forest[k])
  {
    var front, last := forest[..|forest| - 1], forest[|forest| - 1];
    if k == |front| {
      assert RemoveAt(forest, k) == front;
    } else {
      var rest, t := RemoveAt(front, k), front[k];
      assert forest[k] == t && RemoveAt(forest, k) == rest + [last];
      ProperRemove(front, k, frequencies);
      Shuffle(AllSymbols(rest), Symbols(t), Symbols(last));
      ProperAppend(rest, last, frequencies);
    }
  }

  lemma Shuffle(a: set<nat>, b: set<nat>, c: set<nat>)
    requires a !! b && (a + b) !! c
    ensures a !! c && (a + c) !! b && a + b + c == a + c + b
  {
  }

  lemma {:induction false} MergeProper(forest: seq<Tree>, frequencies: seq<nat>)
    requires |forest| >= 2 && Proper(forest, frequencies)
    ensures Proper(MergeStep(forest), frequencies)
    ensures AllSymbols(MergeStep(forest)) == AllSymbols(forest)
    ensures Sum(Weights(MergeStep(forest))) == Sum(Weights(forest))
  {
    var i := LeastIndex(forest);
    var rest := RemoveAt(forest, i);
    var j := LeastIndex(rest);
    var last, node := RemoveAt(rest, j), Node(forest[i], rest[j]);
    ProperRemove(forest, i, frequencies);
    ProperRemove(rest, j, frequencies);
    ProperAppend(last, node, frequencies);
    RemoveInners(forest, i);
    RemoveInners(rest, j);
    AppendInners(last, node);
    SumRemove(Weights(forest), i);
    SumRemove(Weights(rest), j);
    SumAppend(Weights(last), Weight(node));
  }

  lemma {:induction false} MergedIsGood(forest: seq<Tree>, frequencies: seq<nat>)
    requires forest != [] && Proper(forest, frequencies)
    ensures Good(MergeAll(forest), frequencies) && Symbols(MergeAll(forest)) == AllSymbols(forest)
    ensures |forest| >= 2 ==> MergeAll(forest).Node?
    decreases |forest|
  {
    if |forest| == 1 {
      assert AllSymbols(forest[..0]) == {};
    } else {
      MergeProper(forest, frequencies);
      MergedIsGood(MergeStep(forest), frequencies);
    }
  }

  /** The least tree is strictly before every other one, so the way the queue is stored cannot matter. */
  lemma LeastIsUnique(forest: seq<Tree>, i: nat, frequencies: seq<nat>)
    requires forest != [] && Proper(forest, frequencies)
    requires i < |forest| && i != LeastIndex(forest)
    ensures Before(forest[LeastIndex(forest)], forest[i])
  {
    var k := LeastIndex(forest);
    assert !Before(forest[i], forest[k]);
    MinimumIsOwn(forest[i]);
    MinimumIsOwn(forest[k]);
    ProperRemove(forest, k, frequencies);
    var at := if i < k then i else i - 1;
    assert RemoveAt(forest, k)[at] == forest[i];
    MemberSymbols(RemoveAt(forest, k), at);
  }

  lemma MinimumIsOwn(t: Tree)
    ensures MinimumSymbol(t) in Symbols(t)
  {
  }

  lemma {:induction false} MemberSymbols(forest: seq<Tree>, i: nat)
    requires i < |forest|
    ensures Symbols(forest[i]) <= AllSymbols(forest)
  {
    if i < |forest| - 1 {
      MemberSymbols(forest[..|forest| - 1], i);
    }
  }

  // ---- the leaves of a table ----

  /** The leaves for the symbols below `n` that occur. */
  function Leaves(frequencies: seq<nat>, n: nat): seq<Tree>
    requires n <= |frequencies|
  {
    if n == 0 then []
    else if frequencies[n - 1] == 0 then Leaves(frequencies, n - 1)
    else Leaves(frequencies, n - 1) + [Leaf(n - 1, frequencies[n - 1])]
  }

  function Used(frequencies: seq<nat>, n: nat): set<nat>
    requires n <= |frequencies|
  {
    set s: nat | 0 <= s < n && frequencies[s] > 0
  }

  lemma SumTake(s: seq<nat>, k: nat)
    requires k < |s|
    ensures Sum(s[..k + 1]) == Sum(s[..k]) + s[k]
  {
    assert s[..k + 1][..k] == s[..k];
  }

  lemma LeafAppended(forest: seq<Tree>, leaf: Tree, frequencies: seq<nat>)
    requires leaf.Leaf? && leaf.symbol < |frequencies| && leaf.frequency == frequencies[leaf.symbol] > 0
    requires Proper(forest, frequencies) && leaf.symbol !in AllSymbols(forest)
    ensures Proper(forest + [leaf], frequencies) && AllSymbols(forest + [leaf]) == AllSymbols(forest) + {leaf.symbol}
    ensures Sum(Weights(forest + [leaf])) == Sum(Weights(forest)) + leaf.frequency
  {
    ProperAppend(forest, leaf, frequencies);
    AppendInners(forest, leaf);
    SumAppend(Weights(forest), Weight(leaf));
  }

  lemma {:induction false} LeavesProper(frequencies: seq<nat>, n: nat)
    requires n <= |frequencies|
    ensures Proper(Leaves(frequencies, n), frequencies)
    ensures AllSymbols(Leaves(frequencies, n)) == Used(frequencies, n)
    ensures Sum(Weights(Leaves(frequencies, n))) == Sum(frequencies[..n])
    ensures forall i :: 0 <= i < |Leaves(frequencies, n)| ==> Leaves(frequencies, n)[i].Leaf?
    ensures |Leaves(frequencies, n)| <= n
  {
    if n > 0 {
      LeavesProper(frequencies, n - 1);
      SumTake(frequencies, n - 1);
      if frequencies[n - 1] == 0 {
        assert Used(frequencies, n) == Used(frequencies, n - 1);
      } else {
        assert Used(frequencies, n) == Used(frequencies, n - 1) + {n - 1};
        LeafAppended(Leaves(frequencies, n - 1), Leaf(n - 1, frequencies[n - 1]), frequencies);
      }
    }
  }

  // ---- depths become lengths ----

  function Height(t: Tree): nat
  {
    match t
    case Leaf(_, _) => 0
    case Node(l, r) => 1 + if Height(l) < Height(r) then Height(r) else Height(l)
  }

  function Within(t: Tree, size: nat): bool
  {
    match t
    case Leaf(s, _) => s < size
    case Node(l, r) => Within(l, size) && Within(r, size)
  }

  /** The recursive visit: every leaf stores its depth, at least 1. */
  function AssignDepths(t: Tree, depth: nat, lengths: seq<nat>): (r: seq<nat>)
    requires Within(t, |lengths|)
    ensures |r| == |lengths|
  {
    match t
    case Leaf(s, _) => lengths[s := if depth < 1 then 1 else depth]
    case Node(l, r) => AssignDepths(r, depth + 1, AssignDepths(l, depth + 1, lengths))
  }

  function CodeLengths(frequencies: seq<nat>): (r: seq<nat>)
    requires |frequencies| == 256
    ensures |r| == 256
  {
    var forest := Leaves(frequencies, |frequencies|);
    LeavesProper(frequencies, |frequencies|);
    if forest == [] then NoLengths()
    else if |forest| == 1 then NoLengths()[forest[0].symbol := 1]
    else
      MergedIsGood(forest, frequencies);
      GoodWithin(MergeAll(forest), frequencies);
      AssignDepths(MergeAll(forest), 0, NoLengths())
  }

  lemma GoodWithin(t: Tree, frequencies: seq<nat>)
    requires Good(t, frequencies)
    ensures Within(t, |frequencies|)
    ensures forall s :: s in Symbols(t) ==> s < |frequencies| && frequencies[s] > 0
  {
  }

  /** Units taken by the codes of a length table in which 0 means "no code". */
  function CodeShares(lengths: seq<nat>, m: nat): (p: seq<nat>)
    requires AtMost(lengths, m)
    ensures |p| == |lengths|
  {
    seq(|lengths|, i requires 0 <= i < |lengths| => if lengths[i] == 0 then 0 else Pow2(m - lengths[i]))
  }

  function CodeUnits(lengths: seq<nat>, m: nat): nat
    requires AtMost(lengths, m)
  {
    Sum(CodeShares(lengths, m))
  }

  lemma StoreLength(frequencies: seq<nat>, lengths: seq<nat>, s: nat, d: nat, m: nat)
    requires s < |frequencies| == |lengths| && lengths[s] == 0 && 1 <= d <= m && AtMost(lengths, m)
    ensures AtMost(lengths[s := d], m)
    ensures Cost(frequencies, lengths[s := d]) == Cost(frequencies, lengths) + frequencies[s] * d
    ensures CodeUnits(lengths[s := d], m) == CodeUnits(lengths, m) + Pow2(m - d)
  {
    CostUpdate(frequencies, lengths, s, d);
    SumUpdate(CodeShares(lengths, m), s, Pow2(m - d));
    assert CodeShares(lengths, m)[s := Pow2(m - d)] == CodeShares(lengths[s := d], m);
  }

  lemma OneLevelDown(depth: nat, wl: nat, wr: nat)
    ensures (depth + 1) * wl + (depth + 1) * wr == depth * (wl + wr) + wl + wr
  {
  }

  /** A visit gives lengths to the symbols of its tree and to no others. */
  lemma {:induction false} AssignTouches(t: Tree, depth: nat, lengths: seq<nat>, frequencies: seq<nat>, m: nat)
    requires |lengths| == |frequencies| && Good(t, frequencies) && Within(t, |lengths|)
    requires 1 <= depth + Height(t) <= m && AtMost(lengths, m)
    ensures var r := AssignDepths(t, depth, lengths);
            && AtMost(r, m)
            && (forall s :: 0 <= s < |r| ==> if s in Symbols(t) then r[s] >= 1 else r[s] == lengths[s])
  {
    match t {
      case Leaf(s, f) =>
      case Node(l, r) =>
        AssignTouches(l, depth + 1, lengths, frequencies, m);
        AssignTouches(r, depth + 1, AssignDepths(l, depth + 1, lengths), frequencies, m);
    }
  }

  ghost predicate Unset(t: Tree, lengths: seq<nat>)
  {
    forall s :: s in Symbols(t) ==> s < |lengths| && lengths[s] == 0
  }

  /** What the lengths stored by a visit cost. */
  lemma {:induction false} AssignCost(t: Tree, depth: nat, lengths: seq<nat>, frequencies: seq<nat>)
    requires |lengths| == |frequencies| && Good(t, frequencies) && Within(t, |lengths|)
    requires (depth > 0 || t.Node?) && Unset(t, lengths)
    ensures Cost(frequencies, AssignDepths(t, depth, lengths)) == Cost(frequencies, lengths) + depth * Weight(t) + Inner(t)
  {
    match t {
      case Leaf(s, f) =>
        CostUpdate(frequencies, lengths, s, depth);
      case Node(l, r) =>
        assert Unset(l, lengths) && Unset(r, lengths);
        VisitLeavesOthers(l, r, depth + 1, lengths, frequencies);
        AssignCost(l, depth + 1, lengths, frequencies);
        AssignCost(r, depth + 1, AssignDepths(l, depth + 1, lengths), frequencies);
        OneLevelDown(depth, Weight(l), Weight(r));
    }
  }

  /** How many units the lengths stored by a visit take. */
  lemma {:induction false} AssignUnits(t: Tree, depth: nat, lengths: seq<nat>, frequencies: seq<nat>, m: nat)
    requires |lengths| == |frequencies| && Good(t, frequencies) && Within(t, |lengths|)
    requires (depth > 0 || t.Node?) && Unset(t, lengths)
    requires depth + Height(t) <= m && AtMost(lengths, m)
    ensures AtMost(AssignDepths(t, depth, lengths), m)
    ensures CodeUnits(AssignDepths(t, depth, lengths), m) == CodeUnits(lengths, m) + Pow2(m - depth)
  {
    match t {
      case Leaf(s, f) =>
        StoreLength(frequencies, lengths, s, depth, m);
      case Node(l, r) =>
        assert Unset(l, lengths) && Unset(r, lengths);
        VisitLeavesOthers(l, r, depth + 1, lengths, frequencies);
        AssignUnits(l, depth + 1, lengths, frequencies, m);
        AssignUnits(r, depth + 1, AssignDepths(l, depth + 1, lengths), frequencies, m);
    }
  }

  lemma VisitLeavesOthers(l: Tree, r: Tree, depth: nat, lengths: seq<nat>, frequencies: seq<nat>)
    requires |lengths| == |frequencies| && Good(l, frequencies) && Within(l, |lengths|) && depth >= 1
    requires Symbols(l) !! Symbols(r) && Unset(r, lengths)
    ensures Unset(r, AssignDepths(l, depth, lengths))
  {
    var m :| AtMost(lengths, m) && depth + Height(l) <= m by {
      SumBound(lengths);
      assert AtMost(lengths, Sum(lengths) + depth + Height(l));
    }
    AssignTouches(l, depth, lengths, frequencies, m);
  }

  lemma SumBound(s: seq<nat>)
    ensures AtMost(s, Sum(s))
  {
    forall i | 0 <= i < |s| ensures s[i] <= Sum(s) {
      SumMember(s, i);
    }
  }

  lemma {:induction false} HeightBound(t: Tree, frequencies: seq<nat>)
    requires Good(t, frequencies)
    ensures Height(t) + 1 <= |Symbols(t)|
  {
    match t {
      case Leaf(_, _) =>
      case Node(l, r) =>
        HeightBound(l, frequencies);
        HeightBound(r, frequencies);
        assert |Symbols(t)| == |Symbols(l)| + |Symbols(r)|;
    }
  }

  lemma {:induction false} UsedSize(frequencies: seq<nat>, n: nat)
    requires n <= |frequencies|
    ensures |Used(frequencies, n)| == |Leaves(frequencies, n)| <= n
  {
    if n > 0 {
      UsedSize(frequencies, n - 1);
      assert Used(frequencies, n) == Used(frequencies, n - 1) + if frequencies[n - 1] > 0 then {n - 1} else {};
    }
  }

  function NoLengths(): (r: seq<nat>)
    ensures |r| == 256
  {
    seq(256, _ => 0)
  }

  lemma ZeroTable(frequencies: seq<nat>, m: nat)
    requires |frequencies| == 256
    ensures Cost(frequencies, NoLengths()) == 0 && CodeUnits(NoLengths(), m) == 0
  {
    SumZero(Products(frequencies, NoLengths()));
    SumZero(CodeShares(NoLengths(), m));
  }

  function UsedCount(frequencies: seq<nat>): nat
    requires |frequencies| == 256
  {
    |Used(frequencies, |frequencies|)|
  }

  lemma OneLength(frequencies: seq<nat>, m: nat)
    requires |frequencies| == 256 && m >= 1 && |Leaves(frequencies, |frequencies|)| == 1
    ensures var l := CodeLengths(frequencies);
            && AtMost(l, 1) && CodeUnits(l, m) == Pow2(m - 1)
            && (forall s :: 0 <= s < 256 ==> (l[s] > 0 <==> s in Used(frequencies, |frequencies|)))
  {
    var forest := Leaves(frequencies, |frequencies|);
    LeavesProper(frequencies, |frequencies|);
    ZeroTable(frequencies, m);
    SingleLeaf(frequencies, forest);
    StoreLength(frequencies, NoLengths(), forest[0].symbol, 1, m);
  }

  /** The lengths of one tree over the whole table. */
  lemma TreeLengths(t: Tree, frequencies: seq<nat>, zero: seq<nat>, m: nat)
    requires |frequencies| == 256 && Good(t, frequencies) && t.Node? && Height(t) <= m
    requires zero == NoLengths()
    ensures Within(t, 256)
    ensures var l := AssignDepths(t, 0, zero);
            && AtMost(l, m) && CodeUnits(l, m) == Pow2(m) && Cost(frequencies, l) == Inner(t)
            && (forall s :: 0 <= s < 256 ==> (l[s] > 0 <==> s in Symbols(t)))
  {
    GoodWithin(t, frequencies);
    assert Unset(t, zero);
    assert AtMost(zero, m);
    AssignTouches(t, 0, zero, frequencies, m);
    AssignCost(t, 0, zero, frequencies);
    AssignUnits(t, 0, zero, frequencies, m);
    assert Cost(frequencies, zero) == 0 && CodeUnits(zero, m) == 0 by { ZeroTable(frequencies, m); }
  }

  lemma ManyLengths(frequencies: seq<nat>, m: nat)
    requires |frequencies| == 256 && m >= 255 && |Leaves(frequencies, |frequencies|)| >= 2
    ensures var l := CodeLengths(frequencies);
            && AtMost(l, m) && CodeUnits(l, m) == Pow2(m)
            && (forall s :: 0 <= s < 256 ==> (l[s] > 0 <==> s in Used(frequencies, |frequencies|)))
  {
    var forest := Leaves(frequencies, |frequencies|);
    var t := MergeAll(forest);
    LeavesProper(frequencies, |frequencies|);
    UsedSize(frequencies, |frequencies|);
    MergedIsGood(forest, frequencies);
    HeightBound(t, frequencies);
    TreeLengths(t, frequencies, NoLengths(), m);
  }

  /**
   Every occurring byte value gets a length, no other does, and no length exceeds 255. With two or
   more of them Kraft's inequality is met with equality, so the canonical codes always exist; a single
   one gets length 1.
   */
  lemma LengthsMeaning(frequencies: seq<nat>, m: nat)
    requires |frequencies| == 256 && m >= 255
    ensures var l := CodeLengths(frequencies);
            && AtMost(l, 255)
            && (forall s :: 0 <= s < 256 ==> (l[s] > 0 <==> frequencies[s] > 0))
            && CodeUnits(l, m) ==
               (if UsedCount(frequencies) == 0 then 0 else if UsedCount(frequencies) == 1 then Pow2(m - 1) else Pow2(m))
  {
    UsedSize(frequencies, |frequencies|);
    ZeroTable(frequencies, m);
    if |Leaves(frequencies, |frequencies|)| == 0 {
      assert Used(frequencies, |frequencies|) == {};
    } else if |Leaves(frequencies, |frequencies|)| == 1 {
      OneLength(frequencies, m);
    } else {
      ManyLengths(frequencies, 255);
      ManyLengths(frequencies, m);
    }
    forall s | 0 <= s < 256 ensures frequencies[s] > 0 <==> s in Used(frequencies, |frequencies|) {}
  }

  lemma SingleLeaf(frequencies: seq<nat>, forest: seq<Tree>)
    requires Proper(forest, frequencies) && |forest| == 1 && forest[0].Leaf?
    ensures forest[0].symbol < |frequencies| && frequencies[forest[0].symbol] == forest[0].frequency > 0
    ensures AllSymbols(forest) == {forest[0].symbol}
  {
    assert AllSymbols(forest[..0]) == {};
  }

  // ---- optimality ----

  /** The lengths that an assignment for the whole table gives to the leaves below `n`. */
  function LeafLengths(frequencies: seq<nat>, alt: seq<nat>, n: nat): (r: seq<nat>)
    requires n <= |frequencies| == |alt|
    ensures |r| == |Leaves(frequencies, n)|
  {
    if n == 0 then []
    else if frequencies[n - 1] == 0 then LeafLengths(frequencies, alt, n - 1)
    else LeafLengths(frequencies, alt, n - 1) + [alt[n - 1]]
  }

  function UsedShares(frequencies: seq<nat>, alt: seq<nat>, m: nat): (p: seq<nat>)
    requires |frequencies| == |alt| && AtMost(alt, m)
    ensures |p| == |alt|
  {
    seq(|alt|, i requires 0 <= i < |alt| => if frequencies[i] == 0 then 0 else Pow2(m - alt[i]))
  }

  /** Kraft's inequality over the symbols that occur. */
  predicate Feasible(frequencies: seq<nat>, alt: seq<nat>, m: nat)
  {
    && |frequencies| == |alt| && AtMost(alt, m)
    && (forall s :: 0 <= s < |alt| && frequencies[s] > 0 ==> alt[s] >= 1)
    && Sum(UsedShares(frequencies, alt, m)) <= Pow2(m)
  }

  lemma {:induction false} LeafLengthsCost(frequencies: seq<nat>, alt: seq<nat>, n: nat)
    requires n <= |frequencies| == |alt|
    ensures Cost(Weights(Leaves(frequencies, n)), LeafLengths(frequencies, alt, n)) == Cost(frequencies[..n], alt[..n])
  {
    if n > 0 {
      var k := n - 1;
      LeafLengthsCost(frequencies, alt, k);
      assert frequencies[..n] == frequencies[..k] + [frequencies[k]] && alt[..n] == alt[..k] + [alt[k]];
      CostAppend(frequencies[..k], alt[..k], frequencies[k], alt[k]);
      if frequencies[k] > 0 {
        AppendInners(Leaves(frequencies, k), Leaf(k, frequencies[k]));
        CostAppend(Weights(Leaves(frequencies, k)), LeafLengths(frequencies, alt, k), frequencies[k], alt[k]);
      }
    }
  }

  lemma {:induction false} LeafLengthsUnits(frequencies: seq<nat>, alt: seq<nat>, n: nat, m: nat)
    requires n <= |frequencies| == |alt| && AtMost(alt, m)
    ensures AtMost(LeafLengths(frequencies, alt, n), m)
    ensures Units(LeafLengths(frequencies, alt, n), m) == Sum(UsedShares(frequencies[..n], alt[..n], m))
  {
    if n > 0 {
      var k := n - 1;
      LeafLengthsUnits(frequencies, alt, k, m);
      var share := if frequencies[k] == 0 then 0 else Pow2(m - alt[k]);
      SumAppend(UsedShares(frequencies[..k], alt[..k], m), share);
      assert UsedShares(frequencies[..n], alt[..n], m) == UsedShares(frequencies[..k], alt[..k], m) + [share];
      if frequencies[k] > 0 {
        UnitsAppend(LeafLengths(frequencies, alt, k), m, alt[k]);
      }
    }
  }

  lemma OneIsOptimal(frequencies: seq<nat>, alt: seq<nat>, m: nat)
    requires |frequencies| == 256 && Feasible(frequencies, alt, m) && |Leaves(frequencies, |frequencies|)| == 1
    ensures Cost(frequencies, CodeLengths(frequencies)) <= Cost(frequencies, alt)
  {
    var forest := Leaves(frequencies, |frequencies|);
    LeavesProper(frequencies, |frequencies|);
    var s := forest[0].symbol;
    ZeroTable(frequencies, m + 1);
    SingleLeaf(frequencies, forest);
    StoreLength(frequencies, NoLengths(), s, 1, m + 1);
    Monotone(1, alt[s], frequencies[s]);
    SumMember(Products(frequencies, alt), s);
  }

  /** What the leaves of the table cost under another assignment is what the table costs under it. */
  lemma LeavesBound(frequencies: seq<nat>, alt: seq<nat>, m: nat)
    requires |frequencies| == 256 && Feasible(frequencies, alt, m) && |Leaves(frequencies, |frequencies|)| >= 2
    ensures Inner(MergeAll(Leaves(frequencies, |frequencies|))) <= Cost(frequencies, alt)
  {
    var forest := Leaves(frequencies, |frequencies|);
    LeavesProper(frequencies, |frequencies|);
    LeafLengthsCost(frequencies, alt, |frequencies|);
    LeafLengthsUnits(frequencies, alt, |frequencies|, m);
    assert frequencies[..|frequencies|] == frequencies && alt[..|frequencies|] == alt;
    LeavesHaveNoInner(forest);
    MergeIsOptimal(forest, LeafLengths(frequencies, alt, |frequencies|), m);
  }

  /**
   No assignment of code lengths that gives every occurring byte at least one bit and satisfies
   Kraft's inequality encodes the input in fewer bits.
   */
  lemma LengthsAreOptimal(frequencies: seq<nat>, alt: seq<nat>, m: nat)
    requires |frequencies| == 256 && Feasible(frequencies, alt, m)
    ensures Cost(frequencies, CodeLengths(frequencies)) <= Cost(frequencies, alt)
  {
    var forest := Leaves(frequencies, |frequencies|);
    LeavesProper(frequencies, |frequencies|);
    if forest == [] {
      ZeroTable(frequencies, m);
    } else if |forest| == 1 {
      OneIsOptimal(frequencies, alt, m);
    } else {
      var t := MergeAll(forest);
      MergedIsGood(forest, frequencies);
      TreeLengths(t, frequencies, NoLengths(), Height(t));
      LeavesBound(frequencies, alt, m);
    }
  }

  lemma LeavesHaveNoInner(forest: seq<Tree>)
    requires forall i :: 0 <= i < |forest| ==> forest[i].Leaf?
    ensures Sum(Inners(forest)) == 0
  {
    SumZero(Inners(forest));
  }
}
