/**
 Why merging the two lightest trees is optimal.

 Code lengths are measured against Kraft's inequality in whole units: a code of length `l` takes
 `2^(m - l)` of the `2^m` units available, for any `m` at least as large as every length.
 */
module HuffmanOptimal {
  import opened Bytes

  datatype Tree = Leaf(symbol: nat, frequency: nat) | Node(left: Tree, right: Tree)

  function Weight(t: Tree): nat
  {
    match t
    case Leaf(_, f) => f
    case Node(l, r) => Weight(l) + Weight(r)
  }

  function MinimumSymbol(t: Tree): nat
  {
    match t
    case Leaf(s, _) => s
    case Node(l, r) => if MinimumSymbol(r) < MinimumSymbol(l) then MinimumSymbol(r) else MinimumSymbol(l)
  }

  function Symbols(t: Tree): set<nat>
  {
    match t
    case Leaf(s, _) => {s}
    case Node(l, r) => Symbols(l) + Symbols(r)
  }

  /** The order in which the queue hands out trees. */
  predicate Before(a: Tree, b: Tree)
  {
    Weight(a) < Weight(b) || (Weight(a) == Weight(b) && MinimumSymbol(a) < MinimumSymbol(b))
  }

  /** Index of the first tree no other tree comes before. */
  function LeastIndex(forest: seq<Tree>): (k: nat)
    requires forest != []
    ensures k < |forest|
    ensures forall i :: 0 <= i < |forest| ==> !Before(forest[i], forest[k])
  {
    if |forest| == 1 then 0 else
      var k := LeastIndex(forest[..|forest| - 1]);
      if Before(forest[|forest| - 1], forest[k]) then |forest| - 1 else k
  }

  /** One round of the merge loop: the two least trees become one. */
  function MergeStep(forest: seq<Tree>): (r: seq<Tree>)
    requires |forest| >= 2
    ensures |r| == |forest| - 1
  {
    var i := LeastIndex(forest);
    var rest := RemoveAt(forest, i);
    var j := LeastIndex(rest);
    RemoveAt(rest, j) + [Node(forest[i], rest[j])]
  }

  function MergeAll(forest: seq<Tree>): Tree
    requires forest != []
    decreases |forest|
  {
    if |forest| == 1 then forest[0] else MergeAll(MergeStep(forest))
  }

  // ---- measures ----

  /** Sum of the weights of the inner nodes: what the tree's codes cost in total. */
  function Inner(t: Tree): nat
  {
    match t
    case Leaf(_, _) => 0
    case Node(l, r) => Weight(t) + Inner(l) + Inner(r)
  }

  function Weights(forest: seq<Tree>): (w: seq<nat>)
    ensures |w| == |forest|
  {
    seq(|forest|, i requires 0 <= i < |forest| => Weight(forest[i]))
  }

  function Inners(forest: seq<Tree>): (w: seq<nat>)
    ensures |w| == |forest|
  {
    seq(|forest|, i requires 0 <= i < |forest| => Inner(forest[i]))
  }

  function Products(w: seq<nat>, l: seq<nat>): (p: seq<nat>)
    requires |w| == |l|
    ensures |p| == |w|
  {
    seq(|w|, i requires 0 <= i < |w| => w[i] * l[i])
  }

  /** Total number of bits when symbol `i` occurs `w[i]` times and has a code of length `l[i]`. */
  function Cost(w: seq<nat>, l: seq<nat>): nat
    requires |w| == |l|
  {
    Sum(Products(w, l))
  }

  predicate AtMost(l: seq<nat>, m: nat)
  {
    forall i :: 0 <= i < |l| ==> l[i] <= m
  }

  function Shares(l: seq<nat>, m: nat): (p: seq<nat>)
    requires AtMost(l, m)
    ensures |p| == |l|
  {
    seq(|l|, i requires 0 <= i < |l| => Pow2(m - l[i]))
  }

  function Units(l: seq<nat>, m: nat): nat
    requires AtMost(l, m)
  {
    Sum(Shares(l, m))
  }

  // ---- how the measures react to removing, replacing and appending ----

  lemma CostRemove(w: seq<nat>, l: seq<nat>, k: nat)
    requires |w| == |l| && k < |w|
    ensures Cost(w, l) == Cost(RemoveAt(w, k), RemoveAt(l, k)) + w[k] * l[k]
  {
    SumRemove(Products(w, l), k);
    assert RemoveAt(Products(w, l), k) == Products(RemoveAt(w, k), RemoveAt(l, k));
  }

  lemma CostUpdate(w: seq<nat>, l: seq<nat>, k: nat, x: nat)
    requires |w| == |l| && k < |w|
    ensures Cost(w, l[k := x]) + w[k] * l[k] == Cost(w, l) + w[k] * x
  {
    SumUpdate(Products(w, l), k, w[k] * x);
    assert Products(w, l)[k := w[k] * x] == Products(w, l[k := x]);
  }

  lemma CostAppend(w: seq<nat>, l: seq<nat>, a: nat, b: nat)
    requires |w| == |l|
    ensures Cost(w + [a], l + [b]) == Cost(w, l) + a * b
  {
    SumAppend(Products(w, l), a * b);
    assert Products(w + [a], l + [b]) == Products(w, l) + [a * b];
  }

  lemma UnitsRemove(l: seq<nat>, m: nat, k: nat)
    requires k < |l| && AtMost(l, m)
    ensures AtMost(RemoveAt(l, k), m)
    ensures Units(l, m) == Units(RemoveAt(l, k), m) + Pow2(m - l[k])
  {
    SumRemove(Shares(l, m), k);
    assert RemoveAt(Shares(l, m), k) == Shares(RemoveAt(l, k), m);
  }

  lemma UnitsUpdate(l: seq<nat>, m: nat, k: nat, x: nat)
    requires k < |l| && AtMost(l, m) && x <= m
    ensures AtMost(l[k := x], m)
    ensures Units(l[k := x], m) + Pow2(m - l[k]) == Units(l, m) + Pow2(m - x)
  {
    SumUpdate(Shares(l, m), k, Pow2(m - x));
    assert Shares(l, m)[k := Pow2(m - x)] == Shares(l[k := x], m);
  }

  lemma UnitsAppend(l: seq<nat>, m: nat, x: nat)
    requires AtMost(l, m) && x <= m
    ensures AtMost(l + [x], m)
    ensures Units(l + [x], m) == Units(l, m) + Pow2(m - x)
  {
    SumAppend(Shares(l, m), Pow2(m - x));
    assert Shares(l + [x], m) == Shares(l, m) + [Pow2(m - x)];
  }

  lemma Distribute(a: int, b: int, d: int)
    ensures (a + b) * d == a * d + b * d
  {
  }

  lemma Monotone(a: int, b: int, d: int)
    requires a <= b && 0 <= d
    ensures a * d <= b * d
  {
  }

  /** Lengths at most `longest` fill whole groups of `2^(m - longest)` units. */
  lemma {:induction false} UnitsDivide(l: seq<nat>, m: nat, longest: nat)
    requires longest <= m && AtMost(l, longest)
    ensures AtMost(l, m)
    ensures Units(l, m) == Units(l, longest) * Pow2(m - longest)
  {
    var n := |l| - 1;
    if l == [] {
      assert Shares(l, m) == Shares(l, longest) == [];
    } else {
      var last, short := l[n], l[..n];
      assert l == short + [last];
      UnitsDivide(short, m, longest);
      UnitsAppend(short, m, last);
      UnitsAppend(short, longest, last);
      Pow2Add(longest - last, m - longest);
      assert m - last == (longest - last) + (m - longest);
      Distribute(Units(short, longest), Pow2(longest - last), Pow2(m - longest));
    }
  }

  // ---- the exchange argument ----

  /** The position of a longest length. */
  lemma {:induction false} LongestAt(l: seq<nat>) returns (k: nat)
    requires l != []
    ensures k < |l| && AtMost(l, l[k])
  {
    var n := |l| - 1;
    if n == 0 {
      k := 0;
    } else {
      k := LongestAt(l[..n]);
      if l[k] < l[n] { k := n; }
    }
  }

  lemma Swap(a: nat, b: nat, short: nat, long: nat)
    requires a <= b && short <= long
    ensures a * long + b * short <= a * short + b * long
  {
    assert (b - a) * (long - short) >= 0;
  }

  /** A lightest symbol can take a longest length without raising the cost or moving any units. */
  lemma Exchange(a: nat, la: nat, w: seq<nat>, l: seq<nat>, m: nat) returns (la': nat, l': seq<nat>)
    requires |w| == |l| && AtMost(l, m) && la <= m
    requires forall i :: 0 <= i < |w| ==> a <= w[i]
    ensures |l'| == |l| && AtMost(l', la') && la <= la' <= m && AtMost(l', m)
    ensures la' == la || la' in l
    ensures a * la' + Cost(w, l') <= a * la + Cost(w, l)
    ensures Pow2(m - la') + Units(l', m) == Pow2(m - la) + Units(l, m)
  {
    la', l' := la, l;
    if l != [] {
      var k := LongestAt(l);
      if la < l[k] {
        la', l' := l[k], l[k := la];
        CostUpdate(w, l, k, la);
        UnitsUpdate(l, m, k, la);
        Swap(a, w[k], la, l[k]);
      }
    }
  }

  lemma WholeGroups(u: nat, p: nat, d: nat, some: nat)
    requires some >= 1 && some + d + u * d <= p * d
    ensures u + 2 <= p && 2 * d + u * d <= p * d
  {
    if p <= u + 1 {
      Monotone(p, u + 1, d);
      Distribute(u, 1, d);
      assert false;
    }
    Monotone(u + 2, p, d);
    Distribute(u, 2, d);
  }

  /** With the two lightest symbols holding the two longest lengths, both can be given the shorter of them. */
  lemma Level(la: nat, lb: nat, l: seq<nat>, m: nat)
    requires lb <= la <= m && AtMost(l, lb) && AtMost(l, m)
    requires Pow2(m - la) + Pow2(m - lb) + Units(l, m) <= Pow2(m)
    ensures lb >= 1
    ensures 2 * Pow2(m - lb) + Units(l, m) <= Pow2(m)
  {
    UnitsDivide(l, m, lb);
    Pow2Add(lb, m - lb);
    WholeGroups(Units(l, lb), Pow2(lb), Pow2(m - lb), Pow2(m - la));
  }

  lemma RemoveInners(forest: seq<Tree>, k: nat)
    requires k < |forest|
    ensures Sum(Inners(forest)) == Sum(Inners(RemoveAt(forest, k))) + Inner(forest[k])
    ensures Weights(RemoveAt(forest, k)) == RemoveAt(Weights(forest), k)
  {
    SumRemove(Inners(forest), k);
    assert RemoveAt(Inners(forest), k) == Inners(RemoveAt(forest, k));
  }

  lemma AppendInners(forest: seq<Tree>, t: Tree)
    ensures Sum(Inners(forest + [t])) == Sum(Inners(forest)) + Inner(t)
    ensures Weights(forest + [t]) == Weights(forest) + [Weight(t)]
  {
    SumAppend(Inners(forest), Inner(t));
    assert Inners(forest + [t]) == Inners(forest) + [Inner(t)];
  }

  lemma Shorter(a: nat, b: nat, la: nat, lb: nat)
    requires 1 <= lb <= la
    ensures (a + b) * (lb - 1) + a + b <= a * la + b * lb
  {
    Monotone(lb, la, a);
    Distribute(a, b, lb);
    Distribute(lb - 1, 1, a + b);
  }

  /**
   One merge: from any lengths for the forest, lengths for the merged forest that are cheaper by at
   least the weight of the new node.
   */
  lemma MergeLengths(forest: seq<Tree>, l: seq<nat>, m: nat) returns (l': seq<nat>)
    requires |forest| >= 2 && |l| == |forest|
    requires AtMost(l, m) && Units(l, m) <= Pow2(m)
    ensures |l'| == |l| - 1 && AtMost(l', m) && Units(l', m) <= Pow2(m)
    ensures Cost(Weights(MergeStep(forest)), l') + Sum(Inners(MergeStep(forest)))
         <= Cost(Weights(forest), l) + Sum(Inners(forest))
  {
    var i := LeastIndex(forest);
    var rest := RemoveAt(forest, i);
    var j := LeastIndex(rest);
    var last := RemoveAt(rest, j);
    var a, b := Weight(forest[i]), Weight(rest[j]);
    RemoveInners(forest, i);
    RemoveInners(rest, j);
    AppendInners(last, Node(forest[i], rest[j]));
    LeastWeights(forest, i);
    LeastWeights(rest, j);
    l' := MergeTwo(Weights(forest), i, Weights(rest), j, Weights(last), l, m);
  }

  lemma LeastWeights(forest: seq<Tree>, k: nat)
    requires forest != [] && k == LeastIndex(forest)
    ensures forall i :: 0 <= i < |forest| - 1 ==> Weights(forest)[k] <= Weights(RemoveAt(forest, k))[i]
  {
    forall i | 0 <= i < |forest| - 1 ensures Weights(forest)[k] <= Weights(RemoveAt(forest, k))[i] {
      var at := if i < k then i else i + 1;
      assert RemoveAt(forest, k)[i] == forest[at] && !Before(forest[at], forest[k]);
    }
  }

  /** Takes the lightest weight out, giving it a longest length first. */
  lemma TakeLightest(w: seq<nat>, i: nat, l: seq<nat>, m: nat) returns (la: nat, rest: seq<nat>)
    requires i < |w| == |l| && AtMost(l, m)
    requires forall k :: 0 <= k < |w| - 1 ==> w[i] <= RemoveAt(w, i)[k]
    ensures |rest| == |w| - 1 && AtMost(rest, la) && la in l && la <= m && AtMost(rest, m)
    ensures w[i] * la + Cost(RemoveAt(w, i), rest) <= Cost(w, l)
    ensures Pow2(m - la) + Units(rest, m) == Units(l, m)
  {
    CostRemove(w, l, i);
    UnitsRemove(l, m, i);
    la, rest := Exchange(w[i], l[i], RemoveAt(w, i), RemoveAt(l, i), m);
  }

  /** The arithmetic of a merge, on weights alone. */
  lemma MergeTwo(w: seq<nat>, i: nat, w1: seq<nat>, j: nat, w2: seq<nat>, l: seq<nat>, m: nat) returns (l': seq<nat>)
    requires i < |w| == |l| && w1 == RemoveAt(w, i) && j < |w1| && w2 == RemoveAt(w1, j)
    requires forall k :: 0 <= k < |w1| ==> w[i] <= w1[k]
    requires forall k :: 0 <= k < |w2| ==> w1[j] <= w2[k]
    requires AtMost(l, m) && Units(l, m) <= Pow2(m)
    ensures |l'| == |w2| + 1 && AtMost(l', m) && Units(l', m) <= Pow2(m)
    ensures Cost(w2 + [w[i] + w1[j]], l') + w[i] + w1[j] <= Cost(w, l)
  {
    var la, l1 := TakeLightest(w, i, l, m);
    var lb, l2 := TakeLightest(w1, j, l1, m);
    Level(la, lb, l2, m);
    l' := l2 + [lb - 1];
    UnitsAppend(l2, m, lb - 1);
    CostAppend(w2, l2, w[i] + w1[j], lb - 1);
    Shorter(w[i], w1[j], la, lb);
  }

  /**
   No assignment of lengths to the trees of a forest that satisfies Kraft's inequality is cheaper
   than what the merge loop arrives at.
   */
  lemma {:induction false} MergeIsOptimal(forest: seq<Tree>, l: seq<nat>, m: nat)
    requires forest != [] && |l| == |forest|
    requires AtMost(l, m) && Units(l, m) <= Pow2(m)
    ensures Inner(MergeAll(forest)) <= Cost(Weights(forest), l) + Sum(Inners(forest))
    decreases |forest|
  {
    if |forest| == 1 {
      AppendInners([], forest[0]);
      assert [] + [forest[0]] == forest;
    } else {
      var l' := MergeLengths(forest, l, m);
      MergeIsOptimal(MergeStep(forest), l', m);
    }
  }
}
