/** The tree builder in the program's own form: a growing vector of nodes and a queue of indices into it. */
module HuffmanBuilder {
  import opened Bytes
  import opened HuffmanOptimal
  import opened HuffmanLengths

  datatype HuffNode = HuffNode(frequency: nat, symbol: int, minimumSymbol: nat, left: int, right: int)

  /** Inner nodes refer to earlier nodes only. */
  ghost predicate Linked(nodes: seq<HuffNode>)
  {
    forall i :: 0 <= i < |nodes| ==>
      if nodes[i].symbol >= 0 then nodes[i].symbol < 256 else 0 <= nodes[i].left < i && 0 <= nodes[i].right < i
  }

  ghost function TreeAt(nodes: seq<HuffNode>, i: nat): Tree
    requires Linked(nodes) && i < |nodes|
    decreases i
  {
    if nodes[i].symbol >= 0 then Leaf(nodes[i].symbol, nodes[i].frequency)
    else Node(TreeAt(nodes, nodes[i].left), TreeAt(nodes, nodes[i].right))
  }

  /** The cached frequency and minimum symbol of every node are those of its tree. */
  ghost predicate Consistent(nodes: seq<HuffNode>)
  {
    && Linked(nodes)
    && forall i :: 0 <= i < |nodes| ==>
         nodes[i].frequency == Weight(TreeAt(nodes, i)) && nodes[i].minimumSymbol == MinimumSymbol(TreeAt(nodes, i))
  }

  predicate InRange(queue: seq<nat>, n: nat)
  {
    forall k :: 0 <= k < |queue| ==> queue[k] < n
  }

  ghost function Forest(nodes: seq<HuffNode>, queue: seq<nat>): (f: seq<Tree>)
    requires Linked(nodes) && InRange(queue, |nodes|)
    ensures |f| == |queue|
  {
    seq(|queue|, k requires 0 <= k < |queue| => TreeAt(nodes, queue[k]))
  }

  lemma {:induction false} TreeAtStable(nodes: seq<HuffNode>, x: HuffNode, i: nat)
    requires Linked(nodes) && Linked(nodes + [x]) && i < |nodes|
    ensures TreeAt(nodes + [x], i) == TreeAt(nodes, i)
    decreases i
  {
    if nodes[i].symbol < 0 {
      TreeAtStable(nodes, x, nodes[i].left);
      TreeAtStable(nodes, x, nodes[i].right);
    }
  }

  /** Appending a node that fits keeps every earlier tree. */
  lemma Grow(nodes: seq<HuffNode>, queue: seq<nat>, x: HuffNode, t: Tree)
    requires Consistent(nodes) && InRange(queue, |nodes|)
    requires x.frequency == Weight(t) && x.minimumSymbol == MinimumSymbol(t)
    requires if x.symbol >= 0 then x.symbol < 256 && t == Leaf(x.symbol, x.frequency)
             else 0 <= x.left < |nodes| && 0 <= x.right < |nodes|
                  && t == Node(TreeAt(nodes, x.left), TreeAt(nodes, x.right))
    ensures Consistent(nodes + [x]) && InRange(queue + [|nodes|], |nodes + [x]|)
    ensures Forest(nodes + [x], queue + [|nodes|]) == Forest(nodes, queue) + [t]
  {
    var more := nodes + [x];
    assert forall i :: 0 <= i < |nodes| ==> more[i] == nodes[i];
    forall i | 0 <= i < |nodes| ensures TreeAt(more, i) == TreeAt(nodes, i) {
      TreeAtStable(nodes, x, i);
    }
    assert TreeAt(more, |nodes|) == t;
  }

  /** top() and pop() of the queue: an index that no other index is ordered before. */
  method PopTop(nodes: seq<HuffNode>, queue: seq<nat>) returns (top: nat, rest: seq<nat>)
    requires Consistent(nodes) && InRange(queue, |nodes|) && queue != []
    ensures top < |nodes| && InRange(rest, |nodes|) && |rest| == |queue| - 1
    ensures var forest := Forest(nodes, queue); var k := LeastIndex(forest);
            TreeAt(nodes, top) == forest[k] && Forest(nodes, rest) == RemoveAt(forest, k)
  {
    var k := TopPosition(nodes, queue);
    top, rest := queue[k], RemoveAt(queue, k);
    assert Forest(nodes, rest) == RemoveAt(Forest(nodes, queue), k);
  }

  method TopPosition(nodes: seq<HuffNode>, queue: seq<nat>) returns (k: nat)
    requires Consistent(nodes) && InRange(queue, |nodes|) && queue != []
    ensures k == LeastIndex(Forest(nodes, queue))
  {
    ghost var forest := Forest(nodes, queue);
    k := 0;
    var i := 1;
    while i < |queue|
      invariant 1 <= i <= |queue| && k < i
      invariant k == LeastIndex(forest[..i])
    {
      var x, y := nodes[queue[i]], nodes[queue[k]];
      assert forest[..i + 1][..i] == forest[..i];
      assert forest[i] == TreeAt(nodes, queue[i]) && forest[k] == TreeAt(nodes, queue[k]);
      if x.frequency < y.frequency || (x.frequency == y.frequency && x.minimumSymbol < y.minimumSymbol) {
        k := i;
      }
      i := i + 1;
    }
    assert forest[..i] == forest;
  }

  /** The recursive visit that writes each leaf's depth into the table. */
  method Visit(nodes: seq<HuffNode>, index: nat, depth: nat, lengths: array<byte>)
    requires Linked(nodes) && index < |nodes| && lengths.Length == 256
    requires Within(TreeAt(nodes, index), 256) && depth + Height(TreeAt(nodes, index)) <= 255
    modifies lengths
    ensures lengths[..] == AssignDepths(TreeAt(nodes, index), depth, old(lengths[..]))
    decreases index
  {
    if nodes[index].symbol >= 0 {
      lengths[nodes[index].symbol] := if depth < 1 then 1 else depth;
    } else {
      Visit(nodes, nodes[index].left, depth + 1, lengths);
      Visit(nodes, nodes[index].right, depth + 1, lengths);
    }
  }

  /** One node per occurring byte value, in ascending order. */
  method CollectLeaves(frequencies: seq<nat>) returns (nodes: seq<HuffNode>, queue: seq<nat>)
    requires |frequencies| == 256
    ensures Consistent(nodes) && InRange(queue, |nodes|)
    ensures Forest(nodes, queue) == Leaves(frequencies, |frequencies|)
  {
    nodes, queue := [], [];
    var symbol := 0;
    while symbol < 256
      invariant 0 <= symbol <= 256 && Consistent(nodes) && InRange(queue, |nodes|)
      invariant Forest(nodes, queue) == Leaves(frequencies, symbol)
    {
      if frequencies[symbol] != 0 {
        var x := HuffNode(frequencies[symbol], symbol, symbol, -1, -1);
        Grow(nodes, queue, x, Leaf(symbol, frequencies[symbol]));
        queue := queue + [|nodes|];
        nodes := nodes + [x];
      }
      symbol := symbol + 1;
    }
  }

  /** One round of the merge loop. The 64-bit sum cannot wrap while the weights stay below 2^64. */
  method MergeTop(nodes: seq<HuffNode>, queue: seq<nat>, ghost frequencies: seq<nat>)
    returns (nodes': seq<HuffNode>, queue': seq<nat>)
    requires Consistent(nodes) && InRange(queue, |nodes|) && |queue| >= 2
    requires Proper(Forest(nodes, queue), frequencies) && Sum(Weights(Forest(nodes, queue))) < UINT64
    ensures Consistent(nodes') && InRange(queue', |nodes'|) && |queue'| == |queue| - 1
    ensures Forest(nodes', queue') == MergeStep(Forest(nodes, queue))
  {
    var left, right, last := PopTwo(nodes, queue);
    NodeFits(Forest(nodes, queue), frequencies);
    var sum := (nodes[left].frequency + nodes[right].frequency) % UINT64;
    var least := if nodes[right].minimumSymbol < nodes[left].minimumSymbol
                 then nodes[right].minimumSymbol else nodes[left].minimumSymbol;
    nodes', queue' := AddNode(nodes, last, sum, least, left, right);
  }

  method PopTwo(nodes: seq<HuffNode>, queue: seq<nat>) returns (left: nat, right: nat, last: seq<nat>)
    requires Consistent(nodes) && InRange(queue, |nodes|) && |queue| >= 2
    ensures left < |nodes| && right < |nodes| && InRange(last, |nodes|) && |last| == |queue| - 2
    ensures MergeStep(Forest(nodes, queue)) ==
            Forest(nodes, last) + [Node(TreeAt(nodes, left), TreeAt(nodes, right))]
  {
    var rest;
    left, rest := PopTop(nodes, queue);
    right, last := PopTop(nodes, rest);
  }

  method AddNode(nodes: seq<HuffNode>, queue: seq<nat>, frequency: nat, minimumSymbol: nat, left: nat, right: nat)
    returns (nodes': seq<HuffNode>, queue': seq<nat>)
    requires Consistent(nodes) && InRange(queue, |nodes|) && left < |nodes| && right < |nodes|
    requires var t := Node(TreeAt(nodes, left), TreeAt(nodes, right));
             frequency == Weight(t) && minimumSymbol == MinimumSymbol(t)
    ensures Consistent(nodes') && InRange(queue', |nodes'|) && |queue'| == |queue| + 1
    ensures Forest(nodes', queue') == Forest(nodes, queue) + [Node(TreeAt(nodes, left), TreeAt(nodes, right))]
  {
    var x := HuffNode(frequency, -1, minimumSymbol, left, right);
    Grow(nodes, queue, x, Node(TreeAt(nodes, left), TreeAt(nodes, right)));
    nodes', queue' := nodes + [x], queue + [|nodes|];
  }

  lemma NodeFits(forest: seq<Tree>, frequencies: seq<nat>)
    requires |forest| >= 2 && Proper(forest, frequencies) && Sum(Weights(forest)) < UINT64
    ensures var s := MergeStep(forest); Weight(s[|s| - 1]) < UINT64
  {
    MergeProper(forest, frequencies);
    SumMember(Weights(MergeStep(forest)), |forest| - 2);
  }

  method MergeLoop(nodes: seq<HuffNode>, queue: seq<nat>, ghost frequencies: seq<nat>)
    returns (nodes': seq<HuffNode>, root: nat)
    requires Consistent(nodes) && InRange(queue, |nodes|) && queue != []
    requires Proper(Forest(nodes, queue), frequencies) && Sum(Weights(Forest(nodes, queue))) < UINT64
    ensures Linked(nodes') && root < |nodes'|
    ensures TreeAt(nodes', root) == MergeAll(Forest(nodes, queue))
  {
    nodes' := nodes;
    var live := queue;
    while |live| > 1
      invariant live != [] && Consistent(nodes') && InRange(live, |nodes'|)
      invariant Proper(Forest(nodes', live), frequencies)
      invariant Sum(Weights(Forest(nodes', live))) < UINT64
      invariant MergeAll(Forest(nodes', live)) == MergeAll(Forest(nodes, queue))
    {
      MergeProper(Forest(nodes', live), frequencies);
      nodes', live := MergeTop(nodes', live, frequencies);
    }
    root := live[0];
    assert Forest(nodes', live)[0] == TreeAt(nodes', root);
  }

  method BuildHuffmanLengths(frequencies: seq<nat>) returns (result: seq<byte>)
    requires |frequencies| == 256 && Sum(frequencies) < UINT64
    ensures result == CodeLengths(frequencies)
  {
    var nodes, queue := CollectLeaves(frequencies);
    ghost var leaves := Forest(nodes, queue);
    LeavesProper(frequencies, |frequencies|);
    assert frequencies[..|frequencies|] == frequencies;
    var lengths := new byte[256](_ => 0);
    assert lengths[..] == NoLengths();
    if |queue| == 1 {
      assert leaves[0] == TreeAt(nodes, queue[0]);
      lengths[nodes[queue[0]].symbol] := 1;
    } else if |queue| > 1 {
      var root;
      nodes, root := MergeLoop(nodes, queue, frequencies);
      MergedHeight(frequencies);
      Visit(nodes, root, 0, lengths);
    }
    result := lengths[..];
  }

  lemma MergedHeight(frequencies: seq<nat>)
    requires |frequencies| == 256 && Leaves(frequencies, |frequencies|) != []
    ensures var t := MergeAll(Leaves(frequencies, |frequencies|)); Within(t, 256) && Height(t) <= 255
  {
    LeavesProper(frequencies, |frequencies|);
    var t := MergeAll(Leaves(frequencies, |frequencies|));
    MergedIsGood(Leaves(frequencies, |frequencies|), frequencies);
    GoodWithin(t, frequencies);
    HeightBound(t, frequencies);
    UsedSize(frequencies, |frequencies|);
  }
}
