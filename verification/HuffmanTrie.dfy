/** The decoder's trie over a table of codes. */
module HuffmanTrie {
  import opened Bytes
  import opened Canonical

  datatype TrieNode = TrieNode(zero: int, one: int, symbol: int)

  function Child(node: TrieNode, bit: bit): int
  {
    if bit == 0 then node.zero else node.one
  }

  function WithChild(node: TrieNode, bit: bit, child: int): TrieNode
  {
    if bit == 0 then node.(zero := child) else node.(one := child)
  }

  const FreshNode := TrieNode(-1, -1, -1)

  /** `paths[i]` is the bit string that leads from the root to node `i`. */
  ghost predicate Shape(trie: seq<TrieNode>, paths: seq<HuffCode>)
  {
    && |paths| == |trie| > 0 && paths[0] == []
    && (forall i, j :: 0 <= i < j < |paths| ==> paths[i] != paths[j])
    && Closed(paths)
    && (forall i, b: bit :: 0 <= i < |trie| ==> ChildFits(trie, paths, i, b))
  }

  function Parent(path: HuffCode): HuffCode
    requires path != []
  {
    path[..|path| - 1]
  }

  /** The parent of a node's path is a node too. */
  ghost predicate HasParent(paths: seq<HuffCode>, i: nat)
    requires i < |paths|
  {
    paths[i] != [] ==> Parent(paths[i]) in paths
  }

  ghost predicate Closed(paths: seq<HuffCode>)
  {
    forall i {:trigger HasParent(paths, i)} :: 0 <= i < |paths| ==> HasParent(paths, i)
  }

  ghost predicate ChildFits(trie: seq<TrieNode>, paths: seq<HuffCode>, i: nat, b: bit)
    requires i < |trie| == |paths|
  {
    var c := Child(trie[i], b);
    if c < 0 then paths[i] + [b] !in paths else c < |trie| && paths[c] == paths[i] + [b]
  }

  /** Every node but the root lies on the path of one of the first `n` codes. */
  ghost predicate OnCodes(paths: seq<HuffCode>, codes: seq<HuffCode>, n: nat)
    requires n <= |codes|
  {
    forall i :: 0 <= i < |paths| && paths[i] != [] ==> exists s :: 0 <= s < n && paths[i] <= codes[s]
  }

  /** Every prefix of the first `n` codes is a node. */
  ghost predicate Spans(paths: seq<HuffCode>, codes: seq<HuffCode>, n: nat)
    requires n <= |codes|
  {
    forall s, k :: 0 <= s < n && 0 <= k <= |codes[s]| ==> codes[s][..k] in paths
  }

  /** A node carries a symbol exactly when its path is the code of one of the first `n` symbols. */
  ghost predicate Labels(trie: seq<TrieNode>, paths: seq<HuffCode>, codes: seq<HuffCode>, n: nat)
    requires |trie| == |paths| && n <= |codes|
  {
    && (forall i :: 0 <= i < |trie| && trie[i].symbol >= 0 ==>
          trie[i].symbol < n && codes[trie[i].symbol] == paths[i] != [])
    && (forall i, s :: 0 <= i < |trie| && 0 <= s < n && codes[s] != [] && paths[i] == codes[s] ==> trie[i].symbol >= 0)
  }

  ghost predicate TrieOf(trie: seq<TrieNode>, paths: seq<HuffCode>, codes: seq<HuffCode>, n: nat)
  {
    && n <= |codes| && Shape(trie, paths)
    && OnCodes(paths, codes, n) && Spans(paths, codes, n) && Labels(trie, paths, codes, n)
  }

  lemma OneNodePerPath(paths: seq<HuffCode>, i: nat, j: nat)
    requires forall i, j :: 0 <= i < j < |paths| ==> paths[i] != paths[j]
    requires i < |paths| && j < |paths| && paths[i] == paths[j]
    ensures i == j
  {
  }

  function AttachNode(trie: seq<TrieNode>, at: nat, bit: bit): (r: seq<TrieNode>)
    requires at < |trie|
    ensures |r| == |trie| + 1
  {
    trie[at := WithChild(trie[at], bit, |trie|)] + [FreshNode]
  }

  lemma AttachedChild(trie: seq<TrieNode>, paths: seq<HuffCode>, at: nat, bit: bit, i: nat, b: bit)
    requires Shape(trie, paths) && at < |trie| && Child(trie[at], bit) < 0 && i <= |trie|
    ensures ChildFits(AttachNode(trie, at, bit), paths + [paths[at] + [bit]], i, b)
  {
    var path := paths[at] + [bit];
    assert ChildFits(trie, paths, at, bit);
    if i == |trie| {
      NotBelow(paths, path, b);
    } else {
      assert ChildFits(trie, paths, i, b);
      if paths[i] + [b] == path {
        assert Parent(paths[i] + [b]) == paths[i] && Parent(path) == paths[at];
        OneNodePerPath(paths, i, at);
      }
    }
  }

  /** Attaching a new node below node `at`. */
  lemma AttachShape(trie: seq<TrieNode>, paths: seq<HuffCode>, at: nat, bit: bit)
    requires Shape(trie, paths) && at < |trie| && Child(trie[at], bit) < 0
    ensures Shape(AttachNode(trie, at, bit), paths + [paths[at] + [bit]])
  {
    var path := paths[at] + [bit];
    var grown, more := AttachNode(trie, at, bit), paths + [path];
    assert ChildFits(trie, paths, at, bit);
    assert path !in paths;
    forall i, b: bit | 0 <= i < |grown| ensures ChildFits(grown, more, i, b) {
      AttachedChild(trie, paths, at, bit, i, b);
    }
    forall i | 0 <= i < |more| ensures HasParent(more, i) {
      if i < |paths| {
        assert HasParent(paths, i);
      } else {
        assert Parent(path) == paths[at];
      }
    }
  }

  lemma NotBelow(paths: seq<HuffCode>, path: HuffCode, b: bit)
    requires Closed(paths) && path !in paths
    ensures path + [b] !in paths + [path]
  {
    assert Parent(path + [b]) == path;
    forall i | 0 <= i < |paths| ensures paths[i] != path + [b] {
      assert HasParent(paths, i);
    }
    assert |path + [b]| != |path|;
  }

  ghost predicate FirstPrefixFree(codes: seq<HuffCode>, n: nat)
    requires n <= |codes|
  {
    forall s, t :: 0 <= s < n && 0 <= t < n && s != t && codes[s] != [] && codes[t] != [] ==> !(codes[s] <= codes[t])
  }

  /** What holds of the trie while the code of `symbol` is being inserted. */
  ghost predicate Growing(trie: seq<TrieNode>, paths: seq<HuffCode>, codes: seq<HuffCode>, symbol: nat)
  {
    && symbol < |codes| && Shape(trie, paths) && Labels(trie, paths, codes, symbol)
    && OnCodes(paths, codes, symbol + 1) && Spans(paths, codes, symbol)
  }

  /** Node `node` stands at the first `k` bits of the code, all of whose prefixes are nodes up to there. */
  ghost predicate Reached(trie: seq<TrieNode>, paths: seq<HuffCode>, code: HuffCode, node: nat, k: nat)
  {
    && k <= |code| && node < |trie| == |paths| && paths[node] == code[..k]
    && forall j :: 0 <= j <= k ==> code[..j] in paths
  }

  /** Follows the next bit of the code, creating its node when there is none. */
  method Descend(trie: seq<TrieNode>, node: nat, bit: bit) returns (trie': seq<TrieNode>, node': int)
    requires node < |trie|
    ensures if Child(trie[node], bit) < 0 then trie' == AttachNode(trie, node, bit) && node' == |trie|
            else trie' == trie && node' == Child(trie[node], bit)
  {
    if Child(trie[node], bit) < 0 {
      trie', node' := AttachNode(trie, node, bit), |trie|;
    } else {
      trie', node' := trie, Child(trie[node], bit);
    }
  }

  /** The paths once the next bit of the code has been followed. */
  ghost function PathsAfter(trie: seq<TrieNode>, paths: seq<HuffCode>, node: nat, bit: bit): seq<HuffCode>
    requires node < |trie| == |paths|
  {
    if Child(trie[node], bit) < 0 then paths + [paths[node] + [bit]] else paths
  }

  lemma DescendKeeps(trie: seq<TrieNode>, paths: seq<HuffCode>, codes: seq<HuffCode>, symbol: nat, node: nat, k: nat,
                     trie': seq<TrieNode>, node': int)
    requires Growing(trie, paths, codes, symbol) && k < |codes[symbol]| && Reached(trie, paths, codes[symbol], node, k)
    requires var bit := codes[symbol][k];
             if Child(trie[node], bit) < 0 then trie' == AttachNode(trie, node, bit) && node' == |trie|
             else trie' == trie && node' == Child(trie[node], bit)
    ensures Growing(trie', PathsAfter(trie, paths, node, codes[symbol][k]), codes, symbol)
  {
    var bit := codes[symbol][k];
    if Child(trie[node], bit) < 0 {
      assert codes[symbol][..k] + [bit] == codes[symbol][..k + 1];
      Attach(trie, paths, codes, symbol, node, bit);
    }
  }

  lemma DescendReaches(trie: seq<TrieNode>, paths: seq<HuffCode>, code: HuffCode, node: nat, k: nat,
                       trie': seq<TrieNode>, node': int)
    requires Shape(trie, paths) && k < |code| && Reached(trie, paths, code, node, k)
    requires if Child(trie[node], code[k]) < 0 then trie' == AttachNode(trie, node, code[k]) && node' == |trie|
             else trie' == trie && node' == Child(trie[node], code[k])
    ensures node' >= 0 && Reached(trie', PathsAfter(trie, paths, node, code[k]), code, node', k + 1)
  {
    assert code[..k + 1] == code[..k] + [code[k]];
    assert ChildFits(trie, paths, node, code[k]);
    ReachedNext(trie, paths, trie', PathsAfter(trie, paths, node, code[k]), code, node, k, node');
  }

  lemma ReachedNext(trie: seq<TrieNode>, paths: seq<HuffCode>, trie': seq<TrieNode>, paths': seq<HuffCode>, code: HuffCode,
                    node: nat, k: nat, node': nat)
    requires k < |code| && Reached(trie, paths, code, node, k)
    requires paths <= paths' && |paths'| == |trie'| && node' < |paths'| && paths'[node'] == code[..k + 1]
    ensures Reached(trie', paths', code, node', k + 1)
  {
    forall j | 0 <= j <= k ensures code[..j] in paths' {
      assert code[..j] in paths;
    }
  }

  /** Extends the trie by one code; false when an earlier code is a prefix of it, or it of an earlier one. */
  method InsertCode(trie: seq<TrieNode>, ghost paths: seq<HuffCode>, codes: seq<HuffCode>, symbol: nat)
    returns (ok: bool, trie': seq<TrieNode>, ghost paths': seq<HuffCode>)
    requires symbol < |codes| && codes[symbol] != []
    requires TrieOf(trie, paths, codes, symbol) && FirstPrefixFree(codes, symbol)
    ensures ok <==> FirstPrefixFree(codes, symbol + 1)
    ensures ok ==> TrieOf(trie', paths', codes, symbol + 1)
  {
    trie', paths' := trie, paths;
    var code := codes[symbol];
    var node: nat, k: nat := 0, 0;
    assert code[..0] == [];
    while k < |code|
      invariant Growing(trie', paths', codes, symbol) && Reached(trie', paths', code, node, k)
      invariant NoneWithin(codes, symbol, k)
    {
      if trie'[node].symbol >= 0 {
        assert codes[trie'[node].symbol] <= code;
        return false, trie', paths';
      }
      StillNone(trie', paths', codes, symbol, node, k);
      var grown, next := Descend(trie', node, code[k]);
      DescendKeeps(trie', paths', codes, symbol, node, k, grown, next);
      DescendReaches(trie', paths', code, node, k, grown, next);
      paths' := PathsAfter(trie', paths', node, code[k]);
      trie', node, k := grown, next, k + 1;
    }
    assert code[..k] == code;
    if trie'[node].symbol >= 0 {
      assert codes[trie'[node].symbol] <= code;
      return false, trie', paths';
    }
    if trie'[node].zero >= 0 || trie'[node].one >= 0 {
      HasLonger(trie', paths', codes, symbol, node, if trie'[node].zero >= 0 then 0 else 1);
      return false, trie', paths';
    }
    Separate(trie', paths', codes, symbol, node);
    Finished(trie', paths', codes, symbol, node);
    trie' := trie'[node := trie'[node].(symbol := symbol)];
    ok := true;
  }

  /** None of the earlier codes shorter than `k` is a prefix of the code of `symbol`. */
  ghost predicate NoneWithin(codes: seq<HuffCode>, symbol: nat, k: nat)
    requires symbol < |codes|
  {
    forall t :: 0 <= t < symbol && codes[t] != [] && |codes[t]| < k ==> !(codes[t] <= codes[symbol])
  }

  lemma StillNone(trie: seq<TrieNode>, paths: seq<HuffCode>, codes: seq<HuffCode>, symbol: nat, node: nat, k: nat)
    requires symbol < |codes| && |trie| == |paths| && Labels(trie, paths, codes, symbol)
    requires Reached(trie, paths, codes[symbol], node, k)
    requires NoneWithin(codes, symbol, k) && trie[node].symbol < 0
    ensures NoneWithin(codes, symbol, k + 1)
  {
    forall t | 0 <= t < symbol && codes[t] != [] && |codes[t]| == k ensures !(codes[t] <= codes[symbol]) {
      assert codes[t] != paths[node];
    }
  }

  lemma Attach(trie: seq<TrieNode>, paths: seq<HuffCode>, codes: seq<HuffCode>, symbol: nat, node: nat, bit: bit)
    requires Growing(trie, paths, codes, symbol)
    requires node < |trie| && Child(trie[node], bit) < 0 && paths[node] + [bit] <= codes[symbol]
    ensures Growing(AttachNode(trie, node, bit), paths + [paths[node] + [bit]], codes, symbol)
  {
    AttachShape(trie, paths, node, bit);
    assert ChildFits(trie, paths, node, bit);
    AttachLabels(trie, paths, codes, symbol, node, bit);
    AttachSpans(paths, paths[node] + [bit], codes, symbol);
  }

  lemma AttachSpans(paths: seq<HuffCode>, path: HuffCode, codes: seq<HuffCode>, symbol: nat)
    requires symbol < |codes| && path <= codes[symbol]
    requires OnCodes(paths, codes, symbol + 1) && Spans(paths, codes, symbol)
    ensures OnCodes(paths + [path], codes, symbol + 1) && Spans(paths + [path], codes, symbol)
  {
  }

  lemma AttachLabels(trie: seq<TrieNode>, paths: seq<HuffCode>, codes: seq<HuffCode>, symbol: nat, node: nat, bit: bit)
    requires symbol < |codes| && |trie| == |paths| && Labels(trie, paths, codes, symbol) && Spans(paths, codes, symbol)
    requires node < |trie| && paths[node] + [bit] !in paths
    ensures Labels(AttachNode(trie, node, bit), paths + [paths[node] + [bit]], codes, symbol)
  {
    forall s | 0 <= s < symbol ensures codes[s] in paths {
      assert codes[s][..|codes[s]|] == codes[s];
    }
  }

  lemma HasLonger(trie: seq<TrieNode>, paths: seq<HuffCode>, codes: seq<HuffCode>, symbol: nat, node: nat, bit: bit)
    requires symbol < |codes| && codes[symbol] != [] && Shape(trie, paths) && OnCodes(paths, codes, symbol + 1)
    requires node < |trie| && paths[node] == codes[symbol] && Child(trie[node], bit) >= 0
    ensures !FirstPrefixFree(codes, symbol + 1)
  {
    assert ChildFits(trie, paths, node, bit);
    var c := Child(trie[node], bit);
    var t :| 0 <= t < symbol + 1 && paths[c] <= codes[t];
    assert codes[symbol] <= codes[t];
  }

  /** No check fired, so the new code and the earlier ones are not prefixes of each other. */
  lemma Separate(trie: seq<TrieNode>, paths: seq<HuffCode>, codes: seq<HuffCode>, symbol: nat, node: nat)
    requires Growing(trie, paths, codes, symbol) && codes[symbol] != [] && FirstPrefixFree(codes, symbol)
    requires node < |trie| && paths[node] == codes[symbol]
    requires trie[node].symbol < 0 && trie[node].zero < 0 && trie[node].one < 0
    requires NoneWithin(codes, symbol, |codes[symbol]|)
    ensures FirstPrefixFree(codes, symbol + 1)
  {
    forall t | 0 <= t < symbol && codes[t] != []
      ensures !(codes[t] <= codes[symbol]) && !(codes[symbol] <= codes[t])
    {
      assert codes[t] != codes[symbol];
      if codes[symbol] <= codes[t] {
        LongerMeansChild(trie, paths, codes[symbol], codes[t], node);
      }
    }
  }

  lemma LongerMeansChild(trie: seq<TrieNode>, paths: seq<HuffCode>, code: HuffCode, longer: HuffCode, node: nat)
    requires Shape(trie, paths) && node < |trie| && paths[node] == code
    requires code < longer && longer[..|code| + 1] in paths
    ensures trie[node].zero >= 0 || trie[node].one >= 0
  {
    var bit := longer[|code|];
    assert longer[..|code| + 1] == code + [bit];
    assert ChildFits(trie, paths, node, bit);
  }

  lemma Finished(trie: seq<TrieNode>, paths: seq<HuffCode>, codes: seq<HuffCode>, symbol: nat, node: nat)
    requires Growing(trie, paths, codes, symbol) && codes[symbol] != [] && FirstPrefixFree(codes, symbol + 1)
    requires Reached(trie, paths, codes[symbol], node, |codes[symbol]|)
    ensures TrieOf(trie[node := trie[node].(symbol := symbol)], paths, codes, symbol + 1)
  {
    var done := trie[node := trie[node].(symbol := symbol)];
    assert codes[symbol][..|codes[symbol]|] == codes[symbol];
    forall i, b: bit | 0 <= i < |done| ensures ChildFits(done, paths, i, b) {
      assert ChildFits(trie, paths, i, b);
    }
    forall i, s | 0 <= i < |done| && 0 <= s < symbol + 1 && codes[s] != [] && paths[i] == codes[s]
      ensures done[i].symbol >= 0
    {
      if s == symbol {
        OneNodePerPath(paths, i, node);
      }
    }
  }

  /** Builds the trie; refuses exactly the tables that are not prefix-free. */
  method BuildTrie(codes: seq<HuffCode>) returns (ok: bool, trie: seq<TrieNode>, symbolCount: nat, ghost paths: seq<HuffCode>)
    ensures ok <==> PrefixFree(codes)
    ensures ok ==> TrieOf(trie, paths, codes, |codes|)
    ensures ok ==> (symbolCount == 0 <==> forall s :: 0 <= s < |codes| ==> codes[s] == [])
  {
    trie, paths, symbolCount := [FreshNode], [[]], 0;
    var symbol := 0;
    while symbol < |codes|
      invariant 0 <= symbol <= |codes| && FirstPrefixFree(codes, symbol)
      invariant TrieOf(trie, paths, codes, symbol)
      invariant symbolCount == 0 <==> forall s :: 0 <= s < symbol ==> codes[s] == []
    {
      if codes[symbol] == [] {
        SkipSymbol(trie, paths, codes, symbol);
      } else {
        symbolCount := symbolCount + 1;
        ok, trie, paths := InsertCode(trie, paths, codes, symbol);
        if !ok {
          return;
        }
      }
      symbol := symbol + 1;
    }
    ok := true;
  }

  lemma SkipSymbol(trie: seq<TrieNode>, paths: seq<HuffCode>, codes: seq<HuffCode>, symbol: nat)
    requires symbol < |codes| && codes[symbol] == [] && TrieOf(trie, paths, codes, symbol)
    ensures TrieOf(trie, paths, codes, symbol + 1)
  {
    assert forall k :: 0 <= k <= |codes[symbol]| ==> codes[symbol][..k] == paths[0];
  }
}
