/** Scanning a source directory: selection, the pruned walk, and hardlink detection. */
module Scan {
  import opened Bytes
  import opened Paths
  import opened Entries

  /** What `lstat` and `readlink` report; the kind is never a hardlink. */
  datatype Stat = Stat(kind: Kind, mode: nat, uid: nat, gid: nat, size: nat, atime: Time, mtime: Time, ctime: Time,
                       link: Text, device: nat, volume: nat, inode: nat)

  /** A source tree; the children of a directory come in the order the system yields them. */
  datatype Tree = Tree(stat: Stat, children: seq<Child>)

  datatype Child = Child(name: Text, tree: Tree)

  datatype Item = Item(path: Text, stat: Stat)

  // ---- the source tree ----

  /** Sibling names are real names and distinct, and only directories have children. */
  ghost predicate Named(children: seq<Child>)
    decreases children
  {
    children != [] ==>
      && SafeName(children[0].name) && !children[0].tree.stat.kind.Hardlink?
      && (children[0].tree.children != [] ==> children[0].tree.stat.kind.Directory?)
      && (forall i :: 1 <= i < |children| ==> children[i].name != children[0].name)
      && Named(children[0].tree.children) && Named(children[1..])
  }

  /** The source-relative path of a child; the root itself is the empty path. */
  function Relative(base: Text, name: Text): (p: Text)
    ensures base != [] ==> IsAncestor(base, p)
  {
    if base == [] then name else Below(base, name)
  }

  /** Everything below a directory, in walking order. */
  function Everything(base: Text, children: seq<Child>): seq<Item>
    decreases children
  {
    if children == [] then []
    else
      var path := Relative(base, children[0].name);
      [Item(path, children[0].tree.stat)] + Everything(path, children[0].tree.children) + Everything(base, children[1..])
  }

  // ---- the selection ----

  /** The entry is selected, or stands above a selected path, or below one; an empty selection is the whole tree. */
  ghost predicate Wanted(selected: seq<Text>, p: Text)
  {
    selected == [] || p in selected || (exists q :: q in selected && IsAncestor(p, q)) || (exists a :: a in selected && IsAncestor(a, p))
  }

  /** Above an unwanted path nothing is lost: below it nothing is wanted either. */
  lemma UnwantedBelow(selected: seq<Text>, p: Text, d: Text)
    requires !Wanted(selected, p) && IsAncestor(p, d)
    ensures !Wanted(selected, d)
  {
    forall q | q in selected && IsAncestor(d, q) ensures IsAncestor(p, q) {
      AncestorTransitive(p, d, q);
    }
    forall a | a in selected && IsAncestor(a, d) ensures a == p || IsAncestor(a, p) || IsAncestor(p, a) {
      AncestorsOrdered(a, p, d);
    }
  }

  /** What is above a wanted path is wanted. */
  lemma WantedAbove(selected: seq<Text>, p: Text, a: Text)
    requires Wanted(selected, p) && IsAncestor(a, p)
    ensures Wanted(selected, a)
  {
    if !Wanted(selected, a) {
      UnwantedBelow(selected, a, p);
    }
  }

  function Chosen(items: seq<Item>, keep: Item -> bool): seq<Item>
  {
    if items == [] then [] else (if keep(items[0]) then [items[0]] else []) + Chosen(items[1..], keep)
  }

  ghost function Keeping(selected: seq<Text>): Item -> bool
  {
    (item: Item) => Wanted(selected, item.path)
  }

  /** The walk: an unwanted directory is not entered. */
  ghost function Walk(base: Text, children: seq<Child>, keep: Item -> bool): seq<Item>
    decreases children
  {
    if children == [] then []
    else
      var item := Item(Relative(base, children[0].name), children[0].tree.stat);
      (if keep(item) then [item] + Walk(item.path, children[0].tree.children, keep) else []) + Walk(base, children[1..], keep)
  }

  lemma {:induction false} ChosenConcat(a: seq<Item>, b: seq<Item>, keep: Item -> bool)
    ensures Chosen(a + b, keep) == Chosen(a, keep) + Chosen(b, keep)
  {
    if a == [] {
      assert a + b == b;
    } else {
      ChosenConcat(a[1..], b, keep);
      assert (a + b)[1..] == a[1..] + b;
      Associative(if keep(a[0]) then [a[0]] else [], Chosen(a[1..], keep), Chosen(b, keep));
    }
  }

  lemma {:induction false} ChosenNone(items: seq<Item>, keep: Item -> bool)
    requires forall i :: 0 <= i < |items| ==> !keep(items[i])
    ensures Chosen(items, keep) == []
  {
    if items != [] {
      ChosenNone(items[1..], keep);
    }
  }

  lemma {:induction false} EverythingBelow(base: Text, children: seq<Child>, i: nat)
    requires base != [] && i < |Everything(base, children)|
    ensures IsAncestor(base, Everything(base, children)[i].path)
    decreases children
  {
    var path := Relative(base, children[0].name);
    var inner := Everything(path, children[0].tree.children);
    if 1 <= i < 1 + |inner| {
      EverythingBelow(path, children[0].tree.children, i - 1);
      AncestorTransitive(base, path, inner[i - 1].path);
    } else if i >= 1 + |inner| {
      EverythingBelow(base, children[1..], i - 1 - |inner|);
    }
  }

  /** Pruning loses nothing: the walk yields exactly the wanted part of the tree. */
  lemma {:induction false} WalkIsChosen(base: Text, children: seq<Child>, selected: seq<Text>)
    requires Named(children)
    ensures Walk(base, children, Keeping(selected)) == Chosen(Everything(base, children), Keeping(selected))
    decreases children
  {
    if children != [] {
      var keep := Keeping(selected);
      var item := Item(Relative(base, children[0].name), children[0].tree.stat);
      var inner, rest := Everything(item.path, children[0].tree.children), Everything(base, children[1..]);
      WalkIsChosen(item.path, children[0].tree.children, selected);
      WalkIsChosen(base, children[1..], selected);
      ChosenConcat([item] + inner, rest, keep);
      ChosenConcat([item], inner, keep);
      assert Chosen([item], keep) == if keep(item) then [item] else [];
      if !keep(item) {
        forall i | 0 <= i < |inner| ensures !keep(inner[i]) {
          EverythingBelow(item.path, children[0].tree.children, i);
          UnwantedBelow(selected, item.path, inner[i].path);
        }
        ChosenNone(inner, keep);
      }
    }
  }

  lemma {:induction false} ChosenMember(items: seq<Item>, keep: Item -> bool, x: Item)
    ensures x in Chosen(items, keep) <==> x in items && keep(x)
  {
    if items != [] {
      ChosenMember(items[1..], keep, x);
    }
  }

  ghost predicate DistinctItems(items: seq<Item>)
  {
    forall i, j :: 0 <= i < j < |items| ==> items[i].path != items[j].path
  }

  lemma {:induction false} ChosenDistinct(items: seq<Item>, keep: Item -> bool)
    requires DistinctItems(items)
    ensures DistinctItems(Chosen(items, keep))
  {
    if items != [] {
      ChosenDistinct(items[1..], keep);
      var rest := Chosen(items[1..], keep);
      forall j | 0 <= j < |rest| ensures rest[j].path != items[0].path {
        ChosenMember(items[1..], keep, rest[j]);
        var k :| 0 <= k < |items| - 1 && items[1..][k] == rest[j];
        assert items[k + 1] == rest[j];
      }
    }
  }

  // ---- facts about the whole tree ----

  predicate Under(top: Text, p: Text)
  {
    p == top || IsAncestor(top, p)
  }

  /** Nothing lies between a directory and its child. */
  lemma NothingBetween(base: Text, name: Text, a: Text)
    requires SafeName(name) && (base == [] || IsAncestor(base, a))
    ensures !IsAncestor(a, Relative(base, name))
  {
  }

  /** What is under one child is not under another. */
  lemma TopsApart(base: Text, first: Text, second: Text, p: Text)
    requires SafeName(first) && SafeName(second) && first != second && Under(Relative(base, first), p)
    ensures !Under(Relative(base, second), p)
  {
    var a, b := Relative(base, first), Relative(base, second);
    NothingBetween(base, second, a);
    NothingBetween(base, first, b);
    if base != [] {
      assert a[|base| + 1..] == first && b[|base| + 1..] == second;
    }
    if IsAncestor(a, p) && IsAncestor(b, p) {
      AncestorsOrdered(a, b, p);
    }
  }

  lemma {:induction false} EverythingUnderChild(base: Text, children: seq<Child>, i: nat) returns (c: nat)
    requires Named(children) && i < |Everything(base, children)|
    ensures c < |children| && Under(Relative(base, children[c].name), Everything(base, children)[i].path)
    decreases children
  {
    var path := Relative(base, children[0].name);
    var inner := Everything(path, children[0].tree.children);
    if i <= |inner| {
      c := 0;
      if i > 0 {
        EverythingBelow(path, children[0].tree.children, i - 1);
      }
    } else {
      c := EverythingUnderChild(base, children[1..], i - 1 - |inner|);
      c := c + 1;
    }
  }

  lemma NamedChild(children: seq<Child>, c: nat)
    requires Named(children) && c < |children|
    ensures SafeName(children[c].name) && (c > 0 ==> children[c].name != children[0].name)
    decreases c
  {
    if c > 0 {
      NamedChild(children[1..], c - 1);
    }
  }

  /** No two entries of a source tree have the same path. */
  lemma {:induction false} EverythingDistinct(base: Text, children: seq<Child>)
    requires Named(children)
    ensures DistinctItems(Everything(base, children))
    decreases children
  {
    if children != [] {
      var path := Relative(base, children[0].name);
      var inner, rest := Everything(path, children[0].tree.children), Everything(base, children[1..]);
      EverythingDistinct(path, children[0].tree.children);
      EverythingDistinct(base, children[1..]);
      forall i | 0 <= i < |inner| ensures IsAncestor(path, inner[i].path) {
        EverythingBelow(path, children[0].tree.children, i);
      }
      forall j | 0 <= j < |rest| ensures !Under(path, rest[j].path) {
        var c := EverythingUnderChild(base, children[1..], j);
        NamedChild(children, c + 1);
        TopsApart(base, children[c + 1].name, children[0].name, rest[j].path);
      }
      BlocksDistinct(Item(path, children[0].tree.stat), inner, rest);
    }
  }

  lemma BlocksDistinct(first: Item, inner: seq<Item>, rest: seq<Item>)
    requires DistinctItems(inner) && DistinctItems(rest)
    requires forall i :: 0 <= i < |inner| ==> IsAncestor(first.path, inner[i].path)
    requires forall j :: 0 <= j < |rest| ==> !Under(first.path, rest[j].path)
    ensures DistinctItems([first] + inner + rest)
  {
    var all := [first] + inner + rest;
    forall i, j | 0 <= i < j < |all| ensures all[i].path != all[j].path {
      if i == 0 {
      } else if j <= |inner| {
        assert all[i] == inner[i - 1] && all[j] == inner[j - 1];
      } else if i > |inner| {
        assert all[i] == rest[i - 1 - |inner|] && all[j] == rest[j - 1 - |inner|];
      } else {
        assert all[i] == inner[i - 1] && all[j] == rest[j - 1 - |inner|];
      }
    }
  }

  ghost predicate HasFolder(items: seq<Item>, a: Text)
  {
    exists j :: 0 <= j < |items| && items[j].path == a && items[j].stat.kind.Directory?
  }

  lemma HasFolderAmong(before: seq<Item>, items: seq<Item>, after: seq<Item>, a: Text)
    requires HasFolder(items, a)
    ensures HasFolder(before + items + after, a)
  {
    var j :| 0 <= j < |items| && items[j].path == a && items[j].stat.kind.Directory?;
    assert (before + items + after)[|before| + j] == items[j];
  }

  /** The first child, what is below it, and its later siblings. */
  lemma EverythingAt(first: Item, inner: seq<Item>, rest: seq<Item>, i: nat)
    requires i < |[first] + inner + rest|
    ensures ([first] + inner + rest)[i] ==
      if i == 0 then first else if i <= |inner| then inner[i - 1] else rest[i - 1 - |inner|]
  {
  }

  lemma {:induction false} EverythingParents(base: Text, children: seq<Child>, i: nat, a: Text)
    requires Named(children) && i < |Everything(base, children)|
    requires IsAncestor(a, Everything(base, children)[i].path) && (base == [] || IsAncestor(base, a))
    ensures HasFolder(Everything(base, children), a)
    decreases children
  {
    var first := Item(Relative(base, children[0].name), children[0].tree.stat);
    var inner, rest := Everything(first.path, children[0].tree.children), Everything(base, children[1..]);
    NothingBetween(base, children[0].name, a);
    EverythingAt(first, inner, rest, i);
    if 1 <= i <= |inner| {
      EverythingBelow(first.path, children[0].tree.children, i - 1);
      AncestorsOrdered(a, first.path, inner[i - 1].path);
      if a == first.path {
        EverythingAt(first, inner, rest, 0);
      } else {
        EverythingParents(first.path, children[0].tree.children, i - 1, a);
        HasFolderAmong([first], inner, rest, a);
      }
    } else if i > |inner| {
      EverythingParents(base, children[1..], i - 1 - |inner|, a);
      HasFolderAmong([first] + inner, rest, [], a);
      assert [first] + inner + rest + [] == [first] + inner + rest;
    }
  }

  predicate Archivable(root: Text, x: Item)
  {
    x.path != [] && Safe(Below(root, x.path)) && !x.stat.kind.Hardlink?
  }

  lemma ChildArchivable(root: Text, base: Text, child: Child)
    requires SafeName(child.name) && !child.tree.stat.kind.Hardlink? && Safe(if base == [] then root else Below(root, base))
    ensures Archivable(root, Item(Relative(base, child.name), child.tree.stat))
  {
    if base == [] {
      SafeBelow(root, child.name);
    } else {
      SafeBelow(Below(root, base), child.name);
      assert Below(Below(root, base), child.name) == Below(root, Relative(base, child.name));
    }
  }

  /** Every path of the tree, put under a safe root, is a safe archive path. */
  lemma {:induction false} EverythingArchivable(root: Text, base: Text, children: seq<Child>, i: nat)
    requires Named(children) && i < |Everything(base, children)| && Safe(if base == [] then root else Below(root, base))
    ensures Archivable(root, Everything(base, children)[i])
    decreases children
  {
    var first := Item(Relative(base, children[0].name), children[0].tree.stat);
    var inner, rest := Everything(first.path, children[0].tree.children), Everything(base, children[1..]);
    ChildArchivable(root, base, children[0]);
    EverythingAt(first, inner, rest, i);
    if 1 <= i <= |inner| {
      EverythingArchivable(root, first.path, children[0].tree.children, i - 1);
    } else if i > |inner| {
      EverythingArchivable(root, base, children[1..], i - 1 - |inner|);
    }
  }

  // ---- the walker ----

  lemma ContinuesPrefix(directory: Text, q: Text)
    ensures var prefix := directory + [Slash];
            IsAncestor(directory, q) <==> |prefix| <= |q| && q[..|prefix|] == prefix
  {
    var n := |directory|;
    if n < |q| {
      assert q[..n + 1] == q[..n] + [q[n]];
    }
  }

  /** A selected path lies strictly below `directory`: one probe of the sorted selection. */
  method SelectsBelow(selected: seq<Text>, directory: Text) returns (below: bool)
    requires Sorted(selected)
    ensures below <==> exists q :: q in selected && IsAncestor(directory, q)
  {
    var prefix := directory + [Slash];
    var k := LowerBound(selected, prefix);
    below := k < |selected| && |prefix| <= |selected[k]| && selected[k][..|prefix|] == prefix;
    if k < |selected| {
      ContinuesPrefix(directory, selected[k]);
    }
    forall q | q in selected && IsAncestor(directory, q) ensures below {
      var i :| 0 <= i < |selected| && selected[i] == q;
      ContinuesPrefix(directory, q);
      if |prefix| < |q| {
        PrefixLess(prefix, q);
      }
      NotBeforeProbe(selected, prefix, i, k);
      PrefixBetween(prefix, selected[k], q);
    }
  }

  /** What has the prefix does not stand before the place the probe found. */
  lemma NotBeforeProbe(selected: seq<Text>, prefix: Text, i: nat, k: nat)
    requires Sorted(selected) && i < |selected| && k <= |selected|
    requires forall j :: 0 <= j < k ==> Less(selected[j], prefix)
    requires selected[i] == prefix || Less(prefix, selected[i])
    ensures k <= i && !Less(selected[i], selected[k])
  {
    LessIrreflexive(prefix);
    if i < k {
      LessTransitive(selected[i], prefix, selected[i]);
    }
    LessIrreflexive(selected[i]);
    if k < i && Less(selected[i], selected[k]) {
      LessTransitive(selected[i], selected[k], selected[i]);
    }
  }

  /** One of the entry's ancestors is selected. */
  method InsideSelection(selected: seq<Text>, relative: Text) returns (inside: bool)
    requires Sorted(selected)
    ensures inside <==> exists a :: a in selected && IsAncestor(a, relative)
  {
    var current := relative;
    while true
      invariant current == relative || IsAncestor(current, relative)
      invariant forall a :: IsAncestor(a, relative) ==> a !in selected || IsAncestor(a, current)
      decreases |current|
    {
      var slash := LastSlash(current);
      if slash < 0 {
        return false;
      }
      var shorter := current[..slash];
      assert IsAncestor(shorter, current);
      if current != relative {
        AncestorTransitive(shorter, current, relative);
      }
      forall a | IsAncestor(a, current) ensures a == shorter || IsAncestor(a, shorter) {
        AncestorsOrdered(a, shorter, current);
      }
      current := shorter;
      var found := Contains(selected, current);
      if found {
        return true;
      }
    }
  }

  method IsWanted(selected: seq<Text>, relative: Text) returns (wanted: bool)
    requires Sorted(selected)
    ensures wanted <==> Wanted(selected, relative)
  {
    if selected == [] {
      return true;
    }
    wanted := Contains(selected, relative);
    if !wanted {
      wanted := SelectsBelow(selected, relative);
    }
    if !wanted {
      wanted := InsideSelection(selected, relative);
    }
  }

  /** A directory being read: what is left of it. */
  datatype Frame = Frame(base: Text, children: seq<Child>)

  ghost function Ahead(stack: seq<Frame>, keep: Item -> bool): seq<Item>
  {
    if stack == [] then []
    else
      var top := stack[|stack| - 1];
      Walk(top.base, top.children, keep) + Ahead(stack[..|stack| - 1], keep)
  }

  function Weight(children: seq<Child>): nat
    decreases children
  {
    if children == [] then 0 else 2 + Weight(children[0].tree.children) + Weight(children[1..])
  }

  function StackWeight(stack: seq<Frame>): nat
  {
    if stack == [] then 0 else 1 + Weight(stack[|stack| - 1].children) + StackWeight(stack[..|stack| - 1])
  }

  lemma AheadPush(stack: seq<Frame>, top: Frame, keep: Item -> bool)
    ensures Ahead(stack + [top], keep) == Walk(top.base, top.children, keep) + Ahead(stack, keep)
    ensures StackWeight(stack + [top]) == 1 + Weight(top.children) + StackWeight(stack)
  {
    assert (stack + [top])[..|stack|] == stack;
  }

  function FirstItem(top: Frame): Item
    requires top.children != []
  {
    Item(Relative(top.base, top.children[0].name), top.children[0].tree.stat)
  }

  function Inside(top: Frame): Frame
    requires top.children != []
  {
    Frame(FirstItem(top).path, top.children[0].tree.children)
  }

  function After(top: Frame): Frame
    requires top.children != []
  {
    Frame(top.base, top.children[1..])
  }

  lemma WalkStep(top: Frame, keep: Item -> bool)
    requires top.children != []
    ensures Walk(top.base, top.children, keep) ==
      (if keep(FirstItem(top)) then [FirstItem(top)] + Walk(Inside(top).base, Inside(top).children, keep) else [])
      + Walk(After(top).base, After(top).children, keep)
  {
  }

  lemma Regroup<T>(a: seq<T>, b: seq<T>, c: seq<T>, d: seq<T>)
    ensures a + b + c + d == a + (b + (c + d)) && [] + c + d == c + d
  {
  }

  /** Taking one child off the top frame. */
  lemma AheadStep(below: seq<Frame>, top: Frame, keep: Item -> bool)
    requires top.children != []
    ensures var rest := below + [After(top)];
            Ahead(below + [top], keep) ==
              if keep(FirstItem(top)) then [FirstItem(top)] + Ahead(rest + [Inside(top)], keep) else Ahead(rest, keep)
  {
    AheadPush(below, top, keep);
    AheadPush(below, After(top), keep);
    AheadPush(below + [After(top)], Inside(top), keep);
    WalkStep(top, keep);
    Regroup([FirstItem(top)], Walk(Inside(top).base, Inside(top).children, keep), Walk(After(top).base, After(top).children, keep), Ahead(below, keep));
  }

  lemma WeightStep(below: seq<Frame>, top: Frame, keep: Item -> bool)
    requires top.children != []
    ensures var rest := below + [After(top)];
            StackWeight(rest + [Inside(top)]) < StackWeight(below + [top]) && StackWeight(rest) < StackWeight(below + [top])
  {
    AheadPush(below, top, keep);
    AheadPush(below, After(top), keep);
    AheadPush(below + [After(top)], Inside(top), keep);
  }

  /** The iterator over the source, descending unless told not to. */
  method WalkSource(children: seq<Child>, selected: seq<Text>) returns (items: seq<Item>)
    requires Sorted(selected)
    ensures items == Walk([], children, Keeping(selected))
  {
    items := [];
    var root := Frame([], children);
    var stack := [root];
    ghost var keep := Keeping(selected);
    AheadPush([], root, keep);
    assert [] + stack == stack && items + Ahead(stack, keep) == Walk([], children, keep);
    while stack != []
      invariant items + Ahead(stack, keep) == Walk([], children, keep)
      decreases StackWeight(stack)
    {
      var below, top := stack[..|stack| - 1], stack[|stack| - 1];
      if top.children == [] {
        assert Ahead(stack, keep) == Ahead(below, keep);
        stack := below;
      } else {
        assert stack == below + [top];
        AheadStep(below, top, keep);
        WeightStep(below, top, keep);
        var item := FirstItem(top);
        var wanted := IsWanted(selected, item.path);
        stack := below + [After(top)];
        if wanted {
          ghost var seen := items;
          items := items + [item];
          stack := stack + [Inside(top)];
          Associative(seen, [item], Ahead(stack, keep));
        }
      }
    }
  }
}
