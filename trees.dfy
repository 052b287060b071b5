/** com.highbar.util.DefaultTreeNode and AbstractTreeNode: an append-only tree
    whose nodes know their parent and their children in insertion order.

    The nodes of all trees built together live in one arena, a `Forest`; a node
    is identified by its index there. A child is always created after its
    parent, so a parent's index is smaller than its children's, and a node's
    children are listed in increasing index order. */
module Trees {
  import opened Wrappers

  datatype TreeNode<T> = TreeNode(parent: Option<nat>, children: seq<nat>, obj: T)

  /** The arena's shape: parent and child links agree, parents come first,
      children are listed in creation order. */
  ghost predicate WellFormed<T>(nodes: seq<TreeNode<T>>)
  {
    ParentsFirst(nodes) && ParentsListChildren(nodes) && ChildrenPointBack(nodes) && ChildrenOrdered(nodes)
  }

  ghost predicate ParentsFirst<T>(nodes: seq<TreeNode<T>>)
  {
    forall i :: 0 <= i < |nodes| && nodes[i].parent.Some? ==> nodes[i].parent.value < i
  }

  ghost predicate ParentsListChildren<T>(nodes: seq<TreeNode<T>>)
  {
    forall i, p :: 0 <= i < |nodes| && 0 <= p < |nodes| && nodes[i].parent == Some(p) ==> i in nodes[p].children
  }

  ghost predicate ChildrenPointBack<T>(nodes: seq<TreeNode<T>>)
  {
    forall i, k :: 0 <= i < |nodes| && 0 <= k < |nodes[i].children| ==>
      i < nodes[i].children[k] < |nodes| && nodes[nodes[i].children[k]].parent == Some(i)
  }

  ghost predicate ChildrenOrdered<T>(nodes: seq<TreeNode<T>>)
  {
    forall i, k, l :: 0 <= i < |nodes| && 0 <= k < l < |nodes[i].children| ==>
      nodes[i].children[k] < nodes[i].children[l]
  }

  /** `getLevel`: the number of ancestors of node `x`. */
  ghost function Level<T>(nodes: seq<TreeNode<T>>, x: nat): nat
    requires WellFormed(nodes) && x < |nodes|
    decreases x
  {
    if nodes[x].parent.None? then 0 else 1 + Level(nodes, nodes[x].parent.value)
  }

  /** `x` lies in the subtree rooted at `a`: `a` is `x` or one of its ancestors. */
  ghost predicate InSubtree<T>(nodes: seq<TreeNode<T>>, x: nat, a: nat)
    requires WellFormed(nodes) && x < |nodes|
    decreases x
  {
    x == a || (nodes[x].parent.Some? && InSubtree(nodes, nodes[x].parent.value, a))
  }

  /** A list of siblings in creation order, all of them nodes of the arena. */
  ghost predicate Siblings<T>(nodes: seq<TreeNode<T>>, cs: seq<nat>)
  {
    (forall k :: 0 <= k < |cs| ==> cs[k] < |nodes|)
    && (forall k, l :: 0 <= k < l < |cs| ==> cs[k] < cs[l])
  }

  lemma ChildrenAreSiblings<T>(nodes: seq<TreeNode<T>>, x: nat)
    requires WellFormed(nodes) && x < |nodes|
    ensures Siblings(nodes, nodes[x].children)
    ensures forall k :: 0 <= k < |nodes[x].children| ==> x < nodes[x].children[k]
  {
  }

  /** The subtree of `x` in preorder: `x` first, then each child's subtree in
      child order. This is what the preorder iterator yields. */
  ghost function Preorder<T>(nodes: seq<TreeNode<T>>, x: nat): (r: seq<nat>)
    requires WellFormed(nodes) && x < |nodes|
    ensures |r| >= 1 && r[0] == x
    decreases |nodes| - x, 1
  {
    ChildrenAreSiblings(nodes, x);
    [x] + PreorderForest(nodes, nodes[x].children)
  }

  ghost function PreorderForest<T>(nodes: seq<TreeNode<T>>, cs: seq<nat>): seq<nat>
    requires WellFormed(nodes) && Siblings(nodes, cs)
    decreases if cs == [] then 0 else |nodes| - cs[0], 2
  {
    if cs == [] then [] else Preorder(nodes, cs[0]) + PreorderForest(nodes, cs[1..])
  }

  /** The subtree of `x` in post-order: each child's subtree in child order,
      then `x`. This is what the depth-first iterator yields. */
  ghost function PostOrder<T>(nodes: seq<TreeNode<T>>, x: nat): (r: seq<nat>)
    requires x < |nodes|
    ensures |r| >= 1 && r[|r| - 1] == x
    decreases |nodes| - x, 1, 0
  {
    PostOrderForest(nodes, x, nodes[x].children) + [x]
  }

  /** The post-orders of the subtrees of a list of children of node `lo`, in
      list order. A child that does not lie after `lo` in the arena, which a
      well-formed arena never holds, contributes nothing. */
  ghost function PostOrderForest<T>(nodes: seq<TreeNode<T>>, lo: nat, cs: seq<nat>): seq<nat>
    decreases |nodes| - lo, 0, |cs|
  {
    if cs == [] then []
    else (if lo < cs[0] < |nodes| then PostOrder(nodes, cs[0]) else []) + PostOrderForest(nodes, lo, cs[1..])
  }

  /** A node of a subtree is never smaller than the subtree's root. */
  lemma {:induction false} SubtreeRootIsSmallest<T>(nodes: seq<TreeNode<T>>, x: nat, a: nat)
    requires WellFormed(nodes) && x < |nodes| && InSubtree(nodes, x, a)
    ensures a <= x
    decreases x
  {
    if x != a {
      SubtreeRootIsSmallest(nodes, nodes[x].parent.value, a);
    }
  }

  /** The subtree relation is transitive. */
  lemma {:induction false} SubtreeTransitive<T>(nodes: seq<TreeNode<T>>, x: nat, y: nat, z: nat)
    requires WellFormed(nodes) && x < |nodes| && y < |nodes|
    requires InSubtree(nodes, x, y) && InSubtree(nodes, y, z)
    ensures InSubtree(nodes, x, z)
    decreases x
  {
    if x != y {
      SubtreeTransitive(nodes, nodes[x].parent.value, y, z);
    }
  }

  /** Two distinct siblings have disjoint subtrees. */
  lemma {:induction false} SiblingSubtreesDisjoint<T>(nodes: seq<TreeNode<T>>, x: nat, a: nat, b: nat)
    requires WellFormed(nodes) && x < |nodes| && a < |nodes| && b < |nodes|
    requires a != b && nodes[a].parent.Some? && nodes[a].parent == nodes[b].parent
    ensures !(InSubtree(nodes, x, a) && InSubtree(nodes, x, b))
    decreases x
  {
    if InSubtree(nodes, x, a) && InSubtree(nodes, x, b) {
      var p := nodes[a].parent.value;
      if x == a {
        SubtreeRootIsSmallest(nodes, p, b);
        assert false;
      } else if x == b {
        SubtreeRootIsSmallest(nodes, p, a);
        assert false;
      } else {
        SiblingSubtreesDisjoint(nodes, nodes[x].parent.value, a, b);
        assert false;
      }
    }
  }

  /** The child of `a` on the path from `a` down to `x`. */
  ghost function TopChild<T>(nodes: seq<TreeNode<T>>, x: nat, a: nat): (c: nat)
    requires WellFormed(nodes) && x < |nodes| && a < |nodes| && InSubtree(nodes, x, a) && x != a
    ensures c < |nodes| && c in nodes[a].children && InSubtree(nodes, x, c)
    decreases x
  {
    var p := nodes[x].parent.value;
    if p == a then x else TopChild(nodes, p, a)
  }

  /** A node lies in some subtree of the list. */
  ghost predicate InSomeSubtree<T>(nodes: seq<TreeNode<T>>, x: nat, cs: seq<nat>)
    requires WellFormed(nodes) && x < |nodes|
  {
    exists k :: 0 <= k < |cs| && InSubtree(nodes, x, cs[k])
  }

  /** Counting in a list of siblings: a node occurs once in their preorder when
      it lies in one of their subtrees, and not at all otherwise. */
  lemma {:induction false} PreorderForestCount<T>(nodes: seq<TreeNode<T>>, cs: seq<nat>, p: nat, x: nat)
    requires WellFormed(nodes) && Siblings(nodes, cs) && x < |nodes|
    requires forall k :: 0 <= k < |cs| ==> nodes[cs[k]].parent == Some(p)
    ensures multiset(PreorderForest(nodes, cs))[x] == if InSomeSubtree(nodes, x, cs) then 1 else 0
    decreases if cs == [] then 0 else |nodes| - cs[0], 2
  {
    if cs != [] {
      PreorderCount(nodes, cs[0], x);
      PreorderForestCount(nodes, cs[1..], p, x);
      SomeSubtreeUnfold(nodes, x, cs);
      if InSubtree(nodes, x, cs[0]) {
        FirstSubtreeExcludesRest(nodes, cs, p, x);
      }
    }
  }

  /** A node lies in a subtree of a non-empty list exactly when it lies in the
      first one or in a subtree of the rest. */
  lemma SomeSubtreeUnfold<T>(nodes: seq<TreeNode<T>>, x: nat, cs: seq<nat>)
    requires WellFormed(nodes) && x < |nodes| && cs != []
    ensures InSomeSubtree(nodes, x, cs) <==> InSubtree(nodes, x, cs[0]) || InSomeSubtree(nodes, x, cs[1..])
  {
    if InSomeSubtree(nodes, x, cs[1..]) {
      var k :| 0 <= k < |cs[1..]| && InSubtree(nodes, x, cs[1..][k]);
      assert InSubtree(nodes, x, cs[k + 1]);
    }
    if InSomeSubtree(nodes, x, cs) && !InSubtree(nodes, x, cs[0]) {
      var k :| 0 <= k < |cs| && InSubtree(nodes, x, cs[k]);
      assert cs[k] == cs[1..][k - 1];
    }
  }

  /** A node in the subtree of the first of a list of siblings lies in no
      subtree of the others. */
  lemma FirstSubtreeExcludesRest<T>(nodes: seq<TreeNode<T>>, cs: seq<nat>, p: nat, x: nat)
    requires WellFormed(nodes) && Siblings(nodes, cs) && x < |nodes| && cs != []
    requires forall k :: 0 <= k < |cs| ==> nodes[cs[k]].parent == Some(p)
    requires InSubtree(nodes, x, cs[0])
    ensures !InSomeSubtree(nodes, x, cs[1..])
  {
    forall k | 1 <= k < |cs| ensures !InSubtree(nodes, x, cs[k]) {
      SiblingSubtreesDisjoint(nodes, x, cs[0], cs[k]);
    }
  }

  /** A node lies in the subtree of `a` exactly when it is `a` or lies in the
      subtree of one of `a`'s children, and never both. */
  lemma SubtreeUnfold<T>(nodes: seq<TreeNode<T>>, a: nat, x: nat)
    requires WellFormed(nodes) && a < |nodes| && x < |nodes|
    ensures InSubtree(nodes, x, a) <==> x == a || InSomeSubtree(nodes, x, nodes[a].children)
    ensures !(x == a && InSomeSubtree(nodes, x, nodes[a].children))
  {
    var cs := nodes[a].children;
    if InSomeSubtree(nodes, x, cs) {
      var k :| 0 <= k < |cs| && InSubtree(nodes, x, cs[k]);
      assert InSubtree(nodes, cs[k], a);
      SubtreeTransitive(nodes, x, cs[k], a);
      SubtreeRootIsSmallest(nodes, x, cs[k]);
    }
    if x != a && InSubtree(nodes, x, a) {
      var c := TopChild(nodes, x, a);
      var k :| 0 <= k < |cs| && cs[k] == c;
    }
  }

  /** The preorder of a subtree lists every node of that subtree exactly once
      and nothing else. */
  lemma {:induction false} PreorderCount<T>(nodes: seq<TreeNode<T>>, a: nat, x: nat)
    requires WellFormed(nodes) && a < |nodes| && x < |nodes|
    ensures multiset(Preorder(nodes, a))[x] == if InSubtree(nodes, x, a) then 1 else 0
    decreases |nodes| - a, 1
  {
    ChildrenAreSiblings(nodes, a);
    PreorderForestCount(nodes, nodes[a].children, a, x);
    SubtreeUnfold(nodes, a, x);
  }

  /** Post-order and preorder visit the same nodes, each as often. */
  lemma {:induction false} PostOrderSameNodes<T>(nodes: seq<TreeNode<T>>, a: nat)
    requires WellFormed(nodes) && a < |nodes|
    ensures multiset(PostOrder(nodes, a)) == multiset(Preorder(nodes, a))
    decreases |nodes| - a, 1
  {
    ChildrenAreSiblings(nodes, a);
    PostOrderForestSameNodes(nodes, a, nodes[a].children);
  }

  lemma {:induction false} PostOrderForestSameNodes<T>(nodes: seq<TreeNode<T>>, lo: nat, cs: seq<nat>)
    requires WellFormed(nodes) && Siblings(nodes, cs) && forall k :: 0 <= k < |cs| ==> lo < cs[k]
    ensures multiset(PostOrderForest(nodes, lo, cs)) == multiset(PreorderForest(nodes, cs))
    decreases if cs == [] then 0 else |nodes| - cs[0], 2
  {
    if cs != [] {
      PostOrderSameNodes(nodes, cs[0]);
      PostOrderForestSameNodes(nodes, lo, cs[1..]);
    }
  }

  /** Every node of a post-order lies in the subtree being traversed. */
  lemma {:induction false} PostOrderInSubtree<T>(nodes: seq<TreeNode<T>>, a: nat, x: nat)
    requires WellFormed(nodes) && a < |nodes| && x < |nodes|
    requires x in PostOrder(nodes, a)
    ensures InSubtree(nodes, x, a)
  {
    PostOrderSameNodes(nodes, a);
    assert x in multiset(PostOrder(nodes, a));
    PreorderCount(nodes, a, x);
  }

  /** Descendants come first: when node `s[j]` lies in the subtree of node
      `s[k]`, then `j <= k`. */
  ghost predicate DescendantsFirst<T>(nodes: seq<TreeNode<T>>, s: seq<nat>)
    requires WellFormed(nodes)
  {
    forall j, k :: 0 <= j < |s| && 0 <= k < |s| && s[j] < |nodes| && s[k] < |nodes| && InSubtree(nodes, s[j], s[k]) ==> j <= k
  }

  /** Two sequences that each put descendants first, where nothing in the
      second lies in the subtree of anything in the first, concatenate to one
      that puts descendants first. */
  lemma ConcatDescendantsFirst<T>(nodes: seq<TreeNode<T>>, first: seq<nat>, rest: seq<nat>)
    requires WellFormed(nodes) && DescendantsFirst(nodes, first) && DescendantsFirst(nodes, rest)
    requires forall y, z :: y in rest && z in first && y < |nodes| && z < |nodes| ==> !InSubtree(nodes, y, z)
    ensures DescendantsFirst(nodes, first + rest)
  {
    var s := first + rest;
    forall j, k | 0 <= j < |s| && 0 <= k < |s| && s[j] < |nodes| && s[k] < |nodes| && InSubtree(nodes, s[j], s[k])
      ensures j <= k
    {
      if j >= |first| && k < |first| {
        assert false;
      } else if j >= |first| && k >= |first| {
        assert s[j] == rest[j - |first|] && s[k] == rest[k - |first|];
      } else if j < |first| && k < |first| {
        assert s[j] == first[j] && s[k] == first[k];
      }
    }
  }

  /** Nothing in the subtrees of later siblings lies in the subtree of a node
      of the first sibling's subtree. */
  lemma LaterSiblingsNotBelow<T>(nodes: seq<TreeNode<T>>, cs: seq<nat>, p: nat, y: nat, z: nat)
    requires WellFormed(nodes) && Siblings(nodes, cs) && cs != [] && y < |nodes| && z < |nodes|
    requires forall k :: 0 <= k < |cs| ==> nodes[cs[k]].parent == Some(p)
    requires y in PostOrderForest(nodes, p, cs[1..]) && z in PostOrder(nodes, cs[0])
    ensures !InSubtree(nodes, y, z)
  {
    assert InSubtree(nodes, z, cs[0]) by {
      PostOrderInSubtree(nodes, cs[0], z);
    }
    var later := cs[1..];
    assert InSomeSubtree(nodes, y, later) by {
      assert forall k :: 0 <= k < |later| ==> p < later[k] by {
        forall k | 0 <= k < |later|
          ensures p < later[k]
        {
          assert nodes[later[k]].parent == Some(p);
        }
      }
      PostOrderForestInSomeSubtree(nodes, p, later, y);
    }
    var l :| 0 <= l < |later| && InSubtree(nodes, y, later[l]);
    SiblingSubtreesDisjoint(nodes, y, cs[0], later[l]);
    if InSubtree(nodes, y, z) {
      SubtreeTransitive(nodes, y, z, cs[0]);
    }
  }

  /** The post-order of a list of siblings puts descendants first. */
  lemma {:induction false} PostOrderForestDescendantsFirst<T>(nodes: seq<TreeNode<T>>, cs: seq<nat>, p: nat)
    requires WellFormed(nodes) && Siblings(nodes, cs)
    requires forall k :: 0 <= k < |cs| ==> nodes[cs[k]].parent == Some(p)
    ensures DescendantsFirst(nodes, PostOrderForest(nodes, p, cs))
    decreases if cs == [] then 0 else |nodes| - cs[0], 2
  {
    if cs != [] {
      var first := PostOrder(nodes, cs[0]);
      var rest := PostOrderForest(nodes, p, cs[1..]);
      PostOrderDescendantsFirst(nodes, cs[0]);
      PostOrderForestDescendantsFirst(nodes, cs[1..], p);
      forall y, z | y in rest && z in first && y < |nodes| && z < |nodes|
        ensures !InSubtree(nodes, y, z)
      {
        LaterSiblingsNotBelow(nodes, cs, p, y, z);
      }
      ConcatDescendantsFirst(nodes, first, rest);
    }
  }

  lemma {:induction false} PostOrderForestInSomeSubtree<T>(nodes: seq<TreeNode<T>>, lo: nat, cs: seq<nat>, x: nat)
    requires WellFormed(nodes) && Siblings(nodes, cs) && x < |nodes|
    requires forall k :: 0 <= k < |cs| ==> lo < cs[k]
    requires x in PostOrderForest(nodes, lo, cs)
    ensures InSomeSubtree(nodes, x, cs)
    decreases |cs|
  {
    if x in PostOrder(nodes, cs[0]) {
      PostOrderInSubtree(nodes, cs[0], x);
    } else {
      PostOrderForestInSomeSubtree(nodes, lo, cs[1..], x);
      var l :| 0 <= l < |cs[1..]| && InSubtree(nodes, x, cs[1..][l]);
      assert InSubtree(nodes, x, cs[l + 1]);
    }
  }

  /** The depth-first iterator's order: every node comes after all of its
      descendants, and the root comes last. */
  lemma {:induction false} PostOrderDescendantsFirst<T>(nodes: seq<TreeNode<T>>, a: nat)
    requires WellFormed(nodes) && a < |nodes|
    ensures DescendantsFirst(nodes, PostOrder(nodes, a))
    decreases |nodes| - a, 1
  {
    ChildrenAreSiblings(nodes, a);
    var cs := nodes[a].children;
    var f := PostOrderForest(nodes, a, cs);
    var s := PostOrder(nodes, a);
    assert s == f + [a];
    PostOrderForestDescendantsFirst(nodes, cs, a);
    forall j, k | 0 <= j < |s| && 0 <= k < |s| && s[j] < |nodes| && s[k] < |nodes| && InSubtree(nodes, s[j], s[k])
      ensures j <= k
    {
      if k < |f| && j == |f| {
        assert s[k] == f[k] && s[k] in f;
        PostOrderForestInSomeSubtree(nodes, a, cs, s[k]);
        var l :| 0 <= l < |cs| && InSubtree(nodes, s[k], cs[l]);
        SubtreeTransitive(nodes, a, s[k], cs[l]);
        SubtreeRootIsSmallest(nodes, a, cs[l]);
        assert false;
      } else if k < |f| && j < |f| {
        assert s[j] == f[j] && s[k] == f[k];
        assert InSubtree(nodes, f[j], f[k]);
        assert j <= k;
      }
    }
  }

  /** The arena after `DefaultTreeNode(parent, object)`: node `p` gets the new
      node as its last child. */
  ghost function AddChild<T>(nodes: seq<TreeNode<T>>, p: nat, obj: T): seq<TreeNode<T>>
    requires p < |nodes|
  {
    nodes[p := nodes[p].(children := nodes[p].children + [|nodes|])] + [TreeNode(Some(p), [], obj)]
  }

  lemma AddChildParents<T>(nodes: seq<TreeNode<T>>, p: nat, obj: T)
    requires p < |nodes|
    ensures forall i :: 0 <= i < |nodes| ==> AddChild(nodes, p, obj)[i].parent == nodes[i].parent
    ensures forall i :: 0 <= i < |nodes| && i != p ==> AddChild(nodes, p, obj)[i].children == nodes[i].children
    ensures AddChild(nodes, p, obj)[p].children == nodes[p].children + [|nodes|]
    ensures |AddChild(nodes, p, obj)| == |nodes| + 1 && AddChild(nodes, p, obj)[|nodes|] == TreeNode(Some(p), [], obj)
  {
  }

  /** Appending a child to node `p` keeps the arena well formed. */
  lemma AddChildWellFormed<T>(nodes: seq<TreeNode<T>>, p: nat, obj: T)
    requires WellFormed(nodes) && p < |nodes|
    ensures WellFormed(AddChild(nodes, p, obj))
  {
    AddChildParents(nodes, p, obj);
    AddChildParentsFirst(nodes, p, obj);
    AddChildParentsListChildren(nodes, p, obj);
    AddChildChildrenPointBack(nodes, p, obj);
    AddChildChildrenOrdered(nodes, p, obj);
  }

  lemma AddChildParentsFirst<T>(nodes: seq<TreeNode<T>>, p: nat, obj: T)
    requires ParentsFirst(nodes) && p < |nodes|
    ensures ParentsFirst(AddChild(nodes, p, obj))
  {
    AddChildParents(nodes, p, obj);
  }

  lemma AddChildParentsListChildren<T>(nodes: seq<TreeNode<T>>, p: nat, obj: T)
    requires ParentsListChildren(nodes) && ParentsFirst(nodes) && p < |nodes|
    ensures ParentsListChildren(AddChild(nodes, p, obj))
  {
    AddChildParents(nodes, p, obj);
    var m := AddChild(nodes, p, obj);
    forall i, q | 0 <= i < |m| && 0 <= q < |m| && m[i].parent == Some(q)
      ensures i in m[q].children
    {
      if i < |nodes| {
        assert nodes[i].parent == Some(q) && q < i;
        assert i in nodes[q].children;
        assert m[q].children == nodes[q].children || m[q].children == nodes[q].children + [|nodes|];
      }
    }
  }

  lemma AddChildChildrenPointBack<T>(nodes: seq<TreeNode<T>>, p: nat, obj: T)
    requires ChildrenPointBack(nodes) && p < |nodes|
    ensures ChildrenPointBack(AddChild(nodes, p, obj))
  {
    AddChildParents(nodes, p, obj);
    var m := AddChild(nodes, p, obj);
    forall i, k | 0 <= i < |m| && 0 <= k < |m[i].children|
      ensures i < m[i].children[k] < |m| && m[m[i].children[k]].parent == Some(i)
    {
      if !(i == p && k == |nodes[p].children|) {
        assert m[i].children[k] == nodes[i].children[k];
      }
    }
  }

  lemma AddChildChildrenOrdered<T>(nodes: seq<TreeNode<T>>, p: nat, obj: T)
    requires ChildrenOrdered(nodes) && ChildrenPointBack(nodes) && p < |nodes|
    ensures ChildrenOrdered(AddChild(nodes, p, obj))
  {
    AddChildParents(nodes, p, obj);
    var m := AddChild(nodes, p, obj);
    forall i, k, l | 0 <= i < |m| && 0 <= k < l < |m[i].children|
      ensures m[i].children[k] < m[i].children[l]
    {
      assert m[i].children[k] == nodes[i].children[k];
      if !(i == p && l == |nodes[p].children|) {
        assert m[i].children[l] == nodes[i].children[l];
      }
    }
  }

  /** A subtree's preorder lists nodes of the arena, none before its root. */
  lemma {:induction false} PreorderInArena<T>(nodes: seq<TreeNode<T>>, x: nat)
    requires WellFormed(nodes) && x < |nodes|
    ensures forall y :: y in Preorder(nodes, x) ==> x <= y < |nodes|
    decreases |nodes| - x, 1
  {
    ChildrenAreSiblings(nodes, x);
    PreorderForestInArena(nodes, nodes[x].children, x);
  }

  lemma {:induction false} PreorderForestInArena<T>(nodes: seq<TreeNode<T>>, cs: seq<nat>, lo: nat)
    requires WellFormed(nodes) && Siblings(nodes, cs)
    requires forall k :: 0 <= k < |cs| ==> lo < cs[k]
    ensures forall y :: y in PreorderForest(nodes, cs) ==> lo < y < |nodes|
    decreases if cs == [] then 0 else |nodes| - cs[0], 2
  {
    if cs != [] {
      PreorderInArena(nodes, cs[0]);
      SiblingsTail(nodes, cs);
      PreorderForestInArena(nodes, cs[1..], lo);
    }
  }

  /** Below its root, a subtree holds only nodes that have a parent. */
  lemma {:induction false} PreorderBelowRootHasParents<T>(nodes: seq<TreeNode<T>>, x: nat)
    requires WellFormed(nodes) && x < |nodes|
    ensures forall y :: y in Preorder(nodes, x)[1..] ==> y < |nodes| && nodes[y].parent.Some?
    decreases |nodes| - x, 1
  {
    ChildrenAreSiblings(nodes, x);
    assert Preorder(nodes, x)[1..] == PreorderForest(nodes, nodes[x].children);
    PreorderForestHasParents(nodes, nodes[x].children);
  }

  lemma {:induction false} PreorderForestHasParents<T>(nodes: seq<TreeNode<T>>, cs: seq<nat>)
    requires WellFormed(nodes) && Siblings(nodes, cs)
    requires forall k :: 0 <= k < |cs| ==> nodes[cs[k]].parent.Some?
    ensures forall y :: y in PreorderForest(nodes, cs) ==> y < |nodes| && nodes[y].parent.Some?
    decreases if cs == [] then 0 else |nodes| - cs[0], 2
  {
    if cs != [] {
      var p := Preorder(nodes, cs[0]);
      PreorderBelowRootHasParents(nodes, cs[0]);
      assert p == [cs[0]] + p[1..];
      SiblingsTail(nodes, cs);
      PreorderForestHasParents(nodes, cs[1..]);
    }
  }

  /** The nodes of the arena: `DefaultTreeNode`'s two constructors append a
      node, `getLevel` walks the parent links. */
  class Forest<T> {
    var nodes: seq<TreeNode<T>>

    ghost predicate Valid()
      reads this
    {
      WellFormed(nodes)
    }

    constructor ()
      ensures Valid() && nodes == []
    {
      nodes := [];
    }

    /** The root constructor: a node with no parent and no children. */
    method NewRoot(obj: T) returns (x: nat)
      requires Valid()
      modifies this
      ensures Valid()
      ensures x == |old(nodes)| && nodes == old(nodes) + [TreeNode(None, [], obj)]
      ensures Level(nodes, x) == 0
    {
      x := |nodes|;
      nodes := nodes + [TreeNode(None, [], obj)];
    }

    /** The child constructor: the new node records its parent and becomes the
        parent's last child; the parent's earlier children and every other
        node are unchanged. */
    method NewChild(p: nat, obj: T) returns (x: nat)
      requires Valid() && p < |nodes|
      modifies this
      ensures Valid()
      ensures nodes == AddChild(old(nodes), p, obj)
      ensures x == |old(nodes)| && |nodes| == x + 1 && nodes[x] == TreeNode(Some(p), [], obj)
      ensures nodes[p] == old(nodes[p]).(children := old(nodes[p].children) + [x])
      ensures forall i :: 0 <= i < x && i != p ==> nodes[i] == old(nodes[i])
      ensures Level(nodes, x) == Level(nodes, p) + 1
    {
      x := |nodes|;
      var parent := nodes[p];
      AddChildWellFormed(nodes, p, obj);
      AddChildParents(nodes, p, obj);
      nodes := nodes[p := parent.(children := parent.children + [x])] + [TreeNode(Some(p), [], obj)];
    }

    /** `getLevel`: walk up the parent links, counting them. */
    method GetLevel(x: nat) returns (level: nat)
      requires Valid() && x < |nodes|
      ensures level == Level(nodes, x)
    {
      level := 0;
      var n: nat := x;
      while nodes[n].parent.Some?
        invariant n < |nodes| && level + Level(nodes, n) == Level(nodes, x)
        decreases n
      {
        level := level + 1;
        n := nodes[n].parent.value;
      }
    }

    /** `getObject`: the object given to the constructor. */
    function GetObject(x: nat): T
      requires x < |nodes|
      reads this
    {
      nodes[x].obj
    }

    /** `getParent`: null exactly for a root; otherwise a node one level up
        that lists `x` among its children. */
    function GetParent(x: nat): (p: Option<nat>)
      requires Valid() && x < |nodes|
      reads this
      ensures p.None? <==> Level(nodes, x) == 0
      ensures p.Some? ==> p.value < x && x in nodes[p.value].children && Level(nodes, x) == Level(nodes, p.value) + 1
    {
      nodes[x].parent
    }

    /** `getChildren`: a copy of the children in insertion order; exactly the
        nodes whose parent is `x`. */
    function GetChildren(x: nat): (cs: seq<nat>)
      requires Valid() && x < |nodes|
      reads this
      ensures Siblings(nodes, cs)
      ensures forall k :: 0 <= k < |cs| ==> nodes[cs[k]].parent == Some(x)
      ensures forall i :: 0 <= i < |nodes| && nodes[i].parent == Some(x) ==> i in cs
    {
      nodes[x].children
    }

    /** `isRoot`: no parent, which is exactly level 0. */
    function IsRoot(x: nat): (b: bool)
      requires Valid() && x < |nodes|
      reads this
      ensures b <==> Level(nodes, x) == 0
    {
      nodes[x].parent.None?
    }

    /** `hasChildren`: a non-empty children list, which is exactly a subtree
        holding more than the node itself. */
    function HasChildren(x: nat): (b: bool)
      requires Valid() && x < |nodes|
      reads this
      ensures b <==> |Preorder(nodes, x)| > 1
    {
      ChildrenAreSiblings(nodes, x);
      if |nodes[x].children| != 0 then
        assert Preorder(nodes, nodes[x].children[0]) <= PreorderForest(nodes, nodes[x].children);
        true
      else false
    }

    /** `isLeaf`: the negation of `hasChildren`; the subtree is the node alone. */
    function IsLeaf(x: nat): (b: bool)
      requires Valid() && x < |nodes|
      reads this
      ensures b <==> Preorder(nodes, x) == [x]
    {
      !HasChildren(x)
    }
  }

  /** What a preorder iterator has still to yield, for a stack of child lists
      whose top is its last entry. */
  ghost function StackRemaining<T>(nodes: seq<TreeNode<T>>, stack: seq<seq<nat>>): seq<nat>
    requires WellFormed(nodes)
  {
    if stack == [] then []
    else
      var top := stack[|stack| - 1];
      (if Siblings(nodes, top) then PreorderForest(nodes, top) else []) + StackRemaining(nodes, stack[..|stack| - 1])
  }

  ghost predicate GoodStack<T>(nodes: seq<TreeNode<T>>, stack: seq<seq<nat>>)
  {
    forall k :: 0 <= k < |stack| ==> stack[k] != [] && Siblings(nodes, stack[k])
  }

  lemma StackRemainingPush<T>(nodes: seq<TreeNode<T>>, below: seq<seq<nat>>, top: seq<nat>)
    requires WellFormed(nodes) && Siblings(nodes, top)
    ensures StackRemaining(nodes, below + [top]) == PreorderForest(nodes, top) + StackRemaining(nodes, below)
  {
    assert (below + [top])[..|below|] == below;
  }

  /** Unfolding the preorder of a non-empty list of siblings: its first node,
      that node's children's subtrees, then the rest of the list's subtrees. */
  lemma PreorderForestUnfold<T>(nodes: seq<TreeNode<T>>, top: seq<nat>)
    requires WellFormed(nodes) && top != [] && Siblings(nodes, top)
    ensures Siblings(nodes, nodes[top[0]].children) && Siblings(nodes, top[1..])
    ensures PreorderForest(nodes, top)
      == [top[0]] + PreorderForest(nodes, nodes[top[0]].children) + PreorderForest(nodes, top[1..])
  {
    ChildrenAreSiblings(nodes, top[0]);
  }

  /** Dropping the first node of the top entry. */
  lemma PreorderStepPop<T>(nodes: seq<TreeNode<T>>, below: seq<seq<nat>>, top: seq<nat>)
    requires WellFormed(nodes) && GoodStack(nodes, below) && top != [] && Siblings(nodes, top)
    ensures var popped := if |top| == 1 then below else below + [top[1..]];
      GoodStack(nodes, popped)
      && StackRemaining(nodes, popped) == PreorderForest(nodes, top[1..]) + StackRemaining(nodes, below)
  {
    if |top| > 1 {
      SiblingsTail(nodes, top);
      StackRemainingPush(nodes, below, top[1..]);
      var popped := below + [top[1..]];
      forall k | 0 <= k < |popped| ensures popped[k] != [] && Siblings(nodes, popped[k]) {
        if k < |below| {
          assert popped[k] == below[k];
        }
      }
    }
  }

  /** One step of the preorder iterator: the first node of the top entry is
      the next one yielded; the rest of that entry, if any, and the node's
      children, if any, are what remains on top of the entries below. */
  lemma PreorderStep<T>(nodes: seq<TreeNode<T>>, below: seq<seq<nat>>, top: seq<nat>, popped: seq<seq<nat>>, s: seq<seq<nat>>)
    requires WellFormed(nodes) && GoodStack(nodes, below) && top != [] && Siblings(nodes, top)
    requires popped == if |top| == 1 then below else below + [top[1..]]
    requires s == if |nodes[top[0]].children| != 0 then popped + [nodes[top[0]].children] else popped
    ensures GoodStack(nodes, s)
    ensures StackRemaining(nodes, below + [top]) == [top[0]] + StackRemaining(nodes, s)
  {
    PreorderForestUnfold(nodes, top);
    StackRemainingPush(nodes, below, top);
    StackAfterStep(nodes, below, top, popped, s);
    ConcatStep(PreorderForest(nodes, top), StackRemaining(nodes, below), StackRemaining(nodes, s),
               PreorderForest(nodes, nodes[top[0]].children), PreorderForest(nodes, top[1..]), top[0]);
  }

  /** The stack after one step holds the first node's children's subtrees,
      then the rest of the top entry's, then the entries below. */
  lemma StackAfterStep<T>(nodes: seq<TreeNode<T>>, below: seq<seq<nat>>, top: seq<nat>, popped: seq<seq<nat>>, s: seq<seq<nat>>)
    requires WellFormed(nodes) && GoodStack(nodes, below) && top != [] && Siblings(nodes, top)
    requires popped == if |top| == 1 then below else below + [top[1..]]
    requires s == if |nodes[top[0]].children| != 0 then popped + [nodes[top[0]].children] else popped
    ensures Siblings(nodes, nodes[top[0]].children) && Siblings(nodes, top[1..])
    ensures GoodStack(nodes, s)
    ensures StackRemaining(nodes, s)
      == PreorderForest(nodes, nodes[top[0]].children) + (PreorderForest(nodes, top[1..]) + StackRemaining(nodes, below))
  {
    var ch := nodes[top[0]].children;
    PreorderForestUnfold(nodes, top);
    PreorderStepPop(nodes, below, top);
    if |ch| != 0 {
      StackRemainingPush(nodes, popped, ch);
      GoodStackPush(nodes, popped, ch);
    } else {
      assert PreorderForest(nodes, ch) == [];
    }
  }

  lemma GoodStackPush<T>(nodes: seq<TreeNode<T>>, stack: seq<seq<nat>>, top: seq<nat>)
    requires GoodStack(nodes, stack) && top != [] && Siblings(nodes, top)
    ensures GoodStack(nodes, stack + [top])
  {
    forall k | 0 <= k < |stack| + 1 ensures (stack + [top])[k] != [] && Siblings(nodes, (stack + [top])[k]) {
      if k < |stack| {
        assert (stack + [top])[k] == stack[k];
      }
    }
  }

  lemma ConcatStep<U>(t: seq<U>, b: seq<U>, r: seq<U>, c: seq<U>, a: seq<U>, x: U)
    requires r == c + (a + b) && t == [x] + c + a
    ensures t + b == [x] + r
  {
  }

  lemma SiblingsTail<T>(nodes: seq<TreeNode<T>>, cs: seq<nat>)
    requires Siblings(nodes, cs) && cs != []
    ensures Siblings(nodes, cs[1..])
  {
  }

  /** A stack of non-empty entries has something left to yield exactly when
      it is non-empty. */
  lemma StackRemainingEmpty<T>(nodes: seq<TreeNode<T>>, stack: seq<seq<nat>>)
    requires WellFormed(nodes) && GoodStack(nodes, stack)
    ensures StackRemaining(nodes, stack) == [] <==> stack == []
  {
    if stack != [] {
      var top := stack[|stack| - 1];
      assert Preorder(nodes, top[0]) <= PreorderForest(nodes, top);
    }
  }

  /** The iterator's `next` on a non-empty stack yields the next node of the
      preorder and keeps its invariant. */
  lemma PreorderAdvance<T>(nodes: seq<TreeNode<T>>, root: nat, produced: seq<nat>, stack: seq<seq<nat>>,
                           below: seq<seq<nat>>, top: seq<nat>, popped: seq<seq<nat>>, s: seq<seq<nat>>)
    requires WellFormed(nodes) && root < |nodes| && GoodStack(nodes, stack) && stack != []
    requires produced + StackRemaining(nodes, stack) == Preorder(nodes, root)
    requires below == stack[..|stack| - 1] && top == stack[|stack| - 1]
    requires popped == if |top| == 1 then below else below + [top[1..]]
    requires s == if |nodes[top[0]].children| != 0 then popped + [nodes[top[0]].children] else popped
    ensures GoodStack(nodes, s)
    ensures |produced| < |Preorder(nodes, root)| && Preorder(nodes, root)[|produced|] == top[0]
    ensures (produced + [top[0]]) + StackRemaining(nodes, s) == Preorder(nodes, root)
  {
    GoodStackPrefix(nodes, stack);
    SplitLast(stack);
    PreorderStep(nodes, below, top, popped, s);
    AppendStep(produced, StackRemaining(nodes, stack), StackRemaining(nodes, s), Preorder(nodes, root), top[0]);
  }

  lemma SplitLast<U>(s: seq<U>)
    requires s != []
    ensures s == s[..|s| - 1] + [s[|s| - 1]]
  {
  }

  lemma GoodStackPrefix<T>(nodes: seq<TreeNode<T>>, stack: seq<seq<nat>>)
    requires GoodStack(nodes, stack) && stack != []
    ensures GoodStack(nodes, stack[..|stack| - 1])
  {
  }

  lemma AppendStep<U>(produced: seq<U>, remaining: seq<U>, rest: seq<U>, whole: seq<U>, x: U)
    requires produced + remaining == whole && remaining == [x] + rest
    ensures |produced| < |whole| && whole[|produced|] == x
    ensures (produced + [x]) + rest == whole
  {
  }

  /** Every child lies after its parent in the arena; this is all the
      depth-first iterator relies on. */
  ghost predicate ChildrenAfter<T>(nodes: seq<TreeNode<T>>)
  {
    forall i, k :: 0 <= i < |nodes| && 0 <= k < |nodes[i].children| ==> i < nodes[i].children[k] < |nodes|
  }

  /** `PreorderIterator`: a stack of iterators over child lists. Each entry of
      `stack` is the part of a child list not yet visited. The tree is not
      changed while the iterator runs: `nodes` is the tree when it starts. */
  class PreorderIterator<T> {
    const nodes: seq<TreeNode<T>>
    const root: nat
    var stack: seq<seq<nat>>
    ghost var produced: seq<nat>

    ghost predicate Valid()
      reads this
    {
      WellFormed(nodes) && root < |nodes|
      && GoodStack(nodes, stack)
      && produced + StackRemaining(nodes, stack) == Preorder(nodes, root)
    }

    /** The iterator starts with a one-element list holding the root. */
    constructor (nodes: seq<TreeNode<T>>, root: nat)
      requires WellFormed(nodes) && root < |nodes|
      ensures Valid() && this.nodes == nodes && this.root == root && produced == []
    {
      this.nodes := nodes;
      this.root := root;
      stack := [[root]];
      produced := [];
      new;
      assert stack[..0] == [];
      assert StackRemaining(nodes, stack) == PreorderForest(nodes, [root]);
      assert PreorderForest(nodes, [root]) == Preorder(nodes, root) + PreorderForest(nodes, [root][1..]);
    }

    /** `hasNext`: the stack is non-empty, which is exactly when part of the
        preorder is still to come. No stack entry is ever exhausted. */
    function HasNext(): (b: bool)
      requires Valid()
      reads this
      ensures b <==> |produced| < |Preorder(nodes, root)|
    {
      StackRemainingEmpty(nodes, stack);
      stack != []
    }

    /** `next`: the next node of the preorder; on an exhausted iterator the
        empty stack's `peek` throws. */
    method Next() returns (r: Result<nat>)
      requires Valid()
      modifies this
      ensures Valid()
      ensures old(|produced|) == |Preorder(nodes, root)| ==> r == Err(EmptyStack) && produced == old(produced)
      ensures old(|produced|) < |Preorder(nodes, root)| ==>
        r == Ok(Preorder(nodes, root)[old(|produced|)]) && produced == old(produced) + [r.value]
    {
      StackRemainingEmpty(nodes, stack);
      if stack == [] {
        return Err(EmptyStack);
      }
      var below := stack[..|stack| - 1];
      var top := stack[|stack| - 1];
      var node := top[0];
      var children := nodes[node].children;
      var popped := if |top| == 1 then below else below + [top[1..]];
      var s := popped;
      if |children| != 0 {
        s := s + [children];
      }
      PreorderAdvance(nodes, root, produced, stack, below, top, popped, s);
      stack := s;
      produced := produced + [node];
      return Ok(node);
    }

    /** `remove`: always refused; the tree is immutable through an iterator. */
    method Remove() returns (o: Outcome)
      ensures o == Thrown(UnsupportedOperation)
    {
      o := Thrown(UnsupportedOperation);
    }
  }

  /** `iterator()`: the preorder iterator. */
  method Iterator<T>(nodes: seq<TreeNode<T>>, root: nat) returns (it: PreorderIterator<T>)
    requires WellFormed(nodes) && root < |nodes|
    ensures fresh(it) && it.Valid() && it.nodes == nodes && it.root == root && it.produced == []
  {
    it := new PreorderIterator(nodes, root);
  }

  /** The state of one `DepthFirstIterator`, which yields the subtree of
      `root` in post-order. `children` are the children not yet started,
      `childTree` the nested iterator over the child being traversed (None
      for the initial empty iterator), and `rootNode` is cleared once the
      root itself has been yielded. A nested iterator is owned by its parent
      alone, so it is held here as a value. */
  datatype DepthFirstState = DepthFirstState(root: nat, rootNode: Option<nat>, children: seq<nat>, childTree: Option<DepthFirstState>)

  /** What an iterator in state `s` still has to yield: the rest of the
      nested iterator, then the post-orders of the children not yet started,
      then the root unless it has been yielded. */
  ghost function Remaining<T>(nodes: seq<TreeNode<T>>, s: DepthFirstState): seq<nat>
    decreases s
  {
    (if s.childTree.Some? then Remaining(nodes, s.childTree.value) else [])
    + PostOrderForest(nodes, s.root, s.children)
    + (if s.rootNode.Some? then [s.root] else [])
  }

  /** The states an iterator can be in: children are later in the arena than
      their parent, a nested iterator is over a later node, and once the root
      has been yielded no child is left and the nested iterator is done. */
  ghost predicate GoodState<T>(nodes: seq<TreeNode<T>>, s: DepthFirstState)
    decreases s
  {
    s.root < |nodes|
    && (forall k :: 0 <= k < |s.children| ==> s.root < s.children[k] < |nodes|)
    && (s.rootNode.Some? ==> s.rootNode.value == s.root)
    && (s.childTree.Some? ==> GoodState(nodes, s.childTree.value) && s.root < s.childTree.value.root)
    && (s.rootNode.None? ==> s.children == [] && (s.childTree.Some? ==> s.childTree.value.rootNode.None?))
  }

  /** Nothing is left exactly when the root has been yielded. */
  lemma {:induction false} NothingLeftIffRootYielded<T>(nodes: seq<TreeNode<T>>, s: DepthFirstState)
    requires GoodState(nodes, s)
    ensures Remaining(nodes, s) == [] <==> s.rootNode.None?
    decreases s
  {
    if s.rootNode.None? && s.childTree.Some? {
      NothingLeftIffRootYielded(nodes, s.childTree.value);
    }
  }

  /** The constructor: the root is still to come, all its children are left
      and the nested iterator is empty. */
  function StartState<T>(nodes: seq<TreeNode<T>>, root: nat): (s: DepthFirstState)
    requires ChildrenAfter(nodes) && root < |nodes|
    ensures GoodState(nodes, s) && s.root == root && s.rootNode.Some?
  {
    DepthFirstState(root, Some(root), nodes[root].children, None)
  }

  /** A new iterator has the whole post-order of its root still to come. */
  lemma StartStateRemaining<T>(nodes: seq<TreeNode<T>>, root: nat)
    requires ChildrenAfter(nodes) && root < |nodes|
    ensures Remaining(nodes, StartState(nodes, root)) == PostOrder(nodes, root)
  {
  }

  /** `hasNext`: the root has not been yielded yet. */
  function HasNextState<T>(nodes: seq<TreeNode<T>>, s: DepthFirstState): (b: bool)
    requires GoodState(nodes, s)
    ensures b <==> Remaining(nodes, s) != []
  {
    NothingLeftIffRootYielded(nodes, s);
    s.rootNode.Some?
  }

  /** `next` on a nested iterator: the node it returns and its new state. */
  function NextState<T>(nodes: seq<TreeNode<T>>, s: DepthFirstState): (r: (Option<nat>, DepthFirstState))
    requires ChildrenAfter(nodes) && GoodState(nodes, s)
    ensures GoodState(nodes, r.1) && r.1.root == s.root
    decreases |nodes| - s.root
  {
    if s.childTree.Some? && s.childTree.value.rootNode.Some? then
      var r := NextState(nodes, s.childTree.value);
      (r.0, s.(childTree := Some(r.1)))
    else if s.children != [] then
      var r := NextState(nodes, StartState(nodes, s.children[0]));
      (r.0, s.(children := s.children[1..], childTree := Some(r.1)))
    else
      (s.rootNode, s.(rootNode := None))
  }

  /** What one `next` does to an iterator in state `s`: it yields the first
      node still to come and leaves the rest; once nothing is left it
      returns null and nothing is left afterwards either. */
  ghost predicate YieldsNext<T>(nodes: seq<TreeNode<T>>, s: DepthFirstState, r: (Option<nat>, DepthFirstState))
  {
    var before := Remaining(nodes, s);
    if before == [] then r.0 == None && Remaining(nodes, r.1) == []
    else r.0 == Some(before[0]) && Remaining(nodes, r.1) == before[1..]
  }

  /** Every `next` yields the first node still to come and leaves the rest. */
  lemma {:induction false} NextStateYieldsRemaining<T>(nodes: seq<TreeNode<T>>, s: DepthFirstState)
    requires ChildrenAfter(nodes) && GoodState(nodes, s)
    ensures YieldsNext(nodes, s, NextState(nodes, s))
    decreases |nodes| - s.root
  {
    if s.childTree.Some? && s.childTree.value.rootNode.Some? {
      NextStateYieldsRemaining(nodes, s.childTree.value);
      NextFromChildYields(nodes, s);
    } else if s.children != [] {
      NextStateYieldsRemaining(nodes, StartState(nodes, s.children[0]));
      NextFromNewChildYields(nodes, s);
    } else {
      NextIsRootYields(nodes, s);
    }
  }

  /** The nested iterator has more: what it yields is what comes next. */
  lemma NextFromChildYields<T>(nodes: seq<TreeNode<T>>, s: DepthFirstState)
    requires ChildrenAfter(nodes) && GoodState(nodes, s)
    requires s.childTree.Some? && s.childTree.value.rootNode.Some?
    requires YieldsNext(nodes, s.childTree.value, NextState(nodes, s.childTree.value))
    ensures YieldsNext(nodes, s, NextState(nodes, s))
  {
    var c := s.childTree.value;
    var t := NextState(nodes, c).1;
    NothingLeftIffRootYielded(nodes, c);
    var tail := if s.rootNode.Some? then [s.root] else [];
    HeadAndRest(Remaining(nodes, c), Remaining(nodes, t), PostOrderForest(nodes, s.root, s.children), tail);
  }

  /** The nested iterator is done and a child is left: the first node of
      that child's post-order comes next. */
  lemma NextFromNewChildYields<T>(nodes: seq<TreeNode<T>>, s: DepthFirstState)
    requires ChildrenAfter(nodes) && GoodState(nodes, s)
    requires !(s.childTree.Some? && s.childTree.value.rootNode.Some?) && s.children != []
    requires YieldsNext(nodes, StartState(nodes, s.children[0]), NextState(nodes, StartState(nodes, s.children[0])))
    ensures YieldsNext(nodes, s, NextState(nodes, s))
  {
    var c := StartState(nodes, s.children[0]);
    var r := NextState(nodes, c);
    var tail := if s.rootNode.Some? then [s.root] else [];
    var rest := PostOrderForest(nodes, s.root, s.children[1..]);
    var s' := s.(children := s.children[1..], childTree := Some(r.1));
    assert NextState(nodes, s) == (r.0, s');
    var before := if s.childTree.Some? then Remaining(nodes, s.childTree.value) else [];
    assert before == [] by {
      if s.childTree.Some? {
        NothingLeftIffRootYielded(nodes, s.childTree.value);
      }
    }
    assert PostOrderForest(nodes, s.root, s.children) == Remaining(nodes, c) + rest by {
      StartStateRemaining(nodes, s.children[0]);
    }
    assert Remaining(nodes, s) == before + PostOrderForest(nodes, s.root, s.children) + tail;
    EmptyFirst(before, Remaining(nodes, c) + rest, tail);
    assert Remaining(nodes, s') == Remaining(nodes, r.1) + rest + tail;
    assert Remaining(nodes, c) != [] by {
      NothingLeftIffRootYielded(nodes, c);
    }
    HeadAndRest(Remaining(nodes, c), Remaining(nodes, r.1), rest, tail);
  }

  /** Neither a nested iterator nor a child is left: the root comes next,
      and after it nothing. */
  lemma NextIsRootYields<T>(nodes: seq<TreeNode<T>>, s: DepthFirstState)
    requires ChildrenAfter(nodes) && GoodState(nodes, s)
    requires !(s.childTree.Some? && s.childTree.value.rootNode.Some?) && s.children == []
    ensures YieldsNext(nodes, s, NextState(nodes, s))
  {
    if s.childTree.Some? {
      NothingLeftIffRootYielded(nodes, s.childTree.value);
    }
  }

  /** An empty first piece drops out of a concatenation. */
  lemma EmptyFirst<U>(e: seq<U>, b: seq<U>, c: seq<U>)
    requires e == []
    ensures e + b + c == b + c
  {
  }

  /** Taking the head off the first of three pieces. */
  lemma HeadAndRest<U>(a: seq<U>, a': seq<U>, b: seq<U>, c: seq<U>)
    requires a != [] && a' == a[1..]
    ensures (a + b + c) != [] && (a + b + c)[0] == a[0] && a' + b + c == (a + b + c)[1..]
  {
    assert a + b + c == [a[0]] + (a' + b + c);
  }

  /** The outermost `DepthFirstIterator`, whose fields `next` updates. */
  class DepthFirstIterator<T> {
    const nodes: seq<TreeNode<T>>
    const root: nat
    var rootNode: Option<nat>
    var children: seq<nat>
    var childTree: Option<DepthFirstState>

    function State(): DepthFirstState
      reads this
    {
      DepthFirstState(root, rootNode, children, childTree)
    }

    ghost predicate Valid()
      reads this
    {
      ChildrenAfter(nodes) && GoodState(nodes, State())
    }

    /** A new iterator has the whole post-order of `root` still to come. */
    constructor (nodes: seq<TreeNode<T>>, root: nat)
      requires ChildrenAfter(nodes) && root < |nodes|
      ensures Valid() && State() == StartState(nodes, root) && this.nodes == nodes
      ensures Remaining(nodes, State()) == PostOrder(nodes, root)
    {
      this.nodes := nodes;
      this.root := root;
      rootNode := Some(root);
      children := nodes[root].children;
      childTree := None;
      StartStateRemaining(nodes, root);
    }

    /** `hasNext`: something is still to come. */
    function HasNext(): (b: bool)
      requires Valid()
      reads this
      ensures b <==> Remaining(nodes, State()) != []
    {
      HasNextState(nodes, State())
    }

    /** `next`: the next node of the post-order; once the root has been
        yielded it returns null. */
    method Next() returns (r: Option<nat>)
      requires Valid()
      modifies this
      ensures Valid() && (r, State()) == NextState(nodes, old(State()))
      ensures YieldsNext(nodes, old(State()), (r, State()))
    {
      NextStateYieldsRemaining(nodes, State());
      if childTree.Some? && childTree.value.rootNode.Some? {
        var (x, t) := NextState(nodes, childTree.value);
        r, childTree := x, Some(t);
      } else if children != [] {
        var (x, t) := NextState(nodes, StartState(nodes, children[0]));
        r, children, childTree := x, children[1..], Some(t);
      } else {
        r, rootNode := rootNode, None;
      }
    }

    /** `remove`: always refused; the tree is immutable through an iterator. */
    method Remove() returns (o: Outcome)
      ensures o == Thrown(UnsupportedOperation)
    {
      o := Thrown(UnsupportedOperation);
    }
  }

  /** `depthFirstIterator()`: a post-order iterator over the subtree. */
  method DepthFirst<T>(nodes: seq<TreeNode<T>>, root: nat) returns (it: DepthFirstIterator<T>)
    requires WellFormed(nodes) && root < |nodes|
    ensures fresh(it) && it.Valid() && Remaining(nodes, it.State()) == PostOrder(nodes, root)
  {
    it := new DepthFirstIterator(nodes, root);
  }
}
