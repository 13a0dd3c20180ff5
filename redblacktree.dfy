/** The red-black tree of redblacktree.js: a linked structure of RBNode
    objects under a root reference, and the log of steps each public operation
    records for the visualiser. */
module RedBlackTrees {
  import opened RBSpec
  import opened Nodes
  import opened Steps

  class RedBlackTree {
    var root: RBNode?
    /** animationSteps */
    var steps: seq<Step>
    /** The nodes reachable from `root`. */
    ghost var Repr: set<RBNode>

    // -------------------------------------------------------------------
    // Structural invariant

    /** The links below `n` agree: its children point back to it, its
        subtree is itself plus its children's disjoint subtrees, and the keys
        on the left are smaller, on the right larger. */
    ghost predicate Linked(n: RBNode)
      reads n`left, n`right, n`sub, n`value, Opt(n.left)`parent, Opt(n.left)`sub,
            Opt(n.right)`parent, Opt(n.right)`sub, n.sub`value
    {
      && n.sub == {n} + Sub(n.left) + Sub(n.right)
      && (n.left != null ==> n.left.parent == n && n.left in n.left.sub && n !in n.left.sub)
      && (n.right != null ==> n.right.parent == n && n.right in n.right.sub && n !in n.right.sub)
      && Sub(n.left) !! Sub(n.right)
      && (forall m :: m in Sub(n.left) ==> m.value < n.value)
      && (forall m :: m in Sub(n.right) ==> n.value < m.value)
    }

    /** The per-node invariant at `n`. */
    lemma Local(n: RBNode)
      requires WellFormed() && n in Repr
      ensures n.sub <= Repr && ChildrenIn(n) && Linked(n)
    {
      assert Linked(n);
    }

    /** The children of `n` are nodes of the tree. */
    ghost predicate ChildrenIn(n: RBNode)
      reads this`Repr, n`left, n`right
    {
      (n.left != null ==> n.left in Repr) && (n.right != null ==> n.right in Repr)
    }

    /** A binary search tree with consistent parent links, rooted at `root`. */
    ghost predicate WellFormed()
      reads this`root, this`Repr, Repr`left, Repr`right, Repr`parent, Repr`sub, Repr`value
    {
      && (root == null <==> Repr == {})
      && (root != null ==> root in Repr && root.parent == null && root.sub == Repr)
      && (forall n {:trigger Linked(n)} :: n in Repr ==> n.sub <= Repr && ChildrenIn(n) && Linked(n))
    }

    /** Property 4 at `n`: a red node has black children. */
    ghost predicate RedOK(n: RBNode)
      reads n`color, n`left, n`right, Opt(n.left)`color, Opt(n.right)`color
    {
      n.color == Red ==> ColorAt(n.left) == Black && ColorAt(n.right) == Black
    }

    /** Property 5 at `n`: both child slots add `n.bh` black nodes. */
    ghost predicate BhOK(n: RBNode)
      reads n`bh, n`left, n`right, Opt(n.left)`color, Opt(n.right)`color,
            Opt(n.left)`bh, Opt(n.right)`bh
    {
      Contrib(n.left) == n.bh && Contrib(n.right) == n.bh
    }

    /** The red-black tree invariant. */
    ghost predicate Valid()
      reads this`root, this`Repr, Repr`left, Repr`right, Repr`parent, Repr`sub, Repr`value,
            Repr`color, Repr`bh
    {
      && WellFormed()
      && (root != null ==> root.color == Black)
      && (forall n {:trigger RedOK(n)} {:trigger BhOK(n)} :: n in Repr ==> ChildrenIn(n) && RedOK(n) && BhOK(n))
    }

    // -------------------------------------------------------------------
    // Snapshots and the step log

    /** serializeTree: a detached copy of the subtree at `n`. */
    function SerializeTree(n: RBNode?): (t: Tree)
      reads this`root, this`Repr, Repr`left, Repr`right, Repr`parent, Repr`sub, Repr`value,
            Repr`color
      requires WellFormed() && (n == null || n in Repr)
      ensures n == null <==> t == Nil
      decreases Sub(n)
    {
      if n == null then Nil
      else
        Local(n);
        Node(n.value, n.color, SerializeTree(n.left), SerializeTree(n.right))
    }

    /** getTreeState */
    function Snapshot(): Tree
      reads this`root, this`Repr, Repr`left, Repr`right, Repr`parent, Repr`sub, Repr`value,
            Repr`color
      requires WellFormed()
    {
      SerializeTree(root)
    }

    /** The keys stored in the tree. */
    ghost function Keys(): set<int>
      reads this`root, this`Repr, Repr`left, Repr`right, Repr`parent, Repr`sub, Repr`value,
            Repr`color
      requires WellFormed()
    {
      RBSpec.Keys(Snapshot())
    }

    /** One level of the copy: a node's children are nodes of the tree, and
        its copy is built from theirs. */
    lemma Unfold(n: RBNode)
      requires WellFormed() && n in Repr
      ensures n.left == null || n.left in Repr
      ensures n.right == null || n.right in Repr
      ensures SerializeTree(n) == Node(n.value, n.color, SerializeTree(n.left), SerializeTree(n.right))
    {
      assert Linked(n);
      assert n.left != null ==> Linked(n.left);
      assert n.right != null ==> Linked(n.right);
    }

    /** Every node but the root hangs from a child slot of its parent. */
    lemma ParentLink(n: RBNode)
      requires WellFormed() && n in Repr
      ensures n.parent == null <==> n == root
      ensures n.parent != null ==> n.parent in Repr && (n.parent.left == n || n.parent.right == n)
    {
      if n != root {
        FindParent(root, n);
      }
    }

    lemma {:induction false} FindParent(a: RBNode, n: RBNode)
      requires WellFormed() && a in Repr && n in a.sub && n != a
      ensures n.parent != null && n.parent in a.sub
      ensures n.parent.left == n || n.parent.right == n
      decreases a.sub
    {
      assert Linked(a);
      if a.left != null && n in a.left.sub {
        assert Linked(a.left);
        if n != a.left {
          FindParent(a.left, n);
        }
      } else {
        assert a.right != null && n in a.right.sub;
        assert Linked(a.right);
        if n != a.right {
          FindParent(a.right, n);
        }
      }
    }

    /** The snapshot is a search tree. */
    lemma SnapshotIsBST()
      requires WellFormed()
      ensures IsBST(Snapshot())
    {
      SerializeFacts(root);
    }

    /** The copy holds exactly the subtree's nodes, in search-tree order. */
    lemma {:induction false} SerializeFacts(n: RBNode?)
      requires WellFormed() && (n == null || n in Repr)
      ensures IsBST(SerializeTree(n))
      ensures RBSpec.Keys(SerializeTree(n)) == ValuesOf(Sub(n))
      ensures Entries(SerializeTree(n)) == EntriesOf(Sub(n))
      ensures Count(SerializeTree(n)) == |Sub(n)|
      decreases Sub(n)
    {
      if n != null {
        Local(n);
        SerializeFacts(n.left);
        SerializeFacts(n.right);
        UnionOfSubtrees(n);
      }
    }

    /** The keys and entries of a node's subtree are those of its two
        child subtrees and its own; the children's keys are on either side. */
    lemma UnionOfSubtrees(n: RBNode)
      requires WellFormed() && n in Repr
      ensures ValuesOf(Sub(n)) == ValuesOf(Sub(n.left)) + {n.value} + ValuesOf(Sub(n.right))
      ensures EntriesOf(Sub(n)) == EntriesOf(Sub(n.left)) + {Entry(n.value, n.color)} + EntriesOf(Sub(n.right))
      ensures |Sub(n)| == 1 + |Sub(n.left)| + |Sub(n.right)|
      ensures forall k :: k in ValuesOf(Sub(n.left)) ==> k < n.value
      ensures forall k :: k in ValuesOf(Sub(n.right)) ==> n.value < k
    {
      assert Linked(n);
      assert Sub(n) == {n} + Sub(n.left) + Sub(n.right);
      SplitSubtree(Sub(n.left), n, Sub(n.right));
    }

    /** The snapshot of a valid tree is a red-black tree. */
    lemma {:induction false} SerializeRedBlack(n: RBNode?)
      requires WellFormed() && (n == null || n in Repr)
      requires forall m :: m in Sub(n) ==> RedOK(m) && BhOK(m)
      ensures NoRedRed(SerializeTree(n)) && BlackBalanced(SerializeTree(n))
      ensures BlackHeight(SerializeTree(n)) == Contrib(n)
      ensures ColorOf(SerializeTree(n)) == ColorAt(n)
      decreases Sub(n)
    {
      if n != null {
        Local(n);
        assert RedOK(n) && BhOK(n);
        SerializeRedBlack(n.left);
        SerializeRedBlack(n.right);
      }
    }

    lemma ValidIsRedBlack()
      requires Valid()
      ensures IsRedBlack(Snapshot())
    {
      SerializeRedBlack(root);
    }

    /** The in-order walk of the snapshot is increasing and lists exactly
        the (key, colour) pairs of the nodes, `e`. */
    lemma InOrderFacts(e: set<Entry>)
      requires WellFormed() && e == EntriesOf(Repr)
      ensures IncreasingKeys(InOrder(Snapshot()))
      ensures forall x :: x in InOrder(Snapshot()) <==> x in e
    {
      SerializeFacts(root);
      InOrderIncreasing(Snapshot());
      TraversalsAgree(Snapshot());
    }

    /** So the in-order walk is fixed by the nodes' (key, colour) pairs:
        rearranging links leaves it unchanged. */
    lemma InOrderByEntries(e: set<Entry>, s: seq<Entry>)
      requires WellFormed() && e == EntriesOf(Repr)
      requires IncreasingKeys(s) && forall x :: x in s <==> x in e
      ensures InOrder(Snapshot()) == s
    {
      InOrderFacts(e);
      IncreasingUnique(InOrder(Snapshot()), s);
    }

    /** clearAnimationSteps */
    method ClearSteps()
      modifies this`steps
      ensures steps == []
    {
      steps := [];
    }

    /** addAnimationStep: records the key of `node` (if any) and a snapshot. */
    method AddStep(kind: StepKind, node: RBNode?)
      requires WellFormed()
      modifies this`steps
      ensures steps == old(steps) + [Step(kind, if node == null then None else Some(node.value), Snapshot())]
      ensures WellFormed() && Snapshot() == old(Snapshot())
      ensures old(Valid()) ==> Valid()
      ensures node != null && node in Repr ==> SerializeTree(node) == old(SerializeTree(node))
    {
      steps := steps + [Step(kind, if node == null then None else Some(node.value), Snapshot())];
    }

    // -------------------------------------------------------------------
    // Traversals and measures (the accumulator `result` is threaded
    // through as a value)

    /** inOrder: appends the subtree's (key, colour) pairs in key order. */
    function InOrderFrom(n: RBNode?, acc: seq<Entry>): (r: seq<Entry>)
      reads this`root, this`Repr, Repr`left, Repr`right, Repr`parent, Repr`sub, Repr`value,
            Repr`color
      requires WellFormed() && (n == null || n in Repr)
      ensures r == acc + InOrder(SerializeTree(n))
      decreases Sub(n)
    {
      if n == null then acc
      else
        Local(n);
        Unfold(n);
        var left := InOrderFrom(n.left, acc);
        var r := InOrderFrom(n.right, left + [Entry(n.value, n.color)]);
        assert r == acc + (InOrder(SerializeTree(n.left)) + [Entry(n.value, n.color)]
                           + InOrder(SerializeTree(n.right)));
        r
    }

    /** preOrder */
    function PreOrderFrom(n: RBNode?, acc: seq<Entry>): (r: seq<Entry>)
      reads this`root, this`Repr, Repr`left, Repr`right, Repr`parent, Repr`sub, Repr`value,
            Repr`color
      requires WellFormed() && (n == null || n in Repr)
      ensures r == acc + PreOrder(SerializeTree(n))
      decreases Sub(n)
    {
      if n == null then acc
      else
        Local(n);
        PreOrderFrom(n.right, PreOrderFrom(n.left, acc + [Entry(n.value, n.color)]))
    }

    /** postOrder */
    function PostOrderFrom(n: RBNode?, acc: seq<Entry>): (r: seq<Entry>)
      reads this`root, this`Repr, Repr`left, Repr`right, Repr`parent, Repr`sub, Repr`value,
            Repr`color
      requires WellFormed() && (n == null || n in Repr)
      ensures r == acc + PostOrder(SerializeTree(n))
      decreases Sub(n)
    {
      if n == null then acc
      else
        Local(n);
        PostOrderFrom(n.right, PostOrderFrom(n.left, acc)) + [Entry(n.value, n.color)]
    }

    /** height: edges on the longest downward path, -1 for no node. */
    function HeightFrom(n: RBNode?): (h: int)
      reads this`root, this`Repr, Repr`left, Repr`right, Repr`parent, Repr`sub, Repr`value,
            Repr`color
      requires WellFormed() && (n == null || n in Repr)
      ensures h == Height(SerializeTree(n))
      decreases Sub(n)
    {
      if n == null then -1
      else
        Local(n);
        1 + Max(HeightFrom(n.left), HeightFrom(n.right))
    }

    /** count: the number of nodes of the subtree. */
    function CountFrom(n: RBNode?): (c: nat)
      reads this`root, this`Repr, Repr`left, Repr`right, Repr`parent, Repr`sub, Repr`value
      requires WellFormed() && (n == null || n in Repr)
      ensures c == |Sub(n)|
      decreases Sub(n)
    {
      if n == null then 0
      else
        Local(n);
        assert |Sub(n)| == 1 + |Sub(n.left)| + |Sub(n.right)| by {
          SplitSubtree(Sub(n.left), n, Sub(n.right));
        }
        1 + CountFrom(n.left) + CountFrom(n.right)
    }

    /** isEmpty */
    function IsEmpty(): (b: bool)
      reads this`root, this`Repr, Repr`left, Repr`right, Repr`parent, Repr`sub, Repr`value, Repr`color
      requires WellFormed()
      ensures b <==> Keys() == {}
    {
      assert root != null ==> root.value in Keys() by {
        if root != null { Unfold(root); }
      }
      root == null
    }

    /** The walks list every node once. */
    lemma WalkSizes()
      requires WellFormed()
      ensures |InOrderFrom(root, [])| == CountFrom(root) == |Repr|
      ensures multiset(PreOrderFrom(root, [])) == multiset(InOrderFrom(root, []))
      ensures multiset(PostOrderFrom(root, [])) == multiset(InOrderFrom(root, []))
    {
      SerializeFacts(root);
      TraversalSizes(Snapshot());
      TraversalsAgree(Snapshot());
    }

    /** The height of a valid tree is logarithmic in its size:
        2^((height+1)/2) <= count+1. */
    lemma HeightLogarithmic()
      requires Valid()
      ensures Pow2((HeightFrom(root) + 1) / 2) <= CountFrom(root) + 1
    {
      SerializeFacts(root);
      ValidIsRedBlack();
      HeightBound(Snapshot());
    }

    /** The in-order walk is the sorted list of the tree's (key, colour) pairs. */
    lemma InOrderSorted()
      requires WellFormed()
      ensures IncreasingKeys(InOrderFrom(root, []))
      ensures forall e :: e in InOrderFrom(root, []) <==> e in EntriesOf(Repr)
    {
      InOrderFacts(EntriesOf(Repr));
    }

    /** The recursive `checkNode` of verify, walking the nodes themselves. */
    function CheckNodeFrom(n: RBNode?, blackCount: int, pathBlackCount: int): (r: (int, seq<Violation>))
      reads this`root, this`Repr, Repr`left, Repr`right, Repr`parent, Repr`sub, Repr`value,
            Repr`color
      requires WellFormed() && (n == null || n in Repr)
      ensures r == CheckNode(SerializeTree(n), blackCount, pathBlackCount)
      decreases Sub(n)
    {
      if n == null then
        if pathBlackCount == -1 then (blackCount, [])
        else (pathBlackCount, if blackCount != pathBlackCount then [UnequalBlackCounts] else [])
      else
        Local(n);
        var here :=
          if n.IsRed() && ((n.left != null && n.left.IsRed()) || (n.right != null && n.right.IsRed()))
          then [RedNodeWithRedChild(n.value)] else [];
        var count := if n.IsRed() then blackCount else blackCount + 1;
        var p1 := CheckNodeFrom(n.left, count, pathBlackCount);
        var p2 := CheckNodeFrom(n.right, count, p1.0);
        (p2.0, here + p1.1 + p2.1)
    }

    /** verify: reports a red root, red nodes with a red child, and unequal
        black counts; it reports nothing exactly for a red-black tree. */
    function Verify(): (r: Report)
      reads this`root, this`Repr, Repr`left, Repr`right, Repr`parent, Repr`sub, Repr`value,
            Repr`color
      requires WellFormed()
      ensures r.valid <==> r.errors == []
      ensures RedRoot in r.errors <==> root != null && root.color == Red
      ensures UnequalBlackCounts in r.errors <==> !BlackBalanced(Snapshot())
      ensures forall k :: RedNodeWithRedChild(k) in r.errors <==> k in RedRedKeys(Snapshot())
      ensures r.valid <==> IsRedBlack(Snapshot())
    {
      var rootErrors := if root != null && root.IsRed() then [RedRoot] else [];
      var errors := rootErrors + CheckNodeFrom(root, 0, -1).1;
      VerifyTreeCorrect(Snapshot());
      assert Report(|errors| == 0, errors) == VerifyTree(Snapshot());
      Report(|errors| == 0, errors)
    }

    /** A valid tree passes verify. */
    lemma ValidPassesVerify()
      requires Valid()
      ensures Verify().valid && Verify().errors == []
    {
      ValidIsRedBlack();
    }

    /** clear: drops every node and the log. */
    method Clear()
      modifies this`root, this`Repr, this`steps
      ensures Valid() && Repr == {} && steps == []
    {
      root := null;
      Repr := {};
      ClearSteps();
    }

    // -------------------------------------------------------------------
    // Lookup

    /** searchNode: the node holding `v`, or null when there is none. */
    method SearchNode(v: int) returns (r: RBNode?)
      requires WellFormed()
      ensures r != null ==> r in Repr && r.value == v
      ensures r == null <==> v !in Keys()
    {
      ghost var t := Snapshot();
      SnapshotIsBST();
      var current := root;
      while current != null
        invariant current == null || current in Repr
        invariant t == SerializeTree(current) && IsBST(t)
        invariant v in Keys() <==> v in RBSpec.Keys(t)
        decreases t
      {
        Unfold(current);
        if v == current.value {
          return current;
        } else if v < current.value {
          current := current.left;
          t := t.left;
        } else {
          current := current.right;
          t := t.right;
        }
      }
      return null;
    }

    /** search: as searchNode, logging each node visited, the direction
        taken, and whether the key was found. */
    method Search(v: int) returns (r: RBNode?)
      requires WellFormed()
      modifies this`steps
      ensures r != null ==> r in Repr && r.value == v
      ensures r == null <==> v !in Keys()
      ensures steps == SearchTrace(Snapshot(), v, Snapshot(), [])
    {
      ClearSteps();
      ghost var snap := Snapshot();
      ghost var t := snap;
      var current := root;
      while current != null
        invariant WellFormed() && Snapshot() == snap
        invariant current == null || current in Repr
        invariant t == SerializeTree(current)
        invariant SearchTrace(t, v, snap, steps) == SearchTrace(snap, v, snap, [])
        decreases t
      {
        Unfold(current);
        AddStep(StepKind.Search, current);
        if v == current.value {
          AddStep(Found, current);
          SearchFound(snap, v);
          return current;
        } else if v < current.value {
          AddStep(SearchLeft, current);
          current := current.left;
          t := t.left;
        } else {
          AddStep(SearchRight, current);
          current := current.right;
          t := t.right;
        }
      }
      AddStep(NotFound, null);
      SearchFound(snap, v);
      return null;
    }

    /** The outcome of a logged search is read off its last step. */
    lemma SearchFound(snap: Tree, v: int)
      requires WellFormed() && snap == Snapshot()
      ensures SearchTrace(snap, v, snap, []) != []
      ensures var s := SearchTrace(snap, v, snap, []);
              (s[|s| - 1].kind == Found <==> v in Keys()) &&
              (s[|s| - 1].kind == NotFound <==> v !in Keys())
    {
      SnapshotIsBST();
      SearchTraceOutcome(snap, v, snap, []);
    }

    /** The leftmost node of the subtree at `n`, which holds its least key. */
    ghost function Leftmost(n: RBNode): (m: RBNode)
      reads this`root, this`Repr, Repr`left, Repr`right, Repr`parent, Repr`sub, Repr`value
      requires WellFormed() && n in Repr
      ensures m in n.sub && m.left == null
      ensures forall k :: k in n.sub && k != m ==> m.value < k.value
      decreases n.sub
    {
      Local(n);
      if n.left == null then
        assert forall k :: k in n.sub && k != n ==> k in Sub(n.right);
        n
      else
        Local(n.left);
        var m := Leftmost(n.left);
        assert forall k :: k in n.sub && k != m ==> k in n.left.sub || k == n || k in Sub(n.right);
        m
    }

    /** The in-order successor of a node with a right child. */
    ghost function Successor(z: RBNode): RBNode
      reads this`root, this`Repr, Repr`left, Repr`right, Repr`parent, Repr`sub, Repr`value
      requires WellFormed() && z in Repr && z.right != null
    {
      Local(z);
      Leftmost(z.right)
    }

    /** minimum: follow left links down from `node`. */
    method Minimum(node: RBNode) returns (m: RBNode)
      requires WellFormed() && node in Repr
      ensures m == Leftmost(node)
    {
      assert Linked(node);
      m := node;
      while m.left != null
        invariant m in node.sub && m.sub <= node.sub && m in Repr
        invariant forall k :: k in node.sub - m.sub ==> m.value < k.value
        decreases m.sub
      {
        assert Linked(m);
        assert Linked(m.left);
        m := m.left;
      }
      assert Linked(m);
    }

    // -------------------------------------------------------------------
    // Rotations

    /** rotateLeft: `x`'s right child `y` takes `x`'s place under `x`'s
        parent (or as root), `x` becomes `y`'s left child and adopts `y`'s
        former left subtree. The in-order walk does not change. */
    method RotateLeft(x: RBNode)
      requires WellFormed() && x in Repr && x.right != null
      modifies this`root, this`steps, Repr`left, Repr`right, Repr`parent, Repr`sub
      ensures WellFormed() && Repr == old(Repr)
      ensures unchanged(Repr - {x, old(x.right)} - Opt(old(x.right.left)) - Opt(old(x.parent)))
      ensures var b := old(x.right.left); b != null ==> b.left == old(b.left) && b.right == old(b.right)
      ensures InOrder(Snapshot()) == old(InOrder(Snapshot()))
      ensures var y := old(x.right);
              && y.left == x && y.parent == old(x.parent) && y.sub == old(x.sub)
              && x.parent == y && x.right == old(y.left)
              && x.left == old(x.left) && y.right == old(y.right)
      ensures old(x.right.left) != null ==> old(x.right.left).parent == x
      ensures root == if old(x.parent) == null then old(x.right) else old(root)
      ensures var p := old(x.parent);
              p != null ==>
                if old(p.left) == x then p.left == old(x.right) && p.right == old(p.right)
                else p.right == old(x.right) && p.left == old(p.left)
      ensures steps == old(steps) + [Step(StepKind.RotateLeft, Some(x.value), Snapshot())]
    {
      ghost var e := EntriesOf(Repr);
      ghost var before := InOrder(Snapshot());
      InOrderFacts(e);
      RotationShape(x, x.right);
      ghost var p := x.parent;
      ghost var y := x.right;
      ghost var b := y.left;
      ghost var xsub := {x} + Sub(x.left) + Sub(b);
      RelinkLeft(x, xsub);
      RotateLeftKeeps(x, y, b, p);
      InOrderByEntries(e, before);
      AddStep(StepKind.RotateLeft, x);
    }

    /** The link rewrites of rotateLeft, in the source's order. */
    method RelinkLeft(x: RBNode, ghost xsub: set<RBNode>)
      requires x.right != null && x.right != x && x.parent != x && x.parent != x.right
      requires x.right.left != null ==> x.right.left !in {x, x.right, x.parent}
      requires x.parent != null ==> (x.parent.left == x) != (x.parent.right == x)
      modifies this`root, x`right, x`parent, x`sub,
               x.right`left, x.right`parent, x.right`sub,
               Opt(x.right.left)`parent, Opt(x.parent)`left, Opt(x.parent)`right
      ensures var y := old(x.right);
              var b := old(y.left);
              var p := old(x.parent);
              && x.right == b && x.parent == y && x.sub == xsub
              && y.left == x && y.parent == p && y.sub == old(x.sub)
              && (b != null ==> b.parent == x)
              && (p != null ==> if old(p.left) == x then p.left == y && p.right == old(p.right)
                                else p.right == y && p.left == old(p.left))
              && root == if p == null then y else old(root)
    {
      var rightChild := x.right;
      x.right := rightChild.left;
      if rightChild.left != null {
        rightChild.left.parent := x;
      }
      rightChild.parent := x.parent;
      if x.parent == null {
        root := rightChild;
      } else if x == x.parent.left {
        x.parent.left := rightChild;
      } else {
        x.parent.right := rightChild;
      }
      rightChild.left := x;
      x.parent := rightChild;
      rightChild.sub := x.sub;
      x.sub := xsub;
    }

    /** The neighbourhood a rotation at `x` towards its child `y` rewires:
        all distinct nodes of the tree. */
    lemma RotationShape(x: RBNode, y: RBNode)
      requires WellFormed() && x in Repr && (y == x.left || y == x.right)
      ensures y in Repr && y != x && y.parent == x
      ensures x.parent == null <==> x == root
      ensures x.parent != null ==> x.parent in Repr && x.parent != x && x.parent != y
      ensures x.parent != null ==> (x.parent.left == x) != (x.parent.right == x)
      ensures y.left != null ==> y.left in Repr && y.left != x && y.left != y && y.left != x.parent
      ensures y.right != null ==> y.right in Repr && y.right != x && y.right != y && y.right != x.parent
    {
      Local(x);
      Local(y);
      ParentLink(x);
      if x.parent != null {
        Local(x.parent);
      }
    }

    /** The links after rotateLeft at `x` (right child `y`, inner
        grandchild `b`, parent `p`) rewrote them, relative to a well-formed
        tree: nothing else changed. */
    twostate predicate LeftRotated(x: RBNode, y: RBNode, b: RBNode?, p: RBNode?)
      reads this, Repr, x, y, Opt(b), Opt(p)
    {
      && old(WellFormed()) && x in old(Repr) && Repr == old(Repr)
      && old(x.right) == y && old(y.left) == b && old(x.parent) == p
      && (p == null ==> old(root) == x)
      && (p != null ==> p in old(Repr) && (old(p.left) == x || old(p.right) == x))
      && x.left == old(x.left) && x.right == b && x.parent == y
      && x.sub == {x} + old(Sub(x.left)) + old(Sub(b))
      && y.left == x
      && y.right == old(y.right)
      && y.parent == p
      && y.sub == old(x.sub)
      && (b != null ==> b.parent == x)
      && (p != null ==> if old(p.left) == x then p.left == y && p.right == old(p.right)
                          else p.right == y && p.left == old(p.left))
      && (root == if p == null then y else old(root))
      && unchanged(Repr - {x, y} - Opt(b) - Opt(p))
      && (b != null ==> b.left == old(b.left) && b.right == old(b.right) && b.sub == old(b.sub))
      && (p != null ==> p.parent == old(p.parent) && p.sub == old(p.sub))
      && (forall n :: n in Repr ==> n.value == old(n.value) && n.color == old(n.color))
    }

    /** After the link rewrites of a left rotation at `x` (right child `y`,
        inner grandchild `b`, parent `p`) the tree is again well formed. */
    twostate lemma RotateLeftKeeps(x: RBNode, new y: RBNode, new b: RBNode?, new p: RBNode?)
      requires old(allocated(y) && allocated(b) && allocated(p)) && LeftRotated(x, y, b, p)
      ensures WellFormed() && EntriesOf(Repr) == old(EntriesOf(Repr))
    {
      RotateLeftOthers(x, y, b, p);
      RotateLeftX(x, y, b, p);
      RotateLeftY(x, y, b, p);
      RotateLeftP(x, y, b, p);
      RotateLeftRoot(x, y, b, p);
      assert EntriesOf(Repr) == old(EntriesOf(Repr));
    }

    /** Nodes other than `x`, `y` and `p` keep their links. */
    twostate lemma RotateLeftOthers(x: RBNode, new y: RBNode, new b: RBNode?, new p: RBNode?)
      requires old(allocated(y) && allocated(b) && allocated(p)) && LeftRotated(x, y, b, p)
      ensures forall n :: n in Repr && n != x && n != y && n != p ==>
                n.sub <= Repr && ChildrenIn(n) && Linked(n)
    {
      assert old(Linked(x));
      assert old(y in Repr && Linked(y));
      forall n | n in Repr && n != x && n != y && n != p
        ensures n.sub <= Repr && ChildrenIn(n) && Linked(n)
      {
        assert old(Linked(n));
        var l, r := old(n.left), old(n.right);
        assert l != null ==> l != x && l != y && l != b;
        assert r != null ==> r != x && r != y && r != b;
        LinkedKept(n);
      }
    }

    twostate lemma RotateLeftX(x: RBNode, new y: RBNode, new b: RBNode?, new p: RBNode?)
      requires old(allocated(y) && allocated(b) && allocated(p)) && LeftRotated(x, y, b, p)
      ensures x.sub <= Repr && ChildrenIn(x) && Linked(x)
    {
      assert old(Linked(x));
      assert old(y in Repr && Linked(y));
      var a := old(x.left);
      assert old(a != null ==> a in Repr && Linked(a));
      assert old(b != null ==> b in Repr && Linked(b));
      RotatedBelowLeft(x, y, a, b);
    }

    twostate lemma RotateLeftY(x: RBNode, new y: RBNode, new b: RBNode?, new p: RBNode?)
      requires old(allocated(y) && allocated(b) && allocated(p)) && LeftRotated(x, y, b, p)
      ensures y.sub <= Repr && ChildrenIn(y) && Linked(y)
    {
      assert old(Linked(x));
      assert old(y in Repr && Linked(y));
      var c := old(y.right);
      assert old(c != null ==> c in Repr && Linked(c));
      RotatedAboveLeft(x, y, c);
    }

    twostate lemma RotateLeftP(x: RBNode, new y: RBNode, new b: RBNode?, new p: RBNode?)
      requires old(allocated(y) && allocated(b) && allocated(p)) && LeftRotated(x, y, b, p)
      ensures p != null ==> p.sub <= Repr && ChildrenIn(p) && Linked(p)
    {
      if p != null {
        assert old(Linked(x));
        assert old(Linked(p));
        assert old(Linked(y));
        var o := if old(p.left) == x then old(p.right) else old(p.left);
        assert o != null ==> o != x && o != y && o != b && o != p;
        ChildReplaced(p, x, y);
      }
    }

    twostate lemma RotateLeftRoot(x: RBNode, new y: RBNode, new b: RBNode?, new p: RBNode?)
      requires old(allocated(y) && allocated(b) && allocated(p)) && LeftRotated(x, y, b, p)
      ensures root == null <==> Repr == {}
      ensures root != null ==> root in Repr && root.parent == null && root.sub == Repr
    {
      assert old(Linked(x));
      assert old(Linked(y));
      var r := old(root);
      if p != null {
        assert r != x && r != y && r != b;
      }
    }

    /** Linked(n) depends only on n's links and subtree set, its
        children's back-links and subtree sets, and the keys below n. */
    twostate lemma LinkedKept(n: RBNode)
      requires old(Linked(n))
      requires n.left == old(n.left) && n.right == old(n.right) && n.sub == old(n.sub)
      requires n.left != null ==> n.left.parent == old(n.left.parent) && n.left.sub == old(n.left.sub)
      requires n.right != null ==> n.right.parent == old(n.right.parent) && n.right.sub == old(n.right.sub)
      requires forall m :: m in n.sub ==> m.value == old(m.value)
      ensures Linked(n)
    {
    }

    /** After a left rotation, `x` (now below `y`) is linked to its old
        left child `a` and to `y`'s old left child `b`. */
    twostate lemma RotatedBelowLeft(x: RBNode, new y: RBNode, new a: RBNode?, new b: RBNode?)
      requires old(allocated(y) && allocated(a) && allocated(b))
      requires old(Linked(x)) && old(Linked(y))
      requires old(x.left) == a && old(x.right) == y && old(y.left) == b
      requires x.left == a && x.right == b && x.sub == {x} + old(Sub(a)) + old(Sub(b))
      requires a != null ==> a.parent == old(a.parent) && a.sub == old(a.sub)
      requires b != null ==> b.parent == x && b.sub == old(b.sub)
      requires forall m :: m in old(x.sub) ==> m.value == old(m.value)
      ensures Linked(x)
    {
    }

    /** After a left rotation, `y` (now on top) is linked to `x` and to its
        old right child `c`, and holds the nodes `x` held. */
    twostate lemma RotatedAboveLeft(x: RBNode, new y: RBNode, new c: RBNode?)
      requires old(allocated(y) && allocated(c))
      requires old(Linked(x)) && old(Linked(y))
      requires old(x.right) == y && old(y.right) == c
      requires y.left == x && y.right == c && y.sub == old(x.sub)
      requires x.parent == y && x.sub == {x} + old(Sub(x.left)) + old(Sub(y.left))
      requires c != null ==> c.parent == old(c.parent) && c.sub == old(c.sub)
      requires forall m :: m in old(x.sub) ==> m.value == old(m.value)
      ensures Linked(y)
    {
    }

    /** A parent whose child `x` is replaced by `y` holding the same nodes
        stays linked. */
    twostate lemma ChildReplaced(p: RBNode, new x: RBNode, new y: RBNode)
      requires old(allocated(x) && allocated(y))
      requires old(Linked(p)) && (old(p.left) == x || old(p.right) == x) && y in old(x.sub)
      requires p.left == (if old(p.left) == x then y else old(p.left))
      requires p.right == (if old(p.left) == x then old(p.right) else y)
      requires p.sub == old(p.sub) && y.parent == p && y.sub == old(x.sub)
      requires old(p.left) != x && p.left != null ==> p.left.parent == old(p.left.parent) && p.left.sub == old(p.left.sub)
      requires old(p.left) == x && p.right != null ==> p.right.parent == old(p.right.parent) && p.right.sub == old(p.right.sub)
      requires forall m :: m in p.sub ==> m.value == old(m.value)
      ensures Linked(p)
    {
    }

    /** rotateRight: `x`'s left child `y` takes `x`'s place under `x`'s
        parent (or as root), `x` becomes `y`'s right child and adopts `y`'s
        former right subtree. The in-order walk does not change. */
    method RotateRight(x: RBNode)
      requires WellFormed() && x in Repr && x.left != null
      modifies this`root, this`steps, Repr`left, Repr`right, Repr`parent, Repr`sub
      ensures WellFormed() && Repr == old(Repr)
      ensures unchanged(Repr - {x, old(x.left)} - Opt(old(x.left.right)) - Opt(old(x.parent)))
      ensures var b := old(x.left.right); b != null ==> b.right == old(b.right) && b.left == old(b.left)
      ensures InOrder(Snapshot()) == old(InOrder(Snapshot()))
      ensures var y := old(x.left);
              && y.right == x && y.parent == old(x.parent) && y.sub == old(x.sub)
              && x.parent == y && x.left == old(y.right)
              && x.right == old(x.right) && y.left == old(y.left)
      ensures old(x.left.right) != null ==> old(x.left.right).parent == x
      ensures root == if old(x.parent) == null then old(x.left) else old(root)
      ensures var p := old(x.parent);
              p != null ==>
                if old(p.right) == x then p.right == old(x.left) && p.left == old(p.left)
                else p.left == old(x.left) && p.right == old(p.right)
      ensures steps == old(steps) + [Step(StepKind.RotateRight, Some(x.value), Snapshot())]
    {
      ghost var e := EntriesOf(Repr);
      ghost var before := InOrder(Snapshot());
      InOrderFacts(e);
      RotationShape(x, x.left);
      ghost var p := x.parent;
      ghost var y := x.left;
      ghost var b := y.right;
      ghost var xsub := {x} + Sub(x.right) + Sub(b);
      RelinkRight(x, xsub);
      RotateRightKeeps(x, y, b, p);
      InOrderByEntries(e, before);
      AddStep(StepKind.RotateRight, x);
    }

    /** The link rewrites of rotateRight, in the source's order. */
    method RelinkRight(x: RBNode, ghost xsub: set<RBNode>)
      requires x.left != null && x.left != x && x.parent != x && x.parent != x.left
      requires x.left.right != null ==> x.left.right !in {x, x.left, x.parent}
      requires x.parent != null ==> (x.parent.right == x) != (x.parent.left == x)
      modifies this`root, x`left, x`parent, x`sub,
               x.left`right, x.left`parent, x.left`sub,
               Opt(x.left.right)`parent, Opt(x.parent)`right, Opt(x.parent)`left
      ensures var y := old(x.left);
              var b := old(y.right);
              var p := old(x.parent);
              && x.left == b && x.parent == y && x.sub == xsub
              && y.right == x && y.parent == p && y.sub == old(x.sub)
              && (b != null ==> b.parent == x)
              && (p != null ==> if old(p.right) == x then p.right == y && p.left == old(p.left)
                                else p.left == y && p.right == old(p.right))
              && root == if p == null then y else old(root)
    {
      var leftChild := x.left;
      x.left := leftChild.right;
      if leftChild.right != null {
        leftChild.right.parent := x;
      }
      leftChild.parent := x.parent;
      if x.parent == null {
        root := leftChild;
      } else if x == x.parent.right {
        x.parent.right := leftChild;
      } else {
        x.parent.left := leftChild;
      }
      leftChild.right := x;
      x.parent := leftChild;
      leftChild.sub := x.sub;
      x.sub := xsub;
    }

    /** The links after rotateRight at `x` (left child `y`, inner
        grandchild `b`, parent `p`) rewrote them, relative to a well-formed
        tree: nothing else changed. */
    twostate predicate RightRotated(x: RBNode, y: RBNode, b: RBNode?, p: RBNode?)
      reads this, Repr, x, y, Opt(b), Opt(p)
    {
      && old(WellFormed()) && x in old(Repr) && Repr == old(Repr)
      && old(x.left) == y && old(y.right) == b && old(x.parent) == p
      && (p == null ==> old(root) == x)
      && (p != null ==> p in old(Repr) && (old(p.right) == x || old(p.left) == x))
      && x.right == old(x.right) && x.left == b && x.parent == y
      && x.sub == {x} + old(Sub(x.right)) + old(Sub(b))
      && y.right == x
      && y.left == old(y.left)
      && y.parent == p
      && y.sub == old(x.sub)
      && (b != null ==> b.parent == x)
      && (p != null ==> if old(p.right) == x then p.right == y && p.left == old(p.left)
                          else p.left == y && p.right == old(p.right))
      && (root == if p == null then y else old(root))
      && unchanged(Repr - {x, y} - Opt(b) - Opt(p))
      && (b != null ==> b.right == old(b.right) && b.left == old(b.left) && b.sub == old(b.sub))
      && (p != null ==> p.parent == old(p.parent) && p.sub == old(p.sub))
      && (forall n :: n in Repr ==> n.value == old(n.value) && n.color == old(n.color))
    }

    /** After the link rewrites of a right rotation at `x` (left child `y`,
        inner grandchild `b`, parent `p`) the tree is again well formed. */
    twostate lemma RotateRightKeeps(x: RBNode, new y: RBNode, new b: RBNode?, new p: RBNode?)
      requires old(allocated(y) && allocated(b) && allocated(p)) && RightRotated(x, y, b, p)
      ensures WellFormed() && EntriesOf(Repr) == old(EntriesOf(Repr))
    {
      RotateRightOthers(x, y, b, p);
      RotateRightX(x, y, b, p);
      RotateRightY(x, y, b, p);
      RotateRightP(x, y, b, p);
      RotateRightRoot(x, y, b, p);
      assert EntriesOf(Repr) == old(EntriesOf(Repr));
    }

    /** Nodes other than `x`, `y` and `p` keep their links. */
    twostate lemma RotateRightOthers(x: RBNode, new y: RBNode, new b: RBNode?, new p: RBNode?)
      requires old(allocated(y) && allocated(b) && allocated(p)) && RightRotated(x, y, b, p)
      ensures forall n :: n in Repr && n != x && n != y && n != p ==>
                n.sub <= Repr && ChildrenIn(n) && Linked(n)
    {
      assert old(Linked(x));
      assert old(y in Repr && Linked(y));
      forall n | n in Repr && n != x && n != y && n != p
        ensures n.sub <= Repr && ChildrenIn(n) && Linked(n)
      {
        assert old(Linked(n));
        var l, r := old(n.right), old(n.left);
        assert l != null ==> l != x && l != y && l != b;
        assert r != null ==> r != x && r != y && r != b;
        LinkedKept(n);
      }
    }

    twostate lemma RotateRightX(x: RBNode, new y: RBNode, new b: RBNode?, new p: RBNode?)
      requires old(allocated(y) && allocated(b) && allocated(p)) && RightRotated(x, y, b, p)
      ensures x.sub <= Repr && ChildrenIn(x) && Linked(x)
    {
      assert old(Linked(x));
      assert old(y in Repr && Linked(y));
      var a := old(x.right);
      assert old(a != null ==> a in Repr && Linked(a));
      assert old(b != null ==> b in Repr && Linked(b));
      RotatedBelowRight(x, y, a, b);
    }

    twostate lemma RotateRightY(x: RBNode, new y: RBNode, new b: RBNode?, new p: RBNode?)
      requires old(allocated(y) && allocated(b) && allocated(p)) && RightRotated(x, y, b, p)
      ensures y.sub <= Repr && ChildrenIn(y) && Linked(y)
    {
      assert old(Linked(x));
      assert old(y in Repr && Linked(y));
      var c := old(y.left);
      assert old(c != null ==> c in Repr && Linked(c));
      RotatedAboveRight(x, y, c);
    }

    twostate lemma RotateRightP(x: RBNode, new y: RBNode, new b: RBNode?, new p: RBNode?)
      requires old(allocated(y) && allocated(b) && allocated(p)) && RightRotated(x, y, b, p)
      ensures p != null ==> p.sub <= Repr && ChildrenIn(p) && Linked(p)
    {
      if p != null {
        assert old(Linked(x));
        assert old(Linked(p));
        assert old(Linked(y));
        var o := if old(p.right) == x then old(p.left) else old(p.right);
        assert o != null ==> o != x && o != y && o != b && o != p;
        ChildReplaced(p, x, y);
      }
    }

    twostate lemma RotateRightRoot(x: RBNode, new y: RBNode, new b: RBNode?, new p: RBNode?)
      requires old(allocated(y) && allocated(b) && allocated(p)) && RightRotated(x, y, b, p)
      ensures root == null <==> Repr == {}
      ensures root != null ==> root in Repr && root.parent == null && root.sub == Repr
    {
      assert old(Linked(x));
      assert old(Linked(y));
      var r := old(root);
      if p != null {
        assert r != x && r != y && r != b;
      }
    }

    /** After a right rotation, `x` (now below `y`) is linked to its old
        right child `a` and to `y`'s old right child `b`. */
    twostate lemma RotatedBelowRight(x: RBNode, new y: RBNode, new a: RBNode?, new b: RBNode?)
      requires old(allocated(y) && allocated(a) && allocated(b))
      requires old(Linked(x)) && old(Linked(y))
      requires old(x.right) == a && old(x.left) == y && old(y.right) == b
      requires x.right == a && x.left == b && x.sub == {x} + old(Sub(a)) + old(Sub(b))
      requires a != null ==> a.parent == old(a.parent) && a.sub == old(a.sub)
      requires b != null ==> b.parent == x && b.sub == old(b.sub)
      requires forall m :: m in old(x.sub) ==> m.value == old(m.value)
      ensures Linked(x)
    {
    }

    /** After a right rotation, `y` (now on top) is linked to `x` and to its
        old left child `c`, and holds the nodes `x` held. */
    twostate lemma RotatedAboveRight(x: RBNode, new y: RBNode, new c: RBNode?)
      requires old(allocated(y) && allocated(c))
      requires old(Linked(x)) && old(Linked(y))
      requires old(x.left) == y && old(y.left) == c
      requires y.right == x && y.left == c && y.sub == old(x.sub)
      requires x.parent == y && x.sub == {x} + old(Sub(x.right)) + old(Sub(y.right))
      requires c != null ==> c.parent == old(c.parent) && c.sub == old(c.sub)
      requires forall m :: m in old(x.sub) ==> m.value == old(m.value)
      ensures Linked(y)
    {
    }

    // -------------------------------------------------------------------
    // Ancestry

    /** Every node of a subtree roots a subtree inside it. */
    lemma {:induction false} SubClosed(a: RBNode, m: RBNode)
      requires WellFormed() && a in Repr && m in a.sub
      ensures m in Repr && m.sub <= a.sub
      decreases a.sub
    {
      Local(a);
      if m != a {
        if a.left != null && m in a.left.sub {
          SubClosed(a.left, m);
        } else {
          SubClosed(a.right, m);
        }
      }
    }

    /** Whoever has a child `d` of `c` below it has `c` too (or is `d`). */
    lemma {:induction false} AncestorOfChild(n: RBNode, c: RBNode, d: RBNode)
      requires WellFormed() && n in Repr && c in Repr && (d == c.left || d == c.right)
      requires d in n.sub && d != n
      ensures c in n.sub
      decreases n.sub
    {
      Local(n);
      Local(c);
      var m := if n.left != null && d in n.left.sub then n.left else n.right;
      Local(m);
      if m != d {
        AncestorOfChild(m, c, d);
      }
    }

    /** Key `v` lies on the proper side of every proper ancestor of `c`:
        hanging `v` anywhere below `c` keeps the search order. */
    ghost predicate Fits(v: int, c: RBNode)
      reads this`Repr, Repr`left, Repr`right, Repr`sub, Repr`value
    {
      forall n :: n in Repr && ChildrenIn(n) ==>
        (c in Sub(n.left) ==> v < n.value) && (c in Sub(n.right) ==> n.value < v)
    }

    /** Descending from `c` towards `v` keeps `v` fitting. */
    lemma FitsChild(v: int, c: RBNode)
      requires WellFormed() && c in Repr && Fits(v, c) && v != c.value
      requires (if v < c.value then c.left else c.right) != null
      ensures Fits(v, if v < c.value then c.left else c.right)
    {
      Local(c);
      var d := if v < c.value then c.left else c.right;
      forall n | n in Repr && ChildrenIn(n)
        ensures (d in Sub(n.left) ==> v < n.value) && (d in Sub(n.right) ==> n.value < v)
      {
        Local(n);
        if d in n.sub && d != n {
          AncestorOfChild(n, c, d);
          if n != c {
            if c in Sub(n.left) {
              SubClosed(n.left, c);
            } else {
              SubClosed(n.right, c);
            }
          }
        }
      }
    }

    /** No node has the root below it. */
    lemma RootOnTop(n: RBNode)
      requires WellFormed() && n in Repr
      ensures root !in Sub(n.left) && root !in Sub(n.right)
    {
      Local(n);
      if root in Sub(n.left) {
        SubClosed(n.left, root);
      } else if root in Sub(n.right) {
        SubClosed(n.right, root);
      }
    }

    /** So any key fits at the root. */
    lemma FitsRoot(v: int)
      requires WellFormed() && root != null
      ensures Fits(v, root)
    {
      forall n | n in Repr && ChildrenIn(n)
        ensures root !in Sub(n.left) && root !in Sub(n.right)
      {
        RootOnTop(n);
      }
    }

    // -------------------------------------------------------------------
    // Insertion

    /** Lines 145-152 of insert: hang the new leaf `z` under `parent` on the
        side its key selects, and log the insertion. */
    method Attach(z: RBNode, parent: RBNode)
      requires Valid() && parent in Repr && z !in Repr
      requires z.left == null && z.right == null && z.sub == {z} && z.color == Red && z.bh == 0
      requires z.value != parent.value && Fits(z.value, parent)
      requires (if z.value < parent.value then parent.left else parent.right) == null
      modifies this`Repr, this`steps, z`parent, parent`left, parent`right, Repr`sub
      ensures Fixing(z) && Repr == old(Repr) + {z}
      ensures z.parent == parent
      ensures if z.value < parent.value then parent.left == z && parent.right == old(parent.right)
              else parent.right == z && parent.left == old(parent.left)
      ensures steps == old(steps) + [Step(if z.value < parent.value then InsertLeft else InsertRight,
                                          Some(z.value), Snapshot())]
    {
      z.parent := parent;
      if z.value < parent.value {
        parent.left := z;
      } else {
        parent.right := z;
      }
      forall n | n in Repr && parent in n.sub {
        n.sub := n.sub + {z};
      }
      Repr := Repr + {z};
      AttachKeeps(z, parent);
      AttachFixing(z, parent);
      AddStep(if z.value < parent.value then InsertLeft else InsertRight, z);
    }

    /** The state after `Attach` hung the leaf `z` under `parent`, relative
        to a well-formed tree: the ancestors of `z` gained it, nothing else
        changed. */
    twostate predicate Attached(z: RBNode, parent: RBNode)
      reads this, Repr, z, parent
    {
      && old(WellFormed()) && parent in old(Repr) && z !in old(Repr)
      && Repr == old(Repr) + {z} && root == old(root)
      && z.left == null && z.right == null && z.sub == {z} && z.parent == parent
      && z.value == old(z.value) && z.value != parent.value && old(Fits(z.value, parent))
      && (if z.value < parent.value then old(parent.left) == null && parent.left == z && parent.right == old(parent.right)
          else old(parent.right) == null && parent.right == z && parent.left == old(parent.left))
      && (forall n :: n in old(Repr) ==> n.sub == if parent in old(n.sub) then old(n.sub) + {z} else old(n.sub))
      && (forall n :: n in old(Repr) && n != parent ==> n.left == old(n.left) && n.right == old(n.right))
      && (forall n :: n in old(Repr) ==> n.parent == old(n.parent) && n.value == old(n.value))
    }

    twostate lemma AttachKeeps(z: RBNode, new parent: RBNode)
      requires old(allocated(parent)) && Attached(z, parent)
      ensures WellFormed()
    {
      AttachOthers(z, parent);
      AttachAncestors(z, parent);
      AttachParent(z, parent);
      AttachRoot(z, parent);
    }

    twostate lemma AttachRoot(z: RBNode, new parent: RBNode)
      requires old(allocated(parent)) && Attached(z, parent)
      ensures root != null && root in Repr && root.parent == null && root.sub == Repr
    {
      assert old(Linked(root));
    }

    /** Nodes that are not above `z` keep their links. */
    twostate lemma AttachOthers(z: RBNode, new parent: RBNode)
      requires old(allocated(parent)) && Attached(z, parent)
      ensures forall n :: n in Repr && n != z && parent !in old(n.sub) ==>
                n.sub <= Repr && ChildrenIn(n) && Linked(n)
    {
      forall n | n in Repr && n != z && parent !in old(n.sub)
        ensures n.sub <= Repr && ChildrenIn(n) && Linked(n)
      {
        assert old(Linked(n));
        LinkedKept(n);
      }
    }

    /** The proper ancestors of `parent` hold `z` on the side it fits. */
    twostate lemma AttachAncestors(z: RBNode, new parent: RBNode)
      requires old(allocated(parent)) && Attached(z, parent)
      ensures forall n :: n in Repr && n != z && n != parent && parent in old(n.sub) ==>
                n.sub <= Repr && ChildrenIn(n) && Linked(n)
    {
      forall n | n in Repr && n != z && n != parent && parent in old(n.sub)
        ensures n.sub <= Repr && ChildrenIn(n) && Linked(n)
      {
        assert old(Linked(n));
        assert old(n.left != null ==> Linked(n.left));
        assert old(n.right != null ==> Linked(n.right));
        assert old(ChildrenIn(n));
        if parent in old(Sub(n.left)) {
          assert z.value < n.value;
        } else {
          assert n.value < z.value;
        }
        LinkedGrown(n, z);
      }
    }

    /** `parent` holds its new leaf. */
    twostate lemma AttachParent(z: RBNode, new parent: RBNode)
      requires old(allocated(parent)) && Attached(z, parent)
      ensures parent.sub <= Repr && ChildrenIn(parent) && Linked(parent)
      ensures z.sub <= Repr && ChildrenIn(z) && Linked(z)
    {
      assert old(Linked(parent));
      var o := if z.value < parent.value then parent.right else parent.left;
      assert o != null ==> old(Linked(o));
      LeafAdded(parent, z);
    }

    /** A red leaf added to a red-black tree leaves at most one violation:
        `z` may have a red parent. */
    twostate lemma AttachFixing(z: RBNode, new parent: RBNode)
      requires old(allocated(parent)) && Attached(z, parent) && old(Valid()) && WellFormed()
      requires z.color == Red && z.bh == 0
      requires forall n :: n in old(Repr) ==> n.color == old(n.color) && n.bh == old(n.bh)
      ensures Fixing(z)
    {
      forall x | x in Repr
        ensures ChildrenIn(x) && RedOKBut(x, z) && BhOK(x)
      {
        if x != z {
          assert old(ChildrenIn(x) && RedOK(x) && BhOK(x));
        }
      }
    }

    /** A proper ancestor of `z` whose one child subtree gained `z` (on the
        side the key order puts it) stays linked. */
    twostate lemma LinkedGrown(n: RBNode, new z: RBNode)
      requires old(allocated(z)) && old(Linked(n)) && z !in old(n.sub) && z != n
      requires n.left == old(n.left) && n.right == old(n.right) && n.sub == old(n.sub) + {z}
      requires n.left != null ==> n.left.parent == old(n.left.parent) && n.left !in {z}
      requires n.right != null ==> n.right.parent == old(n.right.parent) && n.right !in {z}
      requires || (Sub(n.left) == old(Sub(n.left)) + {z} && Sub(n.right) == old(Sub(n.right)) && z.value < n.value)
               || (Sub(n.right) == old(Sub(n.right)) + {z} && Sub(n.left) == old(Sub(n.left)) && n.value < z.value)
      requires forall m :: m in old(n.sub) ==> m.value == old(m.value)
      ensures Linked(n)
    {
    }

    /** A node that gains the leaf `z` in an empty child slot stays linked. */
    twostate lemma LeafAdded(p: RBNode, new z: RBNode)
      requires old(allocated(z)) && old(Linked(p)) && z !in old(p.sub)
      requires z.left == null && z.right == null && z.sub == {z} && z.parent == p
      requires if z.value < p.value then old(p.left) == null && p.left == z && p.right == old(p.right)
               else p.value < z.value && old(p.right) == null && p.right == z && p.left == old(p.left)
      requires p.sub == old(p.sub) + {z}
      requires p.left != null && p.left != z ==> p.left.parent == old(p.left.parent) && p.left.sub == old(p.left.sub)
      requires p.right != null && p.right != z ==> p.right.parent == old(p.right.parent) && p.right.sub == old(p.right.sub)
      requires forall m :: m in old(p.sub) ==> m.value == old(m.value)
      ensures Linked(p) && Linked(z)
    {
    }

    /** The keys of the tree are the keys held by its nodes. */
    lemma KeysOfNodes()
      requires WellFormed()
      ensures Keys() == ValuesOf(Repr)
    {
      SerializeFacts(root);
    }

    /** A node's subtree lies strictly inside its parent's. */
    lemma BelowParent(n: RBNode)
      requires WellFormed() && n in Repr && n.parent != null
      ensures n.parent in Repr && n.sub < n.parent.sub && |Repr - n.parent.sub| < |Repr - n.sub|
    {
      ParentLink(n);
      Local(n.parent);
      assert n.parent !in n.sub;
      assert Repr - n.parent.sub < Repr - n.sub;
    }

    /** Where fixInsert works: a red parent below a black root has a
        parent of its own, and the three levels are distinct tree nodes. */
    lemma UpwardShape(n: RBNode)
      requires WellFormed() && n in Repr && n != root && root.color == Black
      requires n.parent != null && n.parent.color == Red
      ensures n.parent in Repr && (n.parent.left == n) != (n.parent.right == n)
      ensures var g := n.parent.parent;
              && g != null && g in Repr && (g.left == n.parent) != (g.right == n.parent)
              && n.Uncle() == (if g.left == n.parent then g.right else g.left)
              && (n.Uncle() != null ==> n.Uncle() in Repr && n.Uncle().parent == g)
              && n != n.parent && n != g && n.parent != g
              && n.Uncle() != g && n.Uncle() != n.parent && n.Uncle() != n
              && |Repr - g.sub| < |Repr - n.sub|
    {
      ParentLink(n);
      ParentLink(n.parent);
      BelowParent(n);
      BelowParent(n.parent);
      Local(n.parent);
      Local(n.parent.parent);
    }

    /** Three generations `m`, its parent and grandparent are distinct
        tree nodes, none of them the grandparent's parent or the root
        (except possibly the grandparent). */
    lemma ThreeLevels(m: RBNode)
      requires WellFormed() && m in Repr && m.parent != null && m.parent.parent != null
      ensures var q := m.parent;
              var g := q.parent;
              && q in Repr && g in Repr
              && (q.left == m) != (q.right == m) && (g.left == q) != (g.right == q)
              && m != g && m != g.parent && q != g.parent && m != root && q != root
    {
      var q := m.parent;
      var g := q.parent;
      BelowParent(m);
      BelowParent(q);
      Local(q);
      Local(g);
      ParentLink(m);
      ParentLink(q);
      if g.parent != null {
        BelowParent(g);
      }
    }

    /** grandparent: a node has one exactly when neither it nor its parent
        is the root, and it is then a tree node two levels up, whose subtree
        holds the node and one of whose children is the node's parent. */
    lemma GrandparentShape(n: RBNode)
      requires WellFormed() && n in Repr
      ensures n.Grandparent() != null <==> n != root && n.parent != root
      ensures var g := n.Grandparent();
              g != null ==> && g in Repr && n.parent in {g.left, g.right}
                            && n in g.sub && n != g
    {
      ParentLink(n);
      if n.parent != null {
        ParentLink(n.parent);
        if n.parent.parent != null {
          BelowParent(n);
          BelowParent(n.parent);
          Local(n);
        }
      }
    }

    /** The descent of insert: from the root, compare `v` with each node
        and go left or right, until an empty slot (its parent is returned)
        or a node holding `v` (logged as a duplicate). */
    method Locate(v: int) returns (parent: RBNode?, duplicate: bool)
      requires WellFormed() && root != null
      modifies this`steps
      ensures WellFormed() && Snapshot() == old(Snapshot())
      ensures steps == CompareTrace(Snapshot(), v, Snapshot(), old(steps))
      ensures duplicate <==> v in Keys()
      ensures !duplicate ==> parent != null && parent in Repr && v != parent.value && Fits(v, parent)
                             && (if v < parent.value then parent.left else parent.right) == null
    {
      ghost var snap := Snapshot();
      ghost var t := snap;
      ghost var start := steps;
      SnapshotIsBST();
      FitsRoot(v);
      var current := root;
      parent := null;
      while current != null
        modifies this`steps
        invariant WellFormed() && Snapshot() == snap
        invariant current == null || (current in Repr && Fits(v, current))
        invariant parent == null ==> current == root
        invariant parent != null ==> parent in Repr && v != parent.value && Fits(v, parent)
        invariant parent != null ==> current == if v < parent.value then parent.left else parent.right
        invariant t == SerializeTree(current) && IsBST(t)
        invariant v in RBSpec.Keys(snap) <==> v in RBSpec.Keys(t)
        invariant CompareTrace(t, v, snap, steps) == CompareTrace(snap, v, snap, start)
        decreases t
      {
        parent := current;
        AddStep(Compare, current);
        Unfold(current);
        if v < current.value {
          if current.left != null {
            FitsChild(v, current);
          }
          current := current.left;
          t := t.left;
        } else if v > current.value {
          if current.right != null {
            FitsChild(v, current);
          }
          current := current.right;
          t := t.right;
        } else {
          AddStep(Duplicate, current);
          return current, true;
        }
      }
      return parent, false;
    }

    /** insert: a red leaf for `v` hung where the search for `v` ends, then
        fixInsert; null, with the tree untouched, when `v` is present. */
    method Insert(v: int) returns (r: RBNode?)
      requires Valid()
      modifies this, Repr
      ensures Valid() && root != null
      ensures r == null <==> v in old(Keys())
      ensures Keys() == old(Keys()) + {v}
      ensures r != null ==> fresh(r) && r.value == v && Repr == old(Repr) + {r}
      ensures r == null ==> Repr == old(Repr) && root == old(root) && unchanged(Repr)
      ensures old(root) == null ==>
                root == r && steps == [Step(Create, Some(v), Nil), Step(ColorBlack, Some(v), Snapshot())]
      ensures old(root) != null ==>
                var s0 := old(Snapshot());
                var descent := CompareTrace(s0, v, s0, [Step(Create, Some(v), s0)]);
                if r == null then steps == descent
                else LogsOnly(descent, steps, {InsertLeft, InsertRight} + FixInsertKinds)
                     && |steps| > |descent| && steps[|descent|].kind in {InsertLeft, InsertRight}
    {
      ghost var s0 := Snapshot();
      ClearSteps();
      var newNode := new RBNode(v);
      assert Snapshot() == s0;
      AddStep(Create, newNode);
      ghost var create := steps;
      assert create == [Step(Create, Some(v), s0)];

      if root == null {
        PlantRoot(newNode);
        return newNode;
      }

      var parent, duplicate := Locate(v);
      ghost var descent := steps;
      assert descent == CompareTrace(s0, v, s0, create);
      if duplicate {
        return null;
      }
      Hang(newNode, parent);
      return newNode;
    }

    /** Insertion into an empty tree: the new node becomes the root and
        is coloured black at once. */
    method PlantRoot(z: RBNode)
      requires Valid() && root == null
      requires z.left == null && z.right == null && z.parent == null && z.sub == {z} && z.bh == 0
      modifies this`root, this`Repr, this`steps, z`color
      ensures Valid() && root == z && Repr == {z} && z.color == Black
      ensures Keys() == {z.value}
      ensures steps == old(steps) + [Step(ColorBlack, Some(z.value), Snapshot())]
    {
      root := z;
      Repr := {z};
      z.color := Black;
      assert Linked(z) && ChildrenIn(z);
      AddStep(ColorBlack, z);
      KeysOfNodes();
    }

    /** The end of insert: the red leaf `z` goes into the empty slot of
        `parent` on its side, and fixInsert restores the red-black rules. */
    method Hang(z: RBNode, parent: RBNode)
      requires Valid() && parent in Repr && z !in Repr
      requires z.left == null && z.right == null && z.sub == {z} && z.color == Red && z.bh == 0
      requires z.value != parent.value && Fits(z.value, parent)
      requires (if z.value < parent.value then parent.left else parent.right) == null
      modifies this`root, this`Repr, this`steps, z`parent, Repr`left, Repr`right, Repr`parent,
               Repr`sub, Repr`color, Repr`bh, z`left, z`right, z`sub, z`color, z`bh
      ensures Valid() && Repr == old(Repr) + {z}
      ensures Keys() == old(Keys()) + {z.value}
      ensures LogsOnly(old(steps), steps, {InsertLeft, InsertRight} + FixInsertKinds)
      ensures |steps| > |old(steps)| && steps[|old(steps)|].kind in {InsertLeft, InsertRight}
    {
      KeysOfNodes();
      ghost var keys := ValuesOf(Repr);
      ghost var s0 := steps;
      Attach(z, parent);
      ghost var s1 := steps;
      FixInsert(z);
      KeysOfNodes();
      ValuesOfPlus(old(Repr), z);
      assert LogsOnly(s0, s1, {InsertLeft, InsertRight} + FixInsertKinds);
      LogsOnlyTrans(s0, s1, steps, {InsertLeft, InsertRight} + FixInsertKinds);
    }

    /** Property 4 at `m`, except that its child `c` may be red as well. */
    ghost predicate RedOKBut(m: RBNode, c: RBNode?)
      reads m`color, m`left, m`right, Opt(m.left)`color, Opt(m.right)`color
    {
      m.color == Red ==>
        (m.left == c || ColorAt(m.left) == Black) && (m.right == c || ColorAt(m.right) == Black)
    }

    /** The invariant of fixInsert at `n`: a well-formed tree obeying the
        red-black rules, except that the red node `n` may have a red parent
        or be a red root. */
    ghost predicate Fixing(n: RBNode)
      reads this`root, this`Repr, Repr`left, Repr`right, Repr`parent, Repr`sub, Repr`value,
            Repr`color, Repr`bh
    {
      && WellFormed() && n in Repr && n.color == Red
      && (n != root ==> root.color == Black)
      && (forall m {:trigger RedOKBut(m, n)} {:trigger BhOK(m)} :: m in Repr ==>
            ChildrenIn(m) && RedOKBut(m, n) && BhOK(m))
    }

    /** `n`'s parent is red and the left child of `g`, whose right child
        (`n`'s uncle) is black. */
    ghost predicate RedUnderLeft(n: RBNode, g: RBNode)
      reads n`parent, Opt(n.parent)`color, Opt(n.parent)`parent, g`left, g`right, Opt(g.right)`color
    {
      n.parent != null && n.parent.color == Red && n.parent.parent == g
      && g.left == n.parent && ColorAt(g.right) == Black
    }

    /** The mirror image. */
    ghost predicate RedUnderRight(n: RBNode, g: RBNode)
      reads n`parent, Opt(n.parent)`color, Opt(n.parent)`parent, g`right, g`left, Opt(g.left)`color
    {
      n.parent != null && n.parent.color == Red && n.parent.parent == g
      && g.right == n.parent && ColorAt(g.left) == Black
    }

    /** fixInsert: while `node` and its parent are both red, recolour
        (case 1) or restructure (cases 2 and 3) on the side the parent hangs
        from the grandparent; then blacken the root. */
    method FixInsert(node: RBNode)
      requires Fixing(node)
      modifies this`root, this`steps, Repr`left, Repr`right, Repr`parent, Repr`sub, Repr`color, Repr`bh
      ensures Valid() && Repr == old(Repr)
      ensures LogsOnly(old(steps), steps, FixInsertKinds)
    {
      var n: RBNode := node;
      ParentLink(n);
      while n != root && n.parent.IsRed()
        invariant Fixing(n) && Repr == old(Repr)
        invariant n.parent == null <==> n == root
        invariant LogsOnly(old(steps), steps, FixInsertKinds)
        decreases (if n.parent != null && n.parent.color == Red then 1 else 0), |Repr - n.sub|
      {
        n := FixInsertStep(n, old(steps));
      }
      FixedUp(n);
      BlackenRoot();
    }

    /** One iteration of fixInsert's loop at the red node `n` whose parent
        is red: the violation either moves up to the grandparent (case 1) or
        is repaired (cases 2 and 3), after which the returned node's parent
        is black. */
    method FixInsertStep(n: RBNode, ghost s0: seq<Step>) returns (next: RBNode)
      requires Fixing(n) && n != root && n.parent != null && n.parent.color == Red
      requires LogsOnly(s0, steps, FixInsertKinds)
      modifies this`root, this`steps, Repr`left, Repr`right, Repr`parent, Repr`sub, Repr`color, Repr`bh
      ensures Fixing(next) && Repr == old(Repr)
      ensures next.parent == null <==> next == root
      ensures next.parent == null || next.parent.color == Black || |Repr - next.sub| < old(|Repr - n.sub|)
      ensures LogsOnly(s0, steps, FixInsertKinds)
    {
      UpwardShape(n);
      var uncle := n.Uncle();
      var grandparent: RBNode := n.Grandparent();
      if n.parent == grandparent.left {
        if uncle != null && uncle.IsRed() {
          InsertCase1(n, uncle, grandparent, s0);
          next := grandparent;
        } else {
          next := n;
          if n == n.parent.right {
            next := InsertCase2Left(n, grandparent, s0);
          }
          InsertCase3Left(next, grandparent, s0);
        }
      } else {
        if uncle != null && uncle.IsRed() {
          InsertCase1(n, uncle, grandparent, s0);
          next := grandparent;
        } else {
          next := n;
          if n == n.parent.left {
            next := InsertCase2Right(n, grandparent, s0);
          }
          InsertCase3Right(next, grandparent, s0);
        }
      }
      ParentLink(next);
    }

    /** Once `n` is the root or has a black parent, only the root's colour
        may be wrong. */
    lemma FixedUp(n: RBNode)
      requires Fixing(n) && (n.parent == null || n.parent.color == Black)
      ensures forall m :: m in Repr ==> ChildrenIn(m) && RedOK(m) && BhOK(m)
    {
      forall m | m in Repr
        ensures ChildrenIn(m) && RedOK(m) && BhOK(m)
      {
        assert ChildrenIn(m) && RedOKBut(m, n) && BhOK(m) && Linked(m);
      }
    }

    /** The last lines of fixInsert: a red root turns black, which breaks no
        rule since the root is nobody's child. */
    method BlackenRoot()
      requires WellFormed() && root != null
      requires forall m :: m in Repr ==> ChildrenIn(m) && RedOK(m) && BhOK(m)
      modifies this`steps, root`color
      ensures Valid() && root == old(root)
      ensures steps == if old(root.color) == Red then old(steps) + [Step(RootBlack, Some(root.value), Snapshot())]
                       else old(steps)
    {
      if root.IsRed() {
        root.color := Black;
        forall m | m in Repr
          ensures ChildrenIn(m) && RedOK(m) && BhOK(m)
        {
          assert old(Linked(m) && RedOK(m) && BhOK(m));
        }
        AddStep(RootBlack, root);
      }
    }

    /** Case 1 of fixInsert (either side): the parent and the uncle are red.
        Both turn black and the grandparent red, which moves the possible
        violation two levels up. */
    method InsertCase1(n: RBNode, uncle: RBNode, grandparent: RBNode, ghost s0: seq<Step>)
      requires Fixing(n) && n.parent != null && n.parent.color == Red
      requires grandparent == n.parent.parent && uncle == n.Uncle() && uncle.color == Red
      requires LogsOnly(s0, steps, FixInsertKinds)
      modifies this`steps, n.parent`color, uncle`color, grandparent`color, grandparent`bh
      ensures Fixing(grandparent)
      ensures n.parent.color == Black && uncle.color == Black
      ensures LogsOnly(s0, steps, FixInsertKinds)
    {
      UpwardShape(n);
      ParentLink(grandparent);
      AddStep(Case1, n);
      Recolour(n, n.parent, uncle, grandparent);
    }

    /** The recolouring of case 1: `p` and `u` black, `g` red. */
    method Recolour(n: RBNode, p: RBNode, u: RBNode, g: RBNode)
      requires Fixing(n) && n.parent == p && p.parent == g && p in Repr && g in Repr
      requires g.parent != null ==> g.parent in Repr && (g.parent.left == g || g.parent.right == g)
      requires (g.left == p && g.right == u) || (g.right == p && g.left == u)
      requires p.color == Red && u.color == Red && p != g && u != g
      modifies p`color, u`color, g`color, g`bh
      ensures Fixing(g) && p.color == Black && u.color == Black
    {
      p.color := Black;
      u.color := Black;
      g.color := Red;
      g.bh := g.bh + 1;
      assert Case1Done(n, p, u, g);
      Case1Keeps(n, p, u, g);
    }

    /** The state after case 1 recoloured the red parent `p` and uncle `u`
        of `n` black and the grandparent `g` red (with one more black node
        below it), relative to the fixInsert invariant at `n`. */
    twostate predicate Case1Done(n: RBNode, p: RBNode, u: RBNode, g: RBNode)
      reads this, Repr, p, u, g
    {
      && old(Fixing(n)) && old(n.parent) == p && old(p.parent) == g && p in old(Repr) && g in old(Repr)
      && (old(g.parent) != null ==> old(g.parent) in old(Repr) && (old(g.parent.left) == g || old(g.parent.right) == g))
      && ((old(g.left) == p && old(g.right) == u) || (old(g.right) == p && old(g.left) == u))
      && old(p.color) == Red && old(u.color) == Red
      && WellFormed() && Repr == old(Repr) && root == old(root)
      && (forall x :: x in Repr ==> x.left == old(x.left) && x.right == old(x.right) && x.parent == old(x.parent))
      && p.color == Black && u.color == Black && g.color == Red && g.bh == old(g.bh) + 1
      && (forall x :: x in Repr && x != p && x != u && x != g ==> x.color == old(x.color))
      && (forall x :: x in Repr && x != g ==> x.bh == old(x.bh))
    }

    /** After case 1 the invariant holds at the grandparent. */
    twostate lemma Case1Keeps(n: RBNode, new p: RBNode, new u: RBNode, new g: RBNode)
      requires old(allocated(p) && allocated(u) && allocated(g)) && Case1Done(n, p, u, g)
      ensures Fixing(g)
    {
      Case1Others(n, p, u, g);
      Case1Near(n, p, u, g);
      Case1Above(n, p, u, g);
      assert old(Linked(g));
      forall x | x in Repr
        ensures ChildrenIn(x) && RedOKBut(x, g) && BhOK(x)
      {
        Local(x);
      }
    }

    twostate lemma Case1Others(n: RBNode, new p: RBNode, new u: RBNode, new g: RBNode)
      requires old(allocated(p) && allocated(u) && allocated(g)) && Case1Done(n, p, u, g)
      ensures forall x :: x in Repr && x != p && x != u && x != g && x != old(g.parent) ==>
                RedOKBut(x, g) && BhOK(x)
    {
      assert old(Linked(g));
      forall x | x in Repr && x != p && x != u && x != g && x != old(g.parent)
        ensures RedOKBut(x, g) && BhOK(x)
      {
        assert old(Linked(x) && RedOKBut(x, n) && BhOK(x));
        RBKept(x, n, g);
      }
    }

    twostate lemma Case1Near(n: RBNode, new p: RBNode, new u: RBNode, new g: RBNode)
      requires old(allocated(p) && allocated(u) && allocated(g)) && Case1Done(n, p, u, g)
      ensures RedOKBut(p, g) && BhOK(p) && RedOKBut(u, g) && BhOK(u) && RedOKBut(g, g) && BhOK(g)
    {
      assert old(Linked(g) && Linked(p) && RedOKBut(g, n) && BhOK(g) && BhOK(p));
      assert old(u in Repr && Linked(u) && BhOK(u) && n in Repr && Linked(n));
    }

    twostate lemma Case1Above(n: RBNode, new p: RBNode, new u: RBNode, new g: RBNode)
      requires old(allocated(p) && allocated(u) && allocated(g)) && Case1Done(n, p, u, g)
      ensures var gp := old(g.parent); gp != null ==> RedOKBut(gp, g) && BhOK(gp)
    {
      var gp := old(g.parent);
      assert old(Linked(g) && Linked(p) && RedOKBut(g, n));
      if gp != null {
        assert old(Linked(gp) && RedOKBut(gp, n) && BhOK(gp));
      }
    }

    /** Property 4 (with exception `c`, afterwards `d`) and property 5 at
        `x` survive a change that leaves the links of `x` and the colours
        and black heights of `x` and its children alone, when `c` is not a
        child of `x`. */
    twostate lemma RBKept(x: RBNode, new c: RBNode, new d: RBNode)
      requires old(allocated(c) && allocated(d))
      requires old(RedOKBut(x, c) && BhOK(x))
      requires x.left == old(x.left) && x.right == old(x.right)
      requires x.color == old(x.color) && x.bh == old(x.bh)
      requires x.left != null ==> x.left != c && x.left.color == old(x.left.color) && x.left.bh == old(x.left.bh)
      requires x.right != null ==> x.right != c && x.right.color == old(x.right.color) && x.right.bh == old(x.right.bh)
      ensures RedOKBut(x, d) && BhOK(x)
    {
    }

    /** Case 2 of fixInsert on the left: `n` is the right child of its red
        parent, itself the left child of `grandparent`, and the uncle is
        black. A left rotation at the parent turns this into case 3 with
        the parent in `n`'s role; the parent is returned. */
    method InsertCase2Left(n: RBNode, grandparent: RBNode, ghost s0: seq<Step>) returns (m: RBNode)
      requires Fixing(n) && RedUnderLeft(n, grandparent) && n == n.parent.right
      requires LogsOnly(s0, steps, FixInsertKinds)
      modifies this`root, this`steps, Repr`left, Repr`right, Repr`parent, Repr`sub
      ensures Fixing(m) && Repr == old(Repr) && m == old(n.parent)
      ensures RedUnderLeft(m, grandparent) && m == m.parent.left
      ensures LogsOnly(s0, steps, FixInsertKinds)
    {
      ThreeLevels(n);
      AddStep(Case2, n);
      m := n.parent;
      RotateCase2Left(n, m, grandparent);
    }

    /** The rotation of case 2 on the left, at `n`'s parent `p`. */
    method RotateCase2Left(n: RBNode, p: RBNode, g: RBNode)
      requires Fixing(n) && RedUnderLeft(n, g) && p == n.parent && n == p.right
      requires p in Repr && g in Repr
      modifies this`root, this`steps, Repr`left, Repr`right, Repr`parent, Repr`sub
      ensures Fixing(p) && Repr == old(Repr)
      ensures RedUnderLeft(p, g) && p == p.parent.left
      ensures steps == old(steps) + [Step(StepKind.RotateLeft, Some(p.value), Snapshot())]
    {
      ghost var b := n.left;
      RotateLeft(p);
      Case2LeftKeeps(n, p, g, b);
    }

    /** Case 3 of fixInsert on the left: `m` is the left child of its red
        parent, itself the left child of `grandparent`, and the uncle is
        black. The parent turns black, the grandparent red, and a right
        rotation at the grandparent puts the parent on top. */
    method InsertCase3Left(m: RBNode, grandparent: RBNode, ghost s0: seq<Step>)
      requires Fixing(m) && RedUnderLeft(m, grandparent) && m == m.parent.left
      requires LogsOnly(s0, steps, FixInsertKinds)
      modifies this`root, this`steps, Repr`left, Repr`right, Repr`parent, Repr`sub, Repr`color
      ensures Fixing(m) && Repr == old(Repr)
      ensures m.parent != null && m.parent.color == Black
      ensures LogsOnly(s0, steps, FixInsertKinds)
    {
      ThreeLevels(m);
      ParentLink(grandparent);
      AddStep(Case3, m);
      RotateCase3Left(m, m.parent, grandparent);
    }

    /** The recolouring and rotation of case 3 on the left: `m`'s parent
        `q` turns black, the grandparent `g` red, and `g` rotates right. */
    method RotateCase3Left(m: RBNode, q: RBNode, g: RBNode)
      requires Fixing(m) && RedUnderLeft(m, g) && q == m.parent && m == q.left && m != q.right
      requires q in Repr && g in Repr && m != g && m != g.parent && q != g.parent
      requires g.parent != null ==> g.parent in Repr && (g.parent.left == g || g.parent.right == g)
      modifies this`root, this`steps, Repr`left, Repr`right, Repr`parent, Repr`sub, Repr`color
      ensures Fixing(m) && Repr == old(Repr)
      ensures m.parent == q && q.color == Black
      ensures steps == old(steps) + [Step(StepKind.RotateRight, Some(g.value), Snapshot())]
    {
      ghost var gp := g.parent;
      ghost var b := q.right;
      q.color := Black;
      g.color := Red;
      RotateRight(g);
      Case3LeftKeeps(m, q, g, gp, b);
    }

    /** The state after case 2 rotated left at `n`'s red parent `p` (below
        the grandparent `g`; `b` was `n`'s left child), relative to the
        fixInsert invariant at `n`. */
    twostate predicate Case2LeftDone(n: RBNode, p: RBNode, g: RBNode, b: RBNode?)
      reads this, Repr, n, p, g
    {
      && old(Fixing(n)) && p in old(Repr) && g in old(Repr)
      && old(n.parent) == p && old(p.right) == n && old(n.left) == b
      && old(p.parent) == g && old(g.left) == p && old(p.color) == Red && old(ColorAt(g.right)) == Black
      && WellFormed() && Repr == old(Repr) && root == old(root)
      && n.left == p && n.right == old(n.right)
      && p.left == old(p.left) && p.right == b
      && g.left == n && g.right == old(g.right)
      && (forall x :: x in Repr && x != n && x != p && x != g ==> x.left == old(x.left) && x.right == old(x.right))
      && (forall x :: x in Repr ==> x.color == old(x.color) && x.bh == old(x.bh))
    }

    /** After case 2 the invariant holds at the former parent. */
    twostate lemma Case2LeftKeeps(n: RBNode, new p: RBNode, new g: RBNode, new b: RBNode?)
      requires old(allocated(p) && allocated(g) && allocated(b)) && Case2LeftDone(n, p, g, b)
      ensures Fixing(p)
    {
      Case2LeftOthers(n, p, g, b);
      Case2LeftNear(n, p, g, b);
      assert old(Linked(p));
      forall x | x in Repr
        ensures ChildrenIn(x) && RedOKBut(x, p) && BhOK(x)
      {
        Local(x);
      }
    }

    twostate lemma Case2LeftOthers(n: RBNode, new p: RBNode, new g: RBNode, new b: RBNode?)
      requires old(allocated(p) && allocated(g) && allocated(b)) && Case2LeftDone(n, p, g, b)
      ensures forall x :: x in Repr && x != n && x != p && x != g ==> RedOKBut(x, p) && BhOK(x)
    {
      forall x | x in Repr && x != n && x != p && x != g
        ensures RedOKBut(x, p) && BhOK(x)
      {
        assert old(Linked(x) && RedOKBut(x, n) && BhOK(x));
        RBKept(x, n, p);
      }
    }

    twostate lemma Case2LeftNear(n: RBNode, new p: RBNode, new g: RBNode, new b: RBNode?)
      requires old(allocated(p) && allocated(g) && allocated(b)) && Case2LeftDone(n, p, g, b)
      ensures RedOKBut(n, p) && BhOK(n) && RedOKBut(p, p) && BhOK(p) && RedOKBut(g, p) && BhOK(g)
    {
      assert old(Linked(p) && Linked(n) && Linked(g));
      assert old(RedOKBut(p, n) && BhOK(p) && RedOKBut(n, n) && BhOK(n) && RedOKBut(g, n) && BhOK(g));
    }

    /** The state after case 3 recoloured `m`'s red parent `q` black and
        the grandparent `g` red and rotated right at `g` (whose parent was
        `gp`; `b` was `q`'s right child), relative to the fixInsert
        invariant at `m`. */
    twostate predicate Case3LeftDone(m: RBNode, q: RBNode, g: RBNode, gp: RBNode?, b: RBNode?)
      reads this, Repr, q, g, Opt(gp)
    {
      && old(Fixing(m)) && q in old(Repr) && g in old(Repr) && (gp != null ==> gp in old(Repr))
      && old(m.parent) == q && old(q.left) == m && old(q.right) == b
      && old(q.parent) == g && old(g.left) == q && old(g.parent) == gp
      && old(q.color) == Red && old(ColorAt(g.right)) == Black
      && (gp != null ==> old(gp.left) == g || old(gp.right) == g)
      && WellFormed() && Repr == old(Repr) && root == (if gp == null then q else old(root))
      && q.left == m && q.right == g && g.left == b && g.right == old(g.right)
      && (gp != null ==> if old(gp.right) == g then gp.right == q && gp.left == old(gp.left)
                          else gp.left == q && gp.right == old(gp.right))
      && (forall x :: x in Repr && x != q && x != g && x != gp ==> x.left == old(x.left) && x.right == old(x.right))
      && q.color == Black && g.color == Red
      && (forall x :: x in Repr && x != q && x != g ==> x.color == old(x.color))
      && (forall x :: x in Repr ==> x.bh == old(x.bh))
    }

    /** After case 3 the invariant holds at `m` again, whose parent is now black. */
    twostate lemma Case3LeftKeeps(m: RBNode, new q: RBNode, new g: RBNode, new gp: RBNode?, new b: RBNode?)
      requires old(allocated(q) && allocated(g) && allocated(gp) && allocated(b))
      requires Case3LeftDone(m, q, g, gp, b)
      ensures Fixing(m)
    {
      Case3LeftOthers(m, q, g, gp, b);
      Case3LeftNear(m, q, g, gp, b);
      Case3LeftAbove(m, q, g, gp, b);
      assert old(Linked(q) && Linked(g) && m in Repr && Linked(m));
      forall x | x in Repr
        ensures ChildrenIn(x) && RedOKBut(x, m) && BhOK(x)
      {
        Local(x);
      }
    }

    twostate lemma Case3LeftOthers(m: RBNode, new q: RBNode, new g: RBNode, new gp: RBNode?, new b: RBNode?)
      requires old(allocated(q) && allocated(g) && allocated(gp) && allocated(b))
      requires Case3LeftDone(m, q, g, gp, b)
      ensures forall x :: x in Repr && x != q && x != g && x != gp ==> RedOKBut(x, m) && BhOK(x)
    {
      forall x | x in Repr && x != q && x != g && x != gp
        ensures RedOKBut(x, m) && BhOK(x)
      {
        assert old(Linked(x) && RedOKBut(x, m) && BhOK(x));
        RBKept(x, m, m);
      }
    }

    twostate lemma Case3LeftNear(m: RBNode, new q: RBNode, new g: RBNode, new gp: RBNode?, new b: RBNode?)
      requires old(allocated(q) && allocated(g) && allocated(gp) && allocated(b))
      requires Case3LeftDone(m, q, g, gp, b)
      ensures RedOKBut(q, m) && BhOK(q) && RedOKBut(g, m) && BhOK(g)
    {
      assert old(Linked(q) && Linked(g) && RedOKBut(q, m) && BhOK(q) && RedOKBut(g, m) && BhOK(g));
      assert old(m in Repr && Linked(m));
    }

    twostate lemma Case3LeftAbove(m: RBNode, new q: RBNode, new g: RBNode, new gp: RBNode?, new b: RBNode?)
      requires old(allocated(q) && allocated(g) && allocated(gp) && allocated(b))
      requires Case3LeftDone(m, q, g, gp, b)
      ensures gp != null ==> RedOKBut(gp, m) && BhOK(gp)
    {
      if gp != null {
        assert old(Linked(q) && Linked(g) && RedOKBut(g, m) && BhOK(g));
        assert old(Linked(gp) && RedOKBut(gp, m) && BhOK(gp));
      }
    }

    /** Case 2 of fixInsert on the right: `n` is the left child of its red
        parent, itself the right child of `grandparent`, and the uncle is
        black. A right rotation at the parent turns this into case 3 with
        the parent in `n`'s role; the parent is returned. */
    method InsertCase2Right(n: RBNode, grandparent: RBNode, ghost s0: seq<Step>) returns (m: RBNode)
      requires Fixing(n) && RedUnderRight(n, grandparent) && n == n.parent.left
      requires LogsOnly(s0, steps, FixInsertKinds)
      modifies this`root, this`steps, Repr`right, Repr`left, Repr`parent, Repr`sub
      ensures Fixing(m) && Repr == old(Repr) && m == old(n.parent)
      ensures RedUnderRight(m, grandparent) && m == m.parent.right
      ensures LogsOnly(s0, steps, FixInsertKinds)
    {
      ThreeLevels(n);
      AddStep(Case2, n);
      m := n.parent;
      RotateCase2Right(n, m, grandparent);
    }

    /** The rotation of case 2 on the right, at `n`'s parent `p`. */
    method RotateCase2Right(n: RBNode, p: RBNode, g: RBNode)
      requires Fixing(n) && RedUnderRight(n, g) && p == n.parent && n == p.left
      requires p in Repr && g in Repr
      modifies this`root, this`steps, Repr`right, Repr`left, Repr`parent, Repr`sub
      ensures Fixing(p) && Repr == old(Repr)
      ensures RedUnderRight(p, g) && p == p.parent.right
      ensures steps == old(steps) + [Step(StepKind.RotateRight, Some(p.value), Snapshot())]
    {
      ghost var b := n.right;
      RotateRight(p);
      Case2RightKeeps(n, p, g, b);
    }

    /** Case 3 of fixInsert on the right: `m` is the right child of its red
        parent, itself the right child of `grandparent`, and the uncle is
        black. The parent turns black, the grandparent red, and a left
        rotation at the grandparent puts the parent on top. */
    method InsertCase3Right(m: RBNode, grandparent: RBNode, ghost s0: seq<Step>)
      requires Fixing(m) && RedUnderRight(m, grandparent) && m == m.parent.right
      requires LogsOnly(s0, steps, FixInsertKinds)
      modifies this`root, this`steps, Repr`right, Repr`left, Repr`parent, Repr`sub, Repr`color
      ensures Fixing(m) && Repr == old(Repr)
      ensures m.parent != null && m.parent.color == Black
      ensures LogsOnly(s0, steps, FixInsertKinds)
    {
      ThreeLevels(m);
      ParentLink(grandparent);
      AddStep(Case3, m);
      RotateCase3Right(m, m.parent, grandparent);
    }

    /** The recolouring and rotation of case 3 on the right: `m`'s parent
        `q` turns black, the grandparent `g` red, and `g` rotates left. */
    method RotateCase3Right(m: RBNode, q: RBNode, g: RBNode)
      requires Fixing(m) && RedUnderRight(m, g) && q == m.parent && m == q.right && m != q.left
      requires q in Repr && g in Repr && m != g && m != g.parent && q != g.parent
      requires g.parent != null ==> g.parent in Repr && (g.parent.right == g || g.parent.left == g)
      modifies this`root, this`steps, Repr`right, Repr`left, Repr`parent, Repr`sub, Repr`color
      ensures Fixing(m) && Repr == old(Repr)
      ensures m.parent == q && q.color == Black
      ensures steps == old(steps) + [Step(StepKind.RotateLeft, Some(g.value), Snapshot())]
    {
      ghost var gp := g.parent;
      ghost var b := q.left;
      q.color := Black;
      g.color := Red;
      RotateLeft(g);
      Case3RightKeeps(m, q, g, gp, b);
    }

    /** The state after case 2 rotated right at `n`'s red parent `p` (below
        the grandparent `g`; `b` was `n`'s right child), relative to the
        fixInsert invariant at `n`. */
    twostate predicate Case2RightDone(n: RBNode, p: RBNode, g: RBNode, b: RBNode?)
      reads this, Repr, n, p, g
    {
      && old(Fixing(n)) && p in old(Repr) && g in old(Repr)
      && old(n.parent) == p && old(p.left) == n && old(n.right) == b
      && old(p.parent) == g && old(g.right) == p && old(p.color) == Red && old(ColorAt(g.left)) == Black
      && WellFormed() && Repr == old(Repr) && root == old(root)
      && n.right == p && n.left == old(n.left)
      && p.right == old(p.right) && p.left == b
      && g.right == n && g.left == old(g.left)
      && (forall x :: x in Repr && x != n && x != p && x != g ==> x.right == old(x.right) && x.left == old(x.left))
      && (forall x :: x in Repr ==> x.color == old(x.color) && x.bh == old(x.bh))
    }

    /** After case 2 the invariant holds at the former parent. */
    twostate lemma Case2RightKeeps(n: RBNode, new p: RBNode, new g: RBNode, new b: RBNode?)
      requires old(allocated(p) && allocated(g) && allocated(b)) && Case2RightDone(n, p, g, b)
      ensures Fixing(p)
    {
      Case2RightOthers(n, p, g, b);
      Case2RightNear(n, p, g, b);
      assert old(Linked(p));
      forall x | x in Repr
        ensures ChildrenIn(x) && RedOKBut(x, p) && BhOK(x)
      {
        Local(x);
      }
    }

    twostate lemma Case2RightOthers(n: RBNode, new p: RBNode, new g: RBNode, new b: RBNode?)
      requires old(allocated(p) && allocated(g) && allocated(b)) && Case2RightDone(n, p, g, b)
      ensures forall x :: x in Repr && x != n && x != p && x != g ==> RedOKBut(x, p) && BhOK(x)
    {
      forall x | x in Repr && x != n && x != p && x != g
        ensures RedOKBut(x, p) && BhOK(x)
      {
        assert old(Linked(x) && RedOKBut(x, n) && BhOK(x));
        RBKept(x, n, p);
      }
    }

    twostate lemma Case2RightNear(n: RBNode, new p: RBNode, new g: RBNode, new b: RBNode?)
      requires old(allocated(p) && allocated(g) && allocated(b)) && Case2RightDone(n, p, g, b)
      ensures RedOKBut(n, p) && BhOK(n) && RedOKBut(p, p) && BhOK(p) && RedOKBut(g, p) && BhOK(g)
    {
      assert old(Linked(p) && Linked(n) && Linked(g));
      assert old(RedOKBut(p, n) && BhOK(p) && RedOKBut(n, n) && BhOK(n) && RedOKBut(g, n) && BhOK(g));
    }

    /** The state after case 3 recoloured `m`'s red parent `q` black and
        the grandparent `g` red and rotated left at `g` (whose parent was
        `gp`; `b` was `q`'s left child), relative to the fixInsert
        invariant at `m`. */
    twostate predicate Case3RightDone(m: RBNode, q: RBNode, g: RBNode, gp: RBNode?, b: RBNode?)
      reads this, Repr, q, g, Opt(gp)
    {
      && old(Fixing(m)) && q in old(Repr) && g in old(Repr) && (gp != null ==> gp in old(Repr))
      && old(m.parent) == q && old(q.right) == m && old(q.left) == b
      && old(q.parent) == g && old(g.right) == q && old(g.parent) == gp
      && old(q.color) == Red && old(ColorAt(g.left)) == Black
      && (gp != null ==> old(gp.right) == g || old(gp.left) == g)
      && WellFormed() && Repr == old(Repr) && root == (if gp == null then q else old(root))
      && q.right == m && q.left == g && g.right == b && g.left == old(g.left)
      && (gp != null ==> if old(gp.left) == g then gp.left == q && gp.right == old(gp.right)
                          else gp.right == q && gp.left == old(gp.left))
      && (forall x :: x in Repr && x != q && x != g && x != gp ==> x.right == old(x.right) && x.left == old(x.left))
      && q.color == Black && g.color == Red
      && (forall x :: x in Repr && x != q && x != g ==> x.color == old(x.color))
      && (forall x :: x in Repr ==> x.bh == old(x.bh))
    }

    /** After case 3 the invariant holds at `m` again, whose parent is now black. */
    twostate lemma Case3RightKeeps(m: RBNode, new q: RBNode, new g: RBNode, new gp: RBNode?, new b: RBNode?)
      requires old(allocated(q) && allocated(g) && allocated(gp) && allocated(b))
      requires Case3RightDone(m, q, g, gp, b)
      ensures Fixing(m)
    {
      Case3RightOthers(m, q, g, gp, b);
      Case3RightNear(m, q, g, gp, b);
      Case3RightAbove(m, q, g, gp, b);
      assert old(Linked(q) && Linked(g) && m in Repr && Linked(m));
      forall x | x in Repr
        ensures ChildrenIn(x) && RedOKBut(x, m) && BhOK(x)
      {
        Local(x);
      }
    }

    twostate lemma Case3RightOthers(m: RBNode, new q: RBNode, new g: RBNode, new gp: RBNode?, new b: RBNode?)
      requires old(allocated(q) && allocated(g) && allocated(gp) && allocated(b))
      requires Case3RightDone(m, q, g, gp, b)
      ensures forall x :: x in Repr && x != q && x != g && x != gp ==> RedOKBut(x, m) && BhOK(x)
    {
      forall x | x in Repr && x != q && x != g && x != gp
        ensures RedOKBut(x, m) && BhOK(x)
      {
        assert old(Linked(x) && RedOKBut(x, m) && BhOK(x));
        RBKept(x, m, m);
      }
    }

    twostate lemma Case3RightNear(m: RBNode, new q: RBNode, new g: RBNode, new gp: RBNode?, new b: RBNode?)
      requires old(allocated(q) && allocated(g) && allocated(gp) && allocated(b))
      requires Case3RightDone(m, q, g, gp, b)
      ensures RedOKBut(q, m) && BhOK(q) && RedOKBut(g, m) && BhOK(g)
    {
      assert old(Linked(q) && Linked(g) && RedOKBut(q, m) && BhOK(q) && RedOKBut(g, m) && BhOK(g));
      assert old(m in Repr && Linked(m));
    }

    twostate lemma Case3RightAbove(m: RBNode, new q: RBNode, new g: RBNode, new gp: RBNode?, new b: RBNode?)
      requires old(allocated(q) && allocated(g) && allocated(gp) && allocated(b))
      requires Case3RightDone(m, q, g, gp, b)
      ensures gp != null ==> RedOKBut(gp, m) && BhOK(gp)
    {
      if gp != null {
        assert old(Linked(q) && Linked(g) && RedOKBut(g, m) && BhOK(g));
        assert old(Linked(gp) && RedOKBut(gp, m) && BhOK(gp));
      }
    }

    // -------------------------------------------------------------------
    // Deletion

    /** transplant: `v` takes `u`'s place under `u`'s parent (or as the
        root); `u`'s own links are left alone. */
    method Transplant(u: RBNode, v: RBNode?)
      modifies this`root, Opt(u.parent)`left, Opt(u.parent)`right, Opt(v)`parent
      ensures var p := old(u.parent);
              && (p == null ==> root == v)
              && (p != null ==>
                    && root == old(root)
                    && if old(p.left) == u then p.left == v && p.right == old(p.right)
                       else p.right == v && p.left == old(p.left))
              && (v != null ==> v.parent == p)
    {
      if u.parent == null {
        root := v;
      } else if u == u.parent.left {
        u.parent.left := v;
      } else {
        u.parent.right := v;
      }
      if v != null {
        v.parent := u.parent;
      }
    }

    /** The invariant of fixDelete: a well-formed tree obeying the
        red-black rules except that the subtree at `x` (possibly empty),
        the child of `p` (or the whole tree when `p` is null), has one black
        node too few on every path, and `x` may be red below a red parent or
        be a red root. */
    ghost predicate Deficient(x: RBNode?, p: RBNode?)
      reads this`root, this`Repr, Repr`left, Repr`right, Repr`parent, Repr`sub, Repr`value,
            Repr`color, Repr`bh
    {
      && WellFormed()
      && (x != null ==> x in Repr && x.parent == p)
      && (p == null ==> x == root)
      && (p != null ==> p in Repr && (p.left == x || p.right == x) && (Local(p); ShortOn(p, x)))
      && (root != null && root != x ==> root.color == Black)
      && (forall m {:trigger RedOKBut(m, x)} :: m in Repr && m != x ==> (Local(m); RedOKBut(m, x)))
      && (forall m {:trigger BhOK(m)} :: m in Repr && m != p ==> (Local(m); BhOK(m)))
    }

    /** The child slot of `p` holding `x` adds one black node fewer than
        `p.bh`, the other slot exactly `p.bh`. */
    ghost predicate ShortOn(p: RBNode, x: RBNode?)
      reads p`left, p`right, p`bh, Opt(x)`color, Opt(x)`bh, Opt(p.left)`color, Opt(p.left)`bh,
            Opt(p.right)`color, Opt(p.right)`bh
    {
      Contrib(x) + 1 == p.bh && Contrib(if p.left == x then p.right else p.left) == p.bh
    }

    /** deleteNode when `z` has at most one child: that child (or null), `x`,
        takes `z`'s place, and `x`'s new parent is returned as `xParent`.
        Removing a black `z` leaves the fixDelete invariant; removing a red
        one leaves a red-black tree. */
    method Splice(z: RBNode) returns (x: RBNode?, xParent: RBNode?)
      requires Valid() && z in Repr && (z.left == null || z.right == null)
      modifies this`root, this`Repr, Repr`left, Repr`right, Repr`parent, Repr`sub
      ensures x == old(if z.left == null then z.right else z.left) && xParent == old(z.parent)
      ensures Repr == old(Repr) - {z}
      ensures old(z.color) == Black ==> Deficient(x, xParent)
      ensures old(z.color) == Red ==> Valid()
    {
      ParentLink(z);
      Local(z);
      if z.left == null {
        x := z.right;
        xParent := z.parent;
        Transplant(z, z.right);
      } else {
        x := z.left;
        xParent := z.parent;
        Transplant(z, z.left);
      }
      forall n | n in Repr {
        n.sub := n.sub - {z};
      }
      Repr := Repr - {z};
      SpliceKeeps(z, x, xParent);
      SpliceBalance(z, x, xParent);
    }

    /** The state after `z`, with only child `c` (or none), was cut out
        below `p`. */
    twostate predicate Spliced(z: RBNode, c: RBNode?, p: RBNode?)
      reads this, Repr, Opt(c), Opt(p)
    {
      && old(Valid()) && z in old(Repr) && old(z.parent) == p
      && ((c == old(z.left) && old(z.right) == null) || (c == old(z.right) && old(z.left) == null))
      && (p == null ==> old(root) == z && root == c)
      && (p != null ==>
            && p in old(Repr) && root == old(root)
            && if old(p.left) == z then p.left == c && p.right == old(p.right)
               else old(p.right) == z && p.right == c && p.left == old(p.left))
      && (c != null ==> c.parent == p)
      && Repr == old(Repr) - {z}
      && (forall n :: n in Repr && n != p ==> n.left == old(n.left) && n.right == old(n.right))
      && (forall n :: n in Repr && n != c ==> n.parent == old(n.parent))
      && (forall n :: n in Repr ==> n.sub == old(n.sub) - {z})
      && (forall n :: n in Repr ==> n.value == old(n.value) && n.color == old(n.color) && n.bh == old(n.bh))
    }

    twostate lemma SpliceKeeps(z: RBNode, new c: RBNode?, new p: RBNode?)
      requires old(allocated(c) && allocated(p)) && Spliced(z, c, p)
      ensures WellFormed()
    {
      SpliceOthers(z, c, p);
      SpliceAncestors(z, c, p);
      SpliceParent(z, c, p);
      SpliceRoot(z, c, p);
    }

    /** Nodes outside the path above `z` keep their links. */
    twostate lemma SpliceOthers(z: RBNode, new c: RBNode?, new p: RBNode?)
      requires old(allocated(c) && allocated(p)) && Spliced(z, c, p)
      ensures forall n :: n in Repr && z !in old(n.sub) ==> n.sub <= Repr && ChildrenIn(n) && Linked(n)
    {
      assert old(Linked(z));
      forall n | n in Repr && z !in old(n.sub)
        ensures n.sub <= Repr && ChildrenIn(n) && Linked(n)
      {
        assert old(Linked(n) && ChildrenIn(n));
        assert n.left != null ==> old(n.left.parent) == n && n.left != c && n.left != z;
        assert n.right != null ==> old(n.right.parent) == n && n.right != c && n.right != z;
        LinkedKept(n);
      }
    }

    /** The proper ancestors of `z` above `p` lose `z` from one side. */
    twostate lemma SpliceAncestors(z: RBNode, new c: RBNode?, new p: RBNode?)
      requires old(allocated(c) && allocated(p)) && Spliced(z, c, p)
      ensures forall n :: n in Repr && n != p && z in old(n.sub) ==> n.sub <= Repr && ChildrenIn(n) && Linked(n)
    {
      assert old(Linked(z));
      forall n | n in Repr && n != p && z in old(n.sub)
        ensures n.sub <= Repr && ChildrenIn(n) && Linked(n)
      {
        assert old(Linked(n) && ChildrenIn(n));
        assert n.left != null ==> old(n.left.parent) == n && n.left != c && n.left != z;
        assert n.right != null ==> old(n.right.parent) == n && n.right != c && n.right != z;
        LinkedShrunk(n, z);
      }
    }

    /** `p` holds `c` where it held `z`. */
    twostate lemma SpliceParent(z: RBNode, new c: RBNode?, new p: RBNode?)
      requires old(allocated(c) && allocated(p)) && Spliced(z, c, p)
      ensures p != null ==> p.sub <= Repr && ChildrenIn(p) && Linked(p)
    {
      if p != null {
        assert old(Linked(z) && Linked(p) && ChildrenIn(p));
        assert c != null ==> old(c in Repr && Linked(c));
        var o := if old(p.left) == z then old(p.right) else old(p.left);
        assert o != null ==> old(o.parent) == p && o != c && o != z;
        SlotSpliced(p, z, c);
      }
    }

    twostate lemma SpliceRoot(z: RBNode, new c: RBNode?, new p: RBNode?)
      requires old(allocated(c) && allocated(p)) && Spliced(z, c, p)
      ensures root == null <==> Repr == {}
      ensures root != null ==> root in Repr && root.parent == null && root.sub == Repr
    {
      assert old(Linked(z));
      if p == null {
        assert c != null ==> old(c in Repr && Linked(c));
      } else {
        assert old(root) != z && old(root) != c;
      }
    }

    /** A node none of whose links changed, and whose subtree (and its
        children's) lost the node `d` from below, stays linked. */
    twostate lemma LinkedShrunk(n: RBNode, new d: RBNode)
      requires old(allocated(d)) && old(Linked(n)) && d != n
      requires n.left == old(n.left) && n.right == old(n.right) && n.sub == old(n.sub) - {d}
      requires n.left != null ==> n.left != d && n.left.parent == old(n.left.parent) && n.left.sub == old(n.left.sub) - {d}
      requires n.right != null ==> n.right != d && n.right.parent == old(n.right.parent) && n.right.sub == old(n.right.sub) - {d}
      requires forall m :: m in n.sub ==> m.value == old(m.value)
      ensures Linked(n)
    {
    }

    /** A node whose child `z` (with the single child `c`, or none) was
        replaced by `c` stays linked. */
    twostate lemma SlotSpliced(p: RBNode, new z: RBNode, new c: RBNode?)
      requires old(allocated(z) && allocated(c)) && old(Linked(p) && Linked(z)) && old(z.parent) == p
      requires (old(p.left) == z && p.left == c && p.right == old(p.right))
               || (old(p.right) == z && p.right == c && p.left == old(p.left))
      requires (c == old(z.left) && old(z.right) == null) || (c == old(z.right) && old(z.left) == null)
      requires p.sub == old(p.sub) - {z}
      requires c != null ==> c.parent == p && c.sub == old(c.sub) && c != z
      requires var o := if p.left == c then p.right else p.left;
               o != null ==> o != z && o.parent == old(o.parent) && o.sub == old(o.sub)
      requires forall m :: m in p.sub ==> m.value == old(m.value)
      ensures Linked(p)
    {
    }

    /** What cutting out `z` does to the colours: a black `z` leaves its
        child's side one black node short, a red one changes no count. */
    twostate lemma SpliceBalance(z: RBNode, new c: RBNode?, new p: RBNode?)
      requires old(allocated(c) && allocated(p)) && Spliced(z, c, p) && WellFormed()
      ensures old(z.color) == Black ==> Deficient(c, p)
      ensures old(z.color) == Red ==> Valid()
    {
      SpliceUnaffected(z, c, p);
      assert old(Linked(z) && RedOK(z) && BhOK(z));
      assert c != null ==> old(c in Repr) && c != z;
      if p != null {
        assert old(Linked(p) && RedOK(p) && BhOK(p));
        if old(z.color) == Red {
          assert old(root) != z;
          assert RedOK(p) && BhOK(p);
        } else {
          assert ShortOn(p, c) && RedOKBut(p, c);
        }
      }
    }

    /** Away from `p` the red-black rules hold as before. */
    twostate lemma SpliceUnaffected(z: RBNode, new c: RBNode?, new p: RBNode?)
      requires old(allocated(c) && allocated(p)) && Spliced(z, c, p) && WellFormed()
      ensures forall m :: m in Repr ==> ChildrenIn(m)
      ensures forall m :: m in Repr && m != p ==> RedOK(m) && BhOK(m)
    {
      forall m | m in Repr
        ensures ChildrenIn(m)
      {
        Local(m);
      }
      forall m | m in Repr && m != p
        ensures RedOK(m) && BhOK(m)
      {
        assert old(Linked(m) && RedOK(m) && BhOK(m));
        assert m.left != null ==> m.left != z;
        assert m.right != null ==> m.right != z;
      }
    }

    /** deleteNode when `z` has two children: the leftmost node `y` of its
        right subtree is unlinked (its right child `x` taking its place) and
        relinked in `z`'s place with `z`'s colour. Returns `x`, the parent
        `x` now has, and `y`'s colour before the move; removing a black `y`
        leaves the fixDelete invariant, a red one a red-black tree. */
    method ReplaceBySuccessor(z: RBNode) returns (x: RBNode?, xParent: RBNode?, yOriginalColor: Color)
      requires Valid() && z in Repr && z.left != null && z.right != null
      modifies this`root, this`Repr, Repr`left, Repr`right, Repr`parent, Repr`sub, Repr`color, Repr`bh
      ensures Repr == old(Repr) - {z}
      ensures yOriginalColor == old(Successor(z).color)
      ensures yOriginalColor == Black ==> Deficient(x, xParent)
      ensures yOriginalColor == Red ==> Valid()
      ensures var y := old(Successor(z));
              && x == old(y.right)
              && xParent == (if y == old(z.right) then y else old(y.parent))
              && y.parent == old(z.parent) && y.left == old(z.left) && y.color == old(z.color)
              && y.right == (if y == old(z.right) then old(y.right) else old(z.right))
      ensures var p := old(z.parent); var y := old(Successor(z));
              && (p == null ==> root == y)
              && (p != null ==> root == old(root) && if old(p.left) == z then p.left == y else p.right == y)
    {
      Local(z);
      var y := Minimum(z.right);
      SuccessorShape(z, y);
      SuccessorChild(z, y);
      ParentShape(z);
      BelowAncestors(z, y);
      ghost var q := y.parent;
      ghost var p := z.parent;
      yOriginalColor := y.color;
      x := y.right;
      xParent := if y.parent == z then y else y.parent;
      MoveSuccessor(z, y, q, p);
      ReplaceKeeps(z, y, x, q, p);
      ReplaceBalance(z, y, x, q, p);
    }

    /** The relinking of deleteNode's two-children case: `y` is cut out
        below `q` (unless `q` is `z`) and takes `z`'s place, children and
        colour. */
    method MoveSuccessor(z: RBNode, y: RBNode, ghost q: RBNode, ghost p: RBNode?)
      requires Valid() && z in Repr && z.left != null && z.right != null
      requires z.left in Repr && z.right in Repr && z.left != z.right
      requires z.left.parent == z && z.right.parent == z
      requires y in Repr && y in z.right.sub && y.left == null && y != z && y !in z.left.sub
      requires forall k :: k in z.right.sub && k != y ==> y.value < k.value
      requires y.parent == q && q in Repr && (q == z <==> y == z.right)
      requires q != z ==> q in z.right.sub && q.left == y && q != y && z !in q.sub
      requires z !in y.sub
      requires forall n :: n in Repr && z in n.sub ==> y in n.sub
      requires z.parent == p && (p == null <==> z == root)
      requires p != null ==> p in Repr && p !in z.sub && (p.left == z) != (p.right == z)
      requires p != y && p != q && p != z && z.right != z
      requires var x := y.right;
               x != null ==> && x in Repr && x.parent == y && x in y.sub && y !in x.sub && z !in x.sub
                             && x != z && x != p && x != z.left && x != z.right && x != q
      modifies this`root, this`Repr, Repr`left, Repr`right, Repr`parent, Repr`sub, Repr`color, Repr`bh
      ensures Replaced(z, y, old(y.right), q, p)
    {
      if y.parent != z {
        CutSuccessor(y, z.right);
      }
      ghost var zsub, zbh := z.sub, z.bh;
      PutSuccessor(z, y);
      Resubtree(z, y, zsub, zbh);
    }

    /** deleteNode, successor deeper than `z`'s right child: `y`'s right child takes `y`'s place
        below its parent, and `y` adopts `zr` (`z`'s right child). */
    method CutSuccessor(y: RBNode, zr: RBNode)
      requires y.parent != null && y.parent.left == y && y.parent != y && y.right != zr && y != zr
      modifies this`root, y.parent`left, y.parent`right, Opt(y.right)`parent, y`right, zr`parent
      ensures var q := old(y.parent);
              && q.left == old(y.right) && q.right == old(q.right) && root == old(root)
              && y.right == zr && zr.parent == y
              && (old(y.right) != null ==> old(y.right).parent == q)
    {
      Transplant(y, y.right);
      y.right := zr;
      y.right.parent := y;
    }

    /** deleteNode, two children: `y` takes `z`'s place below `z`'s
        parent (or as the root), adopts `z`'s left child and takes its
        colour. */
    method PutSuccessor(z: RBNode, y: RBNode)
      requires z.left != null && z.left != y && y != z && z.parent != y && z.parent != z
      modifies this`root, Opt(z.parent)`left, Opt(z.parent)`right, y`parent, y`left, z.left`parent, y`color
      ensures var p := old(z.parent);
              && (p == null ==> root == y)
              && (p != null ==>
                    && root == old(root)
                    && if old(p.left) == z then p.left == y && p.right == old(p.right)
                       else p.right == y && p.left == old(p.left))
              && y.parent == p && y.left == old(z.left) && old(z.left).parent == y
              && y.color == old(z.color)
    {
      Transplant(z, y);
      y.left := z.left;
      y.left.parent := y;
      y.color := z.color;
    }

    /** The ghost bookkeeping of the move: `z` leaves every subtree set
        that held it, `y` leaves those of the nodes it was cut from, and
        `y` takes over `z`'s subtree and black height. */
    ghost method Resubtree(z: RBNode, y: RBNode, zsub: set<RBNode>, zbh: nat)
      requires y in Repr
      modifies this`Repr, Repr`sub, y`bh
      ensures Repr == old(Repr) - {z}
      ensures forall n :: n in old(Repr) && n != y ==> n.sub == if z in old(n.sub) then old(n.sub) - {z} else old(n.sub) - {y}
      ensures y.sub == zsub - {z} && y.bh == zbh
    {
      forall n | n in Repr && n != y {
        n.sub := if z in n.sub then n.sub - {z} else n.sub - {y};
      }
      y.sub := zsub - {z};
      y.bh := zbh;
      Repr := Repr - {z};
    }

    /** The state after `z`'s successor `y` (right child `x`, parent `q`)
        was moved into `z`'s place below `p`. */
    twostate predicate Replaced(z: RBNode, y: RBNode, x: RBNode?, q: RBNode, p: RBNode?)
      reads this, Repr, z
    {
      && old(Valid()) && z in old(Repr) && old(z.left) != null && old(z.right) != null
      && y in old(z.right.sub) && y != z && old(y.left) == null && old(y.right) == x && old(y.parent) == q
      && (forall k :: k in old(z.right.sub) && k != y ==> old(y.value) < old(k.value))
      && (q == z <==> y == old(z.right))
      && (q != z ==> q in old(z.right.sub) && old(q.left) == y && z !in old(q.sub))
      && z !in old(y.sub) && (x != null ==> y !in old(x.sub) && z !in old(x.sub))
      && old(z.parent) == p
      && Repr == old(Repr) - {z}
      && old(z.left) in Repr && old(z.right) in Repr && y in Repr
      && (q != z ==> q in Repr) && (p != null ==> p in Repr && p !in old(z.sub)) && (x != null ==> x in Repr)
      && (forall n :: n in old(Repr) && z in old(n.sub) ==> y in old(n.sub))
      && (p == null ==> old(root) == z && root == y)
      && (p != null ==>
            && p in old(Repr) && root == old(root)
            && if old(p.left) == z then p.left == y && p.right == old(p.right)
               else old(p.right) == z && p.right == y && p.left == old(p.left))
      && y.parent == p && y.left == old(z.left) && old(z.left).parent == y
      && (q == z ==> y.right == x && (x != null ==> x.parent == y))
      && (q != z ==>
            && y.right == old(z.right) && old(z.right).parent == y
            && q.left == x && q.right == old(q.right) && (x != null ==> x.parent == q))
      && (forall n :: n in Repr && n != p && n != q && n != y ==> n.left == old(n.left) && n.right == old(n.right))
      && (forall n :: n in Repr && n != x && n != y && n != old(z.left) && n != old(z.right) ==> n.parent == old(n.parent))
      && (forall n :: n in Repr && n != y ==> n.sub == if z in old(n.sub) then old(n.sub) - {z} else old(n.sub) - {y})
      && y.sub == old(z.sub) - {z}
      && (forall n :: n in Repr ==> n.value == old(n.value)) && z.value == old(z.value)
      && (forall n :: n in Repr && n != y ==> n.color == old(n.color) && n.bh == old(n.bh))
      && y.color == old(z.color) && y.bh == old(z.bh)
    }

    twostate lemma ReplaceKeeps(z: RBNode, new y: RBNode, new x: RBNode?, new q: RBNode, new p: RBNode?)
      requires old(allocated(y) && allocated(x) && allocated(q) && allocated(p))
      requires Replaced(z, y, x, q, p)
      ensures WellFormed()
    {
      ReplaceOthers(z, y, x, q, p);
      ReplaceBetween(z, y, x, q, p);
      ReplaceAncestors(z, y, x, q, p);
      ReplaceParent(z, y, x, q, p);
      ReplaceCut(z, y, x, q, p);
      ReplaceMoved(z, y, x, q, p);
      ReplaceRoot(z, y, x, q, p);
      forall n | n in Repr
        ensures n.sub <= Repr && ChildrenIn(n) && Linked(n)
      {
        if z in old(n.sub) {
          assert n == p || n != p;
        } else if y in old(n.sub) {
          assert n == q || n == y || (n != q && n != y);
        }
      }
    }

    /** Nodes with neither `z` nor `y` below them keep their links. */
    twostate lemma ReplaceOthers(z: RBNode, new y: RBNode, new x: RBNode?, new q: RBNode, new p: RBNode?)
      requires old(allocated(y) && allocated(x) && allocated(q) && allocated(p))
      requires Replaced(z, y, x, q, p)
      ensures forall n :: n in Repr && z !in old(n.sub) && y !in old(n.sub) ==> n.sub <= Repr && ChildrenIn(n) && Linked(n)
    {
      var zl, zr := old(z.left), old(z.right);
      assert old(Linked(z) && Linked(y));
      assert p != null ==> old(Linked(p)) && z in old(p.sub);
      assert q != z ==> old(Linked(q)) && y in old(q.sub);
      forall n | n in Repr && z !in old(n.sub) && y !in old(n.sub)
        ensures n.sub <= Repr && ChildrenIn(n) && Linked(n)
      {
        assert old(Linked(n) && ChildrenIn(n));
        assert n.left != null ==> old(n.left.parent) == n && n.left !in {x, y, z, zl, zr};
        assert n.right != null ==> old(n.right.parent) == n && n.right !in {x, y, z, zl, zr};
        LinkedKept(n);
      }
    }

    /** The nodes on the path from `z`'s right child down to `q` lose `y`
        from below. */
    twostate lemma ReplaceBetween(z: RBNode, new y: RBNode, new x: RBNode?, new q: RBNode, new p: RBNode?)
      requires old(allocated(y) && allocated(x) && allocated(q) && allocated(p))
      requires Replaced(z, y, x, q, p)
      ensures forall n :: n in Repr && n != q && n != y && z !in old(n.sub) && y in old(n.sub) ==>
                n.sub <= Repr && ChildrenIn(n) && Linked(n)
    {
      var zl, zr := old(z.left), old(z.right);
      assert old(Linked(z) && Linked(y));
      assert p != null ==> old(Linked(p)) && z in old(p.sub);
      forall n | n in Repr && n != q && n != y && z !in old(n.sub) && y in old(n.sub)
        ensures n.sub <= Repr && ChildrenIn(n) && Linked(n)
      {
        assert old(Linked(n) && ChildrenIn(n));
        assert n.left != null ==> old(n.left.parent) == n && n.left !in {x, y, z, zl, zr};
        assert n.right != null ==> old(n.right.parent) == n && n.right !in {x, y, z, zl, zr};
        LinkedShrunk(n, y);
      }
    }

    /** The proper ancestors of `z` above `p` lose `z` from below. */
    twostate lemma ReplaceAncestors(z: RBNode, new y: RBNode, new x: RBNode?, new q: RBNode, new p: RBNode?)
      requires old(allocated(y) && allocated(x) && allocated(q) && allocated(p))
      requires Replaced(z, y, x, q, p)
      ensures forall n :: n in Repr && n != p && z in old(n.sub) ==> n.sub <= Repr && ChildrenIn(n) && Linked(n)
    {
      var zl, zr := old(z.left), old(z.right);
      assert old(Linked(z) && Linked(y));
      assert x != null ==> old(Linked(x));
      forall n | n in Repr && n != p && z in old(n.sub)
        ensures n.sub <= Repr && ChildrenIn(n) && Linked(n)
      {
        assert old(Linked(n) && ChildrenIn(n));
        assert n.left != null ==> old(n.left.parent) == n && n.left !in {x, y, z, zl, zr};
        assert n.right != null ==> old(n.right.parent) == n && n.right !in {x, y, z, zl, zr};
        LinkedShrunk(n, z);
      }
    }

    /** `p` holds `y` where it held `z`. */
    twostate lemma ReplaceParent(z: RBNode, new y: RBNode, new x: RBNode?, new q: RBNode, new p: RBNode?)
      requires old(allocated(y) && allocated(x) && allocated(q) && allocated(p))
      requires Replaced(z, y, x, q, p)
      ensures p != null ==> p.sub <= Repr && ChildrenIn(p) && Linked(p)
    {
      if p != null {
        assert old(Linked(z) && Linked(y) && Linked(p) && ChildrenIn(p));
        var o := if old(p.left) == z then old(p.right) else old(p.left);
        assert o != null ==> old(o.parent) == p && o !in {x, y, z, old(z.left), old(z.right)};
        SlotReplaced(p, z, y);
      }
    }

    /** `q` holds `x` where it held `y`. */
    twostate lemma ReplaceCut(z: RBNode, new y: RBNode, new x: RBNode?, new q: RBNode, new p: RBNode?)
      requires old(allocated(y) && allocated(x) && allocated(q) && allocated(p))
      requires Replaced(z, y, x, q, p)
      ensures q != z ==> q.sub <= Repr && ChildrenIn(q) && Linked(q)
    {
      if q != z {
        assert old(Linked(z) && Linked(y) && Linked(q) && ChildrenIn(q));
        assert x != null ==> old(Linked(x));
        var o := old(q.right);
        assert o != null ==> old(o.parent) == q && o !in {x, y, z, old(z.left), old(z.right)};
        SlotSpliced(q, y, x);
      }
    }

    /** `y` in `z`'s place is linked to `z`'s left child and to `z`'s right
        child (or, when that was `y` itself, to its own right child). */
    twostate lemma ReplaceMoved(z: RBNode, new y: RBNode, new x: RBNode?, new q: RBNode, new p: RBNode?)
      requires old(allocated(y) && allocated(x) && allocated(q) && allocated(p))
      requires Replaced(z, y, x, q, p)
      ensures y.sub <= Repr && ChildrenIn(y) && Linked(y)
    {
      if q == z {
        MovedUp(z, y, x, q, p);
      } else {
        MovedAcross(z, y, x, q, p);
      }
    }

    twostate lemma MovedUp(z: RBNode, new y: RBNode, new x: RBNode?, new q: RBNode, new p: RBNode?)
      requires old(allocated(y) && allocated(x) && allocated(q) && allocated(p))
      requires Replaced(z, y, x, q, p) && q == z
      ensures y.sub <= Repr && ChildrenIn(y) && Linked(y)
    {
      var zl := old(z.left);
      assert old(Linked(z) && Linked(y) && Linked(zl));
      assert old(z.sub) <= old(Repr);
      assert x != null ==> old(Linked(x));
      assert y.sub == {y} + Sub(zl) + Sub(x);
    }

    twostate lemma MovedAcross(z: RBNode, new y: RBNode, new x: RBNode?, new q: RBNode, new p: RBNode?)
      requires old(allocated(y) && allocated(x) && allocated(q) && allocated(p))
      requires Replaced(z, y, x, q, p) && q != z
      ensures y.sub <= Repr && ChildrenIn(y) && Linked(y)
    {
      var zl, zr := old(z.left), old(z.right);
      assert old(Linked(z) && Linked(zl) && Linked(zr));
      assert old(z.sub) <= old(Repr);
      assert zr.sub == old(zr.sub) - {y};
      assert y.sub == {y} + Sub(zl) + Sub(zr);
    }

    twostate lemma ReplaceRoot(z: RBNode, new y: RBNode, new x: RBNode?, new q: RBNode, new p: RBNode?)
      requires old(allocated(y) && allocated(x) && allocated(q) && allocated(p))
      requires Replaced(z, y, x, q, p)
      ensures root == null <==> Repr == {}
      ensures root != null ==> root in Repr && root.parent == null && root.sub == Repr
    {
      assert old(Linked(z) && Linked(y));
      if p != null {
        assert old(root) !in {x, y, z, old(z.left), old(z.right)};
      }
    }

    /** What moving the successor does to the colours: removing a black
        `y` from below `q` (or from below itself, when it was `z`'s right
        child) leaves `x`'s side one black node short, a red one changes no
        count. */
    twostate lemma ReplaceBalance(z: RBNode, new y: RBNode, new x: RBNode?, new q: RBNode, new p: RBNode?)
      requires old(allocated(y) && allocated(x) && allocated(q) && allocated(p))
      requires Replaced(z, y, x, q, p) && WellFormed()
      ensures old(y.color) == Black ==> Deficient(x, if q == z then y else q)
      ensures old(y.color) == Red ==> Valid()
    {
      ReplaceUnaffected(z, y, x, q, p);
      if q == z {
        BalanceUp(z, y, x, q, p);
      } else {
        BalanceAcross(z, y, x, q, p);
      }
    }

    twostate lemma BalanceUp(z: RBNode, new y: RBNode, new x: RBNode?, new q: RBNode, new p: RBNode?)
      requires old(allocated(y) && allocated(x) && allocated(q) && allocated(p))
      requires Replaced(z, y, x, q, p) && WellFormed() && q == z
      requires forall m :: m in Repr ==> ChildrenIn(m)
      requires forall m :: m in Repr && m != y && m != q ==> RedOK(m) && BhOK(m) && RedOKBut(m, x)
      ensures old(y.color) == Black ==> Deficient(x, y)
      ensures old(y.color) == Red ==> Valid()
    {
      assert old(Linked(z) && RedOK(z) && BhOK(z) && Linked(y) && RedOK(y) && BhOK(y));
      assert old(root.color) == Black;
      if old(y.color) == Black {
        assert ShortOn(y, x) && RedOKBut(y, x);
      } else {
        assert x == null;
        assert RedOK(y) && BhOK(y);
      }
    }

    twostate lemma BalanceAcross(z: RBNode, new y: RBNode, new x: RBNode?, new q: RBNode, new p: RBNode?)
      requires old(allocated(y) && allocated(x) && allocated(q) && allocated(p))
      requires Replaced(z, y, x, q, p) && WellFormed() && q != z
      requires forall m :: m in Repr ==> ChildrenIn(m)
      requires forall m :: m in Repr && m != y && m != q ==> RedOK(m) && BhOK(m) && RedOKBut(m, x)
      ensures old(y.color) == Black ==> Deficient(x, q)
      ensures old(y.color) == Red ==> Valid()
    {
      assert old(Linked(z) && RedOK(z) && BhOK(z) && Linked(y) && RedOK(y) && BhOK(y));
      assert old(root.color) == Black;
      assert old(Linked(q) && RedOK(q) && BhOK(q));
      assert RedOKBut(y, x) && BhOK(y);
      if old(y.color) == Black {
        assert ShortOn(q, x) && RedOKBut(q, x);
      } else {
        assert x == null;
        assert RedOK(y) && RedOK(q) && BhOK(q);
      }
    }

    /** Away from `y` and `q` the red-black rules hold as before; `p` sees
        `y` with `z`'s colour and black height where `z` was. */
    twostate lemma ReplaceUnaffected(z: RBNode, new y: RBNode, new x: RBNode?, new q: RBNode, new p: RBNode?)
      requires old(allocated(y) && allocated(x) && allocated(q) && allocated(p))
      requires Replaced(z, y, x, q, p) && WellFormed()
      ensures forall m :: m in Repr ==> ChildrenIn(m)
      ensures forall m :: m in Repr && m != y && m != q ==> RedOK(m) && BhOK(m) && RedOKBut(m, x)
    {
      forall m | m in Repr
        ensures ChildrenIn(m)
      {
        Local(m);
      }
      forall m | m in Repr && m != y && m != q
        ensures RedOK(m) && BhOK(m) && RedOKBut(m, x)
      {
        assert old(Linked(m) && RedOK(m) && BhOK(m));
        assert m.left != null ==> m.left == y || (m.left == old(m.left) && m.left in Repr);
        assert m.right != null ==> m.right == y || (m.right == old(m.right) && m.right in Repr);
      }
    }

    /** A node whose child `z` was replaced by `y`, which took over `z`'s
        subtree but `z`, stays linked. */
    twostate lemma SlotReplaced(p: RBNode, new z: RBNode, new y: RBNode)
      requires old(allocated(z) && allocated(y)) && old(Linked(p) && Linked(z)) && old(z.parent) == p
      requires (old(p.left) == z && p.left == y && p.right == old(p.right))
               || (old(p.right) == z && p.right == y && p.left == old(p.left))
      requires y in old(z.sub) && y != z && y.parent == p && y.sub == old(z.sub) - {z}
      requires p.sub == old(p.sub) - {z}
      requires var o := if old(p.left) == z then p.right else p.left;
               o != null ==> o != z && o.parent == old(o.parent) && o.sub == old(o.sub)
      requires forall m :: m in old(p.sub) ==> m.value == old(m.value)
      ensures Linked(p)
    {
    }

    /** Where the successor `y` of a node `z` with two children sits: in
        `z`'s right subtree with no left child, the left child of its parent
        unless it is `z`'s right child itself. */
    lemma SuccessorShape(z: RBNode, y: RBNode)
      requires WellFormed() && z in Repr && z.left != null && z.right != null
      requires y == Successor(z)
      ensures z.left in Repr && z.right in Repr && z.left != z.right
      ensures z.left.parent == z && z.right.parent == z
      ensures y in Repr && y in z.right.sub && y.left == null && y != z && y !in z.left.sub
      ensures forall k :: k in z.right.sub && k != y ==> y.value < k.value
      ensures y.parent != null && y.parent in Repr && (y.parent == z <==> y == z.right)
      ensures y.parent != z ==> y.parent in z.right.sub && y.parent.left == y && y.parent != y
                                && z !in y.parent.sub
      ensures z !in y.sub
    {
      Local(z);
      var zl, zr := z.left, z.right;
      Local(zl);
      Local(zr);
      SubClosed(zr, y);
      Local(y);
      if y != zr {
        FindParent(zr, y);
        var q := y.parent;
        SubClosed(zr, q);
        Local(q);
      }
    }

    /** The right child `x` of the successor `y` is none of the nodes the
        move rewires. */
    lemma SuccessorChild(z: RBNode, y: RBNode)
      requires WellFormed() && z in Repr && z.left != null && z.right != null
      requires y in Repr && y in z.right.sub && y != z && y.parent != null
      requires z.left.parent == z && z.right.parent == z
      requires y.parent != z ==> y.parent in z.right.sub
      ensures var x := y.right;
              x != null ==> && x in Repr && x.parent == y && x in y.sub && y !in x.sub && z !in x.sub
                            && x != z && x != z.parent && x != z.left && x != z.right && x != y.parent
    {
      var x := y.right;
      if x != null {
        Local(z);
        Local(y);
        Local(x);
        BelowParent(x);
        BelowParent(y);
        SubClosed(z.right, y);
        if y.parent != z {
          SubClosed(z.right, y.parent);
        }
        if z.parent != null {
          BelowParent(z);
        }
      }
    }

    /** Whoever has `z` below it has all of `z`'s subtree below it. */
    lemma BelowAncestors(z: RBNode, y: RBNode)
      requires WellFormed() && z in Repr && y in z.sub
      ensures forall n :: n in Repr && z in n.sub ==> y in n.sub
    {
      forall n | n in Repr && z in n.sub
        ensures y in n.sub
      {
        SubClosed(n, z);
      }
    }

    /** The parent of a node is outside its subtree and holds it in
        exactly one slot. */
    lemma ParentShape(z: RBNode)
      requires WellFormed() && z in Repr
      ensures z.parent == null <==> z == root
      ensures z.parent != null ==> z.parent in Repr && z.parent !in z.sub
                                   && (z.parent.left == z) != (z.parent.right == z)
    {
      ParentLink(z);
      if z.parent != null {
        BelowParent(z);
        Local(z.parent);
      }
    }

    /** Around the spot fixDelete works on: `x`'s sibling `w` exists (its
        side adds at least one black node) and is a tree node distinct from
        its neighbours. */
    lemma SiblingShape(x: RBNode?, p: RBNode)
      requires Deficient(x, p)
      ensures p in Repr && (p.left == x) != (p.right == x) && p.bh >= 1
      ensures x != null ==> x in Repr && x.parent == p && x != p
      ensures var w := if p.left == x then p.right else p.left;
              && w != null && w in Repr && w.parent == p && w != p && w != x && Contrib(w) == p.bh
              && (w.left != null ==> w.left in Repr && w.left.parent == w && w.left != p && w.left != x && w.left != w)
              && (w.right != null ==> w.right in Repr && w.right.parent == w && w.right != p && w.right != x && w.right != w)
              && (w.left != null && w.right != null ==> w.left != w.right)
    {
      Local(p);
      var w := if p.left == x then p.right else p.left;
      Local(w);
      if w.left != null {
        Local(w.left);
      }
      if w.right != null {
        Local(w.right);
      }
    }

    /** `p`'s own parent, if any, is none of the nodes below `p` that
        fixDelete rewires. */
    lemma AboveShape(x: RBNode?, p: RBNode)
      requires Deficient(x, p)
      ensures p.parent == null <==> p == root
      ensures var w := if p.left == x then p.right else p.left;
              p.parent != null ==>
                && p.parent in Repr && (p.parent.left == p) != (p.parent.right == p)
                && p.parent != p && p.parent != x && p.parent != w
                && (w != null ==> p.parent != w.left && p.parent != w.right)
    {
      ParentLink(p);
      if p.parent != null {
        var w := if p.left == x then p.right else p.left;
        BelowParent(p);
        Local(p.parent);
        Local(p);
        if w != null {
          Local(w);
        }
      }
    }

    /** The recolouring of case 2 of fixDelete (either side): the black
        sibling `w` of `x`, whose children are black, turns red, so both
        sides of `p` lack a black node and the shortage moves up to `p`. */
    method Lighten(x: RBNode?, p: RBNode, w: RBNode)
      requires Deficient(x, p) && ColorAt(x) == Black
      requires w == (if p.left == x then p.right else p.left) && w in Repr && w != p && p.bh >= 1
      requires w.color == Black && ColorAt(w.left) == Black && ColorAt(w.right) == Black
      modifies w`color, p`bh
      ensures Deficient(p, p.parent) && w.color == Red
    {
      w.color := Red;
      p.bh := p.bh - 1;
      LightenKeeps(x, p, w);
    }

    /** The state after case 2 turned `x`'s black sibling `w` red (and `p`
        lost one black node below it). */
    twostate predicate Lightened(x: RBNode?, p: RBNode, w: RBNode)
      reads this, Repr, p, w
    {
      && old(Deficient(x, p)) && old(ColorAt(x)) == Black
      && w == old(if p.left == x then p.right else p.left) && w in old(Repr) && w != p
      && old(w.color) == Black && old(ColorAt(w.left)) == Black && old(ColorAt(w.right)) == Black
      && WellFormed() && Repr == old(Repr) && root == old(root)
      && (forall n :: n in Repr ==> n.left == old(n.left) && n.right == old(n.right) && n.parent == old(n.parent))
      && w.color == Red && (forall n :: n in Repr && n != w ==> n.color == old(n.color))
      && p.bh == old(p.bh) - 1 && (forall n :: n in Repr && n != p ==> n.bh == old(n.bh))
    }

    twostate lemma LightenKeeps(x: RBNode?, new p: RBNode, new w: RBNode)
      requires old(allocated(p) && allocated(w)) && Lightened(x, p, w)
      ensures Deficient(p, p.parent)
    {
      LightenOthers(x, p, w);
      LightenNear(x, p, w);
      LightenAbove(x, p, w);
      ParentLink(p);
      assert old(Linked(p));
      assert root != w && root != x;
      forall m | m in Repr && m != p
        ensures RedOKBut(m, p)
      {
        if m == p.parent || m == w {
        }
      }
    }

    twostate lemma LightenOthers(x: RBNode?, new p: RBNode, new w: RBNode)
      requires old(allocated(p) && allocated(w)) && Lightened(x, p, w)
      ensures forall m :: m in Repr && m != p && m != w && m != p.parent ==> RedOKBut(m, p) && BhOK(m)
    {
      assert old(Linked(p));
      forall m | m in Repr && m != p && m != w && m != p.parent
        ensures RedOKBut(m, p) && BhOK(m)
      {
        assert old(Linked(m) && BhOK(m));
        assert m != x ==> old(RedOKBut(m, x));
        assert m.left != null ==> old(m.left.parent) == m;
        assert m.right != null ==> old(m.right.parent) == m;
      }
    }

    twostate lemma LightenNear(x: RBNode?, new p: RBNode, new w: RBNode)
      requires old(allocated(p) && allocated(w)) && Lightened(x, p, w)
      ensures RedOKBut(w, p) && BhOK(w) && BhOK(p)
    {
      assert old(Linked(p) && Linked(w) && BhOK(w) && ShortOn(p, x));
    }

    twostate lemma LightenAbove(x: RBNode?, new p: RBNode, new w: RBNode)
      requires old(allocated(p) && allocated(w)) && Lightened(x, p, w)
      ensures var g := p.parent;
              && (g == null ==> p == root)
              && (g != null ==> g in Repr && (g.left == p || g.right == p) && ShortOn(g, p) && RedOKBut(g, p))
    {
      ParentLink(p);
      var g := p.parent;
      if g != null {
        assert old(Linked(g) && Linked(p) && BhOK(g) && RedOKBut(g, x));
        assert old(ShortOn(p, x));
      }
    }

    /** The recolouring and rotation of case 1 of fixDelete on the left:
        `x`'s red sibling `w` turns black, `p` red, and `p` rotates left, so
        that `x`'s new sibling (`w`'s former left child) is black. */
    method RotateDelete1Left(x: RBNode?, p: RBNode, w: RBNode)
      requires Deficient(x, p) && p.left == x && ColorAt(x) == Black && p.right == w && w.color == Red
      requires w in Repr && w != p && p.parent != w
      requires x != null ==> x != p && x != w.left && x != p.parent
      requires p.parent != null ==> p.parent in Repr && (p.parent.left == p || p.parent.right == p)
      modifies this`root, this`steps, Repr`left, Repr`right, Repr`parent, Repr`sub, w`color, p`color
      ensures Deficient(x, p) && p.left == x && Repr == old(Repr)
      ensures p.right == old(w.left) && p.right != null && p.right.color == Black
      ensures x != null ==> x.sub == old(x.sub)
      ensures steps == old(steps) + [Step(StepKind.RotateLeft, Some(p.value), Snapshot())]
    {
      ghost var gp := p.parent;
      ghost var b := w.left;
      w.color := Black;
      p.color := Red;
      RotateLeft(p);
      Delete1LeftKeeps(x, p, w, b, gp);
    }

    /** The state after case 1 on the left recoloured `x`'s red sibling `w`
        black and `p` red and rotated left at `p` (whose parent was `gp`;
        `b` was `w`'s left child). */
    twostate predicate Delete1LeftDone(x: RBNode?, p: RBNode, w: RBNode, b: RBNode?, gp: RBNode?)
      reads this, Repr, p, w, Opt(gp)
    {
      && old(Deficient(x, p)) && old(p.left) == x && old(ColorAt(x)) == Black
      && w in old(Repr) && old(p.right) == w && old(w.left) == b && old(w.color) == Red
      && old(p.parent) == gp && (gp != null ==> gp in old(Repr) && (old(gp.left) == p || old(gp.right) == p))
      && WellFormed() && Repr == old(Repr) && root == (if gp == null then w else old(root))
      && w.left == p && w.right == old(w.right) && p.left == x && p.right == b
      && (gp != null ==> if old(gp.left) == p then gp.left == w && gp.right == old(gp.right)
                          else gp.right == w && gp.left == old(gp.left))
      && (forall n :: n in Repr && n != p && n != w && n != gp ==> n.left == old(n.left) && n.right == old(n.right))
      && (x != null ==> x.parent == p)
      && p.color == Red && w.color == Black
      && (forall n :: n in Repr && n != p && n != w ==> n.color == old(n.color))
      && (forall n :: n in Repr ==> n.bh == old(n.bh))
    }

    twostate lemma Delete1LeftKeeps(x: RBNode?, new p: RBNode, new w: RBNode, new b: RBNode?, new gp: RBNode?)
      requires old(allocated(p) && allocated(w) && allocated(b) && allocated(gp))
      requires Delete1LeftDone(x, p, w, b, gp)
      ensures Deficient(x, p) && p.right != null && p.right.color == Black
    {
      Delete1LeftOthers(x, p, w, b, gp);
      Delete1LeftNear(x, p, w, b, gp);
      Delete1LeftAbove(x, p, w, b, gp);
      assert old(Linked(p) && Linked(w));
      assert x != null ==> old(Linked(x)) && root != x;
    }

    twostate lemma Delete1LeftOthers(x: RBNode?, new p: RBNode, new w: RBNode, new b: RBNode?, new gp: RBNode?)
      requires old(allocated(p) && allocated(w) && allocated(b) && allocated(gp))
      requires Delete1LeftDone(x, p, w, b, gp)
      ensures forall m :: m in Repr && m != p && m != w && m != gp ==> RedOKBut(m, x) && BhOK(m)
    {
      assert old(Linked(p) && Linked(w));
      forall m | m in Repr && m != p && m != w && m != gp
        ensures RedOKBut(m, x) && BhOK(m)
      {
        assert old(Linked(m) && BhOK(m));
        assert m != x ==> old(RedOKBut(m, x));
        assert m.left != null ==> old(m.left.parent) == m;
        assert m.right != null ==> old(m.right.parent) == m;
      }
    }

    twostate lemma Delete1LeftNear(x: RBNode?, new p: RBNode, new w: RBNode, new b: RBNode?, new gp: RBNode?)
      requires old(allocated(p) && allocated(w) && allocated(b) && allocated(gp))
      requires Delete1LeftDone(x, p, w, b, gp)
      ensures RedOKBut(p, x) && ShortOn(p, x) && RedOKBut(w, x) && BhOK(w) && p.right != null && p.right.color == Black
    {
      assert old(Linked(p) && Linked(w) && RedOKBut(p, x) && ShortOn(p, x) && RedOKBut(w, x) && BhOK(w));
    }

    twostate lemma Delete1LeftAbove(x: RBNode?, new p: RBNode, new w: RBNode, new b: RBNode?, new gp: RBNode?)
      requires old(allocated(p) && allocated(w) && allocated(b) && allocated(gp))
      requires Delete1LeftDone(x, p, w, b, gp)
      ensures gp != null ==> RedOKBut(gp, x) && BhOK(gp)
      ensures root != null && root != x ==> root.color == Black
    {
      assert old(Linked(p) && Linked(w) && RedOKBut(p, x));
      if gp != null {
        assert old(Linked(gp) && RedOKBut(gp, x) && BhOK(gp));
      }
    }

    /** The recolouring and rotation of case 3 of fixDelete on the left:
        `x`'s black sibling `w` has a red left child `v` and a black right
        one; `v` turns black, `w` red, and `w` rotates right, so that `x`'s
        new sibling `v` is black with a red right child. */
    method RotateDelete3Left(x: RBNode?, p: RBNode, w: RBNode)
      requires Deficient(x, p) && p.left == x && ColorAt(x) == Black && p.right == w && w.color == Black
      requires w.left != null && w.left.color == Red && ColorAt(w.right) == Black
      requires w in Repr && w != p && w.left != p && w.parent == p
      requires x != null ==> x != w && x != w.left && x != w.left.right
      modifies this`root, this`steps, Repr`left, Repr`right, Repr`parent, Repr`sub, w`color, w.left`color
      ensures Deficient(x, p) && p.left == x && Repr == old(Repr)
      ensures p.right == old(w.left) && p.right.color == Black
      ensures p.right.right != null && p.right.right.color == Red
      ensures steps == old(steps) + [Step(StepKind.RotateRight, Some(w.value), Snapshot())]
    {
      ghost var v := w.left;
      ghost var c := v.right;
      if w.left != null {
        w.left.color := Black;
      }
      w.color := Red;
      RotateRight(w);
      Delete3LeftKeeps(x, p, w, v, c);
    }

    /** The state after case 3 on the left recoloured `w`'s red left child
        `v` black and `w` red and rotated right at `w` (`c` was `v`'s right
        child). */
    twostate predicate Delete3LeftDone(x: RBNode?, p: RBNode, w: RBNode, v: RBNode, c: RBNode?)
      reads this, Repr, p, w, v
    {
      && old(Deficient(x, p)) && old(p.left) == x && old(ColorAt(x)) == Black
      && w in old(Repr) && old(p.right) == w && old(w.left) == v && old(v.right) == c
      && old(w.color) == Black && old(v.color) == Red && old(ColorAt(w.right)) == Black
      && WellFormed() && Repr == old(Repr) && root == old(root)
      && p.right == v && p.left == x && v.right == w && v.left == old(v.left) && w.left == c && w.right == old(w.right)
      && (forall n :: n in Repr && n != p && n != w && n != v ==> n.left == old(n.left) && n.right == old(n.right))
      && (x != null ==> x.parent == p)
      && v.color == Black && w.color == Red
      && (forall n :: n in Repr && n != v && n != w ==> n.color == old(n.color))
      && (forall n :: n in Repr ==> n.bh == old(n.bh))
    }

    twostate lemma Delete3LeftKeeps(x: RBNode?, new p: RBNode, new w: RBNode, new v: RBNode, new c: RBNode?)
      requires old(allocated(p) && allocated(w) && allocated(v) && allocated(c))
      requires Delete3LeftDone(x, p, w, v, c)
      ensures Deficient(x, p) && p.right == v && v.color == Black && v.right != null && v.right.color == Red
    {
      Delete3LeftOthers(x, p, w, v, c);
      Delete3LeftNear(x, p, w, v, c);
      assert old(Linked(p) && Linked(w));
      assert root != v && root != w;
      assert x != null ==> root != x;
    }

    twostate lemma Delete3LeftOthers(x: RBNode?, new p: RBNode, new w: RBNode, new v: RBNode, new c: RBNode?)
      requires old(allocated(p) && allocated(w) && allocated(v) && allocated(c))
      requires Delete3LeftDone(x, p, w, v, c)
      ensures forall m :: m in Repr && m != p && m != w && m != v ==> RedOKBut(m, x) && BhOK(m)
    {
      assert old(Linked(p) && Linked(w));
      forall m | m in Repr && m != p && m != w && m != v
        ensures RedOKBut(m, x) && BhOK(m)
      {
        assert old(Linked(m) && BhOK(m));
        assert m != x ==> old(RedOKBut(m, x));
        assert m.left != null ==> old(m.left.parent) == m;
        assert m.right != null ==> old(m.right.parent) == m;
      }
    }

    twostate lemma Delete3LeftNear(x: RBNode?, new p: RBNode, new w: RBNode, new v: RBNode, new c: RBNode?)
      requires old(allocated(p) && allocated(w) && allocated(v) && allocated(c))
      requires Delete3LeftDone(x, p, w, v, c)
      ensures RedOKBut(p, x) && ShortOn(p, x) && RedOKBut(v, x) && BhOK(v) && RedOKBut(w, x) && BhOK(w)
    {
      assert old(Linked(p) && Linked(w) && Linked(v));
      assert old(ShortOn(p, x) && RedOKBut(w, x) && BhOK(w) && RedOKBut(v, x) && BhOK(v));
    }

    /** The recolouring and rotation of case 4 of fixDelete on the left:
        `x`'s black sibling `w` has a red right child `r`; `w` takes `p`'s
        colour, `r` and `p` turn black, and `p` rotates left. The black node
        `p` now adds to `x`'s side, and the tree is a red-black tree again. */
    method RotateDelete4Left(x: RBNode?, p: RBNode, w: RBNode)
      requires Deficient(x, p) && p.left == x && ColorAt(x) == Black && p.right == w && w.color == Black
      requires w.right != null && w.right.color == Red
      requires w in Repr && w != p && w.parent == p && p.parent != w && w.right != p && p.bh >= 1
      requires x != null ==> x != w.left && x != p.parent && x != w.right
      requires p.parent != null ==> p.parent in Repr && (p.parent.left == p || p.parent.right == p) && p.parent != w.right
      modifies this`root, this`steps, Repr`left, Repr`right, Repr`parent, Repr`sub
      modifies w`color, w.right`color, p`color, p`bh, w`bh
      ensures Valid() && Repr == old(Repr)
      ensures steps == old(steps) + [Step(StepKind.RotateLeft, Some(p.value), Snapshot())]
    {
      ghost var gp := p.parent;
      ghost var b := w.left;
      ghost var r := w.right;
      ParentLink(p);
      Local(w);
      RecolorDelete4(p, w, w.right);
      RotateLeft(p);
      Delete4LeftKeeps(x, p, w, b, r, gp);
    }

    /** The recolouring of case 4 of fixDelete: the sibling `w` takes the
        colour of `p`, its outer child `r` and `p` turn black, and the black
        heights follow the rotation that comes next. */
    method RecolorDelete4(p: RBNode, w: RBNode, r: RBNode)
      requires p != w && r != p && r != w && p.bh >= 1
      modifies w`color, r`color, p`color, p`bh, w`bh
      ensures w.color == old(p.color) && r.color == Black && p.color == Black
      ensures p.bh == old(p.bh) - 1 && w.bh == old(w.bh) + 1
    {
      w.color := p.color;
      r.color := Black;
      p.color := Black;
      p.bh := p.bh - 1;
      w.bh := w.bh + 1;
    }

    /** The state after case 4 on the left gave `w` the colour of `p`,
        blackened `p` and `w`'s red right child `r`, and rotated left at `p`
        (whose parent was `gp`; `b` was `w`'s left child); `p` now has one
        black node fewer below it and `w` one more. */
    twostate predicate Delete4LeftDone(x: RBNode?, p: RBNode, w: RBNode, b: RBNode?, r: RBNode, gp: RBNode?)
      reads this, Repr, p, w, r, Opt(gp)
    {
      && old(Deficient(x, p)) && old(p.left) == x && old(ColorAt(x)) == Black
      && w in old(Repr) && old(p.right) == w && old(w.left) == b && old(w.right) == r
      && old(w.color) == Black && old(r.color) == Red
      && old(p.parent) == gp && (gp != null ==> gp in old(Repr) && (old(gp.left) == p || old(gp.right) == p))
      && (gp == null ==> old(root) == p)
      && WellFormed() && Repr == old(Repr) && root == (if gp == null then w else old(root))
      && w.left == p && w.right == r && p.left == x && p.right == b
      && (gp != null ==> if old(gp.left) == p then gp.left == w && gp.right == old(gp.right)
                          else gp.right == w && gp.left == old(gp.left))
      && (forall n :: n in Repr && n != p && n != w && n != gp ==> n.left == old(n.left) && n.right == old(n.right))
      && w.color == old(p.color) && r.color == Black && p.color == Black
      && (forall n :: n in Repr && n != p && n != w && n != r ==> n.color == old(n.color))
      && p.bh == old(p.bh) - 1 && w.bh == old(w.bh) + 1
      && (forall n :: n in Repr && n != p && n != w ==> n.bh == old(n.bh))
    }

    twostate lemma Delete4LeftKeeps(x: RBNode?, new p: RBNode, new w: RBNode, new b: RBNode?, new r: RBNode, new gp: RBNode?)
      requires old(allocated(p) && allocated(w) && allocated(b) && allocated(r) && allocated(gp))
      requires Delete4LeftDone(x, p, w, b, r, gp)
      ensures Valid()
    {
      Delete4LeftOthers(x, p, w, b, r, gp);
      Delete4LeftNear(x, p, w, b, r, gp);
      Delete4LeftAbove(x, p, w, b, r, gp);
      forall m | m in Repr
        ensures ChildrenIn(m)
      {
        Local(m);
      }
    }

    twostate lemma Delete4LeftOthers(x: RBNode?, new p: RBNode, new w: RBNode, new b: RBNode?, new r: RBNode, new gp: RBNode?)
      requires old(allocated(p) && allocated(w) && allocated(b) && allocated(r) && allocated(gp))
      requires Delete4LeftDone(x, p, w, b, r, gp)
      ensures forall m :: m in Repr && m != p && m != w && m != r && m != gp ==> RedOK(m) && BhOK(m)
    {
      assert old(Linked(p) && Linked(w));
      forall m | m in Repr && m != p && m != w && m != r && m != gp
        ensures RedOK(m) && BhOK(m)
      {
        assert old(Linked(m) && BhOK(m));
        assert m != x ==> old(RedOKBut(m, x));
        assert m.left != null ==> old(m.left.parent) == m && m.left != x;
        assert m.right != null ==> old(m.right.parent) == m && m.right != x;
      }
    }

    twostate lemma Delete4LeftNear(x: RBNode?, new p: RBNode, new w: RBNode, new b: RBNode?, new r: RBNode, new gp: RBNode?)
      requires old(allocated(p) && allocated(w) && allocated(b) && allocated(r) && allocated(gp))
      requires Delete4LeftDone(x, p, w, b, r, gp)
      ensures RedOK(p) && BhOK(p) && RedOK(w) && BhOK(w) && RedOK(r) && BhOK(r)
    {
      assert old(Linked(p) && Linked(w) && Linked(r));
      assert old(ShortOn(p, x) && BhOK(w) && BhOK(r) && RedOKBut(w, x));
    }

    twostate lemma Delete4LeftAbove(x: RBNode?, new p: RBNode, new w: RBNode, new b: RBNode?, new r: RBNode, new gp: RBNode?)
      requires old(allocated(p) && allocated(w) && allocated(b) && allocated(r) && allocated(gp))
      requires Delete4LeftDone(x, p, w, b, r, gp)
      ensures gp != null ==> RedOK(gp) && BhOK(gp)
      ensures root != null ==> root.color == Black
    {
      assert old(Linked(p) && Linked(w) && RedOKBut(p, x));
      if gp != null {
        assert old(Linked(gp) && RedOKBut(gp, x) && BhOK(gp));
      } else {
        assert old(root) == p && p != x;
      }
      assert root != r;
    }

    /** The recolouring and rotation of case 1 of fixDelete on the right:
        `x`'s red sibling `w` turns black, `p` red, and `p` rotates right, so
        that `x`'s new sibling (`w`'s former right child) is black. */
    method RotateDelete1Right(x: RBNode?, p: RBNode, w: RBNode)
      requires Deficient(x, p) && p.right == x && ColorAt(x) == Black && p.left == w && w.color == Red
      requires w in Repr && w != p && p.parent != w
      requires x != null ==> x != p && x != w.right && x != p.parent
      requires p.parent != null ==> p.parent in Repr && (p.parent.right == p || p.parent.left == p)
      modifies this`root, this`steps, Repr`right, Repr`left, Repr`parent, Repr`sub, w`color, p`color
      ensures Deficient(x, p) && p.right == x && Repr == old(Repr)
      ensures p.left == old(w.right) && p.left != null && p.left.color == Black
      ensures x != null ==> x.sub == old(x.sub)
      ensures steps == old(steps) + [Step(StepKind.RotateRight, Some(p.value), Snapshot())]
    {
      ghost var gp := p.parent;
      ghost var b := w.right;
      w.color := Black;
      p.color := Red;
      RotateRight(p);
      Delete1RightKeeps(x, p, w, b, gp);
    }

    /** The state after case 1 on the right recoloured `x`'s red sibling `w`
        black and `p` red and rotated right at `p` (whose parent was `gp`;
        `b` was `w`'s right child). */
    twostate predicate Delete1RightDone(x: RBNode?, p: RBNode, w: RBNode, b: RBNode?, gp: RBNode?)
      reads this, Repr, p, w, Opt(gp)
    {
      && old(Deficient(x, p)) && old(p.right) == x && old(ColorAt(x)) == Black
      && w in old(Repr) && old(p.left) == w && old(w.right) == b && old(w.color) == Red
      && old(p.parent) == gp && (gp != null ==> gp in old(Repr) && (old(gp.right) == p || old(gp.left) == p))
      && WellFormed() && Repr == old(Repr) && root == (if gp == null then w else old(root))
      && w.right == p && w.left == old(w.left) && p.right == x && p.left == b
      && (gp != null ==> if old(gp.right) == p then gp.right == w && gp.left == old(gp.left)
                          else gp.left == w && gp.right == old(gp.right))
      && (forall n :: n in Repr && n != p && n != w && n != gp ==> n.right == old(n.right) && n.left == old(n.left))
      && (x != null ==> x.parent == p)
      && p.color == Red && w.color == Black
      && (forall n :: n in Repr && n != p && n != w ==> n.color == old(n.color))
      && (forall n :: n in Repr ==> n.bh == old(n.bh))
    }

    twostate lemma Delete1RightKeeps(x: RBNode?, new p: RBNode, new w: RBNode, new b: RBNode?, new gp: RBNode?)
      requires old(allocated(p) && allocated(w) && allocated(b) && allocated(gp))
      requires Delete1RightDone(x, p, w, b, gp)
      ensures Deficient(x, p) && p.left != null && p.left.color == Black
    {
      Delete1RightOthers(x, p, w, b, gp);
      Delete1RightNear(x, p, w, b, gp);
      Delete1RightAbove(x, p, w, b, gp);
      assert old(Linked(p) && Linked(w));
      assert x != null ==> old(Linked(x)) && root != x;
    }

    twostate lemma Delete1RightOthers(x: RBNode?, new p: RBNode, new w: RBNode, new b: RBNode?, new gp: RBNode?)
      requires old(allocated(p) && allocated(w) && allocated(b) && allocated(gp))
      requires Delete1RightDone(x, p, w, b, gp)
      ensures forall m :: m in Repr && m != p && m != w && m != gp ==> RedOKBut(m, x) && BhOK(m)
    {
      assert old(Linked(p) && Linked(w));
      forall m | m in Repr && m != p && m != w && m != gp
        ensures RedOKBut(m, x) && BhOK(m)
      {
        assert old(Linked(m) && BhOK(m));
        assert m != x ==> old(RedOKBut(m, x));
        assert m.right != null ==> old(m.right.parent) == m;
        assert m.left != null ==> old(m.left.parent) == m;
      }
    }

    twostate lemma Delete1RightNear(x: RBNode?, new p: RBNode, new w: RBNode, new b: RBNode?, new gp: RBNode?)
      requires old(allocated(p) && allocated(w) && allocated(b) && allocated(gp))
      requires Delete1RightDone(x, p, w, b, gp)
      ensures RedOKBut(p, x) && ShortOn(p, x) && RedOKBut(w, x) && BhOK(w) && p.left != null && p.left.color == Black
    {
      assert old(Linked(p) && Linked(w) && RedOKBut(p, x) && ShortOn(p, x) && RedOKBut(w, x) && BhOK(w));
    }

    twostate lemma Delete1RightAbove(x: RBNode?, new p: RBNode, new w: RBNode, new b: RBNode?, new gp: RBNode?)
      requires old(allocated(p) && allocated(w) && allocated(b) && allocated(gp))
      requires Delete1RightDone(x, p, w, b, gp)
      ensures gp != null ==> RedOKBut(gp, x) && BhOK(gp)
      ensures root != null && root != x ==> root.color == Black
    {
      assert old(Linked(p) && Linked(w) && RedOKBut(p, x));
      if gp != null {
        assert old(Linked(gp) && RedOKBut(gp, x) && BhOK(gp));
      }
    }

    /** The recolouring and rotation of case 3 of fixDelete on the right:
        `x`'s black sibling `w` has a red right child `v` and a black left
        one; `v` turns black, `w` red, and `w` rotates left, so that `x`'s
        new sibling `v` is black with a red left child. */
    method RotateDelete3Right(x: RBNode?, p: RBNode, w: RBNode)
      requires Deficient(x, p) && p.right == x && ColorAt(x) == Black && p.left == w && w.color == Black
      requires w.right != null && w.right.color == Red && ColorAt(w.left) == Black
      requires w in Repr && w != p && w.right != p && w.parent == p
      requires x != null ==> x != w && x != w.right && x != w.right.left
      modifies this`root, this`steps, Repr`right, Repr`left, Repr`parent, Repr`sub, w`color, w.right`color
      ensures Deficient(x, p) && p.right == x && Repr == old(Repr)
      ensures p.left == old(w.right) && p.left.color == Black
      ensures p.left.left != null && p.left.left.color == Red
      ensures steps == old(steps) + [Step(StepKind.RotateLeft, Some(w.value), Snapshot())]
    {
      ghost var v := w.right;
      ghost var c := v.left;
      if w.right != null {
        w.right.color := Black;
      }
      w.color := Red;
      RotateLeft(w);
      Delete3RightKeeps(x, p, w, v, c);
    }

    /** The state after case 3 on the right recoloured `w`'s red right child
        `v` black and `w` red and rotated left at `w` (`c` was `v`'s left
        child). */
    twostate predicate Delete3RightDone(x: RBNode?, p: RBNode, w: RBNode, v: RBNode, c: RBNode?)
      reads this, Repr, p, w, v
    {
      && old(Deficient(x, p)) && old(p.right) == x && old(ColorAt(x)) == Black
      && w in old(Repr) && old(p.left) == w && old(w.right) == v && old(v.left) == c
      && old(w.color) == Black && old(v.color) == Red && old(ColorAt(w.left)) == Black
      && WellFormed() && Repr == old(Repr) && root == old(root)
      && p.left == v && p.right == x && v.left == w && v.right == old(v.right) && w.right == c && w.left == old(w.left)
      && (forall n :: n in Repr && n != p && n != w && n != v ==> n.right == old(n.right) && n.left == old(n.left))
      && (x != null ==> x.parent == p)
      && v.color == Black && w.color == Red
      && (forall n :: n in Repr && n != v && n != w ==> n.color == old(n.color))
      && (forall n :: n in Repr ==> n.bh == old(n.bh))
    }

    twostate lemma Delete3RightKeeps(x: RBNode?, new p: RBNode, new w: RBNode, new v: RBNode, new c: RBNode?)
      requires old(allocated(p) && allocated(w) && allocated(v) && allocated(c))
      requires Delete3RightDone(x, p, w, v, c)
      ensures Deficient(x, p) && p.left == v && v.color == Black && v.left != null && v.left.color == Red
    {
      Delete3RightOthers(x, p, w, v, c);
      Delete3RightNear(x, p, w, v, c);
      assert old(Linked(p) && Linked(w));
      assert root != v && root != w;
      assert x != null ==> root != x;
    }

    twostate lemma Delete3RightOthers(x: RBNode?, new p: RBNode, new w: RBNode, new v: RBNode, new c: RBNode?)
      requires old(allocated(p) && allocated(w) && allocated(v) && allocated(c))
      requires Delete3RightDone(x, p, w, v, c)
      ensures forall m :: m in Repr && m != p && m != w && m != v ==> RedOKBut(m, x) && BhOK(m)
    {
      assert old(Linked(p) && Linked(w));
      forall m | m in Repr && m != p && m != w && m != v
        ensures RedOKBut(m, x) && BhOK(m)
      {
        assert old(Linked(m) && BhOK(m));
        assert m != x ==> old(RedOKBut(m, x));
        assert m.right != null ==> old(m.right.parent) == m;
        assert m.left != null ==> old(m.left.parent) == m;
      }
    }

    twostate lemma Delete3RightNear(x: RBNode?, new p: RBNode, new w: RBNode, new v: RBNode, new c: RBNode?)
      requires old(allocated(p) && allocated(w) && allocated(v) && allocated(c))
      requires Delete3RightDone(x, p, w, v, c)
      ensures RedOKBut(p, x) && ShortOn(p, x) && RedOKBut(v, x) && BhOK(v) && RedOKBut(w, x) && BhOK(w)
    {
      assert old(Linked(p) && Linked(w) && Linked(v));
      assert old(ShortOn(p, x) && RedOKBut(w, x) && BhOK(w) && RedOKBut(v, x) && BhOK(v));
    }

    /** The recolouring and rotation of case 4 of fixDelete on the right:
        `x`'s black sibling `w` has a red left child `r`; `w` takes `p`'s
        colour, `r` and `p` turn black, and `p` rotates right. The black node
        `p` now adds to `x`'s side, and the tree is a red-black tree again. */
    method RotateDelete4Right(x: RBNode?, p: RBNode, w: RBNode)
      requires Deficient(x, p) && p.right == x && ColorAt(x) == Black && p.left == w && w.color == Black
      requires w.left != null && w.left.color == Red
      requires w in Repr && w != p && w.parent == p && p.parent != w && w.left != p && p.bh >= 1
      requires x != null ==> x != w.right && x != p.parent && x != w.left
      requires p.parent != null ==> p.parent in Repr && (p.parent.right == p || p.parent.left == p) && p.parent != w.left
      modifies this`root, this`steps, Repr`right, Repr`left, Repr`parent, Repr`sub
      modifies w`color, w.left`color, p`color, p`bh, w`bh
      ensures Valid() && Repr == old(Repr)
      ensures steps == old(steps) + [Step(StepKind.RotateRight, Some(p.value), Snapshot())]
    {
      ghost var gp := p.parent;
      ghost var b := w.right;
      ghost var r := w.left;
      ParentLink(p);
      Local(w);
      RecolorDelete4(p, w, w.left);
      RotateRight(p);
      Delete4RightKeeps(x, p, w, b, r, gp);
    }

    /** The state after case 4 on the right gave `w` the colour of `p`,
        blackened `p` and `w`'s red left child `r`, and rotated right at `p`
        (whose parent was `gp`; `b` was `w`'s right child); `p` now has one
        black node fewer below it and `w` one more. */
    twostate predicate Delete4RightDone(x: RBNode?, p: RBNode, w: RBNode, b: RBNode?, r: RBNode, gp: RBNode?)
      reads this, Repr, p, w, r, Opt(gp)
    {
      && old(Deficient(x, p)) && old(p.right) == x && old(ColorAt(x)) == Black
      && w in old(Repr) && old(p.left) == w && old(w.right) == b && old(w.left) == r
      && old(w.color) == Black && old(r.color) == Red
      && old(p.parent) == gp && (gp != null ==> gp in old(Repr) && (old(gp.right) == p || old(gp.left) == p))
      && (gp == null ==> old(root) == p)
      && WellFormed() && Repr == old(Repr) && root == (if gp == null then w else old(root))
      && w.right == p && w.left == r && p.right == x && p.left == b
      && (gp != null ==> if old(gp.right) == p then gp.right == w && gp.left == old(gp.left)
                          else gp.left == w && gp.right == old(gp.right))
      && (forall n :: n in Repr && n != p && n != w && n != gp ==> n.right == old(n.right) && n.left == old(n.left))
      && w.color == old(p.color) && r.color == Black && p.color == Black
      && (forall n :: n in Repr && n != p && n != w && n != r ==> n.color == old(n.color))
      && p.bh == old(p.bh) - 1 && w.bh == old(w.bh) + 1
      && (forall n :: n in Repr && n != p && n != w ==> n.bh == old(n.bh))
    }

    twostate lemma Delete4RightKeeps(x: RBNode?, new p: RBNode, new w: RBNode, new b: RBNode?, new r: RBNode, new gp: RBNode?)
      requires old(allocated(p) && allocated(w) && allocated(b) && allocated(r) && allocated(gp))
      requires Delete4RightDone(x, p, w, b, r, gp)
      ensures Valid()
    {
      Delete4RightOthers(x, p, w, b, r, gp);
      Delete4RightNear(x, p, w, b, r, gp);
      Delete4RightAbove(x, p, w, b, r, gp);
      forall m | m in Repr
        ensures ChildrenIn(m)
      {
        Local(m);
      }
    }

    twostate lemma Delete4RightOthers(x: RBNode?, new p: RBNode, new w: RBNode, new b: RBNode?, new r: RBNode, new gp: RBNode?)
      requires old(allocated(p) && allocated(w) && allocated(b) && allocated(r) && allocated(gp))
      requires Delete4RightDone(x, p, w, b, r, gp)
      ensures forall m :: m in Repr && m != p && m != w && m != r && m != gp ==> RedOK(m) && BhOK(m)
    {
      assert old(Linked(p) && Linked(w));
      forall m | m in Repr && m != p && m != w && m != r && m != gp
        ensures RedOK(m) && BhOK(m)
      {
        assert old(Linked(m) && BhOK(m));
        assert m != x ==> old(RedOKBut(m, x));
        assert m.right != null ==> old(m.right.parent) == m && m.right != x;
        assert m.left != null ==> old(m.left.parent) == m && m.left != x;
      }
    }

    twostate lemma Delete4RightNear(x: RBNode?, new p: RBNode, new w: RBNode, new b: RBNode?, new r: RBNode, new gp: RBNode?)
      requires old(allocated(p) && allocated(w) && allocated(b) && allocated(r) && allocated(gp))
      requires Delete4RightDone(x, p, w, b, r, gp)
      ensures RedOK(p) && BhOK(p) && RedOK(w) && BhOK(w) && RedOK(r) && BhOK(r)
    {
      assert old(Linked(p) && Linked(w) && Linked(r));
      assert old(ShortOn(p, x) && BhOK(w) && BhOK(r) && RedOKBut(w, x));
    }

    twostate lemma Delete4RightAbove(x: RBNode?, new p: RBNode, new w: RBNode, new b: RBNode?, new r: RBNode, new gp: RBNode?)
      requires old(allocated(p) && allocated(w) && allocated(b) && allocated(r) && allocated(gp))
      requires Delete4RightDone(x, p, w, b, r, gp)
      ensures gp != null ==> RedOK(gp) && BhOK(gp)
      ensures root != null ==> root.color == Black
    {
      assert old(Linked(p) && Linked(w) && RedOKBut(p, x));
      if gp != null {
        assert old(Linked(gp) && RedOKBut(gp, x) && BhOK(gp));
      } else {
        assert old(root) == p && p != x;
      }
      assert root != r;
    }

    /** A red-black tree satisfies the fixDelete invariant at its root,
        with nothing missing. */
    lemma ValidDeficient()
      requires Valid()
      ensures Deficient(root, null)
    {
      forall m | m in Repr
        ensures RedOKBut(m, root)
      {
        assert RedOK(m);
      }
    }

    /** addAnimationStep for one of fixDelete's cases: the log keeps
        holding only fixDelete's kinds of step after `s0`. */
    method LogFixDelete(kind: StepKind, node: RBNode?, ghost s0: seq<Step>)
      requires WellFormed() && kind in FixDeleteKinds && LogsOnly(s0, steps, FixDeleteKinds)
      modifies this`steps
      ensures steps == old(steps) + [Step(kind, if node == null then None else Some(node.value), Snapshot())]
      ensures LogsOnly(s0, steps, FixDeleteKinds)
    {
      AddStep(kind, node);
    }

    /** Case 1 of fixDelete on the left: `x`'s sibling is red. After the
        recolouring and the left rotation at `p`, `x`'s new sibling is
        black. */
    method DeleteCase1Left(x: RBNode?, p: RBNode, ghost s0: seq<Step>)
      requires Deficient(x, p) && p.left == x && ColorAt(x) == Black && p.right != null && p.right.color == Red
      requires LogsOnly(s0, steps, FixDeleteKinds)
      modifies this`root, this`steps, Repr`left, Repr`right, Repr`parent, Repr`sub, Repr`color
      ensures Deficient(x, p) && p.left == x && Repr == old(Repr)
      ensures p.right != null && p.right.color == Black
      ensures x != null ==> x.sub == old(x.sub)
      ensures LogsOnly(s0, steps, FixDeleteKinds)
      ensures steps == old(steps) + [Step(FixDeleteCase1, Some(old(p.right.value)), old(Snapshot())),
                                     Step(StepKind.RotateLeft, Some(p.value), Snapshot())]
    {
      SiblingShape(x, p);
      AboveShape(x, p);
      var w := p.right;
      LogFixDelete(FixDeleteCase1, w, s0);
      RotateDelete1Left(x, p, w);
    }

    /** Case 1 of fixDelete on the right, the mirror image (not logged). */
    method DeleteCase1Right(x: RBNode?, p: RBNode, ghost s0: seq<Step>)
      requires Deficient(x, p) && p.right == x && p.left != x && ColorAt(x) == Black
      requires p.left != null && p.left.color == Red
      requires LogsOnly(s0, steps, FixDeleteKinds)
      modifies this`root, this`steps, Repr`left, Repr`right, Repr`parent, Repr`sub, Repr`color
      ensures Deficient(x, p) && p.right == x && Repr == old(Repr)
      ensures p.left != null && p.left.color == Black
      ensures x != null ==> x.sub == old(x.sub)
      ensures LogsOnly(s0, steps, FixDeleteKinds)
      ensures steps == old(steps) + [Step(StepKind.RotateRight, Some(p.value), Snapshot())]
    {
      SiblingShape(x, p);
      AboveShape(x, p);
      RotateDelete1Right(x, p, p.left);
    }

    /** Case 2 of fixDelete (either side): `x`'s sibling and both its
        children are black; the sibling turns red and the missing black
        node moves up to `p`. */
    method DeleteCase2(x: RBNode?, p: RBNode)
      requires Deficient(x, p) && ColorAt(x) == Black
      requires var w := if p.left == x then p.right else p.left;
               w != null && w.color == Black && ColorAt(w.left) == Black && ColorAt(w.right) == Black
      modifies Repr`color, Repr`bh
      ensures Deficient(p, p.parent)
    {
      SiblingShape(x, p);
      var w := if p.left == x then p.right else p.left;
      Lighten(x, p, w);
    }

    /** The grandchildren of `x`'s sibling lie in the sibling's subtree,
        away from `x`. */
    lemma NephewShape(x: RBNode?, p: RBNode, v: RBNode)
      requires Deficient(x, p)
      requires var w := if p.left == x then p.right else p.left;
               w != null && (v == w.left || v == w.right)
      ensures x != null ==> x != v.left && x != v.right
    {
      Local(p);
      var w := if p.left == x then p.right else p.left;
      Local(w);
      Local(v);
      if x != null {
        Local(x);
      }
    }

    /** Case 2 of fixDelete on the left, logged; `w` is `x`'s sibling. */
    method DeleteCase2Left(x: RBNode?, p: RBNode, w: RBNode?, ghost s0: seq<Step>)
      requires Deficient(x, p) && p.left == x && ColorAt(x) == Black && w == p.right
      requires w == null || (ColorAt(w.left) == Black && ColorAt(w.right) == Black && w.color == Black)
      requires LogsOnly(s0, steps, FixDeleteKinds)
      modifies this`steps, Repr`color, Repr`bh
      ensures Deficient(p, p.parent) && LogsOnly(s0, steps, FixDeleteKinds)
      ensures steps == old(steps) + [Step(FixDeleteCase2, if w == null then None else Some(old(w.value)),
                                          old(Snapshot()))]
    {
      SiblingShape(x, p);
      LogFixDelete(FixDeleteCase2, w, s0);
      if w != null {
        DeleteCase2(x, p);
      }
    }

    /** Case 3 of fixDelete on the left: `x`'s black sibling has a red
        left child and a black right one. After the recolouring and the
        right rotation at the sibling, `x`'s new sibling is black with a red
        right child. */
    method DeleteCase3Left(x: RBNode?, p: RBNode, ghost s0: seq<Step>)
      requires Deficient(x, p) && p.left == x && ColorAt(x) == Black
      requires p.right != null && p.right.color == Black
      requires p.right.left != null && p.right.left.color == Red && ColorAt(p.right.right) == Black
      requires LogsOnly(s0, steps, FixDeleteKinds)
      modifies this`root, this`steps, Repr`left, Repr`right, Repr`parent, Repr`sub, Repr`color
      ensures Deficient(x, p) && p.left == x && Repr == old(Repr)
      ensures p.right != null && p.right.color == Black && p.right.right != null && p.right.right.color == Red
      ensures LogsOnly(s0, steps, FixDeleteKinds)
      ensures steps == old(steps) + [Step(FixDeleteCase3, Some(old(p.right.value)), old(Snapshot())),
                                     Step(StepKind.RotateRight, Some(old(p.right.value)), Snapshot())]
    {
      SiblingShape(x, p);
      var w := p.right;
      NephewShape(x, p, w.left);
      LogFixDelete(FixDeleteCase3, w, s0);
      RotateDelete3Left(x, p, w);
    }

    /** Case 3 of fixDelete on the right, the mirror image (not logged). */
    method DeleteCase3Right(x: RBNode?, p: RBNode, ghost s0: seq<Step>)
      requires Deficient(x, p) && p.right == x && p.left != x && ColorAt(x) == Black
      requires p.left != null && p.left.color == Black
      requires p.left.right != null && p.left.right.color == Red && ColorAt(p.left.left) == Black
      requires LogsOnly(s0, steps, FixDeleteKinds)
      modifies this`root, this`steps, Repr`left, Repr`right, Repr`parent, Repr`sub, Repr`color
      ensures Deficient(x, p) && p.right == x && Repr == old(Repr)
      ensures p.left != null && p.left.color == Black && p.left.left != null && p.left.left.color == Red
      ensures LogsOnly(s0, steps, FixDeleteKinds)
      ensures steps == old(steps) + [Step(StepKind.RotateLeft, Some(old(p.left.value)), Snapshot())]
    {
      SiblingShape(x, p);
      var w := p.left;
      NephewShape(x, p, w.right);
      RotateDelete3Right(x, p, w);
    }

    /** Case 4 of fixDelete on the left: `x`'s black sibling has a red
        right child. The recolouring and the left rotation at `p` repair
        the tree. */
    method DeleteCase4Left(x: RBNode?, p: RBNode, ghost s0: seq<Step>)
      requires Deficient(x, p) && p.left == x && ColorAt(x) == Black
      requires p.right != null && p.right.color == Black && p.right.right != null && p.right.right.color == Red
      requires LogsOnly(s0, steps, FixDeleteKinds)
      modifies this`root, this`steps, Repr`left, Repr`right, Repr`parent, Repr`sub, Repr`color, Repr`bh
      ensures Valid() && Repr == old(Repr)
      ensures LogsOnly(s0, steps, FixDeleteKinds)
      ensures steps == old(steps) + [Step(FixDeleteCase4, Some(old(p.right.value)), old(Snapshot())),
                                     Step(StepKind.RotateLeft, Some(p.value), Snapshot())]
    {
      SiblingShape(x, p);
      AboveShape(x, p);
      var w := p.right;
      LogFixDelete(FixDeleteCase4, w, s0);
      RotateDelete4Left(x, p, w);
    }

    /** Case 4 of fixDelete on the right, the mirror image (not logged). */
    method DeleteCase4Right(x: RBNode?, p: RBNode, ghost s0: seq<Step>)
      requires Deficient(x, p) && p.right == x && p.left != x && ColorAt(x) == Black
      requires p.left != null && p.left.color == Black && p.left.left != null && p.left.left.color == Red
      requires LogsOnly(s0, steps, FixDeleteKinds)
      modifies this`root, this`steps, Repr`left, Repr`right, Repr`parent, Repr`sub, Repr`color, Repr`bh
      ensures Valid() && Repr == old(Repr)
      ensures LogsOnly(s0, steps, FixDeleteKinds)
      ensures steps == old(steps) + [Step(StepKind.RotateRight, Some(p.value), Snapshot())]
    {
      SiblingShape(x, p);
      AboveShape(x, p);
      RotateDelete4Right(x, p, p.left);
    }

    /** Moving from `x` up to its parent `p` leaves fewer nodes outside
        the current subtree. */
    lemma Climb(x: RBNode?, p: RBNode)
      requires WellFormed() && p in Repr && (p.left == x || p.right == x)
      ensures |Repr - p.sub| < |Repr - Sub(x)|
    {
      Local(p);
      assert Repr - p.sub < Repr - Sub(x);
    }

    /** One iteration of fixDelete's loop when `x` is the left child of
        `p`. Either the missing black node moves up to `p` (case 2), or the
        tree is repaired and the loop ends with `x` at the root (case 4). */
    method FixDeleteLeft(x: RBNode?, p: RBNode, ghost s0: seq<Step>) returns (nx: RBNode?, np: RBNode?, finished: bool)
      requires Deficient(x, p) && p.left == x && ColorAt(x) == Black
      requires LogsOnly(s0, steps, FixDeleteKinds)
      modifies this`root, this`steps, Repr`left, Repr`right, Repr`parent, Repr`sub, Repr`color, Repr`bh
      ensures Deficient(nx, np) && Repr == old(Repr)
      ensures finished ==> Valid() && nx == root
      ensures !finished ==> nx == p && (x != null ==> x.sub == old(x.sub)) && |Repr - Sub(nx)| < |Repr - Sub(x)|
      ensures LogsOnly(s0, steps, FixDeleteKinds)
    {
      SiblingShape(x, p);
      var w := p.right;
      if w != null && w.IsRed() {
        DeleteCase1Left(x, p, s0);
        w := p.right;
      }
      if w == null || ((w.left == null || w.left.IsBlack()) && (w.right == null || w.right.IsBlack())) {
        DeleteCase2Left(x, p, w, s0);
        nx := p;
        np := nx.parent;
        finished := false;
        Climb(x, p);
      } else {
        if w.right == null || w.right.IsBlack() {
          DeleteCase3Left(x, p, s0);
        }
        DeleteCase4Left(x, p, s0);
        nx := root;
        np := null;
        finished := true;
        ValidDeficient();
      }
    }

    /** One iteration of fixDelete's loop when `x` is the right child of
        `p`: the mirror image of FixDeleteLeft, which logs only its
        rotations. */
    method FixDeleteRight(x: RBNode?, p: RBNode, ghost s0: seq<Step>) returns (nx: RBNode?, np: RBNode?, finished: bool)
      requires Deficient(x, p) && p.right == x && p.left != x && ColorAt(x) == Black
      requires LogsOnly(s0, steps, FixDeleteKinds)
      modifies this`root, this`steps, Repr`left, Repr`right, Repr`parent, Repr`sub, Repr`color, Repr`bh
      ensures Deficient(nx, np) && Repr == old(Repr)
      ensures finished ==> Valid() && nx == root
      ensures !finished ==> nx == p && (x != null ==> x.sub == old(x.sub)) && |Repr - Sub(nx)| < |Repr - Sub(x)|
      ensures LogsOnly(s0, steps, FixDeleteKinds)
    {
      SiblingShape(x, p);
      var w := p.left;
      if w != null && w.IsRed() {
        DeleteCase1Right(x, p, s0);
        w := p.left;
      }
      if w == null || ((w.right == null || w.right.IsBlack()) && (w.left == null || w.left.IsBlack())) {
        if w != null {
          DeleteCase2(x, p);
        }
        nx := p;
        np := nx.parent;
        finished := false;
        Climb(x, p);
      } else {
        if w.left == null || w.left.IsBlack() {
          DeleteCase3Right(x, p, s0);
        }
        DeleteCase4Right(x, p, s0);
        nx := root;
        np := null;
        finished := true;
        ValidDeficient();
      }
    }

    /** fixDelete: while `x` is a black non-root node (or an empty slot)
        whose subtree lacks one black node, apply the case for the side it
        hangs from; then blacken `x`. The result is a red-black tree with
        the same nodes. */
    method FixDelete(node: RBNode?, parent: RBNode?)
      requires Deficient(node, parent)
      modifies this`root, this`steps, Repr`left, Repr`right, Repr`parent, Repr`sub, Repr`color, Repr`bh
      ensures Valid() && Repr == old(Repr)
      ensures LogsOnly(old(steps), steps, FixDeleteKinds)
    {
      var x, xParent := node, parent;
      while x != root && (x == null || x.IsBlack())
        invariant Deficient(x, xParent) && Repr == old(Repr)
        invariant LogsOnly(old(steps), steps, FixDeleteKinds)
        decreases |Repr - Sub(x)|
      {
        if xParent == null {
          break;
        }
        var finished;
        if x == xParent.left {
          x, xParent, finished := FixDeleteLeft(x, xParent, old(steps));
        } else {
          x, xParent, finished := FixDeleteRight(x, xParent, old(steps));
        }
        if finished {
          break;
        }
      }
      BlackenLast(x, xParent);
    }

    /** The last lines of fixDelete: `x`, when there is one, turns black.
        Once `x` is the root or red, this restores the missing black node. */
    method BlackenLast(x: RBNode?, p: RBNode?)
      requires Deficient(x, p) && (x == root || ColorAt(x) == Red)
      modifies Opt(x)`color
      ensures Valid()
    {
      if x != null {
        x.color := Black;
        BlackenedKeeps(x, p);
      }
    }

    twostate lemma BlackenedKeeps(x: RBNode, new p: RBNode?)
      requires old(allocated(p)) && old(Deficient(x, p)) && old(x == root || x.color == Red)
      requires unchanged(this) && unchanged(Repr - {x}) && x.color == Black
      requires x.left == old(x.left) && x.right == old(x.right) && x.parent == old(x.parent)
      requires x.sub == old(x.sub) && x.value == old(x.value) && x.bh == old(x.bh)
      ensures Valid()
    {
      forall m | m in Repr
        ensures Linked(m) && m.sub <= Repr && ChildrenIn(m)
      {
        assert old(Linked(m) && m.sub <= Repr && ChildrenIn(m));
      }
      assert p != null ==> old(Linked(p) && ShortOn(p, x)) && x != p;
      forall m | m in Repr
        ensures RedOK(m) && BhOK(m)
      {
        assert old(Linked(m));
        if m != x {
          assert old(RedOKBut(m, x));
        }
        if m != p {
          assert old(BhOK(m));
        }
      }
    }

    /** Nodes of a well-formed tree hold distinct keys. */
    lemma {:induction false} DistinctKeys(n: RBNode, z: RBNode, m: RBNode)
      requires WellFormed() && n in Repr && z in n.sub && m in n.sub && m != z
      ensures m.value != z.value
      decreases n.sub
    {
      Local(n);
      if z != n && m != n {
        if n.left != null && z in n.left.sub && m in n.left.sub {
          DistinctKeys(n.left, z, m);
        } else if n.right != null && z in n.right.sub && m in n.right.sub {
          DistinctKeys(n.right, z, m);
        }
      }
    }

    /** Removing a node from the tree removes exactly its key. */
    lemma KeysWithout(z: RBNode)
      requires WellFormed() && z in Repr
      ensures ValuesOf(Repr - {z}) == ValuesOf(Repr) - {z.value}
    {
      forall m | m in Repr && m != z
        ensures m.value != z.value
      {
        DistinctKeys(root, z, m);
      }
    }

    /** The colour that deleteNode takes out of the tree: `z`'s own when
        it has at most one child, otherwise that of its successor, which
        moves into `z`'s place and takes `z`'s colour. */
    ghost function RemovedColor(z: RBNode): Color
      reads this`root, this`Repr, Repr`left, Repr`right, Repr`parent, Repr`sub, Repr`value, Repr`color
      requires WellFormed() && z in Repr
    {
      if z.left == null || z.right == null then z.color
      else
        Local(z);
        Local(z.right);
        Successor(z).color
    }

    /** The unlinking half of deleteNode: `z` leaves the tree, replaced by
        its only child or by its successor. Taking out a black node leaves
        the fixDelete invariant at `x` below `xParent`; taking out a red one
        leaves a red-black tree. */
    method Unlink(z: RBNode) returns (x: RBNode?, xParent: RBNode?, yOriginalColor: Color)
      requires Valid() && z in Repr
      modifies this`root, this`Repr, Repr`left, Repr`right, Repr`parent, Repr`sub, Repr`color, Repr`bh
      ensures Repr == old(Repr) - {z}
      ensures yOriginalColor == old(RemovedColor(z))
      ensures yOriginalColor == Black ==> Deficient(x, xParent)
      ensures yOriginalColor == Red ==> Valid()
    {
      if z.left == null || z.right == null {
        yOriginalColor := z.color;
        x, xParent := Splice(z);
      } else {
        x, xParent, yOriginalColor := ReplaceBySuccessor(z);
      }
    }

    /** deleteNode: unlink `z` (or move its successor into its place), log
        the removal, and run fixDelete when the colour taken out was black.
        The tree stays a red-black tree holding every key but `z`'s. */
    method DeleteNode(z: RBNode)
      requires Valid() && z in Repr
      modifies this`root, this`Repr, this`steps, Repr`left, Repr`right, Repr`parent, Repr`sub, Repr`color, Repr`bh
      ensures Valid() && Repr == old(Repr) - {z}
      ensures Keys() == old(Keys()) - {z.value}
      ensures |steps| > |old(steps)| && steps[..|old(steps)|] == old(steps)
      ensures steps[|old(steps)|].kind == StepKind.Delete && steps[|old(steps)|].key == Some(z.value)
      ensures LogsOnly(steps[..|old(steps)| + 1], steps, FixDeleteKinds)
      ensures old(RemovedColor(z)) == Red ==> |steps| == |old(steps)| + 1
    {
      KeysOfNodes();
      KeysWithout(z);
      ghost var keys := ValuesOf(Repr - {z});
      var x, xParent, yOriginalColor := Unlink(z);
      assert ValuesOf(Repr) == keys;
      AddStep(StepKind.Delete, z);
      ghost var logged := steps;
      if yOriginalColor == Black {
        FixDelete(x, xParent);
      }
      KeysOfNodes();
      assert steps[..|old(steps)| + 1] == logged;
    }

    /** delete: clear the log; if `v` is absent, log `not-found` and
        answer false with the tree untouched; otherwise log `delete-start`
        and remove its node. */
    method Delete(v: int) returns (r: bool)
      requires Valid()
      modifies this, Repr
      ensures Valid()
      ensures r <==> v in old(Keys())
      ensures Keys() == old(Keys()) - {v}
      ensures !r ==> Repr == old(Repr) && root == old(root) && unchanged(Repr)
                     && steps == [Step(NotFound, None, Snapshot())]
      ensures r ==> Repr < old(Repr) && |old(Repr) - Repr| == 1 && |steps| >= 2
                    && steps[0] == Step(DeleteStart, Some(v), old(Snapshot()))
                    && steps[1].kind == StepKind.Delete && steps[1].key == Some(v)
                    && LogsOnly(steps[..2], steps, FixDeleteKinds)
    {
      ghost var s0 := Snapshot();
      ClearSteps();
      assert Snapshot() == s0;
      var node := SearchNode(v);
      if node == null {
        AddStep(NotFound, null);
        return false;
      }
      AddStep(DeleteStart, node);
      ghost var start := steps;
      assert start == [Step(DeleteStart, Some(v), s0)];
      DeleteNode(node);
      assert steps[..1] == start;
      assert steps[0] == start[0];
      return true;
    }

    /** An empty tree with an empty log. */
    constructor ()
      ensures Valid() && Repr == {} && steps == []
    {
      root := null;
      steps := [];
      Repr := {};
    }
  }
}
