/** A tree vertex (js/node.js): a key, a colour, and links to its children
    and its parent. Two ghost fields carry what the tree's invariant needs:
    the set of nodes of the subtree rooted here, and the black height below. */
module Nodes {
  import opened RBSpec

  class RBNode {
    var value: int
    var color: Color
    var left: RBNode?
    var right: RBNode?
    var parent: RBNode?
    /** The nodes of the subtree rooted here, this node included. */
    ghost var sub: set<RBNode>
    /** Black nodes on every path from here (excluded) down to a null. */
    ghost var bh: nat

    /** A new node is red and unlinked. */
    constructor (value: int)
      ensures this.value == value && color == Red
      ensures left == null && right == null && parent == null
      ensures sub == {this} && bh == 0
    {
      this.value := value;
      color := Red;
      left := null;
      right := null;
      parent := null;
      sub := {this};
      bh := 0;
    }

    /** grandparent: the parent's parent, or null without a parent. */
    function Grandparent(): RBNode?
      reads this`parent, Opt(parent)`parent
    {
      if parent == null then null else parent.parent
    }

    /** The sibling: the parent's other child. */
    function Sibling(): (s: RBNode?)
      reads this`parent, Opt(parent)`left, Opt(parent)`right
      ensures parent == null ==> s == null
      ensures parent != null && (this == parent.left || this == parent.right)
              ==> {s, this} == {parent.left, parent.right}
    {
      if parent == null then null
      else if this == parent.left then parent.right
      else parent.left
    }

    /** The uncle is the parent's sibling. */
    function Uncle(): (u: RBNode?)
      reads this`parent, Opt(parent)`parent, Opt(Grandparent())`left, Opt(Grandparent())`right
      ensures u == if parent == null then null else parent.Sibling()
    {
      var gp := Grandparent();
      if gp == null then null
      else if parent == gp.left then gp.right
      else gp.left
    }

    /** isRed: the node's colour is red, that is, not black. */
    predicate IsRed()
      reads this`color
      ensures IsRed() <==> color != Black
    {
      color == Red
    }

    /** With two colours, black is exactly not red. */
    function IsBlack(): (b: bool)
      reads this`color
      ensures b <==> !IsRed()
    {
      color == Black
    }
  }

  /** The singleton of a non-null node, for frames. */
  function Opt(n: RBNode?): set<RBNode> {
    if n == null then {} else {n}
  }

  /** The nodes of a possibly empty subtree. */
  ghost function Sub(n: RBNode?): set<RBNode>
    reads Opt(n)`sub
  {
    if n == null then {} else n.sub
  }

  /** The colour of a child slot; an absent child is black. */
  function ColorAt(n: RBNode?): Color
    reads Opt(n)`color
  {
    if n == null then Black else n.color
  }

  /** Black nodes a child slot adds to every path through it. */
  ghost function Contrib(n: RBNode?): nat
    reads Opt(n)`bh, Opt(n)`color
  {
    if n == null then 0 else n.bh + (if n.color == Black then 1 else 0)
  }

  /** The keys of a set of nodes. */
  ghost function ValuesOf(s: set<RBNode>): set<int>
    reads s`value
  {
    set m | m in s :: m.value
  }

  /** Adding a node to a set adds its key. */
  lemma ValuesOfPlus(s: set<RBNode>, n: RBNode)
    ensures ValuesOf(s + {n}) == ValuesOf(s) + {n.value}
  {
    assert n.value in ValuesOf(s + {n});
  }

  /** The (key, colour) pairs of a set of nodes. */
  ghost function EntriesOf(s: set<RBNode>): set<Entry>
    reads s`value, s`color
  {
    set m | m in s :: Entry(m.value, m.color)
  }

  /** Keys, entries and size of a subtree assembled from two disjoint
      child subtrees and a root. */
  lemma SplitSubtree(l: set<RBNode>, n: RBNode, r: set<RBNode>)
    requires l !! r && n !in l && n !in r
    ensures ValuesOf({n} + l + r) == ValuesOf(l) + {n.value} + ValuesOf(r)
    ensures EntriesOf({n} + l + r) == EntriesOf(l) + {Entry(n.value, n.color)} + EntriesOf(r)
    ensures |{n} + l + r| == |l| + 1 + |r|
  {
    assert |{n} + l| == |l| + 1;
  }
}
