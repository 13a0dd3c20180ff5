/** The detached tree value that `serializeTree` produces, and the
    red-black properties, traversals, sizes and the `verify` checker stated
    over it. Everything here is pure: the linked structure in RedBlackTrees
    is related to these values through its serialisation. */
module RBSpec {

  /** The two node colours (RBNode.RED and RBNode.BLACK). Being a datatype,
      "every node is red or black" holds by construction. */
  datatype Color = Red | Black

  datatype Option<T> = None | Some(value: T)

  /** One serialised node: `{value, color, left, right}`, or null. */
  datatype Tree = Nil | Node(value: int, color: Color, left: Tree, right: Tree)

  /** One element of a traversal result: `{value, color}`. */
  datatype Entry = Entry(value: int, color: Color)

  // ---------------------------------------------------------------------
  // Contents and search-tree order

  function Keys(t: Tree): set<int> {
    match t
    case Nil => {}
    case Node(v, _, l, r) => Keys(l) + {v} + Keys(r)
  }

  function Entries(t: Tree): set<Entry> {
    match t
    case Nil => {}
    case Node(v, c, l, r) => Entries(l) + {Entry(v, c)} + Entries(r)
  }

  /** Every key of a left subtree is smaller, every key of a right subtree larger. */
  ghost predicate IsBST(t: Tree) {
    match t
    case Nil => true
    case Node(v, _, l, r) =>
      && IsBST(l) && IsBST(r)
      && (forall k :: k in Keys(l) ==> k < v)
      && (forall k :: k in Keys(r) ==> v < k)
  }

  // ---------------------------------------------------------------------
  // Traversals, count and height (inOrder, preOrder, postOrder, count, height)

  function InOrder(t: Tree): seq<Entry> {
    match t
    case Nil => []
    case Node(v, c, l, r) => InOrder(l) + [Entry(v, c)] + InOrder(r)
  }

  function PreOrder(t: Tree): seq<Entry> {
    match t
    case Nil => []
    case Node(v, c, l, r) => [Entry(v, c)] + PreOrder(l) + PreOrder(r)
  }

  function PostOrder(t: Tree): seq<Entry> {
    match t
    case Nil => []
    case Node(v, c, l, r) => PostOrder(l) + PostOrder(r) + [Entry(v, c)]
  }

  function Count(t: Tree): nat {
    match t
    case Nil => 0
    case Node(_, _, l, r) => 1 + Count(l) + Count(r)
  }

  function Max(a: int, b: int): int { if a < b then b else a }

  /** -1 for the empty tree, else one more than the taller child. */
  function Height(t: Tree): (h: int)
    ensures -1 <= h
    ensures h == -1 <==> t == Nil
  {
    match t
    case Nil => -1
    case Node(_, _, l, r) => 1 + Max(Height(l), Height(r))
  }

  ghost predicate IncreasingKeys(s: seq<Entry>) {
    forall i, j :: 0 <= i < j < |s| ==> s[i].value < s[j].value
  }

  lemma {:induction false} TraversalSizes(t: Tree)
    ensures |InOrder(t)| == Count(t)
    ensures |PreOrder(t)| == Count(t)
    ensures |PostOrder(t)| == Count(t)
  {
    match t
    case Nil =>
    case Node(_, _, l, r) =>
      TraversalSizes(l);
      TraversalSizes(r);
  }

  /** The three traversals visit the same entries, each as often. */
  lemma {:induction false} TraversalsAgree(t: Tree)
    ensures multiset(PreOrder(t)) == multiset(InOrder(t))
    ensures multiset(PostOrder(t)) == multiset(InOrder(t))
    ensures forall e :: e in InOrder(t) <==> e in Entries(t)
  {
    match t
    case Nil =>
    case Node(v, c, l, r) =>
      TraversalsAgree(l);
      TraversalsAgree(r);
      assert InOrder(t) == InOrder(l) + [Entry(v, c)] + InOrder(r);
      assert PreOrder(t) == [Entry(v, c)] + PreOrder(l) + PreOrder(r);
      assert PostOrder(t) == PostOrder(l) + PostOrder(r) + [Entry(v, c)];
  }

  lemma {:induction false} KeysAreEntryValues(t: Tree)
    ensures forall k :: k in Keys(t) <==> exists e :: e in Entries(t) && e.value == k
  {
    match t
    case Nil =>
    case Node(v, c, l, r) =>
      KeysAreEntryValues(l);
      KeysAreEntryValues(r);
      assert Entry(v, c) in Entries(t);
  }

  /** In a search tree the in-order traversal is strictly increasing. */
  lemma {:induction false} InOrderIncreasing(t: Tree)
    requires IsBST(t)
    ensures IncreasingKeys(InOrder(t))
  {
    match t
    case Nil =>
    case Node(v, c, l, r) =>
      InOrderIncreasing(l);
      InOrderIncreasing(r);
      EntriesBelow(l, v);
      EntriesAbove(r, v);
      IncreasingJoin(InOrder(l), Entry(v, c), InOrder(r));
  }

  lemma EntriesBelow(t: Tree, v: int)
    requires forall k :: k in Keys(t) ==> k < v
    ensures forall e :: e in InOrder(t) ==> e.value < v
  {
    TraversalsAgree(t);
    KeysAreEntryValues(t);
    forall e | e in InOrder(t) ensures e.value < v {
      assert e in Entries(t);
      assert e.value in Keys(t);
    }
  }

  lemma EntriesAbove(t: Tree, v: int)
    requires forall k :: k in Keys(t) ==> v < k
    ensures forall e :: e in InOrder(t) ==> v < e.value
  {
    TraversalsAgree(t);
    KeysAreEntryValues(t);
    forall e | e in InOrder(t) ensures v < e.value {
      assert e in Entries(t);
      assert e.value in Keys(t);
    }
  }

  /** Joining two increasing sequences around a middle entry. */
  lemma IncreasingJoin(a: seq<Entry>, m: Entry, b: seq<Entry>)
    requires IncreasingKeys(a) && IncreasingKeys(b)
    requires forall e :: e in a ==> e.value < m.value
    requires forall e :: e in b ==> m.value < e.value
    ensures IncreasingKeys(a + [m] + b)
  {
    var s := a + [m] + b;
    forall i, j | 0 <= i < j < |s|
      ensures s[i].value < s[j].value
    {
      if i < |a| {
        assert s[i] in a;
      }
      if j > |a| {
        assert s[j] == b[j - |a| - 1];
        assert s[j] in b;
      }
    }
  }

  /** Two strictly increasing entry sequences with the same members are equal:
      the in-order sequence is determined by the set of (key, colour) pairs. */
  lemma {:induction false} IncreasingUnique(s1: seq<Entry>, s2: seq<Entry>)
    requires IncreasingKeys(s1) && IncreasingKeys(s2)
    requires forall e :: e in s1 <==> e in s2
    ensures s1 == s2
    decreases |s1|
  {
    if s1 == [] {
      HeadIsMember(s2);
    } else {
      SameHead(s1, s2);
      SameTail(s1, s2);
      IncreasingUnique(s1[1..], s2[1..]);
      assert s1 == [s1[0]] + s1[1..];
      assert s2 == [s2[0]] + s2[1..];
    }
  }

  /** The least member comes first. */
  lemma SameHead(s1: seq<Entry>, s2: seq<Entry>)
    requires IncreasingKeys(s1) && IncreasingKeys(s2) && s1 != []
    requires forall e :: e in s1 <==> e in s2
    ensures s2 != [] && s1[0] == s2[0]
  {
    assert s1[0] in s2;
    var i :| 0 <= i < |s2| && s2[i] == s1[0];
    assert s2[0] in s1;
    var j :| 0 <= j < |s1| && s1[j] == s2[0];
  }

  lemma SameTail(s1: seq<Entry>, s2: seq<Entry>)
    requires IncreasingKeys(s1) && IncreasingKeys(s2) && s1 != [] && s2 != []
    requires s1[0] == s2[0]
    requires forall e :: e in s1 <==> e in s2
    ensures IncreasingKeys(s1[1..]) && IncreasingKeys(s2[1..])
    ensures forall e :: e in s1[1..] <==> e in s2[1..]
  {
    forall e
      ensures e in s1[1..] <==> e in s2[1..]
    {
      if e in s1[1..] {
        var k :| 1 <= k < |s1| && s1[k] == e;
        assert e in s2;
      }
      if e in s2[1..] {
        var k :| 1 <= k < |s2| && s2[k] == e;
        assert e in s1;
      }
    }
  }

  lemma HeadIsMember(s: seq<Entry>)
    ensures s != [] ==> s[0] in s
  {
  }

  /** Keys of a search tree are distinct, so the node count is the key count. */
  lemma {:induction false} CountIsKeyCount(t: Tree)
    requires IsBST(t)
    ensures Count(t) == |Keys(t)|
  {
    match t
    case Nil =>
    case Node(v, _, l, r) =>
      CountIsKeyCount(l);
      CountIsKeyCount(r);
      assert Keys(l) !! Keys(r) by {
        forall k | k in Keys(l) ensures k !in Keys(r) { }
      }
      assert v !in Keys(l) + Keys(r);
      assert |Keys(l) + Keys(r)| == |Keys(l)| + |Keys(r)|;
  }

  lemma {:induction false} HeightBelowCount(t: Tree)
    ensures Height(t) < Count(t)
  {
    match t
    case Nil =>
    case Node(_, _, l, r) =>
      HeightBelowCount(l);
      HeightBelowCount(r);
  }

  // ---------------------------------------------------------------------
  // Red-black properties (lines 4-10 of redblacktree.js)

  /** Absent children count as black (property 3). */
  function ColorOf(t: Tree): Color {
    if t.Nil? then Black else t.color
  }

  /** Property 4: a red node has no red child. */
  ghost predicate NoRedRed(t: Tree) {
    match t
    case Nil => true
    case Node(_, c, l, r) =>
      && (c == Red ==> ColorOf(l) == Black && ColorOf(r) == Black)
      && NoRedRed(l) && NoRedRed(r)
  }

  /** Black nodes on the leftmost path, the node itself included. */
  function BlackHeight(t: Tree): nat {
    match t
    case Nil => 0
    case Node(_, c, l, _) => BlackHeight(l) + (if c == Black then 1 else 0)
  }

  /** Property 5: at every node both sides hold the same number of black nodes. */
  ghost predicate BlackBalanced(t: Tree) {
    match t
    case Nil => true
    case Node(_, _, l, r) =>
      BlackBalanced(l) && BlackBalanced(r) && BlackHeight(l) == BlackHeight(r)
  }

  /** Properties 2, 4 and 5 (1 and 3 hold by the types). */
  ghost predicate IsRedBlack(t: Tree) {
    ColorOf(t) == Black && NoRedRed(t) && BlackBalanced(t)
  }

  /** Keys of the red nodes that have a red child. */
  function RedRedKeys(t: Tree): set<int> {
    match t
    case Nil => {}
    case Node(v, c, l, r) =>
      (if c == Red && (ColorOf(l) == Red || ColorOf(r) == Red) then {v} else {})
      + RedRedKeys(l) + RedRedKeys(r)
  }

  lemma {:induction false} NoRedRedIffNoKeys(t: Tree)
    ensures NoRedRed(t) <==> RedRedKeys(t) == {}
  {
    match t
    case Nil =>
    case Node(v, c, l, r) =>
      NoRedRedIffNoKeys(l);
      NoRedRedIffNoKeys(r);
      if c == Red && (ColorOf(l) == Red || ColorOf(r) == Red) {
        assert v in RedRedKeys(t);
      }
  }

  // ---------------------------------------------------------------------
  // verify() (redblacktree.js:506-548)

  datatype Violation = RedRoot | RedNodeWithRedChild(value: int) | UnequalBlackCounts

  datatype Report = Report(valid: bool, errors: seq<Violation>)

  /** The recursive closure `checkNode`: `blackCount` black nodes seen so far
      on the path, `pathBlackCount` the count at the first null reached (-1
      before any). Returns the new `pathBlackCount` and the violations pushed,
      in the order they are pushed. */
  function CheckNode(t: Tree, blackCount: int, pathBlackCount: int): (int, seq<Violation>) {
    match t
    case Nil =>
      if pathBlackCount == -1 then (blackCount, [])
      else (pathBlackCount, if blackCount != pathBlackCount then [UnequalBlackCounts] else [])
    case Node(v, c, l, r) =>
      var here := if c == Red && (ColorOf(l) == Red || ColorOf(r) == Red)
                  then [RedNodeWithRedChild(v)] else [];
      var count := if c == Red then blackCount else blackCount + 1;
      var (p1, e1) := CheckNode(l, count, pathBlackCount);
      var (p2, e2) := CheckNode(r, count, p1);
      (p2, here + e1 + e2)
  }

  function VerifyTree(t: Tree): Report {
    var rootErrors := if t.Node? && t.color == Red then [RedRoot] else [];
    var (_, errors) := CheckNode(t, 0, -1);
    Report(|rootErrors + errors| == 0, rootErrors + errors)
  }

  /** What `checkNode` reports: the path count it settles on, and that it
      reports unequal counts exactly when some null is reached with a black
      count different from the first one. */
  lemma {:induction false} CheckNodeCounts(t: Tree, blackCount: int, pathBlackCount: int)
    requires 0 <= blackCount && -1 <= pathBlackCount
    ensures CheckNode(t, blackCount, pathBlackCount).0
         == if pathBlackCount == -1 then blackCount + BlackHeight(t) else pathBlackCount
    ensures UnequalBlackCounts in CheckNode(t, blackCount, pathBlackCount).1
         <==> !(BlackBalanced(t) &&
                (pathBlackCount == -1 || blackCount + BlackHeight(t) == pathBlackCount))
  {
    match t
    case Nil =>
    case Node(v, c, l, r) =>
      var count := if c == Red then blackCount else blackCount + 1;
      CheckNodeCounts(l, count, pathBlackCount);
      var p1 := CheckNode(l, count, pathBlackCount).0;
      CheckNodeCounts(r, count, p1);
  }

  lemma {:induction false} CheckNodeRedRed(t: Tree, blackCount: int, pathBlackCount: int)
    ensures RedRoot !in CheckNode(t, blackCount, pathBlackCount).1
    ensures forall k :: RedNodeWithRedChild(k) in CheckNode(t, blackCount, pathBlackCount).1
                    <==> k in RedRedKeys(t)
  {
    match t
    case Nil =>
    case Node(v, c, l, r) =>
      var count := if c == Red then blackCount else blackCount + 1;
      CheckNodeRedRed(l, count, pathBlackCount);
      var p1 := CheckNode(l, count, pathBlackCount).0;
      CheckNodeRedRed(r, count, p1);
  }

  /** `verify` reports exactly the three kinds of violation, and is valid
      exactly for red-black trees. */
  lemma VerifyTreeCorrect(t: Tree)
    ensures VerifyTree(t).valid <==> VerifyTree(t).errors == []
    ensures RedRoot in VerifyTree(t).errors <==> ColorOf(t) == Red
    ensures UnequalBlackCounts in VerifyTree(t).errors <==> !BlackBalanced(t)
    ensures forall k :: RedNodeWithRedChild(k) in VerifyTree(t).errors <==> k in RedRedKeys(t)
    ensures VerifyTree(t).valid <==> IsRedBlack(t)
  {
    CheckNodeCounts(t, 0, -1);
    CheckNodeRedRed(t, 0, -1);
    NoRedRedIffNoKeys(t);
    var errors := VerifyTree(t).errors;
    if errors == [] {
      var S := RedRedKeys(t);
      forall k ensures k !in S { assert RedNodeWithRedChild(k) !in errors; }
      assert S == {};
    } else {
      match errors[0]
      case RedRoot =>
      case UnequalBlackCounts =>
      case RedNodeWithRedChild(k) =>
        assert k in RedRedKeys(t);
    }
  }

  // ---------------------------------------------------------------------
  // Height bound: height <= 2 log2(n + 1)

  function Pow2(n: nat): nat {
    if n == 0 then 1 else 2 * Pow2(n - 1)
  }

  lemma {:induction false} Pow2Monotone(a: nat, b: nat)
    requires a <= b
    ensures Pow2(a) <= Pow2(b)
    decreases b
  {
    if a < b {
      Pow2Monotone(a, b - 1);
    }
  }

  lemma {:induction false} CountAtLeast(t: Tree)
    requires BlackBalanced(t)
    ensures Count(t) + 1 >= Pow2(BlackHeight(t))
  {
    match t
    case Nil =>
    case Node(_, c, l, r) =>
      CountAtLeast(l);
      CountAtLeast(r);
  }

  lemma {:induction false} HeightAtMost(t: Tree)
    requires NoRedRed(t) && BlackBalanced(t)
    ensures Height(t) + 1 <= 2 * BlackHeight(t) + (if ColorOf(t) == Red then 1 else 0)
  {
    match t
    case Nil =>
    case Node(_, c, l, r) =>
      HeightAtMost(l);
      HeightAtMost(r);
  }

  /** A red-black tree of n nodes has height at most 2 log2(n + 1). */
  lemma HeightBound(t: Tree)
    requires IsRedBlack(t)
    ensures Pow2((Height(t) + 1) / 2) <= Count(t) + 1
  {
    HeightBelowCount(t);
    HeightAtMost(t);
    CountAtLeast(t);
    Pow2Monotone((Height(t) + 1) / 2, BlackHeight(t));
  }
}
