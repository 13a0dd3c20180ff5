/** The step log (animationSteps): one record per structurally meaningful
    action, with the key of the node concerned and a detached snapshot of
    the whole tree at that moment. The display messages are left out. */
module Steps {
  import opened RBSpec

  /** The `type` tags used by redblacktree.js. */
  datatype StepKind =
    | Create | ColorBlack | Compare | Duplicate | InsertLeft | InsertRight
    | Case1 | Case2 | Case3 | RootBlack
    | RotateLeft | RotateRight
    | Search | Found | SearchLeft | SearchRight | NotFound
    | DeleteStart | Delete
    | FixDeleteCase1 | FixDeleteCase2 | FixDeleteCase3 | FixDeleteCase4

  /** `{type, nodeValue, treeState}`; `nodeValue` is None when no node is given. */
  datatype Step = Step(kind: StepKind, key: Option<int>, snapshot: Tree)

  /** The log `search` leaves after descending `t` (a subtree of `snap`,
      the whole tree, which a search does not change) when `acc` has been
      logged so far. */
  function SearchTrace(t: Tree, v: int, snap: Tree, acc: seq<Step>): seq<Step> {
    match t
    case Nil => acc + [Step(NotFound, None, snap)]
    case Node(k, _, l, r) =>
      var visit := acc + [Step(Search, Some(k), snap)];
      if v == k then visit + [Step(Found, Some(k), snap)]
      else if v < k then SearchTrace(l, v, snap, visit + [Step(SearchLeft, Some(k), snap)])
      else SearchTrace(r, v, snap, visit + [Step(SearchRight, Some(k), snap)])
  }

  /** The log `insert` leaves after looking for the insertion point in `t`
      from `acc`: a `compare` per node visited, and a final `duplicate` if
      the key is met. */
  function CompareTrace(t: Tree, v: int, snap: Tree, acc: seq<Step>): seq<Step> {
    match t
    case Nil => acc
    case Node(k, _, l, r) =>
      var visit := acc + [Step(Compare, Some(k), snap)];
      if v < k then CompareTrace(l, v, snap, visit)
      else if v > k then CompareTrace(r, v, snap, visit)
      else visit + [Step(Duplicate, Some(k), snap)]
  }

  /** A search in a search tree extends the log, and its last step is
      `found` exactly when the key is present, `not-found` otherwise. */
  lemma {:induction false} SearchTraceOutcome(t: Tree, v: int, snap: Tree, acc: seq<Step>)
    requires IsBST(t)
    ensures |SearchTrace(t, v, snap, acc)| > |acc|
    ensures SearchTrace(t, v, snap, acc)[..|acc|] == acc
    ensures var s := SearchTrace(t, v, snap, acc);
            (s[|s| - 1].kind == Found <==> v in Keys(t)) &&
            (s[|s| - 1].kind == NotFound <==> v !in Keys(t))
  {
    match t
    case Nil =>
    case Node(k, _, l, r) =>
      var visit := acc + [Step(Search, Some(k), snap)];
      if v < k {
        var next := visit + [Step(SearchLeft, Some(k), snap)];
        SearchTraceOutcome(l, v, snap, next);
        assert next[..|acc|] == acc;
        assert v !in Keys(r);
      } else if v > k {
        var next := visit + [Step(SearchRight, Some(k), snap)];
        SearchTraceOutcome(r, v, snap, next);
        assert next[..|acc|] == acc;
        assert v !in Keys(l);
      }
  }

  /** The insertion descent ends with `duplicate` exactly when the key is
      present; every step it adds is a `compare` or that `duplicate`. */
  lemma {:induction false} CompareTraceOutcome(t: Tree, v: int, snap: Tree, acc: seq<Step>)
    requires IsBST(t)
    ensures |CompareTrace(t, v, snap, acc)| >= |acc|
    ensures CompareTrace(t, v, snap, acc)[..|acc|] == acc
    ensures var s := CompareTrace(t, v, snap, acc);
            (|s| > |acc| && s[|s| - 1] == Step(Duplicate, Some(v), snap)) <==> v in Keys(t)
    ensures var s := CompareTrace(t, v, snap, acc);
            forall i :: |acc| <= i < |s| ==> s[i].kind in {Compare, Duplicate}
  {
    match t
    case Nil =>
    case Node(k, _, l, r) =>
      var visit := acc + [Step(Compare, Some(k), snap)];
      if v < k {
        CompareTraceOutcome(l, v, snap, visit);
        assert visit[..|acc|] == acc;
        assert v !in Keys(r);
      } else if v > k {
        CompareTraceOutcome(r, v, snap, visit);
        assert visit[..|acc|] == acc;
        assert v !in Keys(l);
      }
  }

  /** `s` is `s0` followed by steps whose kinds are all in `kinds`. */
  ghost predicate LogsOnly(s0: seq<Step>, s: seq<Step>, kinds: set<StepKind>) {
    s0 <= s && forall i :: |s0| <= i < |s| ==> s[i].kind in kinds
  }

  lemma LogsOnlyTrans(s0: seq<Step>, s1: seq<Step>, s2: seq<Step>, kinds: set<StepKind>)
    requires LogsOnly(s0, s1, kinds) && LogsOnly(s1, s2, kinds)
    ensures LogsOnly(s0, s2, kinds)
  {
  }

  /** The kinds of step fixInsert logs. */
  const FixInsertKinds: set<StepKind> := {Case1, Case2, Case3, RotateLeft, RotateRight, RootBlack}

  /** The kinds of step fixDelete logs. */
  const FixDeleteKinds: set<StepKind> :=
    {FixDeleteCase1, FixDeleteCase2, FixDeleteCase3, FixDeleteCase4, RotateLeft, RotateRight}
}
