/**
 * `optimize` and the failed-test queries of `src/ResultTreeItem.ts`: the
 * bottom-up recomputation of `testCount`, `failedTestCount` and the
 * `failedChildren` index, the walk through that index, and the pre-order
 * collection of failed tests.
 */
module ResultTreeAggregation {
  import opened Common
  import opened ResultTree

  /** 1 for a Test node, else 0. */
  function OwnTests(n: Node): nat {
    if IsTest(n) then 1 else 0
  }

  /** 1 for a Test node with a failure message, else 0. */
  function OwnFailed(n: Node): nat {
    if IsFailedTest(n) then 1 else 0
  }

  /** The sum of the children's `testCount`. */
  function SumTests(cs: seq<Node>): int {
    if cs == [] then 0 else cs[0].testCount + SumTests(cs[1..])
  }

  /** The sum of the children's `failedTestCount`. */
  function SumFailed(cs: seq<Node>): int {
    if cs == [] then 0 else cs[0].failedTestCount + SumFailed(cs[1..])
  }

  /** The children with a positive failed count, in child order. */
  function FailedOnly(cs: seq<Node>): (r: seq<Node>)
    ensures |r| <= |cs|
    ensures forall i :: 0 <= i < |r| ==> r[i].failedTestCount > 0
  {
    if cs == [] then []
    else if cs[0].failedTestCount > 0 then [cs[0]] + FailedOnly(cs[1..])
    else FailedOnly(cs[1..])
  }

  // ---------------------------------------------------------------------
  // optimize
  // ---------------------------------------------------------------------

  /**
   * `optimize`: optimize every child, then recount from scratch: the node's
   * own test plus the children's tests, the children's failures plus its own,
   * and the children with failures as the failed index.
   */
  function Optimize(n: Node): (r: Node)
    ensures r.name == n.name && r.kind == n.kind && r.data == n.data && r.optimized
    ensures Names(r.children) == Names(n.children)
    decreases n
  {
    var cs := OptimizeAll(n.children);
    n.(children := cs,
       failedChildren := FailedOnly(cs),
       testCount := OwnTests(n) + SumTests(cs),
       failedTestCount := SumFailed(cs) + OwnFailed(n),
       optimized := true)
  }

  /** `optimize` applied to each child in turn. */
  function OptimizeAll(cs: seq<Node>): (r: seq<Node>)
    ensures |r| == |cs|
    ensures forall i :: 0 <= i < |cs| ==> r[i].name == cs[i].name && r[i].kind == cs[i].kind
    decreases cs
  {
    if cs == [] then [] else [Optimize(cs[0])] + OptimizeAll(cs[1..])
  }

  /** The counts and the failed index agree with the children, at every node. */
  predicate Aggregated(n: Node)
    decreases n
  {
    && n.optimized
    && n.testCount == OwnTests(n) + SumTests(n.children)
    && n.failedTestCount == SumFailed(n.children) + OwnFailed(n)
    && n.failedChildren == FailedOnly(n.children)
    && forall i :: 0 <= i < |n.children| ==> Aggregated(n.children[i])
  }

  lemma {:induction false} OptimizeAggregates(n: Node)
    ensures Aggregated(Optimize(n))
    decreases n
  {
    OptimizeAllAggregates(n.children);
  }

  lemma {:induction false} OptimizeAllAggregates(cs: seq<Node>)
    ensures forall i :: 0 <= i < |cs| ==> Aggregated(OptimizeAll(cs)[i])
    decreases cs
  {
    if cs != [] {
      OptimizeAggregates(cs[0]);
      OptimizeAllAggregates(cs[1..]);
    }
  }

  /** An aggregated tree is left as it is by `optimize`. */
  lemma {:induction false} AggregatedIsFixed(n: Node)
    requires Aggregated(n)
    ensures Optimize(n) == n
    decreases n
  {
    AggregatedAllFixed(n.children);
  }

  lemma {:induction false} AggregatedAllFixed(cs: seq<Node>)
    requires forall i :: 0 <= i < |cs| ==> Aggregated(cs[i])
    ensures OptimizeAll(cs) == cs
    decreases cs
  {
    if cs != [] {
      AggregatedIsFixed(cs[0]);
      AggregatedAllFixed(cs[1..]);
      assert [cs[0]] + cs[1..] == cs;
    }
  }

  /** Running `optimize` twice gives the same tree as running it once. */
  lemma OptimizeIdempotent(n: Node)
    ensures Optimize(Optimize(n)) == Optimize(n)
  {
    OptimizeAggregates(n);
    AggregatedIsFixed(Optimize(n));
  }

  /** After `clearResults`, `optimize` counts the node's own test only, and no failure. */
  lemma OptimizeAfterClear(n: Node)
    ensures Optimize(ClearResults(n)).testCount == OwnTests(n)
    ensures Optimize(ClearResults(n)).failedTestCount == 0
    ensures Optimize(ClearResults(n)).failedChildren == []
  {
    assert ClearResults(n).children == [];
  }

  // ---------------------------------------------------------------------
  // Pre-order and the meaning of the counts
  // ---------------------------------------------------------------------

  /** The node followed by its subtrees in child order. */
  function Preorder(n: Node): (s: seq<Node>)
    ensures |s| >= 1 && s[0] == n
    decreases n
  {
    [n] + PreorderAll(n.children)
  }

  function PreorderAll(cs: seq<Node>): seq<Node>
    decreases cs
  {
    if cs == [] then [] else Preorder(cs[0]) + PreorderAll(cs[1..])
  }

  /** The number of Test nodes in a sequence. */
  function CountTests(s: seq<Node>): nat {
    if s == [] then 0 else OwnTests(s[0]) + CountTests(s[1..])
  }

  /** The failed Test nodes of a sequence, in order. */
  function FailedTests(s: seq<Node>): (r: seq<Node>)
    ensures forall i :: 0 <= i < |r| ==> IsFailedTest(r[i])
  {
    if s == [] then []
    else if IsFailedTest(s[0]) then [s[0]] + FailedTests(s[1..])
    else FailedTests(s[1..])
  }

  lemma {:induction false} CountTestsAppend(a: seq<Node>, b: seq<Node>)
    ensures CountTests(a + b) == CountTests(a) + CountTests(b)
  {
    if a != [] {
      assert (a + b)[1..] == a[1..] + b;
      CountTestsAppend(a[1..], b);
    } else {
      assert a + b == b;
    }
  }

  lemma {:induction false} FailedTestsAppend(a: seq<Node>, b: seq<Node>)
    ensures FailedTests(a + b) == FailedTests(a) + FailedTests(b)
  {
    if a != [] {
      assert (a + b)[1..] == a[1..] + b;
      FailedTestsAppend(a[1..], b);
    } else {
      assert a + b == b;
    }
  }

  lemma FailedTestsMembership(s: seq<Node>, x: Node)
    ensures x in FailedTests(s) <==> x in s && IsFailedTest(x)
  {
  }

  /**
   * After `optimize`, `testCount` is the number of Test nodes in the subtree
   * and `failedTestCount` the number of failed ones.
   */
  lemma {:induction false} OptimizeCountsSubtree(n: Node)
    ensures Optimize(n).testCount == CountTests(Preorder(n))
    ensures Optimize(n).failedTestCount == |FailedTests(Preorder(n))|
    decreases n
  {
    OptimizeAllCountsSubtrees(n.children);
    CountTestsAppend([n], PreorderAll(n.children));
    FailedTestsAppend([n], PreorderAll(n.children));
  }

  lemma {:induction false} OptimizeAllCountsSubtrees(cs: seq<Node>)
    ensures SumTests(OptimizeAll(cs)) == CountTests(PreorderAll(cs))
    ensures SumFailed(OptimizeAll(cs)) == |FailedTests(PreorderAll(cs))|
    decreases cs
  {
    if cs != [] {
      var r := OptimizeAll(cs);
      assert r[0] == Optimize(cs[0]) && r[1..] == OptimizeAll(cs[1..]);
      OptimizeCountsSubtree(cs[0]);
      OptimizeAllCountsSubtrees(cs[1..]);
      CountTestsAppend(Preorder(cs[0]), PreorderAll(cs[1..]));
      FailedTestsAppend(Preorder(cs[0]), PreorderAll(cs[1..]));
    }
  }

  // ---------------------------------------------------------------------
  // getAllFailedTestResultItems
  // ---------------------------------------------------------------------

  /** `_getAllFailedTestResultItems`: push the node if it is a failed test, then visit the children. */
  function CollectFailed(n: Node, acc: seq<Node>): seq<Node>
    decreases n
  {
    CollectFailedAll(n.children, if IsFailedTest(n) then acc + [n] else acc)
  }

  function CollectFailedAll(cs: seq<Node>, acc: seq<Node>): seq<Node>
    decreases cs
  {
    if cs == [] then acc else CollectFailedAll(cs[1..], CollectFailed(cs[0], acc))
  }

  /** `getAllFailedTestResultItems`: collect into an empty list. */
  function GetAllFailedTestResultItems(n: Node): seq<Node> {
    CollectFailed(n, [])
  }

  lemma {:induction false} CollectFailedAppends(n: Node, acc: seq<Node>)
    ensures CollectFailed(n, acc) == acc + FailedTests(Preorder(n))
    decreases n
  {
    var acc1 := if IsFailedTest(n) then acc + [n] else acc;
    CollectFailedAllAppends(n.children, acc1);
    FailedTestsAppend([n], PreorderAll(n.children));
    assert ([n] + PreorderAll(n.children))[1..] == PreorderAll(n.children);
  }

  lemma {:induction false} CollectFailedAllAppends(cs: seq<Node>, acc: seq<Node>)
    ensures CollectFailedAll(cs, acc) == acc + FailedTests(PreorderAll(cs))
    decreases cs
  {
    if cs == [] {
      assert acc + [] == acc;
    } else {
      CollectFailedAppends(cs[0], acc);
      CollectFailedAllAppends(cs[1..], CollectFailed(cs[0], acc));
      FailedTestsAppend(Preorder(cs[0]), PreorderAll(cs[1..]));
    }
  }

  /**
   * The collected failures are the failed Test nodes of the subtree in
   * pre-order, each position once; their number is what `optimize` counts.
   */
  lemma AllFailedArePreorderFailures(n: Node)
    ensures GetAllFailedTestResultItems(n) == FailedTests(Preorder(n))
    ensures |GetAllFailedTestResultItems(n)| == Optimize(n).failedTestCount
    ensures forall x :: x in GetAllFailedTestResultItems(n) <==> x in Preorder(n) && IsFailedTest(x)
  {
    CollectFailedAppends(n, []);
    assert [] + FailedTests(Preorder(n)) == FailedTests(Preorder(n));
    OptimizeCountsSubtree(n);
    forall x ensures x in GetAllFailedTestResultItems(n) <==> x in Preorder(n) && IsFailedTest(x) {
      FailedTestsMembership(Preorder(n), x);
    }
  }

  /** Every node a lookup finds is in the pre-order of the tree. */
  lemma {:induction false} LookupInPreorder(n: Node, p: seq<string>)
    requires GetByPathArray(n, p).Some?
    ensures GetByPathArray(n, p).value in Preorder(n)
    decreases |p|
  {
    if p != [] {
      var i := IndexOf(n.children, p[0]).value;
      var c := n.children[i];
      LookupInPreorder(c, p[1..]);
      PreorderAllContains(n.children, i);
    }
  }

  lemma {:induction false} PreorderAllContains(cs: seq<Node>, i: nat)
    requires i < |cs|
    ensures forall x :: x in Preorder(cs[i]) ==> x in PreorderAll(cs)
    decreases cs
  {
    if i > 0 {
      PreorderAllContains(cs[1..], i - 1);
    }
  }

  /** On a well-formed tree every pre-order node is found by some path. */
  lemma {:induction false} PreorderReachable(n: Node, x: Node) returns (p: seq<string>)
    requires WellFormed(n) && x in Preorder(n)
    ensures GetByPathArray(n, p) == Some(x)
    decreases n
  {
    if x == n {
      p := [];
    } else {
      var i := PreorderAllIndex(n.children, x);
      var c := n.children[i];
      ChildOfUnique(n.children, i);
      var q := PreorderReachable(c, x);
      p := [c.name] + q;
      assert p[1..] == q;
    }
  }

  /** The child whose subtree holds a node of the children's pre-order. */
  lemma {:induction false} PreorderAllIndex(cs: seq<Node>, x: Node) returns (i: nat)
    requires x in PreorderAll(cs)
    ensures i < |cs| && x in Preorder(cs[i])
    decreases cs
  {
    if x in Preorder(cs[0]) {
      i := 0;
    } else {
      var j := PreorderAllIndex(cs[1..], x);
      i := j + 1;
    }
  }

  // ---------------------------------------------------------------------
  // getFailedByPathArray / containsFailed
  // ---------------------------------------------------------------------

  /** `getFailedByPathArray`: the lookup walk through `failedChildren`. */
  function GetFailedByPathArray(n: Node, path: seq<string>): Option<Node>
    decreases |path|
  {
    if path == [] then Some(n)
    else match Child(n.failedChildren, path[0])
      case None => None
      case Some(c) => GetFailedByPathArray(c, path[1..])
  }

  /** `getFailedByDottedPath`. */
  function GetFailedByDottedPath(n: Node, dotted: string): Option<Node> {
    if dotted == "" then None else GetFailedByPathArray(n, Split(dotted, '.'))
  }

  /** `containsFailed`: optimized, with at least one failed test. */
  predicate ContainsFailed(n: Node) {
    n.optimized && n.failedTestCount > 0
  }

  /** With unique keys, the failed index holds a key exactly when its child has failures. */
  lemma {:induction false} ChildOfFailedOnly(cs: seq<Node>, k: string)
    requires UniqueNames(cs)
    ensures Child(FailedOnly(cs), k) ==
      if Child(cs, k).Some? && Child(cs, k).value.failedTestCount > 0 then Child(cs, k) else None
  {
    if cs != [] {
      assert UniqueNames(cs[1..]);
      ChildOfFailedOnly(cs[1..], k);
      if cs[0].name == k {
        assert k !in Names(cs[1..]);
      }
    }
  }

  lemma {:induction false} SumFailedNonNegative(cs: seq<Node>)
    requires forall i :: 0 <= i < |cs| ==> cs[i].failedTestCount >= 0
    ensures SumFailed(cs) >= 0
  {
    if cs != [] {
      SumFailedNonNegative(cs[1..]);
    }
  }

  lemma {:induction false} SumFailedBoundsElement(cs: seq<Node>, i: nat)
    requires i < |cs|
    requires forall j :: 0 <= j < |cs| ==> cs[j].failedTestCount >= 0
    ensures cs[i].failedTestCount <= SumFailed(cs)
  {
    if i == 0 {
      SumFailedNonNegative(cs[1..]);
    } else {
      SumFailedBoundsElement(cs[1..], i - 1);
    }
  }

  lemma {:induction false} AggregatedNonNegative(n: Node)
    requires Aggregated(n)
    ensures n.failedTestCount >= 0
    decreases n
  {
    forall i | 0 <= i < |n.children| ensures n.children[i].failedTestCount >= 0 {
      AggregatedNonNegative(n.children[i]);
    }
    SumFailedNonNegative(n.children);
  }

  /** In an aggregated tree no node has more failures than an ancestor. */
  lemma {:induction false} DescendantFailuresBounded(n: Node, p: seq<string>)
    requires Aggregated(n) && GetByPathArray(n, p).Some?
    ensures 0 <= GetByPathArray(n, p).value.failedTestCount <= n.failedTestCount
    decreases |p|
  {
    AggregatedNonNegative(n);
    if p != [] {
      var i := IndexOf(n.children, p[0]).value;
      DescendantFailuresBounded(n.children[i], p[1..]);
      forall j | 0 <= j < |n.children| ensures n.children[j].failedTestCount >= 0 {
        AggregatedNonNegative(n.children[j]);
      }
      SumFailedBoundsElement(n.children, i);
    }
  }

  /**
   * On an aggregated, well-formed tree a non-empty path finds a node through
   * the failed index exactly when the ordinary lookup finds it and it has
   * failures.
   */
  lemma {:induction false} FailedLookupIff(n: Node, p: seq<string>)
    requires Aggregated(n) && WellFormed(n) && p != []
    ensures GetFailedByPathArray(n, p) ==
      if GetByPathArray(n, p).Some? && GetByPathArray(n, p).value.failedTestCount > 0 then GetByPathArray(n, p) else None
    decreases |p|
  {
    ChildOfFailedOnly(n.children, p[0]);
    match Child(n.children, p[0])
    case None =>
    case Some(c) =>
      var i := IndexOf(n.children, p[0]).value;
      assert c == n.children[i];
      if p[1..] != [] {
        if c.failedTestCount > 0 {
          FailedLookupIff(c, p[1..]);
        } else if GetByPathArray(c, p[1..]).Some? {
          DescendantFailuresBounded(c, p[1..]);
        }
      }
  }

  /**
   * On an aggregated tree, a dotted path of non-empty, dot-free segments finds
   * a node in the failed index exactly when the plain dotted lookup finds it
   * and it has failures.
   */
  lemma FailedDottedLookupIff(n: Node, path: seq<string>)
    requires Aggregated(n) && WellFormed(n)
    requires |path| >= 1
    requires forall i :: 0 <= i < |path| ==> path[i] != "" && '.' !in path[i]
    ensures var plain := GetByDottedPath(n, Join(path, "."));
      GetFailedByDottedPath(n, Join(path, ".")) ==
        if plain.Some? && plain.value.failedTestCount > 0 then plain else None
  {
    JoinSingletonFree(path, ".");
    SplitJoin(path, '.');
    DottedLookupAgreesWithArrayLookup(n, path);
    FailedLookupIff(n, path);
  }

  /** `containsFailed` of an optimized tree holds exactly when some failed test is collected. */
  lemma ContainsFailedIffSomeFailure(n: Node)
    ensures ContainsFailed(Optimize(n)) <==> GetAllFailedTestResultItems(n) != []
  {
    AllFailedArePreorderFailures(n);
  }
}
