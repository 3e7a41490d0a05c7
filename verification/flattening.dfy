/**
 * The read-only flattening view of `src/ResultTreeItem.ts`: chains of
 * single-child items collapse onto their deepest member, both over all
 * children and over the failed index, and the collapsed names make up a
 * dotted label.
 */
module ResultTreeFlattening {
  import opened Common
  import opened ResultTree
  import opened ResultTreeAggregation

  /** `canBeFlattened`: optimized, not a workspace folder, exactly one child. */
  predicate CanBeFlattened(n: Node) {
    n.optimized && n.kind != WorkspaceFolder && |n.children| == 1
  }

  /** `flattened`: follow the only child while the item can be flattened. */
  function Flattened(n: Node): (r: Node)
    ensures !CanBeFlattened(r)
    decreases n
  {
    if CanBeFlattened(n) then Flattened(n.children[0]) else n
  }

  /** The keys `flattened` follows from `n` down to its result. */
  function FlattenKeys(n: Node): seq<string>
    decreases n
  {
    if CanBeFlattened(n) then [n.children[0].name] + FlattenKeys(n.children[0]) else []
  }

  /**
   * `flattened` ends at the node the collapsed keys lead to, and every node
   * it passes through on the way can be flattened.
   */
  lemma {:induction false} FlattenedIsReached(n: Node)
    ensures GetByPathArray(n, FlattenKeys(n)) == Some(Flattened(n))
    ensures forall i :: 0 <= i < |FlattenKeys(n)| ==>
      GetByPathArray(n, FlattenKeys(n)[..i]).Some? && CanBeFlattened(GetByPathArray(n, FlattenKeys(n)[..i]).value)
    decreases n
  {
    if CanBeFlattened(n) {
      var c := n.children[0];
      var keys := FlattenKeys(n);
      FlattenedIsReached(c);
      assert IndexOf(n.children, c.name) == Some(0);
      assert keys[1..] == FlattenKeys(c);
      forall i | 0 <= i < |keys|
        ensures GetByPathArray(n, keys[..i]).Some? && CanBeFlattened(GetByPathArray(n, keys[..i]).value)
      {
        if i > 0 {
          assert keys[..i][0] == c.name && keys[..i][1..] == FlattenKeys(c)[..i - 1];
        }
      }
    }
  }

  /** `flattened` of each item of a child sequence, in order. */
  function FlattenAll(cs: seq<Node>): (r: seq<Node>)
    ensures |r| == |cs|
    ensures forall i :: 0 <= i < |r| ==> !CanBeFlattened(r[i])
  {
    if cs == [] then [] else [Flattened(cs[0])] + FlattenAll(cs[1..])
  }

  /** `flattenedChildren`. */
  function FlattenedChildren(n: Node): seq<Node> {
    FlattenAll(n.children)
  }

  /**
   * On a well-formed tree the i-th flattened child is the node found by the
   * i-th child's key followed by that child's collapsed keys.
   */
  lemma {:induction false} FlattenedChildrenAreReached(n: Node, i: nat)
    requires WellFormed(n) && i < |n.children|
    ensures GetByPathArray(n, [n.children[i].name] + FlattenKeys(n.children[i])) == Some(FlattenedChildren(n)[i])
  {
    var c := n.children[i];
    ChildOfUnique(n.children, i);
    FlattenedIsReached(c);
    FlattenAllAt(n.children, i);
    assert ([c.name] + FlattenKeys(c))[1..] == FlattenKeys(c);
  }

  lemma {:induction false} FlattenAllAt(cs: seq<Node>, i: nat)
    requires i < |cs|
    ensures FlattenAll(cs)[i] == Flattened(cs[i])
  {
    if i > 0 {
      FlattenAllAt(cs[1..], i - 1);
    }
  }

  /**
   * `flattenedFailed`: a flattenable item continues with `flattened` of its
   * first failed child; with no failed child the source reads a property of
   * `undefined` and throws (`None`).
   */
  function FlattenedFailed(n: Node): Option<Node> {
    if CanBeFlattened(n) then
      if n.failedChildren == [] then None else Some(Flattened(n.failedChildren[0]))
    else Some(n)
  }

  /** `flattenedFailedChildren`: `flattenedFailed` of each failed child; a throw anywhere aborts. */
  function FlattenedFailedChildren(n: Node): Option<seq<Node>> {
    FlattenFailedAll(if n.optimized then n.failedChildren else n.children)
  }

  function FlattenFailedAll(cs: seq<Node>): Option<seq<Node>> {
    if cs == [] then Some([])
    else match (FlattenedFailed(cs[0]), FlattenFailedAll(cs[1..]))
      case (Some(x), Some(xs)) => Some([x] + xs)
      case _ => None
  }

  /** Test items have no children. */
  predicate TestsAreLeaves(n: Node)
    decreases n
  {
    && (IsTest(n) ==> n.children == [])
    && forall i :: 0 <= i < |n.children| ==> TestsAreLeaves(n.children[i])
  }

  /**
   * On an aggregated item with failures that is not itself a failed test,
   * `flattenedFailed` is `flattened`: the single child carries all failures.
   */
  lemma FlattenedFailedIsFlattened(n: Node)
    requires Aggregated(n) && n.failedTestCount > 0 && !IsFailedTest(n)
    ensures FlattenedFailed(n) == Some(Flattened(n))
  {
    if CanBeFlattened(n) {
      var c := n.children[0];
      assert n.children[1..] == [];
      assert SumFailed(n.children) == c.failedTestCount;
      assert n.failedChildren == [c];
    }
  }

  /** A flattenable item whose only child passes has no failed child to continue with, so `flattenedFailed` throws. */
  lemma FlattenedFailedThrowsOnPassingChild(n: Node)
    requires Aggregated(n) && CanBeFlattened(n) && n.children[0].failedTestCount == 0
    ensures FlattenedFailed(n) == None
  {
    assert n.children == [n.children[0]];
  }

  /**
   * On an aggregated tree whose tests are leaves, `flattenedFailedChildren`
   * never throws and is `flattened` of each failed child, in child order.
   */
  lemma {:induction false} FlattenedFailedChildrenOfAggregated(n: Node)
    requires Aggregated(n) && TestsAreLeaves(n)
    ensures FlattenedFailedChildren(n) == Some(FlattenAll(FailedOnly(n.children)))
  {
    var fs := FailedOnly(n.children);
    FailedOnlyElements(n.children);
    FlattenFailedAllOfFailures(fs);
  }

  lemma {:induction false} FailedOnlyElements(cs: seq<Node>)
    ensures forall i :: 0 <= i < |FailedOnly(cs)| ==> FailedOnly(cs)[i] in cs
  {
    if cs != [] {
      FailedOnlyElements(cs[1..]);
    }
  }

  lemma {:induction false} FlattenFailedAllOfFailures(cs: seq<Node>)
    requires forall i :: 0 <= i < |cs| ==> Aggregated(cs[i]) && TestsAreLeaves(cs[i]) && cs[i].failedTestCount > 0
    ensures FlattenFailedAll(cs) == Some(FlattenAll(cs))
  {
    if cs != [] {
      var c := cs[0];
      if IsFailedTest(c) {
        assert c.children == [];
      } else {
        FlattenedFailedIsFlattened(c);
      }
      FlattenFailedAllOfFailures(cs[1..]);
    }
  }

  /** No item on the chain that `flattened` collapses is a test. */
  predicate ChainNotTest(n: Node)
    decreases n
  {
    CanBeFlattened(n) ==> !IsTest(n) && ChainNotTest(n.children[0])
  }

  /** A tree whose tests are leaves collapses no test. */
  lemma {:induction false} LeavesChainNotTest(n: Node)
    requires TestsAreLeaves(n)
    ensures ChainNotTest(n)
    decreases n
  {
    if CanBeFlattened(n) {
      assert TestsAreLeaves(n.children[0]);
      LeavesChainNotTest(n.children[0]);
    }
  }

  /** When the collapsed items are not tests, `flattened` keeps both counts. */
  lemma {:induction false} FlattenedKeepsCounts(n: Node)
    requires Aggregated(n) && ChainNotTest(n)
    ensures Flattened(n).testCount == n.testCount
    ensures Flattened(n).failedTestCount == n.failedTestCount
    decreases n
  {
    if CanBeFlattened(n) {
      var c := n.children[0];
      assert n.children[1..] == [];
      assert SumTests(n.children) == c.testCount;
      assert SumFailed(n.children) == c.failedTestCount;
      FlattenedKeepsCounts(c);
    }
  }

  /** After `optimize`, an item can be flattened exactly when it is no workspace folder and has one child. */
  lemma OptimizedFlattenable(n: Node)
    ensures CanBeFlattened(Optimize(n)) <==> n.kind != WorkspaceFolder && |n.children| == 1
  {
    assert |Names(Optimize(n).children)| == |Names(n.children)|;
  }

  // ---------------------------------------------------------------------
  // flattenedLabel
  // ---------------------------------------------------------------------

  /** How many of the nearest ancestors (root first, parent last) can be flattened, without a gap. */
  function TrailingFlattenable(ancestors: seq<Node>): (k: nat)
    ensures k <= |ancestors|
  {
    if ancestors == [] || !CanBeFlattened(ancestors[|ancestors| - 1]) then 0
    else 1 + TrailingFlattenable(ancestors[..|ancestors| - 1])
  }

  /**
   * The run is the longest suffix of flattenable ancestors: every member can
   * be flattened and the ancestor just above it, if any, cannot.
   */
  lemma {:induction false} TrailingFlattenableIsMaximal(ancestors: seq<Node>)
    ensures var k := TrailingFlattenable(ancestors);
      && (forall i :: |ancestors| - k <= i < |ancestors| ==> CanBeFlattened(ancestors[i]))
      && (k < |ancestors| ==> !CanBeFlattened(ancestors[|ancestors| - k - 1]))
  {
    if ancestors != [] && CanBeFlattened(ancestors[|ancestors| - 1]) {
      var init := ancestors[..|ancestors| - 1];
      TrailingFlattenableIsMaximal(init);
      var k := TrailingFlattenable(ancestors);
      forall i | |ancestors| - k <= i < |ancestors|
        ensures CanBeFlattened(ancestors[i])
      {
        if i < |ancestors| - 1 {
          assert ancestors[i] == init[i];
        }
      }
      if k < |ancestors| {
        assert ancestors[|ancestors| - k - 1] == init[|init| - (k - 1) - 1];
      }
    }
  }

  /**
   * `flattenedLabel` of `n` under `ancestors`: when the parent can be
   * flattened, the names of the flattenable ancestor run and of `n` joined
   * with dots; otherwise the current `label`.
   */
  function FlattenedLabel(ancestors: seq<Node>, n: Node, currentLabel: string): string {
    var k := TrailingFlattenable(ancestors);
    if k == 0 then currentLabel else Join(Names(ancestors[(|ancestors| - k)..]) + [n.name], ".")
  }

  /**
   * With dot-free names the flattened label splits back into the collapsed
   * ancestors' names followed by the item's own name.
   */
  lemma FlattenedLabelSplits(ancestors: seq<Node>, n: Node, currentLabel: string)
    requires '.' !in n.name && forall i :: 0 <= i < |ancestors| ==> '.' !in ancestors[i].name
    ensures TrailingFlattenable(ancestors) == 0 ==> FlattenedLabel(ancestors, n, currentLabel) == currentLabel
    ensures var k := TrailingFlattenable(ancestors);
      k > 0 ==> Split(FlattenedLabel(ancestors, n, currentLabel), '.') == Names(ancestors[(|ancestors| - k)..]) + [n.name]
  {
    var k := TrailingFlattenable(ancestors);
    if k > 0 {
      RunLabelSplits(ancestors, |ancestors| - k, n);
    }
  }

  /** The dotted label of a run of ancestors and an item splits back into their names. */
  lemma RunLabelSplits(ancestors: seq<Node>, from: nat, n: Node)
    requires from <= |ancestors|
    requires '.' !in n.name && forall i :: 0 <= i < |ancestors| ==> '.' !in ancestors[i].name
    ensures Split(Join(Names(ancestors[from..]) + [n.name], "."), '.') == Names(ancestors[from..]) + [n.name]
  {
    LabelPartsDotFree(ancestors, from, n);
    SplitJoin(Names(ancestors[from..]) + [n.name], '.');
  }

  lemma LabelPartsDotFree(ancestors: seq<Node>, from: nat, n: Node)
    requires from <= |ancestors|
    requires '.' !in n.name && forall i :: 0 <= i < |ancestors| ==> '.' !in ancestors[i].name
    ensures var parts := Names(ancestors[from..]) + [n.name];
      forall i :: 0 <= i < |parts| ==> '.' !in parts[i]
  {
    var run := ancestors[from..];
    var parts := Names(run) + [n.name];
    forall i | 0 <= i < |parts| ensures '.' !in parts[i] {
      if i < |run| {
        assert parts[i] == run[i].name == ancestors[from + i].name;
      }
    }
  }
}
