/**
 * The result tree of `src/ResultTreeItem.ts`: a tree of result items addressed
 * by code-path, with strict and replacing child insertion, insertion along a
 * dotted code-path or a slash-separated file path, and path lookup.
 *
 * The JavaScript `Map<string, ResultTreeItem>` of children is an
 * insertion-ordered sequence of nodes whose key is the node's own `name`
 * (every insertion in the source keys the map by the inserted item's name).
 * `Map.set` on a present key keeps that key's position (`Put`). Parent
 * back-links are replaced by path context: a node is identified by the
 * path that leads to it from the tree it is looked up in.
 */
module ResultTree {
  import opened Common

  /** The item kinds (`EResultTreeItemType`); `WorkspaceFolder` is the root subclass. */
  datatype Kind = WorkspaceFolder | Generic | File | Folder | TestCase | Test

  /** The item statuses this component assigns. */
  datatype Status = WaitingToStart | Done

  /** An opaque file-system location: a root directory and the segments joined under it. */
  datatype Location = Location(root: string, relative: seq<string>)

  /** The per-item data the tree operations carry along but never inspect. */
  datatype Data = Data(
    status: Status,
    fileLocation: Option<Location>,
    folderLocation: Option<Location>,
    line: Option<int>,
    failureMessage: Option<string>,
    runningTests: bool)

  /**
   * A result item. `failedChildren`, `testCount`, `failedTestCount` are
   * derived by `optimize`; `optimized` records that it has run.
   */
  datatype Node = Node(
    name: string,
    kind: Kind,
    data: Data,
    children: seq<Node>,
    failedChildren: seq<Node>,
    testCount: int,
    failedTestCount: int,
    optimized: bool)

  /** The structural errors the tree operations throw. */
  datatype TreeError =
    | NamelessItem                 // the inserted item has an empty name
    | DuplicateChild(name: string) // strict insertion of a name that is already a key
    | ExistingSegment(name: string) // a path segment exists and reuse was not requested

  /** The tree after an operation, and what the operation returned or threw.
      A throw can leave earlier mutations in place, so the tree is kept either way. */
  datatype Outcome<+T> = Outcome(tree: Node, result: Result<T, TreeError>)

  /** A fresh item: no children, zero counts, not optimized, status Done. */
  function NewItem(name: string, kind: Kind): Node {
    Node(name, kind, Data(Done, None, None, None, None, false), [], [], 0, 0, false)
  }

  predicate IsTest(n: Node) {
    n.kind == Test
  }

  predicate IsFailedTest(n: Node) {
    n.kind == Test && n.data.failureMessage.Some?
  }

  predicate IsPassedTest(n: Node) {
    n.kind == Test && n.data.failureMessage.None?
  }

  // ---------------------------------------------------------------------
  // The ordered child map
  // ---------------------------------------------------------------------

  /** The keys of a child sequence, in insertion order. */
  function Names(cs: seq<Node>): (ks: seq<string>)
    ensures |ks| == |cs|
    ensures forall i :: 0 <= i < |cs| ==> ks[i] == cs[i].name
  {
    if cs == [] then [] else [cs[0].name] + Names(cs[1..])
  }

  lemma NamesAppend(cs: seq<Node>, x: Node)
    ensures Names(cs + [x]) == Names(cs) + [x.name]
  {
    assert Names(cs + [x]) == Names(cs) + [x.name];
  }

  /** Position of the entry with key `k`. */
  function IndexOf(cs: seq<Node>, k: string): (r: Option<nat>)
    ensures r.Some? ==> r.value < |cs| && cs[r.value].name == k
    ensures r.Some? ==> forall j :: 0 <= j < r.value ==> cs[j].name != k
    ensures r.None? <==> k !in Names(cs)
  {
    if cs == [] then None
    else if cs[0].name == k then Some(0)
    else match IndexOf(cs[1..], k)
      case None => None
      case Some(i) => Some(i + 1)
  }

  /** `Map.get`: the entry with key `k`, if any. */
  function Child(cs: seq<Node>, k: string): (r: Option<Node>)
    ensures r.Some? <==> k in Names(cs)
    ensures r.Some? ==> r.value.name == k
  {
    match IndexOf(cs, k)
    case None => None
    case Some(i) => Some(cs[i])
  }

  /** `Map.set(x.name, x)`: replace the entry in place, or append a new one. */
  function Put(cs: seq<Node>, x: Node): (r: seq<Node>)
    ensures Child(r, x.name) == Some(x)
    ensures |r| == if x.name in Names(cs) then |cs| else |cs| + 1
  {
    match IndexOf(cs, x.name)
    case Some(i) =>
      var r := cs[i := x];
      assert Names(r) == Names(cs);
      assert IndexOf(r, x.name) == Some(i);
      r
    case None =>
      IndexOfAppend(cs, x, x.name);
      cs + [x]
  }

  /** `Map.set` keeps the key order, adding a new key at the end. */
  lemma PutNames(cs: seq<Node>, x: Node)
    ensures Names(Put(cs, x)) == if x.name in Names(cs) then Names(cs) else Names(cs) + [x.name]
  {
    match IndexOf(cs, x.name)
    case None =>
      NamesAppend(cs, x);
    case Some(i) =>
      var r := cs[i := x];
      assert forall j :: 0 <= j < |r| ==> Names(r)[j] == Names(cs)[j];
  }

  /** `Map.set` leaves every other key's entry alone. */
  lemma PutOther(cs: seq<Node>, x: Node, k: string)
    requires k != x.name
    ensures Child(Put(cs, x), k) == Child(cs, k)
  {
    match IndexOf(cs, x.name)
    case Some(i) => IndexOfUpdate(cs, i, x, k);
    case None => IndexOfAppend(cs, x, k);
  }

  /** Every entry after `Map.set` is the new one or the entry that was at the same position. */
  lemma PutElements(cs: seq<Node>, x: Node)
    ensures forall i :: 0 <= i < |Put(cs, x)| ==> Put(cs, x)[i] == x || (i < |cs| && Put(cs, x)[i] == cs[i])
  {
  }

  /** Replacing an entry by one with the same key moves no key. */
  lemma IndexOfUpdate(cs: seq<Node>, i: nat, x: Node, k: string)
    requires i < |cs| && cs[i].name == x.name
    ensures IndexOf(cs[i := x], k) == IndexOf(cs, k)
  {
    var r := cs[i := x];
    assert forall j :: 0 <= j < |r| ==> Names(r)[j] == Names(cs)[j];
    IndexOfByNames(r, cs, k);
  }

  /** The position of a key depends on the keys alone. */
  lemma IndexOfByNames(cs: seq<Node>, ds: seq<Node>, k: string)
    requires Names(cs) == Names(ds)
    ensures IndexOf(cs, k) == IndexOf(ds, k)
  {
    var a, b := IndexOf(cs, k), IndexOf(ds, k);
    if a.Some? && b.Some? {
      var i, j := a.value, b.value;
      assert ds[i].name == Names(cs)[i] == k;
      assert cs[j].name == Names(ds)[j] == k;
      if i < j {
        assert false;
      } else if j < i {
        assert false;
      }
    }
  }

  lemma {:induction false} IndexOfAppend(cs: seq<Node>, x: Node, k: string)
    ensures k != x.name ==> IndexOf(cs + [x], k) == IndexOf(cs, k)
    ensures k == x.name && k !in Names(cs) ==> IndexOf(cs + [x], k) == Some(|cs|)
  {
    if cs != [] {
      assert (cs + [x])[1..] == cs[1..] + [x];
      IndexOfAppend(cs[1..], x, k);
    }
  }

  /** Keys are unique within one child sequence. */
  predicate UniqueNames(cs: seq<Node>) {
    forall i, j :: 0 <= i < j < |cs| ==> cs[i].name != cs[j].name
  }

  /** The structural invariant every insertion keeps: unique, non-empty keys at every level. */
  predicate WellFormed(n: Node)
    decreases n
  {
    && UniqueNames(n.children)
    && "" !in Names(n.children)
    && forall i :: 0 <= i < |n.children| ==> WellFormed(n.children[i])
  }

  lemma ChildOfUnique(cs: seq<Node>, i: nat)
    requires UniqueNames(cs) && i < |cs|
    ensures Child(cs, cs[i].name) == Some(cs[i])
  {
  }

  lemma {:induction false} PutKeepsUnique(cs: seq<Node>, x: Node)
    requires UniqueNames(cs)
    ensures UniqueNames(Put(cs, x))
  {
    PutNames(cs, x);
    if x.name in Names(cs) {
      PutKeepsUniqueReplace(cs, x);
    } else {
      PutKeepsUniqueAppend(cs, x);
    }
  }

  lemma PutKeepsUniqueReplace(cs: seq<Node>, x: Node)
    requires UniqueNames(cs) && Names(Put(cs, x)) == Names(cs)
    ensures UniqueNames(Put(cs, x))
  {
    var r := Put(cs, x);
    forall i, j | 0 <= i < j < |r| ensures r[i].name != r[j].name {
      assert Names(r)[i] == r[i].name && Names(r)[j] == r[j].name;
      assert Names(cs)[i] == cs[i].name && Names(cs)[j] == cs[j].name;
    }
  }

  lemma PutKeepsUniqueAppend(cs: seq<Node>, x: Node)
    requires UniqueNames(cs) && x.name !in Names(cs) && Names(Put(cs, x)) == Names(cs) + [x.name]
    ensures UniqueNames(Put(cs, x))
  {
    var r := Put(cs, x);
    forall i, j | 0 <= i < j < |r| ensures r[i].name != r[j].name {
      assert Names(r)[i] == r[i].name && Names(r)[j] == r[j].name;
      assert Names(r)[i] == Names(cs)[i] == cs[i].name;
      if j < |cs| {
        assert Names(r)[j] == Names(cs)[j] == cs[j].name;
      }
    }
  }

  lemma PutKeepsWellFormed(n: Node, x: Node)
    requires WellFormed(n) && WellFormed(x) && x.name != ""
    ensures WellFormed(n.(children := Put(n.children, x)))
  {
    var r := Put(n.children, x);
    PutKeepsUnique(n.children, x);
    PutNames(n.children, x);
    PutElements(n.children, x);
    assert "" !in Names(r);
    forall i | 0 <= i < |r| ensures WellFormed(r[i]) {
      if r[i] != x {
        assert r[i] == n.children[i];
      }
    }
  }

  // ---------------------------------------------------------------------
  // addChild / addOrReplaceChild
  // ---------------------------------------------------------------------

  /** `addChild`: strict insertion; the item goes last in insertion order. */
  function AddChild(n: Node, item: Node): (r: Result<Node, TreeError>)
    ensures r.Success? <==> item.name != "" && item.name !in Names(n.children)
    ensures item.name == "" ==> r == Failure(NamelessItem)
    ensures item.name != "" && item.name in Names(n.children) ==> r == Failure(DuplicateChild(item.name))
    ensures r.Success? ==> r.value.(children := n.children) == n
    ensures r.Success? ==> Names(r.value.children) == Names(n.children) + [item.name]
    ensures r.Success? ==> Child(r.value.children, item.name) == Some(item)
  {
    if item.name == "" then Failure(NamelessItem)
    else if item.name in Names(n.children) then Failure(DuplicateChild(item.name))
    else
      var cs := n.children + [item];
      assert cs == Put(n.children, item);
      NamesAppend(n.children, item);
      Success(n.(children := cs))
  }

  /** A successful `addChild` is `Map.set` of a new key. */
  lemma AddChildIsPut(n: Node, item: Node)
    requires AddChild(n, item).Success?
    ensures AddChild(n, item).value.children == Put(n.children, item)
  {
  }

  /** `addOrReplaceChild`: returns whether an entry was replaced. */
  function AddOrReplaceChild(n: Node, item: Node): (r: Result<(Node, bool), TreeError>)
    ensures r.Success? <==> item.name != ""
    ensures r.Failure? ==> r.error == NamelessItem
    ensures r.Success? ==> r.value.1 == (item.name in Names(n.children))
    ensures r.Success? ==> r.value.0 == n.(children := Put(n.children, item))
  {
    if item.name == "" then Failure(NamelessItem)
    else if item.name in Names(n.children) then
      Success((n.(children := Put(n.children, item)), true))
    else
      match AddChild(n, item)
      case Success(m) => Success((m, false))
      case Failure(e) => Failure(e)
  }

  lemma AddChildKeepsWellFormed(n: Node, item: Node)
    requires WellFormed(n) && WellFormed(item)
    requires AddChild(n, item).Success?
    ensures WellFormed(AddChild(n, item).value)
  {
    assert AddChild(n, item).value == n.(children := Put(n.children, item));
    PutKeepsWellFormed(n, item);
  }

  /** A successful `addChild` leaves the entry of every other key as it was. */
  lemma AddChildKeepsOthers(n: Node, item: Node, k: string)
    requires AddChild(n, item).Success? && k != item.name
    ensures Child(AddChild(n, item).value.children, k) == Child(n.children, k)
  {
    AddChildIsPut(n, item);
    PutOther(n.children, item, k);
  }

  /**
   * After `addOrReplaceChild` the key leads to the item, every other key to
   * its old entry, and the key order is kept, with a new key added last.
   */
  lemma AddOrReplaceChildEntries(n: Node, item: Node, k: string)
    requires AddOrReplaceChild(n, item).Success?
    ensures var m := AddOrReplaceChild(n, item).value.0;
      && Child(m.children, item.name) == Some(item)
      && (k != item.name ==> Child(m.children, k) == Child(n.children, k))
      && Names(m.children) == if item.name in Names(n.children) then Names(n.children) else Names(n.children) + [item.name]
  {
    PutNames(n.children, item);
    if k != item.name {
      PutOther(n.children, item, k);
    }
  }

  // ---------------------------------------------------------------------
  // Path lookup
  // ---------------------------------------------------------------------

  /** `getByPathArray`: walk one key per level, relative to `n`. */
  function GetByPathArray(n: Node, path: seq<string>): Option<Node>
    decreases |path|
  {
    if path == [] then Some(n)
    else match Child(n.children, path[0])
      case None => None
      case Some(c) => GetByPathArray(c, path[1..])
  }

  /** `getByDottedPath`: the empty string finds nothing, otherwise split on `.`. */
  function GetByDottedPath(n: Node, dotted: string): Option<Node> {
    if dotted == "" then None else GetByPathArray(n, Split(dotted, '.'))
  }

  lemma {:induction false} GetByPathArrayConcat(n: Node, p: seq<string>, q: seq<string>)
    ensures GetByPathArray(n, p + q) ==
      match GetByPathArray(n, p)
      case None => None
      case Some(m) => GetByPathArray(m, q)
    decreases |p|
  {
    if p == [] {
      assert p + q == q;
    } else {
      assert (p + q)[0] == p[0] && (p + q)[1..] == p[1..] + q;
      match Child(n.children, p[0])
      case None =>
      case Some(c) => GetByPathArrayConcat(c, p[1..], q);
    }
  }

  /** The empty path finds the node itself, and the empty dotted path finds nothing. */
  lemma LookupEdges(n: Node)
    ensures GetByPathArray(n, []) == Some(n)
    ensures GetByDottedPath(n, "") == None
  {
  }

  /** A segment that is not a key of the node its prefix leads to makes the whole lookup miss. */
  lemma MissingSegmentMisses(n: Node, path: seq<string>, i: nat)
    requires i < |path| && GetByPathArray(n, path[..i]).Some?
    requires path[i] !in Names(GetByPathArray(n, path[..i]).value.children)
    ensures GetByPathArray(n, path) == None
  {
    SplitAt(path, i);
    GetByPathArrayConcat(n, path[..i], [path[i]] + path[i + 1..]);
    LookupCons(GetByPathArray(n, path[..i]).value, path[i], path[i + 1..]);
  }

  /** A dotted path made of non-empty, dot-free segments finds the same node as the segments. */
  lemma DottedLookupAgreesWithArrayLookup(n: Node, path: seq<string>)
    requires |path| >= 1
    requires forall i :: 0 <= i < |path| ==> path[i] != "" && '.' !in path[i]
    ensures GetByDottedPath(n, Join(path, ".")) == GetByPathArray(n, path)
  {
    JoinSingletonFree(path, ".");
    SplitJoin(path, '.');
  }

  /** `getClosestExistingParentPathArray`, the recursion below the first level. */
  function ClosestFrom(c: Node, path: seq<string>): seq<string>
    decreases |path|
  {
    if path == [] then []
    else [c.name] + match Child(c.children, path[0])
      case None => []
      case Some(d) => ClosestFrom(d, path[1..])
  }

  /** `getClosestExistingParentPathArray`: the keys of the deepest existing proper ancestor. */
  function GetClosestExistingParentPathArray(n: Node, path: seq<string>): seq<string> {
    if path == [] then []
    else match Child(n.children, path[0])
      case None => []
      case Some(c) => ClosestFrom(c, path[1..])
  }

  /**
   * The result is the longest proper prefix of `path` that exists below `n`:
   * it exists, and the prefix one segment longer (when still proper) does not.
   */
  lemma {:induction false} ClosestExistingParentIsLongestExistingPrefix(n: Node, path: seq<string>)
    ensures var r := GetClosestExistingParentPathArray(n, path);
      && |r| <= |path| && r == path[..|r|]
      && (path != [] ==> |r| < |path|)
      && GetByPathArray(n, r).Some?
      && (|r| + 1 < |path| ==> GetByPathArray(n, path[..|r| + 1]).None?)
    decreases |path|, 1
  {
    if path != [] {
      match Child(n.children, path[0])
      case None =>
        assert path[..1] == [path[0]];
      case Some(c) =>
        if |path| > 1 {
          ClosestThroughChild(n, path, c);
        }
    }
  }

  /** The step of the proof above through an existing first child. */
  lemma {:induction false} ClosestThroughChild(n: Node, path: seq<string>, c: Node)
    requires |path| > 1 && Child(n.children, path[0]) == Some(c)
    ensures var r := GetClosestExistingParentPathArray(n, path);
      && |r| <= |path| && r == path[..|r|]
      && (path != [] ==> |r| < |path|)
      && GetByPathArray(n, r).Some?
      && (|r| + 1 < |path| ==> GetByPathArray(n, path[..|r| + 1]).None?)
    decreases |path|, 0
  {
    var rest := path[1..];
    var r' := GetClosestExistingParentPathArray(c, rest);
    assert ClosestFrom(c, rest) == [c.name] + r';
    assert GetClosestExistingParentPathArray(n, path) == [path[0]] + r';
    assert |rest| < |path|;
    ClosestExistingParentIsLongestExistingPrefix(c, rest);
    PrefixCons(path, |r'|);
    LookupCons(n, path[0], r');
    if |r'| + 2 < |path| {
      PrefixCons(path, |r'| + 1);
      LookupCons(n, path[0], rest[..|r'| + 1]);
    }
  }

  // ---------------------------------------------------------------------
  // addChildRecursiveByPath
  // ---------------------------------------------------------------------

  /** `makeResultTreeItem`: the Generic node created for a missing path segment. */
  function MakeGeneric(name: string): Node {
    NewItem(name, Generic)
  }

  /**
   * One step of `addChildRecursiveByPath` below `n`: the parent afterwards
   * and the child to descend into. An existing child is reused only with
   * `skipExisting`; a missing one is created as a Generic node by `addChild`.
   */
  function Enter(n: Node, name: string, skipExisting: bool): (r: Result<(Node, Node), TreeError>)
    ensures r.Success? <==> if name in Names(n.children) then skipExisting else name != ""
    ensures r.Success? && name in Names(n.children) ==> r.value == (n, Child(n.children, name).value)
    ensures r.Success? && name !in Names(n.children) ==>
      r.value == (n.(children := n.children + [MakeGeneric(name)]), MakeGeneric(name))
    ensures r.Success? ==> r.value.1.name == name
  {
    match Child(n.children, name)
    case Some(child) =>
      if !skipExisting then Failure(ExistingSegment(name)) else Success((n, child))
    case None =>
      var child := MakeGeneric(name);
      match AddChild(n, child)
      case Failure(e) => Failure(e)
      case Success(n1) => Success((n1, child))
  }

  /**
   * `addChildRecursiveByPath`: walk `path` from `n`, creating Generic nodes
   * for missing segments (an existing segment throws unless `skipExisting`),
   * then `addOrReplaceChild` the item at the end. Nodes created before a
   * deeper throw stay in the tree, as in the mutable original.
   */
  function AddChildRecursiveByPath(n: Node, path: seq<string>, item: Node, skipExisting: bool): (o: Outcome<()>)
    ensures o.tree.(children := n.children) == n
    decreases |path|
  {
    if item.name == "" then Outcome(n, Failure(NamelessItem))
    else if path == [] then
      match AddOrReplaceChild(n, item)
      case Success(p) => Outcome(p.0, Success(()))
      case Failure(e) => Outcome(n, Failure(e))
    else
      match Enter(n, path[0], skipExisting)
      case Failure(e) => Outcome(n, Failure(e))
      case Success(p) =>
        var sub := AddChildRecursiveByPath(p.1, path[1..], item, skipExisting);
        Outcome(p.0.(children := Put(p.0.children, sub.tree)), sub.result)
  }

  /**
   * On a well-formed tree, insertion succeeds exactly when the item and every
   * segment have names, and (without `skipExisting`) the first segment is new.
   */
  lemma {:induction false} AddByPathSucceedsIff(n: Node, path: seq<string>, item: Node, skipExisting: bool)
    requires WellFormed(n)
    ensures AddChildRecursiveByPath(n, path, item, skipExisting).result.Success? <==>
      && item.name != ""
      && (forall i :: 0 <= i < |path| ==> path[i] != "")
      && (skipExisting || path == [] || path[0] !in Names(n.children))
    decreases |path|
  {
    var o := AddChildRecursiveByPath(n, path, item, skipExisting);
    if item.name != "" && path != [] {
      var name := path[0];
      var e := Enter(n, name, skipExisting);
      if e.Success? {
        var child := e.value.1;
        if name in Names(n.children) {
          ChildWellFormed(n, name);
          assert name != "";
        } else {
          assert child.children == [];
        }
        AddByPathSucceedsIff(child, path[1..], item, skipExisting);
        var sub := AddChildRecursiveByPath(child, path[1..], item, skipExisting);
        assert o.result == sub.result;
        NamedSegments(path);
      } else {
        assert o.result.Failure?;
      }
    }
  }

  lemma NamedSegments(path: seq<string>)
    requires path != []
    ensures (forall i :: 0 <= i < |path| ==> path[i] != "") <==>
      (path[0] != "" && forall i :: 0 <= i < |path[1..]| ==> path[1..][i] != "")
  {
    assert forall i :: 0 <= i < |path[1..]| ==> path[1..][i] == path[i + 1];
  }

  lemma ChildWellFormed(n: Node, k: string)
    requires WellFormed(n) && k in Names(n.children)
    ensures WellFormed(Child(n.children, k).value)
  {
    var i := IndexOf(n.children, k).value;
    assert n.children[i] == Child(n.children, k).value;
  }

  /** After a successful insertion the item is found at `path + [item.name]`. */
  lemma {:induction false} AddByPathThenLookup(n: Node, path: seq<string>, item: Node, skipExisting: bool)
    requires AddChildRecursiveByPath(n, path, item, skipExisting).result.Success?
    ensures GetByPathArray(AddChildRecursiveByPath(n, path, item, skipExisting).tree, path + [item.name]) == Some(item)
    decreases |path|
  {
    var o := AddChildRecursiveByPath(n, path, item, skipExisting);
    var full := path + [item.name];
    if path == [] {
      assert full == [item.name];
      assert GetByPathArray(item, full[1..]) == Some(item);
    } else {
      ResultThroughEntered(n, path, item, skipExisting);
      var child := Enter(n, path[0], skipExisting).value.1;
      assert |path[1..]| < |path|;
      AddByPathThenLookup(child, path[1..], item, skipExisting);
      ThroughEntered(n, path, item, skipExisting, path[1..] + [item.name]);
      AppendCons(path, item.name);
    }
  }

  /** Every segment that did not exist before a successful insertion is now a fresh Generic node. */
  lemma {:induction false} AddByPathCreatesGeneric(n: Node, path: seq<string>, item: Node, skipExisting: bool, i: nat)
    requires AddChildRecursiveByPath(n, path, item, skipExisting).result.Success?
    requires i < |path| && GetByPathArray(n, path[..i + 1]).None?
    ensures var m := GetByPathArray(AddChildRecursiveByPath(n, path, item, skipExisting).tree, path[..i + 1]);
      m.Some? && m.value.(children := []) == MakeGeneric(path[i])
    decreases |path|, 1
  {
    if i == 0 {
      CreatesGenericAtFirst(n, path, item, skipExisting);
    } else {
      CreatesGenericBelow(n, path, item, skipExisting, i);
    }
  }

  lemma CreatesGenericAtFirst(n: Node, path: seq<string>, item: Node, skipExisting: bool)
    requires AddChildRecursiveByPath(n, path, item, skipExisting).result.Success?
    requires 0 < |path| && GetByPathArray(n, path[..1]).None?
    ensures var m := GetByPathArray(AddChildRecursiveByPath(n, path, item, skipExisting).tree, path[..1]);
      m.Some? && m.value.(children := []) == MakeGeneric(path[0])
  {
    ResultThroughEntered(n, path, item, skipExisting);
    PrefixCons(path, 0);
    ThroughEntered(n, path, item, skipExisting, []);
    LookupCons(n, path[0], []);
    FirstMissingIsGeneric(n, path, item, skipExisting);
  }

  lemma FirstMissingIsGeneric(n: Node, path: seq<string>, item: Node, skipExisting: bool)
    requires path != [] && Enter(n, path[0], skipExisting).Success? && path[0] !in Names(n.children)
    ensures var child := Enter(n, path[0], skipExisting).value.1;
      AddChildRecursiveByPath(child, path[1..], item, skipExisting).tree.(children := []) == MakeGeneric(path[0])
  {
  }

  lemma {:induction false} CreatesGenericBelow(n: Node, path: seq<string>, item: Node, skipExisting: bool, i: nat)
    requires AddChildRecursiveByPath(n, path, item, skipExisting).result.Success?
    requires 0 < i < |path| && GetByPathArray(n, path[..i + 1]).None?
    ensures var m := GetByPathArray(AddChildRecursiveByPath(n, path, item, skipExisting).tree, path[..i + 1]);
      m.Some? && m.value.(children := []) == MakeGeneric(path[i])
    decreases |path|, 0
  {
    ResultThroughEntered(n, path, item, skipExisting);
    var child := Enter(n, path[0], skipExisting).value.1;
    var rest := path[1..][..i];
    PrefixCons(path, i);
    MissingBelow(n, path[0], skipExisting, rest);
    assert rest == path[1..][..(i - 1) + 1];
    assert i - 1 < |path[1..]| < |path|;
    AddByPathCreatesGeneric(child, path[1..], item, skipExisting, i - 1);
    ThroughEntered(n, path, item, skipExisting, rest);
  }

  /** A path missing below an entered key is missing below the entered child too. */
  lemma MissingBelow(n: Node, k: string, skipExisting: bool, rest: seq<string>)
    requires Enter(n, k, skipExisting).Success? && rest != [] && GetByPathArray(n, [k] + rest).None?
    ensures GetByPathArray(Enter(n, k, skipExisting).value.1, rest).None?
  {
    LookupCons(n, k, rest);
    if k !in Names(n.children) {
      assert Enter(n, k, skipExisting).value.1.children == [];
    }
  }

  /** Looking up a path whose first key is `k`: through the child under `k`, or nothing. */
  lemma LookupCons(n: Node, k: string, rest: seq<string>)
    ensures GetByPathArray(n, [k] + rest) ==
      if Child(n.children, k).Some? then GetByPathArray(Child(n.children, k).value, rest) else None
  {
    assert ([k] + rest)[0] == k && ([k] + rest)[1..] == rest;
  }

  /** Below the first segment, the inserted tree answers as the insertion into the entered child does. */
  lemma ThroughEntered(n: Node, path: seq<string>, item: Node, skipExisting: bool, rest: seq<string>)
    requires item.name != "" && path != [] && Enter(n, path[0], skipExisting).Success?
    ensures var child := Enter(n, path[0], skipExisting).value.1;
      GetByPathArray(AddChildRecursiveByPath(n, path, item, skipExisting).tree, [path[0]] + rest)
        == GetByPathArray(AddChildRecursiveByPath(child, path[1..], item, skipExisting).tree, rest)
  {
    var q := [path[0]] + rest;
    assert q[0] == path[0] && q[1..] == rest;
  }

  /** Past a successful first step, the insertion succeeds exactly when the insertion into the entered child does. */
  lemma ResultThroughEntered(n: Node, path: seq<string>, item: Node, skipExisting: bool)
    requires AddChildRecursiveByPath(n, path, item, skipExisting).result.Success? && path != []
    ensures item.name != "" && Enter(n, path[0], skipExisting).Success?
    ensures AddChildRecursiveByPath(Enter(n, path[0], skipExisting).value.1, path[1..], item, skipExisting).result.Success?
  {
  }

  lemma {:induction false} AddByPathFrame(n: Node, path: seq<string>, item: Node, skipExisting: bool, q: seq<string>, j: nat)
    requires j < |q| && j <= |path|
    requires forall i :: 0 <= i < j ==> q[i] == path[i]
    requires if j < |path| then q[j] != path[j] else q[j] != item.name
    ensures GetByPathArray(AddChildRecursiveByPath(n, path, item, skipExisting).tree, q) == GetByPathArray(n, q)
    decreases |path|
  {
    if item.name == "" {
    } else if path == [] {
      FrameAtItem(n, item, skipExisting, q);
    } else if Enter(n, path[0], skipExisting).Success? {
      var child := Enter(n, path[0], skipExisting).value.1;
      if j > 0 {
        FramePremises(path, item, q, j);
        AddByPathFrame(child, path[1..], item, skipExisting, q[1..], j - 1);
      }
      FrameAtSegment(n, path, item, skipExisting, q);
    }
  }

  /** The premises of `AddByPathFrame` one segment down. */
  lemma FramePremises(path: seq<string>, item: Node, q: seq<string>, j: nat)
    requires 0 < j < |q| && j <= |path|
    requires forall i :: 0 <= i < j ==> q[i] == path[i]
    requires if j < |path| then q[j] != path[j] else q[j] != item.name
    ensures j - 1 < |q[1..]| && j - 1 <= |path[1..]|
    ensures forall i :: 0 <= i < j - 1 ==> q[1..][i] == path[1..][i]
    ensures if j - 1 < |path[1..]| then q[1..][j - 1] != path[1..][j - 1] else q[1..][j - 1] != item.name
  {
  }

  lemma FrameAtItem(n: Node, item: Node, skipExisting: bool, q: seq<string>)
    requires item.name != "" && q != [] && q[0] != item.name
    ensures GetByPathArray(AddChildRecursiveByPath(n, [], item, skipExisting).tree, q) == GetByPathArray(n, q)
  {
    PutOther(n.children, item, q[0]);
  }

  lemma FrameAtSegment(n: Node, path: seq<string>, item: Node, skipExisting: bool, q: seq<string>)
    requires item.name != "" && path != [] && Enter(n, path[0], skipExisting).Success?
    requires q != [] && (q[0] == path[0] ==> (|q| >= 2 &&
      var child := Enter(n, path[0], skipExisting).value.1;
      GetByPathArray(AddChildRecursiveByPath(child, path[1..], item, skipExisting).tree, q[1..]) == GetByPathArray(child, q[1..])))
    ensures GetByPathArray(AddChildRecursiveByPath(n, path, item, skipExisting).tree, q) == GetByPathArray(n, q)
  {
    var child := Enter(n, path[0], skipExisting).value.1;
    var sub := AddChildRecursiveByPath(child, path[1..], item, skipExisting);
    LookupAfterEnter(n, path[0], skipExisting, sub.tree, q);
  }

  /**
   * Lookup after one `Enter` step whose child was replaced by `newChild`: a
   * path through another key is unaffected, and a path through the entered
   * key sees whatever the new child answers.
   */
  lemma LookupAfterEnter(n: Node, name: string, skipExisting: bool, newChild: Node, q: seq<string>)
    requires Enter(n, name, skipExisting).Success?
    requires newChild.name == name && q != []
    requires q[0] == name ==> (|q| >= 2 &&
      GetByPathArray(newChild, q[1..]) == GetByPathArray(Enter(n, name, skipExisting).value.1, q[1..]))
    ensures var parent := Enter(n, name, skipExisting).value.0;
      GetByPathArray(parent.(children := Put(parent.children, newChild)), q) == GetByPathArray(n, q)
  {
    var e := Enter(n, name, skipExisting).value;
    var parent := e.0;
    var m := parent.(children := Put(parent.children, newChild));
    if q[0] != name {
      PutOther(parent.children, newChild, q[0]);
      if name !in Names(n.children) {
        IndexOfAppend(n.children, MakeGeneric(name), q[0]);
      }
      assert Child(m.children, q[0]) == Child(n.children, q[0]);
    } else if name !in Names(n.children) {
      assert GetByPathArray(e.1, q[1..]) == None;
    }
  }

  /** Existing nodes on the insertion path keep everything but their children. */
  lemma {:induction false} AddByPathKeepsExisting(n: Node, path: seq<string>, item: Node, skipExisting: bool, i: nat)
    requires AddChildRecursiveByPath(n, path, item, skipExisting).result.Success?
    requires i <= |path| && GetByPathArray(n, path[..i]).Some?
    ensures var e := GetByPathArray(n, path[..i]).value;
      var m := GetByPathArray(AddChildRecursiveByPath(n, path, item, skipExisting).tree, path[..i]);
      m.Some? && m.value.(children := e.children) == e
    decreases |path|
  {
    if i > 0 {
      ResultThroughEntered(n, path, item, skipExisting);
      var rest := path[1..][..i - 1];
      PrefixCons(path, i - 1);
      LookupCons(n, path[0], rest);
      var child := Enter(n, path[0], skipExisting).value.1;
      assert Child(n.children, path[0]) == Some(child);
      assert i - 1 <= |path[1..]| < |path|;
      AddByPathKeepsExisting(child, path[1..], item, skipExisting, i - 1);
      ThroughEntered(n, path, item, skipExisting, rest);
    }
  }

  /** Insertion keeps the tree well-formed, also when it throws midway. */
  lemma {:induction false} AddByPathKeepsWellFormed(n: Node, path: seq<string>, item: Node, skipExisting: bool)
    requires WellFormed(n) && WellFormed(item)
    ensures WellFormed(AddChildRecursiveByPath(n, path, item, skipExisting).tree)
    decreases |path|
  {
    if item.name != "" {
      if path == [] {
        PutKeepsWellFormed(n, item);
      } else {
        var name := path[0];
        match Child(n.children, name)
        case Some(child) =>
          if skipExisting {
            var sub := AddChildRecursiveByPath(child, path[1..], item, skipExisting);
            AddByPathKeepsWellFormed(child, path[1..], item, skipExisting);
            PutKeepsWellFormed(n, sub.tree);
          }
        case None =>
          var child := MakeGeneric(name);
          if name != "" {
            var n1 := AddChild(n, child).value;
            AddChildKeepsWellFormed(n, child);
            var sub := AddChildRecursiveByPath(child, path[1..], item, skipExisting);
            AddByPathKeepsWellFormed(child, path[1..], item, skipExisting);
            PutKeepsWellFormed(n1, sub.tree);
          }
      }
    }
  }

  // ---------------------------------------------------------------------
  // addChildRecursiveByFilePath
  // ---------------------------------------------------------------------

  /** The Folder node created for a missing directory segment. */
  function FolderItem(name: string, location: Location): Node {
    var n := NewItem(name, Folder);
    n.(data := n.data.(folderLocation := Some(location)))
  }

  /** The File node created for a missing file. */
  function FileItem(name: string, location: Location): Node {
    var n := NewItem(name, File);
    n.(data := n.data.(fileLocation := Some(location)))
  }

  /** The part of a file name before its first `.` (`fileName.split('.')[0]`). */
  function Stem(fileName: string): string {
    Split(fileName, '.')[0]
  }

  /**
   * `_addChildRecursiveByFilePath`: reuse or create a Folder per directory
   * segment, then return the existing child named after the file's stem or
   * create a File node for it. `current` holds the segments walked so far.
   */
  function AddByFileSegments(n: Node, root: string, remaining: seq<string>, current: seq<string>): (o: Outcome<Node>)
    ensures o.tree.(children := n.children) == n
    decreases |remaining|
  {
    if remaining == [] then
      // the source reads an undefined segment and fails to add a nameless item
      Outcome(n, Failure(NamelessItem))
    else if |remaining| == 1 then
      var fileName := remaining[0];
      var name := Stem(fileName);
      match Child(n.children, name)
      case Some(existing) => Outcome(n, Success(existing))
      case None =>
        var fileItem := FileItem(name, Location(root, current + [fileName]));
        match AddOrReplaceChild(n, fileItem)
        case Failure(e) => Outcome(n, Failure(e))
        case Success(p) => Outcome(p.0, Success(fileItem))
    else
      var cur := current + [remaining[0]];
      match EnterFolder(n, remaining[0], Location(root, cur))
      case Failure(e) => Outcome(n, Failure(e))
      case Success(p) =>
        var sub := AddByFileSegments(p.1, root, remaining[1..], cur);
        Outcome(p.0.(children := Put(p.0.children, sub.tree)), sub.result)
  }

  /**
   * One directory step of `_addChildRecursiveByFilePath`: the existing child
   * under `name`, or a new Folder at `location` added with `addChild`.
   * Returns the updated node and the node the walk continues in.
   */
  function EnterFolder(n: Node, name: string, location: Location): (r: Result<(Node, Node), TreeError>)
    ensures r.Success? <==> name in Names(n.children) || name != ""
    ensures r.Success? && name in Names(n.children) ==> r.value == (n, Child(n.children, name).value)
    ensures r.Success? && name !in Names(n.children) ==>
      r.value == (n.(children := n.children + [FolderItem(name, location)]), FolderItem(name, location))
    ensures r.Success? ==> r.value.1.name == name
  {
    match Child(n.children, name)
    case Some(child) => Success((n, child))
    case None =>
      var folder := FolderItem(name, location);
      match AddChild(n, folder)
      case Failure(e) => Failure(e)
      case Success(n1) => Success((n1, folder))
  }

  /** `addChildRecursiveByFilePath`: split the relative path on `/`. */
  function AddChildRecursiveByFilePath(n: Node, root: string, filePath: string): Outcome<Node> {
    AddByFileSegments(n, root, Split(filePath, '/'), [])
  }

  /** The directory segments of a split file path followed by the file's stem. */
  function FileKeyPath(segments: seq<string>): seq<string>
    requires |segments| >= 1
  {
    segments[..|segments| - 1] + [Stem(segments[|segments| - 1])]
  }

  lemma FileKeyPathTail(segments: seq<string>)
    requires |segments| >= 2
    ensures FileKeyPath(segments) == [segments[0]] + FileKeyPath(segments[1..])
  {
    assert segments[..|segments| - 1] == [segments[0]] + segments[1..][..|segments| - 2];
  }

  /**
   * On a well-formed tree, file-path insertion succeeds exactly when every
   * directory segment and the stem are non-empty; the returned node is the one
   * found at the directories followed by the stem.
   */
  lemma {:induction false} AddByFileSegmentsResult(n: Node, root: string, remaining: seq<string>, current: seq<string>)
    requires WellFormed(n) && |remaining| >= 1
    ensures var o := AddByFileSegments(n, root, remaining, current);
      && (o.result.Success? <==> forall i :: 0 <= i < |FileKeyPath(remaining)| ==> FileKeyPath(remaining)[i] != "")
      && (o.result.Success? ==> GetByPathArray(o.tree, FileKeyPath(remaining)) == Some(o.result.value))
    decreases |remaining|, 1
  {
    if |remaining| == 1 {
      assert FileKeyPath(remaining) == [Stem(remaining[0])];
    } else if Child(n.children, remaining[0]).Some? {
      FileResultThroughChild(n, root, remaining, current);
    } else {
      FileResultThroughNewFolder(n, root, remaining, current);
    }
  }

  /** The directory step of the proof above when the folder already exists. */
  lemma {:induction false} FileResultThroughChild(n: Node, root: string, remaining: seq<string>, current: seq<string>)
    requires WellFormed(n) && |remaining| >= 2 && Child(n.children, remaining[0]).Some?
    ensures var o := AddByFileSegments(n, root, remaining, current);
      && (o.result.Success? <==> forall i :: 0 <= i < |FileKeyPath(remaining)| ==> FileKeyPath(remaining)[i] != "")
      && (o.result.Success? ==> GetByPathArray(o.tree, FileKeyPath(remaining)) == Some(o.result.value))
    decreases |remaining|, 0
  {
    var name := remaining[0];
    var child := Child(n.children, name).value;
    var cur := current + [name];
    ChildWellFormed(n, name);
    assert |remaining[1..]| < |remaining|;
    AddByFileSegmentsResult(child, root, remaining[1..], cur);
    var sub := AddByFileSegments(child, root, remaining[1..], cur);
    var o := AddByFileSegments(n, root, remaining, current);
    assert o == Outcome(n.(children := Put(n.children, sub.tree)), sub.result);
    FileKeyPathTail(remaining);
    NamedSegments(FileKeyPath(remaining));
    assert name != "";
    LookupCons(o.tree, name, FileKeyPath(remaining[1..]));
  }

  /** The directory step of the proof above when the folder is created. */
  lemma {:induction false} FileResultThroughNewFolder(n: Node, root: string, remaining: seq<string>, current: seq<string>)
    requires WellFormed(n) && |remaining| >= 2 && Child(n.children, remaining[0]).None?
    ensures var o := AddByFileSegments(n, root, remaining, current);
      && (o.result.Success? <==> forall i :: 0 <= i < |FileKeyPath(remaining)| ==> FileKeyPath(remaining)[i] != "")
      && (o.result.Success? ==> GetByPathArray(o.tree, FileKeyPath(remaining)) == Some(o.result.value))
    decreases |remaining|, 0
  {
    var name := remaining[0];
    var cur := current + [name];
    var folder := FolderItem(name, Location(root, cur));
    FileKeyPathTail(remaining);
    NamedSegments(FileKeyPath(remaining));
    if name != "" {
      assert |remaining[1..]| < |remaining|;
      AddByFileSegmentsResult(folder, root, remaining[1..], cur);
      var n1 := AddChild(n, folder).value;
      var sub := AddByFileSegments(folder, root, remaining[1..], cur);
      var o := AddByFileSegments(n, root, remaining, current);
      assert o == Outcome(n1.(children := Put(n1.children, sub.tree)), sub.result);
      LookupCons(o.tree, name, FileKeyPath(remaining[1..]));
    }
  }

  /**
   * What a successful file-path insertion returns: when a node already exists
   * at the directories followed by the stem, that node, with the tree left
   * unchanged; otherwise a new, childless File node located at the whole
   * relative path.
   */
  predicate ReturnsExistingOrNewFile(n: Node, root: string, remaining: seq<string>, current: seq<string>)
    requires |remaining| >= 1
  {
    var o := AddByFileSegments(n, root, remaining, current);
    var before := GetByPathArray(n, FileKeyPath(remaining));
    && o.result.Success?
    && (before.Some? ==> o.tree == n && o.result.value == before.value)
    && (before.None? ==>
          o.result.value == FileItem(Stem(remaining[|remaining| - 1]), Location(root, current + remaining)))
  }

  lemma {:induction false} AddByFileSegmentsReturns(n: Node, root: string, remaining: seq<string>, current: seq<string>)
    requires |remaining| >= 1
    requires AddByFileSegments(n, root, remaining, current).result.Success?
    ensures ReturnsExistingOrNewFile(n, root, remaining, current)
    decreases |remaining|
  {
    if |remaining| == 1 {
      ReturnsAtFile(n, root, remaining, current);
    } else {
      var name := remaining[0];
      var cur := current + [name];
      match Child(n.children, name)
      case Some(child) =>
        AddByFileSegmentsReturns(child, root, remaining[1..], cur);
        ReturnsThroughChild(n, root, remaining, current);
      case None =>
        var folder := FolderItem(name, Location(root, cur));
        AddByFileSegmentsReturns(folder, root, remaining[1..], cur);
        ReturnsThroughNewFolder(n, root, remaining, current);
    }
  }

  lemma ReturnsAtFile(n: Node, root: string, remaining: seq<string>, current: seq<string>)
    requires |remaining| == 1
    requires AddByFileSegments(n, root, remaining, current).result.Success?
    ensures ReturnsExistingOrNewFile(n, root, remaining, current)
  {
    var name := Stem(remaining[0]);
    assert FileKeyPath(remaining) == [name];
    LookupCons(n, name, []);
    assert [name] + [] == [name];
    if Child(n.children, name).Some? {
      ReturnsExistingFile(n, root, remaining, current);
    } else {
      ReturnsNewFile(n, root, remaining, current);
    }
  }

  lemma ReturnsExistingFile(n: Node, root: string, remaining: seq<string>, current: seq<string>)
    requires |remaining| == 1 && Child(n.children, Stem(remaining[0])).Some?
    requires GetByPathArray(n, FileKeyPath(remaining)) == Child(n.children, Stem(remaining[0]))
    ensures ReturnsExistingOrNewFile(n, root, remaining, current)
  {
    var existing := Child(n.children, Stem(remaining[0])).value;
    assert AddByFileSegments(n, root, remaining, current) == Outcome(n, Success(existing));
  }

  lemma ReturnsNewFile(n: Node, root: string, remaining: seq<string>, current: seq<string>)
    requires |remaining| == 1 && Child(n.children, Stem(remaining[0])).None?
    requires AddByFileSegments(n, root, remaining, current).result.Success?
    requires GetByPathArray(n, FileKeyPath(remaining)).None?
    ensures ReturnsExistingOrNewFile(n, root, remaining, current)
  {
    var fileItem := FileItem(Stem(remaining[0]), Location(root, current + [remaining[0]]));
    assert AddByFileSegments(n, root, remaining, current).result == Success(fileItem);
    assert current + remaining == current + [remaining[0]];
  }

  /** `Map.set` of the entry a key already holds changes nothing. */
  lemma PutSame(cs: seq<Node>, k: string)
    requires Child(cs, k).Some?
    ensures Put(cs, Child(cs, k).value) == cs
  {
  }

  lemma AppendHead(a: seq<string>, s: seq<string>)
    requires s != []
    ensures a + [s[0]] + s[1..] == a + s
  {
    assert [s[0]] + s[1..] == s;
  }

  lemma ReturnsThroughChild(n: Node, root: string, remaining: seq<string>, current: seq<string>)
    requires |remaining| >= 2 && Child(n.children, remaining[0]).Some?
    requires ReturnsExistingOrNewFile(Child(n.children, remaining[0]).value, root, remaining[1..], current + [remaining[0]])
    ensures ReturnsExistingOrNewFile(n, root, remaining, current)
  {
    var child := Child(n.children, remaining[0]).value;
    FileKeyPathTail(remaining);
    LookupCons(n, remaining[0], FileKeyPath(remaining[1..]));
    if GetByPathArray(child, FileKeyPath(remaining[1..])).Some? {
      ReturnsFoundThroughChild(n, root, remaining, current);
    } else {
      NewFileOf(child, root, remaining[1..], current + [remaining[0]]);
      ReturnsMissingThroughChild(n, root, remaining, current);
    }
  }

  lemma ReturnsFoundThroughChild(n: Node, root: string, remaining: seq<string>, current: seq<string>)
    requires |remaining| >= 2 && Child(n.children, remaining[0]).Some?
    requires ReturnsExistingOrNewFile(Child(n.children, remaining[0]).value, root, remaining[1..], current + [remaining[0]])
    requires GetByPathArray(n, FileKeyPath(remaining)) ==
      GetByPathArray(Child(n.children, remaining[0]).value, FileKeyPath(remaining[1..]))
    requires GetByPathArray(n, FileKeyPath(remaining)).Some?
    ensures ReturnsExistingOrNewFile(n, root, remaining, current)
  {
    ThroughChildFound(n, root, remaining, current);
  }

  lemma ReturnsMissingThroughChild(n: Node, root: string, remaining: seq<string>, current: seq<string>)
    requires |remaining| >= 2 && Child(n.children, remaining[0]).Some?
    requires var rest := remaining[1..];
      AddByFileSegments(Child(n.children, remaining[0]).value, root, rest, current + [remaining[0]]).result ==
        Success(FileItem(Stem(rest[|rest| - 1]), Location(root, current + [remaining[0]] + rest)))
    requires GetByPathArray(n, FileKeyPath(remaining)).None?
    ensures ReturnsExistingOrNewFile(n, root, remaining, current)
  {
    ThroughChildMissing(n, root, remaining, current);
    AppendHead(current, remaining);
    LastOfTail(remaining);
  }

  /** When nothing exists at the key path, the predicate names the new File node returned. */
  lemma NewFileOf(n: Node, root: string, remaining: seq<string>, current: seq<string>)
    requires |remaining| >= 1 && ReturnsExistingOrNewFile(n, root, remaining, current)
    requires GetByPathArray(n, FileKeyPath(remaining)).None?
    ensures AddByFileSegments(n, root, remaining, current).result ==
      Success(FileItem(Stem(remaining[|remaining| - 1]), Location(root, current + remaining)))
  {
  }

  lemma ThroughChildFound(n: Node, root: string, remaining: seq<string>, current: seq<string>)
    requires |remaining| >= 2 && Child(n.children, remaining[0]).Some?
    requires var child := Child(n.children, remaining[0]).value;
      var sub := AddByFileSegments(child, root, remaining[1..], current + [remaining[0]]);
      sub.result.Success? && sub.tree == child
    ensures var child := Child(n.children, remaining[0]).value;
      var sub := AddByFileSegments(child, root, remaining[1..], current + [remaining[0]]);
      AddByFileSegments(n, root, remaining, current) == Outcome(n, sub.result)
  {
    PutSame(n.children, remaining[0]);
  }

  lemma ThroughChildMissing(n: Node, root: string, remaining: seq<string>, current: seq<string>)
    requires |remaining| >= 2 && Child(n.children, remaining[0]).Some?
    ensures var child := Child(n.children, remaining[0]).value;
      var sub := AddByFileSegments(child, root, remaining[1..], current + [remaining[0]]);
      AddByFileSegments(n, root, remaining, current).result == sub.result
  {
  }

  lemma ReturnsThroughNewFolder(n: Node, root: string, remaining: seq<string>, current: seq<string>)
    requires |remaining| >= 2 && Child(n.children, remaining[0]).None? && remaining[0] != ""
    requires ReturnsExistingOrNewFile(FolderItem(remaining[0], Location(root, current + [remaining[0]])),
      root, remaining[1..], current + [remaining[0]])
    ensures ReturnsExistingOrNewFile(n, root, remaining, current)
  {
    FileKeyPathTail(remaining);
    AppendHead(current, remaining);
    var folder := FolderItem(remaining[0], Location(root, current + [remaining[0]]));
    assert GetByPathArray(folder, FileKeyPath(remaining[1..])).None?;
  }

  /** The directory node a file-path insertion continues in: the existing child, or a new Folder. */
  function FileEntered(n: Node, root: string, remaining: seq<string>, current: seq<string>): Node
    requires |remaining| >= 1
  {
    match Child(n.children, remaining[0])
    case Some(c) => c
    case None => FolderItem(remaining[0], Location(root, current + [remaining[0]]))
  }

  /** Below the first directory segment, the result and the tree answer as the insertion into the entered directory does. */
  lemma FileThroughEntered(n: Node, root: string, remaining: seq<string>, current: seq<string>, rest: seq<string>)
    requires |remaining| >= 2 && (Child(n.children, remaining[0]).Some? || remaining[0] != "")
    ensures var sub := AddByFileSegments(FileEntered(n, root, remaining, current), root, remaining[1..], current + [remaining[0]]);
      var o := AddByFileSegments(n, root, remaining, current);
      && o.result == sub.result
      && GetByPathArray(o.tree, [remaining[0]] + rest) == GetByPathArray(sub.tree, rest)
  {
    var e := FileEntered(n, root, remaining, current);
    var sub := AddByFileSegments(e, root, remaining[1..], current + [remaining[0]]);
    var o := AddByFileSegments(n, root, remaining, current);
    assert sub.tree.name == remaining[0];
    assert Child(o.tree.children, remaining[0]) == Some(sub.tree);
    LookupCons(o.tree, remaining[0], rest);
  }

  /**
   * Every directory prefix that did not exist before a file-path insertion
   * now leads to a new Folder named after its segment and located at the
   * segments walked so far, provided the segments up to it have names; this
   * holds also when the insertion fails further down.
   */
  lemma {:induction false} AddByFileCreatesFolder(n: Node, root: string, remaining: seq<string>, current: seq<string>, k: nat)
    requires k < |remaining| - 1 && forall j :: 0 <= j <= k ==> remaining[j] != ""
    requires GetByPathArray(n, remaining[..k + 1]).None?
    ensures var m := GetByPathArray(AddByFileSegments(n, root, remaining, current).tree, remaining[..k + 1]);
      m.Some? && m.value.(children := []) == FolderItem(remaining[k], Location(root, current + remaining[..k + 1]))
    decreases |remaining|, 1
  {
    if k == 0 {
      CreatesFolderAtFirst(n, root, remaining, current);
    } else {
      CreatesFolderBelow(n, root, remaining, current, k);
    }
  }

  lemma CreatesFolderAtFirst(n: Node, root: string, remaining: seq<string>, current: seq<string>)
    requires 1 < |remaining| && remaining[0] != "" && GetByPathArray(n, remaining[..1]).None?
    ensures var m := GetByPathArray(AddByFileSegments(n, root, remaining, current).tree, remaining[..1]);
      m.Some? && m.value.(children := []) == FolderItem(remaining[0], Location(root, current + remaining[..1]))
  {
    PrefixCons(remaining, 0);
    assert remaining[..1] == [remaining[0]] + [];
    LookupCons(n, remaining[0], []);
    FileThroughEntered(n, root, remaining, current, []);
    var folder := FolderItem(remaining[0], Location(root, current + [remaining[0]]));
    assert FileEntered(n, root, remaining, current) == folder;
    var sub := AddByFileSegments(folder, root, remaining[1..], current + [remaining[0]]);
    assert sub.tree.(children := []) == folder;
    assert [remaining[0]] + [] == [remaining[0]] == remaining[..1];
    assert GetByPathArray(sub.tree, []) == Some(sub.tree);
  }

  lemma {:induction false} CreatesFolderBelow(n: Node, root: string, remaining: seq<string>, current: seq<string>, k: nat)
    requires 0 < k < |remaining| - 1 && forall j :: 0 <= j <= k ==> remaining[j] != ""
    requires GetByPathArray(n, remaining[..k + 1]).None?
    ensures var m := GetByPathArray(AddByFileSegments(n, root, remaining, current).tree, remaining[..k + 1]);
      m.Some? && m.value.(children := []) == FolderItem(remaining[k], Location(root, current + remaining[..k + 1]))
    decreases |remaining|, 0
  {
    FolderBelowPremises(n, root, remaining, current, k);
    AddByFileCreatesFolder(FileEntered(n, root, remaining, current), root, remaining[1..], current + [remaining[0]], k - 1);
    CreatesFolderStepAt(n, root, remaining, current, k);
  }

  /** The premises of `AddByFileCreatesFolder` one level down, inside the entered directory. */
  lemma FolderBelowPremises(n: Node, root: string, remaining: seq<string>, current: seq<string>, k: nat)
    requires 0 < k < |remaining| - 1 && forall j :: 0 <= j <= k ==> remaining[j] != ""
    requires GetByPathArray(n, remaining[..k + 1]).None?
    ensures k - 1 < |remaining[1..]| - 1 && forall j :: 0 <= j <= k - 1 ==> remaining[1..][j] != ""
    ensures GetByPathArray(FileEntered(n, root, remaining, current), remaining[1..][..k - 1 + 1]).None?
  {
    PrefixCons(remaining, k);
    MissingBelowFolder(n, root, remaining, current, remaining[1..][..k]);
    assert forall j :: 0 <= j <= k - 1 ==> remaining[1..][j] == remaining[j + 1];
  }

  /** `CreatesFolderStep` with the prefix written as `remaining[..k + 1]`. */
  lemma CreatesFolderStepAt(n: Node, root: string, remaining: seq<string>, current: seq<string>, k: nat)
    requires 0 < k < |remaining| - 1 && remaining[0] != ""
    requires var m := GetByPathArray(AddByFileSegments(FileEntered(n, root, remaining, current), root,
        remaining[1..], current + [remaining[0]]).tree, remaining[1..][..k - 1 + 1]);
      m.Some? && m.value.(children := []) ==
        FolderItem(remaining[1..][k - 1], Location(root, current + [remaining[0]] + remaining[1..][..k - 1 + 1]))
    ensures var m := GetByPathArray(AddByFileSegments(n, root, remaining, current).tree, remaining[..k + 1]);
      m.Some? && m.value.(children := []) == FolderItem(remaining[k], Location(root, current + remaining[..k + 1]))
  {
    FolderIndices(remaining, current, k);
    CreatesFolderStep(n, root, remaining, current, remaining[1..][..k],
      FolderItem(remaining[k], Location(root, current + remaining[..k + 1])));
  }

  /** How the prefixes of `remaining` read one level down. */
  lemma FolderIndices(remaining: seq<string>, current: seq<string>, k: nat)
    requires 0 < k < |remaining| - 1
    ensures remaining[1..][..k - 1 + 1] == remaining[1..][..k]
    ensures [remaining[0]] + remaining[1..][..k] == remaining[..k + 1]
    ensures remaining[1..][k - 1] == remaining[k]
    ensures current + [remaining[0]] + remaining[1..][..k] == current + remaining[..k + 1]
  {
    PrefixCons(remaining, k);
  }

  /** One level up: a Folder the insertion into the entered directory leaves at `rest` is left at the first segment followed by `rest`. */
  lemma CreatesFolderStep(n: Node, root: string, remaining: seq<string>, current: seq<string>, rest: seq<string>, f: Node)
    requires |remaining| >= 2 && (Child(n.children, remaining[0]).Some? || remaining[0] != "")
    requires var m := GetByPathArray(AddByFileSegments(FileEntered(n, root, remaining, current), root,
        remaining[1..], current + [remaining[0]]).tree, rest);
      m.Some? && m.value.(children := []) == f
    ensures var m := GetByPathArray(AddByFileSegments(n, root, remaining, current).tree, [remaining[0]] + rest);
      m.Some? && m.value.(children := []) == f
  {
    FileThroughEntered(n, root, remaining, current, rest);
  }

  /** A directory path missing below the first segment is missing below the entered directory too. */
  lemma MissingBelowFolder(n: Node, root: string, remaining: seq<string>, current: seq<string>, rest: seq<string>)
    requires |remaining| >= 2 && rest != [] && GetByPathArray(n, [remaining[0]] + rest).None?
    ensures GetByPathArray(FileEntered(n, root, remaining, current), rest).None?
  {
    LookupCons(n, remaining[0], rest);
  }

  /**
   * Every directory prefix that existed before a file-path insertion leads to
   * the same node afterwards, with only its children changed, also when the
   * insertion fails further down.
   */
  lemma {:induction false} AddByFileKeepsExisting(n: Node, root: string, remaining: seq<string>, current: seq<string>, k: nat)
    requires k < |remaining| && GetByPathArray(n, remaining[..k]).Some?
    ensures var e := GetByPathArray(n, remaining[..k]).value;
      var m := GetByPathArray(AddByFileSegments(n, root, remaining, current).tree, remaining[..k]);
      m.Some? && m.value.(children := e.children) == e
    decreases |remaining|, 1
  {
    if k == 0 {
      assert remaining[..0] == [];
    } else {
      KeepsExistingBelow(n, root, remaining, current, k);
    }
  }

  lemma {:induction false} KeepsExistingBelow(n: Node, root: string, remaining: seq<string>, current: seq<string>, k: nat)
    requires 0 < k < |remaining| && GetByPathArray(n, remaining[..k]).Some?
    ensures var e := GetByPathArray(n, remaining[..k]).value;
      var m := GetByPathArray(AddByFileSegments(n, root, remaining, current).tree, remaining[..k]);
      m.Some? && m.value.(children := e.children) == e
    decreases |remaining|, 0
  {
    var rest := remaining[1..][..k - 1];
    PrefixCons(remaining, k - 1);
    assert remaining[..k] == [remaining[0]] + rest;
    LookupCons(n, remaining[0], rest);
    var child := Child(n.children, remaining[0]).value;
    assert k - 1 < |remaining[1..]| < |remaining|;
    AddByFileKeepsExisting(child, root, remaining[1..], current + [remaining[0]], k - 1);
    KeepsExistingStep(n, root, remaining, current, rest);
  }

  /** One level up: what the insertion into an existing child keeps, the insertion into the parent keeps. */
  lemma KeepsExistingStep(n: Node, root: string, remaining: seq<string>, current: seq<string>, rest: seq<string>)
    requires |remaining| >= 2 && Child(n.children, remaining[0]).Some?
    requires var child := Child(n.children, remaining[0]).value;
      && GetByPathArray(child, rest).Some?
      && var e := GetByPathArray(child, rest).value;
         var m := GetByPathArray(AddByFileSegments(child, root, remaining[1..], current + [remaining[0]]).tree, rest);
         m.Some? && m.value.(children := e.children) == e
    ensures GetByPathArray(n, [remaining[0]] + rest).Some?
    ensures var e := GetByPathArray(n, [remaining[0]] + rest).value;
      var m := GetByPathArray(AddByFileSegments(n, root, remaining, current).tree, [remaining[0]] + rest);
      m.Some? && m.value.(children := e.children) == e
  {
    LookupCons(n, remaining[0], rest);
    assert FileEntered(n, root, remaining, current) == Child(n.children, remaining[0]).value;
    FileThroughEntered(n, root, remaining, current, rest);
  }

  // ---------------------------------------------------------------------
  // pathArray / dottedPath
  // ---------------------------------------------------------------------

  /** `pathArray` of the node at `path` below the root `n`: the names from the root down. */
  function PathArray(n: Node, path: seq<string>): seq<string>
    requires GetByPathArray(n, path).Some?
    decreases |path|
  {
    if path == [] then [n.name]
    else [n.name] + PathArray(Child(n.children, path[0]).value, path[1..])
  }

  /** `dottedPath`: the path array joined with dots. */
  function DottedPath(n: Node, path: seq<string>): string
    requires GetByPathArray(n, path).Some?
  {
    Join(PathArray(n, path), ".")
  }

  /** The path array starts with the root's own name and continues with the lookup path. */
  lemma {:induction false} PathArrayIsRootThenPath(n: Node, path: seq<string>)
    requires GetByPathArray(n, path).Some?
    ensures PathArray(n, path) == [n.name] + path
    decreases |path|
  {
    if path != [] {
      var c := Child(n.children, path[0]).value;
      PathArrayIsRootThenPath(c, path[1..]);
      assert [path[0]] + path[1..] == path;
    }
  }

  /**
   * With dot-free names, the dotted path splits back into the root's name
   * followed by the lookup path, so dropping its first segment finds the node
   * again (the root name itself is not a key below the root).
   */
  lemma DottedPathRoundTrip(n: Node, path: seq<string>)
    requires GetByPathArray(n, path).Some?
    requires '.' !in n.name && forall i :: 0 <= i < |path| ==> '.' !in path[i]
    ensures Split(DottedPath(n, path), '.') == [n.name] + path
    ensures GetByPathArray(n, Split(DottedPath(n, path), '.')[1..]) == GetByPathArray(n, path)
  {
    PathArrayIsRootThenPath(n, path);
    var parts := [n.name] + path;
    assert forall i :: 0 <= i < |parts| ==> '.' !in parts[i] by {
      forall i | 0 <= i < |parts| ensures '.' !in parts[i] {
        if i > 0 { assert parts[i] == path[i - 1]; }
      }
    }
    SplitJoin(parts, '.');
    assert parts[1..] == path;
  }

  // ---------------------------------------------------------------------
  // clearResults and the running flag
  // ---------------------------------------------------------------------

  /** `clearResults`: drop children, failed children, counts and the failure, keep identity. */
  function ClearResults(n: Node): (r: Node)
    ensures r.name == n.name && r.kind == n.kind
    ensures r.data == n.data.(status := WaitingToStart, failureMessage := None)
    ensures !r.optimized && r.testCount == 0 && r.failedTestCount == 0 && r.failedChildren == []
    ensures !IsFailedTest(r)
    ensures forall p :: p != [] ==> GetByPathArray(r, p).None?
  {
    n.(children := [], failedChildren := [], testCount := 0, failedTestCount := 0, optimized := false,
       data := n.data.(status := WaitingToStart, failureMessage := None))
  }

  /** `isRunningTests` asked of the node at `path`: the flag is read from the root. */
  function IsRunningTests(root: Node, path: seq<string>): bool
    requires GetByPathArray(root, path).Some?
  {
    root.data.runningTests
  }

  /** `setIsRunningTests` called on the node at `path`: the flag is set on the root only. */
  function SetIsRunningTests(root: Node, path: seq<string>, running: bool): (r: Node)
    requires GetByPathArray(root, path).Some?
    ensures r.children == root.children
    ensures GetByPathArray(r, path).Some? && IsRunningTests(r, path) == running
    ensures r.(data := root.data) == root && r.data.(runningTests := root.data.runningTests) == root.data
  {
    var r := root.(data := root.data.(runningTests := running));
    LookupDependsOnChildren(root, r, path);
    r
  }

  /** Lookups below a node see its children only. */
  lemma {:induction false} LookupDependsOnChildren(a: Node, b: Node, path: seq<string>)
    requires a.children == b.children
    ensures path != [] ==> GetByPathArray(a, path) == GetByPathArray(b, path)
    ensures GetByPathArray(a, path).Some? <==> GetByPathArray(b, path).Some?
  {
  }
}
