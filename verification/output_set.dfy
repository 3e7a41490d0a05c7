/**
 * `src/TestOutputSet.ts`: single test outputs and the incrementally counted
 * tree of output sets. `_add` walks a code-path, bumps both counts at every
 * level it reaches, stores the output at the end of the path and mirrors
 * failures into a parallel failed-only tree.
 *
 * A `Map<string, TestOutputSet>` of subsets is an insertion-ordered sequence
 * of sets; the key of each entry is the set's own name (every set the source
 * puts in a map is constructed with the key as its name).
 */
module OutputSets {
  import opened Common

  /** One test result: `failureMessage` is `null` (`None`) for a passing test. */
  datatype TestOutput = TestOutput(codePath: seq<string>, fsPath: string, line: int, failureMessage: Option<string>)

  /** `isFailure`: the failure message is not null. */
  predicate IsFailure(t: TestOutput) {
    t.failureMessage.Some?
  }

  /** `name`: the last code-path segment (`undefined` for an empty code-path). */
  function OutputName(t: TestOutput): (r: Option<string>)
    ensures r.Some? <==> t.codePath != []
  {
    if t.codePath == [] then None else Some(t.codePath[|t.codePath| - 1])
  }

  /** `dottedCodePath`. */
  function DottedCodePath(t: TestOutput): string {
    Join(t.codePath, ".")
  }

  /**
   * With dot-free segments the dotted code-path splits back into the
   * code-path, whose last part is the output's name.
   */
  lemma DottedCodePathRoundTrip(t: TestOutput)
    requires t.codePath != []
    requires forall i :: 0 <= i < |t.codePath| ==> '.' !in t.codePath[i]
    ensures Split(DottedCodePath(t), '.') == t.codePath
    ensures OutputName(t) == Some(Split(DottedCodePath(t), '.')[|t.codePath| - 1])
  {
    SplitJoin(t.codePath, '.');
  }

  /** A `TestOutputSet`. */
  datatype OutputSet = OutputSet(
    name: Option<string>,
    outputs: seq<TestOutput>,
    failedOutputs: seq<TestOutput>,
    subsets: seq<OutputSet>,
    failedSubsets: seq<OutputSet>,
    testCount: int,
    failedTestCount: int)

  /** The constructor: empty, with zero counts. */
  function NewSet(name: Option<string>): OutputSet {
    OutputSet(name, [], [], [], [], 0, 0)
  }

  /** `isLeaf`. */
  predicate IsLeaf(s: OutputSet) {
    |s.outputs| > 0
  }

  /** `containsFailed`. */
  predicate ContainsFailed(s: OutputSet) {
    s.failedTestCount > 0
  }

  // ---------------------------------------------------------------------
  // The subset maps
  // ---------------------------------------------------------------------

  /** Position of the subset with key `k`. */
  function SubIndex(ss: seq<OutputSet>, k: string): (r: Option<nat>)
    ensures r.Some? ==> r.value < |ss| && ss[r.value].name == Some(k)
    ensures r.None? ==> forall i :: 0 <= i < |ss| ==> ss[i].name != Some(k)
  {
    if ss == [] then None
    else if ss[0].name == Some(k) then Some(0)
    else match SubIndex(ss[1..], k)
      case None => None
      case Some(i) => Some(i + 1)
  }

  /** `get(k)`, or a new set named `k` when the key is missing (`has`/`set`/`get`). */
  function SubOrNew(ss: seq<OutputSet>, k: string): (r: OutputSet)
    ensures r.name == Some(k)
  {
    match SubIndex(ss, k)
    case Some(i) => ss[i]
    case None => NewSet(Some(k))
  }

  /** `set(k, x)`: replace the entry in place, or append it. */
  function Upsert(ss: seq<OutputSet>, k: string, x: OutputSet): (r: seq<OutputSet>)
    ensures x in r
  {
    match SubIndex(ss, k)
    case Some(i) =>
      assert ss[i := x][i] == x;
      ss[i := x]
    case None =>
      assert (ss + [x])[|ss|] == x;
      ss + [x]
  }

  function SumCounts(ss: seq<OutputSet>): int {
    if ss == [] then 0 else ss[0].testCount + SumCounts(ss[1..])
  }

  function SumFailedCounts(ss: seq<OutputSet>): int {
    if ss == [] then 0 else ss[0].failedTestCount + SumFailedCounts(ss[1..])
  }

  /** The failures among some outputs, in order. */
  function Failures(outs: seq<TestOutput>): (r: seq<TestOutput>)
    ensures |r| <= |outs|
    ensures forall i :: 0 <= i < |r| ==> IsFailure(r[i])
  {
    if outs == [] then []
    else if IsFailure(outs[0]) then [outs[0]] + Failures(outs[1..])
    else Failures(outs[1..])
  }

  lemma {:induction false} FailuresAppend(outs: seq<TestOutput>, t: TestOutput)
    ensures Failures(outs + [t]) == Failures(outs) + (if IsFailure(t) then [t] else [])
  {
    if outs == [] {
      assert outs + [t] == [t];
    } else {
      assert (outs + [t])[1..] == outs[1..] + [t];
      FailuresAppend(outs[1..], t);
    }
  }

  lemma {:induction false} SumsAfterUpdate(ss: seq<OutputSet>, i: nat, x: OutputSet)
    requires i < |ss|
    ensures SumCounts(ss[i := x]) == SumCounts(ss) - ss[i].testCount + x.testCount
    ensures SumFailedCounts(ss[i := x]) == SumFailedCounts(ss) - ss[i].failedTestCount + x.failedTestCount
  {
    if i > 0 {
      assert ss[i := x][1..] == ss[1..][i - 1 := x];
      SumsAfterUpdate(ss[1..], i - 1, x);
    }
  }

  lemma {:induction false} SumsAfterAppend(ss: seq<OutputSet>, x: OutputSet)
    ensures SumCounts(ss + [x]) == SumCounts(ss) + x.testCount
    ensures SumFailedCounts(ss + [x]) == SumFailedCounts(ss) + x.failedTestCount
  {
    if ss == [] {
      assert ss + [x] == [x];
    } else {
      assert (ss + [x])[1..] == ss[1..] + [x];
      SumsAfterAppend(ss[1..], x);
    }
  }

  /** Replacing or adding the entry for `k` changes the sums by the difference it makes. */
  lemma UpsertSums(ss: seq<OutputSet>, k: string, x: OutputSet)
    ensures SumCounts(Upsert(ss, k, x)) == SumCounts(ss) - SubOrNew(ss, k).testCount + x.testCount
    ensures SumFailedCounts(Upsert(ss, k, x)) == SumFailedCounts(ss) - SubOrNew(ss, k).failedTestCount + x.failedTestCount
  {
    match SubIndex(ss, k)
    case Some(i) => SumsAfterUpdate(ss, i, x);
    case None => SumsAfterAppend(ss, x);
  }

  // ---------------------------------------------------------------------
  // _add / add
  // ---------------------------------------------------------------------

  /**
   * `_add` on a non-empty code-path. Both counts are bumped first; a
   * one-segment path stores the output here; otherwise an empty first
   * segment drops the output (`return`), and a named one continues in the
   * subset with that key, and for a failure also in the failed subset.
   */
  function AddAt(s: OutputSet, path: seq<string>, t: TestOutput): (r: OutputSet)
    requires |path| >= 1
    ensures r.name == s.name
    ensures r.testCount == s.testCount + 1
    ensures r.failedTestCount == s.failedTestCount + (if IsFailure(t) then 1 else 0)
    ensures |path| == 1 ==> r.outputs == s.outputs + [t]
    ensures |path| == 1 ==> r.failedOutputs == s.failedOutputs + (if IsFailure(t) then [t] else [])
    ensures |path| > 1 ==> r.outputs == s.outputs && r.failedOutputs == s.failedOutputs
    decreases |path|
  {
    var s1 := s.(testCount := s.testCount + 1,
                 failedTestCount := s.failedTestCount + (if IsFailure(t) then 1 else 0));
    if |path| == 1 then
      s1.(outputs := s1.outputs + [t],
          failedOutputs := if IsFailure(t) then s1.failedOutputs + [t] else s1.failedOutputs)
    else
      var first := path[0];
      if first == "" then s1
      else
        var subsets := Upsert(s1.subsets, first, AddAt(SubOrNew(s1.subsets, first), path[1..], t));
        var failedSubsets :=
          if IsFailure(t) then Upsert(s1.failedSubsets, first, AddAt(SubOrNew(s1.failedSubsets, first), path[1..], t))
          else s1.failedSubsets;
        s1.(subsets := subsets, failedSubsets := failedSubsets)
  }

  /** Why `add` throws. */
  datatype AddError = EmptyCodePath

  /** `add`: `_add` on a copy of the output's code-path; an empty one throws. */
  function Add(s: OutputSet, t: TestOutput): (r: Result<OutputSet, AddError>)
    ensures r.Failure? <==> t.codePath == []
    ensures r.Success? ==> r.value.testCount == s.testCount + 1
    ensures r.Success? ==> r.value.failedTestCount == s.failedTestCount + (if IsFailure(t) then 1 else 0)
  {
    if t.codePath == [] then Failure(EmptyCodePath) else Success(AddAt(s, t.codePath, t))
  }

  // ---------------------------------------------------------------------
  // Consistency of the counts
  // ---------------------------------------------------------------------

  /** Keys are unique and named. */
  predicate NamedKeys(ss: seq<OutputSet>) {
    && (forall i :: 0 <= i < |ss| ==> ss[i].name.Some?)
    && (forall i, j :: 0 <= i < j < |ss| ==> ss[i].name != ss[j].name)
  }

  /** Every key of `fs` is a key of `ss`. */
  predicate KeysWithin(fs: seq<OutputSet>, ss: seq<OutputSet>) {
    forall j :: 0 <= j < |fs| ==> exists i :: 0 <= i < |ss| && ss[i].name == fs[j].name
  }

  /**
   * The counts agree with what is stored: the outputs here plus the subsets'
   * counts; the failed index mirrors the failures; the failed subsets use
   * keys of the subsets and form failed-only trees.
   */
  predicate Valid(s: OutputSet)
    decreases s, 1
  {
    && s.testCount == |s.outputs| + SumCounts(s.subsets)
    && s.failedTestCount == |Failures(s.outputs)| + SumFailedCounts(s.subsets)
    && s.failedOutputs == Failures(s.outputs)
    && NamedKeys(s.subsets) && NamedKeys(s.failedSubsets)
    && KeysWithin(s.failedSubsets, s.subsets)
    && (forall i :: 0 <= i < |s.subsets| ==> Valid(s.subsets[i]))
    && (forall j :: 0 <= j < |s.failedSubsets| ==> FailedOnlyTree(s.failedSubsets[j]))
  }

  /** A set of the failed-only tree: everything in it is a failure. */
  predicate FailedOnlyTree(f: OutputSet)
    decreases f, 2
  {
    && Valid(f)
    && f.testCount == f.failedTestCount
    && f.outputs == f.failedOutputs
    && f.failedSubsets == f.subsets
  }

  lemma NewSetIsValid(name: Option<string>)
    ensures Valid(NewSet(name)) && FailedOnlyTree(NewSet(name))
  {
  }

  lemma {:induction false} UpsertNamedKeys(ss: seq<OutputSet>, k: string, x: OutputSet)
    requires NamedKeys(ss) && x.name == Some(k)
    ensures NamedKeys(Upsert(ss, k, x))
    ensures forall i :: 0 <= i < |Upsert(ss, k, x)| ==> Upsert(ss, k, x)[i] == x || Upsert(ss, k, x)[i] in ss
  {
    var r := Upsert(ss, k, x);
    match SubIndex(ss, k)
    case Some(i) =>
      forall a, b | 0 <= a < b < |r| ensures r[a].name != r[b].name {
        if a != i && b != i {
          assert r[a] == ss[a] && r[b] == ss[b];
        }
      }
    case None =>
  }

  lemma UpsertKeysWithin(fs: seq<OutputSet>, ss: seq<OutputSet>, k: string, x: OutputSet, y: OutputSet)
    requires KeysWithin(fs, ss) && x.name == Some(k) && y.name == Some(k)
    ensures KeysWithin(Upsert(fs, k, x), Upsert(ss, k, y))
  {
    var fs' := Upsert(fs, k, x);
    var ss' := Upsert(ss, k, y);
    var iy: nat := match SubIndex(ss, k) case Some(i) => i case None => |ss|;
    assert ss'[iy] == y;
    forall j | 0 <= j < |fs'| ensures exists i :: 0 <= i < |ss'| && ss'[i].name == fs'[j].name {
      if fs'[j].name == Some(k) {
        assert ss'[iy].name == fs'[j].name;
      } else {
        var jj := match SubIndex(fs, k) case Some(i) => i case None => |fs|;
        assert j != jj;
        assert fs'[j] == fs[j];
        var i :| 0 <= i < |ss| && ss[i].name == fs[j].name;
        assert i != iy;
        assert ss'[i] == ss[i];
      }
    }
  }

  lemma SubOrNewValid(ss: seq<OutputSet>, k: string)
    requires forall i :: 0 <= i < |ss| ==> Valid(ss[i])
    ensures Valid(SubOrNew(ss, k))
  {
  }

  lemma SubOrNewFailedOnly(ss: seq<OutputSet>, k: string)
    requires forall i :: 0 <= i < |ss| ==> FailedOnlyTree(ss[i])
    ensures FailedOnlyTree(SubOrNew(ss, k))
  {
  }

  /**
   * `_add` keeps the counts consistent when no segment but possibly the last
   * is empty.
   */
  lemma {:induction false} AddKeepsValid(s: OutputSet, path: seq<string>, t: TestOutput)
    requires Valid(s) && |path| >= 1
    requires forall i :: 0 <= i < |path| - 1 ==> path[i] != ""
    ensures Valid(AddAt(s, path, t))
    decreases |path|, 0
  {
    var r := AddAt(s, path, t);
    if |path| == 1 {
      FailuresAppend(s.outputs, t);
    } else {
      var first := path[0];
      var rest := path[1..];
      var sub := SubOrNew(s.subsets, first);
      SubOrNewValid(s.subsets, first);
      AddKeepsValid(sub, rest, t);
      var sub' := AddAt(sub, rest, t);
      UpsertSums(s.subsets, first, sub');
      UpsertNamedKeys(s.subsets, first, sub');
      assert r.subsets == Upsert(s.subsets, first, sub');
      if IsFailure(t) {
        var fsub := SubOrNew(s.failedSubsets, first);
        SubOrNewFailedOnly(s.failedSubsets, first);
        AddKeepsFailedOnly(fsub, rest, t);
        var fsub' := AddAt(fsub, rest, t);
        UpsertNamedKeys(s.failedSubsets, first, fsub');
        UpsertKeysWithin(s.failedSubsets, s.subsets, first, fsub', sub');
        assert r.failedSubsets == Upsert(s.failedSubsets, first, fsub');
      } else {
        UnchangedKeysWithin(s.failedSubsets, s.subsets, first, sub');
      }
    }
  }

  lemma UnchangedKeysWithin(fs: seq<OutputSet>, ss: seq<OutputSet>, k: string, y: OutputSet)
    requires KeysWithin(fs, ss) && y.name == Some(k)
    ensures KeysWithin(fs, Upsert(ss, k, y))
  {
    var ss' := Upsert(ss, k, y);
    var iy: nat := match SubIndex(ss, k) case Some(i) => i case None => |ss|;
    forall j | 0 <= j < |fs| ensures exists i :: 0 <= i < |ss'| && ss'[i].name == fs[j].name {
      var i :| 0 <= i < |ss| && ss[i].name == fs[j].name;
      if i == iy {
        assert ss'[iy].name == fs[j].name;
      } else {
        assert ss'[i] == ss[i];
      }
    }
  }

  /** `_add` of a failure keeps a failed-only set failed-only. */
  lemma {:induction false} AddKeepsFailedOnly(f: OutputSet, path: seq<string>, t: TestOutput)
    requires FailedOnlyTree(f) && IsFailure(t) && |path| >= 1
    requires forall i :: 0 <= i < |path| - 1 ==> path[i] != ""
    ensures FailedOnlyTree(AddAt(f, path, t))
    decreases |path|, 1
  {
    AddKeepsValid(f, path, t);
  }

  /** An empty segment before the last drops the output but keeps the bumped counts: the set is no longer consistent. */
  lemma {:induction false} EmptySegmentBreaksValid(s: OutputSet, path: seq<string>, t: TestOutput, j: nat)
    requires Valid(s) && j < |path| - 1 && path[j] == ""
    ensures !Valid(AddAt(s, path, t))
    decreases |path|
  {
    var r := AddAt(s, path, t);
    if path[0] != "" {
      var sub := SubOrNew(s.subsets, path[0]);
      SubOrNewValid(s.subsets, path[0]);
      EmptySegmentBreaksValid(sub, path[1..], t, j - 1);
      var sub' := AddAt(sub, path[1..], t);
      assert sub' in r.subsets;
    }
  }

  // ---------------------------------------------------------------------
  // Where an output ends up
  // ---------------------------------------------------------------------

  /** Walk subsets by key. */
  function FindSet(s: OutputSet, keys: seq<string>): Option<OutputSet>
    decreases |keys|
  {
    if keys == [] then Some(s)
    else match SubIndex(s.subsets, keys[0])
      case None => None
      case Some(i) => FindSet(s.subsets[i], keys[1..])
  }

  /** Walk failed subsets by key. */
  function FindFailedSet(s: OutputSet, keys: seq<string>): Option<OutputSet>
    decreases |keys|
  {
    if keys == [] then Some(s)
    else match SubIndex(s.failedSubsets, keys[0])
      case None => None
      case Some(i) => FindFailedSet(s.failedSubsets[i], keys[1..])
  }

  /** The last of some outputs is `t`. */
  predicate EndsWith(outs: seq<TestOutput>, t: TestOutput) {
    |outs| > 0 && outs[|outs| - 1] == t
  }

  /**
   * With every segment but the last named, the output ends up last among the
   * outputs of the set its leading segments lead to, and for a failure also
   * among the failed outputs of the failed set they lead to.
   */
  lemma AddPlacesOutput(s: OutputSet, path: seq<string>, t: TestOutput)
    requires |path| >= 1
    requires forall i :: 0 <= i < |path| - 1 ==> path[i] != ""
    ensures var at := FindSet(AddAt(s, path, t), path[..|path| - 1]);
      at.Some? && EndsWith(at.value.outputs, t)
    ensures IsFailure(t) ==>
      var at := FindFailedSet(AddAt(s, path, t), path[..|path| - 1]);
      at.Some? && EndsWith(at.value.failedOutputs, t)
  {
    AddPlacesInSet(s, path, t);
    if IsFailure(t) {
      AddPlacesInFailedSet(s, path, t);
    }
  }

  lemma {:induction false} AddPlacesInSet(s: OutputSet, path: seq<string>, t: TestOutput)
    requires |path| >= 1
    requires forall i :: 0 <= i < |path| - 1 ==> path[i] != ""
    ensures var at := FindSet(AddAt(s, path, t), path[..|path| - 1]);
      at.Some? && EndsWith(at.value.outputs, t)
    decreases |path|
  {
    if |path| > 1 {
      var first, rest := path[0], path[1..];
      var x := AddAt(SubOrNew(s.subsets, first), rest, t);
      var r := AddAt(s, path, t);
      assert r.subsets == Upsert(s.subsets, first, x);
      AddPlacesInSet(SubOrNew(s.subsets, first), rest, t);
      UpsertFinds(s.subsets, first, x);
      var keys, sub := path[..|path| - 1], rest[..|rest| - 1];
      LeadingKeys(path);
      assert keys[1..] == sub;
      FindSetCons(r, keys, x);
      assert FindSet(r, keys) == FindSet(x, sub);
    } else {
      assert path[..0] == [];
    }
  }

  lemma {:induction false} AddPlacesInFailedSet(s: OutputSet, path: seq<string>, t: TestOutput)
    requires |path| >= 1 && IsFailure(t)
    requires forall i :: 0 <= i < |path| - 1 ==> path[i] != ""
    ensures var at := FindFailedSet(AddAt(s, path, t), path[..|path| - 1]);
      at.Some? && EndsWith(at.value.failedOutputs, t)
    decreases |path|
  {
    if |path| > 1 {
      var first, rest := path[0], path[1..];
      var x := AddAt(SubOrNew(s.failedSubsets, first), rest, t);
      var r := AddAt(s, path, t);
      assert r.failedSubsets == Upsert(s.failedSubsets, first, x);
      AddPlacesInFailedSet(SubOrNew(s.failedSubsets, first), rest, t);
      UpsertFinds(s.failedSubsets, first, x);
      var keys, sub := path[..|path| - 1], rest[..|rest| - 1];
      LeadingKeys(path);
      assert keys[1..] == sub;
      FindFailedSetCons(r, keys, x);
      assert FindFailedSet(r, keys) == FindFailedSet(x, sub);
    } else {
      assert path[..0] == [];
    }
  }

  lemma FindSetCons(r: OutputSet, keys: seq<string>, x: OutputSet)
    requires keys != [] && SubIndex(r.subsets, keys[0]).Some?
    requires r.subsets[SubIndex(r.subsets, keys[0]).value] == x
    ensures FindSet(r, keys) == FindSet(x, keys[1..])
  {
  }

  lemma FindFailedSetCons(r: OutputSet, keys: seq<string>, x: OutputSet)
    requires keys != [] && SubIndex(r.failedSubsets, keys[0]).Some?
    requires r.failedSubsets[SubIndex(r.failedSubsets, keys[0]).value] == x
    ensures FindFailedSet(r, keys) == FindFailedSet(x, keys[1..])
  {
  }

  /** The leading segments of a path of two or more: its first, then the rest's leading segments. */
  lemma LeadingKeys(path: seq<string>)
    requires |path| > 1
    ensures path[..|path| - 1] != [] && path[..|path| - 1][0] == path[0]
    ensures path[..|path| - 1][1..] == path[1..][..|path| - 2]
  {
  }

  /** After `set(k, x)` the key `k` leads to `x`. */
  lemma UpsertFinds(ss: seq<OutputSet>, k: string, x: OutputSet)
    requires x.name == Some(k)
    ensures SubIndex(Upsert(ss, k, x), k).Some?
    ensures Upsert(ss, k, x)[SubIndex(Upsert(ss, k, x), k).value] == x
  {
    match SubIndex(ss, k)
    case Some(i) =>
      SubIndexUpdate(ss, i, x, k);
    case None =>
      SubIndexAppend(ss, x, k);
  }

  lemma {:induction false} SubIndexUpdate(ss: seq<OutputSet>, i: nat, x: OutputSet, k: string)
    requires SubIndex(ss, k) == Some(i) && x.name == Some(k)
    ensures SubIndex(ss[i := x], k) == Some(i)
  {
    if i > 0 {
      assert ss[i := x][1..] == ss[1..][i - 1 := x];
      SubIndexUpdate(ss[1..], i - 1, x, k);
    }
  }

  lemma {:induction false} SubIndexAppend(ss: seq<OutputSet>, x: OutputSet, k: string)
    requires SubIndex(ss, k).None? && x.name == Some(k)
    ensures SubIndex(ss + [x], k) == Some(|ss|)
  {
    if ss != [] {
      assert (ss + [x])[1..] == ss[1..] + [x];
      SubIndexAppend(ss[1..], x, k);
    }
  }

  // ---------------------------------------------------------------------
  // The meaning of the counts
  // ---------------------------------------------------------------------

  /** Every output stored in the set and its subsets, in order. */
  function AllOutputs(s: OutputSet): seq<TestOutput>
    decreases s
  {
    s.outputs + AllOutputsOf(s.subsets)
  }

  function AllOutputsOf(ss: seq<OutputSet>): seq<TestOutput>
    decreases ss
  {
    if ss == [] then [] else AllOutputs(ss[0]) + AllOutputsOf(ss[1..])
  }

  lemma {:induction false} FailuresConcat(a: seq<TestOutput>, b: seq<TestOutput>)
    ensures Failures(a + b) == Failures(a) + Failures(b)
  {
    if a == [] {
      assert a + b == b;
    } else {
      assert (a + b)[1..] == a[1..] + b;
      FailuresConcat(a[1..], b);
    }
  }

  /**
   * In a consistent set `testCount` is the number of stored outputs and
   * `failedTestCount` the number of stored failures.
   */
  lemma {:induction false} ValidCountsStored(s: OutputSet)
    requires Valid(s)
    ensures s.testCount == |AllOutputs(s)|
    ensures s.failedTestCount == |Failures(AllOutputs(s))|
    decreases s
  {
    ValidCountsStoredOf(s.subsets);
    FailuresConcat(s.outputs, AllOutputsOf(s.subsets));
  }

  lemma {:induction false} ValidCountsStoredOf(ss: seq<OutputSet>)
    requires forall i :: 0 <= i < |ss| ==> Valid(ss[i])
    ensures SumCounts(ss) == |AllOutputsOf(ss)|
    ensures SumFailedCounts(ss) == |Failures(AllOutputsOf(ss))|
    decreases ss
  {
    if ss != [] {
      ValidCountsStored(ss[0]);
      ValidCountsStoredOf(ss[1..]);
      FailuresConcat(AllOutputs(ss[0]), AllOutputsOf(ss[1..]));
    }
  }

  /** In a consistent set, `containsFailed` holds exactly when some stored output is a failure. */
  lemma ContainsFailedIffStoredFailure(s: OutputSet)
    requires Valid(s)
    ensures ContainsFailed(s) <==> exists i :: 0 <= i < |AllOutputs(s)| && IsFailure(AllOutputs(s)[i])
  {
    ValidCountsStored(s);
    NoFailuresIffEmpty(AllOutputs(s));
  }

  lemma {:induction false} NoFailuresIffEmpty(outs: seq<TestOutput>)
    ensures Failures(outs) == [] <==> forall i :: 0 <= i < |outs| ==> !IsFailure(outs[i])
  {
    if outs != [] {
      NoFailuresIffEmpty(outs[1..]);
      assert forall i :: 1 <= i < |outs| ==> outs[i] == outs[1..][i - 1];
    }
  }
}
