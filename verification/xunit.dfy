/**
 * `src/outputhandlers/XunitOutputHandler.ts`, from an already parsed xUnit
 * document: each `<testcase>` is validated and turned into one leaf record,
 * suites and suite collections are walked in document order, and the root
 * decides between `<testsuites>` and `<testsuite>`.
 *
 * Absent attributes, elements and texts are `None`. The mapping of a relative
 * file to an absolute path is a parameter. Processing stops at the first
 * error; the records produced before it are kept, as the source's additions
 * to its output set are.
 */
module Xunit {
  import opened Common

  /** The attributes of a `<testcase>` element. */
  datatype CaseAttributes = CaseAttributes(
    classname: Option<string>,
    name: Option<string>,
    file: Option<string>,
    line: Option<string>)

  /** A `<failure>` element; `text` is its character content. */
  datatype FailureElement = FailureElement(text: Option<string>)

  /** A `<testcase>` element: its attributes and its `<failure>` children. */
  datatype TestCase = TestCase(attributes: CaseAttributes, failures: Option<seq<FailureElement>>)

  /** A `<testsuite>` element: its `name` attribute and its `<testcase>` children. */
  datatype TestSuite = TestSuite(name: Option<string>, testcases: Option<seq<TestCase>>)

  /** A `<testsuites>` element. */
  datatype TestSuites = TestSuites(testsuites: Option<seq<TestSuite>>)

  /** The parsed document: which root elements are present. */
  datatype Document = Document(testsuites: Option<TestSuites>, testsuite: Option<TestSuite>)

  /** The record handed on for one test case. */
  datatype LeafRecord = LeafRecord(
    codePath: seq<string>,
    fileFsPath: string,
    relativeFsPath: string,
    line: Option<int>,
    failureMessage: Option<string>,
    testSuiteName: Option<string>,
    testCaseName: string,
    testName: string)

  /** Why processing stops. */
  datatype XunitError =
    | MissingClassname
    | MissingName
    | MissingFile
    | MissingLine
    | NoSuiteAtRoot

  /** What a walk produced: the records in order, and the error that stopped it, if any. */
  datatype Processed = Processed(records: seq<LeafRecord>, error: Option<XunitError>)

  /** The separator between failure texts. */
  const FailureSeparator: string := "\n\n#####################################\n\n"

  /** The text of a failure element; a missing text joins as the empty string. */
  function FailureText(e: FailureElement): string {
    match e.text
    case Some(t) => t
    case None => ""
  }

  function FailureTexts(es: seq<FailureElement>): (r: seq<string>)
    ensures |r| == |es|
    ensures forall i :: 0 <= i < |es| ==> r[i] == FailureText(es[i])
  {
    if es == [] then [] else [FailureText(es[0])] + FailureTexts(es[1..])
  }

  /** `joinFailureElements`. */
  function JoinFailureElements(es: seq<FailureElement>): string {
    Join(FailureTexts(es), FailureSeparator)
  }

  /**
   * One element gives its text unchanged; more give every text plus one
   * separator between each pair.
   */
  lemma JoinFailureElementsLength(es: seq<FailureElement>)
    requires |es| >= 1
    ensures |es| == 1 ==> JoinFailureElements(es) == FailureText(es[0])
    ensures |JoinFailureElements(es)| == TotalLength(FailureTexts(es)) + (|es| - 1) * |FailureSeparator|
  {
    JoinLength(FailureTexts(es), FailureSeparator);
  }

  /**
   * `addTestCaseElement`: the attributes must be truthy in the order
   * classname, name, file, line; the code-path is the classname split on
   * dots followed by the name; failures are joined only when there is at
   * least one; the line is parsed in base 10.
   */
  function AddTestCase(suiteName: Option<string>, tc: TestCase, absolute: string -> string): (r: Result<LeafRecord, XunitError>)
    ensures r.Success? <==>
      Truthy(tc.attributes.classname) && Truthy(tc.attributes.name) && Truthy(tc.attributes.file) && Truthy(tc.attributes.line)
  {
    var a := tc.attributes;
    if !Truthy(a.classname) then Failure(MissingClassname)
    else if !Truthy(a.name) then Failure(MissingName)
    else if !Truthy(a.file) then Failure(MissingFile)
    else if !Truthy(a.line) then Failure(MissingLine)
    else
      var failureMessage :=
        if tc.failures.Some? && |tc.failures.value| > 0 then Some(JoinFailureElements(tc.failures.value)) else None;
      Success(LeafRecord(
        Split(a.classname.value, '.') + [a.name.value],
        absolute(a.file.value),
        a.file.value,
        ParseInt10(a.line.value),
        failureMessage,
        suiteName,
        a.classname.value,
        a.name.value))
  }

  /** The checks run in order: the first attribute that is not truthy names the error. */
  lemma AddTestCaseErrorOrder(suiteName: Option<string>, tc: TestCase, absolute: string -> string)
    ensures var a := tc.attributes;
      var r := AddTestCase(suiteName, tc, absolute);
      && (!Truthy(a.classname) ==> r == Failure(MissingClassname))
      && (Truthy(a.classname) && !Truthy(a.name) ==> r == Failure(MissingName))
      && (Truthy(a.classname) && Truthy(a.name) && !Truthy(a.file) ==> r == Failure(MissingFile))
      && (Truthy(a.classname) && Truthy(a.name) && Truthy(a.file) && !Truthy(a.line) ==> r == Failure(MissingLine))
  {
  }

  /**
   * The code-path has one segment per dot of the classname plus two; all
   * but its last segment join back into the classname, and the last is the
   * test name.
   */
  lemma {:induction false} CodePathShape(suiteName: Option<string>, tc: TestCase, absolute: string -> string)
    requires AddTestCase(suiteName, tc, absolute).Success?
    ensures var r := AddTestCase(suiteName, tc, absolute).value;
      && |r.codePath| == CountChar(tc.attributes.classname.value, '.') + 2
      && Join(r.codePath[..|r.codePath| - 1], ".") == tc.attributes.classname.value
      && r.codePath[|r.codePath| - 1] == tc.attributes.name.value
  {
    var r := AddTestCase(suiteName, tc, absolute).value;
    var parts := Split(tc.attributes.classname.value, '.');
    assert r.codePath[..|r.codePath| - 1] == parts;
    JoinSplit(tc.attributes.classname.value, '.');
  }

  /** A failure message is present exactly when the test case has at least one failure element. */
  lemma FailureMessagePresence(suiteName: Option<string>, tc: TestCase, absolute: string -> string)
    requires AddTestCase(suiteName, tc, absolute).Success?
    ensures var r := AddTestCase(suiteName, tc, absolute).value;
      && (r.failureMessage.Some? <==> tc.failures.Some? && |tc.failures.value| > 0)
      && (r.failureMessage.Some? ==> r.failureMessage.value == JoinFailureElements(tc.failures.value))
  {
  }

  /** A line attribute holding a decimal number, possibly followed by a non-digit, is read as that number. */
  lemma LineIsParsedDecimal(suiteName: Option<string>, tc: TestCase, absolute: string -> string, n: nat, suffix: string)
    requires AddTestCase(suiteName, tc, absolute).Success?
    requires tc.attributes.line == Some(NatToString(n) + suffix)
    requires suffix == [] || !IsDigit(suffix[0])
    ensures AddTestCase(suiteName, tc, absolute).value.line == Some(n)
  {
    ParseIntOfRendering(n, suffix);
  }

  // ---------------------------------------------------------------------
  // Suites, suite collections and the root
  // ---------------------------------------------------------------------

  /** The loop of `addTestSuiteElement` over its test cases. */
  function AddCases(suiteName: Option<string>, cases: seq<TestCase>, absolute: string -> string): Processed {
    if cases == [] then Processed([], None)
    else match AddTestCase(suiteName, cases[0], absolute)
      case Failure(e) => Processed([], Some(e))
      case Success(rec) =>
        var rest := AddCases(suiteName, cases[1..], absolute);
        Processed([rec] + rest.records, rest.error)
  }

  /** `addTestSuiteElement`: a missing test case list adds nothing. */
  function AddTestSuite(suite: TestSuite, absolute: string -> string): Processed {
    AddCases(suite.name, if suite.testcases.Some? then suite.testcases.value else [], absolute)
  }

  /** `addTestSuitesElement`: the suites in order, stopping at the first error. */
  function AddSuites(suites: seq<TestSuite>, absolute: string -> string): Processed {
    if suites == [] then Processed([], None)
    else
      var first := AddTestSuite(suites[0], absolute);
      if first.error.Some? then first
      else
        var rest := AddSuites(suites[1..], absolute);
        Processed(first.records + rest.records, rest.error)
  }

  function AddTestSuites(suites: TestSuites, absolute: string -> string): Processed {
    AddSuites(if suites.testsuites.Some? then suites.testsuites.value else [], absolute)
  }

  /** The root dispatch of `handleProcessDone`: `<testsuites>` first, then `<testsuite>`, else an error. */
  function HandleDocument(doc: Document, absolute: string -> string): (r: Processed)
    ensures doc.testsuites.None? && doc.testsuite.None? ==> r == Processed([], Some(NoSuiteAtRoot))
  {
    if doc.testsuites.Some? then AddTestSuites(doc.testsuites.value, absolute)
    else if doc.testsuite.Some? then AddTestSuite(doc.testsuite.value, absolute)
    else Processed([], Some(NoSuiteAtRoot))
  }

  /** `<testsuites>` wins when both roots are present. */
  lemma RootPrefersTestSuites(doc: Document, absolute: string -> string)
    requires doc.testsuites.Some?
    ensures HandleDocument(doc, absolute) == AddTestSuites(doc.testsuites.value, absolute)
  {
  }

  // ---------------------------------------------------------------------
  // Document order with an abort: the reference walk
  // ---------------------------------------------------------------------

  /** A test case together with the name of the suite it sits in. */
  datatype TaggedCase = TaggedCase(suiteName: Option<string>, tc: TestCase)

  /** Every test case of the suites, in document order. */
  function AllCases(suites: seq<TestSuite>): seq<TaggedCase> {
    if suites == [] then []
    else Tag(suites[0]) + AllCases(suites[1..])
  }

  /** The test cases of one suite, each tagged with the suite's name. */
  function Tag(suite: TestSuite): seq<TaggedCase> {
    TagAll(suite.name, if suite.testcases.Some? then suite.testcases.value else [])
  }

  function TagAll(suiteName: Option<string>, cases: seq<TestCase>): (r: seq<TaggedCase>)
    ensures |r| == |cases|
  {
    if cases == [] then [] else [TaggedCase(suiteName, cases[0])] + TagAll(suiteName, cases[1..])
  }

  /** Whether a test case passes validation: its four attributes are truthy. */
  predicate Accepted(c: TaggedCase) {
    var a := c.tc.attributes;
    Truthy(a.classname) && Truthy(a.name) && Truthy(a.file) && Truthy(a.line)
  }

  /** The position of the first rejected case, or the length when all are accepted. */
  function FirstRejected(cs: seq<TaggedCase>): (k: nat)
    ensures k <= |cs|
    ensures forall i :: 0 <= i < k ==> Accepted(cs[i])
    ensures k < |cs| ==> !Accepted(cs[k])
  {
    if cs == [] || !Accepted(cs[0]) then 0
    else
      var k := FirstRejected(cs[1..]);
      assert forall i :: 1 <= i < k + 1 ==> cs[i] == cs[1..][i - 1];
      1 + k
  }

  /**
   * The reference: records for the accepted prefix of the cases in document
   * order, and the error of the first rejected case, if there is one.
   */
  predicate IsPrefixRun(p: Processed, cs: seq<TaggedCase>, absolute: string -> string) {
    var k := FirstRejected(cs);
    && |p.records| == k
    && (forall i :: 0 <= i < k ==> p.records[i] == AddTestCase(cs[i].suiteName, cs[i].tc, absolute).value)
    && (p.error.Some? <==> k < |cs|)
    && (k < |cs| ==> p.error == Some(AddTestCase(cs[k].suiteName, cs[k].tc, absolute).error))
  }

  /** One suite yields the records of its accepted prefix and stops at its first malformed case. */
  lemma {:induction false} AddTestSuiteIsPrefixRun(suite: TestSuite, absolute: string -> string)
    ensures IsPrefixRun(AddTestSuite(suite, absolute), Tag(suite), absolute)
  {
    AddCasesIsPrefixRun(suite.name, if suite.testcases.Some? then suite.testcases.value else [], absolute);
  }

  lemma {:induction false} AddCasesIsPrefixRun(suiteName: Option<string>, cases: seq<TestCase>, absolute: string -> string)
    ensures IsPrefixRun(AddCases(suiteName, cases, absolute), TagAll(suiteName, cases), absolute)
  {
    if cases != [] {
      var tagged := TagAll(suiteName, cases);
      assert tagged == [TaggedCase(suiteName, cases[0])] + TagAll(suiteName, cases[1..]);
      var c := TaggedCase(suiteName, cases[0]);
      SingleRun(c, absolute);
      AddCasesIsPrefixRun(suiteName, cases[1..], absolute);
      var r := AddTestCase(suiteName, cases[0], absolute);
      PrefixRunConcat(if r.Success? then Processed([r.value], None) else Processed([], Some(r.error)),
        AddCases(suiteName, cases[1..], absolute), [c], TagAll(suiteName, cases[1..]), absolute);
    }
  }

  /** A single case on its own: its record when accepted, its error otherwise. */
  lemma SingleRun(c: TaggedCase, absolute: string -> string)
    ensures var r := AddTestCase(c.suiteName, c.tc, absolute);
      IsPrefixRun(if r.Success? then Processed([r.value], None) else Processed([], Some(r.error)), [c], absolute)
  {
    assert [c][1..] == [];
  }

  /**
   * All suites together behave as one walk over every test case in document
   * order: the records of the accepted prefix, then the first error.
   */
  lemma {:induction false} AddSuitesIsPrefixRun(suites: seq<TestSuite>, absolute: string -> string)
    ensures IsPrefixRun(AddSuites(suites, absolute), AllCases(suites), absolute)
  {
    if suites != [] {
      AddTestSuiteIsPrefixRun(suites[0], absolute);
      AddSuitesIsPrefixRun(suites[1..], absolute);
      PrefixRunConcat(AddTestSuite(suites[0], absolute), AddSuites(suites[1..], absolute),
        Tag(suites[0]), AllCases(suites[1..]), absolute);
    }
  }

  /** Prefix runs compose: a clean run over `a` followed by a run over `b` is a run over `a + b`. */
  lemma PrefixRunConcat(p: Processed, q: Processed, a: seq<TaggedCase>, b: seq<TaggedCase>, absolute: string -> string)
    requires IsPrefixRun(p, a, absolute) && IsPrefixRun(q, b, absolute)
    ensures IsPrefixRun(if p.error.Some? then p else Processed(p.records + q.records, q.error), a + b, absolute)
  {
    FirstRejectedConcat(a, b);
    if p.error.Some? {
      PrefixRunStopped(p, a, b, absolute);
    } else {
      PrefixRunClean(p, q, a, b, absolute);
    }
  }

  lemma PrefixRunStopped(p: Processed, a: seq<TaggedCase>, b: seq<TaggedCase>, absolute: string -> string)
    requires IsPrefixRun(p, a, absolute) && p.error.Some?
    requires FirstRejected(a + b) == FirstRejected(a)
    ensures IsPrefixRun(p, a + b, absolute)
  {
    var k := FirstRejected(a);
    assert forall i :: 0 <= i <= k ==> (a + b)[i] == a[i];
  }

  lemma PrefixRunClean(p: Processed, q: Processed, a: seq<TaggedCase>, b: seq<TaggedCase>, absolute: string -> string)
    requires IsPrefixRun(p, a, absolute) && IsPrefixRun(q, b, absolute) && p.error.None?
    requires FirstRejected(a + b) == |a| + FirstRejected(b)
    ensures IsPrefixRun(Processed(p.records + q.records, q.error), a + b, absolute)
  {
    var r := p.records + q.records;
    var k := FirstRejected(a + b);
    forall i | 0 <= i < k
      ensures r[i] == AddTestCase((a + b)[i].suiteName, (a + b)[i].tc, absolute).value
    {
      if i < |a| {
        assert r[i] == p.records[i] && (a + b)[i] == a[i];
      } else {
        assert r[i] == q.records[i - |a|] && (a + b)[i] == b[i - |a|];
      }
    }
    if k < |a + b| {
      assert (a + b)[k] == b[k - |a|];
    }
  }

  lemma {:induction false} FirstRejectedConcat(a: seq<TaggedCase>, b: seq<TaggedCase>)
    ensures FirstRejected(a + b) ==
      if FirstRejected(a) < |a| then FirstRejected(a) else |a| + FirstRejected(b)
  {
    if a != [] {
      assert (a + b)[1..] == a[1..] + b;
      FirstRejectedConcat(a[1..], b);
    } else {
      assert a + b == b;
    }
  }

  /**
   * The whole document: with `<testsuites>` at the root, every case of every
   * suite in document order; with only `<testsuite>`, the cases of that suite.
   */
  lemma HandleDocumentIsPrefixRun(doc: Document, absolute: string -> string)
    ensures doc.testsuites.Some? ==>
      var suites := doc.testsuites.value;
      IsPrefixRun(HandleDocument(doc, absolute),
        AllCases(if suites.testsuites.Some? then suites.testsuites.value else []), absolute)
    ensures doc.testsuites.None? && doc.testsuite.Some? ==>
      IsPrefixRun(HandleDocument(doc, absolute), Tag(doc.testsuite.value), absolute)
  {
    if doc.testsuites.Some? {
      var suites := doc.testsuites.value;
      AddSuitesIsPrefixRun(if suites.testsuites.Some? then suites.testsuites.value else [], absolute);
    } else if doc.testsuite.Some? {
      AddTestSuiteIsPrefixRun(doc.testsuite.value, absolute);
    }
  }
}
