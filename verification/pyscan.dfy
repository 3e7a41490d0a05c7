/**
 * `src/PythonFileParser.ts`: a scan over the lines of a Python file that
 * finds the closest test class and test method at or below a cursor line.
 *
 * The two regular expressions are parameters: a matcher returns the name it
 * captures when the line matches and `None` otherwise. Reading and splitting
 * the file are left to the caller, which hands over the lines.
 */
module PyScan {
  import opened Common

  /** A regular expression with one captured name, as a function of the line. */
  type Matcher = string -> Option<string>

  /** The two names the scan tracks; `None` is `undefined`. */
  datatype Scan = Scan(className: Option<string>, methodName: Option<string>)

  /** A line whose trimmed text starts with `#` takes no part in matching. */
  predicate IsComment(line: string) {
    StartsWith(Trim(line), "#")
  }

  /**
   * What the scan needs to know of one line: whether it is a comment, the
   * class name it sets (the class expression matches and the lower-cased
   * line mentions `test`), and the method name the method expression captures.
   */
  datatype Line = Line(comment: bool, testClass: Option<string>, testMethod: Option<string>)

  function Classify(line: string, classMatch: Matcher, methodMatch: Matcher): Line {
    Line(
      IsComment(line),
      if classMatch(line).Some? && Contains(ToLowerAscii(line), "test") then classMatch(line) else None,
      methodMatch(line))
  }

  /** Every line of the file, classified. */
  function ClassifyAll(lines: seq<string>, classMatch: Matcher, methodMatch: Matcher): (r: seq<Line>)
    ensures |r| == |lines|
  {
    if lines == [] then [] else [Classify(lines[0], classMatch, methodMatch)] + ClassifyAll(lines[1..], classMatch, methodMatch)
  }

  lemma {:induction false} ClassifyAllAt(lines: seq<string>, classMatch: Matcher, methodMatch: Matcher, i: nat)
    requires i < |lines|
    ensures ClassifyAll(lines, classMatch, methodMatch)[i] == Classify(lines[i], classMatch, methodMatch)
  {
    var r := ClassifyAll(lines, classMatch, methodMatch);
    var first := Classify(lines[0], classMatch, methodMatch);
    assert r == [first] + ClassifyAll(lines[1..], classMatch, methodMatch);
    if i > 0 {
      ClassifyAllAt(lines[1..], classMatch, methodMatch, i - 1);
      assert lines[1..][i - 1] == lines[i];
    }
  }

  /** The effect of one line on the tracked names. */
  function Step(s: Scan, l: Line): Scan {
    if l.comment then s
    else
      var cls := if l.testClass.Some? then l.testClass else s.className;
      var mth := if Truthy(cls) && l.testMethod.Some? then l.testMethod else s.methodName;
      Scan(cls, mth)
  }

  /** The names after the first `n` lines, with no early stop. */
  function StateAfter(ls: seq<Line>, n: nat): Scan
    requires n <= |ls|
  {
    if n == 0 then Scan(None, None) else Step(StateAfter(ls, n - 1), ls[n - 1])
  }

  /** Both names are known (truthy). */
  predicate Known(s: Scan) {
    Truthy(s.className) && Truthy(s.methodName)
  }

  /** The scan stops at line `i`: a non-comment line at or past the target after which both names are known. */
  predicate StopsAt(ls: seq<Line>, target: int, i: nat)
    requires i < |ls|
  {
    !ls[i].comment && i >= target && Known(StateAfter(ls, i + 1))
  }

  /** The first line from `i` on at which the scan stops, if any. */
  function FirstStopFrom(ls: seq<Line>, target: int, i: nat): (r: Option<nat>)
    requires i <= |ls|
    ensures r.Some? ==> i <= r.value < |ls| && StopsAt(ls, target, r.value)
    ensures forall j :: i <= j < (if r.Some? then r.value else |ls|) ==> !StopsAt(ls, target, j)
    decreases |ls| - i
  {
    if i == |ls| then None
    else if StopsAt(ls, target, i) then Some(i)
    else FirstStopFrom(ls, target, i + 1)
  }

  /** The names `parse` reports: those after the stopping line, or after the last line. */
  function Reported(ls: seq<Line>, target: int): Scan {
    var stop := FirstStopFrom(ls, target, 0);
    StateAfter(ls, if stop.Some? then stop.value + 1 else |ls|)
  }

  /**
   * `parse`: the names as they stand after the first stopping line, or after
   * the last line when the scan never stops. The line counter advances on
   * every physical line, comments included.
   */
  method Parse(lines: seq<string>, target: int, classMatch: Matcher, methodMatch: Matcher)
    returns (className: Option<string>, methodName: Option<string>)
    ensures Scan(className, methodName) == Reported(ClassifyAll(lines, classMatch, methodMatch), target)
  {
    ghost var ls := ClassifyAll(lines, classMatch, methodMatch);
    className, methodName := None, None;
    var lineNumber := 0;
    var i := 0;
    while i < |lines|
      invariant 0 <= i <= |lines| && lineNumber == i
      invariant Scan(className, methodName) == StateAfter(ls, i)
      invariant FirstStopFrom(ls, target, 0) == FirstStopFrom(ls, target, i)
    {
      var l := Classify(lines[i], classMatch, methodMatch);
      ClassifyAllAt(lines, classMatch, methodMatch, i);
      assert l == ls[i];
      Advance(ls, target, i);
      className, methodName := ScanLine(className, methodName, l);
      assert Scan(className, methodName) == StateAfter(ls, i + 1);
      if !l.comment && lineNumber >= target && Truthy(className) && Truthy(methodName) {
        break;
      }
      lineNumber := lineNumber + 1;
      i := i + 1;
    }
  }

  /** The updates of one line: a comment changes nothing; a test class line sets the class; a method is taken once a class is known. */
  method ScanLine(className: Option<string>, methodName: Option<string>, l: Line)
    returns (newClass: Option<string>, newMethod: Option<string>)
    ensures Scan(newClass, newMethod) == Step(Scan(className, methodName), l)
  {
    newClass, newMethod := className, methodName;
    if !l.comment {
      if l.testClass.Some? {
        newClass := l.testClass;
      }
      if Truthy(newClass) && l.testMethod.Some? {
        newMethod := l.testMethod;
      }
    }
  }

  /** One more line: the state takes one step, and the search for the stop moves past a line that does not stop it. */
  lemma Advance(ls: seq<Line>, target: int, i: nat)
    requires i < |ls|
    ensures StateAfter(ls, i + 1) == Step(StateAfter(ls, i), ls[i])
    ensures FirstStopFrom(ls, target, i) == if StopsAt(ls, target, i) then Some(i) else FirstStopFrom(ls, target, i + 1)
  {
  }

  /** Comment lines change nothing and never stop the scan. */
  lemma CommentLinesIgnored(ls: seq<Line>, target: int, n: nat)
    requires n < |ls| && ls[n].comment
    ensures StateAfter(ls, n + 1) == StateAfter(ls, n)
    ensures !StopsAt(ls, target, n)
  {
  }

  /**
   * The class name is defined exactly when some earlier non-comment line
   * sets one, and then it is the name set by the latest such line.
   */
  lemma {:induction false} ClassNameIsLatest(ls: seq<Line>, n: nat)
    requires n <= |ls|
    ensures StateAfter(ls, n).className.Some? <==> exists j :: 0 <= j < n && SetsClass(ls[j])
    ensures forall j :: 0 <= j < n && SetsClass(ls[j]) && NoneSetsClass(ls, j + 1, n) ==>
      StateAfter(ls, n).className == ls[j].testClass
  {
    if n > 0 {
      ClassNameIsLatest(ls, n - 1);
      forall j | 0 <= j < n && SetsClass(ls[j]) && NoneSetsClass(ls, j + 1, n)
        ensures StateAfter(ls, n).className == ls[j].testClass
      {
        if j < n - 1 {
          assert NoneSetsClass(ls, j + 1, n - 1);
        }
      }
    }
  }

  predicate SetsClass(l: Line) {
    !l.comment && l.testClass.Some?
  }

  predicate NoneSetsClass(ls: seq<Line>, from: nat, to: nat)
    requires from <= to <= |ls|
  {
    forall k :: from <= k < to ==> !SetsClass(ls[k])
  }

  /** Line `j` records a method: not a comment, matched, and a test class known once its class check has run. */
  predicate RecordsMethod(ls: seq<Line>, j: nat)
    requires j < |ls|
  {
    !ls[j].comment && ls[j].testMethod.Some? && Truthy(StateAfter(ls, j + 1).className)
  }

  predicate NoneRecordsMethod(ls: seq<Line>, from: nat, to: nat)
    requires from <= to <= |ls|
  {
    forall k :: from <= k < to ==> !RecordsMethod(ls, k)
  }

  /**
   * The method name is defined exactly when some earlier line recorded a
   * method, and then it is the name captured on the latest such line.
   */
  lemma {:induction false} MethodNameIsLatest(ls: seq<Line>, n: nat)
    requires n <= |ls|
    ensures StateAfter(ls, n).methodName.Some? <==> exists j :: 0 <= j < n && RecordsMethod(ls, j)
    ensures forall j :: 0 <= j < n && RecordsMethod(ls, j) && NoneRecordsMethod(ls, j + 1, n) ==>
      StateAfter(ls, n).methodName == ls[j].testMethod
  {
    if n > 0 {
      MethodNameIsLatest(ls, n - 1);
      var prev, now := StateAfter(ls, n - 1), StateAfter(ls, n);
      assert now == Step(prev, ls[n - 1]);
      if RecordsMethod(ls, n - 1) {
        assert now.methodName == ls[n - 1].testMethod;
      } else {
        assert now.methodName == prev.methodName;
      }
      forall j | 0 <= j < n && RecordsMethod(ls, j) && NoneRecordsMethod(ls, j + 1, n)
        ensures StateAfter(ls, n).methodName == ls[j].testMethod
      {
        if j < n - 1 {
          assert NoneRecordsMethod(ls, j + 1, n - 1);
        }
      }
    }
  }

  /** A method name is only ever recorded once a test class has been seen. */
  lemma {:induction false} MethodOnlyAfterClass(ls: seq<Line>, n: nat)
    requires n <= |ls|
    ensures StateAfter(ls, n).methodName.Some? ==> StateAfter(ls, n).className.Some?
  {
    if n > 0 {
      MethodOnlyAfterClass(ls, n - 1);
    }
  }

  /**
   * Names are never cleared: a later class line replaces the class name but
   * keeps the method name, so a name defined after `m` lines stays defined.
   */
  lemma {:induction false} NamesPersist(ls: seq<Line>, m: nat, n: nat)
    requires m <= n <= |ls|
    ensures StateAfter(ls, m).className.Some? ==> StateAfter(ls, n).className.Some?
    ensures StateAfter(ls, m).methodName.Some? ==> StateAfter(ls, n).methodName.Some?
    decreases n - m
  {
    if m < n {
      NamesPersist(ls, m + 1, n);
    }
  }

  /**
   * A non-comment line at or past the target after which both names are
   * known bounds the stopping line from above.
   */
  lemma StopNoLaterThan(ls: seq<Line>, target: int, i: nat)
    requires i < |ls| && StopsAt(ls, target, i)
    ensures var stop := FirstStopFrom(ls, target, 0);
      stop.Some? && stop.value <= i
  {
  }
}
