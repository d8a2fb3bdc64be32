/**
 * The statistics node of a preprocessor project: the counters that the line
 * scanner updates in place, the formatting of class names, and the two searches
 * over the per-class statistics.
 */
module Directives {
  import opened JavaStrings
  import opened LineScan

  /** The prefix shown for a class that is not in a named package. */
  const DefaultPackage: string := "(default package)."

  /** The text after the last `/` holds no `/`. */
  lemma NoSlashAfterLast(className: string)
    ensures '/' !in className[LastIndexOf(className, '/') + 1..]
  {
    var tail := className[LastIndexOf(className, '/') + 1..];
    forall k | 0 <= k < |tail| ensures tail[k] != '/' {
      assert tail[k] == className[LastIndexOf(className, '/') + 1 + k];
    }
  }

  /**
   * The name shown for the class at path `className`: the package path with
   * every `/` turned into `.`, or `(default package).` when the last `/` is at
   * index 0 or there is none, followed by the text after the last `/`.
   */
  function FormatClassName(className: string): (r: string)
    ensures '/' !in r
    ensures EndsWith(r, className[LastIndexOf(className, '/') + 1..])
    ensures LastIndexOf(className, '/') > 0 ==>
      |r| == |className| &&
      forall i :: 0 <= i < |r| ==> r[i] == (if className[i] == '/' then '.' else className[i])
    ensures LastIndexOf(className, '/') <= 0 ==>
      r == DefaultPackage + (if '/' in className then className[1..] else className)
  {
    var p := LastIndexOf(className, '/');
    var r := (if p > 0 then ReplaceChar(className[..p + 1], '/', '.') else DefaultPackage) + className[p + 1..];
    NoSlashAfterLast(className);
    assert p == -1 <==> '/' !in className by {
      if p >= 0 { assert className[p] == '/'; }
    }
    assert p <= 0 && '/' in className ==> p == 0;
    assert p == -1 ==> className[p + 1..] == className;
    r
  }

  /** One child of the per-class statistics: the class's shown name and its number of directives. */
  datatype ClassNode = ClassNode(description: string, value: int)

  /**
   * The name of the first class whose value equals `input`, or None (Java's
   * `null`) when no class has that value.
   */
  method SearchClass(data: seq<ClassNode>, input: int) returns (r: Option<string>)
    ensures r.None? <==> forall i :: 0 <= i < |data| ==> data[i].value != input
    ensures r.Some? ==>
      exists i :: 0 <= i < |data| && data[i].value == input && r.value == data[i].description &&
        forall j :: 0 <= j < i ==> data[j].value != input
  {
    for i := 0 to |data|
      invariant forall j :: 0 <= j < i ==> data[j].value != input
    {
      if data[i].value == input {
        return Some(data[i].description);
      }
    }
    return None;
  }

  /**
   * What the statistics know of one class: its path, whether it has roles, and
   * the maximum nesting of directives the aggregator found in it.
   */
  datatype ClassStats = ClassStats(name: string, hasRoles: bool, nesting: int)

  /**
   * The deepest nesting over the classes that have roles, starting from 0, and
   * the shown name of the first class that attains it; None (Java's `null`)
   * when no class with roles has a nesting above 0.
   */
  method MaxNestingClass(classes: seq<ClassStats>) returns (maxNesting: int, maxNestingClass: Option<string>)
    ensures maxNesting >= 0
    ensures forall i :: 0 <= i < |classes| && classes[i].hasRoles ==> classes[i].nesting <= maxNesting
    ensures maxNestingClass.None? <==> maxNesting == 0
    ensures maxNestingClass.Some? ==>
      exists k :: 0 <= k < |classes| && classes[k].hasRoles && classes[k].nesting == maxNesting &&
        maxNestingClass.value == FormatClassName(classes[k].name) &&
        forall j :: 0 <= j < k && classes[j].hasRoles ==> classes[j].nesting < maxNesting
  {
    maxNesting, maxNestingClass := 0, None;
    ghost var best := 0;
    for i := 0 to |classes|
      invariant maxNesting >= 0
      invariant forall j :: 0 <= j < i && classes[j].hasRoles ==> classes[j].nesting <= maxNesting
      invariant maxNestingClass.None? <==> maxNesting == 0
      invariant maxNestingClass.Some? ==>
        0 <= best < i && classes[best].hasRoles && classes[best].nesting == maxNesting &&
        maxNestingClass.value == FormatClassName(classes[best].name) &&
        forall j :: 0 <= j < best && classes[j].hasRoles ==> classes[j].nesting < maxNesting
    {
      var className := FormatClassName(classes[i].name);
      if classes[i].hasRoles {
        var currentNesting := classes[i].nesting;
        if currentNesting > maxNesting {
          maxNesting := currentNesting;
          maxNestingClass := Some(className);
          best := i;
        }
      }
    }
  }

  /** The node's counters, which every scanned file adds to. */
  class DirectivesNode {
    var numberOfLines: int
    /** The number of counted lines of each feature. */
    var featuresAndLines: map<string, int>

    /** The counters agree: no count is negative, and no feature has more lines than the total. */
    ghost predicate Valid()
      reads this
    {
      CountsConsistent(numberOfLines, featuresAndLines)
    }

    constructor ()
      ensures numberOfLines == 0 && featuresAndLines == map[]
      ensures Valid()
    {
      numberOfLines := 0;
      featuresAndLines := map[];
    }

    /**
     * The body of the scanning loop for the line `s`, already normalised, read
     * with the loop's two flags and current feature; returns the new flags and
     * feature, or true when the `//#if` access throws, with the counters then
     * untouched.
     */
    method ReadLine(s: string, isFeat: bool, isComment: bool, feat: string)
      returns (thrown: bool, isFeat': bool, isComment': bool, feat': string)
      requires isFeat ==> feat in featuresAndLines
      modifies this
      ensures var r := StepOn(Scanner(isFeat, isComment, feat, old(numberOfLines), old(featuresAndLines)), s);
        if thrown then r.None? && numberOfLines == old(numberOfLines) && featuresAndLines == old(featuresAndLines)
        else r == Some(Scanner(isFeat', isComment', feat', numberOfLines, featuresAndLines))
    {
      thrown, isFeat', isComment', feat' := false, isFeat, isComment, feat;
      if !isComment {
        if StartsWith(s, CommentOpen) {
          isComment' := true;
        } else if StartsWith(s, IfDirective) {
          var parts := Split(s, IfDirective);
          if |parts| < 2 {
            return true, isFeat, isComment, feat;
          }
          feat' := parts[1];
          featuresAndLines := featuresAndLines[feat' := 0];
          isFeat' := true;
        } else if StartsWith(s, EndifDirective) {
          isFeat' := false;
        } else if isFeat && !isComment && s != [] {
          if !StartsWith(s, LineComment) || StartsWith(s, Annotation) {
            featuresAndLines := featuresAndLines[feat := featuresAndLines[feat] + 1];
            numberOfLines := numberOfLines + 1;
          }
        } else if !isFeat && s != [] {
          if !StartsWith(s, LineComment) {
            numberOfLines := numberOfLines + 1;
          }
        }
      } else {
        if EndsWith(s, CommentClose) {
          isComment' := false;
        } else if Contains(s, CommentClose) && !EndsWith(s, CommentClose) {
          if isFeat {
            featuresAndLines := featuresAndLines[feat := featuresAndLines[feat] + 1];
            numberOfLines := numberOfLines + 1;
          } else {
            numberOfLines := numberOfLines + 1;
          }
          isComment' := false;
        }
      }
    }

    /**
     * Scans the lines of one file. Both flags start off on every call, while
     * the counters carry over from earlier calls. Returns true when the scan
     * stopped on an `//#if` line whose feature name cannot be read (the `[1]`
     * access, which throws); the counters then hold what the lines
     * before it left.
     */
    method CheckContent(currFeat: string, lines: seq<string>) returns (thrown: bool)
      modifies this
      ensures var r := Scan(Start(currFeat, old(numberOfLines), old(featuresAndLines)), lines, 0);
        numberOfLines == r.final.numberOfLines && featuresAndLines == r.final.featuresAndLines &&
        thrown == r.thrown
      ensures old(numberOfLines) <= numberOfLines <= old(numberOfLines) + |lines|
      ensures old(featuresAndLines).Keys <= featuresAndLines.Keys <= old(featuresAndLines).Keys + IfNames(lines)
      ensures old(Valid()) ==> Valid()
    {
      ghost var start := Start(currFeat, numberOfLines, featuresAndLines);
      ScanLineBound(start, lines, 0);
      ScanKeys(start, lines, 0);
      if Valid() {
        ScanConsistent(start, lines, 0);
      }
      var isFeat, isComment := false, false;
      var feat := currFeat;
      var i := 0;
      while i < |lines|
        invariant 0 <= i <= |lines|
        invariant isFeat ==> feat in featuresAndLines
        invariant Scan(start, lines, 0) ==
                  Scan(Scanner(isFeat, isComment, feat, numberOfLines, featuresAndLines), lines, i)
      {
        ghost var cur := Scanner(isFeat, isComment, feat, numberOfLines, featuresAndLines);
        var s := Normalize(lines[i]);
        var stop: bool;
        stop, isFeat, isComment, feat := ReadLine(s, isFeat, isComment, feat);
        ScanUnfold(cur, lines, i);
        if stop {
          return true;
        }
        i := i + 1;
      }
      return false;
    }
  }
}
