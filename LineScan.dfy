/**
 * The line-counting state machine behind the statistics of a preprocessor
 * (Antenna-style `//#if` ... `//#endif`) project: what one source line does to
 * the scanner, what a whole file does, and the properties of both.
 *
 * A scanner holds the two flags that live for one file ("inside a block
 * comment", "inside a feature block"), the current feature, and the two
 * counters that accumulate over every file: the number of counted lines and
 * the number of counted lines per feature.
 */
module LineScan {
  import opened JavaStrings

  const IfDirective: string := "//#if"
  const EndifDirective: string := "//#endif"
  const CommentOpen: string := "/*"
  const CommentClose: string := "*/"
  const LineComment: string := "//"
  const Annotation: string := "//@"

  /**
   * A line as the counter sees it: trimmed, then with every tab and every space
   * deleted. It holds no tab and no space; it is empty exactly when the line has
   * only characters up to U+0020; a line without any such character is kept as is.
   */
  function Normalize(line: string): (s: string)
    ensures ' ' !in s && '\t' !in s
    ensures s == [] <==> forall i :: 0 <= i < |line| ==> IsTrimmed(line[i])
    ensures (forall i :: 0 <= i < |line| ==> !IsTrimmed(line[i])) ==> s == line
  {
    var t := Trim(line);
    var r := RemoveAll(RemoveAll(t, '\t'), ' ');
    assert t != [] ==> r != [] by {
      if t != [] {
        assert t[0] in t;
      }
    }
    assert (forall i :: 0 <= i < |line| ==> !IsTrimmed(line[i])) ==> r == line by {
      if forall i :: 0 <= i < |line| ==> !IsTrimmed(line[i]) {
        RemoveAllAbsent(line);
      }
    }
    r
  }

  /**
   * The text of a line between its leading and its trailing characters up to
   * U+0020, with its tabs and spaces deleted; when it holds none, that text itself.
   */
  lemma NormalizePadded(w1: string, p: string, w2: string)
    requires forall i :: 0 <= i < |w1| ==> IsTrimmed(w1[i])
    requires forall i :: 0 <= i < |w2| ==> IsTrimmed(w2[i])
    requires p == [] || (!IsTrimmed(p[0]) && !IsTrimmed(p[|p| - 1]))
    ensures Normalize(w1 + p + w2) == RemoveAll(RemoveAll(p, '\t'), ' ')
    ensures '\t' !in p && ' ' !in p ==> Normalize(w1 + p + w2) == p
  {
    TrimPadded(w1, p, w2);
  }

  /** A line with no character up to U+0020 holds no tab and no space, so nothing is deleted from it. */
  lemma RemoveAllAbsent(line: string)
    requires forall i :: 0 <= i < |line| ==> !IsTrimmed(line[i])
    ensures RemoveAll(RemoveAll(Trim(line), '\t'), ' ') == line
  {
    assert forall k :: 0 <= k < |line| ==> line[k] != '\t' && line[k] != ' ';
    assert RemoveAll(line, '\t') == line;
  }

  /**
   * Element [1] of `s.split("//#if")`, or None where that array has fewer than
   * two elements and the access throws.
   */
  function DirectiveName(s: string): (r: Option<string>)
    ensures r.Some? ==> !Contains(r.value, IfDirective)
  {
    var parts := Split(s, IfDirective);
    if |parts| > 1 then Some(parts[1]) else None
  }

  /** On a line that starts with `//#if`, the split array is an empty piece, then the pieces after the directive. */
  lemma SplitAfterDirective(s: string)
    requires StartsWith(s, IfDirective)
    ensures Split(s, IfDirective) == DropTrailingEmpty([[]] + Segments(s[|IfDirective|..], IfDirective))
  {
    StartsWithIsOccursAtZero(s, IfDirective);
    assert IndexFrom(s, IfDirective, 0) == Some(0);
    assert s[0 + |IfDirective|..] == s[|IfDirective|..];
    assert s[..0] == [];
  }

  /** Behind a leading empty piece, dropping the trailing empty pieces keeps a second element exactly when some piece is non-empty. */
  lemma DropAfterEmpty(segs: seq<string>)
    requires |segs| >= 1
    ensures var r := DropTrailingEmpty([[]] + segs);
      (|r| > 1 <==> !AllEmpty(segs)) && (|r| > 1 ==> r[1] == segs[0])
  {
    var parts := [[]] + segs;
    var r := DropTrailingEmpty(parts);
    if |r| > 1 {
      assert parts[|r| - 1] != [] && segs[|r| - 2] != [];
      assert r[1] == parts[1] == segs[0];
    } else {
      forall j | 0 <= j < |segs| ensures segs[j] == [] {
        assert parts[j + 1] == segs[j];
      }
    }
  }

  /**
   * On a line that starts with `//#if`: the access fails exactly when the rest of
   * the line is `//#if` repeated (in particular when nothing follows); otherwise
   * the feature name is the text after the directive up to the next `//#if` or
   * the end of the line.
   */
  lemma DirectiveNameSpec(s: string)
    requires StartsWith(s, IfDirective)
    ensures DirectiveName(s).None? <==> OnlyRepeats(s[|IfDirective|..], IfDirective)
    ensures DirectiveName(s).Some? ==>
      var f := DirectiveName(s).value;
      StartsWith(s, IfDirective + f) && !Contains(f, IfDirective) &&
      (|s| == |IfDirective| + |f| || OccursAt(s, IfDirective, |IfDirective| + |f|))
  {
    DirectiveNameFails(s);
    if DirectiveName(s).Some? {
      DirectiveNameFound(s);
    }
  }

  lemma DirectiveNameFails(s: string)
    requires StartsWith(s, IfDirective)
    ensures DirectiveName(s).None? <==> OnlyRepeats(s[|IfDirective|..], IfDirective)
  {
    var t := s[|IfDirective|..];
    SplitAfterDirective(s);
    DropAfterEmpty(Segments(t, IfDirective));
    SegmentsAllEmpty(t, IfDirective);
  }

  lemma DirectiveNameFound(s: string)
    requires StartsWith(s, IfDirective) && DirectiveName(s).Some?
    ensures var f := DirectiveName(s).value;
      StartsWith(s, IfDirective + f) &&
      (|s| == |IfDirective| + |f| || OccursAt(s, IfDirective, |IfDirective| + |f|))
  {
    var n := |IfDirective|;
    var t := s[n..];
    var segs := Segments(t, IfDirective);
    SplitAfterDirective(s);
    DropAfterEmpty(segs);
    FirstSegment(t, IfDirective);
    var f := segs[0];
    assert DirectiveName(s) == Some(f);
    PrefixThen(s, IfDirective, f);
    if |f| != |t| {
      assert OccursAt(t, IfDirective, |f|);
      DropSlice(s, n, |f|, |f| + n);
    }
  }

  /** A string that starts with `p`, and then with `f`, starts with `p + f`. */
  lemma PrefixThen(s: string, p: string, f: string)
    requires StartsWith(s, p) && StartsWith(s[|p|..], f)
    ensures StartsWith(s, p + f)
  {
    assert s[..|p| + |f|] == s[..|p|] + s[|p|..][..|f|];
  }

  /** A slice of a suffix is a slice of the whole. */
  lemma DropSlice(s: string, n: nat, a: nat, b: nat)
    requires n <= |s| && a <= b <= |s| - n
    ensures s[n..][a..b] == s[n + a..n + b]
  {
  }

  /** A line `//#if` followed by a name that holds no `//#if` yields that name. */
  lemma DirectiveNameOf(name: string)
    requires name != [] && !Contains(name, IfDirective)
    ensures DirectiveName(IfDirective + name) == Some(name)
  {
    var s := IfDirective + name;
    assert s[..|IfDirective|] == IfDirective;
    assert s[|IfDirective|..] == name;
    StartsWithIsOccursAtZero(name, IfDirective);
    assert !OccursAt(name, IfDirective, 0);
    DirectiveNameSpec(s);
    assert !OnlyRepeats(name, IfDirective);
    var f := DirectiveName(s).value;
    assert name[..|f|] == f by {
      assert s[..|IfDirective| + |f|] == IfDirective + f;
      assert name[..|f|] == s[..|IfDirective| + |f|][|IfDirective|..];
      assert (IfDirective + f)[|IfDirective|..] == f;
    }
    if |s| != |IfDirective| + |f| {
      assert OccursAt(s, IfDirective, |IfDirective| + |f|);
      DropSlice(s, |IfDirective|, |f|, |f| + |IfDirective|);
      assert OccursAt(name, IfDirective, |f|);
      assert false;
    }
    assert name[..|name|] == name;
  }

  /** A bare `//#if` has nothing after the directive: the split array has no element [1]. */
  lemma BareDirectiveFails()
    ensures DirectiveName(IfDirective).None?
  {
    assert IfDirective[..|IfDirective|] == IfDirective;
    DirectiveNameSpec(IfDirective);
    assert IfDirective[|IfDirective|..] == [];
  }

  datatype Scanner = Scanner(isFeat: bool, isComment: bool, currFeat: string,
                             numberOfLines: int, featuresAndLines: map<string, int>)

  /** The result of scanning a file: the last state, and whether the scan stopped on a failing `//#if` line. */
  datatype Outcome = Outcome(final: Scanner, thrown: bool)

  /** Whenever feature mode is on, the current feature has a count to look up. */
  predicate Inv(st: Scanner) {
    st.isFeat ==> st.currFeat in st.featuresAndLines
  }

  /** No count is negative, and no feature has more counted lines than the total. */
  predicate CountsConsistent(numberOfLines: int, featuresAndLines: map<string, int>) {
    numberOfLines >= 0 &&
    forall k :: k in featuresAndLines ==> 0 <= featuresAndLines[k] <= numberOfLines
  }

  predicate Consistent(st: Scanner) {
    CountsConsistent(st.numberOfLines, st.featuresAndLines)
  }

  /** The scanner at the start of a file: both flags off, the counters carried over. */
  function Start(currFeat: string, numberOfLines: int, featuresAndLines: map<string, int>): (st: Scanner)
    ensures !st.isFeat && !st.isComment && Inv(st)
    ensures st.numberOfLines == numberOfLines && st.featuresAndLines == featuresAndLines
  {
    Scanner(false, false, currFeat, numberOfLines, featuresAndLines)
  }

  /** Counts one line: for the total, and for the current feature when in feature mode. */
  function CountLine(st: Scanner): (r: Scanner)
    requires Inv(st)
  {
    if st.isFeat then
      st.(featuresAndLines := st.featuresAndLines[st.currFeat := st.featuresAndLines[st.currFeat] + 1],
          numberOfLines := st.numberOfLines + 1)
    else
      st.(numberOfLines := st.numberOfLines + 1)
  }

  /** What one line read from the file does; None where `split(...)[1]` throws. */
  function Step(st: Scanner, line: string): (r: Option<Scanner>)
    requires Inv(st)
    ensures r.Some? ==> Inv(r.value)
  {
    StepOn(st, Normalize(line))
  }

  /** What one line does, given the line after normalisation. */
  function StepOn(st: Scanner, s: string): (r: Option<Scanner>)
    requires Inv(st)
    ensures r.Some? ==> Inv(r.value)
  {
    if !st.isComment then
      if StartsWith(s, CommentOpen) then
        Some(st.(isComment := true))
      else if StartsWith(s, IfDirective) then
        match DirectiveName(s)
        case None => None
        case Some(f) =>
          Some(st.(currFeat := f, featuresAndLines := st.featuresAndLines[f := 0], isFeat := true))
      else if StartsWith(s, EndifDirective) then
        Some(st.(isFeat := false))
      else if st.isFeat && !st.isComment && s != [] then
        if StartsWith(s, LineComment) && !StartsWith(s, Annotation) then Some(st)
        else Some(CountLine(st))
      else if !st.isFeat && s != [] then
        if !StartsWith(s, LineComment) then Some(CountLine(st)) else Some(st)
      else
        Some(st)
    else
      if EndsWith(s, CommentClose) then
        Some(st.(isComment := false))
      else if Contains(s, CommentClose) && !EndsWith(s, CommentClose) then
        Some(CountLine(st).(isComment := false))
      else
        Some(st)
  }

  /**
   * Scans `lines[i..]` in order, stopping at the first line whose `//#if`
   * access throws; the scan of a whole file starts at 0.
   */
  function Scan(st: Scanner, lines: seq<string>, i: nat): (r: Outcome)
    requires Inv(st) && i <= |lines|
    ensures Inv(r.final)
    decreases |lines| - i
  {
    if i == |lines| then Outcome(st, false)
    else
      match Step(st, lines[i])
      case None => Outcome(st, true)
      case Some(next) => Scan(next, lines, i + 1)
  }

  /** One step of `Scan`: the outcome after the line at `i` in terms of the step on that line's normalised text. */
  lemma ScanUnfold(st: Scanner, lines: seq<string>, i: nat)
    requires Inv(st) && i < |lines|
    ensures StepOn(st, Normalize(lines[i])).None? ==> Scan(st, lines, i) == Outcome(st, true)
    ensures StepOn(st, Normalize(lines[i])).Some? ==>
      Scan(st, lines, i) == Scan(StepOn(st, Normalize(lines[i])).value, lines, i + 1)
  {
  }

  /** The feature name a normalised line declares, if it is an `//#if` line whose name can be read. */
  function DeclaredName(s: string): Option<string>
  {
    if StartsWith(s, IfDirective) then DirectiveName(s) else None
  }

  /** Every feature name declared by an `//#if` line among `lines`. */
  function IfNames(lines: seq<string>): set<string>
  {
    set k | 0 <= k < |lines| && DeclaredName(Normalize(lines[k])).Some? :: DeclaredName(Normalize(lines[k])).value
  }

  // ---------------------------------------------------------------------------
  // One line

  /** How the markers the counter tests for relate: each directive and `//@` is a `//` line, none opens a comment. */
  lemma MarkerFacts(s: string)
    ensures StartsWith(s, IfDirective) ==> StartsWith(s, LineComment) && !StartsWith(s, Annotation)
    ensures StartsWith(s, EndifDirective) ==> StartsWith(s, LineComment) && !StartsWith(s, Annotation) && !StartsWith(s, IfDirective)
    ensures StartsWith(s, Annotation) ==> StartsWith(s, LineComment)
    ensures StartsWith(s, LineComment) ==> !StartsWith(s, CommentOpen)
  {
    if StartsWith(s, IfDirective) {
      assert s[..2] == s[..5][..2];
      assert s[2] == s[..5][2];
    }
    if StartsWith(s, EndifDirective) {
      assert s[..2] == s[..8][..2];
      assert s[2] == s[..8][2];
      assert s[3] == s[..8][3];
    }
    if StartsWith(s, Annotation) {
      assert s[..2] == s[..3][..2];
    }
    if StartsWith(s, LineComment) {
      assert s[1] == s[..2][1];
    }
  }

  /**
   * A line changes the counters in one of three ways only: not at all; one more
   * line in total (and, in feature mode, one more for the current feature only);
   * or, on an `//#if` line, a count of 0 for the feature it names and no line counted.
   */
  lemma StepEffect(st: Scanner, s: string)
    requires Inv(st) && StepOn(st, s).Some?
    ensures var n := StepOn(st, s).value;
      (n.numberOfLines == st.numberOfLines && n.featuresAndLines == st.featuresAndLines) ||
      (n.numberOfLines == st.numberOfLines + 1 &&
       (if st.isFeat
        then n.featuresAndLines == st.featuresAndLines[st.currFeat := st.featuresAndLines[st.currFeat] + 1]
        else n.featuresAndLines == st.featuresAndLines)) ||
      (n.numberOfLines == st.numberOfLines && DeclaredName(s) == Some(n.currFeat) &&
       n.featuresAndLines == st.featuresAndLines[n.currFeat := 0])
  {
    if !st.isComment && !StartsWith(s, CommentOpen) && StartsWith(s, IfDirective) {
      assert DeclaredName(s) == DirectiveName(s);
    }
  }

  /** One line keeps the scanner consistent: a feature's count rises only together with the total. */
  lemma StepConsistent(st: Scanner, s: string)
    requires Inv(st) && Consistent(st) && StepOn(st, s).Some?
    ensures Consistent(StepOn(st, s).value)
  {
    StepEffect(st, s);
  }

  /**
   * An `//#if` line outside a comment: it throws exactly when its name cannot be
   * read; otherwise it resets the named feature's count to 0, enters feature mode,
   * and is not counted.
   */
  lemma StepIfDirective(st: Scanner, s: string)
    requires Inv(st) && !st.isComment && StartsWith(s, IfDirective)
    ensures StepOn(st, s).None? <==> DirectiveName(s).None?
    ensures StepOn(st, s).Some? ==>
      var n := StepOn(st, s).value;
      var f := DirectiveName(s).value;
      n.isFeat && !n.isComment && n.currFeat == f &&
      n.featuresAndLines == st.featuresAndLines[f := 0] &&
      n.numberOfLines == st.numberOfLines
  {
    MarkerFacts(s);
  }

  /** An `//#endif` line outside a comment leaves feature mode and is not counted. */
  lemma StepEndifDirective(st: Scanner, s: string)
    requires Inv(st) && !st.isComment && StartsWith(s, EndifDirective)
    ensures StepOn(st, s) == Some(st.(isFeat := false))
  {
    MarkerFacts(s);
  }

  /** A line that is blank after normalisation changes nothing, in every mode. */
  lemma StepBlank(st: Scanner, line: string)
    requires Inv(st) && forall i :: 0 <= i < |line| ==> IsTrimmed(line[i])
    ensures Step(st, line) == Some(st)
  {
    assert Normalize(line) == [];
    assert !Contains([], CommentClose);
  }

  /**
   * Outside comments and outside feature mode, a line is counted exactly when
   * it is non-blank and starts neither with the block-comment opener nor with
   * `//`; it is never counted twice, and the feature counts are untouched unless
   * it is an `//#if` line.
   */
  lemma StepOutsideFeature(st: Scanner, s: string)
    requires Inv(st) && !st.isComment && !st.isFeat && StepOn(st, s).Some?
    ensures var n := StepOn(st, s).value;
      n.numberOfLines <= st.numberOfLines + 1 &&
      (n.numberOfLines == st.numberOfLines + 1 <==>
         s != [] && !StartsWith(s, CommentOpen) && !StartsWith(s, LineComment)) &&
      (!StartsWith(s, IfDirective) ==> n.featuresAndLines == st.featuresAndLines)
  {
    MarkerFacts(s);
  }

  /**
   * Outside comments, in feature mode, on a line that is not a directive and does
   * not open a comment: the line is counted, for the current feature and for the
   * total, exactly when it is non-blank and either does not start with `//` or
   * starts with `//@`; otherwise nothing changes.
   */
  lemma StepInsideFeature(st: Scanner, s: string)
    requires Inv(st) && !st.isComment && st.isFeat
    requires !StartsWith(s, CommentOpen) && !StartsWith(s, IfDirective) && !StartsWith(s, EndifDirective)
    ensures StepOn(st, s) ==
      if s != [] && (!StartsWith(s, LineComment) || StartsWith(s, Annotation))
      then Some(st.(featuresAndLines := st.featuresAndLines[st.currFeat := st.featuresAndLines[st.currFeat] + 1],
                    numberOfLines := st.numberOfLines + 1))
      else Some(st)
  {
  }

  /** A line starting with the block-comment opener enters comment mode uncounted, even when it also closes the comment. */
  lemma StepOpensComment(st: Scanner, s: string)
    requires Inv(st) && !st.isComment && StartsWith(s, CommentOpen)
    ensures StepOn(st, s) == Some(st.(isComment := true))
  {
  }

  /**
   * In comment mode: a line ending in the closing marker leaves comment mode
   * uncounted; a line holding it anywhere else leaves comment mode and is counted
   * once (also for the current feature in feature mode); any other line changes nothing.
   */
  lemma StepInComment(st: Scanner, s: string)
    requires Inv(st) && st.isComment
    ensures StepOn(st, s) ==
      if EndsWith(s, CommentClose) then Some(st.(isComment := false))
      else if Contains(s, CommentClose) then
        Some((if st.isFeat
              then st.(featuresAndLines := st.featuresAndLines[st.currFeat := st.featuresAndLines[st.currFeat] + 1],
                       numberOfLines := st.numberOfLines + 1)
              else st.(numberOfLines := st.numberOfLines + 1)).(isComment := false))
      else Some(st)
  {
  }

  // ---------------------------------------------------------------------------
  // A whole file

  /** Over the `n` lines still to scan the total grows by at least 0 and at most `n`. */
  lemma {:induction false} ScanLineBound(st: Scanner, lines: seq<string>, i: nat)
    requires Inv(st) && i <= |lines|
    ensures st.numberOfLines <= Scan(st, lines, i).final.numberOfLines <= st.numberOfLines + (|lines| - i)
    decreases |lines| - i
  {
    if i < |lines| {
      match Step(st, lines[i])
      case None =>
      case Some(next) =>
        StepEffect(st, Normalize(lines[i]));
        ScanLineBound(next, lines, i + 1);
    }
  }

  /** A consistent scanner stays consistent: no feature ever has more counted lines than the total. */
  lemma {:induction false} ScanConsistent(st: Scanner, lines: seq<string>, i: nat)
    requires Inv(st) && Consistent(st) && i <= |lines|
    ensures Consistent(Scan(st, lines, i).final)
    decreases |lines| - i
  {
    if i < |lines| {
      match Step(st, lines[i])
      case None =>
      case Some(next) =>
        StepConsistent(st, Normalize(lines[i]));
        ScanConsistent(next, lines, i + 1);
    }
  }

  /** Keys are never removed, and the only new keys are names from `//#if` lines of the file. */
  lemma {:induction false} ScanKeys(st: Scanner, lines: seq<string>, i: nat)
    requires Inv(st) && i <= |lines|
    ensures var f := Scan(st, lines, i).final;
      st.featuresAndLines.Keys <= f.featuresAndLines.Keys <= st.featuresAndLines.Keys + IfNames(lines)
    decreases |lines| - i
  {
    if i < |lines| {
      match Step(st, lines[i])
      case None =>
      case Some(next) =>
        StepEffect(st, Normalize(lines[i]));
        assert next.featuresAndLines.Keys <= st.featuresAndLines.Keys + IfNames(lines) by {
          if DeclaredName(Normalize(lines[i])).Some? {
            assert DeclaredName(Normalize(lines[i])).value in IfNames(lines);
          }
        }
        ScanKeys(next, lines, i + 1);
    }
  }

  /**
   * A feature that no `//#if` line of the file names is never reset: its count
   * only grows, and by no more than the total does.
   */
  lemma {:induction false} ScanFeatureGrowth(st: Scanner, lines: seq<string>, i: nat, k: string)
    requires Inv(st) && i <= |lines| && k in st.featuresAndLines && k !in IfNames(lines)
    ensures var f := Scan(st, lines, i).final;
      k in f.featuresAndLines &&
      st.featuresAndLines[k] <= f.featuresAndLines[k] &&
      f.featuresAndLines[k] - st.featuresAndLines[k] <= f.numberOfLines - st.numberOfLines
    decreases |lines| - i
  {
    if i < |lines| {
      match Step(st, lines[i])
      case None =>
      case Some(next) =>
        StepEffect(st, Normalize(lines[i]));
        if DeclaredName(Normalize(lines[i])).Some? {
          assert DeclaredName(Normalize(lines[i])).value in IfNames(lines);
        }
        assert k in next.featuresAndLines;
        assert next.featuresAndLines[k] - st.featuresAndLines[k] <= next.numberOfLines - st.numberOfLines;
        ScanFeatureGrowth(next, lines, i + 1, k);
    }
  }

  /** Scanning the first `j` lines from `i` begins with the step on line `i`, as scanning all of them does. */
  lemma ScanPrefixStep(st: Scanner, lines: seq<string>, i: nat, j: nat)
    requires Inv(st) && i < j <= |lines|
    ensures Step(st, lines[i]).None? ==> Scan(st, lines[..j], i) == Outcome(st, true)
    ensures Step(st, lines[i]).Some? ==>
      Scan(st, lines[..j], i) == Scan(Step(st, lines[i]).value, lines[..j], i + 1)
  {
    assert lines[..j][i] == lines[i];
  }

  /**
   * A scan that throws stopped at some line `j`: the lines before it were
   * scanned without a throw and left the final state, and the step on line `j`
   * from that state throws.
   */
  lemma {:induction false} ScanThrows(st: Scanner, lines: seq<string>, i: nat)
    requires Inv(st) && i <= |lines|
    ensures var r := Scan(st, lines, i);
      r.thrown ==>
        exists j :: i <= j < |lines| && Scan(st, lines[..j], i) == Outcome(r.final, false) &&
          Step(r.final, lines[j]).None?
    decreases |lines| - i
  {
    if i < |lines| {
      match Step(st, lines[i])
      case None =>
        assert Scan(st, lines[..i], i) == Outcome(st, false);
      case Some(next) =>
        ScanThrows(next, lines, i + 1);
        var r := Scan(st, lines, i);
        if r.thrown {
          var j :| i + 1 <= j < |lines| && Scan(next, lines[..j], i + 1) == Outcome(r.final, false) &&
            Step(r.final, lines[j]).None?;
          ScanPrefixStep(st, lines, i, j);
        }
    }
  }

  /**
   * A scan that does not throw steps each line `j` without a throw, from the
   * state the lines before it left.
   */
  lemma {:induction false} ScanCompletes(st: Scanner, lines: seq<string>, i: nat, j: nat)
    requires Inv(st) && i <= j < |lines| && !Scan(st, lines, i).thrown
    ensures !Scan(st, lines[..j], i).thrown && Step(Scan(st, lines[..j], i).final, lines[j]).Some?
    decreases j - i
  {
    ScanUnfold(st, lines, i);
    if j == i {
      assert Scan(st, lines[..j], i) == Outcome(st, false);
    } else {
      var next := Step(st, lines[i]).value;
      ScanPrefixStep(st, lines, i, j);
      ScanCompletes(next, lines, i + 1, j);
    }
  }

  /** A line's step throws only on an `//#if` line outside a comment whose name cannot be read. */
  lemma StepThrows(st: Scanner, s: string)
    requires Inv(st)
    ensures StepOn(st, s).None? <==>
      !st.isComment && StartsWith(s, IfDirective) && DirectiveName(s).None?
  {
    if !st.isComment && StartsWith(s, IfDirective) {
      MarkerFacts(s);
    }
  }

  /**
   * A comment opened and closed on the same line still sets comment mode, so a
   * code line right after it is not counted, and the file ends in comment mode.
   */
  lemma {:induction false} OneLineCommentHidesNextLine(st: Scanner, comment: string, code: string)
    requires Inv(st) && !st.isComment
    requires StartsWith(Normalize(comment), CommentOpen) && EndsWith(Normalize(comment), CommentClose)
    requires !Contains(Normalize(code), CommentClose)
    ensures Scan(st, [comment, code], 0) == Outcome(st.(isComment := true), false)
  {
    var lines := [comment, code];
    var st1 := st.(isComment := true);
    StepOpensComment(st, Normalize(comment));
    ScanUnfold(st, lines, 0);
    EndsWithContains(Normalize(code), CommentClose);
    StepInComment(st1, Normalize(code));
    ScanUnfold(st1, lines, 1);
  }
}
