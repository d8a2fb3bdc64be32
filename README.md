# FeatureIDE: preprocessor line statistics and feature-model layout settings

This project models two small parts of FeatureIDE, the framework for
feature-oriented software development, and proves properties of both.

- **The line counter of the preprocessor statistics** (`DirectivesNode`). For
  a project that uses Antenna-style `//#if` … `//#endif` directives, it reads
  each source file line by line. It normalises every line (Java `trim`, then
  every tab and every space deleted) and runs a state machine that has two
  flags: "inside a block comment" and "inside a feature block". It counts
  lines of code in two fields that accumulate over all files: the total
  `numberOfLines`, and the map `featuresAndLines` from feature name to that
  feature's lines.

  Three other pieces of the same node are modelled too:
  - how a class path such as `a/b/C` is shown, as `a.b.C` or as
    `(default package).C`;
  - the first-match search `searchClass`;
  - the running maximum that picks the class with the deepest nesting of
    directives.
- **The layout settings of a feature-model diagram** (`FeatureModelLayout`):
  - three switches;
  - the legend's position, an `FMPoint`;
  - the number of the layout algorithm;
  - the defaults a new diagram gets, the setters, the derived
    `hasFeaturesAutoLayout`, and `clone`.

Files:

- `JavaStrings.dfy`: the `java.lang.String` operations the counter relies on, with Java's meaning:
  - `trim`;
  - the deletion `replaceAll` does with a one-character pattern;
  - `replace(char, char)`, `startsWith`, `endsWith`, `contains` and `lastIndexOf`;
  - `split` with a literal pattern. The string is cut at leftmost occurrences,
    a leading empty piece is kept, trailing empty pieces are dropped, and a
    string with no match gives a one-element array.
- `LineScan.dfy`:
  - `StepOn`, what one normalised line does to the scanner state;
  - `Scan`, what a whole file does;
  - the lemmas about both.
- `Directives.dfy`:
  - the class `DirectivesNode`, with its two counter fields and the method
    `CheckContent`, whose `while` loop carries the two flags and updates the
    fields in place;
  - the class-name formatting, `SearchClass` and `MaxNestingClass`.
- `ModelLayout.dfy`: `FMPoint` and the class `FeatureModelLayout`.

`CheckContent` is specified against the function `Scan`. Its fields and its
result equal those of `Scan` run from a state with both flags off and the
counters as they were. The lemmas in `LineScan.dfy` then state what the
source promises of every line kind, and of a whole file.

`checkContent` reads each feature name as element `[1]` of
`s.split("//#if")`. For a bare `//#if` (or `//#if//#if` …) that array is
empty: every piece is empty and `split` drops trailing empty strings, so there
is no element `[1]` and Java throws `ArrayIndexOutOfBoundsException`. The model does not
rule such lines out by a precondition. The throw only happens when the line
is reached outside a comment, so a precondition would exclude files that the
source handles. Instead:
- `StepOn` returns `None` for such a line;
- `Scan` stops there with `thrown` set;
- `CheckContent` returns `true`, with the fields holding what the earlier
  lines left, as the Java fields do when the exception propagates.

Every `//#if` line read outside a block comment puts 0 for the feature it names, whether or not that
feature already has a count. A feature that opens two blocks, in one file or
in two, therefore keeps only the lines counted for it since its last `//#if` line
(`StepIfDirective`); the model keeps this behaviour.

## Model

| member | source | states |
|---|---|---|
| JavaStrings.Trim | plugins/de.ovgu.featureide.ui/src/de/ovgu/featureide/ui/statistics/core/composite/lazyimplementations/DirectivesNode.java:251 | `trim`: the result is the part of the input left after dropping every character up to U+0020 at the front and at the back; it neither starts nor ends with such a character, is empty exactly when every character is one, and is the input itself when there is none. |
| JavaStrings.TrimPadded | plugins/de.ovgu.featureide.ui/src/de/ovgu/featureide/ui/statistics/core/composite/lazyimplementations/DirectivesNode.java:251 | A text whose border characters are above U+0020, padded on both sides with characters up to U+0020, trims to exactly that text. |
| JavaStrings.RemoveAll | plugins/de.ovgu.featureide.ui/src/de/ovgu/featureide/ui/statistics/core/composite/lazyimplementations/DirectivesNode.java:251 | `replaceAll` with a one-character pattern: the result holds every other character exactly as often as the input does, and none of the removed one. |
| JavaStrings.RemoveAllAppend | plugins/de.ovgu.featureide.ui/src/de/ovgu/featureide/ui/statistics/core/composite/lazyimplementations/DirectivesNode.java:251 | Deleting distributes over concatenation, so the kept characters stay in their order. |
| JavaStrings.ReplaceChar | plugins/de.ovgu.featureide.ui/src/de/ovgu/featureide/ui/statistics/core/composite/lazyimplementations/DirectivesNode.java:96 | `replace('/', '.')`: same length, each position mapped on its own. |
| JavaStrings.LastIndexOf | plugins/de.ovgu.featureide.ui/src/de/ovgu/featureide/ui/statistics/core/composite/lazyimplementations/DirectivesNode.java:95 | The index of a `c` with no `c` after it, or -1 when there is no `c`. |
| JavaStrings.IndexFrom | plugins/de.ovgu.featureide.ui/src/de/ovgu/featureide/ui/statistics/core/composite/lazyimplementations/DirectivesNode.java:256 | The leftmost occurrence of the pattern at or after `k`, or none. |
| JavaStrings.DropTrailingEmpty | plugins/de.ovgu.featureide.ui/src/de/ovgu/featureide/ui/statistics/core/composite/lazyimplementations/DirectivesNode.java:256 | `split`'s removal of trailing empty pieces: the result is a prefix, only empty pieces are dropped, and its last piece is non-empty. |
| JavaStrings.SegmentsAllEmpty | plugins/de.ovgu.featureide.ui/src/de/ovgu/featureide/ui/statistics/core/composite/lazyimplementations/DirectivesNode.java:256 | Every piece between occurrences is empty exactly when the string is the pattern repeated. |
| JavaStrings.FirstSegment | plugins/de.ovgu.featureide.ui/src/de/ovgu/featureide/ui/statistics/core/composite/lazyimplementations/DirectivesNode.java:256 | The first piece is a prefix holding no occurrence, followed by the end or by an occurrence. |
| JavaStrings.SegmentsJoin | plugins/de.ovgu.featureide.ui/src/de/ovgu/featureide/ui/statistics/core/composite/lazyimplementations/DirectivesNode.java:256 | The pieces between the occurrences, joined again with the pattern, give back the string. |
| JavaStrings.SegmentsFree | plugins/de.ovgu.featureide.ui/src/de/ovgu/featureide/ui/statistics/core/composite/lazyimplementations/DirectivesNode.java:256 | No piece holds an occurrence of the pattern. |
| JavaStrings.DropJoin | plugins/de.ovgu.featureide.ui/src/de/ovgu/featureide/ui/statistics/core/composite/lazyimplementations/DirectivesNode.java:256 | Dropping the trailing empty pieces loses only a run of separators from the joined text. |
| JavaStrings.SegmentsLeftmost | plugins/de.ovgu.featureide.ui/src/de/ovgu/featureide/ui/statistics/core/composite/lazyimplementations/DirectivesNode.java:256 | The pieces between occurrences are cut at leftmost occurrences: no occurrence of the pattern starts inside any piece. |
| JavaStrings.CutLeftmostPrefix | plugins/de.ovgu.featureide.ui/src/de/ovgu/featureide/ui/statistics/core/composite/lazyimplementations/DirectivesNode.java:256 | Dropping trailing pieces keeps every remaining piece cut at a leftmost occurrence. |
| JavaStrings.Split | plugins/de.ovgu.featureide.ui/src/de/ovgu/featureide/ui/statistics/core/composite/lazyimplementations/DirectivesNode.java:256 | `split` with a literal pattern: the one-element array of the string when the pattern does not occur; otherwise no trailing empty piece. No piece holds the pattern, the pieces joined with the pattern give back the string up to a run of trailing separators, and no occurrence of the pattern starts inside a piece, so every cut is the leftmost one, also for a pattern that overlaps itself. |
| JavaStrings.StartsWith | plugins/de.ovgu.featureide.ui/src/de/ovgu/featureide/ui/statistics/core/composite/lazyimplementations/DirectivesNode.java:253-255 | `s.startsWith(p)`: `p` is a prefix of `s` (defined so; `StartsWithIsOccursAtZero` relates it to an occurrence). |
| JavaStrings.EndsWith | plugins/de.ovgu.featureide.ui/src/de/ovgu/featureide/ui/statistics/core/composite/lazyimplementations/DirectivesNode.java:274-276 | `s.endsWith(p)`: `p` is a suffix of `s` (defined so; `EndsWithIsOccursAtEnd` relates it to an occurrence). |
| JavaStrings.Contains | plugins/de.ovgu.featureide.ui/src/de/ovgu/featureide/ui/statistics/core/composite/lazyimplementations/DirectivesNode.java:276 | `s.contains(p)`: `p` occurs somewhere in `s` (defined so; `ContainsIsIndexFrom` relates it to the leftmost search). |
| JavaStrings.StartsWithIsOccursAtZero | plugins/de.ovgu.featureide.ui/src/de/ovgu/featureide/ui/statistics/core/composite/lazyimplementations/DirectivesNode.java:253-255 | `startsWith`: the pattern occurs at index 0. |
| JavaStrings.EndsWithIsOccursAtEnd | plugins/de.ovgu.featureide.ui/src/de/ovgu/featureide/ui/statistics/core/composite/lazyimplementations/DirectivesNode.java:274-276 | `endsWith`: the pattern occurs where it ends at the end of the string. |
| JavaStrings.ContainsIsIndexFrom | plugins/de.ovgu.featureide.ui/src/de/ovgu/featureide/ui/statistics/core/composite/lazyimplementations/DirectivesNode.java:276 | `contains`: holds exactly when the leftmost search from index 0 finds the pattern. |
| JavaStrings.EndsWithContains | plugins/de.ovgu.featureide.ui/src/de/ovgu/featureide/ui/statistics/core/composite/lazyimplementations/DirectivesNode.java:274-276 | A string that ends with `p` contains `p`. |
| LineScan.Normalize | plugins/de.ovgu.featureide.ui/src/de/ovgu/featureide/ui/statistics/core/composite/lazyimplementations/DirectivesNode.java:251 | The normalised line holds no space and no tab. It is empty exactly when the line has only characters up to U+0020. A line without such characters is kept as is. |
| LineScan.NormalizePadded | plugins/de.ovgu.featureide.ui/src/de/ovgu/featureide/ui/statistics/core/composite/lazyimplementations/DirectivesNode.java:251 | A line is normalised to its text between the leading and trailing characters up to U+0020, with the tabs and spaces in it deleted; a text without tabs and spaces is kept exactly. |
| LineScan.DirectiveName | plugins/de.ovgu.featureide.ui/src/de/ovgu/featureide/ui/statistics/core/composite/lazyimplementations/DirectivesNode.java:256 | Element [1] of `split("//#if")`, or None where the access throws; a name read never holds `//#if`. |
| LineScan.DirectiveNameSpec | plugins/de.ovgu.featureide.ui/src/de/ovgu/featureide/ui/statistics/core/composite/lazyimplementations/DirectivesNode.java:255-256 | On an `//#if` line, `split("//#if")[1]` fails exactly when the rest of the line is `//#if` repeated. Otherwise the name is the text after the directive, up to the next `//#if` or the end. |
| LineScan.DirectiveNameOf | plugins/de.ovgu.featureide.ui/src/de/ovgu/featureide/ui/statistics/core/composite/lazyimplementations/DirectivesNode.java:256 | `//#if` followed by a non-empty name without `//#if` yields exactly that name. |
| LineScan.BareDirectiveFails | plugins/de.ovgu.featureide.ui/src/de/ovgu/featureide/ui/statistics/core/composite/lazyimplementations/DirectivesNode.java:256 | A bare `//#if` makes the access to element [1] fail. |
| LineScan.Start | plugins/de.ovgu.featureide.ui/src/de/ovgu/featureide/ui/statistics/core/composite/lazyimplementations/DirectivesNode.java:247-248 | A file starts with both flags off and the counters carried over. |
| LineScan.StepOn | plugins/de.ovgu.featureide.ui/src/de/ovgu/featureide/ui/statistics/core/composite/lazyimplementations/DirectivesNode.java:252-285 | After any line that does not throw, if feature mode is on then the current feature is a key of the map, so the lookups at lines 265 and 278 never miss. |
| LineScan.Step | plugins/de.ovgu.featureide.ui/src/de/ovgu/featureide/ui/statistics/core/composite/lazyimplementations/DirectivesNode.java:251-285 | One line read from the file: normalised, then stepped; the lookup invariant holds after it. |
| LineScan.Scan | plugins/de.ovgu.featureide.ui/src/de/ovgu/featureide/ui/statistics/core/composite/lazyimplementations/DirectivesNode.java:250-287 | The same invariant holds after a whole file. |
| LineScan.StepEffect | plugins/de.ovgu.featureide.ui/src/de/ovgu/featureide/ui/statistics/core/composite/lazyimplementations/DirectivesNode.java:255-283 | A line changes the counters in one of three ways only. It leaves them alone; or it adds one line to the total (and, in feature mode, one to the current feature only); or it is an `//#if` line that sets its feature to 0 and counts nothing. |
| LineScan.StepConsistent | plugins/de.ovgu.featureide.ui/src/de/ovgu/featureide/ui/statistics/core/composite/lazyimplementations/DirectivesNode.java:265-266 | A line keeps every count between 0 and the total. |
| LineScan.StepIfDirective | plugins/de.ovgu.featureide.ui/src/de/ovgu/featureide/ui/statistics/core/composite/lazyimplementations/DirectivesNode.java:255-258 | Outside comments, an `//#if` line throws exactly when its name cannot be read. Otherwise it sets that feature's count to 0, enters feature mode and counts nothing. |
| LineScan.StepEndifDirective | plugins/de.ovgu.featureide.ui/src/de/ovgu/featureide/ui/statistics/core/composite/lazyimplementations/DirectivesNode.java:259-260 | Outside comments, `//#endif` leaves feature mode and changes nothing else. |
| LineScan.StepBlank | plugins/de.ovgu.featureide.ui/src/de/ovgu/featureide/ui/statistics/core/composite/lazyimplementations/DirectivesNode.java:251-285 | A line that is blank after normalisation changes nothing, in every mode. |
| LineScan.StepOutsideFeature | plugins/de.ovgu.featureide.ui/src/de/ovgu/featureide/ui/statistics/core/composite/lazyimplementations/DirectivesNode.java:268-271 | Outside comments and feature blocks, a line is counted (once) exactly when it is non-blank and starts neither with the block-comment opener nor with `//`. |
| LineScan.StepInsideFeature | plugins/de.ovgu.featureide.ui/src/de/ovgu/featureide/ui/statistics/core/composite/lazyimplementations/DirectivesNode.java:261-267 | In a feature block, a non-directive line is counted for the feature and the total exactly when it is non-blank and does not start with `//`, or starts with `//@`. |
| LineScan.StepOpensComment | plugins/de.ovgu.featureide.ui/src/de/ovgu/featureide/ui/statistics/core/composite/lazyimplementations/DirectivesNode.java:253-254 | A line starting with the block-comment opener enters comment mode uncounted, even when it closes the comment too. |
| LineScan.StepInComment | plugins/de.ovgu.featureide.ui/src/de/ovgu/featureide/ui/statistics/core/composite/lazyimplementations/DirectivesNode.java:273-284 | In a comment, a line ending in the closing marker leaves uncounted. A line holding the marker elsewhere leaves and counts once, also for the feature in feature mode. Any other line changes nothing. |
| LineScan.StepThrows | plugins/de.ovgu.featureide.ui/src/de/ovgu/featureide/ui/statistics/core/composite/lazyimplementations/DirectivesNode.java:252-256 | A line throws exactly when it is an `//#if` line outside a comment whose name cannot be read. |
| LineScan.ScanLineBound | plugins/de.ovgu.featureide.ui/src/de/ovgu/featureide/ui/statistics/core/composite/lazyimplementations/DirectivesNode.java:250-287 | Over a file, the total grows by at least 0 and at most the number of lines. |
| LineScan.ScanConsistent | plugins/de.ovgu.featureide.ui/src/de/ovgu/featureide/ui/statistics/core/composite/lazyimplementations/DirectivesNode.java:265-266 | Over a file, no count drops below 0 or rises above the total. |
| LineScan.ScanKeys | plugins/de.ovgu.featureide.ui/src/de/ovgu/featureide/ui/statistics/core/composite/lazyimplementations/DirectivesNode.java:256-257 | No key is removed, and the only new keys are names read from the file's `//#if` lines. |
| LineScan.ScanFeatureGrowth | plugins/de.ovgu.featureide.ui/src/de/ovgu/featureide/ui/statistics/core/composite/lazyimplementations/DirectivesNode.java:265-266 | A feature that no `//#if` line of the file names keeps its key. Its count never decreases, and it grows by no more than the total. |
| LineScan.ScanThrows | plugins/de.ovgu.featureide.ui/src/de/ovgu/featureide/ui/statistics/core/composite/lazyimplementations/DirectivesNode.java:250-287 | A scan that throws stopped at some line: the lines before it were scanned without a throw and left the final state, and that line's step from the final state throws. |
| LineScan.ScanCompletes | plugins/de.ovgu.featureide.ui/src/de/ovgu/featureide/ui/statistics/core/composite/lazyimplementations/DirectivesNode.java:250-287 | A scan that does not throw steps every line without a throw, from the state the lines before it left. |
| LineScan.OneLineCommentHidesNextLine | plugins/de.ovgu.featureide.ui/src/de/ovgu/featureide/ui/statistics/core/composite/lazyimplementations/DirectivesNode.java:253-276 | A comment opened and closed on one line still sets comment mode, so the code line after it is not counted. |
| Directives.FormatClassName | plugins/de.ovgu.featureide.ui/src/de/ovgu/featureide/ui/statistics/core/composite/lazyimplementations/DirectivesNode.java:95-96 | The name shown holds no `/` and ends with the text after the last `/`. When the last `/` is past index 0, the name is the path with `/` turned into `.`. Otherwise it is `(default package).` followed by the path without its leading `/`. |
| Directives.NoSlashAfterLast | plugins/de.ovgu.featureide.ui/src/de/ovgu/featureide/ui/statistics/core/composite/lazyimplementations/DirectivesNode.java:95-96 | The text after the last `/` holds no `/`. |
| Directives.SearchClass | plugins/de.ovgu.featureide.ui/src/de/ovgu/featureide/ui/statistics/core/composite/lazyimplementations/DirectivesNode.java:169-177 | None exactly when no child has the value. Otherwise, the description of the first child that has it. |
| Directives.MaxNestingClass | plugins/de.ovgu.featureide.ui/src/de/ovgu/featureide/ui/statistics/core/composite/lazyimplementations/DirectivesNode.java:82-110 | The maximum starts at 0 and bounds every class with roles. The name is None exactly when the maximum is 0. Otherwise it is the shown name of the first class with roles that attains the maximum, and every earlier such class is strictly below it. |
| Directives.DirectivesNode.constructor | plugins/de.ovgu.featureide.ui/src/de/ovgu/featureide/ui/statistics/core/composite/lazyimplementations/DirectivesNode.java:55-59 | A new node starts with a total of 0 and an empty map. |
| Directives.DirectivesNode.ReadLine | plugins/de.ovgu.featureide.ui/src/de/ovgu/featureide/ui/statistics/core/composite/lazyimplementations/DirectivesNode.java:252-285 | One loop iteration: updates the fields and flags as `StepOn` says. When it throws, the fields are untouched. |
| Directives.DirectivesNode.CheckContent | plugins/de.ovgu.featureide.ui/src/de/ovgu/featureide/ui/statistics/core/composite/lazyimplementations/DirectivesNode.java:246-288 | The fields and the throw flag after the call are those of `Scan` from both flags off and the old counters. The total grows by at most the number of lines. Keys are only added, and only from `//#if` lines. Consistent counters stay consistent. |
| ModelLayout.FeatureModelLayout.constructor | plugins/de.ovgu.featureide.fm.core/src/de/ovgu/featureide/fm/core/FeatureModelLayout.java:38-44 | A new layout has all three switches on, the legend at (0, 0), algorithm 1, and `hasFeaturesAutoLayout` true. |
| ModelLayout.FeatureModelLayout.Copy | plugins/de.ovgu.featureide.fm.core/src/de/ovgu/featureide/fm/core/FeatureModelLayout.java:46-52 | The copy has the five settings of the original, which is left unchanged. |
| ModelLayout.FeatureModelLayout.SetLegendAutoLayout | plugins/de.ovgu.featureide.fm.core/src/de/ovgu/featureide/fm/core/FeatureModelLayout.java:54-62 | `hasLegendAutoLayout` returns the new value; the other settings are unchanged. |
| ModelLayout.FeatureModelLayout.SetShowHiddenFeatures | plugins/de.ovgu.featureide.fm.core/src/de/ovgu/featureide/fm/core/FeatureModelLayout.java:64-72 | `showHiddenFeatures()` returns the new value; the other settings are unchanged. |
| ModelLayout.FeatureModelLayout.SetVerticalLayout | plugins/de.ovgu.featureide.fm.core/src/de/ovgu/featureide/fm/core/FeatureModelLayout.java:74-82 | `verticalLayout()` returns the new value; the other settings are unchanged. |
| ModelLayout.FeatureModelLayout.SetLegendPos | plugins/de.ovgu.featureide.fm.core/src/de/ovgu/featureide/fm/core/FeatureModelLayout.java:84-92 | `getLegendPos()` returns a point at (x, y); the other settings are unchanged. |
| ModelLayout.FeatureModelLayout.SetLayout | plugins/de.ovgu.featureide.fm.core/src/de/ovgu/featureide/fm/core/FeatureModelLayout.java:94-107 | `getLayoutAlgorithm()` returns the new number. `hasFeaturesAutoLayout()` holds exactly when it is not 0. The other settings are unchanged. |
| ModelLayout.FeatureModelLayout.HasLegendAutoLayout | plugins/de.ovgu.featureide.fm.core/src/de/ovgu/featureide/fm/core/FeatureModelLayout.java:59-62 | `hasLegendAutoLayout()`: the legend switch; its value is stated by the constructors and by `SetLegendAutoLayout`. |
| ModelLayout.FeatureModelLayout.ShowsHiddenFeatures | plugins/de.ovgu.featureide.fm.core/src/de/ovgu/featureide/fm/core/FeatureModelLayout.java:64-67 | `showHiddenFeatures()`: the hidden-features switch; its value is stated by the constructors and by `SetShowHiddenFeatures`. |
| ModelLayout.FeatureModelLayout.VerticalLayout | plugins/de.ovgu.featureide.fm.core/src/de/ovgu/featureide/fm/core/FeatureModelLayout.java:74-77 | `verticalLayout()`: the orientation switch; its value is stated by the constructors and by `SetVerticalLayout`. |
| ModelLayout.FeatureModelLayout.GetLegendPos | plugins/de.ovgu.featureide.fm.core/src/de/ovgu/featureide/fm/core/FeatureModelLayout.java:84-87 | `getLegendPos()`: the legend's point; its value is stated by the constructors and by `SetLegendPos`. |
| ModelLayout.FeatureModelLayout.GetLayoutAlgorithm | plugins/de.ovgu.featureide.fm.core/src/de/ovgu/featureide/fm/core/FeatureModelLayout.java:99-102 | `getLayoutAlgorithm()`: the selected number; its value is stated by the constructors and by `SetLayout`. |
| ModelLayout.FeatureModelLayout.HasFeaturesAutoLayout | plugins/de.ovgu.featureide.fm.core/src/de/ovgu/featureide/fm/core/FeatureModelLayout.java:104-107 | `hasFeaturesAutoLayout()`: the selected algorithm is not 0; the constructor states it holds for a new layout, `SetLayout` that it holds exactly when the new number is not 0. |
| ModelLayout.FeatureModelLayout.Clone | plugins/de.ovgu.featureide.fm.core/src/de/ovgu/featureide/fm/core/FeatureModelLayout.java:109-112 | A new, distinct layout with the same five settings. |
| ModelLayout.ChangeClone | plugins/de.ovgu.featureide.fm.core/src/de/ovgu/featureide/fm/core/FeatureModelLayout.java:46-52 | A setter called on a clone leaves the original unchanged. |
| ModelLayout.ChangeOriginal | plugins/de.ovgu.featureide.fm.core/src/de/ovgu/featureide/fm/core/FeatureModelLayout.java:46-52 | Setters called on the original leave an earlier clone unchanged. |

## Left out

- `getLOC` is not modelled. It walks the project's resources, opens each file
  with a `FileReader`/`BufferedReader` and logs I/O errors. The model takes
  each file's content as a `seq<string>` of lines, which is what `readLine`
  yields; `IOException` is not modelled.
- `getAverage` and the "features per directive" average are not modelled.
  They use `double` division and `Math.round`, and floating point is outside
  the model.
- The rest of `initChildren` is not modelled:
  - the tree of `Parent`/`LazyParent`/`AbstractSortModeNode`/`HashMapNode`
    UI nodes;
  - the calls into `Aggregator` and `FSTModel`, whose code is not part of
    this model.

  `MaxNestingClass` takes each class's path, whether it has roles, and its
  maximum nesting as inputs. `SearchClass` takes the children as
  (description, value) pairs.
- SearchClass: `p.getValue().equals(input)` compares boxed objects. The model
  compares `int` values and does not model null values or values that are not
  `Integer`.
- CheckContent: does not model 32-bit wrap-around of `numberOfLines` and of
  the per-feature counts. They are unbounded integers here; a wrap would take
  more than 2^31 counted lines.
- CheckContent: Java's `split("//#if")[1]` throws on an unreadable
  directive. The model turns that into a result of `true` with the fields as
  the earlier lines left them. The propagation of the exception through
  `getLOC` is not modelled.
- JavaStrings: Java strings are UTF-16 code units. The model uses Dafny
  characters, and `trim`'s test is the comparison with U+0020.
- `FMPoint` object identity is not modelled. The model uses a value datatype,
  so the sharing of the point returned by `getLegendPos` is not captured.
- The SAT, MUS and LTMS machinery has no implementation in the modelled
  files: `Sat4JSatSolverFactory.java` only wraps Sat4J classes that are not
  part of this model, and `LtmsPreprocessorExplanationCreatorFactory.java`
  only passes a factory to its superclass. Neither is modelled.
