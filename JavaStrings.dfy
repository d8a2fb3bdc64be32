/**
 * The few java.lang.String operations that the preprocessor line counter and the
 * class-name formatting rely on, written out with Java's meaning: `trim`, the
 * deletion done by `replaceAll` with a one-character pattern, `replace(char, char)`,
 * `startsWith`, `endsWith`, `contains`, `lastIndexOf(char)` and `split` with a
 * pattern that has no regular-expression metacharacters.
 */
module JavaStrings {

  datatype Option<T> = None | Some(value: T)

  /** `s.startsWith(p)` */
  predicate StartsWith(s: string, p: string) {
    |p| <= |s| && s[..|p|] == p
  }

  /** `s.endsWith(p)` */
  predicate EndsWith(s: string, p: string) {
    |p| <= |s| && s[|s| - |p|..] == p
  }

  /** `p` occurs in `s` starting at index `i`. */
  predicate OccursAt(s: string, p: string, i: nat) {
    i + |p| <= |s| && s[i..i + |p|] == p
  }

  /** `s.contains(p)` */
  predicate Contains(s: string, p: string) {
    exists i | 0 <= i <= |s| - |p| :: OccursAt(s, p, i)
  }

  /** `s.endsWith(p)` is an occurrence of `p` that ends where `s` does. */
  lemma EndsWithIsOccursAtEnd(s: string, p: string)
    ensures EndsWith(s, p) <==> |p| <= |s| && OccursAt(s, p, |s| - |p|)
  {
  }

  lemma StartsWithIsOccursAtZero(s: string, p: string)
    ensures StartsWith(s, p) <==> OccursAt(s, p, 0)
  {
  }

  lemma EndsWithContains(s: string, p: string)
    ensures EndsWith(s, p) ==> Contains(s, p)
  {
    if EndsWith(s, p) {
      assert OccursAt(s, p, |s| - |p|);
    }
  }

  /** `s.contains(p)` holds exactly when the search for `p` from index 0 finds it. */
  lemma ContainsIsIndexFrom(s: string, p: string)
    ensures Contains(s, p) <==> IndexFrom(s, p, 0).Some?
  {
    if IndexFrom(s, p, 0).Some? {
      assert OccursAt(s, p, IndexFrom(s, p, 0).value);
    }
  }

  /** Java's whitespace test in `trim`: every character up to U+0020. */
  predicate IsTrimmed(c: char) {
    c <= ' '
  }

  /** Drops the leading characters that `trim` removes. */
  function TrimStart(s: string): (r: string)
    ensures |r| <= |s| && r == s[|s| - |r|..]
    ensures r == [] || !IsTrimmed(r[0])
    ensures forall i :: 0 <= i < |s| - |r| ==> IsTrimmed(s[i])
  {
    if s != [] && IsTrimmed(s[0]) then TrimStart(s[1..]) else s
  }

  /** Drops the trailing characters that `trim` removes. */
  function TrimEnd(s: string): (r: string)
    ensures |r| <= |s| && r == s[..|r|]
    ensures r == [] || !IsTrimmed(r[|r| - 1])
    ensures forall i :: |r| <= i < |s| ==> IsTrimmed(s[i])
  {
    if s != [] && IsTrimmed(s[|s| - 1]) then TrimEnd(s[..|s| - 1]) else s
  }

  /**
   * `r` is the part of `s` from index `a`, with only characters up to U+0020
   * before it and after it.
   */
  predicate CoreAt(s: string, r: string, a: int) {
    0 <= a <= |s| - |r| && r == s[a..a + |r|] &&
    (forall i :: 0 <= i < a ==> IsTrimmed(s[i])) &&
    (forall i :: a + |r| <= i < |s| ==> IsTrimmed(s[i]))
  }

  lemma TrimCore(s: string, front: string, r: string)
    requires |front| <= |s| && front == s[|s| - |front|..]
    requires |r| <= |front| && r == front[..|r|]
    requires forall i :: 0 <= i < |s| - |front| ==> IsTrimmed(s[i])
    requires forall i :: |r| <= i < |front| ==> IsTrimmed(front[i])
    ensures CoreAt(s, r, |s| - |front|)
  {
    var a := |s| - |front|;
    forall i | a + |r| <= i < |s| ensures IsTrimmed(s[i]) {
      assert front[i - a] == s[i];
    }
  }

  /**
   * `s.trim()`: the longest infix of `s` that neither starts nor ends with a
   * character up to U+0020. It is empty exactly when every character of `s` is
   * such a character, and it is `s` itself when `s` has none of them.
   */
  function Trim(s: string): (r: string)
    ensures |r| <= |s|
    ensures r == [] || (!IsTrimmed(r[0]) && !IsTrimmed(r[|r| - 1]))
    ensures r == [] <==> forall i :: 0 <= i < |s| ==> IsTrimmed(s[i])
    ensures (forall i :: 0 <= i < |s| ==> !IsTrimmed(s[i])) ==> r == s
    ensures forall c :: c in r ==> c in s
    ensures exists a :: CoreAt(s, r, a)
  {
    var front := TrimStart(s);
    var r := TrimEnd(front);
    TrimCore(s, front, r);
    assert r != [] ==> !IsTrimmed(r[0]) by {
      if r != [] {
        assert r[0] == front[0];
      }
    }
    assert forall c :: c in r ==> c in s by {
      forall c | c in r ensures c in s {
        var k :| 0 <= k < |r| && r[k] == c;
        assert front[k] == c;
        assert s[k + (|s| - |front|)] == c;
      }
    }
    r
  }

  /**
   * A line whose border characters are above U+0020, padded on both sides with
   * characters up to U+0020, trims to itself.
   */
  lemma TrimPadded(w1: string, p: string, w2: string)
    requires forall i :: 0 <= i < |w1| ==> IsTrimmed(w1[i])
    requires forall i :: 0 <= i < |w2| ==> IsTrimmed(w2[i])
    requires p == [] || (!IsTrimmed(p[0]) && !IsTrimmed(p[|p| - 1]))
    ensures Trim(w1 + p + w2) == p
  {
    var s := w1 + p + w2;
    if p == [] {
      assert forall i :: 0 <= i < |s| ==> IsTrimmed(s[i]) by {
        forall i | 0 <= i < |s| ensures IsTrimmed(s[i]) {
          if i < |w1| { assert s[i] == w1[i]; } else { assert s[i] == w2[i - |w1|]; }
        }
      }
    } else {
      assert s == w1 + (p + w2);
      TrimStartOf(w1, p + w2);
      TrimEndOf(p, w2);
    }
  }

  lemma {:induction false} TrimStartOf(w: string, x: string)
    requires forall i :: 0 <= i < |w| ==> IsTrimmed(w[i])
    requires x == [] || !IsTrimmed(x[0])
    ensures TrimStart(w + x) == x
    decreases |w|
  {
    if w == [] {
      assert w + x == x;
    } else {
      assert (w + x)[0] == w[0];
      assert (w + x)[1..] == w[1..] + x;
      TrimStartOf(w[1..], x);
    }
  }

  lemma {:induction false} TrimEndOf(x: string, w: string)
    requires forall i :: 0 <= i < |w| ==> IsTrimmed(w[i])
    requires x == [] || !IsTrimmed(x[|x| - 1])
    ensures TrimEnd(x + w) == x
    decreases |w|
  {
    if w == [] {
      assert x + w == x;
    } else {
      var s := x + w;
      assert s[|s| - 1] == w[|w| - 1];
      assert s[..|s| - 1] == x + w[..|w| - 1];
      TrimEndOf(x, w[..|w| - 1]);
    }
  }

  /**
   * `s.replaceAll(c, "")` for a one-character pattern `c`: every `c` deleted,
   * every other character kept as often as it occurs, and in order (see
   * `RemoveAllAppend`).
   */
  function RemoveAll(s: string, c: char): (r: string)
    ensures |r| <= |s|
    ensures forall x :: x in r <==> x in s && x != c
    ensures multiset(r) == multiset(s)[c := 0]
    ensures c !in s ==> r == s
  {
    if s == [] then []
    else
      assert s == [s[0]] + s[1..];
      (if s[0] == c then [] else [s[0]]) + RemoveAll(s[1..], c)
  }

  /** Deleting distributes over concatenation, so the kept characters stay in their order. */
  lemma {:induction false} RemoveAllAppend(a: string, b: string, c: char)
    ensures RemoveAll(a + b, c) == RemoveAll(a, c) + RemoveAll(b, c)
    decreases |a|
  {
    if a == [] {
      assert a + b == b;
    } else {
      assert (a + b)[0] == a[0];
      assert (a + b)[1..] == a[1..] + b;
      RemoveAllAppend(a[1..], b, c);
    }
  }

  /** `s.replace(a, b)`: every `a` turned into `b`, every other character kept in place. */
  function ReplaceChar(s: string, a: char, b: char): (r: string)
    ensures |r| == |s|
    ensures forall i :: 0 <= i < |s| ==> r[i] == (if s[i] == a then b else s[i])
  {
    if s == [] then [] else [if s[0] == a then b else s[0]] + ReplaceChar(s[1..], a, b)
  }

  /** `s.lastIndexOf(c)`: the index of the last `c`, or -1 when there is none. */
  function LastIndexOf(s: string, c: char): (r: int)
    ensures -1 <= r < |s|
    ensures r >= 0 ==> s[r] == c
    ensures forall j :: r < j < |s| ==> s[j] != c
  {
    if s == [] then -1
    else if s[|s| - 1] == c then |s| - 1
    else LastIndexOf(s[..|s| - 1], c)
  }

  /** The first occurrence of `p` in `s` at an index `k` or later, as a regular-expression search finds it. */
  function IndexFrom(s: string, p: string, k: nat): (r: Option<nat>)
    ensures r.Some? ==> k <= r.value && OccursAt(s, p, r.value)
    ensures r.Some? ==> forall j: nat :: k <= j < r.value ==> !OccursAt(s, p, j)
    ensures r.None? ==> forall j: nat :: k <= j ==> !OccursAt(s, p, j)
    decreases |s| - k
  {
    if k + |p| > |s| then None
    else if OccursAt(s, p, k) then Some(k)
    else IndexFrom(s, p, k + 1)
  }

  /**
   * The pieces of `s` between the successive leftmost, non-overlapping
   * occurrences of `sep`, including empty ones (before `split` drops the
   * trailing empty pieces).
   */
  function Segments(s: string, sep: string): (parts: seq<string>)
    requires sep != []
    ensures |parts| >= 1
    decreases |s|
  {
    match IndexFrom(s, sep, 0)
    case None => [s]
    case Some(i) => [s[..i]] + Segments(s[i + |sep|..], sep)
  }

  /** Removes the empty strings at the end of `parts`, as `split` with limit 0 does. */
  function DropTrailingEmpty(parts: seq<string>): (r: seq<string>)
    ensures |r| <= |parts| && r == parts[..|r|]
    ensures forall j :: |r| <= j < |parts| ==> parts[j] == []
    ensures r == [] || r[|r| - 1] != []
  {
    if parts == [] || parts[|parts| - 1] != [] then parts
    else DropTrailingEmpty(parts[..|parts| - 1])
  }

  /** The pieces put back together with `sep` between each two of them. */
  function Join(parts: seq<string>, sep: string): string
    decreases |parts|
  {
    if parts == [] then []
    else if |parts| == 1 then parts[0]
    else parts[0] + sep + Join(parts[1..], sep)
  }

  /** `sep` written `n` times. */
  function Repeat(sep: string, n: nat): string
  {
    if n == 0 then [] else Repeat(sep, n - 1) + sep
  }

  lemma {:induction false} JoinSnoc(pre: seq<string>, x: string, sep: string)
    requires |pre| >= 1
    ensures Join(pre + [x], sep) == Join(pre, sep) + sep + x
    decreases |pre|
  {
    if |pre| == 1 {
      assert (pre + [x])[1..] == [x];
    } else {
      assert (pre + [x])[1..] == pre[1..] + [x];
      JoinSnoc(pre[1..], x, sep);
    }
  }

  /** The pieces joined with `sep` give back the string. */
  lemma {:induction false} SegmentsJoin(s: string, sep: string)
    requires sep != []
    ensures Join(Segments(s, sep), sep) == s
    decreases |s|
  {
    match IndexFrom(s, sep, 0)
    case None =>
    case Some(i) =>
      var rest := s[i + |sep|..];
      var segs := Segments(s, sep);
      assert segs == [s[..i]] + Segments(rest, sep);
      assert segs[1..] == Segments(rest, sep);
      SegmentsJoin(rest, sep);
      assert s[i..i + |sep|] == sep;
      assert s == s[..i] + s[i..i + |sep|] + rest;
  }

  /** No piece holds an occurrence of `sep`. */
  lemma {:induction false} SegmentsFree(s: string, sep: string)
    requires sep != []
    ensures forall k :: 0 <= k < |Segments(s, sep)| ==> !Contains(Segments(s, sep)[k], sep)
    decreases |s|
  {
    FirstSegment(s, sep);
    match IndexFrom(s, sep, 0)
    case None =>
    case Some(i) =>
      var rest := s[i + |sep|..];
      var segs := Segments(s, sep);
      assert segs == [s[..i]] + Segments(rest, sep);
      SegmentsFree(rest, sep);
      forall k | 1 <= k < |segs| ensures !Contains(segs[k], sep) {
        assert segs[k] == Segments(rest, sep)[k - 1];
      }
  }

  /** Dropping the trailing empty pieces loses only separators from the joined text. */
  lemma {:induction false} DropJoin(parts: seq<string>, sep: string)
    ensures exists n: nat :: Join(parts, sep) == Join(DropTrailingEmpty(parts), sep) + Repeat(sep, n)
    decreases |parts|
  {
    if parts == [] || parts[|parts| - 1] != [] {
      assert Join(parts, sep) == Join(DropTrailingEmpty(parts), sep) + Repeat(sep, 0);
    } else {
      var pre := parts[..|parts| - 1];
      assert parts == pre + [[]];
      if pre == [] {
        assert Join(parts, sep) == Join(DropTrailingEmpty(parts), sep) + Repeat(sep, 0);
      } else {
        DropJoin(pre, sep);
        var m: nat :| Join(pre, sep) == Join(DropTrailingEmpty(pre), sep) + Repeat(sep, m);
        JoinSnoc(pre, [], sep);
        assert Join(parts, sep) == Join(DropTrailingEmpty(parts), sep) + Repeat(sep, m + 1);
      }
    }
  }

  /**
   * Where piece `k` of `parts` starts in the text they were split from: after
   * each earlier piece and the `sep` that closed it.
   */
  function PieceStart(parts: seq<string>, sep: string, k: nat): nat
    requires k <= |parts|
    decreases k
  {
    if k == 0 then 0 else |parts[0]| + |sep| + PieceStart(parts[1..], sep, k - 1)
  }

  /** No occurrence of `sep` in `s` starts at an index in `[lo, hi)`. */
  predicate NoMatchIn(s: string, sep: string, lo: nat, hi: nat) {
    forall j: nat :: lo <= j < hi ==> !OccursAt(s, sep, j)
  }

  /**
   * The pieces were cut at leftmost occurrences: no occurrence of `sep` in `s`
   * starts inside any piece, so each cut is the first one after the piece's start.
   */
  predicate CutLeftmost(s: string, parts: seq<string>, sep: string) {
    forall k :: 0 <= k < |parts| ==>
      NoMatchIn(s, sep, PieceStart(parts, sep, k), PieceStart(parts, sep, k) + |parts[k]|)
  }

  lemma {:induction false} PieceStartPrefix(parts: seq<string>, sep: string, m: nat, k: nat)
    requires k <= m <= |parts|
    ensures PieceStart(parts[..m], sep, k) == PieceStart(parts, sep, k)
    decreases k
  {
    if k > 0 {
      assert parts[..m][1..] == parts[1..][..m - 1];
      PieceStartPrefix(parts[1..], sep, m - 1, k - 1);
    }
  }

  /** A search that finds nothing in a suffix finds nothing at the same places in the whole string. */
  lemma NoMatchShift(s: string, sep: string, m: nat, lo: nat, hi: nat)
    requires m <= |s| && NoMatchIn(s[m..], sep, lo, hi)
    ensures NoMatchIn(s, sep, m + lo, m + hi)
  {
    forall j: nat | m + lo <= j < m + hi ensures !OccursAt(s, sep, j) {
      if OccursAt(s, sep, j) {
        assert s[m..][j - m..j - m + |sep|] == s[j..j + |sep|];
        assert OccursAt(s[m..], sep, j - m);
      }
    }
  }

  /** The pieces between occurrences are cut at leftmost occurrences. */
  lemma {:induction false} SegmentsLeftmost(s: string, sep: string)
    requires sep != []
    ensures CutLeftmost(s, Segments(s, sep), sep)
    decreases |s|
  {
    var segs := Segments(s, sep);
    match IndexFrom(s, sep, 0)
    case None =>
      assert segs == [s];
      forall k | 0 <= k < |segs|
        ensures NoMatchIn(s, sep, PieceStart(segs, sep, k), PieceStart(segs, sep, k) + |segs[k]|)
      {
        assert k == 0;
      }
    case Some(i) =>
      var m := i + |sep|;
      var rest := s[m..];
      var rs := Segments(rest, sep);
      assert segs == [s[..i]] + rs;
      assert segs[1..] == rs;
      SegmentsLeftmost(rest, sep);
      forall k | 0 <= k < |segs|
        ensures NoMatchIn(s, sep, PieceStart(segs, sep, k), PieceStart(segs, sep, k) + |segs[k]|)
      {
        if k == 0 {
          assert segs[0] == s[..i];
        } else {
          assert PieceStart(segs, sep, k) == m + PieceStart(rs, sep, k - 1);
          assert segs[k] == rs[k - 1];
          NoMatchShift(s, sep, m, PieceStart(rs, sep, k - 1), PieceStart(rs, sep, k - 1) + |rs[k - 1]|);
        }
      }
  }

  /** Taking a prefix of the pieces keeps them cut at leftmost occurrences. */
  lemma CutLeftmostPrefix(s: string, parts: seq<string>, sep: string, m: nat)
    requires m <= |parts| && CutLeftmost(s, parts, sep)
    ensures CutLeftmost(s, parts[..m], sep)
  {
    forall k | 0 <= k < m
      ensures NoMatchIn(s, sep, PieceStart(parts[..m], sep, k), PieceStart(parts[..m], sep, k) + |parts[..m][k]|)
    {
      PieceStartPrefix(parts, sep, m, k);
      assert parts[..m][k] == parts[k];
    }
  }

  /**
   * `s.split(sep)` where `sep` has no regular-expression metacharacters: when
   * `sep` does not occur, the array holding `s` alone; otherwise the pieces
   * around every occurrence, a leading empty piece kept and the trailing empty
   * pieces dropped. No piece holds `sep`, the pieces joined with `sep` give
   * back `s` up to the separators that closed the dropped pieces, and each
   * piece ends at the leftmost occurrence after its start, as the regular
   * expression search finds it (which matters when `sep` can overlap itself).
   */
  function Split(s: string, sep: string): (parts: seq<string>)
    requires sep != []
    ensures IndexFrom(s, sep, 0).None? ==> parts == [s]
    ensures IndexFrom(s, sep, 0).Some? ==> parts == [] || parts[|parts| - 1] != []
    ensures forall k :: 0 <= k < |parts| ==> !Contains(parts[k], sep)
    ensures exists n: nat :: s == Join(parts, sep) + Repeat(sep, n)
    ensures CutLeftmost(s, parts, sep)
  {
    SegmentsFree(s, sep);
    SegmentsLeftmost(s, sep);
    if IndexFrom(s, sep, 0).None? then
      assert s == Join([s], sep) + Repeat(sep, 0);
      [s]
    else
      var segs := Segments(s, sep);
      SegmentsJoin(s, sep);
      DropJoin(segs, sep);
      var r := DropTrailingEmpty(segs);
      CutLeftmostPrefix(s, segs, sep, |r|);
      r
  }

  /** `t` is `sep` repeated zero or more times. */
  predicate OnlyRepeats(t: string, sep: string)
    requires sep != []
    decreases |t|
  {
    t == [] || (StartsWith(t, sep) && OnlyRepeats(t[|sep|..], sep))
  }

  /** Every string in `parts` is empty. */
  predicate AllEmpty(parts: seq<string>) {
    forall j :: 0 <= j < |parts| ==> parts[j] == []
  }

  lemma AllEmptyCons(x: string, rest: seq<string>)
    ensures AllEmpty([x] + rest) <==> x == [] && AllEmpty(rest)
  {
    var parts := [x] + rest;
    if x == [] && AllEmpty(rest) {
      forall j | 0 <= j < |parts| ensures parts[j] == [] {
        if j > 0 { assert parts[j] == rest[j - 1]; }
      }
    }
    if AllEmpty(parts) {
      assert parts[0] == x;
      forall j | 0 <= j < |rest| ensures rest[j] == [] {
        assert rest[j] == parts[j + 1];
      }
    }
  }

  /** Every piece between occurrences of `sep` is empty exactly when `t` is `sep` repeated. */
  lemma {:induction false} SegmentsAllEmpty(t: string, sep: string)
    requires sep != []
    ensures AllEmpty(Segments(t, sep)) <==> OnlyRepeats(t, sep)
    decreases |t|
  {
    StartsWithIsOccursAtZero(t, sep);
    match IndexFrom(t, sep, 0)
    case None =>
      assert Segments(t, sep) == [t];
      assert Segments(t, sep)[0] == t;
      assert !OccursAt(t, sep, 0);
    case Some(i) =>
      var rest := t[i + |sep|..];
      assert Segments(t, sep) == [t[..i]] + Segments(rest, sep);
      AllEmptyCons(t[..i], Segments(rest, sep));
      SegmentsAllEmpty(rest, sep);
      if i == 0 {
        assert t[|sep|..] == rest;
      } else {
        assert t[..i] != [];
        assert !StartsWith(t, sep);
      }
  }

  /** The first piece is the text before the first occurrence of `sep`, and it contains no `sep`. */
  lemma FirstSegment(t: string, sep: string)
    requires sep != []
    ensures var f := Segments(t, sep)[0];
      StartsWith(t, f) && !Contains(f, sep) && (|f| == |t| || OccursAt(t, sep, |f|))
  {
    var f := Segments(t, sep)[0];
    match IndexFrom(t, sep, 0)
    case None =>
      assert f == t;
      forall j | 0 <= j <= |f| - |sep| ensures !OccursAt(f, sep, j) { }
    case Some(i) =>
      assert f == t[..i];
      forall j | 0 <= j <= |f| - |sep| ensures !OccursAt(f, sep, j) {
        assert !OccursAt(t, sep, j);
        assert f[j..j + |sep|] == t[j..j + |sep|];
      }
  }
}
