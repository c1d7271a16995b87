/**
  The fixed regular expressions of the analyzer, each written out by hand as
  the match a backtracking JavaScript engine finds:

    /^\S+\s+/             TokenThenSpace
    /range\(\w+\)/        RangeCallAt, HasRangeCall
    /\w+\[\w+\]/          IndexExprAt, HasIndexExpr
    /int\s+\w+;/          DeclAt(_, "int", _), HasBareDecl
    /float\s+\w+;/        DeclAt(_, "float", _), HasBareDecl
    /(\w+)\s*=\s*.+/g     AssignMatchAt, AssignMatches
    /\bNAME\b/g           WholeWordAt, WholeWordCount
*/
module Patterns {
  import opened Wrappers
  import opened Text
  import opened Scans

  // ---------------------------------------------------------- runs

  /** End of the longest run of `\w` characters starting at `i`. */
  function WordRunEnd(s: string, i: nat): (r: nat)
    requires i <= |s|
    ensures i <= r <= |s|
    ensures forall k :: i <= k < r ==> IsWordChar(s[k])
    ensures r == |s| || !IsWordChar(s[r])
    decreases |s| - i
  {
    if i < |s| && IsWordChar(s[i]) then WordRunEnd(s, i + 1) else i
  }

  /** End of the longest run of `\s` characters starting at `i`. */
  function SpaceRunEnd(s: string, i: nat): (r: nat)
    requires i <= |s|
    ensures i <= r <= |s|
    ensures forall k :: i <= k < r ==> IsSpace(s[k])
    ensures r == |s| || !IsSpace(s[r])
    decreases |s| - i
  {
    if i < |s| && IsSpace(s[i]) then SpaceRunEnd(s, i + 1) else i
  }

  /** End of the longest run matched by `.` (no line terminator) starting at `i`. */
  function LineEnd(s: string, i: nat): (r: nat)
    requires i <= |s|
    ensures i <= r <= |s|
    ensures forall k :: i <= k < r ==> !IsLineTerminator(s[k])
    ensures r == |s| || IsLineTerminator(s[r])
    decreases |s| - i
  {
    if i < |s| && !IsLineTerminator(s[i]) then LineEnd(s, i + 1) else i
  }

  // -------------------------------------------------- /^\S+\s+/

  /**
    `/^\S+\s+/.test(s)`, as the search runs it: the text opens with a
    non-space and a space follows somewhere.
  */
  predicate TokenThenSpace(s: string) {
    |s| > 0 && !IsSpace(s[0]) && FirstIndex(|s|, (k: nat) => k < |s| && IsSpace(s[k]), 0) >= 0
  }

  /** What the pattern means: a non-empty run of non-spaces at the start, then a space. */
  predicate TokenThenSpaceMatch(s: string) {
    exists k :: 1 <= k < |s| && IsSpace(s[k]) && forall j :: 0 <= j < k ==> !IsSpace(s[j])
  }

  lemma TokenThenSpaceIff(s: string)
    ensures TokenThenSpace(s) <==> TokenThenSpaceMatch(s)
  {
    var f := (k: nat) => k < |s| && IsSpace(s[k]);
    if TokenThenSpace(s) {
      var k := FirstIndex(|s|, f, 0);
      forall j | 0 <= j < k ensures !IsSpace(s[j]) {
        assert !f(j);
      }
      assert 1 <= k < |s| && IsSpace(s[k]) && forall j :: 0 <= j < k ==> !IsSpace(s[j]);
    }
    if TokenThenSpaceMatch(s) {
      var k :| 1 <= k < |s| && IsSpace(s[k]) && forall j :: 0 <= j < k ==> !IsSpace(s[j]);
      assert f(k);
      assert !IsSpace(s[0]);
    }
  }

  // ------------------------------------------------ /range\(\w+\)/

  /** `range\(\w+\)` matches at `i`. */
  predicate RangeCallAt(s: string, i: nat) {
    && OccursAt(s, "range(", i)
    && var e := WordRunEnd(s, i + 6);
       e > i + 6 && e < |s| && s[e] == ')'
  }

  /** `/range\(\w+\)/.test(s)`: the leftmost position the pattern matches at, if any. */
  predicate HasRangeCall(s: string) {
    FirstIndex(|s|, (i: nat) => RangeCallAt(s, i), 0) >= 0
  }

  lemma HasRangeCallIff(s: string)
    ensures HasRangeCall(s) <==> exists i :: 0 <= i < |s| && RangeCallAt(s, i)
  {
    var f := (i: nat) => RangeCallAt(s, i);
    if exists i :: 0 <= i < |s| && RangeCallAt(s, i) {
      var i :| 0 <= i < |s| && RangeCallAt(s, i);
      assert f(i);
    }
  }

  // ------------------------------------------------- /\w+\[\w+\]/

  /** `\w+\[\w+\]` matches at `i`. */
  predicate IndexExprAt(s: string, i: nat) {
    && i < |s|
    && var b := WordRunEnd(s, i);
       && b > i && b < |s| && s[b] == '['
       && var e := WordRunEnd(s, b + 1);
          e > b + 1 && e < |s| && s[e] == ']'
  }

  /** `/\w+\[\w+\]/.test(s)` */
  predicate HasIndexExpr(s: string) {
    FirstIndex(|s|, (i: nat) => IndexExprAt(s, i), 0) >= 0
  }

  lemma HasIndexExprIff(s: string)
    ensures HasIndexExpr(s) <==> exists i :: 0 <= i < |s| && IndexExprAt(s, i)
  {
    var f := (i: nat) => IndexExprAt(s, i);
    if exists i :: 0 <= i < |s| && IndexExprAt(s, i) {
      var i :| 0 <= i < |s| && IndexExprAt(s, i);
      assert f(i);
    }
  }

  // ------------------------------------ /int\s+\w+;/ and /float\s+\w+;/

  /** `kw\s+\w+;` matches at `i`. */
  predicate DeclAt(s: string, kw: string, i: nat) {
    && OccursAt(s, kw, i)
    && var a := i + |kw|;
       var b := SpaceRunEnd(s, a);
       && b > a
       && var e := WordRunEnd(s, b);
          e > b && e < |s| && s[e] == ';'
  }

  /** `s.match(/int\s+\w+;/) || s.match(/float\s+\w+;/)` */
  predicate HasBareDecl(s: string) {
    FirstIndex(|s|, (i: nat) => DeclAt(s, "int", i), 0) >= 0
    || FirstIndex(|s|, (i: nat) => DeclAt(s, "float", i), 0) >= 0
  }

  lemma HasBareDeclIff(s: string)
    ensures HasBareDecl(s) <==> exists i :: 0 <= i < |s| && (DeclAt(s, "int", i) || DeclAt(s, "float", i))
  {
    var f := (i: nat) => DeclAt(s, "int", i);
    var g := (i: nat) => DeclAt(s, "float", i);
    if exists i :: 0 <= i < |s| && (DeclAt(s, "int", i) || DeclAt(s, "float", i)) {
      var i :| 0 <= i < |s| && (DeclAt(s, "int", i) || DeclAt(s, "float", i));
      assert f(i) || g(i);
    }
  }

  // --------------------------------------------- /(\w+)\s*=\s*.+/g

  /** A match of the assignment pattern: `s[start..end]`. */
  datatype Span = Span(start: nat, end: nat)

  /**
    Where `.+` starts after the `\s*` that follows `=`: `\s*` first takes the
    whole space run up to `hi` and then gives characters back one at a time,
    so `.+` starts at the last index in `lo..hi` holding a character other
    than a line terminator.
  */
  function DotStart(s: string, lo: nat, hi: int): (r: Option<nat>)
    ensures r.Some? ==> lo <= r.value <= hi && r.value < |s| && !IsLineTerminator(s[r.value])
    ensures r.Some? ==> forall k :: r.value < k <= hi && k < |s| ==> IsLineTerminator(s[k])
    ensures r.None? ==> forall k :: lo <= k <= hi && k < |s| ==> IsLineTerminator(s[k])
    decreases hi - lo + 1
  {
    if hi < lo then None
    else if hi < |s| && !IsLineTerminator(s[hi]) then Some(hi)
    else DotStart(s, lo, hi - 1)
  }

  /** The end of the match of `(\w+)\s*=\s*.+` that starts at `p`, if one does. */
  function AssignMatchAt(s: string, p: nat): (r: Option<nat>)
    ensures r.Some? ==> p < r.value <= |s|
  {
    if p >= |s| || !IsWordChar(s[p]) then None
    else
      var e := SpaceRunEnd(s, WordRunEnd(s, p));
      if e < |s| && s[e] == '=' then
        match DotStart(s, e + 1, SpaceRunEnd(s, e + 1))
        case Some(k) => Some(LineEnd(s, k))
        case None => None
      else None
  }

  /**
    A match has the pattern's shape: a word, spaces, `=`, spaces, then a
    non-empty run of non-terminators that stops only at a line terminator or
    at the end of the text.
  */
  lemma AssignMatchShape(s: string, p: nat)
    requires AssignMatchAt(s, p).Some?
    ensures var q := WordRunEnd(s, p);
            var e := SpaceRunEnd(s, q);
            var end := AssignMatchAt(s, p).value;
            && p < q <= e < end - 1
            && s[e] == '='
            && (forall k :: p <= k < q ==> IsWordChar(s[k]))
            && (forall k :: q <= k < e ==> IsSpace(s[k]))
            && !IsLineTerminator(s[end - 1])
            && (end == |s| || IsLineTerminator(s[end]))
  {
  }

  /**
    `s.match(/(\w+)\s*=\s*.+/g)` from `from` on: each search starts where the
    previous match ended and takes the leftmost match. The matches returned
    are genuine matches, in order and without overlap.
  */
  function AssignMatchesFrom(s: string, from: nat): (r: seq<Span>)
    requires from <= |s|
    ensures forall k :: 0 <= k < |r| ==> from <= r[k].start < r[k].end <= |s|
    ensures forall k :: 0 <= k < |r| ==> AssignMatchAt(s, r[k].start) == Some(r[k].end)
    ensures forall k :: 0 <= k < |r| - 1 ==> r[k].end <= r[k + 1].start
    decreases |s| - from
  {
    if from == |s| then []
    else
      match AssignMatchAt(s, from)
      case Some(e) =>
        var rest := AssignMatchesFrom(s, e);
        ConsOrdered(Span(from, e), rest);
        [Span(from, e)] + rest
      case None => AssignMatchesFrom(s, from + 1)
  }

  /** A span ending before every span of an ordered list keeps the list ordered when put in front. */
  lemma ConsOrdered(m: Span, rest: seq<Span>)
    requires forall k :: 0 <= k < |rest| ==> m.end <= rest[k].start
    requires forall k :: 0 <= k < |rest| - 1 ==> rest[k].end <= rest[k + 1].start
    ensures forall k :: 0 <= k < |rest| ==> ([m] + rest)[k].end <= ([m] + rest)[k + 1].start
  {
    forall k | 0 <= k < |rest|
      ensures ([m] + rest)[k].end <= ([m] + rest)[k + 1].start
    {
      assert ([m] + rest)[k + 1] == rest[k];
      if k > 0 {
        assert ([m] + rest)[k] == rest[k - 1];
      }
    }
  }

  /** All matches of the assignment pattern, in order. */
  function AssignMatches(s: string): seq<Span> {
    AssignMatchesFrom(s, 0)
  }

  /** Position `p` lies inside one of the matches `r`. */
  predicate Covered(r: seq<Span>, p: nat) {
    exists k :: 0 <= k < |r| && r[k].start <= p < r[k].end
  }

  /**
    The scan misses nothing: every position from `from` on where the pattern
    matches lies inside a reported match. With the ordering and soundness of
    the scan this pins its result down to the leftmost-match semantics.
  */
  lemma {:induction false} AssignMatchesCover(s: string, from: nat, p: nat)
    requires from <= p < |s| && AssignMatchAt(s, p).Some?
    ensures Covered(AssignMatchesFrom(s, from), p)
    decreases |s| - from
  {
    var m := AssignMatchAt(s, from);
    if m.Some? {
      var e := m.value;
      var rest := AssignMatchesFrom(s, e);
      ScanStep(s, from, e);
      if p >= e {
        AssignMatchesCover(s, e, p);
        CoveredShift(Span(from, e), rest, p);
      } else {
        CoveredHead(Span(from, e), rest, p);
      }
    } else {
      ScanSkip(s, from);
      AssignMatchesCover(s, from + 1, p);
    }
  }

  /** One step of the scan after a match at `from` ending at `e`. */
  lemma ScanStep(s: string, from: nat, e: nat)
    requires from < |s| && AssignMatchAt(s, from) == Some(e)
    ensures AssignMatchesFrom(s, from) == [Span(from, e)] + AssignMatchesFrom(s, e)
  {
  }

  /** One step of the scan past a position where no match starts. */
  lemma ScanSkip(s: string, from: nat)
    requires from < |s| && AssignMatchAt(s, from).None?
    ensures AssignMatchesFrom(s, from) == AssignMatchesFrom(s, from + 1)
  {
  }

  /** No match starts where a match ends: that is a line terminator or the end of the text. */
  lemma NoMatchAtMatchEnd(s: string, p: nat)
    requires AssignMatchAt(s, p).Some?
    ensures AssignMatchAt(s, AssignMatchAt(s, p).value).None?
  {
    AssignMatchShape(s, p);
  }

  lemma CoveredShift(m: Span, rest: seq<Span>, p: nat)
    requires Covered(rest, p)
    ensures Covered([m] + rest, p)
  {
    var k :| 0 <= k < |rest| && rest[k].start <= p < rest[k].end;
    assert ([m] + rest)[k + 1] == rest[k];
  }

  lemma CoveredHead(m: Span, rest: seq<Span>, p: nat)
    requires m.start <= p < m.end
    ensures Covered([m] + rest, p)
  {
    assert ([m] + rest)[0] == m;
  }

  /** Every match starts at the beginning of a word. */
  predicate StartsAtWords(s: string, r: seq<Span>) {
    forall k :: 0 <= k < |r| && 0 < r[k].start <= |s| ==> !IsWordChar(s[r[k].start - 1])
  }

  /**
    The scan reports matches only at the beginning of a word: a failed
    attempt inside a word fails for the rest of that word too, and each
    search resumes at a line terminator or at the end of the text.
  */
  lemma {:induction false} AssignMatchesStartWords(s: string, from: nat)
    requires from <= |s|
    requires from == 0 || !IsWordChar(s[from - 1]) || AssignMatchAt(s, from).None?
    ensures StartsAtWords(s, AssignMatchesFrom(s, from))
    decreases |s| - from
  {
    if from < |s| {
      match AssignMatchAt(s, from)
      case Some(e) =>
        NoMatchAtMatchEnd(s, from);
        AssignMatchesStartWords(s, e);
        StartsAtWordsAfterMatch(s, from, e);
      case None =>
        ScanSkip(s, from);
        NextAttemptStartsWord(s, from);
        AssignMatchesStartWords(s, from + 1);
    }
  }

  /** A match at a word start, followed by matches at word starts, gives matches at word starts. */
  lemma StartsAtWordsAfterMatch(s: string, from: nat, e: nat)
    requires from < |s| && AssignMatchAt(s, from) == Some(e)
    requires from == 0 || !IsWordChar(s[from - 1])
    requires StartsAtWords(s, AssignMatchesFrom(s, e))
    ensures StartsAtWords(s, AssignMatchesFrom(s, from))
  {
    ScanStep(s, from, e);
    StartsAtWordsCons(s, Span(from, e), AssignMatchesFrom(s, e));
  }

  /**
    After a failed attempt at `from`, the next attempt is at a word start
    or fails too: inside a word it fails like the attempt before it.
  */
  lemma NextAttemptStartsWord(s: string, from: nat)
    requires from < |s| && AssignMatchAt(s, from).None?
    ensures !IsWordChar(s[from]) || AssignMatchAt(s, from + 1).None?
  {
    if from + 1 < |s| && IsWordChar(s[from]) && IsWordChar(s[from + 1]) {
      SameWordSameMatch(s, from);
    }
  }

  /** Attempts at two adjacent positions of one word succeed or fail together. */
  lemma SameWordSameMatch(s: string, i: nat)
    requires i + 1 < |s| && IsWordChar(s[i]) && IsWordChar(s[i + 1])
    ensures AssignMatchAt(s, i) == AssignMatchAt(s, i + 1)
  {
    assert WordRunEnd(s, i) == WordRunEnd(s, i + 1);
  }

  lemma StartsAtWordsCons(s: string, m: Span, rest: seq<Span>)
    requires StartsAtWords(s, rest)
    requires 0 < m.start <= |s| ==> !IsWordChar(s[m.start - 1])
    ensures StartsAtWords(s, [m] + rest)
  {
    assert forall k :: 1 <= k < |rest| + 1 ==> ([m] + rest)[k] == rest[k - 1];
  }

  /** `match.split('=')[0].trim()`: the name the assignment match assigns to. */
  function VarName(s: string, m: Span): string
    requires m.start <= m.end <= |s|
  {
    Trim(Split(s[m.start..m.end], '=')[0])
  }

  /** The first piece of a split is everything before the first separator. */
  lemma {:induction false} SplitFirstPiece(a: string, sep: char, b: string)
    requires sep !in a
    ensures Split(a + [sep] + b, sep)[0] == a
    decreases |a|
  {
    if |a| > 0 {
      assert a[0] in a;
      assert (a + [sep] + b)[1..] == a[1..] + [sep] + b;
      assert sep !in a[1..] by {
        forall c | c in a[1..] ensures c in a { }
      }
      SplitFirstPiece(a[1..], sep, b);
      assert [a[0]] + a[1..] == a;
    } else {
      assert a + [sep] + b == [sep] + b;
    }
  }

  /** Splitting at the first `=` and trimming a `word spaces = rest` text yields the word. */
  lemma NameBeforeEquals(w: string, ws: string, rest: string)
    requires |w| > 0 && forall k :: 0 <= k < |w| ==> IsWordChar(w[k])
    requires forall k :: 0 <= k < |ws| ==> IsSpace(ws[k])
    ensures Trim(Split(w + ws + ['='] + rest, '=')[0]) == w
  {
    assert '=' !in w + ws by {
      forall k | 0 <= k < |w + ws| ensures (w + ws)[k] != '=' {
        if k < |w| { assert IsWordChar(w[k]); } else { assert IsSpace(ws[k - |w|]); }
      }
    }
    SplitFirstPiece(w + ws, '=', rest);
    assert forall k :: 0 <= k < |w| ==> !IsSpace(w[k]) by {
      forall k | 0 <= k < |w| ensures !IsSpace(w[k]) { assert IsWordChar(w[k]); }
    }
    TrimWordThenSpace(w, ws);
  }

  lemma SliceAround(s: string, p: nat, q: nat, e: nat, end: nat)
    requires p <= q <= e < end <= |s|
    ensures s[p..end] == s[p..q] + s[q..e] + [s[e]] + s[e + 1..end]
  {
  }

  /** The name an assignment match assigns to is its leading word. */
  lemma VarNameIsWord(s: string, p: nat, end: nat)
    requires AssignMatchAt(s, p) == Some(end)
    ensures VarName(s, Span(p, end)) == s[p..WordRunEnd(s, p)]
  {
    AssignMatchShape(s, p);
    var q := WordRunEnd(s, p);
    var e := SpaceRunEnd(s, q);
    SliceAround(s, p, q, e, end);
    NameBeforeEquals(s[p..q], s[q..e], s[e + 1..end]);
  }

  // ------------------------------------------------------ /\bNAME\b/g

  /** `w` occurs at `i` bounded by `\b` on both sides (for a word `w`). */
  predicate WholeWordAt(s: string, w: string, i: int) {
    && OccursAt(s, w, i)
    && (i == 0 || !IsWordChar(s[i - 1]))
    && (i + |w| == |s| || !IsWordChar(s[i + |w|]))
  }

  function WholeWordCountFrom(s: string, w: string, i: nat): nat
    decreases |s| + 1 - i
  {
    if i > |s| then 0
    else (if WholeWordAt(s, w, i) then 1 else 0) + WholeWordCountFrom(s, w, i + 1)
  }

  /**
    The length of `s.match(new RegExp('\\b' + w + '\\b', 'g'))`: whole-word
    occurrences of a word cannot overlap, so the matches are exactly the
    positions where one starts.
  */
  function WholeWordCount(s: string, w: string): nat {
    WholeWordCountFrom(s, w, 0)
  }

  /**
    Whole-word occurrences of a non-empty word never overlap: a later one
    starts no earlier than the end of an earlier one. So the global match
    finds every position that `WholeWordCount` counts.
  */
  lemma WholeWordsDisjoint(s: string, w: string, i: nat, j: nat)
    requires |w| > 0 && forall k :: 0 <= k < |w| ==> IsWordChar(w[k])
    requires WholeWordAt(s, w, i) && WholeWordAt(s, w, j) && i < j
    ensures i + |w| <= j
  {
  }

  /** Each whole-word occurrence at or after `i` adds one to the count from `i`. */
  lemma {:induction false} CountFromBounds(s: string, w: string, i: nat, a: nat, b: nat)
    requires i <= a <= |s| && WholeWordAt(s, w, a)
    requires a != b ==> i <= b <= |s| && WholeWordAt(s, w, b)
    ensures WholeWordCountFrom(s, w, i) >= (if a == b then 1 else 2)
    decreases |s| + 1 - i
  {
    if i == a || i == b {
      if a != b {
        var other := if i == a then b else a;
        CountFromBounds(s, w, i + 1, other, other);
      }
    } else {
      CountFromBounds(s, w, i + 1, a, b);
    }
  }

  /** A word counted once occurs, as a whole word, only where it was found. */
  lemma CountOnePinsOccurrence(s: string, w: string, p: nat)
    requires p <= |s| && WholeWordAt(s, w, p)
    ensures WholeWordCount(s, w) >= 1
    ensures WholeWordCount(s, w) == 1 ==> forall i :: WholeWordAt(s, w, i) ==> i == p
  {
    CountFromBounds(s, w, 0, p, p);
    forall i | WholeWordAt(s, w, i) && WholeWordCount(s, w) == 1
      ensures i == p
    {
      if i != p {
        CountFromBounds(s, w, 0, p, i);
      }
    }
  }

  /** The name an assignment match assigns to is itself a whole-word occurrence at the match. */
  lemma AssignedNameIsWholeWord(s: string, m: Span)
    requires AssignMatchAt(s, m.start) == Some(m.end)
    requires m.start == 0 || !IsWordChar(s[m.start - 1])
    ensures WholeWordAt(s, VarName(s, m), m.start)
  {
    VarNameIsWord(s, m.start, m.end);
    AssignMatchShape(s, m.start);
    WordRunIsWholeWord(s, m.start);
  }

  /** A maximal run of word characters starting at a word boundary is a whole word. */
  lemma WordRunIsWholeWord(s: string, p: nat)
    requires p <= |s|
    requires p == 0 || !IsWordChar(s[p - 1])
    ensures WholeWordAt(s, s[p..WordRunEnd(s, p)], p)
  {
  }
}
