/**
  The JavaScript string primitives the analyzer is written with:
  `includes`, `startsWith`, `endsWith`, `trim` and `split`,
  together with the character classes `\s` and `\w` of JavaScript regular
  expressions. Strings are sequences of characters.
*/
module Text {

  /** JavaScript's whitespace set: the `\s` class and what `trim` removes. */
  predicate IsSpace(c: char) {
    || c == ' ' || c == '\t' || c == '\n' || c == '\r' || c == '\U{0B}' || c == '\U{0C}'
    || c == '\U{A0}' || c == '\U{1680}' || ('\U{2000}' <= c <= '\U{200A}')
    || c == '\U{2028}' || c == '\U{2029}' || c == '\U{202F}' || c == '\U{205F}'
    || c == '\U{3000}' || c == '\U{FEFF}'
  }

  /** The characters that the regular-expression `.` does not match. */
  predicate IsLineTerminator(c: char) {
    c == '\n' || c == '\r' || c == '\U{2028}' || c == '\U{2029}'
  }

  /** The `\w` class: ASCII letters, digits and the underscore. */
  predicate IsWordChar(c: char) {
    ('a' <= c <= 'z') || ('A' <= c <= 'Z') || ('0' <= c <= '9') || c == '_'
  }

  /** `t` occurs in `s` starting at index `i`. */
  predicate OccursAt(s: string, t: string, i: int) {
    0 <= i && i + |t| <= |s| && s[i..i + |t|] == t
  }

  /** `s.includes(t)`: a left-to-right search for an occurrence of `t`. */
  predicate Contains(s: string, t: string) {
    ContainsFrom(s, t, 0)
  }

  predicate ContainsFrom(s: string, t: string, i: nat)
    decreases |s| - i
  {
    i + |t| <= |s| && (s[i..i + |t|] == t || ContainsFrom(s, t, i + 1))
  }

  /** The search from `i` succeeds exactly when `t` occurs at some index from `i` on. */
  lemma {:induction false} ContainsFromIff(s: string, t: string, i: nat)
    ensures ContainsFrom(s, t, i) <==> exists j :: i <= j && OccursAt(s, t, j)
    decreases |s| - i
  {
    if i + |t| <= |s| {
      ContainsFromIff(s, t, i + 1);
      if s[i..i + |t|] == t {
        assert OccursAt(s, t, i);
      }
      if exists j :: i <= j && OccursAt(s, t, j) {
        var j :| i <= j && OccursAt(s, t, j);
        if j > i {
          assert i + 1 <= j && OccursAt(s, t, j);
        }
      }
    }
  }

  /** `s.includes(t)` holds exactly when `t` occurs in `s` at some index. */
  lemma ContainsIff(s: string, t: string)
    ensures Contains(s, t) <==> exists i :: 0 <= i <= |s| && OccursAt(s, t, i)
  {
    ContainsFromIff(s, t, 0);
  }

  /** An occurrence is found by the search. */
  lemma ContainsWitness(s: string, t: string, i: nat)
    requires OccursAt(s, t, i)
    ensures Contains(s, t)
  {
    ContainsIff(s, t);
  }

  /** `s.startsWith(p)` */
  predicate StartsWith(s: string, p: string) {
    |p| <= |s| && s[..|p|] == p
  }

  /** `s.endsWith(p)` */
  predicate EndsWith(s: string, p: string) {
    |p| <= |s| && s[|s| - |p|..] == p
  }

  /** An occurrence in a part is an occurrence in the whole. */
  lemma ContainsInConcat(a: string, b: string, t: string)
    requires Contains(a, t) || Contains(b, t)
    ensures Contains(a + b, t)
  {
    ContainsIff(a, t);
    ContainsIff(b, t);
    if Contains(a, t) {
      var i :| 0 <= i <= |a| && OccursAt(a, t, i);
      assert (a + b)[i..i + |t|] == a[i..i + |t|];
      ContainsWitness(a + b, t, i);
    } else {
      var i :| 0 <= i <= |b| && OccursAt(b, t, i);
      assert (a + b)[|a| + i..|a| + i + |t|] == b[i..i + |t|];
      ContainsWitness(a + b, t, |a| + i);
    }
  }

  /** A string with a prefix contains that prefix. */
  lemma StartsWithContains(s: string, p: string)
    requires StartsWith(s, p)
    ensures Contains(s, p)
  {
    ContainsWitness(s, p, 0);
  }

  // ---------------------------------------------------------------- trim

  /** Drops the leading whitespace. */
  function TrimStart(s: string): (r: string)
    ensures |r| <= |s| && forall k :: 0 <= k < |r| ==> r[k] == s[|s| - |r| + k]
    ensures forall k :: 0 <= k < |s| - |r| ==> IsSpace(s[k])
    ensures r == [] || !IsSpace(r[0])
    decreases |s|
  {
    if |s| > 0 && IsSpace(s[0]) then
      var t := s[1..];
      var r := TrimStart(t);
      assert forall k :: 0 <= k < |t| ==> t[k] == s[k + 1];
      r
    else s
  }

  /** Drops the trailing whitespace. */
  function TrimEnd(s: string): (r: string)
    ensures |r| <= |s| && forall k :: 0 <= k < |r| ==> r[k] == s[k]
    ensures forall k :: |r| <= k < |s| ==> IsSpace(s[k])
    ensures r == [] || !IsSpace(r[|r| - 1])
    decreases |s|
  {
    if |s| > 0 && IsSpace(s[|s| - 1]) then TrimEnd(s[..|s| - 1]) else s
  }

  /** `s.trim()`: the part of `s` between its leading and trailing whitespace. */
  function Trim(s: string): string {
    TrimEnd(TrimStart(s))
  }

  /**
    The trimmed text is the infix of `s` left after removing whitespace at
    both ends; it is empty exactly when `s` is all whitespace.
  */
  lemma TrimSpec(s: string)
    ensures var r := Trim(s);
            && (r == [] || (!IsSpace(r[0]) && !IsSpace(r[|r| - 1])))
            && (exists i :: OccursAt(s, r, i)
                            && (forall k :: 0 <= k < i ==> IsSpace(s[k]))
                            && (forall k :: i + |r| <= k < |s| ==> IsSpace(s[k])))
            && (r == [] <==> forall k :: 0 <= k < |s| ==> IsSpace(s[k]))
  {
    var i := |s| - |TrimStart(s)|;
    TrimAt(s);
    TrimEdges(s);
    assert OccursAt(s, Trim(s), i);
  }

  /** The trimmed text sits at index `|s| - |TrimStart(s)|`, with only whitespace around it. */
  lemma TrimAt(s: string)
    ensures var r := Trim(s);
            var i := |s| - |TrimStart(s)|;
            && OccursAt(s, r, i)
            && (forall k :: 0 <= k < i ==> IsSpace(s[k]))
            && (forall k :: i + |r| <= k < |s| ==> IsSpace(s[k]))
  {
    TrimMiddle(s);
    TrimTail(s);
  }

  /** The trimmed text sits in `s` right after the leading whitespace. */
  lemma TrimMiddle(s: string)
    ensures OccursAt(s, Trim(s), |s| - |TrimStart(s)|)
  {
    var front := TrimStart(s);
    var r := TrimEnd(front);
    var i := |s| - |front|;
    forall k | 0 <= k < |r| ensures s[i + k] == r[k] {
      assert r[k] == front[k];
    }
    assert s[i..i + |r|] == r;
  }

  /** Everything after the trimmed text is whitespace. */
  lemma TrimTail(s: string)
    ensures forall k :: |s| - |TrimStart(s)| + |Trim(s)| <= k < |s| ==> IsSpace(s[k])
  {
    var front := TrimStart(s);
    var i := |s| - |front|;
    var r := TrimEnd(front);
    assert forall k :: |r| <= k < |front| ==> IsSpace(front[k]);
    forall k | i + |r| <= k < |s| ensures IsSpace(s[k]) {
      assert s[k] == front[k - i];
    }
  }

  /** The trimmed text starts and ends with a non-space; it is empty exactly when `s` is all whitespace. */
  lemma TrimEdges(s: string)
    ensures var r := Trim(s);
            && (r == [] || (!IsSpace(r[0]) && !IsSpace(r[|r| - 1])))
            && (r == [] <==> forall k :: 0 <= k < |s| ==> IsSpace(s[k]))
  {
    var front := TrimStart(s);
    var r := TrimEnd(front);
    var i := |s| - |front|;
    TrimAt(s);
    if r != [] {
      assert front[0] == r[0];
      assert s[i] == r[0];
    }
  }

  /** Trimming a word followed by whitespace gives back the word. */
  lemma TrimWordThenSpace(w: string, ws: string)
    requires |w| > 0 && forall k :: 0 <= k < |w| ==> !IsSpace(w[k])
    requires forall k :: 0 <= k < |ws| ==> IsSpace(ws[k])
    ensures Trim(w + ws) == w
  {
    assert (w + ws)[0] == w[0];
    assert TrimStart(w + ws) == w + ws;
    TrimEndSpaces(w, ws);
  }

  /** Trailing whitespace after a non-space is exactly what `TrimEnd` removes. */
  lemma {:induction false} TrimEndSpaces(w: string, ws: string)
    requires |w| > 0 && !IsSpace(w[|w| - 1])
    requires forall k :: 0 <= k < |ws| ==> IsSpace(ws[k])
    ensures TrimEnd(w + ws) == w
    decreases |ws|
  {
    if |ws| > 0 {
      assert (w + ws)[|w + ws| - 1] == ws[|ws| - 1];
      assert (w + ws)[..|w + ws| - 1] == w + ws[..|ws| - 1];
      TrimEndSpaces(w, ws[..|ws| - 1]);
    } else {
      assert w + ws == w;
    }
  }

  // --------------------------------------------------------------- split

  /** `s.split(sep)` for a one-character separator. */
  function Split(s: string, sep: char): (r: seq<string>)
    ensures |r| >= 1
    ensures forall k :: 0 <= k < |r| ==> sep !in r[k]
    decreases |s|
  {
    if |s| == 0 then [""]
    else
      var rest := Split(s[1..], sep);
      if s[0] == sep then [""] + rest
      else [[s[0]] + rest[0]] + rest[1..]
  }

  /** `parts.join(sep)` */
  function Join(parts: seq<string>, sep: char): string
    decreases |parts|
  {
    if |parts| == 0 then ""
    else if |parts| == 1 then parts[0]
    else parts[0] + [sep] + Join(parts[1..], sep)
  }

  /** Joining the pieces of a split restores the string. */
  lemma {:induction false} JoinSplit(s: string, sep: char)
    ensures Join(Split(s, sep), sep) == s
    decreases |s|
  {
    if |s| > 0 {
      var rest := Split(s[1..], sep);
      JoinSplit(s[1..], sep);
      if s[0] == sep {
        assert Split(s, sep) == [""] + rest;
        assert ([""] + rest)[1..] == rest;
        assert Join([""] + rest, sep) == "" + [sep] + Join(rest, sep);
        assert s == [s[0]] + s[1..];
      } else {
        var parts := [[s[0]] + rest[0]] + rest[1..];
        if |rest| == 1 {
          assert Join(parts, sep) == [s[0]] + rest[0];
          assert s == [s[0]] + s[1..];
        } else {
          assert parts[1..] == rest[1..];
          assert Join(rest, sep) == rest[0] + [sep] + Join(rest[1..], sep);
          assert Join(parts, sep) == [s[0]] + rest[0] + [sep] + Join(rest[1..], sep);
          assert s == [s[0]] + s[1..];
        }
      }
    }
  }

  /** Splitting a join of separator-free pieces gives back the pieces. */
  lemma {:induction false} SplitJoin(parts: seq<string>, sep: char)
    requires |parts| >= 1
    requires forall k :: 0 <= k < |parts| ==> sep !in parts[k]
    ensures Split(Join(parts, sep), sep) == parts
    decreases |parts|, |parts[0]|
  {
    var p := parts[0];
    if |parts| == 1 {
      if |p| > 0 {
        SplitJoin([p[1..]], sep);
        assert Split(p[1..], sep) == [p[1..]];
        assert p[0] != sep;
        assert [p[0]] + p[1..] == p;
      }
    } else if |p| == 0 {
      var s := Join(parts, sep);
      assert s == [sep] + Join(parts[1..], sep);
      assert s[1..] == Join(parts[1..], sep);
      SplitJoin(parts[1..], sep);
      assert Split(s, sep) == [""] + parts[1..];
    } else {
      var s := Join(parts, sep);
      var parts' := [p[1..]] + parts[1..];
      assert parts'[1..] == parts[1..];
      assert Join(parts', sep) == p[1..] + [sep] + Join(parts[1..], sep);
      assert s == p + [sep] + Join(parts[1..], sep);
      assert s[1..] == Join(parts', sep);
      assert p[0] in p;
      assert s[0] == p[0] != sep;
      SplitJoin(parts', sep);
      assert [p[0]] + p[1..] == p;
      assert Split(s, sep) == [[p[0]] + p[1..]] + parts[1..];
    }
  }

  /** `code.split('\n')` */
  function Lines(code: string): seq<string> {
    Split(code, '\n')
  }

  /**
    Separator-free text inside `s` lies within one piece of its split: the
    first piece of `s` holds every separator-free prefix, and an occurrence
    further on lies in some later piece.
  */
  lemma {:induction false} SplitKeepsOccurrence(s: string, sep: char, t: string, i: nat)
    requires sep !in t
    requires OccursAt(s, t, i)
    ensures exists k :: 0 <= k < |Split(s, sep)| && Contains(Split(s, sep)[k], t)
    decreases |s|
  {
    var r := Split(s, sep);
    if |t| == 0 {
      ContainsWitness(r[0], t, 0);
    } else if i == 0 {
      SplitFirstPiecePrefix(s, sep, t);
      StartsWithContains(r[0], t);
    } else {
      var rest := Split(s[1..], sep);
      assert s[1..][i - 1..i - 1 + |t|] == s[i..i + |t|];
      SplitKeepsOccurrence(s[1..], sep, t, i - 1);
      var k :| 0 <= k < |rest| && Contains(rest[k], t);
      if s[0] == sep {
        assert r[k + 1] == rest[k];
      } else if k == 0 {
        ContainsInConcat([s[0]], rest[0], t);
        assert r[0] == [s[0]] + rest[0];
      } else {
        assert r[k] == rest[k];
      }
    }
  }

  /** Text inside one piece of a join is text of the whole join. */
  lemma {:induction false} ContainsInJoin(parts: seq<string>, sep: char, k: nat, t: string)
    requires k < |parts| && Contains(parts[k], t)
    ensures Contains(Join(parts, sep), t)
    decreases |parts|
  {
    if |parts| > 1 {
      var rest := Join(parts[1..], sep);
      assert Join(parts, sep) == (parts[0] + [sep]) + rest;
      if k == 0 {
        ContainsInConcat(parts[0], [sep], t);
        ContainsInConcat(parts[0] + [sep], rest, t);
      } else {
        assert parts[1..][k - 1] == parts[k];
        ContainsInJoin(parts[1..], sep, k - 1, t);
        ContainsInConcat(parts[0] + [sep], rest, t);
      }
    }
  }

  /** Text inside a piece of a split is text of the split string. */
  lemma SplitPieceContained(s: string, sep: char, k: nat, t: string)
    requires k < |Split(s, sep)| && Contains(Split(s, sep)[k], t)
    ensures Contains(s, t)
  {
    ContainsInJoin(Split(s, sep), sep, k, t);
    JoinSplit(s, sep);
  }

  /** The first piece of a split starts with every separator-free prefix. */
  lemma {:induction false} SplitFirstPiecePrefix(s: string, sep: char, t: string)
    requires sep !in t
    requires StartsWith(s, t)
    ensures StartsWith(Split(s, sep)[0], t)
    decreases |s|
  {
    if |t| > 0 {
      assert t[0] in t;
      assert s[0] == t[0] != sep;
      var rest := Split(s[1..], sep);
      assert t[1..] == s[1..][..|t| - 1];
      assert sep !in t[1..] by {
        forall c | c in t[1..] ensures c in t { }
      }
      SplitFirstPiecePrefix(s[1..], sep, t[1..]);
      assert Split(s, sep)[0] == [s[0]] + rest[0];
      assert t == [t[0]] + t[1..];
    }
  }
}
