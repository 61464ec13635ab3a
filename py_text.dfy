/**
 * The few pieces of Python's `str` that the parser relies on, stated exactly:
 * substring membership (`t in s`), `s.split(sep)` on a literal non-empty
 * separator, `sep.join(pieces)` and `s.replace(pattern, replacement)`.
 */
module PyText {

  datatype Option<T> = None | Some(value: T)

  /** `t` occurs in `s` starting at index `i`. */
  predicate OccursAt(s: string, t: string, i: nat)
  {
    i + |t| <= |s| && s[i..i + |t|] == t
  }

  /** Position `e` is the end of `s` or an occurrence of `t`: where a piece of a split ends. */
  predicate EndsOrOccurs(s: string, t: string, e: nat)
  {
    e == |s| || OccursAt(s, t, e)
  }

  /** Python's `t in s` for two strings. */
  predicate Contains(s: string, t: string)
  {
    exists i :: 0 <= i <= |s| && OccursAt(s, t, i)
  }

  /** The first index at or after `start` where `t` occurs in `s`. */
  function FindFrom(s: string, t: string, start: nat): (r: Option<nat>)
    ensures r.Some? ==> start <= r.value && OccursAt(s, t, r.value)
    ensures r.Some? ==> forall j: nat :: start <= j < r.value ==> !OccursAt(s, t, j)
    ensures r.None? ==> forall j: nat :: start <= j ==> !OccursAt(s, t, j)
    decreases |s| - start
  {
    if start + |t| > |s| then None
    else if s[start..start + |t|] == t then Some(start)
    else FindFrom(s, t, start + 1)
  }

  /** The index of the first occurrence of `t` in `s`, if there is one. */
  function Find(s: string, t: string): (r: Option<nat>)
    ensures r.Some? <==> Contains(s, t)
    ensures r.Some? ==> OccursAt(s, t, r.value)
    ensures r.Some? ==> forall j: nat :: j < r.value ==> !OccursAt(s, t, j)
  {
    FindFrom(s, t, 0)
  }

  /** Python's `sep.join(pieces)`. */
  function Join(pieces: seq<string>, sep: string): string
  {
    if |pieces| == 0 then ""
    else if |pieces| == 1 then pieces[0]
    else pieces[0] + sep + Join(pieces[1..], sep)
  }

  /**
   * Python's `s.split(sep)` for a non-empty separator: the text before the
   * first occurrence, then the split of the rest. There is a piece `[1]`
   * exactly when the separator occurs.
   */
  function Split(s: string, sep: string): (pieces: seq<string>)
    requires sep != []
    ensures |pieces| >= 1
    ensures |pieces| >= 2 <==> Contains(s, sep)
    decreases |s|
  {
    match Find(s, sep)
    case None => [s]
    case Some(i) => [s[..i]] + Split(s[i + |sep|..], sep)
  }

  /** Joining the pieces of a split with its separator gives back the string. */
  lemma {:induction false} SplitJoin(s: string, sep: string)
    requires sep != []
    ensures Join(Split(s, sep), sep) == s
    decreases |s|
  {
    match Find(s, sep)
    case None =>
    case Some(i) =>
      var rest := Split(s[i + |sep|..], sep);
      SplitJoin(s[i + |sep|..], sep);
      assert ([s[..i]] + rest)[1..] == rest;
      assert s[i..i + |sep|] == sep;
      assert s == s[..i] + s[i..i + |sep|] + s[i + |sep|..];
  }

  /** No piece of a split contains the separator. */
  lemma {:induction false} SplitPiecesFree(s: string, sep: string)
    requires sep != []
    ensures forall k :: 0 <= k < |Split(s, sep)| ==> !Contains(Split(s, sep)[k], sep)
    decreases |s|
  {
    match Find(s, sep)
    case None =>
    case Some(i) =>
      var rest := s[i + |sep|..];
      var pieces, tail := Split(s, sep), Split(rest, sep);
      assert pieces == [s[..i]] + tail;
      SplitPiecesFree(rest, sep);
      BeforeFirstIsFree(s, sep, i);
      forall k | 1 <= k < |pieces|
        ensures !Contains(pieces[k], sep)
      {
        assert pieces[k] == tail[k - 1];
      }
  }

  /**
   * Python's `s.replace(pattern, replacement)`: every non-overlapping
   * occurrence, scanning from the left, is replaced. It agrees with
   * splitting on the pattern and joining with the replacement.
   */
  function Replace(s: string, pattern: string, replacement: string): (r: string)
    requires pattern != []
    ensures r == Join(Split(s, pattern), replacement)
    decreases |s|
  {
    match Find(s, pattern)
    case None => s
    case Some(i) =>
      var rest := s[i + |pattern|..];
      assert Split(s, pattern)[1..] == Split(rest, pattern);
      s[..i] + replacement + Replace(rest, pattern, replacement)
  }

  // ---------------------------------------------------------------------
  // Helper lemmas about occurrences
  // ---------------------------------------------------------------------

  /** An occurrence inside a suffix is an occurrence in the whole string. */
  lemma OccursInSuffix(s: string, t: string, i: nat, j: nat)
    requires i <= |s| && OccursAt(s[i..], t, j)
    ensures OccursAt(s, t, i + j)
  {
    assert s[i..][j..j + |t|] == s[i + j..i + j + |t|];
  }

  /** An occurrence at or after `i` is an occurrence in the suffix from `i`. */
  lemma OccursFromSuffix(s: string, t: string, i: nat, j: nat)
    requires i <= |s| && OccursAt(s, t, i + j)
    ensures OccursAt(s[i..], t, j)
  {
    assert s[i..][j..j + |t|] == s[i + j..i + j + |t|];
  }

  /** The text before the first occurrence does not contain it. */
  lemma BeforeFirstIsFree(s: string, t: string, i: nat)
    requires i <= |s| && t != []
    requires forall j: nat :: j < i ==> !OccursAt(s, t, j)
    ensures !Contains(s[..i], t)
  {
    forall j | 0 <= j <= i
      ensures !OccursAt(s[..i], t, j)
    {
      if j + |t| <= i {
        assert s[..i][j..j + |t|] == s[j..j + |t|];
        assert !OccursAt(s, t, j);
      }
    }
  }

  /** A single character is contained exactly when it is a member. */
  lemma ContainsChar(s: string, c: char)
    ensures Contains(s, [c]) <==> c in s
  {
    forall i | 0 <= i < |s|
      ensures OccursAt(s, [c], i) <==> s[i] == c
    {
      assert s[i..i + 1] == [s[i]];
    }
  }

  /** The first occurrence is unique: any occurrence with none before it is the one Find reports. */
  lemma FindIsFirst(s: string, t: string, i: nat)
    requires OccursAt(s, t, i)
    requires forall j: nat :: j < i ==> !OccursAt(s, t, j)
    ensures Find(s, t) == Some(i)
  {
    assert Contains(s, t);
  }

  /**
   * Appending `b` to a string `a` free of `t` creates no occurrence of `t`
   * that starts inside `a`, provided the first character of `b` appears in
   * `t` at most in its first position.
   */
  lemma NoEarlyOccurrence(a: string, b: string, t: string)
    requires !Contains(a, t) && b != [] && t != []
    requires b[0] !in t[1..]
    ensures forall p: nat :: p < |a| ==> !OccursAt(a + b, t, p)
  {
    forall p: nat | p < |a|
      ensures !OccursAt(a + b, t, p)
    {
      if p + |t| <= |a| {
        assert (a + b)[p..p + |t|] == a[p..p + |t|];
        assert !OccursAt(a, t, p);
      } else if p + |t| <= |a + b| {
        var k := |a| - p;
        assert 0 < k < |t|;
        assert (a + b)[p..p + |t|][k] == b[0];
        assert t[k] == t[1..][k - 1];
      }
    }
  }

  /**
   * Joining two strings free of `t` with a non-empty separator none of whose
   * characters appear in `t` gives a string free of `t`.
   */
  lemma JoinedStaysFree(a: string, mid: string, b: string, t: string)
    requires !Contains(a, t) && !Contains(b, t)
    requires mid != [] && t != []
    requires forall c :: c in mid ==> c !in t
    ensures !Contains(a + mid + b, t)
  {
    var x := a + mid + b;
    forall p | 0 <= p <= |x|
      ensures !OccursAt(x, t, p)
    {
      if p + |t| <= |x| {
        if p + |t| <= |a| {
          assert x[p..p + |t|] == a[p..p + |t|];
          assert !OccursAt(a, t, p);
        } else if p >= |a| + |mid| {
          var q := p - |a| - |mid|;
          assert x[p..p + |t|] == b[q..q + |t|];
          assert !OccursAt(b, t, q);
        } else {
          // The window starting at p covers a character of mid.
          var q := if p < |a| then |a| else p;
          assert p <= q < p + |t| && |a| <= q < |a| + |mid|;
          assert x[p..p + |t|][q - p] == x[q] == mid[q - |a|];
          assert mid[q - |a|] !in t;
        }
      }
    }
  }

  /**
   * The first piece of a split is a prefix of the string, free of the
   * separator, and either the whole string or followed by the separator.
   */
  lemma SplitHead(s: string, sep: string)
    requires sep != []
    ensures var h := Split(s, sep)[0];
      && |h| <= |s| && s[..|h|] == h
      && !Contains(h, sep)
      && (h == s || OccursAt(s, sep, |h|))
      && (h == s <==> !Contains(s, sep))
  {
    match Find(s, sep)
    case None =>
    case Some(i) =>
      BeforeFirstIsFree(s, sep, i);
  }

  /** No occurrence of the separator starts inside piece `[0]` of a split. */
  lemma HeadHasNoOccurrence(s: string, sep: string)
    requires sep != []
    ensures forall q: nat :: q < |Split(s, sep)[0]| ==> !OccursAt(s, sep, q)
  {
    match Find(s, sep)
    case None =>
    case Some(i) =>
  }

  /**
   * When the separator occurs, piece `[1]` follows its first occurrence, is
   * free of it, and runs to the second occurrence or to the end of the string.
   */
  lemma SplitSecondPiece(s: string, sep: string) returns (i: nat, b: string)
    requires sep != [] && Contains(s, sep)
    ensures Find(s, sep) == Some(i) && b == Split(s, sep)[1]
    ensures OccursAt(s, sep + b, i)
    ensures !Contains(b, sep)
    ensures EndsOrOccurs(s, sep, i + |sep| + |b|)
  {
    i := Find(s, sep).value;
    var rest := s[i + |sep|..];
    SecondIsHeadOfRest(s, sep);
    SplitHead(rest, sep);
    b := Split(rest, sep)[0];
    FollowedBy(s, sep, i, b);
  }

  /**
   * No occurrence of the separator starts inside piece `[1]`, so piece `[1]`
   * ends at the second occurrence even when the separator overlaps itself.
   */
  lemma SecondPieceHasNoOccurrence(s: string, sep: string)
    requires sep != [] && Contains(s, sep)
    ensures var i, b := Find(s, sep).value, Split(s, sep)[1];
      forall p: nat :: i + |sep| <= p < i + |sep| + |b| ==> !OccursAt(s, sep, p)
  {
    SecondIsHeadOfRest(s, sep);
    HeadOfSuffixHasNoOccurrence(s, sep, Find(s, sep).value + |sep|);
  }

  /** No occurrence starts inside piece `[0]` of the split of a suffix. */
  lemma HeadOfSuffixHasNoOccurrence(s: string, sep: string, from: nat)
    requires sep != [] && from <= |s|
    ensures forall p: nat :: from <= p < from + |Split(s[from..], sep)[0]| ==> !OccursAt(s, sep, p)
  {
    HeadHasNoOccurrence(s[from..], sep);
    forall p: nat | from <= p < from + |Split(s[from..], sep)[0]|
      ensures !OccursAt(s, sep, p)
    {
      if OccursAt(s, sep, p) {
        OccursFromSuffix(s, sep, from, p - from);
      }
    }
  }

  /** Piece `[1]` of a split is piece `[0]` of the split of what follows the first occurrence. */
  lemma SecondIsHeadOfRest(s: string, sep: string)
    requires sep != [] && Contains(s, sep)
    ensures Split(s, sep)[1] == Split(s[Find(s, sep).value + |sep|..], sep)[0]
  {
  }

  /** An occurrence of `t` at `i` followed by a prefix `b` of the rest is an occurrence of `t + b`. */
  lemma FollowedBy(s: string, t: string, i: nat, b: string)
    requires OccursAt(s, t, i)
    requires |b| <= |s[i + |t|..]| && s[i + |t|..][..|b|] == b
    requires b == s[i + |t|..] || OccursAt(s[i + |t|..], t, |b|)
    ensures OccursAt(s, t + b, i)
    ensures EndsOrOccurs(s, t, i + |t| + |b|)
  {
    var rest := s[i + |t|..];
    assert s[i..i + |t| + |b|] == s[i..i + |t|] + rest[..|b|];
    if b != rest {
      OccursInSuffix(s, t, i + |t|, |b|);
    }
  }

  /** Replacing with a string whose characters avoid the pattern leaves no occurrence of the pattern. */
  lemma {:induction false} ReplaceRemovesPattern(s: string, pattern: string, replacement: string)
    requires pattern != [] && replacement != []
    requires forall c :: c in replacement ==> c !in pattern
    ensures !Contains(Replace(s, pattern, replacement), pattern)
    decreases |s|
  {
    match Find(s, pattern)
    case None =>
    case Some(i) =>
      var rest := s[i + |pattern|..];
      ReplaceRemovesPattern(rest, pattern, replacement);
      BeforeFirstIsFree(s, pattern, i);
      JoinedStaysFree(s[..i], replacement, Replace(rest, pattern, replacement), pattern);
  }

  /** Splitting a string with no separator in it gives the string itself. */
  lemma SplitNoSeparator(a: string, sep: string)
    requires sep != [] && !Contains(a, sep)
    ensures Split(a, sep) == [a]
  {
  }

  /** Splitting `a + sep + b` on a one-character separator absent from `a` gives `a`, then the pieces of `b`. */
  lemma SplitAfterFirst(a: string, b: string, sep: string)
    requires |sep| == 1 && sep[0] !in a
    ensures Split(a + sep + b, sep) == [a] + Split(b, sep)
  {
    var x := a + sep + b;
    assert x[..|a|] == a;
    forall j: nat | j < |a| ensures !OccursAt(x, sep, j) {
      assert x[j..j + 1][0] == x[j] == a[j];
    }
    assert OccursAt(x, sep, |a|) by { assert x[|a|..|a| + 1] == sep; }
    FindIsFirst(x, sep, |a|);
    assert x[|a| + 1..] == b;
  }

  /** Splitting a string on a one-character separator it lacks gives the string itself. */
  lemma SplitLacksChar(a: string, sep: string)
    requires |sep| == 1 && sep[0] !in a
    ensures Split(a, sep) == [a]
  {
    assert sep == [sep[0]];
    ContainsChar(a, sep[0]);
    SplitNoSeparator(a, sep);
  }
}
