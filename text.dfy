/**
 * The Python string operations that the reply formatter and the document
 * processor rely on, over Dafny strings. Dafny's `char` is a Unicode scalar
 * value; an element of a Python `str` is a code point, which may also be a
 * lone surrogate. For strings without lone surrogates lengths and slices
 * agree; strings holding one are outside the model.
 */
module Text {

  /** Python's `str.isspace` for one character. */
  predicate IsSpace(c: char) {
    var n := c as int;
    9 <= n <= 13 || 0x1c <= n <= 0x20 || n == 0x85 || n == 0xa0 || n == 0x1680
    || 0x2000 <= n <= 0x200a || n == 0x2028 || n == 0x2029 || n == 0x202f
    || n == 0x205f || n == 0x3000
  }

  /** No character of `s` belongs to `cs`. */
  predicate Avoids(s: string, cs: set<char>) {
    forall i :: 0 <= i < |s| ==> s[i] !in cs
  }

  /** `pat` occurs in `s` at index `i`. */
  predicate OccursAt(s: string, pat: string, i: int) {
    0 <= i && i + |pat| <= |s| && s[i..i + |pat|] == pat
  }

  /** Python's `pat in s`. */
  predicate Contains(s: string, pat: string)
    decreases |s|
  {
    |pat| <= |s| && (s[..|pat|] == pat || (|s| > 0 && Contains(s[1..], pat)))
  }

  lemma {:induction false} ContainsIff(s: string, pat: string)
    ensures Contains(s, pat) <==> exists i :: OccursAt(s, pat, i)
    decreases |s|
  {
    if |pat| <= |s| {
      if s[..|pat|] == pat {
        assert OccursAt(s, pat, 0);
      } else if |s| > 0 {
        ContainsIff(s[1..], pat);
        if Contains(s[1..], pat) {
          var i :| OccursAt(s[1..], pat, i);
          assert s[1..][i..i + |pat|] == s[i + 1..i + 1 + |pat|];
          assert OccursAt(s, pat, i + 1);
        }
        if exists i :: OccursAt(s, pat, i) {
          var i :| OccursAt(s, pat, i);
          assert i != 0;
          assert s[1..][i - 1..i - 1 + |pat|] == s[i..i + |pat|];
          assert OccursAt(s[1..], pat, i - 1);
        }
      }
    }
  }

  /** A slice of a string free of `pat` is free of `pat`. */
  lemma SliceKeepsAbsence(s: string, pat: string, lo: int, hi: int)
    requires 0 <= lo <= hi <= |s|
    requires !Contains(s, pat)
    ensures !Contains(s[lo..hi], pat)
  {
    ContainsIff(s[lo..hi], pat);
    if Contains(s[lo..hi], pat) {
      var i :| OccursAt(s[lo..hi], pat, i);
      OccursInSlice(s, pat, lo, hi, i);
      ContainsIff(s, pat);
    }
  }

  lemma OccursInSlice(s: string, pat: string, lo: int, hi: int, i: int)
    requires 0 <= lo <= hi <= |s|
    requires OccursAt(s[lo..hi], pat, i)
    ensures OccursAt(s, pat, lo + i)
  {
    var w := s[lo..hi];
    assert forall k :: 0 <= k < |pat| ==> s[lo + i + k] == w[i + k] == pat[k];
    assert s[lo + i..lo + i + |pat|] == pat;
  }

  /** A string free of `p` is free of every longer pattern `p + q`. */
  lemma AbsenceExtends(s: string, p: string, q: string)
    requires !Contains(s, p)
    ensures !Contains(s, p + q)
  {
    ContainsIff(s, p);
    ContainsIff(s, p + q);
  }

  /** An occurrence of a doubled character in `a + b` lies in `a`, in `b`, or across the seam. */
  lemma PairInConcat(a: string, b: string, c: char)
    requires Contains(a + b, [c, c])
    ensures Contains(a, [c, c]) || Contains(b, [c, c])
         || (a != [] && b != [] && a[|a| - 1] == c && b[0] == c)
  {
    var pat := [c, c];
    ContainsIff(a + b, pat);
    var i :| OccursAt(a + b, pat, i);
    assert (a + b)[i] == c && (a + b)[i + 1] == c;
    if i + 2 <= |a| {
      assert a[i..i + 2] == pat;
      assert OccursAt(a, pat, i);
      ContainsIff(a, pat);
    } else if i >= |a| {
      assert b[i - |a|..i - |a| + 2] == pat;
      assert OccursAt(b, pat, i - |a|);
      ContainsIff(b, pat);
    }
  }

  /** A string with no character `c` holds no doubled `c`. */
  lemma NoPairWithout(s: string, c: char)
    requires c !in s
    ensures !Contains(s, [c, c])
  {
    forall i | 0 <= i < |s| - 1
      ensures !OccursAt(s, [c, c], i)
    {
      assert s[i..i + 2][0] == s[i];
    }
    ContainsIff(s, [c, c]);
  }

  /**
   * Python's `s.replace(pat, rep)` for a non-empty `pat`: every leftmost,
   * non-overlapping occurrence of `pat`, scanning left to right, becomes `rep`.
   */
  function ReplaceAll(s: string, pat: string, rep: string): string
    requires pat != []
    decreases |s|
  {
    if |s| < |pat| then s
    else if s[..|pat|] == pat then rep + ReplaceAll(s[|pat|..], pat, rep)
    else [s[0]] + ReplaceAll(s[1..], pat, rep)
  }

  /** Replacing a pattern by itself changes nothing. */
  lemma {:induction false} ReplaceAllSelf(s: string, pat: string)
    requires pat != []
    ensures ReplaceAll(s, pat, pat) == s
    decreases |s|
  {
    if |s| >= |pat| {
      if s[..|pat|] == pat {
        ReplaceAllSelf(s[|pat|..], pat);
        assert s == s[..|pat|] + s[|pat|..];
      } else {
        ReplaceAllSelf(s[1..], pat);
        assert s == [s[0]] + s[1..];
      }
    }
  }

  /** A shorter replacement never lengthens; with an occurrence it strictly shortens. */
  lemma {:induction false} ReplaceAllShrinks(s: string, pat: string, rep: string)
    requires pat != [] && |rep| < |pat|
    ensures |ReplaceAll(s, pat, rep)| <= |s|
    ensures Contains(s, pat) ==> |ReplaceAll(s, pat, rep)| < |s|
    decreases |s|
  {
    if |s| >= |pat| {
      if s[..|pat|] == pat {
        ReplaceAllShrinks(s[|pat|..], pat, rep);
      } else {
        ReplaceAllShrinks(s[1..], pat, rep);
      }
    }
  }

  /** Characters outside `pat` and `rep` are neither created nor destroyed. */
  lemma {:induction false} ReplaceAllKeepsCount(s: string, pat: string, rep: string, c: char)
    requires pat != [] && c !in pat && c !in rep
    ensures multiset(ReplaceAll(s, pat, rep))[c] == multiset(s)[c]
    decreases |s|
  {
    if |s| >= |pat| {
      if s[..|pat|] == pat {
        ReplaceAllKeepsCount(s[|pat|..], pat, rep, c);
        assert s == s[..|pat|] + s[|pat|..];
        assert multiset(s) == multiset(pat) + multiset(s[|pat|..]);
      } else {
        ReplaceAllKeepsCount(s[1..], pat, rep, c);
        assert s == [s[0]] + s[1..];
      }
    }
  }

  /** Replacing never brings in a character that neither `s` nor `rep` holds. */
  lemma {:induction false} ReplaceAllAvoids(s: string, pat: string, rep: string, cs: set<char>)
    requires pat != [] && Avoids(s, cs) && Avoids(rep, cs)
    ensures Avoids(ReplaceAll(s, pat, rep), cs)
    decreases |s|
  {
    if |s| >= |pat| {
      if s[..|pat|] == pat {
        ReplaceAllAvoids(s[|pat|..], pat, rep, cs);
      } else {
        ReplaceAllAvoids(s[1..], pat, rep, cs);
      }
    }
  }

  /** Deleting every `c` leaves no `c`, and nothing new. */
  lemma {:induction false} DeleteCharAvoids(s: string, c: char, cs: set<char>)
    requires Avoids(s, cs)
    ensures Avoids(ReplaceAll(s, [c], []), cs + {c})
    decreases |s|
  {
    if |s| >= 1 {
      DeleteCharAvoids(s[1..], c, cs);
      if s[..1] != [c] {
        assert s[0] != c;
      }
    }
  }

  /** Replacing a pattern that does not occur changes nothing. */
  lemma {:induction false} ReplaceAllAbsent(s: string, pat: string, rep: string)
    requires pat != [] && !Contains(s, pat)
    ensures ReplaceAll(s, pat, rep) == s
    decreases |s|
  {
    if |s| >= |pat| {
      ReplaceAllAbsent(s[1..], pat, rep);
      assert s == [s[0]] + s[1..];
    }
  }

  /** A string that avoids the first character of `pat` does not contain `pat`. */
  lemma AvoidsHeadNoOccurrence(s: string, pat: string)
    requires pat != [] && Avoids(s, {pat[0]})
    ensures !Contains(s, pat)
  {
    forall i | 0 <= i && i + |pat| <= |s| ensures !OccursAt(s, pat, i) {
      assert s[i..i + |pat|][0] == s[i];
    }
    ContainsIff(s, pat);
  }

  /** The first character of a replacement's result comes from `s` or from `rep`. */
  lemma ReplaceAllHead(s: string, pat: string, rep: string)
    requires pat != [] && rep != [] && s != []
    ensures ReplaceAll(s, pat, rep) != []
    ensures ReplaceAll(s, pat, rep)[0] == s[0] || ReplaceAll(s, pat, rep)[0] == rep[0]
  {
  }

  /**
   * Replacing with a non-empty `rep` free of `c` never creates a doubled `c`:
   * the replacement of a newline run cannot join two spaces.
   */
  lemma {:induction false} ReplaceAllNoPair(s: string, pat: string, rep: string, c: char)
    requires pat != [] && rep != [] && c !in rep
    requires !Contains(s, [c, c])
    ensures !Contains(ReplaceAll(s, pat, rep), [c, c])
    decreases |s|
  {
    if |s| >= |pat| {
      var r := ReplaceAll(s, pat, rep);
      if s[..|pat|] == pat {
        var rest := s[|pat|..];
        SliceKeepsAbsence(s, [c, c], |pat|, |s|);
        assert s[|pat|..|s|] == rest;
        ReplaceAllNoPair(rest, pat, rep, c);
        NoPairWithout(rep, c);
        if Contains(r, [c, c]) {
          PairInConcat(rep, ReplaceAll(rest, pat, rep), c);
        }
      } else {
        var rest := s[1..];
        SliceKeepsAbsence(s, [c, c], 1, |s|);
        assert s[1..|s|] == rest;
        ReplaceAllNoPair(rest, pat, rep, c);
        if Contains(r, [c, c]) {
          PairInConcat([s[0]], ReplaceAll(rest, pat, rep), c);
          ReplaceAllHead(rest, pat, rep);
        }
      }
    }
  }

  /** The result of `while pat in s: s = s.replace(pat, rep)`. */
  function CollapseRuns(s: string, pat: string, rep: string): (r: string)
    requires |rep| < |pat|
    ensures !Contains(r, pat)
    decreases |s|
  {
    if Contains(s, pat) then
      ReplaceAllShrinks(s, pat, rep);
      CollapseRuns(ReplaceAll(s, pat, rep), pat, rep)
    else s
  }

  /** The loop `while pat in s: s = s.replace(pat, rep)`. */
  method Collapse(s: string, pat: string, rep: string) returns (r: string)
    requires |rep| < |pat|
    ensures r == CollapseRuns(s, pat, rep)
    ensures !Contains(r, pat)
  {
    r := s;
    while Contains(r, pat)
      invariant CollapseRuns(r, pat, rep) == CollapseRuns(s, pat, rep)
      decreases |r|
    {
      ReplaceAllShrinks(r, pat, rep);
      r := ReplaceAll(r, pat, rep);
    }
  }

  lemma {:induction false} CollapseRunsAvoids(s: string, pat: string, rep: string, cs: set<char>)
    requires |rep| < |pat| && Avoids(s, cs) && Avoids(rep, cs)
    ensures Avoids(CollapseRuns(s, pat, rep), cs)
    decreases |s|
  {
    if Contains(s, pat) {
      ReplaceAllShrinks(s, pat, rep);
      ReplaceAllAvoids(s, pat, rep, cs);
      CollapseRunsAvoids(ReplaceAll(s, pat, rep), pat, rep, cs);
    }
  }

  lemma {:induction false} CollapseRunsKeepsCount(s: string, pat: string, rep: string, c: char)
    requires |rep| < |pat| && c !in pat && c !in rep
    ensures multiset(CollapseRuns(s, pat, rep))[c] == multiset(s)[c]
    decreases |s|
  {
    if Contains(s, pat) {
      ReplaceAllShrinks(s, pat, rep);
      ReplaceAllKeepsCount(s, pat, rep, c);
      CollapseRunsKeepsCount(ReplaceAll(s, pat, rep), pat, rep, c);
    }
  }

  lemma {:induction false} CollapseRunsNoPair(s: string, pat: string, rep: string, c: char)
    requires |rep| < |pat| && rep != [] && c !in rep
    requires !Contains(s, [c, c])
    ensures !Contains(CollapseRuns(s, pat, rep), [c, c])
    decreases |s|
  {
    if Contains(s, pat) {
      ReplaceAllShrinks(s, pat, rep);
      ReplaceAllNoPair(s, pat, rep, c);
      CollapseRunsNoPair(ReplaceAll(s, pat, rep), pat, rep, c);
    }
  }

  /** The number of whitespace characters `s` starts with. */
  function LeadingSpace(s: string): (n: nat)
    ensures n <= |s|
    ensures forall k :: 0 <= k < n ==> IsSpace(s[k])
    ensures n < |s| ==> !IsSpace(s[n])
    decreases |s|
  {
    if s != [] && IsSpace(s[0]) then 1 + LeadingSpace(s[1..]) else 0
  }

  /** The number of whitespace characters `s` ends with. */
  function TrailingSpace(s: string): (n: nat)
    ensures n <= |s|
    ensures forall k :: |s| - n <= k < |s| ==> IsSpace(s[k])
    ensures n < |s| ==> !IsSpace(s[|s| - n - 1])
    decreases |s|
  {
    if s != [] && IsSpace(s[|s| - 1]) then 1 + TrailingSpace(s[..|s| - 1]) else 0
  }

  /** No whitespace at either end. */
  predicate Trimmed(s: string) {
    s != [] ==> !IsSpace(s[0]) && !IsSpace(s[|s| - 1])
  }

  /**
   * Python's `s.strip()`: the slice of `s` that starts after its leading
   * whitespace, with only whitespace cut on either side, and no whitespace
   * at either end; empty exactly when `s` is all whitespace.
   */
  function Strip(s: string): (r: string)
    ensures var i := LeadingSpace(s);
      && i + |r| <= |s| && r == s[i..i + |r|]
      && (forall k :: 0 <= k < i ==> IsSpace(s[k]))
      && (forall k :: i + |r| <= k < |s| ==> IsSpace(s[k]))
    ensures Trimmed(r)
    ensures r == [] <==> forall k :: 0 <= k < |s| ==> IsSpace(s[k])
  {
    var i := LeadingSpace(s);
    if i == |s| then [] else s[i..|s| - TrailingSpace(s)]
  }

  /** Stripping again changes nothing. */
  lemma StripIdempotent(s: string)
    ensures Strip(Strip(s)) == Strip(s)
  {
    StripTrimmed(Strip(s));
  }

  /** A string with no whitespace at either end is its own strip. */
  lemma StripTrimmed(s: string)
    requires Trimmed(s)
    ensures Strip(s) == s
  {
    if s != [] {
      assert LeadingSpace(s) == 0;
      assert TrailingSpace(s) == 0;
    }
  }

  /** Stripping keeps a slice of the input, so it keeps what the input avoids. */
  lemma StripAvoids(s: string, cs: set<char>)
    requires Avoids(s, cs)
    ensures Avoids(Strip(s), cs)
  {
  }

  /** Stripping keeps the absence of a pattern. */
  lemma StripKeepsAbsence(s: string, pat: string)
    requires !Contains(s, pat)
    ensures !Contains(Strip(s), pat)
  {
    var i := LeadingSpace(s);
    SliceKeepsAbsence(s, pat, i, i + |Strip(s)|);
  }

  /** Stripping removes only whitespace, so it keeps every other character. */
  lemma StripKeepsCount(s: string, c: char)
    requires !IsSpace(c)
    ensures multiset(Strip(s))[c] == multiset(s)[c]
  {
    var r := Strip(s);
    var i := LeadingSpace(s);
    var pre, post := s[..i], s[i + |r|..];
    assert forall k :: 0 <= k < |pre| ==> pre[k] != c;
    assert forall k :: 0 <= k < |post| ==> post[k] != c;
    assert s == pre + r + post;
    assert multiset(s) == multiset(pre) + multiset(r) + multiset(post);
    assert multiset(pre)[c] == 0 && multiset(post)[c] == 0;
  }

  /** Python's `s.split(sep)` for a one-character separator. */
  function Split(s: string, sep: char): (parts: seq<string>)
    ensures |parts| >= 1
    ensures forall k :: 0 <= k < |parts| ==> sep !in parts[k]
    decreases |s|
  {
    if s == [] then [[]]
    else if s[0] == sep then [[]] + Split(s[1..], sep)
    else
      var rest := Split(s[1..], sep);
      [[s[0]] + rest[0]] + rest[1..]
  }

  /** Python's `sep.join(parts)` for a one-character separator. */
  function Join(parts: seq<string>, sep: char): string
    decreases |parts|
  {
    if parts == [] then []
    else if |parts| == 1 then parts[0]
    else parts[0] + [sep] + Join(parts[1..], sep)
  }

  /** Joining the pieces of a split gives back the string. */
  lemma {:induction false} JoinSplit(s: string, sep: char)
    ensures Join(Split(s, sep), sep) == s
    decreases |s|
  {
    if s != [] {
      JoinSplit(s[1..], sep);
      var rest := Split(s[1..], sep);
      if s[0] == sep {
        assert Split(s, sep)[1..] == rest;
      } else if |rest| == 1 {
        assert Join(rest, sep) == rest[0];
      } else {
        var parts := Split(s, sep);
        assert parts[1..] == rest[1..];
        assert Join(rest, sep) == rest[0] + [sep] + Join(rest[1..], sep);
      }
    }
  }

  lemma {:induction false} SplitPiece(a: string, sep: char)
    requires sep !in a
    ensures Split(a, sep) == [a]
    decreases |a|
  {
    if a != [] {
      SplitPiece(a[1..], sep);
      assert [a[0]] + a[1..] == a;
    }
  }

  lemma {:induction false} SplitPieceThen(a: string, b: string, sep: char)
    requires sep !in a
    ensures Split(a + [sep] + b, sep) == [a] + Split(b, sep)
    decreases |a|
  {
    if a == [] {
      assert a + [sep] + b == [sep] + b;
      assert ([sep] + b)[1..] == b;
    } else {
      assert (a + [sep] + b)[1..] == a[1..] + [sep] + b;
      SplitPieceThen(a[1..], b, sep);
      assert [a[0]] + a[1..] == a;
    }
  }

  /** Splitting a join of separator-free pieces gives back the pieces. */
  lemma {:induction false} SplitJoin(parts: seq<string>, sep: char)
    requires |parts| >= 1
    requires forall k :: 0 <= k < |parts| ==> sep !in parts[k]
    ensures Split(Join(parts, sep), sep) == parts
    decreases |parts|
  {
    if |parts| == 1 {
      SplitPiece(parts[0], sep);
    } else {
      SplitJoin(parts[1..], sep);
      SplitPieceThen(parts[0], Join(parts[1..], sep), sep);
      assert [parts[0]] + parts[1..] == parts;
    }
  }

  /** The first character of a join is that of its first (non-empty) piece. */
  lemma JoinHead(parts: seq<string>, sep: char)
    requires |parts| >= 1 && parts[0] != []
    ensures Join(parts, sep) != [] && Join(parts, sep)[0] == parts[0][0]
  {
  }

  /**
   * Joining non-empty, separator-free pieces never puts two separators side
   * by side: the join has no empty line.
   */
  lemma {:induction false} JoinNoEmptyPiece(parts: seq<string>, sep: char)
    requires forall k :: 0 <= k < |parts| ==> parts[k] != [] && sep !in parts[k]
    ensures !Contains(Join(parts, sep), [sep, sep])
    decreases |parts|
  {
    if |parts| == 1 {
      NoPairWithout(parts[0], sep);
    } else if |parts| > 1 {
      var j := Join(parts[1..], sep);
      JoinNoEmptyPiece(parts[1..], sep);
      JoinHead(parts[1..], sep);
      NoPairWithout(parts[0], sep);
      assert Join(parts, sep) == parts[0] + ([sep] + j);
      if Contains(Join(parts, sep), [sep, sep]) {
        PairInConcat(parts[0], [sep] + j, sep);
        if Contains([sep] + j, [sep, sep]) {
          PairInConcat([sep], j, sep);
        }
      }
    }
  }
}
