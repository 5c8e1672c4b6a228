/** The string primitives the field cleaners rely on: Python's `str.lower`,
    `str.replace` and `str.strip`, restricted to ASCII. */
module Text {

  /** The ASCII characters for which Python's `str.isspace` holds:
      tab, line feed, vertical tab, form feed, carriage return,
      the four information separators and the space. */
  predicate IsSpace(c: char) {
    c == ' ' || 9 <= c as int <= 13 || 28 <= c as int <= 31
  }

  predicate IsUpper(c: char) {
    'A' <= c <= 'Z'
  }

  /** No leading and no trailing whitespace. */
  predicate Stripped(s: string) {
    s == [] || (!IsSpace(s[0]) && !IsSpace(s[|s| - 1]))
  }

  predicate NoUpper(s: string) {
    forall i :: 0 <= i < |s| ==> !IsUpper(s[i])
  }

  function LowerChar(c: char): (d: char)
    ensures !IsUpper(d)
    ensures !IsUpper(c) ==> d == c
    ensures IsUpper(c) ==> d as int == c as int + ('a' as int - 'A' as int)
    ensures IsSpace(d) <==> IsSpace(c)
  {
    if IsUpper(c) then (c as int + 32) as char else c
  }

  /** `s.lower()` over ASCII. */
  function Lower(s: string): (r: string)
    ensures |r| == |s|
    ensures NoUpper(r)
    ensures forall i :: 0 <= i < |s| && !IsUpper(s[i]) ==> r[i] == s[i]
    ensures forall i :: 0 <= i < |s| && IsUpper(s[i]) ==>
      r[i] as int == s[i] as int + ('a' as int - 'A' as int)
  {
    seq(|s|, i requires 0 <= i < |s| => LowerChar(s[i]))
  }

  lemma LowerAppend(a: string, b: string)
    ensures Lower(a + b) == Lower(a) + Lower(b)
  {
  }

  /** Lower-casing a string without upper-case letters changes nothing. */
  lemma LowerNoUpper(s: string)
    requires NoUpper(s)
    ensures Lower(s) == s
  {
  }

  /** `s.replace(pat, rep)`: scan left to right, replace every non-overlapping
      occurrence of `pat` by `rep`; an empty `pat` inserts `rep` before every
      character and at the end. */
  function Replace(s: string, pat: string, rep: string): (r: string)
    ensures forall c :: c in r ==> c in s || c in rep
    ensures |rep| <= |pat| ==> |r| <= |s|
    ensures |rep| == |pat| ==> |r| == |s|
    decreases |s|
  {
    if pat == [] then
      rep + (if s == [] then [] else [s[0]] + Replace(s[1..], pat, rep))
    else if |s| < |pat| then s
    else if s[..|pat|] == pat then rep + Replace(s[|pat|..], pat, rep)
    else [s[0]] + Replace(s[1..], pat, rep)
  }

  /** The first index from `i` on that does not hold whitespace (or `|s|`). */
  function SpanStart(s: string, i: nat): (n: nat)
    requires i <= |s|
    ensures i <= n <= |s|
    ensures forall k :: i <= k < n ==> IsSpace(s[k])
    ensures n < |s| ==> !IsSpace(s[n])
    decreases |s| - i
  {
    if i < |s| && IsSpace(s[i]) then SpanStart(s, i + 1) else i
  }

  /** The end of `s[i..j]` once its trailing whitespace is dropped. */
  function SpanEnd(s: string, i: nat, j: nat): (m: nat)
    requires i <= j <= |s|
    ensures i <= m <= j
    ensures forall k :: m <= k < j ==> IsSpace(s[k])
    ensures m > i ==> !IsSpace(s[m - 1])
    decreases j
  {
    if j > i && IsSpace(s[j - 1]) then SpanEnd(s, i, j - 1) else j
  }

  /** Everything of `s` before index `i` and from index `j` on is whitespace. */
  predicate SpaceOutside(s: string, i: nat, j: nat)
    requires i <= j <= |s|
  {
    && (forall k :: 0 <= k < i ==> IsSpace(s[k]))
    && (forall k :: j <= k < |s| ==> IsSpace(s[k]))
  }

  /** `s.strip()` over ASCII: the result is the slice `s[i..j]` with only
      whitespace outside it, and it neither starts nor ends with whitespace. */
  function Strip(s: string): (r: string)
    ensures Stripped(r)
    ensures exists i: nat, j: nat :: i <= j <= |s| && r == s[i..j] && SpaceOutside(s, i, j)
    ensures |r| <= |s|
    ensures forall c :: c in r ==> c in s
  {
    var i := SpanStart(s, 0);
    var j := SpanEnd(s, i, |s|);
    var r := s[i..j];
    assert SpaceOutside(s, i, j);
    assert r != [] ==> r[0] == s[i] && r[|r| - 1] == s[j - 1];
    StripKeepsCharacters(s, i, r);
    r
  }

  lemma StripKeepsCharacters(s: string, i: nat, r: string)
    requires i + |r| <= |s| && r == s[i..i + |r|]
    ensures forall c :: c in r ==> c in s
  {
    forall c | c in r ensures c in s {
      var m :| 0 <= m < |r| && r[m] == c;
      assert s[i + m] == c;
    }
  }

  /** A string that is a non-empty stripped core `s[i..j]` with only
      whitespace around it strips to that core. */
  lemma StripAround(s: string, i: nat, j: nat)
    requires i < j <= |s|
    requires SpaceOutside(s, i, j)
    requires !IsSpace(s[i]) && !IsSpace(s[j - 1])
    ensures Strip(s) == s[i..j]
  {
    var n := SpanStart(s, 0);
    assert n == i;
    var m := SpanEnd(s, i, |s|);
    assert m == j;
  }

  /** Stripping an already stripped string changes nothing, so `strip` is
      idempotent. */
  lemma StripFixesStripped(s: string)
    requires Stripped(s)
    ensures Strip(s) == s
  {
    if s != [] {
      StripAround(s, 0, |s|);
      assert s[0..|s|] == s;
    }
  }

  lemma StripIdempotent(s: string)
    ensures Strip(Strip(s)) == Strip(s)
  {
    StripFixesStripped(Strip(s));
  }

  /** Replacing one character by another maps the string pointwise. */
  lemma {:induction false} ReplaceCharPointwise(s: string, a: char, b: char)
    ensures |Replace(s, [a], [b])| == |s|
    ensures forall k :: 0 <= k < |s| ==>
      Replace(s, [a], [b])[k] == (if s[k] == a then b else s[k])
    decreases |s|
  {
    if s != [] {
      ReplaceCharPointwise(s[1..], a, b);
      assert s[..1] == [s[0]];
      var r := Replace(s, [a], [b]);
      var tail := Replace(s[1..], [a], [b]);
      assert r == (if s[0] == a then [b] else [s[0]]) + tail;
      forall k | 0 <= k < |s|
        ensures r[k] == (if s[k] == a then b else s[k])
      {
        if k > 0 {
          assert r[k] == tail[k - 1] && s[k] == s[1..][k - 1];
        }
      }
    }
  }

  /** Replacing `a` by a different character leaves no `a` behind. */
  lemma ReplaceCharRemoves(s: string, a: char, b: char)
    requires a != b
    ensures a !in Replace(s, [a], [b])
  {
    ReplaceCharPointwise(s, a, b);
    var r := Replace(s, [a], [b]);
    assert forall k :: 0 <= k < |r| ==> r[k] != a;
  }

  /** Replacing a character that does not occur changes nothing. */
  lemma ReplaceCharAbsent(s: string, a: char, b: char)
    requires a !in s
    ensures Replace(s, [a], [b]) == s
  {
    ReplaceCharPointwise(s, a, b);
  }

  /** A pattern with a character that does not occur in `s` is never found,
      so replacing it changes nothing. */
  lemma {:induction false} ReplaceAbsentPattern(s: string, pat: string, rep: string, c: char)
    requires c in pat && c !in s
    ensures Replace(s, pat, rep) == s
    decreases |s|
  {
    if |s| >= |pat| {
      assert s == [s[0]] + s[1..];
      ReplaceAbsentPattern(s[1..], pat, rep, c);
    }
  }

  /** An occurrence of the pattern at the front is replaced, and the scan
      resumes after it. */
  lemma ReplaceLeading(pat: string, t: string, rep: string)
    requires pat != []
    ensures Replace(pat + t, pat, rep) == rep + Replace(t, pat, rep)
  {
    assert (pat + t)[..|pat|] == pat;
    assert (pat + t)[|pat|..] == t;
  }

  /** `Replace` at a position where the pattern does not start. */
  lemma ReplaceNoMatchStep(s: string, pat: string, rep: string)
    requires pat != [] && |pat| <= |s| && s[..|pat|] != pat
    ensures Replace(s, pat, rep) == [s[0]] + Replace(s[1..], pat, rep)
  {
  }

  /** `Replace` at a position where the pattern starts. */
  lemma ReplaceMatchStep(s: string, pat: string, rep: string)
    requires pat != [] && |pat| <= |s| && s[..|pat|] == pat
    ensures Replace(s, pat, rep) == rep + Replace(s[|pat|..], pat, rep)
  {
  }

  lemma ReplaceEmpty(pat: string, rep: string)
    requires pat != []
    ensures Replace([], pat, rep) == []
  {
  }

  /** The pattern alone is replaced once. */
  lemma ReplaceOnlyPattern(pat: string, rep: string)
    requires pat != []
    ensures Replace(pat, pat, rep) == rep
  {
    assert pat == pat + [];
    ReplaceLeading(pat, [], rep);
    ReplaceEmpty(pat, rep);
  }

  /** A character that cannot start the pattern, followed by the pattern:
      only that one occurrence is found. */
  lemma ReplaceAfterChar(c: char, pat: string, rep: string)
    requires pat != [] && c != pat[0]
    ensures Replace([c] + pat, pat, rep) == [c] + rep
  {
    var s := [c] + pat;
    assert s[..|pat|][0] == c;
    ReplaceNoMatchStep(s, pat, rep);
    assert s[1..] == pat;
    ReplaceOnlyPattern(pat, rep);
  }

  /** `pat` starts at position `k` of `s`. */
  predicate OccursAt(s: string, pat: string, k: nat)
  {
    k + |pat| <= |s| && s[k..k + |pat|] == pat
  }

  lemma OccursFront(s: string, pat: string)
    ensures OccursAt(s, pat, 0) <==> |pat| <= |s| && s[..|pat|] == pat
  {
    if |pat| <= |s| {
      assert s[0..|pat|] == s[..|pat|];
    }
  }

  lemma OccursShift(s: string, pat: string, k: nat)
    requires s != []
    ensures OccursAt(s[1..], pat, k) <==> OccursAt(s, pat, k + 1)
  {
    if k + |pat| < |s| {
      assert s[1..][k..k + |pat|] == s[k + 1..k + 1 + |pat|];
    }
  }

  /** A pattern that starts at no position of `s` is never replaced. */
  lemma {:induction false} ReplaceNoOccurrence(s: string, pat: string, rep: string)
    requires pat != []
    requires forall k: nat :: !OccursAt(s, pat, k)
    ensures Replace(s, pat, rep) == s
    decreases |s|
  {
    if |pat| <= |s| {
      OccursFront(s, pat);
      ReplaceNoMatchStep(s, pat, rep);
      forall k: nat ensures !OccursAt(s[1..], pat, k) {
        OccursShift(s, pat, k);
      }
      ReplaceNoOccurrence(s[1..], pat, rep);
      assert [s[0]] + s[1..] == s;
    }
  }

  /** The leftmost occurrence is the one replaced: when the pattern starts at
      `i` and at no earlier position, everything before `i` is kept, the
      occurrence becomes `rep`, and the scan resumes after it. */
  lemma ReplaceFirstOccurrence(s: string, pat: string, rep: string, i: nat)
    requires pat != [] && OccursAt(s, pat, i)
    requires forall k: nat :: k < i ==> !OccursAt(s, pat, k)
    ensures Replace(s, pat, rep) == s[..i] + rep + Replace(s[i + |pat|..], pat, rep)
  {
    ReplacedAtFirst(s, pat, rep, i);
  }

  /** `Replace(s, pat, rep)` splits around the occurrence of `pat` at `i`. */
  predicate ReplacedAt(s: string, pat: string, rep: string, i: nat)
  {
    i + |pat| <= |s| && Replace(s, pat, rep) == s[..i] + rep + Replace(s[i + |pat|..], pat, rep)
  }

  lemma {:induction false} ReplacedAtFirst(s: string, pat: string, rep: string, i: nat)
    requires pat != [] && OccursAt(s, pat, i)
    requires forall k: nat :: k < i ==> !OccursAt(s, pat, k)
    ensures ReplacedAt(s, pat, rep, i)
    decreases i
  {
    if i == 0 {
      ReplaceAtOccurrence(s, pat, rep);
    } else {
      OccursShift(s, pat, i - 1);
      forall k: nat | k < i - 1 ensures !OccursAt(s[1..], pat, k) {
        OccursShift(s, pat, k);
      }
      assert !OccursAt(s, pat, 0);
      ReplacedAtFirst(s[1..], pat, rep, i - 1);
      ReplaceBeforeOccurrence(s, pat, rep, i);
    }
  }

  /** The case of `ReplacedAtFirst` where the pattern starts at the front. */
  lemma ReplaceAtOccurrence(s: string, pat: string, rep: string)
    requires pat != [] && OccursAt(s, pat, 0)
    ensures ReplacedAt(s, pat, rep, 0)
  {
    assert Replace(s, pat, rep) == rep + Replace(s[|pat|..], pat, rep) by {
      OccursFront(s, pat);
      ReplaceMatchStep(s, pat, rep);
    }
    EmptyPrefix(s, rep, Replace(s[|pat|..], pat, rep));
  }

  /** The step of `ReplacedAtFirst` past a first character that starts no
      occurrence. */
  lemma ReplaceBeforeOccurrence(s: string, pat: string, rep: string, i: nat)
    requires pat != [] && 0 < i && OccursAt(s, pat, i) && !OccursAt(s, pat, 0)
    requires ReplacedAt(s[1..], pat, rep, i - 1)
    ensures ReplacedAt(s, pat, rep, i)
  {
    var t := s[1..];
    assert Replace(s, pat, rep) == [s[0]] + Replace(t, pat, rep) by {
      OccursFront(s, pat);
      ReplaceNoMatchStep(s, pat, rep);
    }
    var tail := Replace(t[i - 1 + |pat|..], pat, rep);
    var head := Replace(t, pat, rep);
    assert head == t[..i - 1] + rep + tail;
    SliceAfterFirst(s, i, |pat|, rep, tail);
    assert t[i - 1 + |pat|..] == s[i + |pat|..];
    calc {
      Replace(s, pat, rep);
      [s[0]] + head;
      [s[0]] + (t[..i - 1] + rep + tail);
      s[..i] + rep + tail;
      s[..i] + rep + Replace(s[i + |pat|..], pat, rep);
    }
  }

  lemma EmptyPrefix(s: string, u: string, v: string)
    ensures s[..0] + u + v == u + v
  {
    assert s[..0] == [];
  }

  lemma SliceAfterFirst(s: string, i: nat, n: nat, u: string, v: string)
    requires 0 < i && i + n <= |s|
    ensures [s[0]] + (s[1..][..i - 1] + u + v) == s[..i] + u + v
    ensures s[1..][i - 1 + n..] == s[i + n..]
  {
  }
}
