/** Strings as the selector uses them: case-insensitive substring search
    for the special contact reason, and Python's code-point string order
    for sorting by assignment group. */
module Text {

  /** Lower-cases an ASCII capital letter and leaves every other character alone. */
  function Lower(c: char): char {
    if 'A' <= c <= 'Z' then (c as int + 32) as char else c
  }

  function LowerStr(s: string): (r: string)
    ensures |r| == |s|
    ensures forall i :: 0 <= i < |s| ==> r[i] == Lower(s[i])
  {
    seq(|s|, i requires 0 <= i < |s| => Lower(s[i]))
  }

  /** `needle` occurs in `hay` starting at position `i`. */
  predicate OccursAt(hay: string, needle: string, i: int) {
    0 <= i && i + |needle| <= |hay| && hay[i..i + |needle|] == needle
  }

  /** Scans `hay` left to right for an occurrence of `needle`. */
  predicate Contains(hay: string, needle: string)
    decreases |hay|
  {
    (|needle| <= |hay| && hay[..|needle|] == needle)
    || (|hay| > 0 && Contains(hay[1..], needle))
  }

  /** The scan finds `needle` exactly when it occurs at some position of `hay`. */
  lemma {:induction false} ContainsIff(hay: string, needle: string)
    ensures Contains(hay, needle) <==> exists i :: OccursAt(hay, needle, i)
    decreases |hay|
  {
    if |hay| > 0 {
      ContainsIff(hay[1..], needle);
      if |needle| <= |hay| && hay[..|needle|] == needle {
        assert OccursAt(hay, needle, 0);
      }
      if exists i :: OccursAt(hay[1..], needle, i) {
        var i :| OccursAt(hay[1..], needle, i);
        assert hay[i + 1..i + 1 + |needle|] == hay[1..][i..i + |needle|];
        assert OccursAt(hay, needle, i + 1);
      }
      if exists i :: OccursAt(hay, needle, i) {
        var i :| OccursAt(hay, needle, i);
        if i > 0 {
          assert hay[1..][i - 1..i - 1 + |needle|] == hay[i..i + |needle|];
          assert OccursAt(hay[1..], needle, i - 1);
        } else {
          assert hay[..|needle|] == hay[i..i + |needle|];
        }
      }
    } else if |needle| == 0 {
      assert hay[0..0] == needle;
      assert OccursAt(hay, needle, 0);
    }
  }

  /** Case-insensitive containment, as `str.contains(pattern, case=False)`
      for a pattern without regular-expression metacharacters. */
  predicate ContainsIgnoringCase(hay: string, needle: string) {
    Contains(LowerStr(hay), LowerStr(needle))
  }

  /** Lower-casing twice changes nothing more: no capital letter is left. */
  lemma LowerStrIdempotent(s: string)
    ensures LowerStr(LowerStr(s)) == LowerStr(s)
    ensures forall i :: 0 <= i < |s| ==> !('A' <= LowerStr(s)[i] <= 'Z')
  {
    var t := LowerStr(s);
    assert forall i :: 0 <= i < |t| ==> Lower(t[i]) == t[i];
  }

  /** `needle` matches `hay` at position `i` when the characters agree up to
      the case of ASCII letters. */
  predicate MatchesIgnoringCase(hay: string, needle: string, i: int) {
    0 <= i && i + |needle| <= |hay| &&
    forall k :: 0 <= k < |needle| ==> Lower(hay[i + k]) == Lower(needle[k])
  }

  /** The case-insensitive scan succeeds exactly when the needle matches,
      letter case aside, at some position. */
  lemma ContainsIgnoringCaseIff(hay: string, needle: string)
    ensures ContainsIgnoringCase(hay, needle) <==> exists i :: MatchesIgnoringCase(hay, needle, i)
  {
    var h, n := LowerStr(hay), LowerStr(needle);
    ContainsIff(h, n);
    forall i ensures OccursAt(h, n, i) <==> MatchesIgnoringCase(hay, needle, i) {
      if 0 <= i && i + |n| <= |h| {
        OccursAtPointwise(h, n, i);
      }
    }
  }

  lemma OccursAtPointwise(h: string, n: string, i: nat)
    requires i + |n| <= |h|
    ensures OccursAt(h, n, i) <==> forall k :: 0 <= k < |n| ==> h[i + k] == n[k]
  {
    if forall k :: 0 <= k < |n| ==> h[i + k] == n[k] {
      assert h[i..i + |n|] == n;
    }
  }

  /** Lower-casing either argument first does not change a case-insensitive
      match: only letter case is ignored, nothing else. */
  lemma ContainsIgnoringCaseLowered(hay: string, needle: string)
    ensures ContainsIgnoringCase(LowerStr(hay), needle) == ContainsIgnoringCase(hay, needle)
    ensures ContainsIgnoringCase(hay, LowerStr(needle)) == ContainsIgnoringCase(hay, needle)
  {
    LowerStrIdempotent(hay);
    LowerStrIdempotent(needle);
  }

  /** An exact occurrence is in particular a case-insensitive one. */
  lemma ExactMatchIgnoringCase(hay: string, needle: string, i: int)
    requires OccursAt(hay, needle, i)
    ensures ContainsIgnoringCase(hay, needle)
  {
    OccursAtPointwise(hay, needle, i);
    assert MatchesIgnoringCase(hay, needle, i);
    ContainsIgnoringCaseIff(hay, needle);
  }

  /** Strict lexicographic order on code points, as Python compares `str` values:
      a proper prefix sorts first. */
  predicate StrLt(a: string, b: string)
    decreases |a|
  {
    if |a| == 0 then |b| > 0
    else if |b| == 0 then false
    else a[0] < b[0] || (a[0] == b[0] && StrLt(a[1..], b[1..]))
  }

  lemma {:induction false} StrLtIrreflexive(a: string)
    ensures !StrLt(a, a)
    decreases |a|
  {
    if |a| > 0 {
      StrLtIrreflexive(a[1..]);
    }
  }

  lemma {:induction false} StrLtTransitive(a: string, b: string, c: string)
    requires StrLt(a, b) && StrLt(b, c)
    ensures StrLt(a, c)
    decreases |a|
  {
    if |a| > 0 && a[0] == b[0] && b[0] == c[0] {
      StrLtTransitive(a[1..], b[1..], c[1..]);
    }
  }

  /** Any two different strings are ordered one way or the other. */
  lemma {:induction false} StrLtTotal(a: string, b: string)
    requires a != b
    ensures StrLt(a, b) || StrLt(b, a)
    decreases |a|
  {
    if |a| > 0 && |b| > 0 && a[0] == b[0] {
      assert a == [a[0]] + a[1..] && b == [b[0]] + b[1..];
      StrLtTotal(a[1..], b[1..]);
    }
  }

  lemma {:induction false} StrLtAsymmetric(a: string, b: string)
    requires StrLt(a, b)
    ensures !StrLt(b, a)
  {
    if StrLt(b, a) {
      StrLtTransitive(a, b, a);
      StrLtIrreflexive(a);
    }
  }
}
