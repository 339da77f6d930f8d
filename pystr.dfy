/**
  The few Python `str` operations the chunker and the classifier rely on:
  `isspace`, `strip`, `lower`, the `in` operator and `rfind`.
  Strings are sequences of Unicode scalar values.
 */
module PyStr {

  /** Python's `str.isspace` on one character: exactly the code points Python 3 treats as whitespace. */
  predicate IsSpace(c: char)
  {
    || ('\t' <= c <= '\r')
    || ('\U{1C}' <= c <= '\U{1F}')
    || c == ' '
    || c == '\U{85}'
    || c == '\U{A0}'
    || c == '\U{1680}'
    || ('\U{2000}' <= c <= '\U{200A}')
    || c == '\U{2028}'
    || c == '\U{2029}'
    || c == '\U{202F}'
    || c == '\U{205F}'
    || c == '\U{3000}'
  }

  predicate AllSpace(s: string)
  {
    forall i :: 0 <= i < |s| ==> IsSpace(s[i])
  }

  /** A string `strip()` leaves alone: it neither starts nor ends with whitespace. */
  predicate IsStripped(s: string)
  {
    s == [] || (!IsSpace(s[0]) && !IsSpace(s[|s| - 1]))
  }

  /** Number of leading whitespace characters. */
  function LeadingSpaces(s: string): (n: nat)
    ensures n <= |s|
    decreases |s|
  {
    if |s| > 0 && IsSpace(s[0]) then 1 + LeadingSpaces(s[1..]) else 0
  }

  /** `LeadingSpaces` counts the longest all-whitespace prefix. */
  lemma {:induction false} LeadingSpacesSpec(s: string)
    ensures forall i :: 0 <= i < LeadingSpaces(s) ==> IsSpace(s[i])
    ensures LeadingSpaces(s) < |s| ==> !IsSpace(s[LeadingSpaces(s)])
    decreases |s|
  {
    if |s| > 0 && IsSpace(s[0]) {
      LeadingSpacesSpec(s[1..]);
    }
  }

  /** Number of trailing whitespace characters. */
  function TrailingSpaces(s: string): (n: nat)
    ensures n <= |s|
    decreases |s|
  {
    if |s| > 0 && IsSpace(s[|s| - 1]) then 1 + TrailingSpaces(s[..|s| - 1]) else 0
  }

  /** `TrailingSpaces` counts the longest all-whitespace suffix. */
  lemma {:induction false} TrailingSpacesSpec(s: string)
    ensures forall i :: |s| - TrailingSpaces(s) <= i < |s| ==> IsSpace(s[i])
    ensures TrailingSpaces(s) < |s| ==> !IsSpace(s[|s| - 1 - TrailingSpaces(s)])
    decreases |s|
  {
    if |s| > 0 && IsSpace(s[|s| - 1]) {
      TrailingSpacesSpec(s[..|s| - 1]);
    }
  }

  /** Python's `s.strip()`: drop leading whitespace, then trailing whitespace. */
  function Strip(s: string): (r: string)
  {
    var t := s[LeadingSpaces(s)..];
    t[..|t| - TrailingSpaces(t)]
  }

  /** `Strip(s)` is the infix of `s` that starts after its leading whitespace. */
  lemma StripIsInfix(s: string)
    ensures |Strip(s)| <= |s|
    ensures LeadingSpaces(s) + |Strip(s)| <= |s|
    ensures Strip(s) == s[LeadingSpaces(s)..LeadingSpaces(s) + |Strip(s)|]
  {
  }

  /** What `strip()` returns neither starts nor ends with whitespace, and is empty only for blank input. */
  lemma StripIsStripped(s: string)
    ensures IsStripped(Strip(s))
    ensures Strip(s) == [] <==> AllSpace(s)
  {
    var k := LeadingSpaces(s);
    var t := s[k..];
    var m := TrailingSpaces(t);
    LeadingSpacesSpec(s);
    TrailingSpacesSpec(t);
    if Strip(s) != [] {
      assert Strip(s)[0] == t[0];
      assert k < |s|;
      assert !IsSpace(s[k]);
      assert Strip(s)[|Strip(s)| - 1] == t[|t| - 1 - m];
    } else {
      assert |t| == m;
      assert k == |s|;
    }
  }

  /** The unique decomposition: blank padding around a stripped core is what `strip()` removes. */
  lemma {:induction false} StripPadded(a: string, t: string, b: string)
    requires AllSpace(a) && AllSpace(b) && IsStripped(t)
    ensures Strip(a + t + b) == t
  {
    var s := a + t + b;
    LeadingOfPadded(a, t + b);
    assert s == a + (t + b);
    if t == [] {
      assert AllSpace(s) by {
        forall i | 0 <= i < |s| ensures IsSpace(s[i]) {
          if i < |a| { assert s[i] == a[i]; } else { assert s[i] == b[i - |a|]; }
        }
      }
      StripIsStripped(s);
    } else {
      assert LeadingSpaces(s) == |a|;
      var u := s[|a|..];
      assert u == t + b;
      TrailingOfPadded(t, b);
      assert TrailingSpaces(u) == |b|;
      assert u[..|u| - |b|] == t;
    }
  }

  /** Leading whitespace of `a + x` is all of `a` when `x` starts with a non-space. */
  lemma {:induction false} LeadingOfPadded(a: string, x: string)
    requires AllSpace(a)
    ensures x != [] && !IsSpace(x[0]) ==> LeadingSpaces(a + x) == |a|
    decreases |a|
  {
    if a != [] {
      assert (a + x)[1..] == a[1..] + x;
      LeadingOfPadded(a[1..], x);
    } else {
      assert a + x == x;
    }
  }

  /** Trailing whitespace of `t + b` is all of `b` when `t` ends with a non-space. */
  lemma {:induction false} TrailingOfPadded(t: string, b: string)
    requires AllSpace(b)
    ensures t != [] && !IsSpace(t[|t| - 1]) ==> TrailingSpaces(t + b) == |b|
    decreases |b|
  {
    if b != [] {
      assert (t + b)[..|t + b| - 1] == t + b[..|b| - 1];
      TrailingOfPadded(t, b[..|b| - 1]);
    } else {
      assert t + b == t;
    }
  }

  /** `strip()` is idempotent. */
  lemma StripIdempotent(s: string)
    ensures Strip(Strip(s)) == Strip(s)
  {
    StripIsStripped(s);
    StripPadded([], Strip(s), []);
    assert [] + Strip(s) + [] == Strip(s);
  }

  /** Python's `str.lower` on one character; only ASCII letters are folded. */
  function LowerChar(c: char): (d: char)
  {
    if 'A' <= c <= 'Z' then (c as int + 32) as char else c
  }

  /** Python's `s.lower()` (ASCII case folding). */
  function Lower(s: string): (r: string)
    ensures |r| == |s|
    ensures forall i :: 0 <= i < |s| ==> r[i] == LowerChar(s[i])
  {
    seq(|s|, i requires 0 <= i < |s| => LowerChar(s[i]))
  }

  lemma {:induction false} LowerLeadingSpaces(s: string)
    ensures LeadingSpaces(Lower(s)) == LeadingSpaces(s)
    decreases |s|
  {
    if |s| > 0 {
      assert Lower(s)[1..] == Lower(s[1..]);
      LowerLeadingSpaces(s[1..]);
    }
  }

  lemma {:induction false} LowerTrailingSpaces(s: string)
    ensures TrailingSpaces(Lower(s)) == TrailingSpaces(s)
    decreases |s|
  {
    if |s| > 0 {
      assert Lower(s)[..|s| - 1] == Lower(s[..|s| - 1]);
      LowerTrailingSpaces(s[..|s| - 1]);
    }
  }

  lemma LowerSlice(s: string, lo: int, hi: int)
    requires 0 <= lo <= hi <= |s|
    ensures Lower(s)[lo..hi] == Lower(s[lo..hi])
  {
  }

  /** `strip()` and `lower()` commute, so `m.lower().strip()` is also `m.strip().lower()`. */
  lemma StripLowerCommute(s: string)
    ensures Strip(Lower(s)) == Lower(Strip(s))
  {
    var k := LeadingSpaces(s);
    var t := s[k..];
    var m := TrailingSpaces(t);
    var u := Lower(s);
    LowerLeadingSpaces(s);
    assert LeadingSpaces(u) == k;
    LowerSlice(s, k, |s|);
    assert u[k..] == Lower(t);
    LowerTrailingSpaces(t);
    assert TrailingSpaces(Lower(t)) == m;
    LowerSlice(t, 0, |t| - m);
    assert Strip(u) == Lower(t)[..|t| - m];
    assert Strip(s) == t[..|t| - m];
  }

  lemma SliceOfSlice(s: string, lo: int, hi: int, i: int, j: int)
    requires 0 <= lo <= hi <= |s| && 0 <= i <= j <= hi - lo
    ensures s[lo..hi][i..j] == s[lo + i..lo + j]
  {
    forall k | 0 <= k < j - i ensures s[lo..hi][i..j][k] == s[lo + i..lo + j][k] {
    }
  }

  /** `p` occurs in `s` starting at index `i`. */
  predicate OccursAt(s: string, p: string, i: int)
  {
    0 <= i && i + |p| <= |s| && s[i..i + |p|] == p
  }

  /** Python's `p in s`: `p` occurs in `s` as a contiguous substring. */
  predicate Contains(s: string, p: string)
  {
    exists i | 0 <= i <= |s| - |p| :: OccursAt(s, p, i)
  }

  /** A substring of a longer string's part is a substring of the whole. */
  lemma ContainsInfix(s: string, lo: int, hi: int, p: string)
    requires 0 <= lo <= hi <= |s|
    requires Contains(s[lo..hi], p)
    ensures Contains(s, p)
  {
    var i :| OccursAt(s[lo..hi], p, i);
    assert OccursAt(s[lo..hi], p, i);
    assert 0 <= i && i + |p| <= hi - lo && s[lo..hi][i..i + |p|] == p;
    forall j | 0 <= j < |p| ensures s[lo + i + j] == p[j] {
      assert s[lo..hi][i..i + |p|][j] == p[j];
    }
    assert s[lo + i..lo + i + |p|] == p;
    assert OccursAt(s, p, lo + i);
  }

  /**
    Python's `s.rfind(p)`: the start of the last occurrence of `p` in `s`,
    or -1 when there is none.
   */
  function RFind(s: string, p: string): (r: int)
    ensures r == -1 || OccursAt(s, p, r)
    ensures forall j :: r < j ==> !OccursAt(s, p, j)
    decreases |s|
  {
    if |s| < |p| then -1
    else if s[|s| - |p|..] == p then |s| - |p|
    else
      var r := RFind(s[..|s| - 1], p);
      OccursInDropLast(s, p);
      assert !OccursAt(s, p, |s| - |p|) by {
        assert s[|s| - |p|..|s|] == s[|s| - |p|..];
      }
      r
  }

  /** An occurrence that ends before the last character is an occurrence in `s` without it. */
  lemma OccursInDropLast(s: string, p: string)
    requires s != []
    ensures forall j :: j + |p| < |s| ==> (OccursAt(s, p, j) <==> OccursAt(s[..|s| - 1], p, j))
  {
    forall j | j + |p| < |s|
      ensures OccursAt(s, p, j) <==> OccursAt(s[..|s| - 1], p, j)
    {
      if 0 <= j {
        assert s[..|s| - 1][j..j + |p|] == s[j..j + |p|];
      }
    }
  }

  /** `rfind` finds something exactly when the pattern occurs. */
  lemma RFindFound(s: string, p: string)
    ensures RFind(s, p) >= 0 <==> Contains(s, p)
  {
    if RFind(s, p) >= 0 {
      assert OccursAt(s, p, RFind(s, p));
    }
  }

  lemma AllSpaceConcat(a: string, b: string)
    requires AllSpace(a) && AllSpace(b)
    ensures AllSpace(a + b)
  {
    forall i | 0 <= i < |a + b| ensures IsSpace((a + b)[i]) {
      if i < |a| { assert (a + b)[i] == a[i]; } else { assert (a + b)[i] == b[i - |a|]; }
    }
  }

  /** Every string is its stripped core with blank padding on both sides. */
  lemma StripDecompose(s: string)
    ensures LeadingSpaces(s) + |Strip(s)| <= |s|
    ensures AllSpace(s[..LeadingSpaces(s)]) && AllSpace(s[LeadingSpaces(s) + |Strip(s)|..])
    ensures s == s[..LeadingSpaces(s)] + Strip(s) + s[LeadingSpaces(s) + |Strip(s)|..]
  {
    var k := LeadingSpaces(s);
    var t := s[k..];
    var n := |t| - TrailingSpaces(t);
    StripPieces(s, k, t, n);
  }

  lemma StripPieces(s: string, k: nat, t: string, n: int)
    requires k == LeadingSpaces(s) && t == s[k..] && n == |t| - TrailingSpaces(t)
    ensures k + n <= |s| && Strip(s) == s[k..k + n]
    ensures AllSpace(s[..k]) && AllSpace(s[k + n..])
    ensures s == s[..k] + s[k..k + n] + s[k + n..]
  {
    LeadingSpacesSpec(s);
    TrailingSpacesSpec(t);
    assert s[k + n..] == t[n..];
  }

  /** Extra whitespace on either side does not change what `strip()` returns. */
  lemma StripIgnoresPadding(w1: string, s: string, w2: string)
    requires AllSpace(w1) && AllSpace(w2)
    ensures Strip(w1 + s + w2) == Strip(s)
  {
    StripDecompose(s);
    StripIsStripped(s);
    var k := LeadingSpaces(s);
    var m := Strip(s);
    var a := s[..k];
    var b := s[k + |m|..];
    AllSpaceConcat(w1, a);
    AllSpaceConcat(b, w2);
    Regroup(w1, a, m, b, w2);
    StripPadded(w1 + a, m, b + w2);
  }

  lemma Regroup(w1: string, a: string, m: string, b: string, w2: string)
    ensures w1 + (a + m + b) + w2 == (w1 + a) + m + (b + w2)
  {
  }

  /**
    Stripping keeps every occurrence of a non-empty pattern that neither starts nor
    ends with whitespace, so `p in s.strip()` is `p in s` for such patterns.
   */
  lemma ContainsStrip(s: string, p: string)
    requires p != [] && IsStripped(p)
    ensures Contains(Strip(s), p) <==> Contains(s, p)
  {
    StripDecompose(s);
    if Contains(Strip(s), p) {
      ContainsInfix(s, LeadingSpaces(s), LeadingSpaces(s) + |Strip(s)|, p);
    }
    if Contains(s, p) {
      var i :| 0 <= i <= |s| - |p| && OccursAt(s, p, i);
      OccurrenceInsideStrip(s, p, i);
    }
  }

  /** An occurrence of such a pattern lies inside the stripped part. */
  lemma OccurrenceInsideStrip(s: string, p: string, i: int)
    requires p != [] && IsStripped(p) && OccursAt(s, p, i)
    ensures Contains(Strip(s), p)
  {
    var k := LeadingSpaces(s);
    var n := |Strip(s)|;
    StripDecompose(s);
    StripIsInfix(s);
    assert s[i] == s[i..i + |p|][0] == p[0];
    assert s[i + |p| - 1] == s[i..i + |p|][|p| - 1] == p[|p| - 1];
    assert i >= k by {
      assert forall j :: 0 <= j < k ==> s[..k][j] == s[j];
    }
    assert i + |p| <= k + n by {
      assert forall j :: k + n <= j < |s| ==> s[k + n..][j - (k + n)] == s[j];
    }
    SliceOfSlice(s, k, k + n, i - k, i - k + |p|);
    assert OccursAt(Strip(s), p, i - k);
  }

  /** A pattern with a character the string lacks does not occur in it. */
  lemma MissingChar(s: string, p: string, c: char)
    requires c in p && c !in s
    ensures !Contains(s, p)
  {
    var j :| 0 <= j < |p| && p[j] == c;
    forall i | 0 <= i <= |s| - |p| ensures !OccursAt(s, p, i) {
      assert s[i + j] in s;
      assert s[i..i + |p|][j] == s[i + j];
    }
  }

  /** A pattern that does not start the string and whose first character appears nowhere else does not occur. */
  lemma OnlyAtStart(s: string, p: string)
    requires p != [] && s != [] && p[0] !in s[1..] && !OccursAt(s, p, 0)
    ensures !Contains(s, p)
  {
    forall i | 1 <= i <= |s| - |p| ensures !OccursAt(s, p, i) {
      assert s[i] == s[1..][i - 1];
      assert s[i..i + |p|][0] == s[i];
    }
  }

  /** A two-character pattern absent from both halves occurs in their concatenation only across the seam. */
  lemma PairAcrossSeam(a: string, b: string, p: string)
    requires |p| == 2 && !Contains(a, p) && !Contains(b, p)
    requires a == [] || b == [] || a[|a| - 1] != p[0] || b[0] != p[1]
    ensures !Contains(a + b, p)
  {
    var s := a + b;
    forall i | 0 <= i <= |s| - 2 ensures !OccursAt(s, p, i) {
      if i + 2 <= |a| {
        assert !OccursAt(a, p, i);
        assert s[i..i + 2] == a[i..i + 2];
      } else if i >= |a| {
        assert !OccursAt(b, p, i - |a|);
        assert s[i..i + 2] == b[i - |a|..i - |a| + 2];
      } else {
        assert s[i..i + 2] == [a[|a| - 1], b[0]];
      }
    }
  }
}
