/**
 * String primitives used by the resume extractor: digit and whitespace classes,
 * substring search, the two pieces of `str.split` the extractor reads, `str.strip`
 * and `str.join`.
 */
module Text {
  import opened Wrappers

  /** The model's reading of the regular-expression class `\d`: ASCII decimal digits. */
  predicate IsDigit(c: char) {
    '0' <= c <= '9'
  }

  predicate AllDigits(s: string) {
    forall k :: 0 <= k < |s| ==> IsDigit(s[k])
  }

  /** The characters `str.strip()` with no argument removes (Python's whitespace set). */
  predicate IsSpace(c: char) {
    || c == ' '
    || '\t' <= c <= '\r'
    || '\U{1C}' <= c <= '\U{1F}'
    || c == '\U{85}' || c == '\U{A0}' || c == '\U{1680}'
    || '\U{2000}' <= c <= '\U{200A}'
    || c == '\U{2028}' || c == '\U{2029}' || c == '\U{202F}'
    || c == '\U{205F}' || c == '\U{3000}'
  }

  // ---------------------------------------------------------------------------
  // Substrings
  // ---------------------------------------------------------------------------

  /** `p` occurs in `s` starting at index `i`. */
  predicate OccursAt(s: string, p: string, i: nat) {
    i + |p| <= |s| && s[i..i + |p|] == p
  }

  /** Python's `p in s`. */
  predicate Contains(s: string, p: string) {
    exists i: nat :: i <= |s| && OccursAt(s, p, i)
  }

  /**
   * The empty text is in every text, a contained text is no longer than its
   * container, and between texts of one length `in` is equality.
   */
  lemma ContainsLaws(s: string, p: string)
    ensures Contains(s, "")
    ensures Contains(s, p) ==> |p| <= |s|
    ensures |p| == |s| ==> (Contains(s, p) <==> p == s)
  {
    assert OccursAt(s, "", 0);
    assert OccursAt(s, p, 0) <==> |p| <= |s| && s[..|p|] == p;
    assert |p| == |s| ==> s[..|p|] == s;
  }

  /** Leftmost occurrence of `p` in `s` at or after `from`. */
  function IndexFrom(s: string, p: string, from: nat): (r: Option<nat>)
    ensures r.Some? ==> from <= r.value && OccursAt(s, p, r.value)
    ensures r.Some? ==> forall j: nat :: from <= j < r.value ==> !OccursAt(s, p, j)
    ensures r.None? ==> forall j: nat :: from <= j ==> !OccursAt(s, p, j)
    decreases |s| - from
  {
    if from + |p| > |s| then None
    else if s[from..from + |p|] == p then Some(from)
    else IndexFrom(s, p, from + 1)
  }

  /** Leftmost occurrence of `p` in `s` (Python's `s.find(p)`, with None for -1). */
  function IndexOf(s: string, p: string): (r: Option<nat>)
    ensures r.Some? <==> Contains(s, p)
    ensures r.Some? ==> OccursAt(s, p, r.value)
    ensures r.Some? ==> forall j: nat :: j < r.value ==> !OccursAt(s, p, j)
  {
    IndexFrom(s, p, 0)
  }

  lemma PrefixBeforeFirst(s: string, p: string, i: nat)
    requires p != "" && i <= |s|
    requires forall j: nat :: j < i ==> !OccursAt(s, p, j)
    ensures !Contains(s[..i], p)
  {
    var t := s[..i];
    forall j: nat | j <= |t| ensures !OccursAt(t, p, j) {
      if j + |p| <= |t| {
        assert t[j..j + |p|] == s[j..j + |p|];
        assert j < i && !OccursAt(s, p, j);
      }
    }
  }

  /** `s.split(p)[0]`: the text before the first occurrence of `p`, or all of `s`. */
  function Before(s: string, p: string): (r: string)
    requires p != ""
    ensures |r| <= |s| && r == s[..|r|]
    ensures !Contains(r, p)
    ensures r == s || OccursAt(s, p, |r|)
    ensures !Contains(s, p) <==> r == s
    ensures r != s ==> forall j: nat :: j < |r| ==> !OccursAt(s, p, j)
  {
    match IndexOf(s, p)
    case None => s
    case Some(i) => PrefixBeforeFirst(s, p, i); s[..i]
  }

  /** Everything after the first occurrence of `p`; `s.split(p)[1]` is `Before(After(s, p), p)`. */
  function After(s: string, p: string): (r: string)
    requires Contains(s, p)
    ensures |r| + |p| <= |s| && r == s[|s| - |r|..]
    ensures OccursAt(s, p, |s| - |r| - |p|)
    ensures forall j: nat :: j < |s| - |r| - |p| ==> !OccursAt(s, p, j)
  {
    var i := IndexOf(s, p).value;
    s[i + |p|..]
  }

  /** When `p` first occurs at `i`, `Before` cuts there. */
  lemma BeforeAtFirst(s: string, p: string, i: nat)
    requires p != "" && OccursAt(s, p, i)
    requires forall j: nat :: j < i ==> !OccursAt(s, p, j)
    ensures Before(s, p) == s[..i]
  {
    assert i <= |s|;
    assert IndexOf(s, p).value == i;
  }

  /** When `p` first occurs at `i`, `After` starts right behind it. */
  lemma AfterAtFirst(s: string, p: string, i: nat)
    requires OccursAt(s, p, i)
    requires forall j: nat :: j < i ==> !OccursAt(s, p, j)
    ensures Contains(s, p)
    ensures After(s, p) == s[i + |p|..]
  {
    assert i <= |s|;
    assert IndexOf(s, p).value == i;
  }

  lemma SliceContained(s: string, a: nat, b: nat)
    requires a <= b <= |s|
    ensures Contains(s, s[a..b])
  {
    assert OccursAt(s, s[a..b], a);
  }

  lemma ContainsTransitive(s: string, x: string, y: string)
    requires Contains(s, x) && Contains(x, y)
    ensures Contains(s, y)
  {
    var i: nat :| i <= |s| && OccursAt(s, x, i);
    var j: nat :| j <= |x| && OccursAt(x, y, j);
    forall k | 0 <= k < |y|
      ensures s[i + j + k] == y[k]
    {
      assert y[k] == x[j + k] == s[i + j + k];
    }
    assert OccursAt(s, y, i + j);
  }

  /** A piece of a text free of `p` is free of `p`. */
  lemma AbsentFromPiece(s: string, x: string, p: string)
    requires !Contains(s, p) && Contains(s, x)
    ensures !Contains(x, p)
  {
    if Contains(x, p) {
      ContainsTransitive(s, x, p);
    }
  }

  // ---------------------------------------------------------------------------
  // str.strip()
  // ---------------------------------------------------------------------------

  /** Length of the leading whitespace run. */
  function LeadLen(s: string): (n: nat)
    ensures n <= |s|
    ensures forall k :: 0 <= k < n ==> IsSpace(s[k])
    ensures n < |s| ==> !IsSpace(s[n])
  {
    if |s| == 0 || !IsSpace(s[0]) then 0 else 1 + LeadLen(s[1..])
  }

  /** Length of the trailing whitespace run. */
  function TrailLen(s: string): (n: nat)
    ensures n <= |s|
    ensures forall k :: |s| - n <= k < |s| ==> IsSpace(s[k])
    ensures n < |s| ==> !IsSpace(s[|s| - n - 1])
  {
    if |s| == 0 || !IsSpace(s[|s| - 1]) then 0 else 1 + TrailLen(s[..|s| - 1])
  }

  /**
   * `s.strip()`: the slice of `s` left after removing every leading and trailing
   * whitespace character, and nothing else.
   */
  function Trim(s: string): (r: string)
    ensures LeadLen(s) + |r| <= |s|
    ensures r == s[LeadLen(s)..LeadLen(s) + |r|]
    ensures forall k :: LeadLen(s) + |r| <= k < |s| ==> IsSpace(s[k])
    ensures r == "" || (!IsSpace(r[0]) && !IsSpace(r[|r| - 1]))
  {
    var t := s[LeadLen(s)..];
    t[..|t| - TrailLen(t)]
  }

  /** Any slice with whitespace outside and non-whitespace ends is what `strip` returns. */
  lemma TrimUnique(s: string, a: nat, b: nat)
    requires a <= b <= |s|
    requires forall k :: 0 <= k < a ==> IsSpace(s[k])
    requires forall k :: b <= k < |s| ==> IsSpace(s[k])
    requires a == b || (!IsSpace(s[a]) && !IsSpace(s[b - 1]))
    ensures Trim(s) == s[a..b]
  {
    var l := LeadLen(s);
    var r := Trim(s);
    if a < b {
      assert l == a;
      assert r == "" || r[|r| - 1] == s[l + |r| - 1];
      assert l + |r| == b;
    } else {
      assert l == |s|;
    }
  }

  /** A text with non-whitespace ends is its own stripped form. */
  lemma TrimWhole(s: string)
    requires |s| > 0 && !IsSpace(s[0]) && !IsSpace(s[|s| - 1])
    ensures Trim(s) == s
  {
    TrimUnique(s, 0, |s|);
    assert s[0..|s|] == s;
  }

  lemma TrimContained(s: string)
    ensures Contains(s, Trim(s))
  {
    SliceContained(s, LeadLen(s), LeadLen(s) + |Trim(s)|);
  }

  /** Stripping twice is stripping once. */
  lemma TrimIdempotent(s: string)
    ensures Trim(Trim(s)) == Trim(s)
  {
    var r := Trim(s);
    TrimUnique(r, 0, |r|);
  }

  /** Whitespace padding around a text does not change its stripped form. */
  lemma TrimPadded(w1: string, s: string, w2: string)
    requires forall k :: 0 <= k < |w1| ==> IsSpace(w1[k])
    requires forall k :: 0 <= k < |w2| ==> IsSpace(w2[k])
    ensures Trim(w1 + s + w2) == Trim(s)
  {
    var x := w1 + s + w2;
    var r := Trim(s);
    var l := LeadLen(s);
    var a := |w1| + l;
    var b := a + |r|;
    PaddedSlice(w1, s, w2, l, l + |r|);
    assert x[a..b] == r;
    if a < b {
      assert x[a] == x[a..b][0] && x[b - 1] == x[a..b][|r| - 1];
    }
    PaddedSpaces(w1, s, w2, l, l + |r|);
    TrimUnique(x, a, b);
  }

  lemma PaddedSlice(w1: string, s: string, w2: string, a: nat, b: nat)
    requires a <= b <= |s|
    ensures (w1 + s + w2)[|w1| + a..|w1| + b] == s[a..b]
  {
    var x := w1 + s + w2;
    forall k | a <= k < b ensures x[|w1| + k] == s[k] {
    }
  }

  lemma PaddedSpaces(w1: string, s: string, w2: string, a: nat, b: nat)
    requires a <= b <= |s|
    requires forall k :: 0 <= k < |w1| ==> IsSpace(w1[k])
    requires forall k :: 0 <= k < |w2| ==> IsSpace(w2[k])
    requires forall k :: 0 <= k < a ==> IsSpace(s[k])
    requires forall k :: b <= k < |s| ==> IsSpace(s[k])
    ensures forall k :: 0 <= k < |w1| + a ==> IsSpace((w1 + s + w2)[k])
    ensures forall k :: |w1| + b <= k < |w1 + s + w2| ==> IsSpace((w1 + s + w2)[k])
  {
    var x := w1 + s + w2;
    forall k | 0 <= k < |w1| + a ensures IsSpace(x[k]) {
      if k < |w1| { assert x[k] == w1[k]; } else { assert x[k] == s[k - |w1|]; }
    }
    forall k | |w1| + b <= k < |x| ensures IsSpace(x[k]) {
      if k < |w1| + |s| { assert x[k] == s[k - |w1|]; } else { assert x[k] == w2[k - |w1| - |s|]; }
    }
  }

  // ---------------------------------------------------------------------------
  // str.join and concatenation
  // ---------------------------------------------------------------------------

  /** `sep.join(parts)`. */
  function Join(parts: seq<string>, sep: string): (r: string)
    ensures |parts| == 0 ==> r == ""
    ensures |parts| == 1 ==> r == parts[0]
    ensures |parts| > 0 ==> parts[0] <= r
    ensures |parts| > 0 ==> |r| + |sep| == |Concat(parts)| + |parts| * |sep|
  {
    if |parts| == 0 then ""
    else if |parts| == 1 then parts[0]
    else parts[0] + sep + Join(parts[1..], sep)
  }

  /** `"".join(parts)`. */
  function Concat(parts: seq<string>): (r: string)
    ensures |parts| == 0 ==> r == ""
    ensures |parts| > 0 ==> parts[0] <= r
  {
    if |parts| == 0 then "" else parts[0] + Concat(parts[1..])
  }
}
