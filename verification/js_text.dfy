/**
 The three JavaScript string methods the signup handler uses:
 `String.prototype.trim`, `startsWith` and `replace` with a string pattern.
 */
module JsText {

  import opened Optional

  /**
   The characters `trim` removes: the ECMAScript WhiteSpace (tab, vertical tab,
   form feed, space, no-break space, byte order mark and the Unicode space
   separators) and LineTerminator (line feed, carriage return, U+2028, U+2029)
   productions.
   */
  predicate IsWhitespace(c: char)
  {
    || c == '\t' || c == '\n' || c == '\U{0B}' || c == '\U{0C}' || c == '\r' || c == ' '
    || c == '\U{A0}' || c == '\U{1680}' || ('\U{2000}' <= c <= '\U{200A}')
    || c == '\U{2028}' || c == '\U{2029}' || c == '\U{202F}' || c == '\U{205F}'
    || c == '\U{3000}' || c == '\U{FEFF}'
  }

  /** Every character of `s` at positions `lo` to `hi` (exclusive) is whitespace. */
  predicate WhitespaceBetween(s: string, lo: int, hi: int)
    requires 0 <= lo <= hi <= |s|
  {
    forall i :: lo <= i < hi ==> IsWhitespace(s[i])
  }

  predicate AllWhitespace(s: string)
  {
    WhitespaceBetween(s, 0, |s|)
  }

  /** `r` is `s` with its leading and trailing whitespace removed. */
  ghost predicate IsTrimOf(s: string, r: string)
  {
    && (r == [] || (!IsWhitespace(r[0]) && !IsWhitespace(r[|r| - 1])))
    && exists lo, hi :: TrimBounds(s, lo, hi) && r == s[lo..hi]
  }

  /** Positions `lo` and `hi` cut only whitespace off the two ends of `s`. */
  predicate TrimBounds(s: string, lo: int, hi: int)
  {
    0 <= lo <= hi <= |s| && WhitespaceBetween(s, 0, lo) && WhitespaceBetween(s, hi, |s|)
  }

  /** The end of the whitespace run of `s` that starts at `from`. */
  function SkipForward(s: string, from: nat): (n: nat)
    requires from <= |s|
    ensures from <= n <= |s| && WhitespaceBetween(s, from, n)
    ensures n < |s| ==> !IsWhitespace(s[n])
    decreases |s| - from
  {
    if from == |s| || !IsWhitespace(s[from]) then from
    else SkipForward(s, from + 1)
  }

  /** The start of the whitespace run of `s` that ends at `end`, not going below `lo`. */
  function SkipBackward(s: string, lo: nat, end: nat): (n: nat)
    requires lo <= end <= |s|
    ensures lo <= n <= end && WhitespaceBetween(s, n, end)
    ensures lo < n ==> !IsWhitespace(s[n - 1])
    decreases end
  {
    if end == lo || !IsWhitespace(s[end - 1]) then end
    else SkipBackward(s, lo, end - 1)
  }

  /** `String.prototype.trim`. */
  function Trim(s: string): (r: string)
    ensures IsTrimOf(s, r)
  {
    var lo := SkipForward(s, 0);
    var hi := SkipBackward(s, lo, |s|);
    assert WhitespaceBetween(s, hi, |s|);
    assert lo < hi ==> s[lo..hi][0] == s[lo] && s[lo..hi][hi - lo - 1] == s[hi - 1];
    assert TrimBounds(s, lo, hi);
    s[lo..hi]
  }

  /** Trimming has only one possible result. */
  lemma TrimUnique(s: string, r: string)
    requires IsTrimOf(s, r)
    ensures r == Trim(s)
  {
    var t := Trim(s);
    var lo, hi :| TrimBounds(s, lo, hi) && r == s[lo..hi];
    var lo', hi' :| TrimBounds(s, lo', hi') && t == s[lo'..hi'];
    assert forall k :: 0 <= k < |r| ==> r[k] == s[lo + k];
    assert forall k :: 0 <= k < |t| ==> t[k] == s[lo' + k];
    if r == [] || t == [] {
      assert WhitespaceBetween(s, 0, |s|);
    } else {
      assert lo == lo' && hi == hi';
    }
  }

  /** Whitespace added around a string does not change what it trims to. */
  lemma TrimIgnoresPadding(pre: string, s: string, post: string)
    requires AllWhitespace(pre) && AllWhitespace(post)
    ensures Trim(pre + s + post) == Trim(s)
  {
    var t := Trim(s);
    var whole := pre + s + post;
    var lo, hi :| TrimBounds(s, lo, hi) && t == s[lo..hi];
    assert forall i :: 0 <= i < |s| ==> whole[|pre| + i] == s[i];
    assert TrimBounds(whole, |pre| + lo, |pre| + hi);
    assert whole[|pre| + lo..|pre| + hi] == t;
    TrimUnique(whole, t);
  }

  /** A string that neither starts nor ends with whitespace trims to itself. */
  lemma TrimOfTrimmed(s: string)
    requires s == [] || (!IsWhitespace(s[0]) && !IsWhitespace(s[|s| - 1]))
    ensures Trim(s) == s
  {
    assert TrimBounds(s, 0, |s|) && s[0..|s|] == s;
    TrimUnique(s, s);
  }

  /** Trimming twice is trimming once. */
  lemma TrimIdempotent(s: string)
    ensures Trim(Trim(s)) == Trim(s)
  {
    TrimOfTrimmed(Trim(s));
  }

  /** `s.startsWith(p)`. */
  predicate StartsWith(s: string, p: string)
  {
    |p| <= |s| && s[..|p|] == p
  }

  /** `p` occurs in `s` starting at position `k`. */
  predicate OccursAt(s: string, p: string, k: int)
  {
    0 <= k && k + |p| <= |s| && s[k..k + |p|] == p
  }

  /** `k` is the first position at which `p` occurs in `s`. */
  ghost predicate FirstOccurrence(s: string, p: string, k: int)
  {
    OccursAt(s, p, k) && forall j :: 0 <= j < k ==> !OccursAt(s, p, j)
  }

  /** `s.indexOf(p, from)`, with nothing in place of -1. */
  function IndexOf(s: string, p: string, from: nat): (r: Option<nat>)
    requires from <= |s|
    ensures r.Some? ==> from <= r.value && OccursAt(s, p, r.value)
    ensures r.Some? ==> forall j :: from <= j < r.value ==> !OccursAt(s, p, j)
    ensures r.None? ==> forall j :: from <= j <= |s| ==> !OccursAt(s, p, j)
    decreases |s| - from
  {
    if OccursAt(s, p, from) then Some(from)
    else if from == |s| then None
    else IndexOf(s, p, from + 1)
  }

  /**
   `s.replace(p, '')`: a string pattern stands for itself, and only its first
   occurrence, wherever it is, is removed; with no occurrence `s` is returned.
   */
  function RemoveFirst(s: string, p: string): (r: string)
    ensures (forall k :: 0 <= k <= |s| ==> !OccursAt(s, p, k)) ==> r == s
    ensures forall k :: FirstOccurrence(s, p, k) ==> r == s[..k] + s[k + |p|..]
  {
    match IndexOf(s, p, 0)
    case None => s
    case Some(i) => s[..i] + s[i + |p|..]
  }

  /** A pattern at the very start is what `replace` removes. */
  lemma RemoveFirstPrefix(p: string, rest: string)
    ensures RemoveFirst(p + rest, p) == rest
  {
    var s := p + rest;
    assert s[0..|p|] == p;
    assert FirstOccurrence(s, p, 0);
    assert s[..0] + s[|p|..] == rest;
  }

}
