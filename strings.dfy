/** `String.prototype.trim` of ECMAScript, which the service applies to titles and
    descriptions. */
module Strings {

  /** The code points `trim` removes: WhiteSpace and LineTerminator of ECMA-262
      (sections 12.2 and 12.3), that is TAB, VT, FF, ZWNBSP, every space separator
      (category Zs), LF, CR, LINE SEPARATOR and PARAGRAPH SEPARATOR. */
  predicate IsWhitespace(c: char) {
    || c == '\t' || c == '\n' || c == '\U{000B}' || c == '\U{000C}' || c == '\r'
    || c == ' ' || c == '\U{00A0}' || c == '\U{1680}'
    || ('\U{2000}' <= c <= '\U{200A}')
    || c == '\U{2028}' || c == '\U{2029}' || c == '\U{202F}' || c == '\U{205F}'
    || c == '\U{3000}' || c == '\U{FEFF}'
  }

  /** Every character of `s` at an index in [lo, hi) is white space. */
  predicate BlankBetween(s: string, lo: int, hi: int) {
    forall i :: lo <= i < hi && 0 <= i < |s| ==> IsWhitespace(s[i])
  }

  /** Every character of `s` is white space (the empty string included). */
  predicate Blank(s: string) {
    BlankBetween(s, 0, |s|)
  }

  /** The first index at or after `i` whose character is not white space, or |s|
      when there is none: where trimming the front of `s[i..]` stops. */
  function LeadingEnd(s: string, i: nat): (p: nat)
    requires i <= |s|
    ensures i <= p <= |s|
    ensures BlankBetween(s, i, p)
    ensures p < |s| ==> !IsWhitespace(s[p])
    decreases |s| - i
  {
    if i < |s| && IsWhitespace(s[i]) then LeadingEnd(s, i + 1) else i
  }

  /** The index just past the last character of `s[lo..j]` that is not white space,
      or `lo` when there is none: where trimming the back of `s[lo..j]` stops. */
  function TrailingStart(s: string, lo: nat, j: nat): (q: nat)
    requires lo <= j <= |s|
    ensures lo <= q <= j
    ensures BlankBetween(s, q, j)
    ensures lo < q ==> !IsWhitespace(s[q - 1])
    decreases j
  {
    if lo < j && IsWhitespace(s[j - 1]) then TrailingStart(s, lo, j - 1) else j
  }

  /** `s.trim()`: the slice of `s` left once a blank prefix and a blank suffix are
      cut off, which neither starts nor ends with white space. */
  function Trim(s: string): (r: string)
    ensures r == [] <==> Blank(s)
    ensures r != [] ==> !IsWhitespace(r[0]) && !IsWhitespace(r[|r| - 1])
    ensures exists p, q :: 0 <= p <= q <= |s| && r == s[p..q] && BlankBetween(s, 0, p) && BlankBetween(s, q, |s|)
  {
    var p := LeadingEnd(s, 0);
    var q := TrailingStart(s, p, |s|);
    assert Blank(s) ==> p == |s|;
    s[p..q]
  }

  /** LeadingEnd stops at the first character that is not white space. */
  lemma {:induction false} LeadingEndAt(s: string, i: nat, p: nat)
    requires i <= p <= |s| && BlankBetween(s, i, p)
    requires p < |s| ==> !IsWhitespace(s[p])
    ensures LeadingEnd(s, i) == p
    decreases p - i
  {
    if i < p {
      LeadingEndAt(s, i + 1, p);
    }
  }

  /** TrailingStart stops at the last character that is not white space. */
  lemma {:induction false} TrailingStartAt(s: string, lo: nat, j: nat, q: nat)
    requires lo <= q <= j <= |s| && BlankBetween(s, q, j)
    requires lo < q ==> !IsWhitespace(s[q - 1])
    ensures TrailingStart(s, lo, j) == q
    decreases j - q
  {
    if q < j {
      TrailingStartAt(s, lo, j - 1, q);
    }
  }

  /** Trim's contract pins its result down: any slice of `s` that is cut from `s`
      between a blank prefix and a blank suffix and has no white space at either end
      is `Trim(s)`. */
  lemma TrimUnique(s: string, p: nat, q: nat)
    requires p <= q <= |s|
    requires BlankBetween(s, 0, p) && BlankBetween(s, q, |s|)
    requires p < q ==> !IsWhitespace(s[p]) && !IsWhitespace(s[q - 1])
    requires p == q ==> Blank(s)
    ensures s[p..q] == Trim(s)
  {
    if p < q {
      LeadingEndAt(s, 0, p);
      TrailingStartAt(s, p, |s|, q);
    } else {
      LeadingEndAt(s, 0, |s|);
      TrailingStartAt(s, |s|, |s|, |s|);
    }
  }

  /** Trimming twice is trimming once. */
  lemma TrimIdempotent(s: string)
    ensures Trim(Trim(s)) == Trim(s)
  {
    var r := Trim(s);
    if r != [] {
      TrimUnique(r, 0, |r|);
      assert r[0..|r|] == r;
    }
  }
}
