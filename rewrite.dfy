/** `re.sub` with a pattern that has no anchors and no look-behind, modelled
    once for every pattern: a scan from the left that, where the pattern
    matches at the current position, emits the replacement and resumes
    after the match, and elsewhere copies one character. */
module Rewrite {
  import opened Text

  /** A pattern together with its replacement: for a text and a position,
      the replacement text and the end of the match starting there, if one
      does. */
  type Matcher = (string, nat) -> Option<(string, nat)>

  /** The match at `i`, kept when it is non-empty and inside the text
      (every pattern modelled here matches at least one character). */
  function MatchAt(m: Matcher, s: string, i: nat): (r: Option<(string, nat)>)
    ensures r.Some? ==> i < r.value.1 <= |s|
    ensures r.Some? ==> r == m(s, i)
  {
    var r := m(s, i);
    if r.Some? && i < r.value.1 <= |s| then r else None
  }

  /** No match starts at a position from `lo` up to `hi`. */
  predicate NoMatch(m: Matcher, s: string, lo: nat, hi: nat) {
    forall p :: lo <= p < hi ==> m(s, p).None?
  }

  /** What `re.sub` makes of the text from position `i` on: where no match
      starts from there on, the rest of the text as it is. */
  function SubFrom(m: Matcher, s: string, i: nat): (out: string)
    requires i <= |s|
    ensures NoMatch(m, s, i, |s|) ==> out == s[i..]
    decreases |s| - i
  {
    if i == |s| then []
    else
      assert s[i..] == [s[i]] + s[i + 1..];
      match MatchAt(m, s, i)
      case Some((rep, e)) => rep + SubFrom(m, s, e)
      case None => [s[i]] + SubFrom(m, s, i + 1)
  }

  /** `re.sub(pattern, replacement, s)`: a text in which no match starts
      comes through unchanged. */
  function Sub(m: Matcher, s: string): (r: string)
    ensures NoMatch(m, s, 0, |s|) ==> r == s
  {
    assert s[0..] == s;
    SubFrom(m, s, 0)
  }

  /** Where no match starts, the text is copied. */
  lemma {:induction false} SubCopy(m: Matcher, s: string, i: nat, j: nat)
    requires i <= j <= |s| && NoMatch(m, s, i, j)
    ensures SubFrom(m, s, i) == s[i..j] + SubFrom(m, s, j)
    decreases j - i
  {
    if i < j {
      SubCopy(m, s, i + 1, j);
      SliceCons(s, i, j);
      ConcatAssociates([s[i]], s[i + 1..j], SubFrom(m, s, j));
    }
  }

  /** A match found `d` positions further on. */
  function Moved(r: Option<(string, nat)>, d: nat): Option<(string, nat)> {
    if r.Some? then Some((r.value.0, r.value.1 + d)) else None
  }

  /** Behind the prefix `a`, the pattern matches at position `j` of `b` as
      it does in `b` alone. */
  predicate LocalAt(m: Matcher, a: string, b: string, j: nat) {
    m(a + b, |a| + j) == Moved(m(b, j), |a|)
  }

  /** The pattern looks only at the text from the match on. */
  predicate Local(m: Matcher, a: string, b: string) {
    forall j :: 0 <= j < |b| ==> LocalAt(m, a, b, j)
  }

  /** Behind the prefix `a`, the scan finds at `|a| + k` the match it finds
      at `k` in `b` alone. */
  lemma MatchShift(m: Matcher, a: string, b: string, k: nat)
    requires k < |b| && LocalAt(m, a, b, k)
    ensures MatchAt(m, a + b, |a| + k) == Moved(MatchAt(m, b, k), |a|)
  {
  }

  /** Then what the scan makes of `b` does not depend on the prefix. */
  lemma {:induction false} SubShift(m: Matcher, a: string, b: string, k: nat)
    requires k <= |b| && Local(m, a, b)
    ensures SubFrom(m, a + b, |a| + k) == SubFrom(m, b, k)
    decreases |b| - k
  {
    if k < |b| {
      assert LocalAt(m, a, b, k);
      MatchShift(m, a, b, k);
      match MatchAt(m, b, k)
      case Some((rep, e)) =>
        SubShift(m, a, b, e);
        assert SubFrom(m, a + b, |a| + k) == rep + SubFrom(m, a + b, |a| + e);
      case None =>
        SubShift(m, a, b, k + 1);
        assert (a + b)[|a| + k] == b[k];
        assert SubFrom(m, a + b, |a| + k) == [b[k]] + SubFrom(m, a + b, |a| + k + 1);
    }
  }

  /** A prefix in which no match starts is copied. */
  lemma SubPrefix(m: Matcher, a: string, b: string)
    requires NoMatch(m, a + b, 0, |a|) && Local(m, a, b)
    ensures Sub(m, a + b) == a + Sub(m, b)
  {
    SubCopy(m, a + b, 0, |a|);
    assert (a + b)[0..|a|] == a;
    SubShift(m, a, b, 0);
  }

  /** A match covering the prefix `t` is replaced, and the scan goes on
      after it. */
  lemma SubMatch(m: Matcher, t: string, b: string, rep: string)
    requires t != [] && m(t + b, 0) == Some((rep, |t|)) && Local(m, t, b)
    ensures Sub(m, t + b) == rep + Sub(m, b)
  {
    SubShift(m, t, b, 0);
  }
}
