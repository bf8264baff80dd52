/** Metric-name sanitising (main.go, `metricNameRegex` and `SanitizeMetricName`).
    The Go code calls `ReplaceAllString` with the RE2 pattern `_*[^0-9A-Za-z_]+_*`
    and the replacement "_". Strings are sequences of runes (Dafny `char`s).

    The regular expression is modelled by an explicit left-to-right scanner:
    `MatchEnd(s, i)` is where the match that leftmost-first, greedy matching
    picks at position `i` ends (`i` itself when no match starts there), and
    `Sanitize` replaces each such match by "_" and copies every other rune. */
module MetricName {

  /** The character class `[0-9A-Za-z_]`. */
  predicate IsNameChar(c: char) {
    ('0' <= c <= '9') || ('A' <= c <= 'Z') || ('a' <= c <= 'z') || c == '_'
  }

  /** A letter or digit: a rune that no match can contain. */
  predicate IsAlnum(c: char) {
    IsNameChar(c) && c != '_'
  }

  predicate AllNameChars(s: string) {
    forall i :: 0 <= i < |s| ==> IsNameChar(s[i])
  }

  /** End of the maximal run of '_' starting at `i` (what a greedy `_*` consumes). */
  function UnderscoreEnd(s: string, i: nat): (j: nat)
    requires i <= |s|
    ensures i <= j <= |s|
    ensures forall k :: i <= k < j ==> s[k] == '_'
    ensures j < |s| ==> s[j] != '_'
    decreases |s| - i
  {
    if i < |s| && s[i] == '_' then UnderscoreEnd(s, i + 1) else i
  }

  /** End of the maximal run of runes outside `[0-9A-Za-z_]` starting at `i`
      (what a greedy `[^0-9A-Za-z_]+` consumes, when the run is not empty). */
  function InvalidEnd(s: string, i: nat): (j: nat)
    requires i <= |s|
    ensures i <= j <= |s|
    ensures forall k :: i <= k < j ==> !IsNameChar(s[k])
    ensures j < |s| ==> IsNameChar(s[j])
    decreases |s| - i
  {
    if i < |s| && !IsNameChar(s[i]) then InvalidEnd(s, i + 1) else i
  }

  /** The match at position `i`: the underscores there, then the invalid runes,
      then the underscores after them; empty (`i`) when no invalid rune follows
      the leading underscores, since `+` needs at least one. */
  function MatchEnd(s: string, i: nat): (j: nat)
    requires i <= |s|
    ensures i <= j <= |s|
  {
    var a := UnderscoreEnd(s, i);
    var b := InvalidEnd(s, a);
    if b == a then i else UnderscoreEnd(s, b)
  }

  /** `s[i..c]` is in the language of `_*[^0-9A-Za-z_]+_*`, read with `_*` taking
      `s[i..a]`, `[^0-9A-Za-z_]+` taking `s[a..b]` and the final `_*` taking `s[b..c]`. */
  predicate IsMatchAt(s: string, i: int, a: int, b: int, c: int) {
    0 <= i <= a < b <= c <= |s| &&
    (forall k :: i <= k < a ==> s[k] == '_') &&
    (forall k :: a <= k < b ==> !IsNameChar(s[k])) &&
    (forall k :: b <= k < c ==> s[k] == '_')
  }

  /** When `MatchEnd` reports a match, `s[i..MatchEnd(s, i)]` is in the pattern's language. */
  lemma MatchEndSound(s: string, i: nat)
    requires i <= |s| && MatchEnd(s, i) > i
    ensures IsMatchAt(s, i, UnderscoreEnd(s, i), InvalidEnd(s, UnderscoreEnd(s, i)), MatchEnd(s, i))
  {
  }

  /** Every way of matching the pattern at position `i` gives the leading `_*`
      exactly the runes `MatchEnd`'s split gives it, the `+` no more than it, and
      the last `_*` no more when the `+` ties: the split `MatchEnd` picks is the
      one leftmost-first greedy matching prefers, and no match at `i` is longer.
      In particular, no match starts at `i` when `MatchEnd(s, i) == i`. */
  lemma MatchEndGreedy(s: string, i: nat, a: int, b: int, c: int)
    requires IsMatchAt(s, i, a, b, c)
    ensures MatchEnd(s, i) > i
    ensures a == UnderscoreEnd(s, i)
    ensures b <= InvalidEnd(s, a)
    ensures c <= MatchEnd(s, i)
  {
    var u := UnderscoreEnd(s, i);
    assert !IsNameChar(s[a]);
    assert a == u;
    var v := InvalidEnd(s, u);
    assert b <= v;
  }

  /** Where no match starts, the rune there is in `[0-9A-Za-z_]`. */
  lemma NoMatchAtNameChar(s: string, i: nat)
    requires i < |s| && MatchEnd(s, i) == i
    ensures IsNameChar(s[i])
  {
  }

  /** `ReplaceAllString(s[i..], "_")` as a scan from position `i`: a match is
      replaced by one '_' and the scan resumes after it; otherwise the rune is
      copied. A match is never empty, so the scan always advances. The result
      holds only `[0-9A-Za-z_]` and is never longer than `s[i..]`. */
  function SanitizeFrom(s: string, i: nat): (r: string)
    requires i <= |s|
    ensures AllNameChars(r)
    ensures |r| <= |s| - i
    ensures r == [] <==> i == |s|
    decreases |s| - i
  {
    if i == |s| then []
    else
      var j := MatchEnd(s, i);
      if j > i then "_" + SanitizeFrom(s, j)
      else
        NoMatchAtNameChar(s, i);
        [s[i]] + SanitizeFrom(s, i + 1)
  }

  /** `SanitizeMetricName` (main.go:47-49). */
  function Sanitize(s: string): (r: string)
    ensures AllNameChars(r)
    ensures |r| <= |s|
    ensures r == [] <==> s == []
  {
    SanitizeFrom(s, 0)
  }

  lemma {:induction false} SanitizeFromKeepsValid(s: string, i: nat)
    requires i <= |s| && AllNameChars(s)
    ensures SanitizeFrom(s, i) == s[i..]
    decreases |s| - i
  {
    if i < |s| {
      assert InvalidEnd(s, UnderscoreEnd(s, i)) == UnderscoreEnd(s, i);
      SanitizeFromKeepsValid(s, i + 1);
      assert s[i..] == [s[i]] + s[i + 1..];
    }
  }

  /** A name made only of `[0-9A-Za-z_]` contains no match and is returned unchanged. */
  lemma SanitizeKeepsValid(s: string)
    requires AllNameChars(s)
    ensures Sanitize(s) == s
  {
    SanitizeFromKeepsValid(s, 0);
  }

  /** Sanitising twice is sanitising once. */
  lemma SanitizeIdempotent(s: string)
    ensures Sanitize(Sanitize(s)) == Sanitize(s)
  {
    SanitizeKeepsValid(Sanitize(s));
  }

  /** The letters and digits of `s`, in order. */
  function Alnums(s: string): string {
    if s == [] then []
    else if IsAlnum(s[0]) then [s[0]] + Alnums(s[1..])
    else Alnums(s[1..])
  }

  lemma {:induction false} AlnumsSkip(s: string, i: nat, j: nat)
    requires i <= j <= |s|
    requires forall k :: i <= k < j ==> !IsAlnum(s[k])
    ensures Alnums(s[i..]) == Alnums(s[j..])
    decreases j - i
  {
    if i < j {
      assert s[i..][0] == s[i];
      assert s[i..][1..] == s[i + 1..];
      AlnumsSkip(s, i + 1, j);
    }
  }

  lemma {:induction false} SanitizeFromKeepsAlnums(s: string, i: nat)
    requires i <= |s|
    ensures Alnums(SanitizeFrom(s, i)) == Alnums(s[i..])
    decreases |s| - i
  {
    if i < |s| {
      var j := MatchEnd(s, i);
      if j > i {
        var r := SanitizeFrom(s, j);
        assert ("_" + r)[1..] == r;
        MatchEndSound(s, i);
        AlnumsSkip(s, i, j);
        SanitizeFromKeepsAlnums(s, j);
      } else {
        var r := SanitizeFrom(s, i + 1);
        assert ([s[i]] + r)[0] == s[i];
        assert ([s[i]] + r)[1..] == r;
        assert s[i..][0] == s[i];
        assert s[i..][1..] == s[i + 1..];
        SanitizeFromKeepsAlnums(s, i + 1);
      }
    }
  }

  /** A match consists of underscores and invalid runes only, so sanitising
      keeps every letter and digit of the name, in order, and adds none. */
  lemma SanitizeKeepsAlnums(s: string)
    ensures Alnums(Sanitize(s)) == Alnums(s)
  {
    SanitizeFromKeepsAlnums(s, 0);
    assert s[0..] == s;
  }

  /** A maximal run of invalid runes, together with all the underscores on both
      sides of it, is replaced by a single '_', and the scan goes on after it. */
  lemma SanitizeCollapsesMatch(s: string, i: nat, a: int, b: int, c: int)
    requires IsMatchAt(s, i, a, b, c)
    requires b == |s| || IsNameChar(s[b])
    requires c == |s| || s[c] != '_'
    ensures SanitizeFrom(s, i) == "_" + SanitizeFrom(s, c)
  {
    MatchEndGreedy(s, i, a, b, c);
    assert InvalidEnd(s, a) == b;
    assert UnderscoreEnd(s, b) == c;
  }

  /** For example, `"a_-_b"` becomes `"a_b"`. */
  lemma SanitizeCollapsesRun()
    ensures Sanitize("a_-_b") == "a_b"
  {
    var s := "a_-_b";
    assert MatchEnd(s, 0) == 0;
    assert UnderscoreEnd(s, 1) == 2;
    assert InvalidEnd(s, 2) == 3;
    assert UnderscoreEnd(s, 3) == 4;
    assert MatchEnd(s, 1) == 4;
    assert MatchEnd(s, 4) == 4;
  }
}
