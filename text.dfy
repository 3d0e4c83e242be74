/**
  The .NET string operations the renaming pipeline relies on, over Dafny's `string`:
  whitespace trimming, character and substring search, prefix tests (ordinal and
  ordinal-ignore-case) and the decimal rendering of a non-negative integer.
 */
module Text {
  import opened Wrappers

  /** `Char.IsWhiteSpace`, which is the same set as the class `\s` of .NET regular expressions. */
  predicate IsWhiteSpace(c: char) {
    ('\t' <= c <= '\r') || c == ' ' || c == '\U{85}' || c == '\U{A0}' || c == '\U{1680}'
    || ('\U{2000}' <= c <= '\U{200A}') || c == '\U{2028}' || c == '\U{2029}'
    || c == '\U{202F}' || c == '\U{205F}' || c == '\U{3000}'
  }

  predicate AllWhiteSpace(s: string) {
    forall i :: 0 <= i < |s| ==> IsWhiteSpace(s[i])
  }

  /** The end of the run of whitespace that starts at `k` (the greedy `\s*` of a regular expression). */
  function SkipWhiteSpace(s: string, k: nat): (j: nat)
    requires k <= |s|
    ensures k <= j <= |s|
    ensures j == |s| || !IsWhiteSpace(s[j])
    decreases |s| - k
  {
    if k < |s| && IsWhiteSpace(s[k]) then SkipWhiteSpace(s, k + 1) else k
  }

  /** Everything SkipWhiteSpace steps over is whitespace. */
  lemma {:induction false} SkipWhiteSpaceSpans(s: string, k: nat)
    requires k <= |s|
    ensures AllWhiteSpace(s[k..SkipWhiteSpace(s, k)])
    decreases |s| - k
  {
    if k < |s| && IsWhiteSpace(s[k]) {
      SkipWhiteSpaceSpans(s, k + 1);
      assert s[k..SkipWhiteSpace(s, k)] == [s[k]] + s[k + 1..SkipWhiteSpace(s, k + 1)];
    }
  }

  /** A whitespace run ends at the first character that is not whitespace, or at the end. */
  lemma {:induction false} SkipWhiteSpaceStopsAt(s: string, k: nat, e: nat)
    requires k <= e <= |s| && (e == |s| || !IsWhiteSpace(s[e]))
    requires AllWhiteSpace(s[k..e])
    ensures SkipWhiteSpace(s, k) == e
    decreases e - k
  {
    if k < e {
      assert s[k] == s[k..e][0];
      assert s[k + 1..e] == s[k..e][1..];
      SkipWhiteSpaceStopsAt(s, k + 1, e);
    }
  }

  /** A whitespace run starting at `k` cannot pass a character that is not whitespace. */
  lemma {:induction false} SkipWhiteSpaceStopsBefore(s: string, k: nat, e: nat)
    requires k <= e < |s| && !IsWhiteSpace(s[e])
    ensures SkipWhiteSpace(s, k) <= e
    decreases e - k
  {
    if IsWhiteSpace(s[k]) {
      SkipWhiteSpaceStopsBefore(s, k + 1, e);
    }
  }

  /** The start of the run of whitespace that ends at `k`. */
  function BackOverWhiteSpace(s: string, k: nat): (j: nat)
    requires k <= |s|
    ensures j <= k
    ensures j == 0 || !IsWhiteSpace(s[j - 1])
    decreases k
  {
    if k > 0 && IsWhiteSpace(s[k - 1]) then BackOverWhiteSpace(s, k - 1) else k
  }

  /** Everything BackOverWhiteSpace steps over is whitespace. */
  lemma {:induction false} BackOverWhiteSpaceSpans(s: string, k: nat)
    requires k <= |s|
    ensures AllWhiteSpace(s[BackOverWhiteSpace(s, k)..k])
    decreases k
  {
    if k > 0 && IsWhiteSpace(s[k - 1]) {
      BackOverWhiteSpaceSpans(s, k - 1);
      assert s[BackOverWhiteSpace(s, k)..k] == s[BackOverWhiteSpace(s, k - 1)..k - 1] + [s[k - 1]];
    }
  }

  /** A whitespace run read backwards ends after the last character that is not whitespace, or at the start. */
  lemma {:induction false} BackOverWhiteSpaceStopsAt(s: string, k: nat, e: nat)
    requires e <= k <= |s| && (e == 0 || !IsWhiteSpace(s[e - 1]))
    requires AllWhiteSpace(s[e..k])
    ensures BackOverWhiteSpace(s, k) == e
    decreases k - e
  {
    if e < k {
      assert s[k - 1] == s[e..k][k - 1 - e];
      assert s[e..k - 1] == s[e..k][..k - 1 - e];
      BackOverWhiteSpaceStopsAt(s, k - 1, e);
    }
  }

  /** `String.TrimStart()`: drops the leading whitespace. */
  function TrimStart(s: string): (r: string)
    ensures |r| <= |s| && (r == [] || !IsWhiteSpace(r[0]))
  {
    s[SkipWhiteSpace(s, 0)..]
  }

  /** `String.TrimEnd()`: drops the trailing whitespace. */
  function TrimEnd(s: string): (r: string)
    ensures |r| <= |s| && (r == [] || !IsWhiteSpace(r[|r| - 1]))
  {
    s[..BackOverWhiteSpace(s, |s|)]
  }

  /** `String.Trim()`: drops whitespace at both ends. */
  function Trim(s: string): (r: string)
    ensures |r| <= |s|
    ensures r == [] || (!IsWhiteSpace(r[0]) && !IsWhiteSpace(r[|r| - 1]))
  {
    TrimEnd(TrimStart(s))
  }

  /** TrimStart removes a leading run of whitespace and nothing else. */
  lemma TrimStartDropsWhiteSpace(s: string)
    ensures var i := |s| - |TrimStart(s)|; TrimStart(s) == s[i..] && AllWhiteSpace(s[..i])
  {
    SkipWhiteSpaceSpans(s, 0);
  }

  /** TrimEnd removes a trailing run of whitespace and nothing else. */
  lemma TrimEndDropsWhiteSpace(s: string)
    ensures TrimEnd(s) == s[..|TrimEnd(s)|] && AllWhiteSpace(s[|TrimEnd(s)|..])
  {
    BackOverWhiteSpaceSpans(s, |s|);
  }

  /** Trimming gives the empty string exactly when the text is all whitespace. */
  lemma TrimEmptyIffAllWhiteSpace(s: string)
    ensures Trim(s) == [] <==> AllWhiteSpace(s)
  {
    var i := SkipWhiteSpace(s, 0);
    SkipWhiteSpaceSpans(s, 0);
    if AllWhiteSpace(s) {
      SkipWhiteSpaceStopsAt(s, 0, |s|);
    } else {
      assert i < |s|;
      var u := s[i..];
      assert u[0] == s[i];
      BackOverWhiteSpaceSpans(u, |u|);
    }
  }

  /** A string that neither starts nor ends with whitespace is its own trim. */
  lemma TrimUnchanged(s: string)
    requires s == [] || (!IsWhiteSpace(s[0]) && !IsWhiteSpace(s[|s| - 1]))
    ensures TrimStart(s) == s && TrimEnd(s) == s && Trim(s) == s
  {
    assert s[0..] == s;
    assert s[..|s|] == s;
  }

  /** Trimming adds no character. */
  lemma TrimKeepsOnlyItsInput(s: string, c: char)
    ensures c in TrimStart(s) ==> c in s
    ensures c in Trim(s) ==> c in s
  {
  }

  /** Concatenation regrouped; stated apart so that no trimming is unfolded while proving it. */
  lemma AppendAssoc<T>(a: seq<T>, b: seq<T>, c: seq<T>)
    ensures a + b + c == a + (b + c)
  {
  }

  /** Whitespace in front of a text that starts with a non-whitespace character is all `TrimStart` removes. */
  lemma TrimStartConcat(w: string, x: string)
    requires x != [] && !IsWhiteSpace(x[0])
    ensures TrimStart(w + x) == TrimStart(w) + x
  {
    var p := SkipWhiteSpace(w, 0);
    SkipWhiteSpaceSpans(w, 0);
    assert (w + x)[p] == if p < |w| then w[p] else x[0];
    assert (w + x)[0..p] == w[0..p];
    SkipWhiteSpaceStopsAt(w + x, 0, p);
    assert (w + x)[p..] == w[p..] + x;
  }

  /** Whitespace after a text that ends with a non-whitespace character is all `TrimEnd` removes. */
  lemma TrimEndConcat(x: string, w: string)
    requires x != [] && !IsWhiteSpace(x[|x| - 1])
    ensures TrimEnd(x + w) == x + TrimEnd(w)
  {
    var q := BackOverWhiteSpace(w, |w|);
    BackOverWhiteSpaceSpans(w, |w|);
    assert (x + w)[|x| + q - 1] == if q > 0 then w[q - 1] else x[|x| - 1];
    assert (x + w)[|x| + q..|x + w|] == w[q..|w|];
    BackOverWhiteSpaceStopsAt(x + w, |x + w|, |x| + q);
    assert (x + w)[..|x| + q] == x + w[..q];
  }

  /** Trimming a text between two runs of whitespace gives the text, when its ends are not whitespace. */
  lemma TrimAroundWhiteSpace(w1: string, x: string, w2: string)
    requires AllWhiteSpace(w1) && AllWhiteSpace(w2)
    requires x != [] && !IsWhiteSpace(x[0]) && !IsWhiteSpace(x[|x| - 1])
    ensures Trim(w1 + x + w2) == x
  {
    AppendAssoc(w1, x, w2);
    TrimStartConcat(w1, x + w2);
    assert TrimStart(w1) == [] by {
      TrimStartDropsWhiteSpace(w1);
    }
    assert TrimStart(w1 + x + w2) == x + w2;
    TrimEndConcat(x, w2);
    assert TrimEnd(w2) == [] by {
      TrimEndDropsWhiteSpace(w2);
    }
  }

  /** `String.IndexOf(char)`: the first position of `c`, or None when `c` does not occur. */
  function IndexOf(s: string, c: char): (r: Option<nat>)
    ensures r.None? <==> c !in s
    ensures r.Some? ==> r.value < |s| && s[r.value] == c && c !in s[..r.value]
    decreases |s|
  {
    if s == [] then None
    else if s[0] == c then Some(0)
    else
      match IndexOf(s[1..], c)
      case None => None
      case Some(k) =>
        assert s[..k + 1] == [s[0]] + s[1..][..k];
        Some(k + 1)
  }

  /** `String.LastIndexOf(char)`: the last position of `c`, or None when `c` does not occur. */
  function LastIndexOf(s: string, c: char): (r: Option<nat>)
    ensures r.None? <==> c !in s
    ensures r.Some? ==> r.value < |s| && s[r.value] == c && c !in s[r.value + 1..]
    decreases |s|
  {
    if s == [] then None
    else if s[|s| - 1] == c then Some(|s| - 1)
    else
      match LastIndexOf(s[..|s| - 1], c)
      case None =>
        assert s == s[..|s| - 1] + [s[|s| - 1]];
        None
      case Some(k) =>
        assert s[k + 1..] == s[..|s| - 1][k + 1..] + [s[|s| - 1]];
        Some(k)
  }

  /** `pat` occurs in `s` starting at position `k`. */
  predicate OccursAt(s: string, k: nat, pat: string) {
    k + |pat| <= |s| && s[k..k + |pat|] == pat
  }

  /** The last position at or below `k` where `pat` occurs. */
  function LastOccurrenceFrom(s: string, pat: string, k: nat): (r: Option<nat>)
    ensures r.Some? ==> r.value <= k && OccursAt(s, r.value, pat)
    decreases k
  {
    if OccursAt(s, k, pat) then Some(k)
    else if k == 0 then None
    else LastOccurrenceFrom(s, pat, k - 1)
  }

  /** LastOccurrenceFrom finds the last occurrence at or below `k`, and fails only when there is none. */
  lemma {:induction false} LastOccurrenceFromIsLast(s: string, pat: string, k: nat)
    ensures LastOccurrenceFrom(s, pat, k).Some? ==>
      forall m :: LastOccurrenceFrom(s, pat, k).value < m <= k ==> !OccursAt(s, m, pat)
    ensures LastOccurrenceFrom(s, pat, k).None? ==> forall m :: 0 <= m <= k ==> !OccursAt(s, m, pat)
    decreases k
  {
    if !OccursAt(s, k, pat) && k > 0 {
      LastOccurrenceFromIsLast(s, pat, k - 1);
    }
  }

  /** `String.LastIndexOf(string)` for a non-empty pattern: the last position where `pat` occurs. */
  function LastIndexOfString(s: string, pat: string): (r: Option<nat>)
    requires pat != []
    ensures r.Some? ==> OccursAt(s, r.value, pat)
  {
    if |s| < |pat| then None else LastOccurrenceFrom(s, pat, |s| - |pat|)
  }

  /** LastIndexOfString finds the last occurrence, and fails only when `pat` occurs nowhere. */
  lemma LastIndexOfStringIsLast(s: string, pat: string)
    requires pat != []
    ensures LastIndexOfString(s, pat).Some? ==> forall m :: LastIndexOfString(s, pat).value < m ==> !OccursAt(s, m, pat)
    ensures LastIndexOfString(s, pat).None? ==> forall m :: 0 <= m ==> !OccursAt(s, m, pat)
  {
    if |s| >= |pat| {
      LastOccurrenceFromIsLast(s, pat, |s| - |pat|);
    }
  }

  /** `String.StartsWith(string)` compared ordinally. */
  predicate StartsWith(s: string, p: string) {
    |p| <= |s| && s[..|p|] == p
  }

  /** `String.EndsWith(string)` compared ordinally. */
  predicate EndsWith(s: string, p: string) {
    |p| <= |s| && s[|s| - |p|..] == p
  }

  /** `Char.ToUpperInvariant`, restricted to the ASCII letters. */
  function ToUpperInvariant(c: char): char {
    if 'a' <= c <= 'z' then (c as int - 32) as char else c
  }

  /** `String.StartsWith(p, StringComparison.OrdinalIgnoreCase)`. */
  predicate StartsWithIgnoreCase(s: string, p: string) {
    |p| <= |s| && forall k :: 0 <= k < |p| ==> ToUpperInvariant(s[k]) == ToUpperInvariant(p[k])
  }

  /** `String.Equals(t, StringComparison.OrdinalIgnoreCase)`. */
  predicate EqualsIgnoreCase(s: string, t: string) {
    |s| == |t| && StartsWithIgnoreCase(s, t)
  }

  /** Prepending a prefix makes a string start with it, whatever the letter case. */
  lemma PrefixedStartsWith(p: string, s: string)
    ensures StartsWithIgnoreCase(p + s, p)
  {
    assert forall k :: 0 <= k < |p| ==> (p + s)[k] == p[k];
  }

  /** The decimal digits of `n`, as `Int32.ToString()` writes a non-negative value. */
  function DecimalString(n: nat): (r: string)
    ensures r != [] && forall i :: 0 <= i < |r| ==> '0' <= r[i] <= '9'
    ensures r[0] == '0' ==> n == 0
    decreases n
  {
    if n < 10 then [('0' as int + n) as char]
    else DecimalString(n / 10) + [('0' as int + n % 10) as char]
  }

  /** The value of a string of decimal digits. */
  function ParseDecimal(s: string): nat
    decreases |s|
  {
    if s == [] then 0
    else
      var d := s[|s| - 1] as int - '0' as int;
      ParseDecimal(s[..|s| - 1]) * 10 + (if 0 <= d <= 9 then d else 0)
  }

  /** Reading back the digits written for `n` gives `n`. */
  lemma {:induction false} DecimalRoundTrip(n: nat)
    ensures ParseDecimal(DecimalString(n)) == n
    decreases n
  {
    var s := DecimalString(n);
    if n < 10 {
      assert s[..|s| - 1] == [];
    } else {
      DecimalRoundTrip(n / 10);
      assert s[..|s| - 1] == DecimalString(n / 10);
    }
  }
}
