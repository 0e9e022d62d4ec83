/** Python's `str.strip()` without arguments, on `seq<char>`. */
module Text {

  /** The characters `str.isspace()` accepts: the ASCII whitespace, the four
      information separators U+001C..U+001F, and the Unicode spaces. */
  predicate IsSpace(c: char)
  {
    || c == ' ' || c == '\t' || c == '\n' || c == '\r' || c == '\U{B}' || c == '\U{C}'
    || ('\U{1C}' <= c <= '\U{1F}')
    || c == '\U{85}' || c == '\U{A0}' || c == '\U{1680}'
    || ('\U{2000}' <= c <= '\U{200A}')
    || c == '\U{2028}' || c == '\U{2029}' || c == '\U{202F}' || c == '\U{205F}' || c == '\U{3000}'
  }

  predicate AllSpace(s: string)
  {
    forall i :: 0 <= i < |s| ==> IsSpace(s[i])
  }

  /** `s` is `t` with only whitespace before and after it. */
  ghost predicate Padded(s: string, t: string)
  {
    exists a, b :: AllSpace(a) && AllSpace(b) && s == a + t + b
  }

  /** Neither end of `s` is whitespace: what `strip()` returns. */
  predicate Trimmed(s: string)
  {
    s == [] || (!IsSpace(s[0]) && !IsSpace(s[|s| - 1]))
  }

  /** The scan from the left: the first index at or after `i` that is not whitespace. */
  function SkipLeading(s: string, i: nat): (k: nat)
    requires i <= |s|
    decreases |s| - i
    ensures i <= k <= |s|
    ensures forall m :: i <= m < k ==> IsSpace(s[m])
    ensures k == |s| || !IsSpace(s[k])
  {
    if i < |s| && IsSpace(s[i]) then SkipLeading(s, i + 1) else i
  }

  /** The scan from the right, not passing `i`: the end of the kept part. */
  function SkipTrailing(s: string, i: nat, j: nat): (k: nat)
    requires i <= j <= |s|
    decreases j
    ensures i <= k <= j
    ensures forall m :: k <= m < j ==> IsSpace(s[m])
    ensures k == i || !IsSpace(s[k - 1])
  {
    if i < j && IsSpace(s[j - 1]) then SkipTrailing(s, i, j - 1) else j
  }

  /** `strip()`: the part of `s` between the two scans. */
  function Strip(s: string): (r: string)
    ensures Trimmed(r)
  {
    var i := SkipLeading(s, 0);
    s[i..SkipTrailing(s, i, |s|)]
  }

  /** Splits `s` into the whitespace `strip()` removes and what it keeps. */
  lemma StripDecompose(s: string) returns (a: string, b: string)
    ensures AllSpace(a) && AllSpace(b) && s == a + Strip(s) + b
  {
    var i := SkipLeading(s, 0);
    var j := SkipTrailing(s, i, |s|);
    a, b := s[..i], s[j..];
    assert s == s[..i] + s[i..j] + s[j..];
  }

  /** A left scan that crosses only whitespace and stops at `k` ends at `k`. */
  lemma {:induction false} SkipLeadingStops(s: string, i: nat, k: nat)
    requires i <= k <= |s|
    requires forall m :: i <= m < k ==> IsSpace(s[m])
    requires k == |s| || !IsSpace(s[k])
    ensures SkipLeading(s, i) == k
    decreases k - i
  {
    if i < k {
      SkipLeadingStops(s, i + 1, k);
    }
  }

  /** A right scan that crosses only whitespace and stops at `k` ends at `k`. */
  lemma {:induction false} SkipTrailingStops(s: string, i: nat, j: nat, k: nat)
    requires i <= k <= j <= |s|
    requires forall m :: k <= m < j ==> IsSpace(s[m])
    requires k == i || !IsSpace(s[k - 1])
    ensures SkipTrailing(s, i, j) == k
    decreases j
  {
    if k < j {
      SkipTrailingStops(s, i, j - 1, k);
    }
  }

  /** The decomposition of StripDecompose is unique: stripping whitespace
      padding off a trimmed string gives that string back. */
  lemma {:induction false} StripPadded(a: string, t: string, b: string)
    requires AllSpace(a) && AllSpace(b) && Trimmed(t)
    ensures Strip(a + t + b) == t
  {
    if t == [] {
      StripBlank(a, b);
    } else {
      var s := a + t + b;
      LeadingPadding(a, t, b);
      SkipLeadingStops(s, 0, |a|);
      TrailingPadding(a, t, b);
      SkipTrailingStops(s, |a|, |s|, |a| + |t|);
      assert s[|a|..|a| + |t|] == t;
    }
  }

  /** Whitespace alone strips to the empty string. */
  lemma {:induction false} StripBlank(a: string, b: string)
    requires AllSpace(a) && AllSpace(b)
    ensures Strip(a + [] + b) == []
  {
    var s := a + [] + b;
    forall m | 0 <= m < |s| ensures IsSpace(s[m]) {
      if m < |a| { assert s[m] == a[m]; } else { assert s[m] == b[m - |a|]; }
    }
    SkipLeadingStops(s, 0, |s|);
  }

  lemma LeadingPadding(a: string, t: string, b: string)
    requires AllSpace(a) && Trimmed(t) && t != []
    ensures forall m :: 0 <= m < |a| ==> IsSpace((a + t + b)[m])
    ensures !IsSpace((a + t + b)[|a|])
  {
    var s := a + t + b;
    forall m | 0 <= m < |a| ensures IsSpace(s[m]) { assert s[m] == a[m]; }
    assert s[|a|] == t[0];
  }

  lemma TrailingPadding(a: string, t: string, b: string)
    requires AllSpace(b) && Trimmed(t) && t != []
    ensures forall m :: |a| + |t| <= m < |a + t + b| ==> IsSpace((a + t + b)[m])
    ensures !IsSpace((a + t + b)[|a| + |t| - 1])
  {
    var s := a + t + b;
    forall m | |a| + |t| <= m < |s| ensures IsSpace(s[m]) { assert s[m] == b[m - |a| - |t|]; }
    assert s[|a| + |t| - 1] == t[|t| - 1];
  }

  /** `strip()` gives `t` exactly when `t` is trimmed and `s` is `t` padded
      with whitespace. */
  lemma StripIff(s: string, t: string)
    ensures Strip(s) == t <==> Trimmed(t) && Padded(s, t)
  {
    if Strip(s) == t {
      var a, b := StripDecompose(s);
      assert AllSpace(a) && AllSpace(b) && s == a + t + b;
    }
    if Trimmed(t) && Padded(s, t) {
      var a, b :| AllSpace(a) && AllSpace(b) && s == a + t + b;
      StripPadded(a, t, b);
    }
  }

  lemma {:induction false} StripIdempotent(s: string)
    ensures Strip(Strip(s)) == Strip(s)
  {
    var t := Strip(s);
    assert "" + t + "" == t;
    StripPadded("", t, "");
  }
}
