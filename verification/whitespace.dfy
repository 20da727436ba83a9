/** Whitespace trimming. The authoring page trims with JavaScript's
    `String.prototype.trim`, the game page with PHP's `trim`; the two strip
    different character sets, so both are modelled. */
module Whitespace {

  /** Which runtime's notion of whitespace a trim uses. */
  datatype Flavour = Php | JavaScript

  /** PHP `trim` with its default character list: space, tab, line feed,
      carriage return, NUL and vertical tab. */
  predicate IsPhpSpace(c: char) {
    c == ' ' || c == '\t' || c == '\n' || c == '\r' || c == '\0' || c == '\U{000B}'
  }

  /** The WhiteSpace and LineTerminator code points of ECMA-262 (section 12.2
      and 12.3): tab, vertical tab, form feed, space, no-break space, the byte
      order mark, every Zs space separator, line feed, carriage return and the
      line and paragraph separators. */
  predicate IsJsSpace(c: char) {
    || c == '\t' || c == '\U{000B}' || c == '\U{000C}' || c == ' '
    || c == '\U{00A0}' || c == '\U{FEFF}' || c == '\U{1680}'
    || ('\U{2000}' <= c <= '\U{200A}')
    || c == '\U{202F}' || c == '\U{205F}' || c == '\U{3000}'
    || c == '\n' || c == '\r' || c == '\U{2028}' || c == '\U{2029}'
  }

  predicate IsSpace(f: Flavour, c: char) {
    match f
    case Php => IsPhpSpace(c)
    case JavaScript => IsJsSpace(c)
  }

  predicate AllSpace(f: Flavour, s: string) {
    forall i :: 0 <= i < |s| ==> IsSpace(f, s[i])
  }

  /** Neither the first nor the last character is one `f` strips. */
  predicate Tight(f: Flavour, s: string) {
    |s| == 0 || (!IsSpace(f, s[0]) && !IsSpace(f, s[|s| - 1]))
  }

  /** Scans forward from `k` past whitespace: every character passed over is
      whitespace, and the scan stops at the end or at a non-whitespace one. */
  function SkipForward(f: Flavour, s: string, k: nat): (n: nat)
    requires k <= |s|
    ensures k <= n <= |s|
    ensures forall i :: k <= i < n ==> IsSpace(f, s[i])
    ensures n < |s| ==> !IsSpace(f, s[n])
    decreases |s| - k
  {
    if k < |s| && IsSpace(f, s[k]) then SkipForward(f, s, k + 1) else k
  }

  /** Scans backward from `k`, not below `lo`, past whitespace: every
      character passed over is whitespace, and the scan stops at `lo` or just
      after a non-whitespace one. */
  function SkipBackward(f: Flavour, s: string, lo: nat, k: nat): (m: nat)
    requires lo <= k <= |s|
    ensures lo <= m <= k
    ensures forall i :: m <= i < k ==> IsSpace(f, s[i])
    ensures m > lo ==> !IsSpace(f, s[m - 1])
    decreases k - lo
  {
    if k > lo && IsSpace(f, s[k - 1]) then SkipBackward(f, s, lo, k - 1) else k
  }

  /** Both PHP `trim($s)` and JavaScript `s.trim()`, depending on `f`: skip
      whitespace from the front, then from the back down to where the front
      scan stopped. What is left neither starts nor ends with whitespace, and
      it is empty exactly when `s` is all whitespace. */
  function Trim(f: Flavour, s: string): (r: string)
    ensures |r| <= |s|
    ensures Tight(f, r)
    ensures |r| == 0 <==> AllSpace(f, s)
  {
    var a := SkipForward(f, s, 0);
    var b := SkipBackward(f, s, a, |s|);
    assert b > a ==> s[a..b][0] == s[a] && s[a..b][b - a - 1] == s[b - 1];
    s[a..b]
  }

  /** The forward scan stops at the first non-whitespace position. */
  lemma {:induction false} SkipForwardStops(f: Flavour, s: string, k: nat, n: nat)
    requires k <= n <= |s|
    requires forall i :: k <= i < n ==> IsSpace(f, s[i])
    requires n < |s| ==> !IsSpace(f, s[n])
    ensures SkipForward(f, s, k) == n
    decreases n - k
  {
    if k < n {
      SkipForwardStops(f, s, k + 1, n);
    }
  }

  /** The backward scan stops just after the last non-whitespace position. */
  lemma {:induction false} SkipBackwardStops(f: Flavour, s: string, lo: nat, k: nat, m: nat)
    requires lo <= m <= k <= |s|
    requires forall i :: m <= i < k ==> IsSpace(f, s[i])
    requires m > lo ==> !IsSpace(f, s[m - 1])
    ensures SkipBackward(f, s, lo, k) == m
    decreases k - m
  {
    if m < k {
      SkipBackwardStops(f, s, lo, k - 1, m);
    }
  }

  /** Trimming removes exactly the whitespace around a tight core: it is the
      unique way to split `s` into whitespace, a tight middle, whitespace. */
  lemma TrimUnique(f: Flavour, pre: string, core: string, post: string)
    requires AllSpace(f, pre) && AllSpace(f, post) && Tight(f, core)
    ensures Trim(f, pre + core + post) == core
  {
    var s := pre + core + post;
    var a, b := |pre|, |pre| + |core|;
    assert forall i :: 0 <= i < a ==> s[i] == pre[i];
    assert forall i :: b <= i < |s| ==> s[i] == post[i - b];
    if |core| == 0 {
      assert AllSpace(f, s);
    } else {
      assert s[a] == core[0] && s[b - 1] == core[|core| - 1];
      SkipForwardStops(f, s, 0, a);
      SkipBackwardStops(f, s, a, |s|, b);
      assert s[a..b] == core;
    }
  }

  /** A string that neither starts nor ends with whitespace is left alone. */
  lemma TrimTight(f: Flavour, s: string)
    requires Tight(f, s)
    ensures Trim(f, s) == s
  {
    assert "" + s + "" == s;
    TrimUnique(f, "", s, "");
  }

  /** Trimming twice is trimming once. */
  lemma TrimIdempotent(f: Flavour, s: string)
    ensures Trim(f, Trim(f, s)) == Trim(f, s)
  {
    TrimTight(f, Trim(f, s));
  }

  /** The only character PHP's `trim` strips that JavaScript's does not is NUL. */
  lemma PhpSpaceBeyondJs(c: char)
    ensures IsPhpSpace(c) && !IsJsSpace(c) <==> c == '\0'
  {
  }
}
