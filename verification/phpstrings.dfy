/** The two PHP string primitives the game page leans on: `empty()` applied to
    a string, and `strcasecmp`. */
module PhpStrings {

  /** PHP `empty($s)` for a string: true for "" and also for "0", which PHP
      counts as falsy. */
  predicate IsEmpty(s: string) {
    s == "" || s == "0"
  }

  /** ASCII case folding as `strcasecmp` does it (locale-independent since
      PHP 8.2): only 'A'..'Z' change. */
  function AsciiLower(c: char): char {
    if 'A' <= c <= 'Z' then (c as int + 32) as char else c
  }

  /** Reference meaning of "equal ignoring ASCII case": same length and the
      same character at every position once both are folded. */
  predicate EqualsIgnoreCase(a: string, b: string) {
    |a| == |b| && forall i :: 0 <= i < |a| ==> AsciiLower(a[i]) == AsciiLower(b[i])
  }

  /** PHP 8.2 `strcasecmp`: compares folded characters left to right; when one
      string is a prefix of the other the shorter one is smaller. The result is
      normalised to -1, 0 or 1, and it is 0 exactly when the strings are equal
      ignoring ASCII case. Comparing code points gives the same order as
      comparing their UTF-8 bytes. */
  function Strcasecmp(a: string, b: string): (r: int)
    ensures -1 <= r <= 1
    ensures r == 0 <==> EqualsIgnoreCase(a, b)
  {
    if |a| == 0 && |b| == 0 then 0
    else if |a| == 0 then -1
    else if |b| == 0 then 1
    else if AsciiLower(a[0]) < AsciiLower(b[0]) then -1
    else if AsciiLower(a[0]) > AsciiLower(b[0]) then 1
    else
      assert EqualsIgnoreCase(a, b) <==> EqualsIgnoreCase(a[1..], b[1..]) by {
        if EqualsIgnoreCase(a[1..], b[1..]) {
          assert forall i :: 1 <= i < |a| ==> a[i] == a[1..][i - 1] && b[i] == b[1..][i - 1];
        }
      }
      Strcasecmp(a[1..], b[1..])
  }

  /** Swapping the arguments of `strcasecmp` negates the result. */
  lemma {:induction false} StrcasecmpAntisymmetric(a: string, b: string)
    ensures Strcasecmp(a, b) == -Strcasecmp(b, a)
  {
    if |a| > 0 && |b| > 0 && AsciiLower(a[0]) == AsciiLower(b[0]) {
      StrcasecmpAntisymmetric(a[1..], b[1..]);
    }
  }

  /** The only string equal to "0" ignoring ASCII case is "0" itself. */
  lemma OnlyZeroMatchesZero(s: string)
    ensures EqualsIgnoreCase(s, "0") ==> s == "0"
  {
    if EqualsIgnoreCase(s, "0") {
      assert AsciiLower(s[0]) == '0';
      assert s == [s[0]];
    }
  }
}
