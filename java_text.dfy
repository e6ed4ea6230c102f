/**
 * The part of java.lang.String that the course service relies on: `trim()`,
 * which removes every leading and trailing character whose code is at most
 * U+0020 (the space and all control characters below it).
 */
module JavaText {

  /** A character that `trim()` removes from either end. */
  predicate Trimmable(ch: char) {
    ch <= ' '
  }

  /** Every character of `s` at an index in [lo, hi) is one that `trim()` removes. */
  predicate BlankBetween(s: string, lo: int, hi: int)
    requires 0 <= lo && hi <= |s|
  {
    forall i :: lo <= i < hi ==> Trimmable(s[i])
  }

  /** Every character of `s` is one that `trim()` removes. */
  predicate IsBlank(s: string) {
    BlankBetween(s, 0, |s|)
  }

  /** `s` without its leading trimmable characters. */
  function TrimStart(s: string): (r: string)
    ensures |r| <= |s| && r == s[|s| - |r|..]
    ensures BlankBetween(s, 0, |s| - |r|)
    ensures r != [] ==> !Trimmable(r[0])
  {
    if s != [] && Trimmable(s[0]) then
      var r := TrimStart(s[1..]);
      assert forall i :: 1 <= i < |s| - |r| ==> s[i] == s[1..][i - 1];
      r
    else
      s
  }

  /** `s` without its trailing trimmable characters. */
  function TrimEnd(s: string): (r: string)
    ensures |r| <= |s| && r == s[..|r|]
    ensures BlankBetween(s, |r|, |s|)
    ensures r != [] ==> !Trimmable(r[|r| - 1])
  {
    if s != [] && Trimmable(s[|s| - 1]) then
      var r := TrimEnd(s[..|s| - 1]);
      assert forall i :: |r| <= i < |s| - 1 ==> s[i] == s[..|s| - 1][i];
      r
    else
      s
  }

  /**
   * Java's `s.trim()`: the slice of `s` left after both ends are stripped,
   * with only trimmable characters before and after it.
   */
  function Trim(s: string): (r: string)
    ensures exists k :: 0 <= k <= |s| - |r| && r == s[k..k + |r|] && BlankBetween(s, 0, k) && BlankBetween(s, k + |r|, |s|)
    ensures r != [] ==> !Trimmable(r[0]) && !Trimmable(r[|r| - 1])
  {
    var a := TrimStart(s);
    var r := TrimEnd(a);
    var k := |s| - |a|;  // where the leading strip ends
    assert r == s[k..k + |r|];
    assert forall j :: k + |r| <= j < |s| ==> s[j] == a[j - k];
    assert BlankBetween(s, k + |r|, |s|);
    r
  }

  /** `s.trim().isEmpty()` holds exactly when every character of `s` is trimmable. */
  lemma TrimIsEmptyIffBlank(s: string)
    ensures Trim(s) == [] <==> IsBlank(s)
  {
    var a := TrimStart(s);
    if Trim(s) == [] {
      // TrimEnd(a) is empty, so a is blank; yet a cannot start with a trimmable character
      assert a == [];
    } else {
      assert a[0] == s[|s| - |a|];
    }
  }
}
