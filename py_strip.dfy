/**
 * Python's `str.strip()` called with no argument: it removes every leading
 * and trailing character for which `str.isspace()` holds.
 */
module PyStrip {

  /**
   * The code points for which Python's `str.isspace()` holds: those whose
   * Unicode bidirectional class is WS, B or S, or whose general category is Zs.
   */
  predicate IsSpace(c: char)
  {
    var n := c as int;
    || 0x09 <= n <= 0x0D
    || 0x1C <= n <= 0x20
    || n == 0x85 || n == 0xA0 || n == 0x1680
    || 0x2000 <= n <= 0x200A
    || n == 0x2028 || n == 0x2029 || n == 0x202F || n == 0x205F || n == 0x3000
  }

  predicate AllSpace(s: string)
  {
    forall i :: 0 <= i < |s| ==> IsSpace(s[i])
  }

  /** Neither end of `s` is whitespace. */
  predicate Trimmed(s: string)
  {
    s == [] || (!IsSpace(s[0]) && !IsSpace(s[|s| - 1]))
  }

  /** The scan from the left: the first index at or after `i` that is not whitespace, or `|s|`. */
  function SkipLeading(s: string, i: nat): (k: nat)
    requires i <= |s|
    ensures i <= k <= |s|
    ensures forall m :: i <= m < k ==> IsSpace(s[m])
    ensures k == |s| || !IsSpace(s[k])
    decreases |s| - i
  {
    if i < |s| && IsSpace(s[i]) then SkipLeading(s, i + 1) else i
  }

  /** The scan from the right, which stops at `lo`: the end of the last character in `s[lo..j]` that is not whitespace, or `lo`. */
  function SkipTrailing(s: string, lo: nat, j: nat): (k: nat)
    requires lo <= j <= |s|
    ensures lo <= k <= j
    ensures forall m :: k <= m < j ==> IsSpace(s[m])
    ensures k == lo || !IsSpace(s[k - 1])
    decreases j
  {
    if j > lo && IsSpace(s[j - 1]) then SkipTrailing(s, lo, j - 1) else j
  }

  /**
   * `s.strip()`: the piece of `s` that starts where the left scan stops, with
   * whitespace only around it and none at its ends.
   */
  function Strip(s: string): (r: string)
    ensures Trimmed(r)
    ensures var i := SkipLeading(s, 0);
      && i + |r| <= |s|
      && s[i..i + |r|] == r
      && (forall m :: 0 <= m < i ==> IsSpace(s[m]))
      && (forall m :: i + |r| <= m < |s| ==> IsSpace(s[m]))
  {
    var i := SkipLeading(s, 0);
    var j := SkipTrailing(s, i, |s|);
    assert s[i..i + (j - i)] == s[i..j];
    s[i..j]
  }

  /** A string framed by whitespace strips to the frame's contents, whatever the frame. */
  lemma StripUnique(lead: string, mid: string, trail: string)
    requires AllSpace(lead) && AllSpace(trail) && Trimmed(mid)
    ensures Strip(lead + mid + trail) == mid
  {
    var s := lead + mid + trail;
    var i := SkipLeading(s, 0);
    assert forall m :: 0 <= m < |lead| ==> s[m] == lead[m];
    assert forall m :: |lead| + |mid| <= m < |s| ==> s[m] == trail[m - |lead| - |mid|];
    if mid == [] {
      assert AllSpace(s);
      assert i == |s|;
    } else {
      assert s[|lead|] == mid[0];
      assert i == |lead|;
      var j := SkipTrailing(s, i, |s|);
      assert s[|lead| + |mid| - 1] == mid[|mid| - 1];
      assert j == |lead| + |mid|;
      assert s[i..j] == mid;
    }
  }

  lemma StripIdempotent(s: string)
    ensures Strip(Strip(s)) == Strip(s)
  {
    var r := Strip(s);
    assert [] + r + [] == r;
    StripUnique([], r, []);
  }

  /** Stripping leaves nothing exactly when the string is all whitespace. */
  lemma StripEmpty(s: string)
    ensures Strip(s) == [] <==> AllSpace(s)
  {
    if AllSpace(s) {
      assert s + [] + [] == s;
      StripUnique(s, [], []);
    }
  }
}
