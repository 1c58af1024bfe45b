/**
  Python's `str.strip()` with no argument: remove every leading and trailing
  character for which `str.isspace()` holds.  The shape follows CPython's
  implementation: find the first non-space index from the left, then walk back
  from the right end without passing that index.
 */
module PyStrings {

  /** `str.isspace()` for one code point: the Unicode characters of category Zs
      or of bidirectional class WS, B or S. */
  predicate IsSpace(c: char) {
    var n := c as int;
    || (0x09 <= n <= 0x0D)       // \t \n \v \f \r
    || (0x1C <= n <= 0x1F)       // file, group, record and unit separators
    || n == 0x20                 // space
    || n == 0x85                 // next line
    || n == 0xA0                 // no-break space
    || n == 0x1680               // ogham space mark
    || (0x2000 <= n <= 0x200A)   // en quad .. hair space
    || n == 0x2028 || n == 0x2029 // line and paragraph separators
    || n == 0x202F               // narrow no-break space
    || n == 0x205F               // medium mathematical space
    || n == 0x3000               // ideographic space
  }

  predicate AllSpace(s: string) {
    forall k | 0 <= k < |s| :: IsSpace(s[k])
  }

  /** A string with no leading and no trailing whitespace. */
  predicate IsStripped(s: string) {
    s == [] || (!IsSpace(s[0]) && !IsSpace(s[|s| - 1]))
  }

  /** The first index at or after `i` that does not hold whitespace (or `|s|`). */
  function SkipLeft(s: string, i: nat): (r: nat)
    requires i <= |s|
    ensures i <= r <= |s|
    ensures forall k | i <= k < r :: IsSpace(s[k])
    ensures r == |s| || !IsSpace(s[r])
    decreases |s| - i
  {
    if i < |s| && IsSpace(s[i]) then SkipLeft(s, i + 1) else i
  }

  /** Walking back from `j`, the end of the last non-whitespace character at or after `i`. */
  function SkipRight(s: string, i: nat, j: nat): (r: nat)
    requires i <= j <= |s|
    ensures i <= r <= j
    ensures forall k | r <= k < j :: IsSpace(s[k])
    ensures r == i || !IsSpace(s[r - 1])
    decreases j - i
  {
    if i < j && IsSpace(s[j - 1]) then SkipRight(s, i, j - 1) else j
  }

  function Strip(s: string): (r: string)
    ensures IsStripped(r)
    ensures r == [] <==> AllSpace(s)
  {
    var i := SkipLeft(s, 0);
    var j := SkipRight(s, i, |s|);
    assert AllSpace(s[..i]) && AllSpace(s[j..]);
    s[i..j]
  }

  /** Strip removes only whitespace, from the two ends of its argument. */
  lemma StripSplits(s: string) returns (lead: string, trail: string)
    ensures s == lead + Strip(s) + trail
    ensures AllSpace(lead) && AllSpace(trail)
  {
    var i := SkipLeft(s, 0);
    var j := SkipRight(s, i, |s|);
    lead, trail := s[..i], s[j..];
    assert s == s[..i] + s[i..j] + s[j..];
  }

  /** Strip removes exactly the whitespace padding around an already stripped
      string: this and the contract of Strip determine its result. */
  lemma {:induction false} StripPadded(a: string, m: string, b: string)
    requires AllSpace(a) && AllSpace(b) && IsStripped(m)
    ensures Strip(a + m + b) == m
  {
    var s := a + m + b;
    if m == [] {
      assert AllSpace(s) by {
        forall k | 0 <= k < |s| ensures IsSpace(s[k]) {
          if k < |a| { assert s[k] == a[k]; } else { assert s[k] == b[k - |a|]; }
        }
      }
    } else {
      assert s[|a|] == m[0];
      assert s[|a| + |m| - 1] == m[|m| - 1];
      var i := SkipLeft(s, 0);
      assert i == |a|;
      var j := SkipRight(s, i, |s|);
      assert j == |a| + |m|;
      assert s[i..j] == m;
    }
  }

  /** Stripping twice is the same as stripping once. */
  lemma StripIdempotent(s: string)
    ensures Strip(Strip(s)) == Strip(s)
  {
  }

  lemma AllSpaceConcat(x: string, y: string)
    requires AllSpace(x) && AllSpace(y)
    ensures AllSpace(x + y)
  {
    forall k | 0 <= k < |x + y| ensures IsSpace((x + y)[k]) {
      if k >= |x| { assert (x + y)[k] == y[k - |x|]; }
    }
  }

  lemma Regroup(a: string, lead: string, m: string, trail: string, b: string)
    ensures a + (lead + m + trail) + b == (a + lead) + m + (trail + b)
  {
  }

  /** Whitespace added around a string does not change what Strip returns. */
  lemma StripIgnoresPadding(a: string, s: string, b: string)
    requires AllSpace(a) && AllSpace(b)
    ensures Strip(a + s + b) == Strip(s)
  {
    var m := Strip(s);
    var lead, trail := StripSplits(s);
    var a', b' := a + lead, trail + b;
    Regroup(a, lead, m, trail, b);
    AllSpaceConcat(a, lead);
    AllSpaceConcat(trail, b);
    StripPadded(a', m, b');
  }
}
