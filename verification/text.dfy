/** The string primitives the dashboard calls: `toLowerCase`, `includes`,
    `trim` and `localeCompare`. */
module Text {

  // ---------------------------------------------------------------------------
  // Case folding (ASCII)
  // ---------------------------------------------------------------------------

  predicate IsUpper(c: char) {
    'A' <= c <= 'Z'
  }

  function LowerChar(c: char): (d: char)
    ensures !IsUpper(d)
    ensures IsUpper(c) ==> d as int == c as int + 32
    ensures !IsUpper(c) ==> d == c
  {
    if IsUpper(c) then (c as int + 32) as char else c
  }

  /** `toLowerCase`, restricted to the ASCII letters. */
  function Lower(s: string): (r: string)
  {
    seq(|s|, i requires 0 <= i < |s| => LowerChar(s[i]))
  }

  /** Lowering changes only upper-case letters, leaves none behind, and is idempotent. */
  lemma LowerFacts(s: string)
    ensures |Lower(s)| == |s|
    ensures forall i :: 0 <= i < |s| && !IsUpper(s[i]) ==> Lower(s)[i] == s[i]
    ensures forall i :: 0 <= i < |s| ==> !IsUpper(Lower(s)[i])
    ensures Lower(Lower(s)) == Lower(s)
  {
  }

  // ---------------------------------------------------------------------------
  // Substring search
  // ---------------------------------------------------------------------------

  predicate IsPrefix(p: string, s: string) {
    |p| <= |s| && s[..|p|] == p
  }

  /** `haystack.includes(needle)`: tries every start position from the left. */
  function Contains(haystack: string, needle: string): bool
    decreases |haystack|
  {
    IsPrefix(needle, haystack) || (|haystack| > 0 && Contains(haystack[1..], needle))
  }

  /** `needle` occurs in `haystack` starting at offset `k`. */
  ghost predicate OccursAt(haystack: string, needle: string, k: int) {
    0 <= k && k + |needle| <= |haystack| && haystack[k..k + |needle|] == needle
  }

  /** The search succeeds exactly when `needle` occurs at some offset of `haystack`. */
  lemma {:induction false} ContainsIff(haystack: string, needle: string)
    ensures Contains(haystack, needle) <==> exists k :: OccursAt(haystack, needle, k)
    decreases |haystack|
  {
    if IsPrefix(needle, haystack) {
      assert OccursAt(haystack, needle, 0);
    } else if |haystack| > 0 {
      var tail := haystack[1..];
      ContainsIff(tail, needle);
      if Contains(tail, needle) {
        var k :| OccursAt(tail, needle, k);
        assert haystack[k + 1..k + 1 + |needle|] == tail[k..k + |needle|];
        assert OccursAt(haystack, needle, k + 1);
      }
      if exists k :: OccursAt(haystack, needle, k) {
        var k :| OccursAt(haystack, needle, k);
        assert haystack[..|needle|] == haystack[0..0 + |needle|];
        assert k > 0;
        assert tail[k - 1..k - 1 + |needle|] == haystack[k..k + |needle|];
        assert OccursAt(tail, needle, k - 1);
      }
    }
  }

  /** The empty string occurs in every string. */
  lemma ContainsEmpty(haystack: string)
    ensures Contains(haystack, "")
  {
    assert IsPrefix("", haystack);
  }

  // ---------------------------------------------------------------------------
  // Trimming
  // ---------------------------------------------------------------------------

  /** ECMAScript WhiteSpace and LineTerminator code points, which `trim` removes. */
  predicate IsWhitespace(c: char) {
    var n := c as int;
    (0x09 <= n <= 0x0D) || n == 0x20 || n == 0xA0 || n == 0x1680 ||
    (0x2000 <= n <= 0x200A) || n == 0x2028 || n == 0x2029 || n == 0x202F ||
    n == 0x205F || n == 0x3000 || n == 0xFEFF
  }

  function TrimStart(s: string): (r: string)
    decreases |s|
  {
    if |s| > 0 && IsWhitespace(s[0]) then TrimStart(s[1..]) else s
  }

  function TrimEnd(s: string): (r: string)
    decreases |s|
  {
    if |s| > 0 && IsWhitespace(s[|s| - 1]) then TrimEnd(s[..|s| - 1]) else s
  }

  /** `trim`: drops leading and trailing whitespace. */
  function Trim(s: string): (r: string)
  {
    TrimEnd(TrimStart(s))
  }

  ghost predicate AllWhitespace(s: string) {
    forall i :: 0 <= i < |s| ==> IsWhitespace(s[i])
  }

  lemma {:induction false} TrimStartShape(s: string)
    ensures |TrimStart(s)| <= |s|
    ensures TrimStart(s) == s[|s| - |TrimStart(s)|..]
    ensures AllWhitespace(s[..|s| - |TrimStart(s)|])
    ensures |TrimStart(s)| > 0 ==> !IsWhitespace(TrimStart(s)[0])
    decreases |s|
  {
    if |s| > 0 && IsWhitespace(s[0]) {
      TrimStartShape(s[1..]);
      var a := |s| - |TrimStart(s)|;
      assert s[1..][a - 1..] == s[a..];
      assert s[..a] == [s[0]] + s[1..][..a - 1];
    }
  }

  lemma {:induction false} TrimEndShape(s: string)
    ensures |TrimEnd(s)| <= |s|
    ensures TrimEnd(s) == s[..|TrimEnd(s)|]
    ensures AllWhitespace(s[|TrimEnd(s)|..])
    ensures |TrimEnd(s)| > 0 ==> !IsWhitespace(TrimEnd(s)[|TrimEnd(s)| - 1])
    decreases |s|
  {
    if |s| > 0 && IsWhitespace(s[|s| - 1]) {
      var init := s[..|s| - 1];
      TrimEndShape(init);
      var b := |TrimEnd(s)|;
      assert init[..b] == s[..b];
      assert s[b..] == init[b..] + [s[|s| - 1]];
    }
  }

  /** `trim` keeps the slice `s[a..b]` of its input, cutting only whitespace
      on either side, and the slice neither starts nor ends with whitespace. */
  lemma TrimShape(s: string)
    ensures var a := |s| - |TrimStart(s)|;
            var b := a + |Trim(s)|;
            0 <= a <= b <= |s| && Trim(s) == s[a..b] &&
            AllWhitespace(s[..a]) && AllWhitespace(s[b..])
    ensures |Trim(s)| > 0 ==> !IsWhitespace(Trim(s)[0]) && !IsWhitespace(Trim(s)[|Trim(s)| - 1])
  {
    var t := TrimStart(s);
    TrimStartShape(s);
    TrimEndShape(t);
    var a := |s| - |t|;
    var b := |TrimEnd(t)|;
    assert Trim(s) == s[a..a + b];
    assert s[a + b..] == t[b..];
    if |Trim(s)| > 0 {
      assert Trim(s)[0] == t[0];
    }
  }

  /** A string trims to nothing exactly when it is entirely whitespace. */
  lemma TrimEmptyIff(s: string)
    ensures Trim(s) == "" <==> AllWhitespace(s)
  {
    TrimShape(s);
    var a := |s| - |TrimStart(s)|;
    var b := a + |Trim(s)|;
    if Trim(s) == "" {
      forall i | 0 <= i < |s|
        ensures IsWhitespace(s[i])
      {
        if i < a {
          assert s[..a][i] == s[i];
        } else {
          assert s[b..][i - b] == s[i];
        }
      }
    } else {
      assert !IsWhitespace(s[a]);
    }
  }

  // ---------------------------------------------------------------------------
  // Ordering
  // ---------------------------------------------------------------------------

  /** Stand-in for `localeCompare`: code-point lexicographic order, -1, 0 or 1. */
  function Compare(a: string, b: string): (r: int)
    ensures -1 <= r <= 1
    decreases |a|
  {
    if |a| == 0 && |b| == 0 then 0
    else if |a| == 0 then -1
    else if |b| == 0 then 1
    else if a[0] < b[0] then -1
    else if a[0] > b[0] then 1
    else Compare(a[1..], b[1..])
  }

  /** Two strings compare equal exactly when they are equal. */
  lemma {:induction false} CompareZeroIff(a: string, b: string)
    ensures Compare(a, b) == 0 <==> a == b
    decreases |a|
  {
    if |a| > 0 && |b| > 0 && a[0] == b[0] {
      CompareZeroIff(a[1..], b[1..]);
      if a[1..] == b[1..] {
        assert a == [a[0]] + a[1..] && b == [b[0]] + b[1..];
      }
    }
  }

  /** Swapping the arguments negates the result. */
  lemma {:induction false} CompareFlip(a: string, b: string)
    ensures Compare(b, a) == -Compare(a, b)
    decreases |a|
  {
    if |a| > 0 && |b| > 0 && a[0] == b[0] {
      CompareFlip(a[1..], b[1..]);
    }
  }

  /** "Not after" is transitive. */
  lemma {:induction false} CompareTransitive(a: string, b: string, c: string)
    requires Compare(a, b) <= 0 && Compare(b, c) <= 0
    ensures Compare(a, c) <= 0
    decreases |a|
  {
    if |a| > 0 && |b| > 0 && |c| > 0 && a[0] == b[0] && b[0] == c[0] {
      CompareTransitive(a[1..], b[1..], c[1..]);
    }
  }
}
