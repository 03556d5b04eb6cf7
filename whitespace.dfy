/** Python's `str.strip()` called without arguments, as used on every filter value of the
    index page.

    Assumption: `strip()` removes, from both ends, the characters for which Python's
    `str.isspace()` holds. That is taken here as the fixed set of code points
    U+0009..U+000D, U+001C..U+0020, U+0085, U+00A0, U+1680, U+2000..U+200A, U+2028,
    U+2029, U+202F, U+205F and U+3000; no other character is ever removed.
 */
module Whitespace {

  /** The fixed whitespace set that `strip()` removes. */
  predicate IsSpace(c: char) {
    var n := c as int;
    (0x09 <= n <= 0x0D) || (0x1C <= n <= 0x20) || n == 0x85 || n == 0xA0 || n == 0x1680
    || (0x2000 <= n <= 0x200A) || n == 0x2028 || n == 0x2029 || n == 0x202F || n == 0x205F
    || n == 0x3000
  }

  /** Every character of `s` is whitespace (vacuously true of the empty string). */
  predicate AllSpace(s: string) {
    forall k :: 0 <= k < |s| ==> IsSpace(s[k])
  }

  /** `s` without its leading whitespace. */
  function TrimStart(s: string): string
    decreases |s|
  {
    if s != [] && IsSpace(s[0]) then TrimStart(s[1..]) else s
  }

  /** `TrimStart(s)` is the longest suffix of `s` that does not start with whitespace:
      everything cut off is whitespace. */
  lemma {:induction false} TrimStartSpec(s: string)
    ensures var r := TrimStart(s);
      && |r| <= |s| && r == s[|s| - |r|..]
      && (forall k :: 0 <= k < |s| - |r| ==> IsSpace(s[k]))
      && (r != [] ==> !IsSpace(r[0]))
    decreases |s|
  {
    if s != [] && IsSpace(s[0]) {
      TrimStartSpec(s[1..]);
    }
  }

  /** `s` without its trailing whitespace. */
  function TrimEnd(s: string): string
    decreases |s|
  {
    if s != [] && IsSpace(s[|s| - 1]) then TrimEnd(s[..|s| - 1]) else s
  }

  /** `TrimEnd(s)` is the longest prefix of `s` that does not end with whitespace:
      everything cut off is whitespace. */
  lemma {:induction false} TrimEndSpec(s: string)
    ensures var r := TrimEnd(s);
      && |r| <= |s| && r == s[..|r|]
      && (forall k :: |r| <= k < |s| ==> IsSpace(s[k]))
      && (r != [] ==> !IsSpace(r[|r| - 1]))
    decreases |s|
  {
    if s != [] && IsSpace(s[|s| - 1]) {
      TrimEndSpec(s[..|s| - 1]);
    }
  }

  /** Number of leading whitespace characters of `s`. */
  function LeadingSpace(s: string): int {
    |s| - |TrimStart(s)|
  }

  /** `s.strip()`: whitespace removed from both ends of `s`. */
  function Strip(s: string): string {
    TrimEnd(TrimStart(s))
  }

  /** `Strip(s)` is the infix of `s` left after removing whitespace from both ends. It is
      empty exactly when `s` is all whitespace; otherwise it begins and ends with a
      non-space character, and every character removed is whitespace. */
  lemma StripSpec(s: string)
    ensures var r := Strip(s);
      && 0 <= LeadingSpace(s) && LeadingSpace(s) + |r| <= |s|
      && r == s[LeadingSpace(s)..LeadingSpace(s) + |r|]
      && (forall k :: 0 <= k < |s| && !(LeadingSpace(s) <= k < LeadingSpace(s) + |r|) ==> IsSpace(s[k]))
      && (r == [] <==> AllSpace(s))
      && (r != [] ==> !IsSpace(r[0]) && !IsSpace(r[|r| - 1]))
  {
    var t := TrimStart(s);
    TrimStartSpec(s);
    TrimEndSpec(t);
    if t != [] {
      assert s[|s| - |t|] == t[0];
    }
  }

  /** Any way of cutting only whitespace off both ends of `s` that leaves no whitespace at
      either end of the remainder (or leaves nothing) gives exactly `Strip(s)`. This is the
      reference definition of `strip()` that the recursive one is checked against. */
  lemma StripCharacterized(s: string, i: nat, j: nat)
    requires i <= j <= |s|
    requires forall k :: 0 <= k < |s| && (k < i || j <= k) ==> IsSpace(s[k])
    requires i < j ==> !IsSpace(s[i]) && !IsSpace(s[j - 1])
    ensures Strip(s) == s[i..j]
  {
    var r := Strip(s);
    var l := LeadingSpace(s);
    StripSpec(s);
    if i == j {
      assert AllSpace(s) by {
        forall k | 0 <= k < |s| ensures IsSpace(s[k]) {
        }
      }
    } else {
      assert !AllSpace(s) by {
        assert !IsSpace(s[i]);
      }
      assert r != [];
      // s[l] is the first non-space character of s, and so is s[i].
      assert s[l] == r[0];
      assert l == i;
      assert s[l + |r| - 1] == r[|r| - 1];
      assert l + |r| == j;
    }
  }

  /** Stripping twice is stripping once. */
  lemma StripIdempotent(s: string)
    ensures Strip(Strip(s)) == Strip(s)
  {
    var r := Strip(s);
    StripSpec(s);
    StripCharacterized(r, 0, |r|);
  }
}
