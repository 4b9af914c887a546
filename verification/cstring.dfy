/**
 The C library string primitives the HTTP file server relies on: `snprintf`
 truncation, `%.*s` stopping at NUL, `strchr`, `strstr` and `strcasecmp`.
 A C string is modelled by its contents before the terminating NUL, so a
 `string` here never holds '\0' unless it models a raw byte buffer.
 */
module CString {
  import opened Wrappers

  /** True when `s` can be the contents of a NUL-terminated C string. */
  predicate NulFree(s: string) {
    '\0' !in s
  }

  /** `tolower` in the C locale: only 'A'..'Z' change. */
  function Lower(c: char): (r: char)
    ensures !('A' <= r <= 'Z')
    ensures 'a' <= r <= 'z' <==> 'A' <= c <= 'Z' || 'a' <= c <= 'z'
    ensures r == '\0' <==> c == '\0'
  {
    if 'A' <= c <= 'Z' then (c as int + 32) as char else c
  }

  /** Equality after ASCII case folding: what `strcasecmp(a, b) == 0` means. */
  predicate EqualsIgnoreCase(a: string, b: string) {
    |a| == |b| && forall i :: 0 <= i < |a| ==> Lower(a[i]) == Lower(b[i])
  }

  /** `s` ends with `suffix`, compared case-insensitively. */
  predicate EndsWithIgnoreCase(s: string, suffix: string) {
    |suffix| <= |s| && EqualsIgnoreCase(s[|s| - |suffix|..], suffix)
  }

  /**
   `strcasecmp`: walks both strings while their folded characters agree and
   returns the difference of the first folded pair that does not, a missing
   character counting as the terminator 0.
   */
  function StrCaseCmp(a: string, b: string): int
  {
    if |a| == 0 && |b| == 0 then 0
    else if |a| == 0 then 0 - Lower(b[0]) as int
    else if |b| == 0 then Lower(a[0]) as int
    else if Lower(a[0]) != Lower(b[0]) then Lower(a[0]) as int - Lower(b[0]) as int
    else StrCaseCmp(a[1..], b[1..])
  }

  /** `strcasecmp` reports equality exactly when the C strings are equal up to case. */
  lemma {:induction false} StrCaseCmpZero(a: string, b: string)
    requires NulFree(a) && NulFree(b)
    ensures StrCaseCmp(a, b) == 0 <==> EqualsIgnoreCase(a, b)
  {
    if |a| == 0 || |b| == 0 {
      if |a| != 0 {
        assert a[0] in a;
      } else if |b| != 0 {
        assert b[0] in b;
      }
    } else if Lower(a[0]) != Lower(b[0]) {
    } else {
      assert NulFree(a[1..]) by { assert forall c :: c in a[1..] ==> c in a; }
      assert NulFree(b[1..]) by { assert forall c :: c in b[1..] ==> c in b; }
      StrCaseCmpZero(a[1..], b[1..]);
      if EqualsIgnoreCase(a[1..], b[1..]) {
        forall i | 0 <= i < |a|
          ensures Lower(a[i]) == Lower(b[i])
        {
          if i > 0 {
            assert a[i] == a[1..][i - 1] && b[i] == b[1..][i - 1];
          }
        }
      }
      if EqualsIgnoreCase(a, b) {
        forall i | 0 <= i < |a| - 1
          ensures Lower(a[1..][i]) == Lower(b[1..][i])
        {
          assert a[1..][i] == a[i + 1] && b[1..][i] == b[i + 1];
        }
      }
    }
  }

  /** For strings of equal length a mismatch is always a nonzero difference, NUL or not. */
  lemma {:induction false} StrCaseCmpEqualLength(a: string, b: string)
    requires |a| == |b|
    ensures StrCaseCmp(a, b) == 0 <==> EqualsIgnoreCase(a, b)
  {
    if |a| > 0 && Lower(a[0]) == Lower(b[0]) {
      StrCaseCmpEqualLength(a[1..], b[1..]);
      if EqualsIgnoreCase(a[1..], b[1..]) {
        forall i | 0 <= i < |a|
          ensures Lower(a[i]) == Lower(b[i])
        {
          if i > 0 {
            assert a[i] == a[1..][i - 1] && b[i] == b[1..][i - 1];
          }
        }
      }
      if EqualsIgnoreCase(a, b) {
        forall i | 0 <= i < |a| - 1
          ensures Lower(a[1..][i]) == Lower(b[1..][i])
        {
          assert a[1..][i] == a[i + 1] && b[1..][i] == b[i + 1];
        }
      }
    }
  }

  /**
   The string `snprintf(buf, size, ...)` leaves in a buffer of `size` bytes
   when the full formatted output is `s`: at most `size - 1` characters.
   */
  function Trunc(s: string, size: nat): (r: string)
    requires size >= 1
    ensures r <= s
    ensures |r| < size
    ensures r == s <==> |s| < size
    ensures |s| >= size ==> |r| == size - 1
  {
    if |s| < size then s else s[..size - 1]
  }

  /** `strchr(s, c)` for a character `c` other than NUL: the first index holding `c`. */
  function IndexOf(s: string, c: char): (r: Option<nat>)
    ensures r.Some? ==> r.value < |s| && s[r.value] == c && c !in s[..r.value]
    ensures r.None? <==> c !in s
  {
    if |s| == 0 then None
    else if s[0] == c then Some(0)
    else
      match IndexOf(s[1..], c)
      case None => None
      case Some(k) =>
        assert s[..k + 1] == [s[0]] + s[1..][..k];
        Some(k + 1)
  }

  /** What `printf("%.*s", n, at)` copies from an `n`-byte buffer: everything before the first NUL. */
  function UpToNul(at: string): (r: string)
    ensures r <= at
    ensures NulFree(r)
    ensures |r| < |at| ==> at[|r|] == '\0'
    ensures NulFree(at) ==> r == at
  {
    match IndexOf(at, '\0')
    case None => at
    case Some(k) => at[..k]
  }

  /** `pat` occurs in `s` starting at index `i`. */
  predicate OccursAt(s: string, pat: string, i: nat) {
    i + |pat| <= |s| && s[i..i + |pat|] == pat
  }

  /** `i` is where `strstr(s, pat)` points: the first occurrence of `pat` in `s`. */
  predicate FirstOccurrence(s: string, pat: string, i: nat) {
    OccursAt(s, pat, i) && forall j :: 0 <= j < i ==> !OccursAt(s, pat, j)
  }

  function FindFrom(s: string, pat: string, from: nat): (r: Option<nat>)
    requires from <= |s|
    requires forall j :: 0 <= j < from ==> !OccursAt(s, pat, j)
    ensures r.Some? ==> FirstOccurrence(s, pat, r.value)
    ensures r.None? ==> forall j :: 0 <= j <= |s| ==> !OccursAt(s, pat, j)
    decreases |s| - from
  {
    if OccursAt(s, pat, from) then Some(from)
    else if from + |pat| >= |s| then None
    else FindFrom(s, pat, from + 1)
  }

  /** `strstr(s, pat)`: the index of the first occurrence of `pat`, None for NULL. */
  function FindSub(s: string, pat: string): (r: Option<nat>)
    ensures r.Some? ==> FirstOccurrence(s, pat, r.value)
    ensures r.None? <==> forall j :: 0 <= j <= |s| ==> !OccursAt(s, pat, j)
  {
    FindFrom(s, pat, 0)
  }

  /** `pat` is found at `|p|` in `p + pat + rest` whenever no earlier occurrence starts inside `p`. */
  lemma FindSubAfterPrefix(p: string, pat: string, rest: string)
    requires forall j :: 0 <= j < |p| ==> !OccursAt(p + pat + rest, pat, j)
    ensures FindSub(p + pat + rest, pat) == Some(|p|)
  {
    var s := p + pat + rest;
    assert s[|p|..|p| + |pat|] == pat;
    assert OccursAt(s, pat, |p|);
  }
}
