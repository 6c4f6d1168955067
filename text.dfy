/** The Python string operations the core relies on: `str.lower`, the
    substring test `sub in s`, `str.rfind` of one character and
    `os.path.splitext` with the POSIX separators. */
module Text {

  /** `str.lower` on one character, for the ASCII letters. */
  function LowerChar(c: char): char
  {
    if 'A' <= c <= 'Z' then (c as int + 32) as char else c
  }

  /** `str.lower`: each ASCII capital is replaced by its small letter. */
  function Lower(s: string): (r: string)
    ensures |r| == |s|
  {
    seq(|s|, i requires 0 <= i < |s| => LowerChar(s[i]))
  }

  /** `str.lower` leaves no ASCII capital behind, and it changes exactly the
      characters that are ASCII capitals: every other one, '.' and '/'
      among them, stays where it was. */
  lemma LowerNoCapitals(s: string)
    ensures forall i :: 0 <= i < |s| ==> !('A' <= Lower(s)[i] <= 'Z')
    ensures forall i :: 0 <= i < |s| ==> (Lower(s)[i] == s[i] <==> !('A' <= s[i] <= 'Z'))
  {
  }

  /** Lowercasing twice is lowercasing once. */
  lemma LowerIdempotent(s: string)
    ensures Lower(Lower(s)) == Lower(s)
  {
    LowerNoCapitals(s);
    LowerNoCapitals(Lower(s));
  }

  /** `sub` occurs in `s` starting at index `i`. */
  predicate OccursAt(s: string, sub: string, i: int)
  {
    0 <= i && i + |sub| <= |s| && s[i..i + |sub|] == sub
  }

  /** Python's `sub in s` on strings, scanning from the front. */
  predicate Contains(s: string, sub: string)
    decreases |s|
  {
    |s| >= |sub| && (s[..|sub|] == sub || Contains(s[1..], sub))
  }

  /** `Contains` holds exactly when `sub` occurs somewhere in `s`. */
  lemma {:induction false} ContainsIff(s: string, sub: string)
    ensures Contains(s, sub) <==> exists i :: OccursAt(s, sub, i)
    decreases |s|
  {
    if |s| >= |sub| && s[..|sub|] == sub {
      assert OccursAt(s, sub, 0);
    } else if |s| >= |sub| {
      ContainsIff(s[1..], sub);
      forall i | OccursAt(s[1..], sub, i)
        ensures OccursAt(s, sub, i + 1)
      {
        assert s[i + 1..i + 1 + |sub|] == s[1..][i..i + |sub|];
      }
      forall i | OccursAt(s, sub, i) && i != 0
        ensures OccursAt(s[1..], sub, i - 1)
      {
        assert s[i..i + |sub|] == s[1..][i - 1..i - 1 + |sub|];
      }
    }
  }

  /** The last index below `n` holding `c`, or -1. */
  function LastIndexBelow(s: string, c: char, n: nat): (r: int)
    requires n <= |s|
    ensures -1 <= r < n
    ensures r >= 0 ==> s[r] == c
  {
    if n == 0 then -1
    else if s[n - 1] == c then n - 1
    else LastIndexBelow(s, c, n - 1)
  }

  /** `s.rfind(c)`: the last index holding `c`, or -1. */
  function LastIndexOf(s: string, c: char): (r: int)
    ensures -1 <= r < |s|
    ensures r >= 0 ==> s[r] == c
  {
    LastIndexBelow(s, c, |s|)
  }

  /** No index after the one `LastIndexBelow` finds holds `c`. */
  lemma {:induction false} LastIndexBelowIsLast(s: string, c: char, n: nat)
    requires n <= |s|
    ensures forall k :: LastIndexBelow(s, c, n) < k < n ==> s[k] != c
  {
    if n > 0 && s[n - 1] != c {
      LastIndexBelowIsLast(s, c, n - 1);
    }
  }

  /** No index after `s.rfind(c)` holds `c`. */
  lemma LastIndexOfIsLast(s: string, c: char)
    ensures forall k :: LastIndexOf(s, c) < k < |s| ==> s[k] != c
  {
    LastIndexBelowIsLast(s, c, |s|);
  }

  /** `s.rfind(c)` is pinned down by its answer: `s[i]` is `c` and nothing
      after it is, or `i == -1` and `c` does not occur. */
  lemma LastIndexOfAt(s: string, c: char, i: int)
    requires -1 <= i < |s|
    requires i >= 0 ==> s[i] == c
    requires forall k :: i < k < |s| ==> s[k] != c
    ensures LastIndexOf(s, c) == i
  {
    LastIndexOfIsLast(s, c);
  }

  /** `os.path.splitext(p)` on POSIX: the extension runs from the last '.'
      of the last path component to the end, unless every character of
      that component before the '.' is itself a '.' (a hidden file). */
  function Splitext(p: string): (r: (string, string))
    ensures r.0 + r.1 == p
  {
    var sepIndex := LastIndexOf(p, '/');
    var dotIndex := LastIndexOf(p, '.');
    if sepIndex < dotIndex && exists k :: sepIndex < k < dotIndex && p[k] != '.' then
      assert p[..dotIndex] + p[dotIndex..] == p;
      (p[..dotIndex], p[dotIndex..])
    else
      (p, [])
  }

  /** A non-empty extension starts with its only '.' and holds no '/'. */
  lemma SplitextShape(p: string)
    ensures var ext := Splitext(p).1;
      ext != [] ==> ext[0] == '.' && forall k :: 0 < k < |ext| ==> ext[k] != '.' && ext[k] != '/'
  {
    var sepIndex := LastIndexOf(p, '/');
    var dotIndex := LastIndexOf(p, '.');
    LastIndexOfIsLast(p, '/');
    LastIndexOfIsLast(p, '.');
    var ext := Splitext(p).1;
    if ext != [] {
      assert ext == p[dotIndex..];
      forall k | 0 < k < |ext|
        ensures ext[k] != '.' && ext[k] != '/'
      {
        assert ext[k] == p[dotIndex + k];
      }
    }
  }
}
