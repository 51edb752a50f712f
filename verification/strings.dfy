/** The few `str` operations of Rust's standard library that the merge engine relies on. */
module Strings {
  import opened Wrappers

  predicate StartsWith(s: string, prefix: string) {
    |prefix| <= |s| && s[..|prefix|] == prefix
  }

  predicate EndsWith(s: string, suffix: string) {
    |suffix| <= |s| && s[|s| - |suffix|..] == suffix
  }

  /** `x` is zero or more copies of `pat` laid end to end. */
  predicate IsRepeatOf(x: string, pat: string)
    requires pat != []
    decreases |x|
  {
    x == [] || (StartsWith(x, pat) && IsRepeatOf(x[|pat|..], pat))
  }

  /** Position of the last `c` in `s`: `str::rfind` with a character pattern. */
  function LastIndexOf(s: string, c: char): (r: Option<nat>)
    ensures r.None? <==> c !in s
    ensures r.Some? ==> r.value < |s| && s[r.value] == c && c !in s[r.value + 1..]
  {
    if |s| == 0 then None
    else if s[|s| - 1] == c then Some(|s| - 1)
    else
      var r := LastIndexOf(s[..|s| - 1], c);
      assert r.Some? ==> s[r.value + 1..] == s[..|s| - 1][r.value + 1..] + [s[|s| - 1]];
      assert s == s[..|s| - 1] + [s[|s| - 1]];
      r
  }

  /** `s` with every trailing copy of `pat` removed: `str::trim_end_matches`. */
  function TrimEndMatches(s: string, pat: string): (r: string)
    ensures r <= s
    ensures pat != [] ==> !EndsWith(r, pat) && IsRepeatOf(s[|r|..], pat)
    decreases |s|
  {
    if pat != [] && EndsWith(s, pat) then
      var r := TrimEndMatches(s[..|s| - |pat|], pat);
      RepeatThenPat(s[..|s| - |pat|][|r|..], pat);
      assert s[|r|..] == s[..|s| - |pat|][|r|..] + pat;
      r
    else s
  }

  /** A suffix holding a character the text lacks cannot end it, so trimming it is a no-op. */
  lemma TrimAbsentSuffix(s: string, pat: string, c: char)
    requires c in pat && c !in s
    ensures TrimEndMatches(s, pat) == s
  {
  }

  /** Trimming a suffix the text ends with exactly once, where the text before it cannot
      end with the suffix again. */
  lemma TrimSingleSuffix(h: string, pat: string, c: char)
    requires c in pat && c !in h
    ensures TrimEndMatches(h + pat, pat) == h
  {
    assert (h + pat)[..|h|] == h;
    assert EndsWith(h + pat, pat);
    TrimAbsentSuffix(h, pat, c);
  }

  /** `s` with every leading copy of `pat` removed: `str::trim_start_matches`. */
  function TrimStartMatches(s: string, pat: string): (r: string)
    ensures |r| <= |s| && r == s[|s| - |r|..]
    ensures pat != [] ==> !StartsWith(r, pat) && IsRepeatOf(s[..|s| - |r|], pat)
    decreases |s|
  {
    if pat != [] && StartsWith(s, pat) then
      var r := TrimStartMatches(s[|pat|..], pat);
      assert s[..|s| - |r|][|pat|..] == s[|pat|..][..|s[|pat|..]| - |r|];
      r
    else s
  }

  /** `p` is `r` with copies of `a` before it (ending at `k`) and copies of `b` after it. */
  predicate FramedAt(p: string, k: int, r: string, a: string, b: string)
    requires a != [] && b != []
  {
    0 <= k && k + |r| <= |p| && IsRepeatOf(p[..k], a) && p[k..k + |r|] == r && IsRepeatOf(p[k + |r|..], b)
  }

  /** Trimming the back of a string that does not start with `a` keeps it from starting
      with `a`: what is left is a prefix of it. */
  lemma TrimEndKeepsStart(s: string, a: string, b: string)
    requires !StartsWith(s, a)
    ensures !StartsWith(TrimEndMatches(s, b), a)
  {
    var r := TrimEndMatches(s, b);
    if |a| <= |r| {
      assert r[..|a|] == s[..|a|];
    }
  }

  /** After trimming copies of `a` off the front and copies of `b` off the back, `p` is
      what is left framed by those copies. */
  lemma TrimBothFramed(p: string, a: string, b: string)
    requires a != [] && b != []
    ensures exists k :: FramedAt(p, k, TrimEndMatches(TrimStartMatches(p, a), b), a, b)
  {
    var s := TrimStartMatches(p, a);
    var r := TrimEndMatches(s, b);
    var k := |p| - |s|;
    assert IsRepeatOf(p[..k], a);
    assert p[k..] == s;
    assert p[k..k + |r|] == r by {
      assert r == s[..|r|];
    }
    assert IsRepeatOf(p[k + |r|..], b) by {
      assert p[k + |r|..] == s[|r|..];
    }
    assert FramedAt(p, k, r, a, b);
  }

  /** Trimming copies of `a` off the front and then copies of `b` off the back leaves a
      stretch of the input framed by those copies that neither starts with `a` nor ends
      with `b`. */
  lemma TrimBoth(p: string, a: string, b: string)
    requires a != [] && b != []
    ensures var r := TrimEndMatches(TrimStartMatches(p, a), b);
      !StartsWith(r, a) && !EndsWith(r, b) && exists k :: FramedAt(p, k, r, a, b)
  {
    TrimEndKeepsStart(TrimStartMatches(p, a), a, b);
    TrimBothFramed(p, a, b);
  }

  /** One more copy of `pat` after a run of copies is still a run of copies. */
  lemma {:induction false} RepeatThenPat(x: string, pat: string)
    requires pat != [] && IsRepeatOf(x, pat)
    ensures IsRepeatOf(x + pat, pat)
    decreases |x|
  {
    if x == [] {
      assert (x + pat)[|pat|..] == [];
    } else {
      RepeatThenPat(x[|pat|..], pat);
      assert (x + pat)[|pat|..] == x[|pat|..] + pat;
    }
  }
}
