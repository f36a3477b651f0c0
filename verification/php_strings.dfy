/** The PHP string built-ins the runner and the event-name rule rely on
    (`str_replace`, `strtolower`, `substr`, `basename`), on strings seen as
    sequences of characters. */
module PhpStrings {

  /** `pat` occurs in `s` starting at index `i`. */
  predicate OccursAt(s: string, pat: string, i: int) {
    0 <= i && i + |pat| <= |s| && s[i..i + |pat|] == pat
  }

  /** `str_replace(pat, rep, s)` with one search string: a single left-to-right
      pass that replaces every non-overlapping occurrence of `pat`; an empty
      search string leaves the subject unchanged. */
  function ReplaceAll(s: string, pat: string, rep: string): string
    decreases |s|
  {
    if |pat| == 0 || |s| < |pat| then s
    else if s[..|pat|] == pat then rep + ReplaceAll(s[|pat|..], pat, rep)
    else [s[0]] + ReplaceAll(s[1..], pat, rep)
  }

  /** A subject in which the search string never occurs comes back unchanged. */
  lemma {:induction false} ReplaceAllWithoutOccurrence(s: string, pat: string, rep: string)
    requires forall i :: !OccursAt(s, pat, i)
    ensures ReplaceAll(s, pat, rep) == s
    decreases |s|
  {
    if |pat| == 0 || |s| < |pat| {
    } else {
      assert !OccursAt(s, pat, 0);
      forall i ensures !OccursAt(s[1..], pat, i) {
        assert !OccursAt(s, pat, i + 1);
        if 0 <= i && i + |pat| <= |s| - 1 {
          assert s[1..][i..i + |pat|] == s[i + 1..i + 1 + |pat|];
        }
      }
      ReplaceAllWithoutOccurrence(s[1..], pat, rep);
    }
  }

  /** When the search string occurs in `d + pat` only as its final part,
      replacing it just swaps that suffix for `rep`. */
  lemma {:induction false} ReplaceAllSoleSuffix(d: string, pat: string, rep: string)
    requires |pat| > 0
    requires forall i :: i < |d| ==> !OccursAt(d + pat, pat, i)
    ensures ReplaceAll(d + pat, pat, rep) == d + rep
    decreases |d|
  {
    var s := d + pat;
    if |d| == 0 {
      assert s == pat;
      assert s[..|pat|] == pat;
      assert s[|pat|..] == [];
    } else {
      assert !OccursAt(s, pat, 0);
      assert s[1..] == d[1..] + pat;
      forall i | i < |d[1..]| ensures !OccursAt(d[1..] + pat, pat, i) {
        assert !OccursAt(s, pat, i + 1);
        if 0 <= i {
          assert (d[1..] + pat)[i..i + |pat|] == s[i + 1..i + 1 + |pat|];
        }
      }
      ReplaceAllSoleSuffix(d[1..], pat, rep);
    }
  }

  /** The first occurrence of the search string is replaced and the pass goes on
      after it: everything before it is kept and the rest is treated the same
      way. With `ReplaceAllWithoutOccurrence` this fixes `str_replace` for every
      non-empty search string. */
  lemma {:induction false} ReplaceAllFirstOccurrence(a: string, pat: string, b: string, rep: string)
    requires |pat| > 0
    requires forall i :: i < |a| ==> !OccursAt(a + pat + b, pat, i)
    ensures ReplaceAll(a + pat + b, pat, rep) == a + rep + ReplaceAll(b, pat, rep)
    decreases |a|
  {
    var s := a + pat + b;
    if |a| == 0 {
      assert s == pat + b;
      assert s[..|pat|] == pat;
      assert s[|pat|..] == b;
    } else {
      var t := a[1..] + pat + b;
      assert s[1..] == t;
      assert s[..|pat|] != pat by {
        assert !OccursAt(s, pat, 0);
      }
      assert ReplaceAll(s, pat, rep) == [s[0]] + ReplaceAll(t, pat, rep);
      forall i | i < |a[1..]| ensures !OccursAt(t, pat, i) {
        assert !OccursAt(s, pat, i + 1);
        if 0 <= i {
          assert t[i..i + |pat|] == s[i + 1..i + 1 + |pat|];
        }
      }
      ReplaceAllFirstOccurrence(a[1..], pat, b, rep);
      assert [s[0]] + a[1..] == a;
    }
  }

  /** A search string cannot start where the subject lacks its first character. */
  lemma NoOccurrenceWithoutFirstChar(s: string, pat: string, k: int)
    requires |pat| > 0
    requires forall i :: 0 <= i < k && i < |s| ==> s[i] != pat[0]
    ensures forall i :: i < k ==> !OccursAt(s, pat, i)
  {
    forall i | i < k ensures !OccursAt(s, pat, i) {
      if 0 <= i && i + |pat| <= |s| {
        assert s[i..i + |pat|][0] == s[i];
      }
    }
  }

  /** Removing a search string never lengthens the subject. */
  lemma {:induction false} ReplaceAllShrinks(s: string, pat: string)
    ensures |ReplaceAll(s, pat, "")| <= |s|
    decreases |s|
  {
    if |pat| == 0 || |s| < |pat| {
    } else if s[..|pat|] == pat {
      ReplaceAllShrinks(s[|pat|..], pat);
    } else {
      ReplaceAllShrinks(s[1..], pat);
    }
  }

  /** Replacing one character by one character is a pointwise substitution:
      the length is kept and every other character stays where it was. */
  lemma {:induction false} ReplaceSingleChar(s: string, a: char, b: char)
    ensures |ReplaceAll(s, [a], [b])| == |s|
    ensures forall i :: 0 <= i < |s| ==>
              ReplaceAll(s, [a], [b])[i] == if s[i] == a then b else s[i]
    decreases |s|
  {
    if |s| > 0 {
      ReplaceSingleChar(s[1..], a, b);
      assert s[..1] == [a] <==> s[0] == a;
    }
  }

  predicate IsUpper(c: char) {
    'A' <= c <= 'Z'
  }

  function LowerChar(c: char): char {
    if IsUpper(c) then (c as int + 32) as char else c
  }

  /** `strtolower`: the ASCII letters A-Z become a-z, every other character is kept. */
  function Lower(s: string): (r: string)
    ensures |r| == |s|
    decreases |s|
  {
    if |s| == 0 then [] else [LowerChar(s[0])] + Lower(s[1..])
  }

  /** Lowering works character by character and leaves no upper-case letter;
      a character is changed only when it is an upper-case letter, and then to
      the letter 32 code points above it. */
  lemma {:induction false} LowerIsPointwise(s: string)
    ensures forall i :: 0 <= i < |s| ==> Lower(s)[i] == LowerChar(s[i])
    ensures forall i :: 0 <= i < |s| ==> !IsUpper(Lower(s)[i])
    ensures forall i :: 0 <= i < |s| ==>
              Lower(s)[i] == s[i] || (IsUpper(s[i]) && Lower(s)[i] as int == s[i] as int + 32)
    decreases |s|
  {
    if |s| > 0 {
      LowerIsPointwise(s[1..]);
      assert forall i :: 1 <= i < |s| ==> Lower(s)[i] == Lower(s[1..])[i - 1] && s[i] == s[1..][i - 1];
    }
  }

  /** A string with no upper-case letter is its own lower-case form. */
  lemma LowerKeepsLowercase(s: string)
    requires forall i :: 0 <= i < |s| ==> !IsUpper(s[i])
    ensures Lower(s) == s
  {
    LowerIsPointwise(s);
  }

  /** `substr(s, 0, n)` for a length n >= 0: the first n characters, or all of s when it is shorter. */
  function Head(s: string, n: nat): (r: string)
    ensures |r| == if n <= |s| then n else |s|
    ensures r == s[..|r|]
  {
    if n <= |s| then s[..n] else s
  }

  /** `substr(s, -n)` for n > 0: the last n characters, or all of s when it is shorter.
      (`substr(s, -0)` is all of `s`, which is why n = 0 is excluded.) */
  function Tail(s: string, n: nat): (r: string)
    requires n > 0
    ensures |r| == if n <= |s| then n else |s|
    ensures r == s[|s| - |r|..]
  {
    if n <= |s| then s[|s| - n..] else s
  }

  /** `s` starts with `prefix` when compared case-insensitively: character by
      character, the lower-case form of `s` equals `prefix`, which is taken as
      written, so one holding an upper-case letter is never matched. */
  predicate StartsWithIgnoringCase(s: string, prefix: string) {
    |s| >= |prefix| && forall i :: 0 <= i < |prefix| ==> LowerChar(s[i]) == prefix[i]
  }

  /** `strtolower(substr(s, 0, strlen(t))) == t` is exactly a case-insensitive prefix test. */
  lemma LowerHeadIsPrefixTest(s: string, t: string)
    ensures Lower(Head(s, |t|)) == t <==> StartsWithIgnoringCase(s, t)
  {
    var h := Head(s, |t|);
    LowerIsPointwise(h);
    if StartsWithIgnoringCase(s, t) {
      assert Lower(h) == t;
    }
  }

  /** `substr(s, -|t|) === t`, for a non-empty `t`, holds exactly when `s` ends with `t`. */
  lemma TailIsSuffixTest(s: string, t: string)
    requires |t| > 0
    ensures Tail(s, |t|) == t <==> exists d :: s == d + t
  {
    if Tail(s, |t|) == t {
      assert s == s[..|s| - |t|] + t;
    }
  }

  /** Where the last path component of `p` starts: just after its last '/', or 0. */
  function ComponentStart(p: string): (k: nat)
    ensures k <= |p|
    ensures forall i :: k <= i < |p| ==> p[i] != '/'
    ensures k > 0 ==> p[k - 1] == '/'
    decreases |p|
  {
    if |p| == 0 then 0
    else if p[|p| - 1] == '/' then |p|
    else ComponentStart(p[..|p| - 1])
  }

  /** `basename(p)`: the part of `p` after its last '/', or all of `p` when it has none. */
  function Basename(p: string): string {
    p[ComponentStart(p)..]
  }

  /** The base name of `dir + "/" + name` is `name` when `name` holds no '/'. */
  lemma BasenameAfterSlash(dir: string, name: string)
    requires '/' !in name
    ensures Basename(dir + "/" + name) == name
  {
    var p := dir + "/" + name;
    var k := ComponentStart(p);
    assert p[|dir|] == '/';
    assert forall i :: |dir| < i < |p| ==> p[i] == name[i - |dir| - 1];
    assert k == |dir| + 1;
    assert p[k..] == name;
  }
}
