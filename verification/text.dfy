/**
 * Python's `str.split(sep)`, `sep.join(parts)` and `str.replace(pat, rep)`
 * with an explicit, non-empty separator, plus character filtering.
 * All three scan left to right and never overlap two matches.
 */
module Text {

  /** `sep` occurs in `s` at position `i`. */
  predicate OccursAt(s: string, sep: string, i: int) {
    0 <= i && i + |sep| <= |s| && s[i..i + |sep|] == sep
  }

  /** Python's `s.split(sep)`: always at least one part. */
  function Split(s: string, sep: string): (parts: seq<string>)
    requires |sep| > 0
    ensures |parts| >= 1
    decreases |s|
  {
    if |s| < |sep| then [s]
    else if s[..|sep|] == sep then [[]] + Split(s[|sep|..], sep)
    else
      var rest := Split(s[1..], sep);
      [[s[0]] + rest[0]] + rest[1..]
  }

  /** Python's `sep.join(parts)`. */
  function Join(parts: seq<string>, sep: string): string
    decreases |parts|
  {
    if |parts| == 0 then []
    else if |parts| == 1 then parts[0]
    else parts[0] + sep + Join(parts[1..], sep)
  }

  lemma JoinCons(p: string, rest: seq<string>, sep: string)
    requires |rest| >= 1
    ensures Join([p] + rest, sep) == p + sep + Join(rest, sep)
  {
    assert ([p] + rest)[1..] == rest;
  }

  lemma JoinConsHead(c: char, parts: seq<string>, sep: string)
    requires |parts| >= 1
    ensures Join([[c] + parts[0]] + parts[1..], sep) == [c] + Join(parts, sep)
  {
    var q := [[c] + parts[0]] + parts[1..];
    assert q[1..] == parts[1..];
  }

  /** Joining the parts of a split with the same separator gives back the input. */
  lemma {:induction false} JoinSplit(s: string, sep: string)
    requires |sep| > 0
    ensures Join(Split(s, sep), sep) == s
    decreases |s|
  {
    if |s| < |sep| {
    } else if s[..|sep|] == sep {
      var rest := Split(s[|sep|..], sep);
      assert Split(s, sep) == [[]] + rest;
      JoinSplit(s[|sep|..], sep);
      JoinCons([], rest, sep);
      assert s == sep + s[|sep|..];
    } else {
      var rest := Split(s[1..], sep);
      assert Split(s, sep) == [[s[0]] + rest[0]] + rest[1..];
      JoinSplit(s[1..], sep);
      JoinConsHead(s[0], rest, sep);
      assert s == [s[0]] + s[1..];
    }
  }

  /** Splitting on one character: the first part runs up to the first occurrence. */
  lemma {:induction false} SplitCharFirst(s: string, c: char, k: nat)
    requires k <= |s| && c !in s[..k]
    requires k == |s| || s[k] == c
    ensures k == |s| ==> Split(s, [c]) == [s]
    ensures k < |s| ==> Split(s, [c]) == [s[..k]] + Split(s[k + 1..], [c])
    decreases k
  {
    if k == 0 {
      if |s| > 0 {
        assert s[..1] == [c];
      }
    } else {
      assert s[0] != c by { assert s[0] == s[..k][0]; }
      assert s[..1] != [c];
      SplitCharFirst(s[1..], c, k - 1);
      assert s[1..][..k - 1] == s[1..k];
      if k < |s| {
        assert s[1..][k..] == s[k + 1..];
        assert [s[0]] + s[1..k] == s[..k];
      } else {
        assert [s[0]] + s[1..] == s;
      }
    }
  }

  /** With a one-character separator no part contains the separator. */
  lemma {:induction false} SplitCharPartsFree(s: string, c: char)
    ensures forall p :: p in Split(s, [c]) ==> c !in p
    decreases |s|
  {
    if |s| >= 1 && s[..1] != [c] {
      SplitCharPartsFree(s[1..], c);
      assert s[0] != c by { assert s[..1] == [s[0]]; }
    } else if |s| >= 1 {
      SplitCharPartsFree(s[1..], c);
    }
  }

  /**
   * Splitting a join on a one-character separator that no part contains
   * gives the parts back: the inverse of `JoinSplit`.
   */
  lemma {:induction false} SplitJoin(parts: seq<string>, c: char)
    requires |parts| >= 1 && forall i :: 0 <= i < |parts| ==> c !in parts[i]
    ensures Split(Join(parts, [c]), [c]) == parts
    decreases |parts|
  {
    var p := parts[0];
    if |parts| == 1 {
      SplitCharFirst(p, c, |p|);
      assert p[..|p|] == p;
    } else {
      var rest := parts[1..];
      JoinCons(p, rest, [c]);
      assert parts == [p] + rest;
      var s := Join(parts, [c]);
      assert s[..|p|] == p && s[|p|] == c;
      assert s[|p| + 1..] == Join(rest, [c]);
      SplitCharFirst(s, c, |p|);
      SplitJoin(rest, c);
    }
  }

  /** The index of the first `c` in `s`, or `|s|` when there is none. */
  function FirstIndex(s: string, c: char): (k: nat)
    ensures k <= |s| && c !in s[..k]
    ensures k == |s| || s[k] == c
    decreases |s|
  {
    if s == [] then 0
    else if s[0] == c then 0
    else
      var k := 1 + FirstIndex(s[1..], c);
      assert s[..k] == [s[0]] + s[1..][..k - 1];
      k
  }

  /** Python's `s.replace(pat, rep)`: every non-overlapping occurrence, left to right. */
  function ReplaceAll(s: string, pat: string, rep: string): string
    requires |pat| > 0
    decreases |s|
  {
    if |s| < |pat| then s
    else if s[..|pat|] == pat then rep + ReplaceAll(s[|pat|..], pat, rep)
    else [s[0]] + ReplaceAll(s[1..], pat, rep)
  }

  /**
   * Replacing is splitting on the pattern and joining with the replacement,
   * the identity `s.replace(a, b) == b.join(s.split(a))`.
   */
  lemma {:induction false} ReplaceIsJoinSplit(s: string, pat: string, rep: string)
    requires |pat| > 0
    ensures ReplaceAll(s, pat, rep) == Join(Split(s, pat), rep)
    decreases |s|
  {
    if |s| < |pat| {
    } else if s[..|pat|] == pat {
      var rest := Split(s[|pat|..], pat);
      ReplaceIsJoinSplit(s[|pat|..], pat, rep);
      JoinCons([], rest, rep);
    } else {
      var rest := Split(s[1..], pat);
      ReplaceIsJoinSplit(s[1..], pat, rep);
      JoinConsHead(s[0], rest, rep);
    }
  }

  /** Replacing a text that does not occur changes nothing. */
  lemma {:induction false} ReplaceAbsent(s: string, pat: string, rep: string)
    requires |pat| > 0
    requires forall i :: !OccursAt(s, pat, i)
    ensures ReplaceAll(s, pat, rep) == s
    decreases |s|
  {
    if |s| >= |pat| {
      assert !OccursAt(s, pat, 0);
      forall i ensures !OccursAt(s[1..], pat, i) {
        if OccursAt(s[1..], pat, i) {
          assert s[1..][i..i + |pat|] == s[i + 1..i + 1 + |pat|];
          assert OccursAt(s, pat, i + 1);
        }
      }
      ReplaceAbsent(s[1..], pat, rep);
    }
  }

  /** `s` with every character of `bad` removed, order kept. */
  function RemoveChars(s: string, bad: set<char>): (r: string)
    ensures forall i :: 0 <= i < |r| ==> r[i] !in bad
    ensures |r| <= |s|
    decreases |s|
  {
    if s == [] then []
    else if s[0] in bad then RemoveChars(s[1..], bad)
    else [s[0]] + RemoveChars(s[1..], bad)
  }

  /** Every character outside `bad` survives removal as often as it occurred. */
  lemma {:induction false} RemoveCharsKeepsOthers(s: string, bad: set<char>)
    ensures forall c :: c !in bad ==> multiset(RemoveChars(s, bad))[c] == multiset(s)[c]
    decreases |s|
  {
    if s != [] {
      RemoveCharsKeepsOthers(s[1..], bad);
      assert s == [s[0]] + s[1..];
    }
  }

  lemma {:induction false} RemoveCharsAppend(a: string, b: string, bad: set<char>)
    ensures RemoveChars(a + b, bad) == RemoveChars(a, bad) + RemoveChars(b, bad)
    decreases |a|
  {
    if a == [] {
      assert a + b == b;
    } else {
      var ab := a + b;
      assert ab[0] == a[0] && ab[1..] == a[1..] + b;
      RemoveCharsAppend(a[1..], b, bad);
      if a[0] in bad {
        assert RemoveChars(ab, bad) == RemoveChars(ab[1..], bad);
      } else {
        assert RemoveChars(ab, bad) == [a[0]] + RemoveChars(ab[1..], bad);
      }
    }
  }

  /** Removing the characters of `bad` a second time changes nothing. */
  lemma {:induction false} RemoveCharsIdempotent(s: string, bad: set<char>)
    ensures RemoveChars(RemoveChars(s, bad), bad) == RemoveChars(s, bad)
    decreases |s|
  {
    if s != [] {
      RemoveCharsIdempotent(s[1..], bad);
      if s[0] !in bad {
        var r := RemoveChars(s[1..], bad);
        assert ([s[0]] + r)[1..] == r;
      }
    }
  }
}
