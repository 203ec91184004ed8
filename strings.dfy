/** The three Python string operations the tracker relies on, and the username
    extraction built from two of them:

      username = profile_link.rstrip('/').split('/')[-1]     (app.py, line 65)

    `RStrip` is `str.rstrip(c)` for a single character, `Split` is
    `str.split(sep)` for a single-character separator, and `Contains` is the
    substring test `pat in s`. */
module Strings {

  /** `s.rstrip(c)`: `s` with every trailing `c` removed. The result is a
      prefix of `s`, does not end in `c`, and only copies of `c` were cut. */
  function RStrip(s: string, c: char): (r: string)
    ensures r <= s
    ensures r == [] || r[|r| - 1] != c
    ensures forall i :: |r| <= i < |s| ==> s[i] == c
    decreases |s|
  {
    if |s| > 0 && s[|s| - 1] == c then RStrip(s[..|s| - 1], c) else s
  }

  /** `n` copies of the character `c`. */
  function Repeat(c: char, n: nat): (r: string)
    ensures |r| == n
    ensures forall i :: 0 <= i < n ==> r[i] == c
  {
    if n == 0 then [] else Repeat(c, n - 1) + [c]
  }

  /** The three facts in RStrip's contract determine its result: any prefix of
      `s` that does not end in `c` and is followed only by copies of `c` is
      `RStrip(s, c)`. */
  lemma RStripUnique(s: string, c: char, r: string)
    requires r <= s
    requires r == [] || r[|r| - 1] != c
    requires forall i :: |r| <= i < |s| ==> s[i] == c
    ensures r == RStrip(s, c)
  {
    var r' := RStrip(s, c);
    assert |r| == |r'|;
  }

  /** Appending any number of copies of the stripped character changes
      nothing: the result depends only on what precedes the trailing run. */
  lemma RStripIgnoresTrailing(s: string, c: char, n: nat)
    ensures RStrip(s + Repeat(c, n), c) == RStrip(s, c)
  {
    var t := s + Repeat(c, n);
    var r := RStrip(s, c);
    forall i | |r| <= i < |t| ensures t[i] == c {
      if i >= |s| {
        assert t[i] == Repeat(c, n)[i - |s|];
      }
    }
    assert r <= t by {
      assert t[..|s|] == s;
    }
    RStripUnique(t, c, r);
  }

  /** Stripping twice is stripping once. */
  lemma RStripIdempotent(s: string, c: char)
    ensures RStrip(RStrip(s, c), c) == RStrip(s, c)
  {
    var r := RStrip(s, c);
    RStripUnique(r, c, r);
  }

  /** `s.split(sep)`: the pieces of `s` between occurrences of `sep`, in
      order. As in Python there is always at least one piece (`"".split("/")`
      is `[""]`), and no piece contains the separator. */
  function Split(s: string, sep: char): (parts: seq<string>)
    ensures |parts| >= 1
    ensures forall k :: 0 <= k < |parts| ==> sep !in parts[k]
    ensures |parts| == 1 <==> sep !in s
    decreases |s|
  {
    if s == [] then [[]]
    else
      var rest := Split(s[1..], sep);
      if s[0] == sep then [[]] + rest
      else [[s[0]] + rest[0]] + rest[1..]
  }

  /** `sep.join(parts)`, the inverse of `Split`. */
  function Join(parts: seq<string>, sep: char): string
    requires |parts| >= 1
    decreases |parts|
  {
    if |parts| == 1 then parts[0] else parts[0] + [sep] + Join(parts[1..], sep)
  }

  /** Splitting loses nothing: joining the pieces gives back the string. */
  lemma {:induction false} JoinSplit(s: string, sep: char)
    ensures Join(Split(s, sep), sep) == s
    decreases |s|
  {
    if s != [] {
      JoinSplit(s[1..], sep);
      var rest := Split(s[1..], sep);
      if s[0] == sep {
        assert Split(s, sep)[1..] == rest;
        assert [sep] + s[1..] == s;
      } else {
        var parts := Split(s, sep);
        assert parts[0] == [s[0]] + rest[0];
        if |rest| == 1 {
          assert Join(parts, sep) == [s[0]] + rest[0];
        } else {
          assert parts[1..] == rest[1..];
          assert Join(parts, sep) == [s[0]] + rest[0] + [sep] + Join(rest[1..], sep);
        }
        assert [s[0]] + s[1..] == s;
      }
    }
  }

  /** Splitting a string that starts with a separator-free piece followed by
      the separator yields that piece first. */
  lemma {:induction false} SplitPieceThenSep(p: string, sep: char, t: string)
    requires sep !in p
    ensures Split(p + [sep] + t, sep) == [p] + Split(t, sep)
    decreases |p|
  {
    var s := p + [sep] + t;
    if p == [] {
      assert s[1..] == t;
    } else {
      assert s[0] == p[0];
      assert s[1..] == p[1..] + [sep] + t;
      SplitPieceThenSep(p[1..], sep, t);
      assert [p[0]] + p[1..] == p;
    }
  }

  /** A string without the separator is a single piece. */
  lemma {:induction false} SplitNoSep(p: string, sep: char)
    requires sep !in p
    ensures Split(p, sep) == [p]
    decreases |p|
  {
    if p != [] {
      SplitNoSep(p[1..], sep);
      assert [p[0]] + p[1..] == p;
    }
  }

  /** Joining separator-free pieces and splitting again gives back the pieces. */
  lemma {:induction false} SplitJoin(parts: seq<string>, sep: char)
    requires |parts| >= 1
    requires forall k :: 0 <= k < |parts| ==> sep !in parts[k]
    ensures Split(Join(parts, sep), sep) == parts
    decreases |parts|
  {
    if |parts| == 1 {
      SplitNoSep(parts[0], sep);
    } else {
      SplitJoin(parts[1..], sep);
      SplitPieceThenSep(parts[0], sep, Join(parts[1..], sep));
      assert [parts[0]] + parts[1..] == parts;
    }
  }

  /** The last element of a non-empty sequence (Python's `xs[-1]`). */
  function Last<T>(xs: seq<T>): T
    requires |xs| > 0
  {
    xs[|xs| - 1]
  }

  /** The last piece of `s.split(sep)` is the longest separator-free suffix of
      `s`: it is a suffix, it holds no separator, and it is either all of `s`
      or preceded by a separator. */
  lemma {:induction false} LastPieceIsSuffix(s: string, sep: char)
    ensures var seg := Last(Split(s, sep));
      && |seg| <= |s|
      && s[|s| - |seg|..] == seg
      && sep !in seg
      && (|seg| == |s| || s[|s| - |seg| - 1] == sep)
    decreases |s|
  {
    if s != [] {
      LastPieceIsSuffix(s[1..], sep);
      var rest := Split(s[1..], sep);
      var parts := Split(s, sep);
      var seg := Last(rest);
      if s[0] == sep {
        assert Last(parts) == seg;
      } else if |rest| > 1 {
        assert Last(parts) == seg;
        assert |seg| < |s| - 1;
        assert s[|s| - |seg|..] == s[1..][|s| - 1 - |seg|..];
      } else {
        assert Last(parts) == [s[0]] + rest[0];
        assert rest[0] == s[1..];
        assert [s[0]] + s[1..] == s;
      }
    }
  }

  /** The last piece is determined by LastPieceIsSuffix's description: after
      the last separator of `pre + [sep] + seg` comes exactly `seg`. */
  lemma LastPieceAfterSep(pre: string, sep: char, seg: string)
    requires sep !in seg
    ensures Last(Split(pre + [sep] + seg, sep)) == seg
  {
    var s := pre + [sep] + seg;
    var seg' := Last(Split(s, sep));
    LastPieceIsSuffix(s, sep);
    forall j | |s| - |seg'| <= j < |s| ensures s[j] != sep {
      assert s[j] == seg'[j - (|s| - |seg'|)];
    }
    assert s[|pre|] == sep;
    assert |seg'| >= |seg|;
    assert s[|s| - |seg|..] == seg;
  }

  /** The username the tracker derives from a profile link (app.py, line 65). */
  function Username(link: string): (u: string)
    ensures '/' !in u
  {
    Last(Split(RStrip(link, '/'), '/'))
  }

  /** Trailing slashes on a link, any number of them, leave its username
      unchanged. */
  lemma UsernameIgnoresTrailingSlashes(link: string, n: nat)
    ensures Username(link + Repeat('/', n)) == Username(link)
  {
    RStripIgnoresTrailing(link, '/', n);
  }

  /** The username of `base/seg`, with or without one trailing slash, is `seg`
      when `seg` is a non-empty path segment. */
  lemma UsernameOfProfileUrl(base: string, seg: string)
    requires seg != [] && '/' !in seg
    ensures Username(base + "/" + seg) == seg
    ensures Username(base + "/" + seg + "/") == seg
  {
    var link := base + "/" + seg;
    assert link[|link| - 1] == seg[|seg| - 1] != '/';
    assert RStrip(link, '/') == link;
    LastPieceAfterSep(base, '/', seg);
    UsernameIgnoresTrailingSlashes(link, 1);
    assert Repeat('/', 1) == "/";
  }

  /** A link yields an empty username exactly when it consists of slashes
      only (the empty link included). */
  lemma UsernameEmptyIff(link: string)
    ensures Username(link) == [] <==> forall i :: 0 <= i < |link| ==> link[i] == '/'
  {
    var r := RStrip(link, '/');
    LastPieceIsSuffix(r, '/');
    if r != [] {
      assert r[|r| - 1] == link[|r| - 1] != '/';
      assert Username(link) != [];
    } else {
      assert Split(r, '/') == [[]];
    }
  }

  /** `pat` occurs in `s` starting at index `i`. */
  predicate OccursAt(s: string, pat: string, i: nat)
  {
    i + |pat| <= |s| && s[i..i + |pat|] == pat
  }

  /** Python's substring test `pat in s`. */
  function Contains(s: string, pat: string): bool
    decreases |s|
  {
    pat <= s || (s != [] && Contains(s[1..], pat))
  }

  /** `Contains` holds exactly when `pat` occurs at some index of `s`. */
  lemma {:induction false} ContainsIff(s: string, pat: string)
    ensures Contains(s, pat) <==> exists i: nat :: OccursAt(s, pat, i)
    decreases |s|
  {
    if pat <= s {
      assert OccursAt(s, pat, 0);
    } else if s == [] {
      assert forall i: nat :: !OccursAt(s, pat, i);
    } else {
      ContainsIff(s[1..], pat);
      OccursShift(s, pat);
    }
  }

  /** An occurrence in a non-empty `s` is at index 0, or is an occurrence in
      `s[1..]` moved one place to the right. */
  lemma OccursShift(s: string, pat: string)
    requires s != []
    ensures (exists i: nat :: OccursAt(s, pat, i))
        <==> (pat <= s || exists i: nat :: OccursAt(s[1..], pat, i))
  {
    if pat <= s {
      assert OccursAt(s, pat, 0);
    }
    forall i: nat | OccursAt(s[1..], pat, i) ensures OccursAt(s, pat, i + 1) {
      assert s[i + 1..i + 1 + |pat|] == s[1..][i..i + |pat|];
    }
    forall i: nat | 0 < i && OccursAt(s, pat, i) ensures OccursAt(s[1..], pat, i - 1) {
      assert s[1..][i - 1..i - 1 + |pat|] == s[i..i + |pat|];
    }
  }

  /** `pat` occurs in `p + pat + q` right after `p`. */
  lemma OccursInMiddle(p: string, pat: string, q: string)
    ensures OccursAt(p + pat + q, pat, |p|)
  {
    var s := p + pat + q;
    assert s[|p|..|p| + |pat|] == pat;
  }

  /** A string that lacks the first character of `pat` does not contain it. */
  lemma NotContainsFirstChar(s: string, pat: string)
    requires pat != [] && pat[0] !in s
    ensures !Contains(s, pat)
  {
    ContainsIff(s, pat);
    forall i: nat | i < |s| ensures !OccursAt(s, pat, i) {
      assert s[i] != pat[0];
      assert i + |pat| <= |s| ==> s[i..i + |pat|][0] == s[i];
    }
  }

  /** The domain marker a profile link must contain (app.py, line 62). */
  const Marker: string := "leetcode.com"

  /** A link that contains the marker has a non-empty username: its last
      character `m` is not a slash, so stripping stops at or after it. */
  lemma UsernameOfMarkedLinkNonEmpty(link: string)
    requires Contains(link, Marker)
    ensures Username(link) != []
  {
    ContainsIff(link, Marker);
    var i: nat :| OccursAt(link, Marker, i);
    assert link[i + 11] == link[i..i + 12][11] == 'm';
    UsernameEmptyIff(link);
  }
}
