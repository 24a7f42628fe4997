/** The Python string operations the permalink rewriter relies on:
    `str.rfind` for one character and `str.replace` (replace every
    non-overlapping occurrence, scanning left to right), together with
    `str.split`/`str.join`, which give `str.replace` an independent
    reference definition. */
module Text {

  /** `s.rfind(c)`: the index of the last `c` in `s`, or -1 when there is none. */
  function RFind(s: string, c: char): (r: int)
    ensures -1 <= r < |s|
    ensures r == -1 <==> c !in s
    ensures 0 <= r ==> s[r] == c && c !in s[r + 1..]
  {
    if s == [] then -1
    else if s[|s| - 1] == c then |s| - 1
    else
      assert s == s[..|s| - 1] + [s[|s| - 1]];
      var r := RFind(s[..|s| - 1], c);
      assert 0 <= r ==> s[r + 1..] == s[..|s| - 1][r + 1..] + [s[|s| - 1]];
      r
  }

  /** `pat in s` for a non-empty or empty pattern: `pat` starts at some index of `s`. */
  predicate Occurs(s: string, pat: string)
    decreases |s|
  {
    |pat| <= |s| && (s[..|pat|] == pat || Occurs(s[1..], pat))
  }

  /** `pat` sits in `s` starting at index `i`. */
  predicate MatchAt(s: string, pat: string, i: int)
  {
    0 <= i <= |s| - |pat| && s[i..i + |pat|] == pat
  }

  /** `Occurs` agrees with the positional reading "some slice of `s` is `pat`". */
  lemma {:induction false} OccursAt(s: string, pat: string)
    ensures Occurs(s, pat) <==> exists i :: MatchAt(s, pat, i)
    decreases |s|
  {
    if |pat| <= |s| && s[..|pat|] != pat {
      OccursAt(s[1..], pat);
      if Occurs(s[1..], pat) {
        var i :| MatchAt(s[1..], pat, i);
        assert s[i + 1..i + 1 + |pat|] == s[1..][i..i + |pat|];
        assert MatchAt(s, pat, i + 1);
      }
      if exists i :: MatchAt(s, pat, i) {
        var i :| MatchAt(s, pat, i);
        assert i != 0;
        assert s[1..][i - 1..i - 1 + |pat|] == s[i..i + |pat|];
        assert MatchAt(s[1..], pat, i - 1);
      }
    } else if |pat| <= |s| {
      assert MatchAt(s, pat, 0);
    } else {
      assert forall i :: !MatchAt(s, pat, i);
    }
  }

  /** `s.replace(pat, rep)` for a non-empty `pat`: every occurrence found
      scanning left to right, and not overlapping an earlier one, becomes `rep`.
      A text in which the pattern does not occur is returned unchanged. */
  function ReplaceAll(s: string, pat: string, rep: string): (r: string)
    requires |pat| > 0
    ensures !Occurs(s, pat) ==> r == s
    decreases |s|
  {
    if |s| < |pat| then s
    else if s[..|pat|] == pat then rep + ReplaceAll(s[|pat|..], pat, rep)
    else
      assert s == [s[0]] + s[1..];
      [s[0]] + ReplaceAll(s[1..], pat, rep)
  }

  /** `s.split(pat)` for a non-empty `pat`: the pieces between the occurrences. */
  function Split(s: string, pat: string): (parts: seq<string>)
    requires |pat| > 0
    ensures |parts| > 0
    decreases |s|
  {
    if |s| < |pat| then [s]
    else if s[..|pat|] == pat then [""] + Split(s[|pat|..], pat)
    else
      var rest := Split(s[1..], pat);
      [[s[0]] + rest[0]] + rest[1..]
  }

  /** `sep.join(parts)`. */
  function Join(parts: seq<string>, sep: string): string
    decreases |parts|
  {
    if parts == [] then ""
    else if |parts| == 1 then parts[0]
    else parts[0] + sep + Join(parts[1..], sep)
  }

  /** Gluing a character onto the first piece glues it onto the joined text. */
  lemma JoinConsFirst(c: char, parts: seq<string>, sep: string)
    requires |parts| > 0
    ensures Join([[c] + parts[0]] + parts[1..], sep) == [c] + Join(parts, sep)
  {
  }

  /** `s.replace(pat, rep) == rep.join(s.split(pat))`: replacing is splitting at
      every occurrence and joining the pieces with the replacement. */
  lemma {:induction false} ReplaceAllIsSplitJoin(s: string, pat: string, rep: string)
    requires |pat| > 0
    ensures ReplaceAll(s, pat, rep) == Join(Split(s, pat), rep)
    decreases |s|
  {
    if |s| < |pat| {
    } else if s[..|pat|] == pat {
      var rest := Split(s[|pat|..], pat);
      ReplaceAllIsSplitJoin(s[|pat|..], pat, rep);
      assert ([""] + rest)[1..] == rest;
      assert Join([""] + rest, rep) == "" + rep + Join(rest, rep);
    } else {
      ReplaceAllIsSplitJoin(s[1..], pat, rep);
      JoinConsFirst(s[0], Split(s[1..], pat), rep);
    }
  }

  /** `pat.join(s.split(pat)) == s`: splitting loses nothing. */
  lemma {:induction false} JoinSplitIsIdentity(s: string, pat: string)
    requires |pat| > 0
    ensures Join(Split(s, pat), pat) == s
    decreases |s|
  {
    if |s| < |pat| {
    } else if s[..|pat|] == pat {
      var tail := s[|pat|..];
      var rest := Split(tail, pat);
      assert Split(s, pat) == [""] + rest;
      assert Join([""] + rest, pat) == s by {
        JoinSplitIsIdentity(tail, pat);
        assert ([""] + rest)[1..] == rest;
        assert s == pat + tail;
      }
    } else {
      var rest := Split(s[1..], pat);
      assert Split(s, pat) == [[s[0]] + rest[0]] + rest[1..];
      assert Join([[s[0]] + rest[0]] + rest[1..], pat) == s by {
        JoinSplitIsIdentity(s[1..], pat);
        JoinConsFirst(s[0], rest, pat);
        assert s == [s[0]] + s[1..];
      }
    }
  }

  /** Replacing a pattern by itself changes nothing. */
  lemma {:induction false} ReplaceAllBySelf(s: string, pat: string)
    requires |pat| > 0
    ensures ReplaceAll(s, pat, pat) == s
  {
    ReplaceAllIsSplitJoin(s, pat, pat);
    JoinSplitIsIdentity(s, pat);
  }

  /** Replacing by a longer text never shortens the string, and lengthens it
      when the pattern occurs; symmetrically for a shorter replacement. */
  lemma {:induction false} ReplaceAllLength(s: string, pat: string, rep: string)
    requires |pat| > 0
    ensures |rep| >= |pat| ==> |ReplaceAll(s, pat, rep)| >= |s|
    ensures |rep| <= |pat| ==> |ReplaceAll(s, pat, rep)| <= |s|
    ensures Occurs(s, pat) && |rep| > |pat| ==> |ReplaceAll(s, pat, rep)| > |s|
    ensures Occurs(s, pat) && |rep| < |pat| ==> |ReplaceAll(s, pat, rep)| < |s|
    decreases |s|
  {
    if |s| < |pat| {
    } else if s[..|pat|] == pat {
      ReplaceAllLength(s[|pat|..], pat, rep);
    } else {
      ReplaceAllLength(s[1..], pat, rep);
    }
  }

  /** The converse of `ReplaceAll`'s contract: when the pattern occurs
      and the replacement differs from it, the text changes. */
  lemma {:induction false} ReplaceAllChangesOccurrence(s: string, pat: string, rep: string)
    requires |pat| > 0
    requires Occurs(s, pat) && rep != pat
    ensures ReplaceAll(s, pat, rep) != s
    decreases |s|
  {
    if |rep| != |pat| {
      ReplaceAllLength(s, pat, rep);
    } else if s[..|pat|] == pat {
      var r := ReplaceAll(s, pat, rep);
      assert r == rep + ReplaceAll(s[|pat|..], pat, rep);
      assert r[..|pat|] == rep;
    } else {
      ReplaceAllChangesOccurrence(s[1..], pat, rep);
      var r := ReplaceAll(s, pat, rep);
      assert r == [s[0]] + ReplaceAll(s[1..], pat, rep);
      assert r[1..] == ReplaceAll(s[1..], pat, rep);
    }
  }

  /** A cut after a character foreign to the pattern cannot be straddled:
      text shorter than the pattern before such a cut is kept as it is. */
  lemma {:induction false} ReplaceAllShortPrefix(a: string, b: string, pat: string, rep: string)
    requires |pat| > 0
    requires 0 < |a| < |pat| && a[|a| - 1] !in pat
    ensures ReplaceAll(a + b, pat, rep) == a + ReplaceAll(b, pat, rep)
    decreases |a|
  {
    var ab := a + b;
    if |ab| >= |pat| {
      assert ab[..|pat|] != pat by {
        assert ab[..|pat|][|a| - 1] == a[|a| - 1];
      }
      assert ReplaceAll(ab, pat, rep) == [a[0]] + ReplaceAll(ab[1..], pat, rep);
      assert ab[1..] == a[1..] + b;
      assert ReplaceAll(a[1..] + b, pat, rep) == a[1..] + ReplaceAll(b, pat, rep) by {
        if |a| == 1 {
          assert a[1..] + b == b;
        } else {
          ReplaceAllShortPrefix(a[1..], b, pat, rep);
        }
      }
      assert a == [a[0]] + a[1..];
    } else {
      assert ReplaceAll(b, pat, rep) == b;
    }
  }

  /** Replacing distributes over a cut that no occurrence can straddle: a cut
      right after a character that does not appear in the pattern. */
  lemma {:induction false} ReplaceAllConcat(a: string, b: string, pat: string, rep: string)
    requires |pat| > 0
    requires a == [] || a[|a| - 1] !in pat
    ensures ReplaceAll(a + b, pat, rep) == ReplaceAll(a, pat, rep) + ReplaceAll(b, pat, rep)
    decreases |a|
  {
    var ab := a + b;
    if a == [] {
      assert ab == b;
    } else if |a| < |pat| {
      ReplaceAllShortPrefix(a, b, pat, rep);
    } else if a[..|pat|] == pat {
      var a' := a[|pat|..];
      assert ab[..|pat|] == pat;
      assert ab[|pat|..] == a' + b;
      ReplaceAllConcat(a', b, pat, rep);
      assert ReplaceAll(a, pat, rep) == rep + ReplaceAll(a', pat, rep);
      assert ReplaceAll(ab, pat, rep) == rep + ReplaceAll(a' + b, pat, rep);
    } else {
      var a' := a[1..];
      assert ab[..|pat|] == a[..|pat|];
      assert ab[1..] == a' + b;
      ReplaceAllConcat(a', b, pat, rep);
      assert ReplaceAll(a, pat, rep) == [a[0]] + ReplaceAll(a', pat, rep);
      assert ReplaceAll(ab, pat, rep) == [a[0]] + ReplaceAll(a' + b, pat, rep);
    }
  }

  /** Text before the first place where the pattern can start is copied as it is. */
  lemma {:induction false} ReplaceAllSkipsPrefix(a: string, t: string, pat: string, rep: string)
    requires |pat| > 0
    requires forall i :: 0 <= i < |a| ==> !MatchAt(a + t, pat, i)
    ensures ReplaceAll(a + t, pat, rep) == a + ReplaceAll(t, pat, rep)
    decreases |a|
  {
    if a != [] {
      var s := a + t;
      assert !MatchAt(s, pat, 0);
      assert s[1..] == a[1..] + t;
      forall i | 0 <= i < |a| - 1
        ensures !MatchAt(a[1..] + t, pat, i)
      {
        assert !MatchAt(s, pat, i + 1);
        if i + |pat| <= |s| - 1 {
          assert (a[1..] + t)[i..i + |pat|] == s[i + 1..i + 1 + |pat|];
        }
      }
      ReplaceAllSkipsPrefix(a[1..], t, pat, rep);
      if |s| >= |pat| {
        assert s[..|pat|] != pat;
        assert s[0] == a[0];
        assert ReplaceAll(s, pat, rep) == [a[0]] + ReplaceAll(a[1..] + t, pat, rep);
        assert a == [a[0]] + a[1..];
      } else {
        assert ReplaceAll(t, pat, rep) == t;
      }
    } else {
      assert a + t == t;
    }
  }

  // ---------------------------------------------------------------------------
  // Slash-delimited segments

  /** A single path segment: text without a `/`. */
  predicate IsSegment(x: string)
  {
    '/' !in x
  }

  /** A pattern `/x/` cannot start before a slash and run past it when `x` is
      a segment, so a match that starts in `a` lies inside `a + "/"`. */
  lemma NoMatchBeforeSlash(a: string, t: string, x: string, i: int)
    requires IsSegment(x)
    requires !Occurs(a + "/", "/" + x + "/")
    requires 0 <= i < |a|
    ensures !MatchAt(a + "/" + t, "/" + x + "/", i)
  {
    var pat := "/" + x + "/";
    var s := a + "/" + t;
    OccursAt(a + "/", pat);
    assert !MatchAt(a + "/", pat, i);
    if i + |pat| <= |a| + 1 {
      assert (a + "/")[i..i + |pat|] == s[i..i + |pat|];
    } else if i + |pat| <= |s| {
      var j := |a| - i;
      assert s[i..i + |pat|][j] == '/';
      assert pat[j] == x[j - 1];
    }
  }

  /** A text with a slash in it contains `/x/` only if the part up to and
      including the slash, or the part from the slash on, does. */
  lemma SlashSplit(a: string, b: string, x: string)
    requires IsSegment(x)
    requires !Occurs(a + "/", "/" + x + "/") && !Occurs("/" + b, "/" + x + "/")
    ensures !Occurs(a + "/" + b, "/" + x + "/")
  {
    var pat := "/" + x + "/";
    var s := a + "/" + b;
    OccursAt("/" + b, pat);
    forall i | 0 <= i
      ensures !MatchAt(s, pat, i)
    {
      if i < |a| {
        NoMatchBeforeSlash(a, b, x, i);
      } else {
        assert !MatchAt("/" + b, pat, i - |a|);
        if i + |pat| <= |s| {
          assert s[i..i + |pat|] == ("/" + b)[i - |a|..i - |a| + |pat|];
        }
      }
    }
    OccursAt(s, pat);
  }

  /** `/y/` contains `/x/` only when the segments are equal. */
  lemma SegmentDelimited(y: string, x: string)
    requires IsSegment(x) && IsSegment(y) && y != x
    ensures !Occurs("/" + y + "/", "/" + x + "/")
  {
    var pat := "/" + x + "/";
    var s := "/" + y + "/";
    forall i | 0 <= i <= |s| - |pat|
      ensures !MatchAt(s, pat, i)
    {
      if i > 0 {
        assert s[i..i + |pat|][0] == y[i - 1];
        assert y[i - 1] != '/';
        assert s[i..i + |pat|][0] != pat[0];
      } else if |x| < |y| {
        assert s[i..i + |pat|][|x| + 1] == y[|x|];
        assert y[|x|] != '/';
        assert s[i..i + |pat|][|x| + 1] != pat[|x| + 1];
      } else {
        assert s[i..i + |pat|] == s;
        assert s[1..|y| + 1] == y;
        assert pat[1..|x| + 1] == x;
        assert s != pat;
      }
    }
    OccursAt(s, pat);
  }

  /** A segment other than `x`, put in front of text free of `/x/`, keeps
      it free of `/x/`. */
  lemma SegmentBefore(y: string, rest: string, x: string)
    requires IsSegment(x) && IsSegment(y) && y != x
    requires !Occurs("/" + rest, "/" + x + "/")
    ensures !Occurs("/" + (y + "/" + rest), "/" + x + "/")
  {
    SegmentDelimited(y, x);
    SlashSplit("/" + y, rest, x);
    assert "/" + y + "/" + rest == "/" + (y + "/" + rest);
  }

  /** The one occurrence of `/x/` between a text `a` and a text `b`, neither
      of which holds `/x/` even with that slash attached, is the one that
      gets replaced. */
  lemma ReplaceSegment(s: string, a: string, b: string, x: string, rep: string)
    requires IsSegment(x)
    requires s == a + "/" + x + "/" + b
    requires !Occurs(a + "/", "/" + x + "/") && !Occurs("/" + b, "/" + x + "/")
    ensures ReplaceAll(s, "/" + x + "/", rep) == a + rep + b
  {
    var pat := "/" + x + "/";
    var t := pat + b;
    assert ReplaceAll(a + t, pat, rep) == a + rep + b by {
      assert a + t == a + "/" + (x + "/" + b);
      forall i | 0 <= i < |a|
        ensures !MatchAt(a + t, pat, i)
      {
        NoMatchBeforeSlash(a, x + "/" + b, x, i);
      }
      ReplaceAllSkipsPrefix(a, t, pat, rep);
      assert ("/" + b)[1..] == b;
      assert !Occurs(b, pat);
      assert t[..|pat|] == pat;
      assert t[|pat|..] == b;
      assert ReplaceAll(t, pat, rep) == rep + b;
    }
    assert s == a + t;
  }
}
