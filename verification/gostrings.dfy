/**
  The two pieces of Go's `strings` package that feature-list resolution uses:
  `strings.Split` with a one-character separator and `strings.TrimSpace`.
  Strings are sequences of characters; whitespace is the ASCII set Go
  tests first (tab, newline, vertical tab, form feed, carriage return, space).
 */
module GoStrings {

  /** Go's ASCII whitespace table. */
  predicate IsSpace(c: char) {
    c == ' ' || c == '\t' || c == '\n' || c == '\U{B}' || c == '\U{C}' || c == '\r'
  }

  /** Every character of `s` is whitespace. */
  predicate AllSpace(s: string) {
    forall k :: 0 <= k < |s| ==> IsSpace(s[k])
  }

  /** `s` neither starts nor ends with whitespace. */
  predicate Trimmed(s: string) {
    s == [] || (!IsSpace(s[0]) && !IsSpace(s[|s| - 1]))
  }

  // ---------------------------------------------------------------------------
  // Split and Join
  // ---------------------------------------------------------------------------

  /**
    `strings.Split(s, string(sep))`: the pieces of `s` between occurrences of
    `sep`. An input without a separator, including the empty string, yields
    one piece; `n` separators yield `n + 1` pieces, some possibly empty.
   */
  function Split(s: string, sep: char): (parts: seq<string>)
    ensures |parts| >= 1
    decreases |s|
  {
    if |s| == 0 then [""]
    else
      var rest := Split(s[1..], sep);
      assert s == [s[0]] + s[1..];
      if s[0] == sep then [""] + rest
      else [[s[0]] + rest[0]] + rest[1..]
  }

  /** No piece contains the separator. */
  lemma {:induction false} SplitPiecesLackSeparator(s: string, sep: char)
    ensures forall i :: 0 <= i < |Split(s, sep)| ==> sep !in Split(s, sep)[i]
    decreases |s|
  {
    if |s| > 0 {
      var rest := Split(s[1..], sep);
      SplitPiecesLackSeparator(s[1..], sep);
      if s[0] != sep {
        var first := [s[0]] + rest[0];
        assert sep !in first;
        assert Split(s, sep) == [first] + rest[1..];
      } else {
        assert Split(s, sep) == [""] + rest;
      }
    }
  }

  /** `n` occurrences of the separator give exactly `n + 1` pieces. */
  lemma {:induction false} SplitCount(s: string, sep: char)
    ensures |Split(s, sep)| == multiset(s)[sep] + 1
    decreases |s|
  {
    if |s| > 0 {
      SplitCount(s[1..], sep);
      assert s == [s[0]] + s[1..];
      assert multiset(s) == multiset{s[0]} + multiset(s[1..]);
    }
  }

  /** One step of Split: the first character either ends the first piece or joins it. */
  lemma SplitCons(c: char, r: string, sep: char)
    ensures Split([c] + r, sep)
            == if c == sep then [""] + Split(r, sep) else [[c] + Split(r, sep)[0]] + Split(r, sep)[1..]
  {
    assert ([c] + r)[0] == c && ([c] + r)[1..] == r;
  }

  /** A separator in the middle splits the two sides independently. */
  lemma {:induction false} SplitAppend(a: string, sep: char, t: string)
    ensures Split(a + [sep] + t, sep) == Split(a, sep) + Split(t, sep)
    decreases |a|
  {
    if |a| == 0 {
      assert a + [sep] + t == [sep] + t;
      SplitCons(sep, t, sep);
    } else {
      var c, r := a[0], a[1..];
      assert a == [c] + r;
      assert a + [sep] + t == [c] + (r + [sep] + t);
      SplitAppend(r, sep, t);
      SplitCons(c, r + [sep] + t, sep);
      SplitCons(c, r, sep);
      SplitConcatHelper(c, sep, Split(r, sep), Split(t, sep));
    }
  }

  /** The list algebra behind SplitAppend's inductive step. */
  lemma SplitConcatHelper(c: char, sep: char, ra: seq<string>, rt: seq<string>)
    requires |ra| >= 1
    ensures c == sep ==> [""] + (ra + rt) == ([""] + ra) + rt
    ensures c != sep ==> [[c] + (ra + rt)[0]] + (ra + rt)[1..] == ([[c] + ra[0]] + ra[1..]) + rt
  {
    assert (ra + rt)[0] == ra[0];
    assert (ra + rt)[1..] == ra[1..] + rt;
  }

  /** `strings.Join(parts, string(sep))` for a non-empty list of pieces. */
  function Join(parts: seq<string>, sep: char): string
    requires |parts| >= 1
    decreases |parts|
  {
    if |parts| == 1 then parts[0] else parts[0] + [sep] + Join(parts[1..], sep)
  }

  /** Joining the pieces back with the separator restores the input. */
  lemma {:induction false} JoinSplit(s: string, sep: char)
    ensures Join(Split(s, sep), sep) == s
    decreases |s|
  {
    if |s| > 0 {
      var rest := Split(s[1..], sep);
      JoinSplit(s[1..], sep);
      assert s == [s[0]] + s[1..];
      if s[0] == sep {
        var parts := [""] + rest;
        assert Split(s, sep) == parts;
        assert parts[1..] == rest;
        assert Join(parts, sep) == "" + [sep] + Join(rest, sep);
      } else {
        var parts := [[s[0]] + rest[0]] + rest[1..];
        assert Split(s, sep) == parts;
        if |rest| == 1 {
          assert Join(parts, sep) == [s[0]] + rest[0];
        } else {
          assert parts[1..] == rest[1..];
          assert Join(parts, sep) == ([s[0]] + rest[0]) + [sep] + Join(rest[1..], sep);
          assert Join(rest, sep) == rest[0] + [sep] + Join(rest[1..], sep);
        }
      }
    }
  }

  /** A string without the separator splits into itself. */
  lemma {:induction false} SplitNoSeparator(p: string, sep: char)
    requires sep !in p
    ensures Split(p, sep) == [p]
    decreases |p|
  {
    if |p| > 0 {
      assert sep !in p[1..] by {
        forall k | 0 <= k < |p[1..]| ensures p[1..][k] != sep {
          assert p[1..][k] == p[k + 1];
        }
      }
      SplitNoSeparator(p[1..], sep);
      assert [p[0]] + p[1..] == p;
    }
  }

  /** A separator-free piece followed by the separator splits off as one piece. */
  lemma {:induction false} SplitPrefix(p: string, sep: char, t: string)
    requires sep !in p
    ensures Split(p + [sep] + t, sep) == [p] + Split(t, sep)
    decreases |p|
  {
    var s := p + [sep] + t;
    if |p| == 0 {
      assert s[0] == sep && s[1..] == t;
    } else {
      assert s[0] == p[0];
      assert s[1..] == p[1..] + [sep] + t;
      assert sep !in p[1..] by {
        forall k | 0 <= k < |p[1..]| ensures p[1..][k] != sep {
          assert p[1..][k] == p[k + 1];
        }
      }
      SplitPrefix(p[1..], sep, t);
      assert [p[0]] + p[1..] == p;
    }
  }

  /** Splitting a join of separator-free pieces recovers the pieces. */
  lemma {:induction false} SplitJoin(parts: seq<string>, sep: char)
    requires |parts| >= 1
    requires forall i :: 0 <= i < |parts| ==> sep !in parts[i]
    ensures Split(Join(parts, sep), sep) == parts
    decreases |parts|
  {
    if |parts| == 1 {
      SplitNoSeparator(parts[0], sep);
    } else {
      SplitJoin(parts[1..], sep);
      SplitPrefix(parts[0], sep, Join(parts[1..], sep));
      assert [parts[0]] + parts[1..] == parts;
    }
  }

  // ---------------------------------------------------------------------------
  // TrimSpace
  // ---------------------------------------------------------------------------

  /** Drops the leading whitespace of `s`. */
  function TrimLeft(s: string): string
    decreases |s|
  {
    if |s| > 0 && IsSpace(s[0]) then TrimLeft(s[1..]) else s
  }

  /** Drops the trailing whitespace of `s`. */
  function TrimRight(s: string): string
    decreases |s|
  {
    if |s| > 0 && IsSpace(s[|s| - 1]) then TrimRight(s[..|s| - 1]) else s
  }

  /** TrimLeft keeps a suffix, cuts only whitespace, and stops at a non-space. */
  lemma {:induction false} TrimLeftSpec(s: string)
    ensures |TrimLeft(s)| <= |s| && TrimLeft(s) == s[|s| - |TrimLeft(s)|..]
    ensures AllSpace(s[..|s| - |TrimLeft(s)|])
    ensures TrimLeft(s) == [] || !IsSpace(TrimLeft(s)[0])
    decreases |s|
  {
    if |s| > 0 && IsSpace(s[0]) {
      var r := s[1..];
      var t := TrimLeft(r);
      assert TrimLeft(s) == t;
      TrimLeftSpec(r);
      assert t == s[|s| - |t|..] by {
        assert r[|r| - |t|..] == s[|s| - |t|..];
      }
      assert AllSpace(s[..|s| - |t|]) by {
        assert s[..|s| - |t|] == [s[0]] + r[..|r| - |t|];
      }
    }
  }

  /** TrimRight keeps a prefix, cuts only whitespace, and stops at a non-space. */
  lemma {:induction false} TrimRightSpec(s: string)
    ensures |TrimRight(s)| <= |s| && TrimRight(s) == s[..|TrimRight(s)|]
    ensures AllSpace(s[|TrimRight(s)|..])
    ensures TrimRight(s) == [] || !IsSpace(TrimRight(s)[|TrimRight(s)| - 1])
    decreases |s|
  {
    if |s| > 0 && IsSpace(s[|s| - 1]) {
      var t := TrimRight(s[..|s| - 1]);
      TrimRightSpec(s[..|s| - 1]);
      assert s[|t|..] == s[..|s| - 1][|t|..] + [s[|s| - 1]];
    }
  }

  /**
    `strings.TrimSpace`: `s` with its leading and trailing whitespace removed;
    the result neither starts nor ends with whitespace.
   */
  function TrimSpace(s: string): (t: string)
    ensures Trimmed(t) && |t| <= |s|
  {
    var l := TrimLeft(s);
    var t := TrimRight(l);
    TrimLeftSpec(s);
    TrimRightSpec(l);
    assert Trimmed(t) by {
      if t != [] {
        assert t[0] == l[0];
      }
    }
    t
  }

  /**
    What TrimSpace removes is whitespace only, and what it keeps is one
    contiguous slice of the input.
   */
  lemma TrimSpaceIsSlice(s: string)
    ensures exists i :: 0 <= i <= |s| - |TrimSpace(s)| && TrimSpace(s) == s[i..i + |TrimSpace(s)|]
                        && AllSpace(s[..i]) && AllSpace(s[i + |TrimSpace(s)|..])
  {
    var l := TrimLeft(s);
    var t := TrimRight(l);
    TrimLeftSpec(s);
    TrimRightSpec(l);
    var i := |s| - |l|;
    assert t == s[i..i + |t|] by {
      assert l == s[i..];
      assert t == l[..|t|];
    }
    assert AllSpace(s[i + |t|..]) by {
      assert s[i + |t|..] == l[|t|..];
    }
  }

  /**
    TrimSpace is determined by its contract: whenever `s` is whitespace, then a
    trimmed core, then whitespace, TrimSpace returns exactly that core.
   */
  lemma {:induction false} TrimSpaceUnique(a: string, m: string, b: string)
    requires AllSpace(a) && AllSpace(b) && Trimmed(m)
    ensures TrimSpace(a + m + b) == m
  {
    var s := a + m + b;
    if m == [] {
      assert s == a + b;
      assert AllSpace(a + b) by {
        forall k | 0 <= k < |a + b| ensures IsSpace((a + b)[k]) {
          if k >= |a| {
            assert (a + b)[k] == b[k - |a|];
          }
        }
      }
      TrimLeftAllSpace(a + b);
    } else {
      assert s == a + (m + b);
      assert (m + b)[0] == m[0];
      TrimLeftOf(a, m + b);
      TrimRightOf(m, b);
    }
  }

  /** Leading whitespace followed by a non-space start is removed exactly. */
  lemma {:induction false} TrimLeftOf(a: string, r: string)
    requires AllSpace(a)
    requires r == [] || !IsSpace(r[0])
    ensures TrimLeft(a + r) == r
    decreases |a|
  {
    if |a| == 0 {
      assert a + r == r;
    } else {
      assert (a + r)[1..] == a[1..] + r;
      TrimLeftOf(a[1..], r);
    }
  }

  /** An all-whitespace string trims to nothing on the left. */
  lemma TrimLeftAllSpace(b: string)
    requires AllSpace(b)
    ensures TrimLeft(b) == []
  {
    TrimLeftOf(b, []);
    assert b + [] == b;
  }

  /** Trailing whitespace after a non-space end is removed exactly. */
  lemma {:induction false} TrimRightOf(m: string, b: string)
    requires AllSpace(b)
    requires m == [] || !IsSpace(m[|m| - 1])
    ensures TrimRight(m + b) == m
    decreases |b|
  {
    if |b| == 0 {
      assert m + b == m;
    } else {
      assert (m + b)[..|m + b| - 1] == m + b[..|b| - 1];
      TrimRightOf(m, b[..|b| - 1]);
    }
  }

  /** Trimming twice is trimming once. */
  lemma TrimSpaceIdempotent(s: string)
    ensures TrimSpace(TrimSpace(s)) == TrimSpace(s)
  {
    var t := TrimSpace(s);
    TrimSpaceUnique([], t, []);
    assert [] + t + [] == t;
  }
}
