/**
 Python's `str.split(sep)` and `sep.join(pieces)` for a non-empty separator,
 the only string operations the domain extraction of main.py relies on.
 */
module PyStr {

  /** `p` is a prefix of `s`. */
  predicate IsPrefix(p: string, s: string)
  {
    |p| <= |s| && s[..|p|] == p
  }

  /** `p` is a suffix of `s`. */
  predicate IsSuffix(p: string, s: string)
  {
    |p| <= |s| && s[|s| - |p|..] == p
  }

  /** Every character of a suffix is a character of the whole. */
  lemma SuffixMember(p: string, s: string, x: char)
    requires IsSuffix(p, s) && x in p
    ensures x in s
  {
    var i :| 0 <= i < |p| && p[i] == x;
    assert s[|s| - |p| + i] == x;
  }

  /** A character absent from the whole is absent from every suffix. */
  lemma SuffixAbsent(p: string, s: string, x: char)
    requires IsSuffix(p, s) && x !in s
    ensures x !in p
  {
    if x in p {
      SuffixMember(p, s, x);
    }
  }

  /** Python's `sep in s`: `sep` occurs at some position of `s`. */
  predicate Occurs(sep: string, s: string)
    decreases |s|
  {
    |sep| <= |s| && (s[..|sep|] == sep || Occurs(sep, s[1..]))
  }

  /**
   Python's `s.split(sep)`: scans from the left, cuts at every
   non-overlapping occurrence of `sep` and keeps the empty pieces.
   */
  function Split(s: string, sep: string): (pieces: seq<string>)
    requires sep != []
    ensures |pieces| >= 1
    decreases |s|
  {
    if |s| < |sep| then [s]
    else if s[..|sep|] == sep then [[]] + Split(s[|sep|..], sep)
    else
      var rest := Split(s[1..], sep);
      [[s[0]] + rest[0]] + rest[1..]
  }

  /** Python's `pieces[-1]`. */
  function Last(pieces: seq<string>): string
    requires |pieces| >= 1
  {
    pieces[|pieces| - 1]
  }

  /** Python's `sep.join(pieces)`. */
  function Join(pieces: seq<string>, sep: string): string
  {
    if |pieces| == 0 then []
    else if |pieces| == 1 then pieces[0]
    else pieces[0] + sep + Join(pieces[1..], sep)
  }

  /** Prepending a character to the first piece prepends it to the join. */
  lemma JoinExtendHead(c: char, pieces: seq<string>, sep: string)
    requires |pieces| >= 1
    ensures Join([[c] + pieces[0]] + pieces[1..], sep) == [c] + Join(pieces, sep)
  {
    var extended := [[c] + pieces[0]] + pieces[1..];
    if |pieces| > 1 {
      assert extended[1..] == pieces[1..];
    }
  }

  /** Joining the pieces of a split with the same separator gives the string back. */
  lemma {:induction false} JoinSplit(s: string, sep: string)
    requires sep != []
    ensures Join(Split(s, sep), sep) == s
    decreases |s|, 1
  {
    if |s| < |sep| {
    } else if s[..|sep|] == sep {
      JoinSplitCut(s, sep);
    } else {
      JoinSplitKeep(s, sep);
    }
  }

  /** `JoinSplit` for an input that starts with the separator. */
  lemma {:induction false} JoinSplitCut(s: string, sep: string)
    requires sep != [] && |s| >= |sep| && s[..|sep|] == sep
    ensures Join(Split(s, sep), sep) == s
    decreases |s|, 0
  {
    var tail := s[|sep|..];
    var rest := Split(tail, sep);
    JoinSplit(tail, sep);
    assert Split(s, sep) == [[]] + rest;
    assert ([[]] + rest)[1..] == rest;
    assert sep + tail == s;
  }

  /** `JoinSplit` for an input that does not start with the separator. */
  lemma {:induction false} JoinSplitKeep(s: string, sep: string)
    requires sep != [] && |s| >= |sep| && s[..|sep|] != sep
    ensures Join(Split(s, sep), sep) == s
    decreases |s|, 0
  {
    var tail := s[1..];
    JoinSplit(tail, sep);
    JoinExtendHead(s[0], Split(tail, sep), sep);
    assert [s[0]] + tail == s;
  }

  /** A prefix of `s` that reaches as far as `s` does is `s` itself. */
  lemma PrefixOfCons(c: char, p: string, s: string)
    requires |s| >= 1 && s[0] == c && IsPrefix(p, s[1..])
    ensures IsPrefix([c] + p, s)
  {
    assert s[..|p| + 1] == [c] + s[1..][..|p|];
  }

  /**
   The first piece of a split is a prefix of the input; either it is the
   whole input (nothing was cut) or the separator follows it.
   */
  lemma {:induction false} SplitFirst(s: string, sep: string)
    requires sep != []
    ensures IsPrefix(Split(s, sep)[0], s)
    ensures (|Split(s, sep)| == 1 && Split(s, sep)[0] == s) || IsPrefix(Split(s, sep)[0] + sep, s)
    decreases |s|
  {
    if |s| < |sep| {
    } else if s[..|sep|] == sep {
    } else {
      var rest := Split(s[1..], sep);
      SplitFirst(s[1..], sep);
      PrefixOfCons(s[0], rest[0], s);
      if |rest| == 1 && rest[0] == s[1..] {
        assert [s[0]] + rest[0] == s;
      } else {
        PrefixOfCons(s[0], rest[0] + sep, s);
        assert [s[0]] + (rest[0] + sep) == ([s[0]] + rest[0]) + sep;
      }
    }
  }

  /** A suffix of a suffix is a suffix. */
  lemma SuffixTrans(a: string, b: string, c: string)
    requires IsSuffix(a, b) && IsSuffix(b, c)
    ensures IsSuffix(a, c)
  {
    assert c[|c| - |a|..] == c[|c| - |b|..][|b| - |a|..];
  }

  /**
   The last piece of a split is a suffix of the input; either it is the
   whole input or the separator precedes it.
   */
  lemma SplitLast(s: string, sep: string)
    requires sep != []
    ensures IsSuffix(Last(Split(s, sep)), s)
    ensures (|Split(s, sep)| == 1 && Last(Split(s, sep)) == s) || IsSuffix(sep + Last(Split(s, sep)), s)
  {
    JoinSplit(s, sep);
    JoinLast(Split(s, sep), sep);
  }

  /** The last piece ends the join, after a separator when there is more than one piece. */
  lemma {:induction false} JoinLast(pieces: seq<string>, sep: string)
    requires |pieces| >= 1
    ensures IsSuffix(Last(pieces), Join(pieces, sep))
    ensures (|pieces| == 1 && Last(pieces) == Join(pieces, sep)) || IsSuffix(sep + Last(pieces), Join(pieces, sep))
    decreases |pieces|
  {
    if |pieces| > 1 {
      var rest := pieces[1..];
      var whole := Join(pieces, sep);
      var joined := Join(rest, sep);
      assert whole == pieces[0] + sep + joined;
      assert Last(rest) == Last(pieces);
      assert IsSuffix(sep + joined, whole) by {
        assert whole[|whole| - |sep + joined|..] == sep + joined;
      }
      if |rest| == 1 {
        assert joined == Last(pieces);
        assert IsSuffix(joined, sep + joined);
        SuffixTrans(joined, sep + joined, whole);
      } else {
        JoinLast(rest, sep);
        assert IsSuffix(joined, sep + joined);
        SuffixTrans(joined, sep + joined, whole);
        SuffixTrans(sep + Last(pieces), joined, whole);
        SuffixTrans(Last(pieces), joined, whole);
      }
    }
  }

  /** No piece of a split contains the separator. */
  lemma {:induction false} SplitPiecesFree(s: string, sep: string)
    requires sep != []
    ensures forall k :: 0 <= k < |Split(s, sep)| ==> !Occurs(sep, Split(s, sep)[k])
    decreases |s|
  {
    var pieces := Split(s, sep);
    if |s| < |sep| {
    } else if s[..|sep|] == sep {
      SplitPiecesFree(s[|sep|..], sep);
      forall k | 0 <= k < |pieces| ensures !Occurs(sep, pieces[k]) {
        if k > 0 {
          assert pieces[k] == Split(s[|sep|..], sep)[k - 1];
        }
      }
    } else {
      var rest := Split(s[1..], sep);
      SplitPiecesFree(s[1..], sep);
      SplitFirst(s[1..], sep);
      var first := [s[0]] + rest[0];
      assert first[1..] == rest[0];
      if |sep| <= |first| {
        assert first[..|sep|] == s[..|sep|];
      }
      forall k | 0 <= k < |pieces| ensures !Occurs(sep, pieces[k]) {
        if k > 0 {
          assert pieces[k] == rest[k];
        }
      }
    }
  }

  /** A string that does not contain the separator splits into itself alone. */
  lemma {:induction false} SplitAbsent(s: string, sep: string)
    requires sep != [] && !Occurs(sep, s)
    ensures Split(s, sep) == [s]
    decreases |s|
  {
    if |s| >= |sep| {
      SplitAbsent(s[1..], sep);
      assert [s[0]] + s[1..] == s;
    }
  }

  /** For a one-character separator, occurring is plain membership. */
  lemma {:induction false} OccursChar(c: char, s: string)
    ensures Occurs([c], s) <==> c in s
    decreases |s|
  {
    if |s| >= 1 {
      OccursChar(c, s[1..]);
      assert s == [s[0]] + s[1..];
    }
  }

  /** A doubled `c` cannot occur when `c` appears at most as the last character. */
  lemma {:induction false} PairAbsent(c: char, s: string)
    requires |s| >= 1 && c !in s[..|s| - 1]
    ensures !Occurs([c, c], s)
    decreases |s|
  {
    if |s| >= 2 {
      assert s[0] == s[..|s| - 1][0];
      assert s[1..][..|s| - 2] == s[..|s| - 1][1..];
      PairAbsent(c, s[1..]);
    }
  }

  /** A separator occurs only where its first character does. */
  lemma {:induction false} OccursHead(sep: string, s: string)
    requires sep != [] && Occurs(sep, s)
    ensures sep[0] in s
    decreases |s|
  {
    if s[..|sep|] != sep {
      OccursHead(sep, s[1..]);
    }
  }

  /**
   Splitting cuts at the first separator of a left-to-right scan: when no
   separator starts inside `p` (not even one reaching into the separator
   that follows it), the first piece is `p` and the rest is split anew.
   */
  lemma {:induction false} SplitAfterPiece(p: string, sep: string, t: string)
    requires sep != [] && !Occurs(sep, p + sep[..|sep| - 1])
    ensures Split(p + sep + t, sep) == [p] + Split(t, sep)
    decreases |p|
  {
    var s := p + sep + t;
    if |p| == 0 {
      assert s[..|sep|] == sep;
      assert s[|sep|..] == t;
    } else {
      var q := p + sep[..|sep| - 1];
      assert s[..|sep|] == q[..|sep|];
      assert q[1..] == p[1..] + sep[..|sep| - 1];
      assert s[1..] == p[1..] + sep + t;
      SplitAfterPiece(p[1..], sep, t);
      assert [p[0]] + p[1..] == p;
    }
  }

  /** Splitting on `c` undoes joining with `c` pieces that do not contain it. */
  lemma {:induction false} SplitJoin(pieces: seq<string>, c: char)
    requires |pieces| >= 1
    requires forall k :: 0 <= k < |pieces| ==> c !in pieces[k]
    ensures Split(Join(pieces, [c]), [c]) == pieces
    decreases |pieces|
  {
    if |pieces| == 1 {
      OccursChar(c, pieces[0]);
      SplitAbsent(pieces[0], [c]);
    } else {
      SplitJoin(pieces[1..], c);
      OccursChar(c, pieces[0]);
      assert pieces[0] + [c][..0] == pieces[0];
      SplitAfterPiece(pieces[0], [c], Join(pieces[1..], [c]));
      assert pieces[0] + [c] + Join(pieces[1..], [c]) == Join(pieces, [c]);
      assert [pieces[0]] + pieces[1..] == pieces;
    }
  }

  /** Joining a tail of the pieces gives a suffix of joining them all. */
  lemma {:induction false} JoinTailSuffix(pieces: seq<string>, sep: string, k: nat)
    requires k < |pieces|
    ensures IsSuffix(Join(pieces[k..], sep), Join(pieces, sep))
    decreases k
  {
    if k > 0 {
      JoinTailSuffix(pieces[1..], sep, k - 1);
      assert pieces[1..][k - 1..] == pieces[k..];
      var whole := Join(pieces, sep);
      var rest := Join(pieces[1..], sep);
      var tail := Join(pieces[k..], sep);
      assert whole == pieces[0] + sep + rest;
      assert whole[|whole| - |tail|..] == rest[|rest| - |tail|..];
    }
  }
}
