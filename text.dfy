/** Python's `str.split(sep)` for a non-empty separator, as used by the
    bookmark manager's display functions. */
module Text {

  /** `sep` occurs in `s` starting at index `i`. */
  predicate OccursAt(s: string, sep: string, i: nat) {
    i + |sep| <= |s| && s[i..i + |sep|] == sep
  }

  /** `sep` occurs nowhere in `s`. */
  predicate Free(s: string, sep: string) {
    forall i: nat :: i <= |s| ==> !OccursAt(s, sep, i)
  }

  /** `r` is a (not necessarily proper) suffix of `s`. */
  predicate IsSuffix(r: string, s: string) {
    |r| <= |s| && s[|s| - |r|..] == r
  }

  /** `r` is either all of `s`, or the part of `s` right after an occurrence of `sep`. */
  predicate AfterSeparator(r: string, s: string, sep: string) {
    r == s || (|r| + |sep| <= |s| && OccursAt(s, sep, |s| - |r| - |sep|))
  }

  /** The scan behind `split`: `cur` is the piece read so far and `s` the
      text not yet read. Where `sep` starts, the piece is cut and the scan
      resumes after `sep`, so occurrences are found left to right and never
      overlap. */
  function SplitFrom(s: string, sep: string, cur: string): (parts: seq<string>)
    requires |sep| > 0
    ensures |parts| >= 1
    decreases |s|
  {
    if |s| < |sep| then [cur + s]
    else if s[..|sep|] == sep then [cur] + SplitFrom(s[|sep|..], sep, [])
    else SplitFrom(s[1..], sep, cur + [s[0]])
  }

  /** `s.split(sep)`. */
  function Split(s: string, sep: string): (parts: seq<string>)
    requires |sep| > 0
    ensures |parts| >= 1
  {
    SplitFrom(s, sep, [])
  }

  /** `sep.join(parts)`. */
  function Join(parts: seq<string>, sep: string): (r: string)
    requires |parts| >= 1
  {
    if |parts| == 1 then parts[0] else parts[0] + sep + Join(parts[1..], sep)
  }

  /** `parts[-1]`. */
  function Last(parts: seq<string>): (r: string)
    requires |parts| >= 1
  {
    parts[|parts| - 1]
  }

  /** `s.split(sep)[-1]`: the last piece of the split. */
  function LastPiece(s: string, sep: string): (r: string)
    requires |sep| > 0
    ensures IsSuffix(r, s)
    ensures Free(r, sep)
    ensures AfterSeparator(r, s, sep)
    ensures r == s <==> Free(s, sep)
  {
    var r := Last(Split(s, sep));
    LastSuffix(s, sep, []);
    LastAfterSeparator(s, sep, []);
    PiecesFree(s, sep, []);
    assert [] + s == s;
    WholeIffFree(r, s, sep);
    r
  }

  /** A separator-free piece that is all of `s` or follows a separator in `s`
      is all of `s` exactly when `s` itself is separator-free. */
  lemma WholeIffFree(r: string, s: string, sep: string)
    requires Free(r, sep) && AfterSeparator(r, s, sep)
    ensures r == s <==> Free(s, sep)
  {
    if r != s {
      assert OccursAt(s, sep, |s| - |r| - |sep|);
    }
  }

  /** A suffix of what follows the first `d` characters of `s` is a suffix
      of `cur + s`. */
  lemma SuffixStep(cur: string, s: string, d: nat, r: string)
    requires d <= |s| && IsSuffix(r, s[d..])
    ensures IsSuffix(r, cur + s)
  {
    var w := cur + s;
    assert w[|w| - |r|..] == s[d..][|s[d..]| - |r|..];
  }

  /** Splitting and joining back gives the original string. */
  lemma JoinSplit(s: string, sep: string)
    requires |sep| > 0
    ensures Join(Split(s, sep), sep) == s
  {
    JoinSplitFrom(s, sep, []);
    assert [] + s == s;
  }

  lemma {:induction false} JoinSplitFrom(s: string, sep: string, cur: string)
    requires |sep| > 0
    ensures Join(SplitFrom(s, sep, cur), sep) == cur + s
    decreases |s|
  {
    if |s| < |sep| {
    } else if s[..|sep|] == sep {
      var tail := s[|sep|..];
      var rest := SplitFrom(tail, sep, []);
      assert SplitFrom(s, sep, cur) == [cur] + rest;
      JoinSplitFrom(tail, sep, []);
      JoinCons(cur, rest, sep);
      SeparatorRejoin(cur, s, sep, Join(rest, sep));
    } else {
      JoinSplitFrom(s[1..], sep, cur + [s[0]]);
      assert cur + [s[0]] + s[1..] == cur + s;
    }
  }

  /** Joining a piece in front of at least one more piece puts `sep` between them. */
  lemma JoinCons(cur: string, rest: seq<string>, sep: string)
    requires |rest| >= 1
    ensures Join([cur] + rest, sep) == cur + sep + Join(rest, sep)
  {
    assert ([cur] + rest)[1..] == rest;
  }

  /** A text that starts with `sep` is `sep` followed by the rest. */
  lemma SeparatorRejoin(cur: string, s: string, sep: string, joined: string)
    requires |sep| <= |s| && s[..|sep|] == sep
    requires joined == [] + s[|sep|..]
    ensures cur + sep + joined == cur + s
  {
    assert s == sep + s[|sep|..];
  }

  /** No piece of a split contains the separator. */
  lemma SplitPiecesFree(s: string, sep: string)
    requires |sep| > 0
    ensures forall k :: 0 <= k < |Split(s, sep)| ==> Free(Split(s, sep)[k], sep)
  {
    PiecesFree(s, sep, []);
  }

  /** While no occurrence of `sep` starts inside the piece read so far, no
      piece the scan produces contains `sep`. */
  lemma {:induction false} PiecesFree(s: string, sep: string, cur: string)
    requires |sep| > 0
    requires forall j: nat :: j < |cur| ==> !OccursAt(cur + s, sep, j)
    ensures forall k :: 0 <= k < |SplitFrom(s, sep, cur)| ==> Free(SplitFrom(s, sep, cur)[k], sep)
    decreases |s|
  {
    if |s| < |sep| {
      forall j: nat | j <= |cur + s| ensures !OccursAt(cur + s, sep, j) {
      }
    } else if s[..|sep|] == sep {
      var rest := SplitFrom(s[|sep|..], sep, []);
      PiecesFree(s[|sep|..], sep, []);
      PrefixFree(cur, s, sep);
      assert forall k :: 1 <= k < |[cur] + rest| ==> ([cur] + rest)[k] == rest[k - 1];
    } else {
      var next := cur + [s[0]];
      NextFree(cur, s, sep);
      PiecesFree(s[1..], sep, next);
    }
  }

  /** When no occurrence of `sep` starts inside `cur` in `cur + s`, `cur`
      itself is free of `sep`. */
  lemma PrefixFree(cur: string, s: string, sep: string)
    requires |sep| > 0
    requires forall j: nat :: j < |cur| ==> !OccursAt(cur + s, sep, j)
    ensures Free(cur, sep)
  {
    forall j: nat | j <= |cur| ensures !OccursAt(cur, sep, j) {
      if OccursAt(cur, sep, j) {
        assert (cur + s)[j..j + |sep|] == cur[j..j + |sep|];
        assert OccursAt(cur + s, sep, j);
      }
    }
  }

  /** Reading one more character that does not start `sep` keeps the piece
      read so far free of occurrences. */
  lemma NextFree(cur: string, s: string, sep: string)
    requires |sep| <= |s| && s[..|sep|] != sep
    requires forall j: nat :: j < |cur| ==> !OccursAt(cur + s, sep, j)
    ensures forall j: nat :: j < |cur + [s[0]]| ==> !OccursAt(cur + [s[0]] + s[1..], sep, j)
  {
    assert cur + [s[0]] + s[1..] == cur + s;
    assert (cur + s)[|cur|..|cur| + |sep|] == s[..|sep|];
  }

  /** The last piece of the scan is a suffix of the whole text. */
  lemma {:induction false} LastSuffix(s: string, sep: string, cur: string)
    requires |sep| > 0
    ensures IsSuffix(Last(SplitFrom(s, sep, cur)), cur + s)
    decreases |s|
  {
    if |s| < |sep| {
    } else if s[..|sep|] == sep {
      var tail := s[|sep|..];
      var rest := SplitFrom(tail, sep, []);
      LastSuffix(tail, sep, []);
      assert Last([cur] + rest) == Last(rest);
      assert [] + tail == tail;
      SuffixStep(cur, s, |sep|, Last(rest));
    } else {
      LastSuffix(s[1..], sep, cur + [s[0]]);
      assert cur + [s[0]] + s[1..] == cur + s;
    }
  }

  /** The last piece of the scan is the whole text or follows an occurrence of `sep`. */
  lemma {:induction false} LastAfterSeparator(s: string, sep: string, cur: string)
    requires |sep| > 0
    ensures AfterSeparator(Last(SplitFrom(s, sep, cur)), cur + s, sep)
    decreases |s|
  {
    if |s| < |sep| {
    } else if s[..|sep|] == sep {
      var tail := s[|sep|..];
      var rest := SplitFrom(tail, sep, []);
      LastAfterSeparator(tail, sep, []);
      assert Last([cur] + rest) == Last(rest);
      assert [] + tail == tail;
      SeparatorStep(cur, s, sep, Last(rest));
    } else {
      LastAfterSeparator(s[1..], sep, cur + [s[0]]);
      assert cur + [s[0]] + s[1..] == cur + s;
    }
  }

  /** If `s` starts with `sep`, whatever follows a separator in the rest
      after it also follows a separator in `cur + s`. */
  lemma SeparatorStep(cur: string, s: string, sep: string, r: string)
    requires |sep| > 0 && |sep| <= |s| && s[..|sep|] == sep
    requires AfterSeparator(r, s[|sep|..], sep)
    ensures AfterSeparator(r, cur + s, sep)
  {
    var whole := cur + s;
    var tail := s[|sep|..];
    if r == tail {
      assert whole[|cur|..|cur| + |sep|] == s[..|sep|];
      assert |whole| - |r| - |sep| == |cur|;
    } else {
      var k := |tail| - |r| - |sep|;
      assert whole[|cur| + |sep| + k..|cur| + |sep| + k + |sep|] == tail[k..k + |sep|];
      assert |whole| - |r| - |sep| == |cur| + |sep| + k;
    }
  }

  /** The pieces of `s.split(sep)` are fixed by where the scan cuts: the first
      piece runs up to the leftmost occurrence of `sep`, and the remaining
      pieces are the split of what follows that occurrence. Without an
      occurrence there is a single piece, `s` itself. */
  lemma SplitFirstCut(s: string, sep: string)
    requires |sep| > 0
    ensures var parts := Split(s, sep);
      && |parts[0]| <= |s|
      && parts[0] == s[..|parts[0]|]
      && (forall j: nat :: j < |parts[0]| ==> !OccursAt(s, sep, j))
      && (|parts| == 1 <==> Free(s, sep))
      && (|parts| == 1 ==> parts == [s])
      && (|parts| > 1 ==>
            && OccursAt(s, sep, |parts[0]|)
            && parts[1..] == Split(s[|parts[0]| + |sep|..], sep))
  {
    FirstCutFrom(s, sep, []);
    var parts := Split(s, sep);
    assert CutAt(s, sep, [], parts);
    assert [] + s == s;
    assert [] + s[..|parts[0]|] == s[..|parts[0]|];
  }

  /** `parts` is what the scan yields from `s` when `cur` has been read:
      its first piece is `cur` followed by `s` up to the leftmost occurrence
      of `sep`, and the other pieces split what follows that occurrence. */
  predicate CutAt(s: string, sep: string, cur: string, parts: seq<string>)
    requires |sep| > 0
  {
    && |parts| >= 1
    && |cur| <= |parts[0]| <= |cur| + |s|
    && parts[0] == cur + s[..|parts[0]| - |cur|]
    && (forall j: nat :: j < |parts[0]| - |cur| ==> !OccursAt(s, sep, j))
    && (|parts| == 1 ==> parts[0] == cur + s && Free(s, sep))
    && (|parts| > 1 ==>
          && OccursAt(s, sep, |parts[0]| - |cur|)
          && parts[1..] == Split(s[|parts[0]| - |cur| + |sep|..], sep))
  }

  lemma {:induction false} FirstCutFrom(s: string, sep: string, cur: string)
    requires |sep| > 0
    ensures CutAt(s, sep, cur, SplitFrom(s, sep, cur))
    decreases |s|
  {
    var parts := SplitFrom(s, sep, cur);
    if |s| < |sep| {
      assert s[..|s|] == s;
    } else if s[..|sep|] == sep {
      assert parts == [cur] + SplitFrom(s[|sep|..], sep, []);
      assert s[..0] == [];
      assert OccursAt(s, sep, 0);
    } else {
      FirstCutFrom(s[1..], sep, cur + [s[0]]);
      CutShift(s, sep, cur, parts);
    }
  }

  /** A character that does not start `sep` joins the piece being read. */
  lemma CutShift(s: string, sep: string, cur: string, parts: seq<string>)
    requires |sep| > 0 && |sep| <= |s| && s[..|sep|] != sep
    requires CutAt(s[1..], sep, cur + [s[0]], parts)
    ensures CutAt(s, sep, cur, parts)
  {
    var next := cur + [s[0]];
    var m := |parts[0]| - |next|;
    assert !OccursAt(s, sep, 0);
    forall j: nat | 1 <= j <= |s| ensures OccursAt(s, sep, j) == OccursAt(s[1..], sep, j - 1) {
      OccursShift(s, sep, j - 1);
    }
    assert parts[0] == cur + s[..m + 1] by {
      assert s[..m + 1] == [s[0]] + s[1..][..m];
    }
    if |parts| == 1 {
      assert next + s[1..] == cur + s;
    } else {
      assert s[1..][m + |sep|..] == s[m + 1 + |sep|..];
    }
  }

  /** An occurrence in `s` one position further on is an occurrence in `s[1..]`. */
  lemma OccursShift(s: string, sep: string, j: nat)
    requires 1 <= |s|
    ensures OccursAt(s[1..], sep, j) == OccursAt(s, sep, j + 1)
  {
    if j + 1 + |sep| <= |s| {
      assert s[1..][j..j + |sep|] == s[j + 1..j + 1 + |sep|];
    }
  }

  /** The last piece is the last piece of what follows the leftmost occurrence
      of `sep`: this fixes the result when `sep` overlaps itself. */
  lemma LastPieceAfterFirstCut(s: string, sep: string, m: nat)
    requires |sep| > 0
    requires OccursAt(s, sep, m)
    requires forall j: nat :: j < m ==> !OccursAt(s, sep, j)
    ensures LastPiece(s, sep) == LastPiece(s[m + |sep|..], sep)
  {
    var parts := Split(s, sep);
    FirstPieceEndsAt(s, sep, m);
    var tail := parts[1..];
    assert tail == Split(s[m + |sep|..], sep);
    assert Last(parts) == Last(tail);
  }

  /** When the leftmost occurrence of `sep` starts at `m`, the split has more
      than one piece and its first piece has length `m`. */
  lemma FirstPieceEndsAt(s: string, sep: string, m: nat)
    requires |sep| > 0
    requires OccursAt(s, sep, m)
    requires forall j: nat :: j < m ==> !OccursAt(s, sep, j)
    ensures |Split(s, sep)| > 1
    ensures |Split(s, sep)[0]| == m
    ensures Split(s, sep)[1..] == Split(s[m + |sep|..], sep)
  {
    SplitFirstCut(s, sep);
    assert !Free(s, sep);
  }

  /** A separator that overlaps itself is cut at its leftmost occurrence:
      with `d` a directory name letter, `"/d/d/x"` holds `"/d/"` at 0 and at 2,
      and `"/d/d/x".split("/d/")[-1]` is `"d/x"`, not the `"x"` that follows
      the rightmost occurrence. */
  lemma OverlappingSeparator(d: char)
    requires d != '/'
    ensures var sep, rest := ['/', d, '/'], [d, '/', 'x'];
      && OccursAt(sep + rest, sep, 2)
      && LastPiece(sep + rest, sep) == rest
  {
    var sep, rest := ['/', d, '/'], [d, '/', 'x'];
    assert (sep + rest)[2..5] == sep;
    forall i: nat | i <= |rest| ensures !OccursAt(rest, sep, i) {
      if i == 0 {
        assert rest[0..3][0] == d;
      }
    }
    StripsLeadingSeparator(sep, rest);
  }

  /** A string made of `prefix` followed by a rest free of `prefix` splits
      into the empty piece and that rest. */
  lemma StripsLeadingSeparator(prefix: string, rest: string)
    requires |prefix| > 0
    requires Free(rest, prefix)
    ensures LastPiece(prefix + rest, prefix) == rest
  {
    var s := prefix + rest;
    assert s[..|prefix|] == prefix;
    assert s[|prefix|..] == rest;
    var tailParts := SplitFrom(rest, prefix, []);
    assert Split(s, prefix) == [[]] + tailParts;
    assert Last([[]] + tailParts) == Last(tailParts);
    assert LastPiece(rest, prefix) == rest;
  }

  /** With the one-character separator `/`, the last piece is the final path
      segment: it holds no `/`, and it is either the whole string or preceded by `/`. */
  lemma LastSegment(s: string)
    ensures var r := LastPiece(s, "/");
      && IsSuffix(r, s)
      && '/' !in r
      && (r == s || s[|s| - |r| - 1] == '/')
  {
    var r := LastPiece(s, "/");
    if '/' in r {
      var j :| 0 <= j < |r| && r[j] == '/';
      assert r[j..j + 1] == "/";
      assert OccursAt(r, "/", j);
    }
    if r != s {
      assert s[|s| - |r| - 1..|s| - |r|] == "/";
    }
  }
}
