/**
  Python's `str.split(sep)` for a one-character separator, and the two uses
  `DocumentHandler` makes of it: the piece after the last separator
  (`s.split(".")[-1]`) and the exact two-way unpack (`a, b = s.split(".")`).
 */
module PyStr {

  /** Number of occurrences of `c` in `s`. */
  function Count(s: string, c: char): nat
  {
    if s == [] then 0 else (if s[0] == c then 1 else 0) + Count(s[1..], c)
  }

  /** `s.split(sep)`: the maximal runs between separators, in order.
      There is always one piece more than there are separators, and no
      piece contains the separator. */
  function Split(s: string, sep: char): (r: seq<string>)
    ensures |r| == Count(s, sep) + 1
    ensures forall i :: 0 <= i < |r| ==> sep !in r[i]
  {
    if s == [] then [""]
    else
      var rest := Split(s[1..], sep);
      if s[0] == sep then [""] + rest
      else [[s[0]] + rest[0]] + rest[1..]
  }

  /** `sep.join(parts)`: the inverse of `Split`. */
  function JoinWith(parts: seq<string>, sep: char): string
  {
    if parts == [] then ""
    else if |parts| == 1 then parts[0]
    else parts[0] + [sep] + JoinWith(parts[1..], sep)
  }

  /** The last piece of `s.split(sep)`, i.e. Python's `s.split(sep)[-1]`. */
  function LastPiece(s: string, sep: char): (r: string)
    ensures sep !in r
  {
    var parts := Split(s, sep);
    parts[|parts| - 1]
  }

  lemma {:induction false} CountPositiveIffPresent(s: string, c: char)
    ensures Count(s, c) > 0 <==> c in s
  {
    if s != [] {
      CountPositiveIffPresent(s[1..], c);
      assert s == [s[0]] + s[1..];
    }
  }

  lemma {:induction false} CountAppend(a: string, b: string, c: char)
    ensures Count(a + b, c) == Count(a, c) + Count(b, c)
  {
    if a != [] {
      CountAppend(a[1..], b, c);
      assert (a + b)[1..] == a[1..] + b;
    } else {
      assert a + b == b;
    }
  }

  /** Joining the pieces with the separator gives the string back. */
  lemma {:induction false} JoinSplit(s: string, sep: char)
    ensures JoinWith(Split(s, sep), sep) == s
  {
    if s != [] {
      var rest := Split(s[1..], sep);
      JoinSplit(s[1..], sep);
      if s[0] == sep {
        assert Split(s, sep) == [""] + rest;
      } else if |rest| == 1 {
        assert Split(s, sep) == [[s[0]] + rest[0]];
      } else {
        var r := Split(s, sep);
        assert r == [[s[0]] + rest[0]] + rest[1..];
        assert r[1..] == rest[1..];
        calc {
          JoinWith(r, sep);
          r[0] + [sep] + JoinWith(rest[1..], sep);
          [s[0]] + (rest[0] + [sep] + JoinWith(rest[1..], sep));
          [s[0]] + JoinWith(rest, sep);
          [s[0]] + s[1..];
        }
        assert [s[0]] + s[1..] == s;
      }
    }
  }

  /** A string without the separator is a single piece. */
  lemma SplitWithoutSeparator(s: string, sep: char)
    requires sep !in s
    ensures Split(s, sep) == [s]
  {
    CountPositiveIffPresent(s, sep);
    JoinSplit(s, sep);
  }

  /** The pieces of `a + b` from the pieces `A` of `a` and `B` of `b`: the
      last piece of `A` and the first piece of `B` fuse into one. */
  function Fuse(A: seq<string>, B: seq<string>): seq<string>
    requires A != [] && B != []
  {
    A[..|A| - 1] + [A[|A| - 1] + B[0]] + B[1..]
  }

  lemma FuseEmptyPiece(B: seq<string>)
    requires B != []
    ensures Fuse([""], B) == B
  {
    assert [""][..0] == [];
    assert "" + B[0] == B[0];
    assert B == [B[0]] + B[1..];
  }

  lemma FuseConsPiece(p: string, A: seq<string>, B: seq<string>)
    requires A != [] && B != []
    ensures Fuse([p] + A, B) == [p] + Fuse(A, B)
  {
  }

  lemma FusePrependChar(c: char, A: seq<string>, B: seq<string>)
    requires A != [] && B != []
    ensures var R := Fuse(A, B);
      Fuse([[c] + A[0]] + A[1..], B) == [[c] + R[0]] + R[1..]
  {
    var R := Fuse(A, B);
    var A1 := [[c] + A[0]] + A[1..];
    if |A| == 1 {
      assert A1 == [[c] + A[0]];
      assert ([c] + A[0]) + B[0] == [c] + (A[0] + B[0]);
      assert R[0] == A[0] + B[0];
      assert R[1..] == B[1..];
    } else {
      assert A1[..|A1| - 1] == [[c] + A[0]] + A[1..|A| - 1];
      assert A1[|A1| - 1] == A[|A| - 1];
      assert R[0] == A[0];
      assert R[1..] == A[1..|A| - 1] + [A[|A| - 1] + B[0]] + B[1..];
    }
  }

  /** How splitting distributes over concatenation: the last piece of `a`
      and the first piece of `b` fuse, every other piece is kept. */
  lemma {:induction false} SplitAppend(a: string, b: string, sep: char)
    ensures Split(a + b, sep) == Fuse(Split(a, sep), Split(b, sep))
  {
    var B := Split(b, sep);
    if a == [] {
      assert a + b == b;
      FuseEmptyPiece(B);
    } else {
      var a' := a[1..];
      var A' := Split(a', sep);
      SplitAppend(a', b, sep);
      assert (a + b)[1..] == a' + b;
      assert (a + b)[0] == a[0];
      if a[0] == sep {
        FuseConsPiece("", A', B);
      } else {
        FusePrependChar(a[0], A', B);
      }
    }
  }

  lemma SplitOfSeparator(sep: char)
    ensures Split([sep], sep) == ["", ""]
  {
  }

  /** Splitting the separator-joined pieces gives the pieces back. */
  lemma {:induction false} SplitJoin(parts: seq<string>, sep: char)
    requires parts != []
    requires forall i :: 0 <= i < |parts| ==> sep !in parts[i]
    ensures Split(JoinWith(parts, sep), sep) == parts
  {
    SplitWithoutSeparator(parts[0], sep);
    if |parts| > 1 {
      var tail := JoinWith(parts[1..], sep);
      SplitJoin(parts[1..], sep);
      SplitAppend(parts[0], [sep] + tail, sep);
      SplitAppend([sep], tail, sep);
      SplitOfSeparator(sep);
      var T := Split(tail, sep);
      assert "" + T[0] == T[0];
      assert Split([sep] + tail, sep) == [""] + T;
      assert parts[0] + "" == parts[0];
      assert parts[0] + [sep] + tail == parts[0] + ([sep] + tail);
      assert [parts[0]] + parts[1..] == parts;
    }
  }

  /** Appending one character either opens a new, empty piece (the
      separator) or extends the last piece. */
  lemma SplitSnoc(s: string, c: char, sep: char)
    ensures var A := Split(s, sep);
      Split(s + [c], sep) ==
        if c == sep then A + [""] else A[..|A| - 1] + [A[|A| - 1] + [c]]
  {
    var A := Split(s, sep);
    SplitAppend(s, [c], sep);
    if c == sep {
      SplitOfSeparator(sep);
      assert A[|A| - 1] + "" == A[|A| - 1];
      assert A[..|A| - 1] + [A[|A| - 1]] == A;
    } else {
      SplitWithoutSeparator([c], sep);
    }
  }

  /** `s.split(sep)[-1]` is the longest suffix of `s` without the separator:
      it is a suffix, it holds no separator, and it is either all of `s`
      (when `s` has no separator) or preceded by a separator. */
  lemma {:induction false} LastPieceIsSeparatorFreeSuffix(s: string, sep: char)
    ensures var e := LastPiece(s, sep);
      && sep !in e
      && |e| <= |s| && s[|s| - |e|..] == e
      && (sep in s <==> |e| < |s|)
      && (|e| < |s| ==> s[|s| - |e| - 1] == sep)
  {
    if s != [] {
      var init, c := s[..|s| - 1], s[|s| - 1];
      assert s == init + [c];
      LastPieceIsSeparatorFreeSuffix(init, sep);
      SplitSnoc(init, c, sep);
      var e, e' := LastPiece(s, sep), LastPiece(init, sep);
      assert sep in s <==> sep in init || c == sep;
      if c == sep {
        assert e == "";
      } else {
        assert e == e' + [c];
        assert s[|s| - |e|..] == init[|init| - |e'|..] + [c];
      }
    }
  }

  /** A separator in `b` hides everything before it: `a` does not affect
      the last piece of `a + b`. */
  lemma LastPieceOfAppend(a: string, b: string, sep: char)
    requires sep in b
    ensures LastPiece(a + b, sep) == LastPiece(b, sep)
  {
    CountPositiveIffPresent(b, sep);
    SplitAppend(a, b, sep);
  }
}
