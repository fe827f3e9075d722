/** `os.path.join` on a POSIX system, for the two-argument call `save` makes. */
module PosixPath {

  const Sep: char := '/'

  predicate IsAbsolute(p: string)
  {
    |p| > 0 && p[0] == Sep
  }

  /** `os.path.join(a, b)`: an absolute `b` replaces `a`; otherwise `b` is
      appended to `a`, with one separator in between unless `a` is empty or
      already ends with one. In every case `b` is the tail of the result;
      a relative `b` keeps `a` as the head, with a `/` added between them
      exactly when `a` is non-empty and does not already end in one. */
  function Join(a: string, b: string): (r: string)
    ensures |b| <= |r| && r[|r| - |b|..] == b
    ensures IsAbsolute(b) ==> r == b
    ensures !IsAbsolute(b) ==> |a| + |b| <= |r| <= |a| + 1 + |b| && r[..|a|] == a
    ensures !IsAbsolute(b) && a != [] ==> r[|r| - |b| - 1] == Sep
    ensures !IsAbsolute(b) ==> (|r| == |a| + |b| <==> a == [] || a[|a| - 1] == Sep)
  {
    if IsAbsolute(b) then b
    else if a == [] || a[|a| - 1] == Sep then a + b
    else a + [Sep] + b
  }

  /** Under one directory, relative file names never share a joined path. */
  lemma JoinRelativeInjective(dir: string, b1: string, b2: string)
    requires !IsAbsolute(b1) && !IsAbsolute(b2)
    requires Join(dir, b1) == Join(dir, b2)
    ensures b1 == b2
  {
    var r := Join(dir, b1);
    assert |b1| == |b2|;
    assert b1 == r[|r| - |b1|..] == b2;
  }
}
