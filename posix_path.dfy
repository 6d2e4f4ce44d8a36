/** The two-argument forms of `os.path.join` and `os.path.split` on a
    POSIX system, which the report path builders rely on. */
module PosixPath {

  /** A component that starts at the root. */
  predicate IsAbsolute(p: string)
  {
    |p| > 0 && p[0] == '/'
  }

  predicate EndsWithSep(p: string)
  {
    |p| > 0 && p[|p| - 1] == '/'
  }

  predicate AllSeps(p: string)
  {
    forall i :: 0 <= i < |p| ==> p[i] == '/'
  }

  /** `os.path.join(a, b)`: an absolute b replaces a; otherwise b is
      appended to a, with one separator unless a is empty or already
      ends with one. */
  function Join(a: string, b: string): (r: string)
    ensures |b| <= |r| && r[|r| - |b|..] == b
    ensures IsAbsolute(b) ==> r == b
    ensures !IsAbsolute(b) ==> |a| <= |r| && r[..|a|] == a
    ensures !IsAbsolute(b) ==> |r| == |a| + |b| + (if a == "" || EndsWithSep(a) then 0 else 1)
    ensures !IsAbsolute(b) && a != "" && !EndsWithSep(a) ==> r[|a|] == '/'
  {
    if IsAbsolute(b) then b
    else if a == "" || EndsWithSep(a) then a + b
    else a + "/" + b
  }

  /** The length of the part of p up to and including its last separator. */
  function HeadLength(p: string): (n: nat)
    ensures n <= |p|
    ensures n > 0 ==> p[n - 1] == '/'
    ensures forall i :: n <= i < |p| ==> p[i] != '/'
  {
    if p == [] then 0
    else if p[|p| - 1] == '/' then |p|
    else HeadLength(p[..|p| - 1])
  }

  /** `h.rstrip('/')`. */
  function RStripSeps(h: string): (r: string)
    ensures |r| <= |h| && r == h[..|r|]
    ensures !EndsWithSep(r)
    ensures forall i :: |r| <= i < |h| ==> h[i] == '/'
  {
    if EndsWithSep(h) then RStripSeps(h[..|h| - 1]) else h
  }

  /** `os.path.split(p)`: the directory part (trailing separators removed
      unless it is nothing but separators) and the final component. */
  function Split(p: string): (r: (string, string))
    ensures |r.0| + |r.1| <= |p|
    ensures r.0 == p[..|r.0|] && r.1 == p[|p| - |r.1|..]
    ensures '/' !in r.1
  {
    var n := HeadLength(p);
    var head := p[..n];
    assert p == head + p[n..];
    (if head != "" && !AllSeps(head) then RStripSeps(head) else head, p[n..])
  }

  lemma {:induction false} HeadLengthSkipsName(q: string, b: string)
    requires '/' !in b
    ensures HeadLength(q + b) == HeadLength(q)
  {
    if b == [] {
      assert q + b == q;
    } else {
      var c := b[..|b| - 1];
      assert (q + b)[..|q + b| - 1] == q + c;
      assert b[|b| - 1] in b;
      HeadLengthSkipsName(q, c);
    }
  }

  /** Splitting a joined path gives back the directory and the file name,
      when the name holds no separator and the directory does not end
      with one. */
  lemma SplitJoin(a: string, b: string)
    requires a != "" && !EndsWithSep(a) && '/' !in b
    ensures Split(Join(a, b)) == (a, b)
  {
    var p := Join(a, b);
    assert !IsAbsolute(b) by {
      if b != [] { assert b[0] in b; }
    }
    assert p == (a + "/") + b;
    HeadLengthSkipsName(a + "/", b);
    var n := |a| + 1;
    assert HeadLength(p) == n;
    assert p[..n] == a + "/";
    assert p[n..] == b;
    assert !AllSeps(a + "/") by {
      assert (a + "/")[|a| - 1] == a[|a| - 1];
    }
    assert (a + "/")[..|a|] == a;
  }
}
