/** The two `os.path` operations the scripts use, with POSIX (`posixpath`) semantics. */
module Paths {

  /** `os.path.join(a, b)` for two components: an absolute `b` replaces `a`,
      otherwise a `/` is inserted unless `a` is empty or already ends in one. */
  function Join(a: string, b: string): (r: string)
    ensures |b| > 0 && b[0] == '/' ==> r == b
    ensures (|b| == 0 || b[0] != '/') && a != "" && a[|a| - 1] != '/' ==> r == a + "/" + b
    ensures (|b| == 0 || b[0] != '/') && (a == "" || a[|a| - 1] == '/') ==> r == a + b
  {
    if |b| > 0 && b[0] == '/' then b
    else if a == "" || a[|a| - 1] == '/' then a + b
    else a + "/" + b
  }

  /** The position just after the last `/` of `p`, or 0 when `p` has none. */
  function AfterLastSlash(p: string): (r: nat)
    ensures r <= |p|
    ensures r > 0 ==> p[r - 1] == '/'
    ensures forall k :: r <= k < |p| ==> p[k] != '/'
  {
    if p == [] then 0
    else if p[|p| - 1] == '/' then |p|
    else AfterLastSlash(p[..|p| - 1])
  }

  /** In `d/f`, with no `/` in `f`, the name after the last `/` is `f`. */
  lemma {:induction false} AfterSlashOfJoin(d: string, f: string)
    requires '/' !in f
    ensures AfterLastSlash(d + "/" + f) == |d| + 1
  {
    var p := d + "/" + f;
    assert p[|d|] == '/';
    assert forall k :: |d| < k < |p| ==> p[k] == f[k - |d| - 1];
  }

  /** `h.rstrip("/")`. */
  function TrimEndSlashes(h: string): (r: string)
    ensures |r| <= |h| && r == h[..|r|]
    ensures r != [] ==> r[|r| - 1] != '/'
    ensures forall k :: |r| <= k < |h| ==> h[k] == '/'
  {
    if h != [] && h[|h| - 1] == '/' then TrimEndSlashes(h[..|h| - 1]) else h
  }

  /** `os.path.dirname(p)`: everything up to the last `/`, with the trailing
      slashes removed unless the head consists of slashes only. */
  function Dirname(p: string): (r: string)
    ensures r <= p
    ensures '/' !in p ==> r == ""
  {
    var head := p[..AfterLastSlash(p)];
    assert head <= p;
    if head != "" && exists k :: 0 <= k < |head| && head[k] != '/' then TrimEndSlashes(head)
    else head
  }

  /** The directory of a file joined onto a directory is that directory again,
      provided the file name has no `/` and the directory no trailing `/`. */
  lemma DirnameOfJoin(d: string, f: string)
    requires d != "" && d[|d| - 1] != '/'
    requires '/' !in f
    ensures Dirname(Join(d, f)) == d
  {
    var p := Join(d, f);
    assert p == d + "/" + f;
    var n := AfterLastSlash(p);
    AfterSlashOfJoin(d, f);
    var head := p[..n];
    assert head == d + "/";
    assert head[|d| - 1] != '/';
    assert TrimEndSlashes(head) == TrimEndSlashes(d);
    assert TrimEndSlashes(d) == d;
  }
}
