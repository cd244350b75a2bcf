/** POSIX path helpers shared by both scripts: the separator and
    `os.path.basename`. */
module Paths {

  /** `os.sep` on POSIX. */
  const Sep: char := '/'

  /** The index just past the last separator of `p`, or 0 when `p` has none. */
  function BaseStart(p: string): (k: nat)
    ensures k <= |p|
    ensures k > 0 ==> p[k - 1] == Sep
    ensures forall i :: k <= i < |p| ==> p[i] != Sep
    decreases |p|
  {
    if |p| == 0 then 0
    else if p[|p| - 1] == Sep then |p|
    else BaseStart(p[..|p| - 1])
  }

  /** `os.path.basename(p)`: everything after the last separator. */
  function Basename(p: string): (b: string)
    ensures Sep !in b
    ensures |b| <= |p| && b == p[|p| - |b|..]
  {
    var k := BaseStart(p);
    assert forall i :: 0 <= i < |p[k..]| ==> p[k..][i] == p[k + i];
    p[k..]
  }

  /** The basename is the longest separator-free suffix; so it is `name`
      exactly when the path is `name` or ends in a separator followed by `name`. */
  lemma BasenameIs(p: string, name: string)
    requires Sep !in name
    ensures Basename(p) == name <==>
              p == name || (|name| < |p| && p[|p| - |name| - 1..] == [Sep] + name)
  {
    var b := Basename(p);
    var n := |name|;
    if p == name {
      assert forall i :: 0 <= i < |p| ==> p[i] != Sep;
      assert |b| == |p|;
    } else if n < |p| && p[|p| - n - 1..] == [Sep] + name {
      assert p[|p| - n - 1] == Sep;
      assert forall i :: |p| - n <= i < |p| ==> p[i] == name[i - (|p| - n)];
      assert |b| == n;
      assert b == p[|p| - n..];
    }
  }
}
