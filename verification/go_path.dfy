/**
 `path.Base` from Go's `path` package, which the lock applies to the path the
 coordination service returned from node creation, to get the bare node name
 that appears in the child listing.
 */
module GoPath {

  /** Does `s` contain a slash? */
  ghost predicate HasSlash(s: string)
  {
    exists k :: 0 <= k < |s| && s[k] == '/'
  }

  /** `s` with every trailing slash removed (the first loop of `path.Base`). */
  function TrimTrailingSlashes(s: string): (r: string)
    ensures |r| <= |s| && r == s[..|r|]
    ensures |r| == 0 || r[|r| - 1] != '/'
    ensures forall k :: |r| <= k < |s| ==> s[k] == '/'
  {
    if |s| > 0 && s[|s| - 1] == '/' then
      var t := TrimTrailingSlashes(s[..|s| - 1]);
      assert s[..|s| - 1][..|t|] == s[..|t|];
      t
    else s
  }

  /** Go's `lastSlash`: the index of the last slash in `s`, or -1 if none. */
  function LastSlash(s: string): (i: int)
    ensures -1 <= i < |s|
    ensures i >= 0 ==> s[i] == '/'
    ensures forall k :: i < k < |s| ==> s[k] != '/'
  {
    if |s| == 0 then -1
    else if s[|s| - 1] == '/' then |s| - 1
    else LastSlash(s[..|s| - 1])
  }

  /**
   `path.Base(p)`: the last element of `p`. Trailing slashes are dropped
   first; an empty path gives "." and a path of only slashes gives "/".
   */
  function Base(p: string): (r: string)
    ensures r != ""
    ensures p == "" ==> r == "."
    ensures r == "/" || !HasSlash(r)
    // otherwise it is the last element: a suffix of the path with its
    // trailing slashes dropped, starting at the start or right after a '/'
    ensures p != "" && r != "/" ==>
              var q := TrimTrailingSlashes(p);
              |r| <= |q| && r == q[|q| - |r|..] && (|r| < |q| ==> q[|q| - |r| - 1] == '/')
    // "/" exactly for a non-empty path made only of slashes
    ensures p != "" ==> (r == "/" <==> forall k :: 0 <= k < |p| ==> p[k] == '/')
  {
    if p == "" then "."
    else
      var q := TrimTrailingSlashes(p);
      var i := LastSlash(q);
      var e := if i >= 0 then q[i + 1..] else q;
      if e == "" then "/" else e
  }

  /**
   The base of `root + "/" + name` is `name` whenever `name` is a non-empty
   string without slashes, whatever `root` is: the node name the service
   created can be recovered from the returned path.
   */
  lemma BaseOfChild(root: string, name: string)
    requires name != "" && !HasSlash(name)
    ensures Base(root + "/" + name) == name
  {
    var p := root + "/" + name;
    assert p[|p| - 1] == name[|name| - 1];
    assert TrimTrailingSlashes(p) == p;
    var i := LastSlash(p);
    assert p[|root|] == '/';
    assert i == |root|;
    assert p[i + 1..] == name;
  }

  /** Base is a fixed point on a non-empty slash-free name. */
  lemma BaseOfName(name: string)
    requires name != "" && !HasSlash(name)
    ensures Base(name) == name
  {
    assert name[|name| - 1] != '/';
    assert TrimTrailingSlashes(name) == name;
    assert LastSlash(name) == -1;
  }
}
