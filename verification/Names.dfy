/** The path of a dentry, built backwards into a fixed buffer. */
module Names {
  import opened CStrings

  /** A dentry is the root or a named child. */
  datatype Dentry = Root | Child(name: string, parent: Dentry)

  /** Every component is preceded by a slash; the root alone is a slash. */
  function Joined(d: Dentry): string {
    match d
    case Root => ""
    case Child(name, parent) => Joined(parent) + "/" + name
  }

  function Path(d: Dentry): string {
    if d.Root? then "/" else Joined(d)
  }

  /** Names as the kernel has them: not empty, no slash, no NUL. */
  predicate Proper(d: Dentry) {
    d.Child? ==> d.name != [] && '/' !in d.name && NulFree(d.name) && Proper(d.parent)
  }

  lemma {:induction false} JoinedNulFree(d: Dentry)
    requires Proper(d)
    ensures NulFree(Joined(d)) && (d.Child? ==> |Joined(d)| > 1)
  {
    if d.Child? {
      JoinedNulFree(d.parent);
    }
  }

  /** The name behind the last slash, and what precedes that slash. */
  function Components(path: string): (r: Dentry)
    decreases |path|
  {
    if path == [] then Root
    else
      var i := LastSlash(path);
      if i < 0 then Child(path, Root) else Child(path[i + 1..], Components(path[..i]))
  }

  function LastSlash(s: string): (i: int)
    ensures -1 <= i < |s|
  {
    if s == [] then -1
    else if s[|s| - 1] == '/' then |s| - 1
    else LastSlash(s[..|s| - 1])
  }

  lemma {:induction false} LastSlashIs(p: string, name: string)
    requires '/' !in name
    ensures LastSlash(p + "/" + name) == |p|
  {
    var s := p + "/" + name;
    if name != [] {
      assert s[..|s| - 1] == p + "/" + name[..|name| - 1];
      LastSlashIs(p, name[..|name| - 1]);
    }
  }

  /** A path determines the dentry it was built from. */
  lemma {:induction false} PathRoundTrip(d: Dentry)
    requires Proper(d)
    ensures Components(if d.Root? then "" else Path(d)) == d
    ensures d.Child? ==> Path(d) != "/"
  {
    if d.Child? {
      PathRoundTrip(d.parent);
      JoinedNulFree(d);
      var p := Joined(d.parent);
      LastSlashIs(p, d.name);
      assert Joined(d)[|p| + 1..] == d.name && Joined(d)[..|p|] == p;
    }
  }

  /** The dentry reached from the root by the names `cs`. */
  function Nested(cs: seq<string>): Dentry {
    if cs == [] then Root else Child(cs[|cs| - 1], Nested(cs[..|cs| - 1]))
  }

  function Slashed(cs: seq<string>): string {
    if cs == [] then "" else "/" + cs[0] + Slashed(cs[1..])
  }

  lemma {:induction false} SlashedLast(cs: seq<string>)
    requires cs != []
    ensures Slashed(cs) == Slashed(cs[..|cs| - 1]) + "/" + cs[|cs| - 1]
  {
    if |cs| > 1 {
      SlashedLast(cs[1..]);
      assert cs[1..][..|cs| - 2] == cs[..|cs| - 1][1..];
    }
  }

  /** The names stand in the path from the root down, a slash before each. */
  lemma {:induction false} PathSpelled(cs: seq<string>)
    ensures Joined(Nested(cs)) == Slashed(cs)
    ensures Path(Nested(cs)) == if cs == [] then "/" else Slashed(cs)
    decreases |cs|
  {
    if cs != [] {
      PathSpelled(cs[..|cs| - 1]);
      SlashedLast(cs);
    }
  }

  /** The first loop: the length of the path. */
  method PathLength(d: Dentry) returns (len: nat)
    ensures len == |Joined(d)|
  {
    len := 0;
    var p := d;
    while p.Child?
      invariant len + |Joined(p)| == |Joined(d)|
      decreases p
    {
      len := len + |p.name| + 1;
      p := p.parent;
    }
  }

  lemma Prepend(front: string, name: string, back: string)
    ensures front + "/" + name + back == front + ("/" + name + back)
  {
  }

  /** The second loop: components from the last to the first, from the end of the buffer to
      its start. */
  method FillPath(d: Dentry, name: array<char>, total: nat)
    requires total == |Joined(d)| < name.Length
    modifies name
    ensures name[..total] == Joined(d) && name[total..] == old(name[total..])
  {
    var len, p := total, d;
    while p.Child?
      invariant len == |Joined(p)| <= total
      invariant Joined(p) + name[len..total] == Joined(d)
      invariant name[total..] == old(name[total..])
      decreases p
    {
      ghost var back := name[len..total];
      Prepend(Joined(p.parent), p.name, back);
      len := len - |p.name|;
      forall k | 0 <= k < |p.name| {
        name[len + k] := p.name[k];
      }
      len := len - 1;
      name[len] := '/';
      assert name[len..total] == "/" + p.name + back;
      p := p.parent;
    }
  }

  /** Writes the path of `d` into `name` when it fits. */
  method GetName(d: Dentry, name: array<char>) returns (ok: bool)
    requires Proper(d) && name.Length == PATH_MAX
    modifies name
    ensures ok <==> |Joined(d)| + 1 <= PATH_MAX
    ensures ok ==> CStr(name[..]) == Path(d) && NUL in name[..]
    ensures !ok ==> name[..] == old(name[..])
  {
    JoinedNulFree(d);
    var len := PathLength(d);
    if len + 1 > PATH_MAX {
      return false;
    }
    if len == 0 {
      name[0], name[1] := '/', NUL;
      HoldsString(name[..], "/");
      return true;
    }
    name[len] := NUL;
    FillPath(d, name, len);
    assert name[len] == name[len..][0];
    HoldsString(name[..], Joined(d));
    ok := true;
  }

  lemma HoldsString(b: seq<char>, s: string)
    requires NulFree(s) && |s| < |b| && b[..|s|] == s && b[|s|] == NUL
    ensures CStr(b) == s && NUL in b
  {
    assert b[..|s| + 1] == s + [NUL];
    CStrIs(b, s);
  }
}
