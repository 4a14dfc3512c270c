/**
 * Paths of the lock's nodes: the group node "/locks" and its children
 * "/locks/<name>". The lock builds a child's full path by prepending
 * "/" + groupNode + "/" and recovers a name by dropping that many characters.
 */
module Paths {
  import opened Wrappers

  /** The group node every contender creates its child under. */
  const GroupNode: string := "locks"

  /** The name each contender asks for; the service appends the sequence suffix. */
  const SubNode: string := "sub"

  function GroupPrefix(group: string): string
  {
    "/" + group + "/"
  }

  /** The full path of the child `name` of `group`, as the lock writes waitPath. */
  function ChildPath(group: string, name: string): string
  {
    GroupPrefix(group) + name
  }

  predicate HasGroupPrefix(group: string, path: string)
  {
    |GroupPrefix(group)| <= |path| && path[..|GroupPrefix(group)|] == GroupPrefix(group)
  }

  /**
   * String.substring(prefix length): drops as many characters as the prefix has,
   * without checking that they are the prefix. A path shorter than the prefix
   * makes substring throw, which is None here.
   */
  function NodeName(group: string, path: string): (r: Option<string>)
    ensures r.Some? ==> |r.value| == |path| - |GroupPrefix(group)|
  {
    var n := |GroupPrefix(group)|;
    if n <= |path| then Some(path[n..]) else None
  }

  /** Stripping the prefix from a built path gives back the name. */
  lemma NameOfChildPath(group: string, name: string)
    ensures NodeName(group, ChildPath(group, name)) == Some(name)
    ensures HasGroupPrefix(group, ChildPath(group, name))
  {
    var p := ChildPath(group, name);
    assert p[|GroupPrefix(group)|..] == name;
    assert p[..|GroupPrefix(group)|] == GroupPrefix(group);
  }

  /**
   * Building a path from the stripped name gives back the path exactly when the
   * path did start with the group prefix: the strip itself never checks it.
   */
  lemma ChildPathOfName(group: string, path: string)
    ensures (NodeName(group, path).Some? && ChildPath(group, NodeName(group, path).value) == path)
            <==> HasGroupPrefix(group, path)
  {
    var n := |GroupPrefix(group)|;
    if HasGroupPrefix(group, path) {
      assert path == path[..n] + path[n..];
    }
    if NodeName(group, path).Some? && ChildPath(group, NodeName(group, path).value) == path {
      NameOfChildPath(group, path[n..]);
    }
  }

  /** Two children of one group have the same path only when they have the same name. */
  lemma ChildPathInjective(group: string, a: string, b: string)
    ensures ChildPath(group, a) == ChildPath(group, b) <==> a == b
  {
    if ChildPath(group, a) == ChildPath(group, b) {
      NameOfChildPath(group, a);
      NameOfChildPath(group, b);
    }
  }

}
