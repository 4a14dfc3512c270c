/**
 * The decision connectZookeeper takes once its node exists: given the child
 * names it fetched and its own path, either take the lock, wait on the
 * immediate predecessor, or hit the branch that only logs an error.
 */
module Ranking {
  import opened Wrappers
  import opened Names
  import opened Paths

  datatype Decision =
    | Acquire                       // run the critical section now
    | Watch(predecessor: string)    // record "/locks/" + predecessor in waitPath and watch it
    | NotFound                      // own name missing from the list: logged, nothing else
    | PathTooShort                  // substring on a path shorter than the prefix throws

  /** What the code does with the ascending list once it has its own name (index lookup and three branches). */
  function Rank(sorted: seq<string>, own: string): (r: Decision)
    ensures r == NotFound <==> own !in sorted
    ensures r == Acquire <==> |sorted| > 0 && sorted[0] == own
    ensures r.Watch? ==> r.predecessor in sorted && r.predecessor != own
    ensures r != PathTooShort
  {
    var index := IndexOf(sorted, own);
    if index == -1 then NotFound
    else if index == 0 then Acquire
    else Watch(sorted[index - 1])
  }

  /**
   * The whole decision as written: a list of exactly one child acquires without
   * looking at it; otherwise the own name is the path with the group prefix
   * dropped, the list is sorted and the name is ranked in it.
   */
  function Decide(children: seq<string>, thisPath: string): (r: Decision)
    ensures |children| == 1 ==> r == Acquire
    ensures r == PathTooShort <==> |children| != 1 && |thisPath| < |GroupPrefix(GroupNode)|
    ensures r.Watch? ==> r.predecessor in children
  {
    if |children| == 1 then Acquire
    else match NodeName(GroupNode, thisPath)
      case None => PathTooShort
      case Some(own) =>
        var d := Rank(Sort(children), own);
        assert d.Watch? ==> d.predecessor in multiset(Sort(children));
        d
  }

  /** The full path a Watch decision stores in waitPath. */
  function WaitPathOf(d: Decision): (r: Option<string>)
    ensures r.Some? <==> d.Watch?
    ensures d.Watch? ==> NodeName(GroupNode, r.value) == Some(d.predecessor)
  {
    NameOfChildPath(GroupNode, if d.Watch? then d.predecessor else "");
    if d.Watch? then Some(ChildPath(GroupNode, d.predecessor)) else None
  }

  lemma InSort(s: seq<string>, x: string)
    ensures x in Sort(s) <==> x in s
  {
    assert x in multiset(Sort(s)) <==> x in multiset(s);
  }

  /**
   * The error branch is taken exactly when the list has other than one child,
   * the path is long enough, and the own name is not among the children;
   * it acquires nothing and sets no wait target.
   */
  lemma NotFoundIffAbsent(children: seq<string>, thisPath: string)
    ensures Decide(children, thisPath) == NotFound
            <==> |children| != 1 && NodeName(GroupNode, thisPath).Some?
                 && NodeName(GroupNode, thisPath).value !in children
    ensures Decide(children, thisPath) == NotFound ==> WaitPathOf(Decide(children, thisPath)) == None
  {
    if |children| != 1 && NodeName(GroupNode, thisPath).Some? {
      InSort(children, NodeName(GroupNode, thisPath).value);
    }
  }

  /**
   * With more than one child, the lock is taken exactly when the own name is
   * among the children and no child is smaller; every other contender whose
   * name is listed waits.
   */
  lemma AcquireIffLeast(children: seq<string>, thisPath: string, own: string)
    requires |children| != 1 && NodeName(GroupNode, thisPath) == Some(own)
    ensures Decide(children, thisPath) == Acquire <==> own in children && Least(own, children)
    ensures own in children && !Least(own, children) ==> Decide(children, thisPath).Watch?
  {
    var s := Sort(children);
    InSort(children, own);
    var index := IndexOf(s, own);
    if index == 0 {
      forall c | c in children ensures AtMost(own, c) {
        InSort(children, c);
        var k :| 0 <= k < |s| && s[k] == c;
        SortedHeadLeast(s, k);
      }
    }
    if own in children && Least(own, children) && index != 0 {
      InSort(children, s[0]);
      SortedHeadLeast(s, index);
      AtMostAntisymmetric(own, s[0]);
    }
  }

  /**
   * A Watch decision names the immediate predecessor: a listed child strictly
   * below the own (listed) name, with no listed child strictly between them.
   */
  lemma WatchIsImmediatePredecessor(children: seq<string>, thisPath: string, p: string)
    requires Decide(children, thisPath) == Watch(p)
    ensures NodeName(GroupNode, thisPath).Some?
    ensures p in children && NodeName(GroupNode, thisPath).value in children
    ensures Below(p, NodeName(GroupNode, thisPath).value)
    ensures forall c :: c in children ==> !(Below(p, c) && Below(c, NodeName(GroupNode, thisPath).value))
  {
    var own := NodeName(GroupNode, thisPath).value;
    var s := Sort(children);
    var i := IndexOf(s, own);
    assert s[i] == own && s[i - 1] == p;
    InSort(children, own);
    InSort(children, p);
    assert AtMost(p, own);
    assert p != own by { assert s[..i][i - 1] == p; }
    forall c | c in children ensures !(Below(p, c) && Below(c, own)) {
      InSort(children, c);
      var k :| 0 <= k < |s| && s[k] == c;
      if k < i {
        if k < i - 1 { assert AtMost(s[k], s[i - 1]); }
        if Below(p, c) { BelowAsymmetric(p, c); }
      } else {
        if k > i { assert AtMost(s[i], s[k]); }
        if Below(c, own) { BelowAsymmetric(c, own); }
      }
    }
  }

  /** Of the listed contenders, at most one takes the lock from one list. */
  lemma AtMostOneAcquirer(children: seq<string>, a: string, b: string)
    requires a in children && b in children
    requires Decide(children, ChildPath(GroupNode, a)) == Acquire
    requires Decide(children, ChildPath(GroupNode, b)) == Acquire
    ensures a == b
  {
    NameOfChildPath(GroupNode, a);
    NameOfChildPath(GroupNode, b);
    if |children| != 1 {
      AcquireIffLeast(children, ChildPath(GroupNode, a), a);
      AcquireIffLeast(children, ChildPath(GroupNode, b), b);
      AtMostAntisymmetric(a, b);
    }
  }

  /**
   * Two contenders ranking against one list never watch the same node, so a
   * deletion wakes at most one waiter.
   */
  lemma DistinctWatchTargets(children: seq<string>, pathA: string, pathB: string, p: string)
    requires Decide(children, pathA) == Watch(p) && Decide(children, pathB) == Watch(p)
    ensures NodeName(GroupNode, pathA) == NodeName(GroupNode, pathB)
  {
    WatchIsImmediatePredecessor(children, pathA, p);
    WatchIsImmediatePredecessor(children, pathB, p);
    var a, b := NodeName(GroupNode, pathA).value, NodeName(GroupNode, pathB).value;
    BelowTotal(a, b);
  }

  /**
   * A single-child list acquires without looking at the child. When that child
   * is the own name, the ranking branch would have acquired too; when it is
   * another name, the ranking branch would have reported it missing.
   */
  lemma SingleChildAcquires(child: string, thisPath: string)
    ensures Decide([child], thisPath) == Acquire
    ensures NodeName(GroupNode, thisPath) == Some(child) ==> Rank(Sort([child]), child) == Acquire
    ensures NodeName(GroupNode, thisPath).Some? && NodeName(GroupNode, thisPath).value != child
            ==> Rank(Sort([child]), NodeName(GroupNode, thisPath).value) == NotFound
  {
    assert Sort([child]) == [child] by {
      assert [child][1..] == [];
    }
  }

  /** The order in which the service listed the children does not change the decision. */
  lemma DecideIgnoresListingOrder(xs: seq<string>, ys: seq<string>, thisPath: string)
    requires multiset(xs) == multiset(ys)
    ensures Decide(xs, thisPath) == Decide(ys, thisPath)
  {
    assert |xs| == |multiset(xs)| == |ys|;
    SortedUnique(Sort(xs), Sort(ys));
  }

  /**
   * Over distinct children, the contender at position k of the ascending list
   * acquires when k is 0 and otherwise watches the one at k - 1: the waiters
   * form a chain, each on its own predecessor.
   */
  lemma QueuePosition(children: seq<string>, k: nat)
    requires Distinct(children) && |children| > 1 && k < |children|
    ensures |Sort(children)| == |children|
    ensures Decide(children, ChildPath(GroupNode, Sort(children)[k]))
            == if k == 0 then Acquire else Watch(Sort(children)[k - 1])
  {
    assert |Sort(children)| == |multiset(Sort(children))| == |children|;
    NameOfChildPath(GroupNode, Sort(children)[k]);
    SortPreservesDistinct(children);
    IndexOfDistinct(Sort(children), k);
  }

}
