/**
 * SimpleZookeeperLock: one contender. It creates its sequential child under
 * "/locks", ranks itself among the children, and either runs the critical
 * section at once or records its predecessor's path in waitPath; the watcher
 * runs the critical section when that path is reported deleted. Running the
 * critical section ends by deleting the contender's own node.
 */
module Lock {
  import opened Wrappers
  import opened Names
  import opened Paths
  import opened Sequential
  import opened Ranking
  import opened Store

  /** Session states the client reports (Watcher.Event.KeeperState). */
  datatype KeeperState =
    | Unknown | Disconnected | SyncConnected | AuthFailed | ConnectedReadOnly
    | SaslAuthenticated | Expired | Closed

  /** Node event kinds (Watcher.Event.EventType); NoEvent is a pure session event (Java's EventType.None). */
  datatype EventType =
    | NoEvent | NodeCreated | NodeDeleted | NodeDataChanged | NodeChildrenChanged

  /** A WatchedEvent; path is absent for session events. */
  datatype WatchedEvent = WatchedEvent(state: KeeperState, kind: EventType, path: Option<string>)

  /** What the watcher does with one event. */
  datatype Reaction = Reaction(countDown: bool, runCriticalSection: bool)

  /**
   * The watcher's two independent tests: a SyncConnected state opens the
   * connection latch; a NodeDeleted event whose path equals waitPath runs the
   * critical section. An event without a path cannot equal waitPath.
   */
  function React(e: WatchedEvent, waitPath: Option<string>): (r: Reaction)
    ensures r.countDown <==> e.state == SyncConnected
    ensures r.runCriticalSection ==> e.kind == NodeDeleted && waitPath.Some? && e.path == waitPath
    ensures e.kind != NodeDeleted || waitPath.None? ==> !r.runCriticalSection
  {
    Reaction(e.state == SyncConnected,
             e.kind == NodeDeleted && e.path.Some? && waitPath == e.path)
  }

  /** Only the deletion of the watched path starts the critical section; everything else leaves it alone. */
  lemma OnlyWatchedDeletionRuns(e: WatchedEvent, waitPath: Option<string>)
    ensures React(e, waitPath).runCriticalSection
            <==> waitPath.Some? && e == WatchedEvent(e.state, NodeDeleted, waitPath)
    ensures waitPath.None? ==> !React(e, waitPath).runCriticalSection
    ensures React(e, waitPath).countDown <==> e.state == SyncConnected
  {
  }

  /**
   * After a Watch decision, a deletion event for a child of the group starts
   * the critical section exactly when the child is the predecessor ranked.
   */
  lemma WakesOnlyForPredecessor(children: seq<string>, thisPath: string, state: KeeperState, kind: EventType, c: string)
    requires Decide(children, thisPath).Watch?
    ensures React(WatchedEvent(state, kind, Some(ChildPath(GroupNode, c))), WaitPathOf(Decide(children, thisPath))).runCriticalSection
            <==> kind == NodeDeleted && c == Decide(children, thisPath).predecessor
  {
    ChildPathInjective(GroupNode, c, Decide(children, thisPath).predecessor);
  }

  /**
   * The watcher does not rank again: when the predecessor goes away while a
   * smaller contender is still listed, the deletion event still starts the
   * critical section, although ranking the remaining children would not
   * acquire.
   */
  lemma WakeWithoutRerank(children: seq<string>, thisPath: string, p: string, c: string)
    requires Decide(children, thisPath) == Watch(p)
    requires c in children && Below(c, p)
    ensures React(WatchedEvent(SyncConnected, NodeDeleted, Some(ChildPath(GroupNode, p))),
                  WaitPathOf(Decide(children, thisPath))).runCriticalSection
    ensures Decide(Without(children, p), thisPath).Watch?
  {
    WatchIsImmediatePredecessor(children, thisPath, p);
    var own := NodeName(GroupNode, thisPath).value;
    BelowTransitive(c, p, own);
    BelowAsymmetric(c, p);
    BelowAsymmetric(p, own);
    BelowAsymmetric(c, own);
    var rest := Without(children, p);
    assert c in rest && own in rest && !Least(own, rest);
    TwoNamesNotSingle(rest, c, own);
    AcquireIffLeast(rest, thisPath, own);
  }

  /** A list holding two different names has more than one element. */
  lemma TwoNamesNotSingle(s: seq<string>, x: string, y: string)
    requires x in s && y in s && x != y
    ensures |s| != 1
  {
  }

  /**
   * Sequential names make the lock first come, first served: among listed
   * "sub" children, the one that acquires has the lowest sequence number.
   */
  lemma FirstCreatedAcquires(children: seq<string>, m: nat, n: nat)
    requires m <= MaxCounter && n <= MaxCounter
    requires SubNode + Suffix(m) in children && SubNode + Suffix(n) in children
    requires Decide(children, ChildPath(GroupNode, SubNode + Suffix(m))) == Acquire
    ensures m <= n
  {
    var a, b := SubNode + Suffix(m), SubNode + Suffix(n);
    SequentialOrder(SubNode, m, n);
    if |children| == 1 {
      assert a == children[0] == b;
    } else {
      NameOfChildPath(GroupNode, a);
      AcquireIffLeast(children, ChildPath(GroupNode, a), a);
      assert AtMost(a, b);
    }
  }

  class SimpleLock {
    /** The client's view of the group node. */
    const zk: Group
    /** Path of this contender's own node, set when it is created. */
    var thisPath: Option<string>
    /** Path of the node this contender waits for, set when it ranks behind another. */
    var waitPath: Option<string>
    /** The connection latch has counted down. */
    var connected: bool
    /** How many times the critical section has run. */
    var criticalRuns: nat

    ghost predicate Valid()
      reads this, zk
    {
      && zk.Valid()
      && (thisPath.Some? ==> HasGroupPrefix(GroupNode, thisPath.value))
      && (waitPath.Some? ==> thisPath.Some?)
    }

    /** The name of the own node: thisPath with the group prefix dropped. */
    function OwnName(): (r: string)
      reads this, zk
      requires Valid() && thisPath.Some?
      ensures ChildPath(GroupNode, r) == thisPath.value
    {
      ChildPathOfName(GroupNode, thisPath.value);
      NodeName(GroupNode, thisPath.value).value
    }

    constructor (zk: Group)
      requires zk.Valid()
      ensures Valid() && this.zk == zk
      ensures thisPath == None && waitPath == None && !connected && criticalRuns == 0
    {
      this.zk := zk;
      thisPath := None;
      waitPath := None;
      connected := false;
      criticalRuns := 0;
    }

    /** The watcher lambda: count the latch down on SyncConnected, run the critical section on the watched deletion. */
    method OnEvent(e: WatchedEvent) returns (r: Reaction)
      requires Valid()
      modifies this, zk
      ensures Valid()
      ensures r == React(e, old(waitPath))
      ensures connected == (old(connected) || r.countDown)
      ensures thisPath == old(thisPath) && waitPath == old(waitPath)
      ensures r.runCriticalSection ==> thisPath.Some?
      ensures r.runCriticalSection ==>
                zk.children == Without(old(zk.children), OwnName()) && zk.counter == old(zk.counter)
                && criticalRuns == old(criticalRuns) + 1
      ensures !r.runCriticalSection ==>
                zk.children == old(zk.children) && zk.counter == old(zk.counter)
                && criticalRuns == old(criticalRuns)
    {
      r := React(e, waitPath);
      if e.state == SyncConnected {
        connected := true;
      }
      if e.kind == NodeDeleted && e.path.Some? && e.path == waitPath {
        var _ := DoSomething();
      }
    }

    /**
     * doSomething: the critical section (its sleep is not modelled), then, in
     * the finally block, delete thisPath. deleted is false where the service
     * answers NoNode.
     */
    method DoSomething() returns (deleted: bool)
      requires Valid() && thisPath.Some?
      modifies this, zk
      ensures Valid()
      ensures thisPath == old(thisPath) && waitPath == old(waitPath) && connected == old(connected)
      ensures criticalRuns == old(criticalRuns) + 1
      ensures deleted == (OwnName() in old(zk.children))
      ensures zk.children == Without(old(zk.children), OwnName()) && zk.counter == old(zk.counter)
    {
      criticalRuns := criticalRuns + 1;
      deleted := zk.Delete(OwnName());
    }

    /** The create call: an ephemeral sequential child named "sub" + suffix; thisPath is its full path. */
    method CreateNode()
      requires Valid() && zk.counter < MaxCounter
      modifies this, zk
      ensures Valid()
      ensures thisPath == Some(ChildPath(GroupNode, SubNode + Suffix(old(zk.counter))))
      ensures zk.children == old(zk.children) + [SubNode + Suffix(old(zk.counter))]
      ensures SubNode + Suffix(old(zk.counter)) !in old(zk.children)
      ensures zk.counter == old(zk.counter) + 1
      ensures waitPath == old(waitPath) && connected == old(connected) && criticalRuns == old(criticalRuns)
    {
      var name := zk.CreateSequential(SubNode);
      NameOfChildPath(GroupNode, name);
      thisPath := Some(ChildPath(GroupNode, name));
    }

    /**
     * From the list of children to the decision: one child acquires; otherwise
     * strip the own name, sort the list in place, find the own index, and
     * acquire at index 0, record the predecessor's path in waitPath at a
     * positive index (and set a watch on it), or only log when absent.
     */
    method RankAndAct() returns (d: Decision)
      requires Valid() && thisPath.Some?
      modifies this, zk
      ensures Valid()
      ensures thisPath == old(thisPath) && connected == old(connected)
      ensures d == Decide(old(zk.children), thisPath.value)
      ensures d != PathTooShort
      ensures waitPath == if d.Watch? then WaitPathOf(d) else old(waitPath)
      ensures d == Acquire ==>
                zk.children == Without(old(zk.children), OwnName()) && criticalRuns == old(criticalRuns) + 1
      ensures d != Acquire ==> zk.children == old(zk.children) && criticalRuns == old(criticalRuns)
      ensures zk.counter == old(zk.counter)
    {
      var childrenNodes := zk.Children();
      if |childrenNodes| == 1 {
        var _ := DoSomething();
        d := Acquire;
      } else {
        var thisNode := OwnName();
        NameOfChildPath(GroupNode, thisNode);
        var a := new string[|childrenNodes|](i requires 0 <= i < |childrenNodes| => childrenNodes[i]);
        assert a[..] == childrenNodes;
        SortInPlace(a);
        var index := IndexOf(a[..], thisNode);
        if index == -1 {
          d := NotFound;
        } else if index == 0 {
          var _ := DoSomething();
          d := Acquire;
        } else {
          waitPath := Some(ChildPath(GroupNode, a[index - 1]));
          d := Watch(a[index - 1]);
        }
      }
    }

    /**
     * connectZookeeper after the latch has opened: create the own node, then
     * rank it among the children. The own node is always listed, so the
     * error branch is not reached, and the decision is the one its rank gives.
     */
    method Connect() returns (d: Decision)
      requires Valid() && connected && zk.counter < MaxCounter
      modifies this, zk
      ensures Valid() && thisPath.Some?
      ensures OwnName() == SubNode + Suffix(old(zk.counter))
      ensures d == Decide(old(zk.children) + [OwnName()], thisPath.value)
      ensures d.Acquire? || d.Watch?
      ensures waitPath == if d.Watch? then WaitPathOf(d) else old(waitPath)
      ensures d == Acquire ==> zk.children == old(zk.children) && criticalRuns == old(criticalRuns) + 1
      ensures d != Acquire ==> zk.children == old(zk.children) + [OwnName()] && criticalRuns == old(criticalRuns)
      ensures zk.counter == old(zk.counter) + 1 && connected
    {
      ghost var name := SubNode + Suffix(zk.counter);
      CreateNode();
      ghost var listed := zk.children;
      assert listed == old(zk.children) + [name];
      NameOfChildPath(GroupNode, name);
      assert OwnName() == name;
      NotFoundIffAbsent(listed, thisPath.value);
      d := RankAndAct();
      assert OwnName() == name;
      WithoutLast(old(zk.children), name);
    }
  }


  /**
   * Three names listed in ascending order: the first acquires, the second
   * watches the first, and the third watches the second.
   */
  lemma ThreeInLine(s: seq<string>)
    requires |s| == 3 && Below(s[0], s[1]) && Below(s[1], s[2])
    ensures Decide(s, ChildPath(GroupNode, s[0])) == Acquire
    ensures Decide(s, ChildPath(GroupNode, s[1])) == Watch(s[0])
    ensures Decide(s, ChildPath(GroupNode, s[2])) == Watch(s[1])
  {
    BelowTransitive(s[0], s[1], s[2]);
    BelowAsymmetric(s[0], s[1]);
    BelowAsymmetric(s[1], s[2]);
    BelowAsymmetric(s[0], s[2]);
    assert Sorted(s);
    SortedUnique(s, Sort(s));
    QueuePosition(s, 0);
    QueuePosition(s, 1);
    QueuePosition(s, 2);
  }

  /**
   * Three contenders on an empty group, in one interleaving: all create their
   * nodes before any ranks (the window the sleep after create leaves open).
   * The first acquires, each other waits on the one created just before it,
   * and the first's deletion wakes the second only.
   */
  method ThreeContenders(group: Group)
    requires group.Valid() && group.children == [] && group.counter + 3 <= MaxCounter
    modifies group
  {
    ghost var k0 := group.counter;
    var a := Join(group);
    ghost var k1 := group.counter;
    var b := Join(group);
    assert a.Valid();
    ghost var k2 := group.counter;
    var c := Join(group);
    assert a.Valid() && b.Valid();
    ghost var listed := group.children;
    assert |listed| == 3 && listed[0] == SubNode + Suffix(k0)
        && listed[1] == SubNode + Suffix(k1) && listed[2] == SubNode + Suffix(k2);
    assert Below(listed[0], listed[1]) && Below(listed[1], listed[2]) by {
      SequentialOrder(SubNode, k0, k1);
      SequentialOrder(SubNode, k1, k2);
    }
    RankThree(group, a, b, c, listed);
    ChildPathInjective(GroupNode, listed[0], listed[1]);
    DeliverDeletion(group, b, c, a.thisPath, listed[1..]);
  }

  /**
   * A new contender on the group: its session reports SyncConnected, which
   * opens the latch, and it then creates its node; it has not yet ranked.
   */
  method Join(group: Group) returns (l: SimpleLock)
    requires group.Valid() && group.counter < MaxCounter
    modifies group
    ensures fresh(l) && l.zk == group && l.Valid() && l.connected
    ensures l.thisPath == Some(ChildPath(GroupNode, SubNode + Suffix(old(group.counter))))
    ensures l.waitPath == None && l.criticalRuns == 0
    ensures group.children == old(group.children) + [SubNode + Suffix(old(group.counter))]
    ensures group.counter == old(group.counter) + 1
  {
    l := new SimpleLock(group);
    var r := l.OnEvent(WatchedEvent(SyncConnected, NoEvent, None));
    assert !r.runCriticalSection;
    l.CreateNode();
  }

  /**
   * Three contenders whose nodes are listed in ascending order rank, the last
   * created first: the first acquires and deletes its node, each of the
   * others waits on the node listed just before its own.
   */
  method RankThree(group: Group, a: SimpleLock, b: SimpleLock, c: SimpleLock, ghost listed: seq<string>)
    requires a != b && b != c && a != c && a.zk == group && b.zk == group && c.zk == group
    requires a.Valid() && b.Valid() && c.Valid()
    requires group.children == listed && |listed| == 3
    requires Below(listed[0], listed[1]) && Below(listed[1], listed[2])
    requires a.thisPath == Some(ChildPath(GroupNode, listed[0]))
    requires b.thisPath == Some(ChildPath(GroupNode, listed[1]))
    requires c.thisPath == Some(ChildPath(GroupNode, listed[2]))
    modifies group, a, b, c
    ensures a.Valid() && b.Valid() && c.Valid()
    ensures group.children == listed[1..]
    ensures a.thisPath == old(a.thisPath) && b.thisPath == old(b.thisPath) && c.thisPath == old(c.thisPath)
    ensures a.criticalRuns == old(a.criticalRuns) + 1
    ensures b.criticalRuns == old(b.criticalRuns) && c.criticalRuns == old(c.criticalRuns)
    ensures b.waitPath == Some(ChildPath(GroupNode, listed[0]))
    ensures c.waitPath == Some(ChildPath(GroupNode, listed[1]))
  {
    ThreeInLine(listed);
    RankBehind(c, listed[1]);
    assert a.Valid() && b.Valid();
    RankBehind(b, listed[0]);
    assert a.Valid() && c.Valid();
    RankFirst(a, listed[0]);
    WithoutFirst(listed);
  }

  /** A contender whose rank puts it first runs the critical section and deletes its own node. */
  method RankFirst(l: SimpleLock, ghost own: string)
    requires l.Valid() && l.thisPath == Some(ChildPath(GroupNode, own))
    requires Decide(l.zk.children, l.thisPath.value) == Acquire
    modifies l, l.zk
    ensures l.Valid() && l.thisPath == old(l.thisPath) && l.waitPath == old(l.waitPath)
    ensures l.zk.children == Without(old(l.zk.children), own) && l.zk.counter == old(l.zk.counter)
    ensures l.criticalRuns == old(l.criticalRuns) + 1
  {
    var d := l.RankAndAct();
    assert l.OwnName() == own by {
      ChildPathInjective(GroupNode, l.OwnName(), own);
    }
  }

  /** A contender whose rank puts it behind p records p's path and leaves the group as it was. */
  method RankBehind(l: SimpleLock, ghost p: string)
    requires l.Valid() && l.thisPath.Some? && Decide(l.zk.children, l.thisPath.value) == Watch(p)
    modifies l, l.zk
    ensures l.Valid() && l.thisPath == old(l.thisPath) && l.criticalRuns == old(l.criticalRuns)
    ensures l.zk.children == old(l.zk.children) && l.zk.counter == old(l.zk.counter)
    ensures l.waitPath == Some(ChildPath(GroupNode, p))
  {
    var d := l.RankAndAct();
  }

  /**
   * The deletion of the head of the chain reaches two waiters: the one that
   * watches it runs the critical section and deletes its own node; the one
   * that watches a different path does nothing.
   */
  method DeliverDeletion(group: Group, b: SimpleLock, c: SimpleLock, head: Option<string>, ghost rest: seq<string>)
    requires b != c && b.zk == group && c.zk == group && b.Valid() && c.Valid()
    requires group.children == rest && |rest| == 2
    requires b.thisPath == Some(ChildPath(GroupNode, rest[0])) && head.Some? && b.waitPath == head
    requires c.waitPath == Some(ChildPath(GroupNode, rest[0])) && head != c.waitPath
    modifies group, b, c
    ensures group.children == rest[1..]
    ensures b.criticalRuns == old(b.criticalRuns) + 1 && c.criticalRuns == old(c.criticalRuns)
  {
    var deleted := WatchedEvent(SyncConnected, NodeDeleted, head);
    var rc := c.OnEvent(deleted);
    assert !rc.runCriticalSection && group.children == rest;
    var rb := b.OnEvent(deleted);
    assert rb.runCriticalSection;
    assert b.OwnName() == rest[0] by {
      ChildPathInjective(GroupNode, b.OwnName(), rest[0]);
    }
    WithoutFirst(rest);
  }

}
