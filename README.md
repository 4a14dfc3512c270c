# SimpleZookeeperLock, modelled in Dafny

`SimpleZookeeperLock` is a distributed lock built on ZooKeeper. Each contender:

1. creates an ephemeral sequential child `sub<counter>` under the group node `/locks`;
2. lists the group's children and sorts them;
3. takes the lock if its own name comes first (or if only one child is listed);
4. otherwise records the path of the child just before its own in `waitPath` and watches that node.

The watcher runs the critical section when it sees a `NodeDeleted` event for `waitPath`. The critical section ends by deleting the contender's own node, `thisPath`.

The model has these modules:

- `Names`: the order Java's `String.compareTo` gives and its laws (`Below`, `AtMost`). It also holds `Collections.sort` (the function `Sort`, and `SortInPlace`, an in-place array sort proved to agree with it), `List.indexOf` (`IndexOf`), and removal of one child (`Without`).
- `Paths`: building a child's full path (`ChildPath`) and the `substring` that strips it (`NodeName`).
- `Sequential`: the zero-padded ten-digit suffix the service gives sequential nodes, and why the name order is the creation order.
- `Ranking`: the decision `connectZookeeper` takes from the children list and its own path (`Decide`), with the lemmas that say what that decision means.
- `Store`: the group node as the service keeps it (`Group`: its children and its sequence counter), with the three calls the lock makes: create, getChildren, delete.
- `Lock`: the contender (`SimpleLock`, with the fields `thisPath` and `waitPath`), its watcher (`React`, `OnEvent`), `doSomething`, and `connectZookeeper` split into node creation (`CreateNode`) and ranking (`RankAndAct`, `Connect`). A three-contender run (`ThreeContenders`) shows the queue forming and the first deletion waking only the second contender.

## Model

| member | source | states |
|---|---|---|
| Names.Below | src/main/java/org/slf/demo/SimpleZookeeperLock.java:65 | the compareTo order: the first differing character decides, a proper prefix comes first; a name is never below itself |
| Names.BelowTotal | src/main/java/org/slf/demo/SimpleZookeeperLock.java:65 | two different names are always ordered one way or the other, so the sort has a single answer |
| Names.BelowTransitive | src/main/java/org/slf/demo/SimpleZookeeperLock.java:65 | the compareTo order is transitive |
| Names.BelowIrreflexive | src/main/java/org/slf/demo/SimpleZookeeperLock.java:65 | no name is below itself |
| Names.BelowAfterCommonPrefix | src/main/java/org/slf/demo/SimpleZookeeperLock.java:55 | names with a common prefix compare as their remainders do |
| Names.Sort | src/main/java/org/slf/demo/SimpleZookeeperLock.java:65 | the sorted list is ascending and is a permutation of the fetched list |
| Names.SortedUnique | src/main/java/org/slf/demo/SimpleZookeeperLock.java:65 | an ascending permutation is unique, so any correct sort gives the same list as `Sort` |
| Names.SortInPlace | src/main/java/org/slf/demo/SimpleZookeeperLock.java:65 | sorting the array in place leaves it equal to `Sort` of its old contents |
| Names.SinkInto | src/main/java/org/slf/demo/SimpleZookeeperLock.java:65 | one insertion step extends the ascending prefix by one, keeps the same names, and leaves the rest of the array untouched |
| Names.IndexOf | src/main/java/org/slf/demo/SimpleZookeeperLock.java:66 | -1 exactly when the name is absent; otherwise the first position holding it |
| Names.IndexOfDistinct | src/main/java/org/slf/demo/SimpleZookeeperLock.java:66 | in a list without repeats, indexOf of the name at k is k |
| Names.SortPreservesDistinct | src/main/java/org/slf/demo/SimpleZookeeperLock.java:65 | sorting distinct children keeps them distinct |
| Names.Without | src/main/java/org/slf/demo/SimpleZookeeperLock.java:87 | deleting a child removes every copy of that name and keeps all other children |
| Names.WithoutFirst | src/main/java/org/slf/demo/SimpleZookeeperLock.java:87 | deleting the first of distinct children leaves the rest in order |
| Names.WithoutLast | src/main/java/org/slf/demo/SimpleZookeeperLock.java:87 | deleting a child that was just appended gives back the earlier list |
| Names.WithoutDistinct | src/main/java/org/slf/demo/SimpleZookeeperLock.java:87 | deleting a child keeps the children distinct |
| Paths.NodeName | src/main/java/org/slf/demo/SimpleZookeeperLock.java:64 | substring drops exactly the prefix's length, and throws (None) on a shorter path |
| Paths.NameOfChildPath | src/main/java/org/slf/demo/SimpleZookeeperLock.java:64-72 | stripping the prefix from a built path gives back the name |
| Paths.ChildPathOfName | src/main/java/org/slf/demo/SimpleZookeeperLock.java:64 | prefix + stripped name == path exactly when the path starts with the prefix |
| Paths.ChildPathInjective | src/main/java/org/slf/demo/SimpleZookeeperLock.java:44 | two children's paths are equal exactly when their names are |
| Sequential.Suffix | src/main/java/org/slf/demo/SimpleZookeeperLock.java:55 | the sequence suffix has exactly ten characters |
| Sequential.PaddedOrder | src/main/java/org/slf/demo/SimpleZookeeperLock.java:55 | padded numbers compare as names the way the numbers compare, and are equal only for equal numbers |
| Sequential.SequentialOrder | src/main/java/org/slf/demo/SimpleZookeeperLock.java:55 | among "sub" + suffix names, the earlier-created one sorts first |
| Sequential.SuffixOfSequentialName | src/main/java/org/slf/demo/SimpleZookeeperLock.java:55 | a created name ends in the suffix of its counter |
| Sequential.DistinctCounters | src/main/java/org/slf/demo/SimpleZookeeperLock.java:55 | names from different counters differ, so created names are fresh |
| Ranking.Rank | src/main/java/org/slf/demo/SimpleZookeeperLock.java:66-73 | on the sorted list: NotFound exactly when the own name is absent, Acquire exactly when it is first, otherwise Watch of a listed name other than the own |
| Ranking.Decide | src/main/java/org/slf/demo/SimpleZookeeperLock.java:61-73 | one child always acquires; PathTooShort exactly when the path is shorter than the prefix; a watched name is one of the fetched children |
| Ranking.WaitPathOf | src/main/java/org/slf/demo/SimpleZookeeperLock.java:72 | only a Watch decision sets a wait path, and stripping that path gives the predecessor |
| Ranking.InSort | src/main/java/org/slf/demo/SimpleZookeeperLock.java:65 | sorting neither adds nor drops a name |
| Ranking.NotFoundIffAbsent | src/main/java/org/slf/demo/SimpleZookeeperLock.java:61-68 | the error branch happens exactly when there are several children and the own name is not among them; it sets no wait path |
| Ranking.AcquireIffLeast | src/main/java/org/slf/demo/SimpleZookeeperLock.java:61-73 | with several children, the lock is taken exactly when the own name is listed and no child is smaller; any other listed name waits |
| Ranking.WatchIsImmediatePredecessor | src/main/java/org/slf/demo/SimpleZookeeperLock.java:65-72 | the watched child is listed, strictly below the own name, and no listed child lies between them |
| Ranking.AtMostOneAcquirer | src/main/java/org/slf/demo/SimpleZookeeperLock.java:61-70 | from one list, at most one listed contender acquires |
| Ranking.DistinctWatchTargets | src/main/java/org/slf/demo/SimpleZookeeperLock.java:71-73 | two contenders ranking against one list never watch the same node |
| Ranking.SingleChildAcquires | src/main/java/org/slf/demo/SimpleZookeeperLock.java:61-70 | a one-child list acquires without looking at the child; this agrees with ranking when the child is the own name, and the ranking would report it missing when it is not |
| Ranking.DecideIgnoresListingOrder | src/main/java/org/slf/demo/SimpleZookeeperLock.java:59-66 | the order in which the service lists the children does not change the decision |
| Ranking.QueuePosition | src/main/java/org/slf/demo/SimpleZookeeperLock.java:65-72 | over distinct children, position 0 acquires and position k watches position k-1 |
| Store.Group.CreateSequential | src/main/java/org/slf/demo/SimpleZookeeperLock.java:55 | create appends a fresh name, prefix + suffix of the counter, and advances the counter |
| Store.Group.Children | src/main/java/org/slf/demo/SimpleZookeeperLock.java:59 | getChildren returns distinct names |
| Store.Group.Delete | src/main/java/org/slf/demo/SimpleZookeeperLock.java:87 | delete removes exactly the named child and reports whether it existed |
| Lock.React | src/main/java/org/slf/demo/SimpleZookeeperLock.java:40-44 | the latch opens exactly on SyncConnected; the critical section runs only for a NodeDeleted event on the current waitPath, never without one |
| Lock.OnlyWatchedDeletionRuns | src/main/java/org/slf/demo/SimpleZookeeperLock.java:40-46 | the critical section runs exactly for a NodeDeleted event on waitPath; SyncConnected only opens the latch |
| Lock.WakesOnlyForPredecessor | src/main/java/org/slf/demo/SimpleZookeeperLock.java:44 | after a Watch decision, a child's deletion starts the critical section exactly when that child is the ranked predecessor |
| Lock.WakeWithoutRerank | src/main/java/org/slf/demo/SimpleZookeeperLock.java:44-46 | the watcher does not rank again: the predecessor's deletion runs the critical section even though ranking the remaining children would wait |
| Lock.FirstCreatedAcquires | src/main/java/org/slf/demo/SimpleZookeeperLock.java:55-70 | among listed "sub" children, the one that acquires has the lowest counter |
| Lock.ThreeInLine | src/main/java/org/slf/demo/SimpleZookeeperLock.java:61-72 | for three ascending names, the first acquires, the second watches the first, the third watches the second |
| Lock.SimpleLock.OwnName | src/main/java/org/slf/demo/SimpleZookeeperLock.java:64 | the own name rebuilt into a path gives thisPath |
| Lock.SimpleLock.OnEvent | src/main/java/org/slf/demo/SimpleZookeeperLock.java:39-51 | the watcher's reaction is `React` on the current waitPath; only a run deletes the own node; the fields stay unchanged |
| Lock.SimpleLock.DoSomething | src/main/java/org/slf/demo/SimpleZookeeperLock.java:79-90 | the critical section runs once and then deletes exactly the own node |
| Lock.SimpleLock.CreateNode | src/main/java/org/slf/demo/SimpleZookeeperLock.java:55 | thisPath becomes the full path of a fresh sequential child appended to the group |
| Lock.SimpleLock.RankAndAct | src/main/java/org/slf/demo/SimpleZookeeperLock.java:59-75 | the decision is `Decide` on the listed children; Acquire deletes the own node, Watch stores the predecessor's path in waitPath, and NotFound changes nothing |
| Lock.SimpleLock.Connect | src/main/java/org/slf/demo/SimpleZookeeperLock.java:53-75 | after creating its node the contender always acquires or watches (the error branch is unreachable), by the rank of its new name; the counter advances by one and the latch stays open, so further contenders can connect to the same group |
| Lock.Join | src/main/java/org/slf/demo/SimpleZookeeperLock.java:39-55 | a new contender whose SyncConnected event opened the latch, then created its node, holds a fresh path, no wait path, and an open latch |
| Lock.RankThree | src/main/java/org/slf/demo/SimpleZookeeperLock.java:59-75 | three contenders on an ascending list: the first acquires and deletes its node, the others do not run and each waits on the node just before its own |
| Lock.RankFirst | src/main/java/org/slf/demo/SimpleZookeeperLock.java:69-70 | a contender ranked first runs the critical section once and removes exactly its own node, keeping waitPath |
| Lock.RankBehind | src/main/java/org/slf/demo/SimpleZookeeperLock.java:71-73 | a contender ranked behind p stores p's full path in waitPath and changes neither the group nor its run count |
| Lock.DeliverDeletion | src/main/java/org/slf/demo/SimpleZookeeperLock.java:39-51 | the head's deletion wakes only the contender watching it, which then deletes its own node |

## Left out

- The ZooKeeper client is not modelled: connecting, sessions, the session timeout, ACLs and the remote calls. The group node `Group` stands in for the service, with create, getChildren and delete.
- The `CountDownLatch` wait, the `Thread.sleep` calls, the five-thread `main`, and concurrency in general are not modelled. `Connect` requires the latch to be open. `ThreeContenders` fixes one interleaving: every node is created before any contender ranks.
- Logging is not modelled. The error branch is the `NotFound` decision, which changes nothing.
- `getData(waitPath, true, ...)` arming the watch is taken to succeed. If the predecessor is deleted before the watch is set, the call throws NoNode; that race needs concurrency and is not modelled.
- Exceptions are not modelled as control flow. A delete of a missing node returns `false` where the service throws NoNode. `substring` on a short path is the `PathTooShort` decision, which the class never reaches because `thisPath` always carries the group prefix.
- Lock.SimpleLock.CreateNode: requires the counter to stay below 2^31 - 1. The service's signed 32-bit counter wrapping to negative numbers is not modelled.
- Store.Group.Delete: leaves the counter unchanged, whereas the service's child version also advances on deletion. The lock only relies on the counter growing, which both do.
- Names.Below: compares `char` values, which are Unicode scalar values. Java compares UTF-16 code units. The two orders agree on the names the lock uses (ASCII).
- Names.SortInPlace: an insertion sort, not the merge sort `Collections.sort` uses. `SortedUnique` shows every correct sort produces the same list.
- Re-fetching and re-ranking when the watch fires are not in the source, so they are not in the model. `WakeWithoutRerank` states what follows from their absence.
- `BooleanMutex` and its test are not part of this model. They are a thread gate unrelated to the ranking.
