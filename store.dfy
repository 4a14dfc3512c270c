/**
 * The group node "/locks" as the coordination service keeps it: its list of
 * children and the counter it uses to name sequential children. Only the
 * three calls the lock makes on it are modelled: create a sequential child,
 * list the children, delete a child.
 */
module Store {
  import opened Names
  import opened Sequential

  class Group {
    /** The child names, in the order the service lists them. */
    var children: seq<string>
    /** The next sequence number the service appends. */
    var counter: nat
    /** For each live child, the counter value its suffix encodes. */
    ghost var sequenceOf: map<string, nat>

    ghost predicate Valid()
      reads this
    {
      && counter <= MaxCounter
      && Distinct(children)
      && forall c :: c in children ==>
           c in sequenceOf && sequenceOf[c] < counter && EndsWithSuffix(c, sequenceOf[c])
    }

    constructor ()
      ensures Valid() && children == [] && counter == 0
    {
      children := [];
      counter := 0;
      sequenceOf := map[];
    }

    /** create(..., EPHEMERAL_SEQUENTIAL): adds a child named prefix + the next suffix; the name is new. */
    method CreateSequential(prefix: string) returns (name: string)
      requires Valid() && counter < MaxCounter
      modifies this
      ensures Valid()
      ensures name == prefix + Suffix(old(counter)) && name !in old(children)
      ensures children == old(children) + [name]
      ensures counter == old(counter) + 1
    {
      name := prefix + Suffix(counter);
      SuffixOfSequentialName(prefix, counter);
      if name in children {
        DistinctCounters(name, counter, name, sequenceOf[name]);
      }
      children := children + [name];
      sequenceOf := sequenceOf[name := counter];
      counter := counter + 1;
    }

    /** getChildren: the current child names. */
    function Children(): (r: seq<string>)
      reads this
      requires Valid()
      ensures Distinct(r)
    {
      children
    }

    /**
     * delete(path, -1): removes the named child and leaves the others in place.
     * found is false where the service answers NoNode.
     */
    method Delete(name: string) returns (found: bool)
      requires Valid()
      modifies this
      ensures Valid()
      ensures found == (name in old(children))
      ensures children == Without(old(children), name)
      ensures counter == old(counter)
    {
      found := name in children;
      WithoutDistinct(children, name);
      children := Without(children, name);
    }
  }

}
