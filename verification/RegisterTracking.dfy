/** The register part of the graph builder. */
module RegisterTracking {
  import opened RegisterDependence

  class RegisterTracker {
    var lastWritten: map<Register, nat>
    /** Edges in the order they were found; the graph keeps the first of parallel ones. */
    var edges: seq<RegEdge>
    ghost var events: seq<Event>

    ghost predicate Valid()
      reads this
    {
      lastWritten == Writers(events) && edges == RegisterEdges(events)
    }

    constructor ()
      ensures Valid() && events == []
    {
      lastWritten, edges, events := map[], [], [];
    }

    method RecordWrite(reg: Register, id: nat)
      requires Valid()
      modifies this
      ensures Valid() && events == old(events) + [Write(reg, id)]
    {
      assert (events + [Write(reg, id)])[..|events|] == events;
      lastWritten := lastWritten[reg := id];
      events := events + [Write(reg, id)];
    }

    /** A read waits for the last write of the register, if there is one. */
    method RecordRead(reg: Register, id: nat, tag: nat)
      requires Valid()
      modifies this
      ensures Valid() && events == old(events) + [Read(reg, id, tag)] && lastWritten == old(lastWritten)
    {
      assert (events + [Read(reg, id, tag)])[..|events|] == events;
      if reg in lastWritten {
        edges := edges + [RegEdge(lastWritten[reg], id, tag)];
      }
      events := events + [Read(reg, id, tag)];
    }
  }
}
