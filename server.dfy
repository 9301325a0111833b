/**
 * The seed server's event loop: the node list and cursor it owns, one method
 * per kind of event, the dispatch of one queue item, draining the queue, and
 * the nearest-node search over the list.
 */
module SeedServer {
  import opened Wrappers
  import opened Registry

  /** The shared event queue, reduced to the items it holds in order. */
  class EventQueue {
    var items: seq<Item>

    constructor ()
      ensures items == []
    {
      items := [];
    }

    method Put(x: Item)
      modifies this
      ensures items == old(items) + [x]
    {
      items := items + [x];
    }

    /** Takes the oldest item; the source blocks while the queue is empty. */
    method Get() returns (x: Item)
      requires items != []
      modifies this
      ensures x == old(items)[0] && items == old(items)[1..]
    {
      x := items[0];
      items := items[1..];
    }
  }

  /** A (lat, long) pair, as passed in a query and stored in `node[3:]`. */
  datatype Position = Position(lat: Option<real>, long: Option<real>)

  function PositionOf(n: Node): (r: Position)
  {
    Position(n.lat, n.long)
  }

  /** A node the nearest-node search may return: its id is not the excluded one. */
  predicate Candidate(n: Node, exclude: Option<string>)
  {
    exclude != Some(n.id)
  }

  /**
   * `nodes[k]` is a candidate at least as near to `coordinates` as every
   * other candidate, and strictly nearer than every candidate before it.
   */
  ghost predicate IsClosest(nodes: seq<Node>, k: int, coordinates: Position, exclude: Option<string>,
                            haversine: (Position, Position) -> real)
  {
    && 0 <= k < |nodes|
    && Candidate(nodes[k], exclude)
    && (forall j :: 0 <= j < |nodes| && Candidate(nodes[j], exclude) ==>
          haversine(coordinates, PositionOf(nodes[k])) <= haversine(coordinates, PositionOf(nodes[j])))
    && (forall j :: 0 <= j < k && Candidate(nodes[j], exclude) ==>
          haversine(coordinates, PositionOf(nodes[k])) < haversine(coordinates, PositionOf(nodes[j])))
  }

  /** At most one index is the closest: ties go to the earliest candidate. */
  lemma ClosestIsUnique(nodes: seq<Node>, k1: int, k2: int, coordinates: Position, exclude: Option<string>,
                        haversine: (Position, Position) -> real)
    requires IsClosest(nodes, k1, coordinates, exclude, haversine)
    requires IsClosest(nodes, k2, coordinates, exclude, haversine)
    ensures k1 == k2
  {
  }

  class Server {
    /** The alive nodes, in registration order. */
    var nodes: seq<Node>
    /** The round-robin index of the next node to probe. */
    var cursor: nat

    function Snapshot(): (r: State)
      reads this
    {
      State(nodes, cursor)
    }

    ghost predicate Valid()
      reads this
    {
      Invariant(Snapshot())
    }

    constructor ()
      ensures nodes == [] && cursor == 0
      ensures Valid()
    {
      nodes := [];
      cursor := 0;
    }

    /** A probe tick: picks the node under the cursor for probing, changing nothing. */
    method OnTick() returns (target: Option<Node>)
      requires CursorOk(nodes, cursor)
      ensures nodes == [] ==> target == None
      ensures nodes != [] ==> target == Some(nodes[cursor])
    {
      if |nodes| == 0 {
        return None;
      }
      target := Some(nodes[cursor]);
    }

    /** An alive report: moves the cursor to the next node, wrapping around. */
    method OnAlive()
      requires Valid()
      modifies this
      ensures Valid()
      ensures nodes == old(nodes)
      ensures cursor == Advance(old(cursor), |nodes|)
    {
      cursor := cursor + 1;
      if |nodes| > 0 {
        cursor := cursor % |nodes|;
      } else {
        cursor := 0;
      }
    }

    /** A registration: appends `n` unless an entry with its id exists. */
    method OnAdd(n: Node)
      requires Valid()
      modifies this
      ensures Valid()
      ensures cursor == old(cursor)
      ensures HasId(old(nodes), n.id) ==> nodes == old(nodes)
      ensures !HasId(old(nodes), n.id) ==> nodes == old(nodes) + [n]
    {
      RegisterEffect(nodes, n);
      var i := 0;
      while i < |nodes| && nodes[i].id != n.id
        invariant 0 <= i <= |nodes|
        invariant forall j :: 0 <= j < i ==> nodes[j].id != n.id
      {
        i := i + 1;
      }
      if i == |nodes| {
        nodes := nodes + [n];
      }
    }

    /** A removal: pops the first entry with `id`, then brings the cursor back in range. */
    method OnRemove(id: string)
      requires Valid()
      modifies this
      ensures Valid()
      ensures nodes == RemoveFirst(old(nodes), id)
      ensures cursor == Clamp(old(cursor), |nodes|)
    {
      RemoveFirstKeepsUnique(nodes, id);
      var i := 0;
      while i < |nodes| && nodes[i].id != id
        invariant 0 <= i <= |nodes|
        invariant forall j :: 0 <= j < i ==> nodes[j].id != id
      {
        i := i + 1;
      }
      assert i == FirstIndexOf(nodes, id);
      RemoveFirstSplices(nodes, id);
      if i < |nodes| {
        nodes := nodes[..i] + nodes[i + 1..];
      }
      if |nodes| > 0 {
        cursor := cursor % |nodes|;
      } else {
        cursor := 0;
      }
    }

    /**
     * One iteration of the event loop. Returns the node whose probe it starts,
     * if any.
     */
    method Step(e: Event) returns (probe: Option<Node>)
      requires Valid()
      modifies this
      ensures Valid()
      ensures Snapshot() == Apply(old(Snapshot()), e)
      ensures probe == StepProbe(old(Snapshot()), e)
    {
      ApplyPreservesInvariant(Snapshot(), e);
      probe := None;
      match e
      case Tick =>
        probe := OnTick();
      case Alive =>
        OnAlive();
      case Membership(ip, port, id, lat, long, present) =>
        if present {
          OnAdd(Node(ip, port, id, lat, long));
        } else {
          OnRemove(id);
        }
      case Other =>
    }

    /**
     * The loop consuming every item on the queue in order. Returns the nodes
     * it started probes for.
     */
    method Drain(queue: EventQueue) returns (probes: seq<Node>)
      requires Valid()
      modifies this, queue
      ensures Valid()
      ensures Snapshot() == Run(old(Snapshot()), old(queue.items))
      ensures probes == Probes(old(Snapshot()), old(queue.items))
      ensures queue.items == []
    {
      probes := [];
      while queue.items != []
        invariant Valid()
        invariant Run(Snapshot(), queue.items) == Run(old(Snapshot()), old(queue.items))
        invariant probes + Probes(Snapshot(), queue.items) == Probes(old(Snapshot()), old(queue.items))
        decreases |queue.items|
      {
        RunUnfold(Snapshot(), queue.items);
        var x := queue.Get();
        var probe := Step(Classify(x));
        probes := probes + OptionToSeq(probe);
      }
    }

    /**
     * The nearest node to `coordinates` whose id is not `exclude`, as its
     * first three fields; `None` when every node is excluded.
     */
    method GetClosestHaversine(coordinates: Position, exclude: Option<string>,
                               haversine: (Position, Position) -> real)
      returns (closest: Option<Contact>)
      ensures closest.None? <==> forall j :: 0 <= j < |nodes| ==> !Candidate(nodes[j], exclude)
      ensures closest.Some? ==>
        exists k :: IsClosest(nodes, k, coordinates, exclude, haversine) && closest.value == ContactOf(nodes[k])
    {
      var minNode: Option<Node> := None;
      var minDist: real := 0.0;
      ghost var k := 0;
      for i := 0 to |nodes|
        invariant minNode.None? <==> forall j :: 0 <= j < i ==> !Candidate(nodes[j], exclude)
        invariant minNode.Some? ==> 0 <= k < i && minNode == Some(nodes[k]) && Candidate(nodes[k], exclude)
        invariant minNode.Some? ==> minDist == haversine(coordinates, PositionOf(nodes[k]))
        invariant minNode.Some? ==> forall j :: 0 <= j < i && Candidate(nodes[j], exclude) ==>
          minDist <= haversine(coordinates, PositionOf(nodes[j]))
        invariant minNode.Some? ==> forall j :: 0 <= j < k && Candidate(nodes[j], exclude) ==>
          minDist < haversine(coordinates, PositionOf(nodes[j]))
      {
        if !Candidate(nodes[i], exclude) {
          continue;
        }
        var dist := haversine(coordinates, PositionOf(nodes[i]));
        // `min_dist` starts at infinity, so the first candidate is always taken.
        if minNode.None? || dist < minDist {
          minDist := dist;
          minNode := Some(nodes[i]);
          k := i;
        }
      }
      if minNode.None? {
        return None;
      }
      assert IsClosest(nodes, k, coordinates, exclude, haversine);
      closest := Some(ContactOf(minNode.value));
    }
  }
}
