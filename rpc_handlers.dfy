/**
 * The request handlers: `get_seed` as a pure read of the node list, and
 * `add_node`/`dead_node`, which only put one item on the event queue. The
 * closed `Op` type stands for the `REQUEST_MAP` dispatch table.
 */
module RpcHandlers {
  import opened Wrappers
  import opened Registry
  import opened SeedServer

  const STATUS_OK := 200
  const STATUS_NOT_FOUND := 404
  const STATUS_CONFLICT := 409

  /** The three entries of `REQUEST_MAP`; there is no handler for `poll`. */
  datatype Op = GetSeedOp | AddNodeOp | DeadNodeOp

  /**
   * The body fields every handler reads, `(ip, port, node_id)`, are a
   * `Contact`; so is the body of a seed response.
   */
  datatype Body = Empty | SeedBody(seed: Contact)

  /** A response envelope: the header's status and optional type, and the body. */
  datatype Response = Response(status: int, kind: Option<string>, body: Body)

  /** Some entry has exactly the caller's `(ip, port, id)`. */
  predicate HasEntry(nodes: seq<Node>, req: Contact)
  {
    exists i :: 0 <= i < |nodes| && ContactOf(nodes[i]) == req
  }

  /**
   * The conflict rule, comparing the caller's `(ip, port, node_id)` with the
   * first three fields of each entry. The source compares the 3-tuple with
   * the whole 5-tuple entries instead; see `ConflictAsWritten`.
   */
  predicate Conflict(nodes: seq<Node>, req: Contact)
  {
    HasId(nodes, req.id) && !HasEntry(nodes, req)
  }

  /**
   * The seed choice. `pick` is the random index drawn by `randint(0, len - 1)`
   * or by `choice`: a registered caller who drew its own entry gets the next
   * one, a registered caller alone in the list gets nothing, and an
   * unregistered caller gets the drawn entry.
   */
  function SeedChoice(nodes: seq<Node>, id: string, pick: nat): (r: Option<Node>)
    requires |nodes| > 0 ==> pick < |nodes|
  {
    if HasId(nodes, id) then
      if |nodes| > 1 then
        if nodes[pick].id == id then Some(nodes[(pick + 1) % |nodes|]) else Some(nodes[pick])
      else None
    else if |nodes| == 0 then None
    else Some(nodes[pick])
  }

  /** The response once the conflict test has been evaluated to `conflict`. */
  function Respond(nodes: seq<Node>, req: Contact, conflict: bool, pick: nat): (r: Response)
    requires |nodes| > 0 ==> pick < |nodes|
  {
    if conflict then Response(STATUS_CONFLICT, None, Empty)
    else
      match SeedChoice(nodes, req.id, pick)
      case None => Response(STATUS_NOT_FOUND, Some("seed_node"), Empty)
      case Some(n) => Response(STATUS_OK, Some("seed_node"), SeedBody(ContactOf(n)))
  }

  /** `get_seed` against a snapshot of the node list. */
  function GetSeed(nodes: seq<Node>, req: Contact, pick: nat): (r: Response)
    requires |nodes| > 0 ==> pick < |nodes|
    ensures Conflict(nodes, req) ==> r == Response(STATUS_CONFLICT, None, Empty)
    ensures !Conflict(nodes, req) ==> r.kind == Some("seed_node")
    ensures !Conflict(nodes, req) ==>
      (r.status == STATUS_NOT_FOUND <==> |nodes| == 0 || (HasId(nodes, req.id) && |nodes| == 1))
    ensures r.status == STATUS_NOT_FOUND || r.status == STATUS_CONFLICT ==> r.body == Empty
    ensures r.status == STATUS_OK ==> exists k :: 0 <= k < |nodes| && r.body == SeedBody(ContactOf(nodes[k]))
    ensures !Conflict(nodes, req) && !HasId(nodes, req.id) && |nodes| > 0 ==>
      r == Response(STATUS_OK, Some("seed_node"), SeedBody(ContactOf(nodes[pick])))
    ensures !Conflict(nodes, req) && HasId(nodes, req.id) && |nodes| > 1 ==>
      r == Response(STATUS_OK, Some("seed_node"),
                    SeedBody(ContactOf(if nodes[pick].id == req.id then nodes[(pick + 1) % |nodes|] else nodes[pick])))
  {
    Respond(nodes, req, Conflict(nodes, req), pick)
  }

  /** From an empty list the answer is "not found". */
  lemma EmptyListNotFound(req: Contact, pick: nat)
    ensures GetSeed([], req, pick) == Response(STATUS_NOT_FOUND, Some("seed_node"), Empty)
  {
  }

  /**
   * With distinct ids, a seed handed out is an entry of the list whose id is
   * not the caller's.
   */
  lemma SeedIsAnotherNode(nodes: seq<Node>, req: Contact, pick: nat)
    requires |nodes| > 0 ==> pick < |nodes|
    requires UniqueIds(nodes)
    ensures GetSeed(nodes, req, pick).status == STATUS_OK ==>
      exists k :: 0 <= k < |nodes| && nodes[k].id != req.id &&
                  GetSeed(nodes, req, pick).body == SeedBody(ContactOf(nodes[k]))
  {
    var r := GetSeed(nodes, req, pick);
    if r.status == STATUS_OK {
      if HasId(nodes, req.id) {
        var n := |nodes|;
        if nodes[pick].id == req.id {
          var next := (pick + 1) % n;
          assert next != pick by {
            if pick + 1 < n {
              assert next == pick + 1;
            } else {
              assert next == 0;
            }
          }
          if next < pick {
            assert nodes[next].id != nodes[pick].id;
          } else {
            assert nodes[pick].id != nodes[next].id;
          }
          assert r.body == SeedBody(ContactOf(nodes[next]));
        } else {
          assert r.body == SeedBody(ContactOf(nodes[pick]));
        }
      } else {
        assert r.body == SeedBody(ContactOf(nodes[pick]));
      }
    }
  }

  /**
   * With distinct ids, the conflict rule holds exactly when the caller's id
   * is registered under another address.
   */
  lemma ConflictMeansOtherAddress(nodes: seq<Node>, req: Contact)
    requires UniqueIds(nodes)
    ensures Conflict(nodes, req) <==>
      exists i :: 0 <= i < |nodes| && nodes[i].id == req.id &&
                  (nodes[i].ip != req.ip || nodes[i].port != req.port)
  {
    if Conflict(nodes, req) {
      var i :| 0 <= i < |nodes| && nodes[i].id == req.id;
      assert ContactOf(nodes[i]) != req;
    }
    if exists i :: 0 <= i < |nodes| && nodes[i].id == req.id &&
                   (nodes[i].ip != req.ip || nodes[i].port != req.port) {
      var i :| 0 <= i < |nodes| && nodes[i].id == req.id &&
               (nodes[i].ip != req.ip || nodes[i].port != req.port);
      forall j | 0 <= j < |nodes| && nodes[j].id == req.id
        ensures j == i
      {
      }
    }
  }

  // ---------------------------------------------------------------------------
  // The conflict test as the source writes it

  /** A Python value inside a tuple, as far as tuple equality needs it. */
  datatype Field = Str(s: string) | Int(i: int) | Real(r: real) | Null

  function OptField(x: Option<real>): (r: Field)
  {
    if x.Some? then Real(x.value) else Null
  }

  /** An entry of the node list as the 5-tuple the event loop stores. */
  function EntryTuple(n: Node): (r: seq<Field>)
  {
    [Str(n.ip), Int(n.port), Str(n.id), OptField(n.lat), OptField(n.long)]
  }

  /** The caller's `(ip, port, node_id)`. */
  function DetailsTuple(req: Contact): (r: seq<Field>)
  {
    [Str(req.ip), Int(req.port), Str(req.id)]
  }

  /** `node_details not in server.nodes and node_id_exists`, taken literally. */
  predicate ConflictAsWritten(nodes: seq<Node>, req: Contact)
  {
    !(exists i :: 0 <= i < |nodes| && EntryTuple(nodes[i]) == DetailsTuple(req)) && HasId(nodes, req.id)
  }

  function GetSeedAsWritten(nodes: seq<Node>, req: Contact, pick: nat): (r: Response)
    requires |nodes| > 0 ==> pick < |nodes|
  {
    Respond(nodes, req, ConflictAsWritten(nodes, req), pick)
  }

  /**
   * Taken literally, the membership test never holds (a 3-tuple never equals
   * a 5-tuple), so every caller whose id is registered gets a conflict, even
   * at its own address.
   */
  lemma AsWrittenConflictsOnEveryRegisteredId(nodes: seq<Node>, req: Contact, pick: nat)
    requires |nodes| > 0 ==> pick < |nodes|
    requires HasId(nodes, req.id)
    ensures GetSeedAsWritten(nodes, req, pick) == Response(STATUS_CONFLICT, None, Empty)
  {
    forall i | 0 <= i < |nodes|
      ensures EntryTuple(nodes[i]) != DetailsTuple(req)
    {
      assert |EntryTuple(nodes[i])| != |DetailsTuple(req)|;
    }
  }

  /** A node registered at 10.0.0.1:5000 asking for a seed from that very address. */
  lemma AsWrittenRejectsRegisteredCaller()
    ensures var nodes := [Node("10.0.0.1", 5000, "a", None, None)];
            var req := Contact("10.0.0.1", 5000, "a");
            GetSeedAsWritten(nodes, req, 0).status == STATUS_CONFLICT &&
            GetSeed(nodes, req, 0) == Response(STATUS_NOT_FOUND, Some("seed_node"), Empty)
  {
    var nodes := [Node("10.0.0.1", 5000, "a", None, None)];
    var req := Contact("10.0.0.1", 5000, "a");
    assert nodes[0].id == req.id;
    AsWrittenConflictsOnEveryRegisteredId(nodes, req, 0);
    assert ContactOf(nodes[0]) == req;
  }

  // ---------------------------------------------------------------------------
  // The membership handlers

  /** The item `add_node` means to put: a 6-tuple without location and flag 1. */
  function AddNodeItem(req: Contact): (r: Item)
  {
    Tuple6(req.ip, req.port, req.id, None, None, 1)
  }

  /** The item `dead_node` means to put: a 6-tuple without location and flag 0. */
  function DeadNodeItem(req: Contact): (r: Item)
  {
    Tuple6(req.ip, req.port, req.id, None, None, 0)
  }

  /** The item `add_node` puts as written: a 4-tuple. */
  function AddNodeItemAsWritten(req: Contact): (r: Item)
  {
    Tuple4(req.ip, req.port, req.id, 1)
  }

  /** The item `dead_node` puts as written: a 4-tuple. */
  function DeadNodeItemAsWritten(req: Contact): (r: Item)
  {
    Tuple4(req.ip, req.port, req.id, 0)
  }

  /** The event loop ignores the 4-tuples the handlers put as written. */
  lemma AsWrittenItemsIgnored(s: State, req: Contact)
    ensures Apply(s, Classify(AddNodeItemAsWritten(req))) == s
    ensures Apply(s, Classify(DeadNodeItemAsWritten(req))) == s
  {
  }

  /** As written, `add_node` never gets a node into the empty registry. */
  lemma AsWrittenNeverRegisters(req: Contact)
    ensures Run(Init, [AddNodeItemAsWritten(req)]).nodes == []
    ensures Run(Init, [AddNodeItem(req)]).nodes == [Node(req.ip, req.port, req.id, None, None)]
  {
    assert Run(Init, [AddNodeItemAsWritten(req)]) == Run(Init, []);
    var s := Apply(Init, Classify(AddNodeItem(req)));
    assert !HasId([], req.id);
    assert Run(Init, [AddNodeItem(req)]) == Run(s, []);
  }

  /**
   * Processing the item of `add_node` registers the caller's id, and that of
   * `dead_node` leaves no entry with it; either keeps the invariant.
   */
  lemma MembershipItemsEffect(s: State, req: Contact)
    requires Invariant(s)
    ensures HasId(Apply(s, Classify(AddNodeItem(req))).nodes, req.id)
    ensures !HasId(Apply(s, Classify(DeadNodeItem(req))).nodes, req.id)
    ensures Invariant(Apply(s, Classify(AddNodeItem(req))))
    ensures Invariant(Apply(s, Classify(DeadNodeItem(req))))
  {
    RegisterEffect(s.nodes, Node(req.ip, req.port, req.id, None, None));
    RemoveFirstKeepsUnique(s.nodes, req.id);
    ApplyPreservesInvariant(s, Classify(AddNodeItem(req)));
    ApplyPreservesInvariant(s, Classify(DeadNodeItem(req)));
  }

  /** Registering the same id twice leaves the same registry as registering it once. */
  lemma AddNodeTwiceIsOnce(s: State, req: Contact, req': Contact)
    requires req'.id == req.id
    ensures var once := Apply(s, Classify(AddNodeItem(req)));
            Apply(once, Classify(AddNodeItem(req'))) == once
  {
    RegisterIdempotent(s.nodes, Node(req.ip, req.port, req.id, None, None),
                       Node(req'.ip, req'.port, req'.id, None, None));
  }

  /**
   * A node that registers and then deregisters leaves the empty registry
   * behind, and a later tick starts no probe.
   */
  lemma AddThenDeadLeavesEmpty(req: Contact)
    ensures Run(Init, [AddNodeItem(req), DeadNodeItem(req)]) == Init
    ensures Probes(Init, [AddNodeItem(req), DeadNodeItem(req), Zero]) == []
  {
    var added := Apply(Init, Classify(AddNodeItem(req)));
    assert !HasId([], req.id);
    assert added.nodes == [Node(req.ip, req.port, req.id, None, None)];
    var removed := Apply(added, Classify(DeadNodeItem(req)));
    assert removed == Init;
    assert [AddNodeItem(req), DeadNodeItem(req)][1..] == [DeadNodeItem(req)];
    assert Run(Init, [AddNodeItem(req), DeadNodeItem(req)]) == Run(added, [DeadNodeItem(req)]);
    RunUnfold(Init, [AddNodeItem(req), DeadNodeItem(req), Zero]);
    RunUnfold(added, [DeadNodeItem(req), Zero]);
    RunUnfold(removed, [Zero]);
  }

  /**
   * Once a node is registered at one address, a `get_seed` under its id from
   * another address is a conflict.
   */
  lemma OtherAddressConflicts(req: Contact, other: Contact)
    requires other.id == req.id && (other.ip != req.ip || other.port != req.port)
    ensures var s := Run(Init, [AddNodeItem(req)]);
            GetSeed(s.nodes, other, 0) == Response(STATUS_CONFLICT, None, Empty)
  {
    var s := Apply(Init, Classify(AddNodeItem(req)));
    assert !HasId([], req.id);
    assert Run(Init, [AddNodeItem(req)]) == Run(s, []);
    assert s.nodes == [Node(req.ip, req.port, req.id, None, None)];
    ConflictMeansOtherAddress(s.nodes, other);
    assert s.nodes[0].id == other.id;
  }

  method AddNode(queue: EventQueue, req: Contact) returns (resp: Response)
    modifies queue
    ensures queue.items == old(queue.items) + [AddNodeItem(req)]
    ensures resp == Response(STATUS_OK, Some("add"), Empty)
  {
    queue.Put(AddNodeItem(req));
    resp := Response(STATUS_OK, Some("add"), Empty);
  }

  method DeadNode(queue: EventQueue, req: Contact) returns (resp: Response)
    modifies queue
    ensures queue.items == old(queue.items) + [DeadNodeItem(req)]
    ensures resp == Response(STATUS_OK, None, Empty)
  {
    queue.Put(DeadNodeItem(req));
    resp := Response(STATUS_OK, None, Empty);
  }

  /**
   * The dispatch of one request to its handler. `get_seed` reads the
   * server's node list and leaves the queue alone; the other two only append
   * to the queue. Nothing here writes the server.
   */
  method Handle(op: Op, req: Contact, server: Server, queue: EventQueue, pick: nat) returns (resp: Response)
    requires |server.nodes| > 0 ==> pick < |server.nodes|
    modifies queue
    ensures op == GetSeedOp ==> resp == GetSeed(server.nodes, req, pick) && queue.items == old(queue.items)
    ensures op == AddNodeOp ==>
      resp == Response(STATUS_OK, Some("add"), Empty) && queue.items == old(queue.items) + [AddNodeItem(req)]
    ensures op == DeadNodeOp ==>
      resp == Response(STATUS_OK, None, Empty) && queue.items == old(queue.items) + [DeadNodeItem(req)]
  {
    match op
    case GetSeedOp =>
      resp := GetSeed(server.nodes, req, pick);
    case AddNodeOp =>
      resp := AddNode(queue, req);
    case DeadNodeOp =>
      resp := DeadNode(queue, req);
  }
}
