/**
 * The seed server's node registry as values: the entries of the node list,
 * the raw items producers put on the event queue, the events the loop
 * distinguishes, and the effect of one event on the list and the cursor.
 * The imperative `Server` class is proved against `Apply` and `Run`.
 */
module Registry {
  import opened Wrappers

  /** One entry of the node list, the 5-tuple `(ip, port, id, lat, long)`. */
  datatype Node = Node(ip: string, port: int, id: string, lat: Option<real>, long: Option<real>)

  /** `node[:3]`: what the server hands out about a node. */
  datatype Contact = Contact(ip: string, port: int, id: string)

  function ContactOf(n: Node): (r: Contact)
  {
    Contact(n.ip, n.port, n.id)
  }

  /**
   * A raw value taken off the event queue. Its producers put exactly these
   * shapes: the timer puts 0, a successful probe puts 1, a failed probe puts a
   * 6-tuple, and the `add_node`/`dead_node` handlers put 4-tuples.
   */
  datatype Item =
    | Zero
    | One
    | Tuple4(ip: string, port: int, id: string, flag: int)
    | Tuple6(ip: string, port: int, id: string, lat: Option<real>, long: Option<real>, flag: int)

  /** What one iteration of the event loop does with an item. */
  datatype Event =
    | Tick
    | Alive
    | Membership(ip: string, port: int, id: string, lat: Option<real>, long: Option<real>, present: bool)
    | Other

  /**
   * The loop's tests in order: a falsy item is a probe tick, the integer 1 is
   * an alive report, a tuple of length 6 is a membership change whose sixth
   * field is tested for truth, and anything else falls through.
   */
  function Classify(x: Item): (r: Event)
  {
    match x
    case Zero => Tick
    case One => Alive
    case Tuple6(ip, port, id, lat, long, flag) => Membership(ip, port, id, lat, long, flag != 0)
    case Tuple4(_, _, _, _) => Other
  }

  /**
   * What `poll_node` puts on the queue once the probe of `target` succeeds
   * (`alive`) or fails with a socket error or timeout. A probe that raises
   * anything else, such as an out-of-range port, puts nothing.
   */
  function ProbeItem(target: Node, alive: bool): (r: Item)
  {
    if alive then One else Tuple6(target.ip, target.port, target.id, None, None, 0)
  }

  predicate HasId(nodes: seq<Node>, id: string)
  {
    exists i :: 0 <= i < |nodes| && nodes[i].id == id
  }

  predicate UniqueIds(nodes: seq<Node>)
  {
    forall i, j :: 0 <= i < j < |nodes| ==> nodes[i].id != nodes[j].id
  }

  /** The cursor is a valid index, or 0 when the list is empty. */
  predicate CursorOk(nodes: seq<Node>, cursor: int)
  {
    if |nodes| == 0 then cursor == 0 else 0 <= cursor < |nodes|
  }

  /** Position of the first entry with `id`, or `|nodes|` when there is none. */
  function FirstIndexOf(nodes: seq<Node>, id: string): (k: nat)
    ensures k <= |nodes|
    ensures k < |nodes| <==> HasId(nodes, id)
    ensures k < |nodes| ==> nodes[k].id == id
    ensures forall j :: 0 <= j < k ==> nodes[j].id != id
  {
    if nodes == [] then 0
    else if nodes[0].id == id then 0
    else
      var k' := FirstIndexOf(nodes[1..], id);
      assert forall i :: 1 <= i < |nodes| ==> nodes[i] == nodes[1..][i - 1];
      1 + k'
  }

  /** The registration rule: append unless the id is already present. */
  function Register(nodes: seq<Node>, n: Node): (r: seq<Node>)
  {
    if HasId(nodes, n.id) then nodes else nodes + [n]
  }

  /** Reference definition of the removal: drop the first entry with `id`. */
  function RemoveFirst(nodes: seq<Node>, id: string): (r: seq<Node>)
  {
    if nodes == [] then []
    else if nodes[0].id == id then nodes[1..]
    else [nodes[0]] + RemoveFirst(nodes[1..], id)
  }

  /** `cursor += 1` followed by `%= len`, or 0 on an empty list. */
  function Advance(cursor: nat, len: nat): (r: nat)
  {
    if len > 0 then (cursor + 1) % len else 0
  }

  /** `cursor %= len`, or 0 on an empty list. */
  function Clamp(cursor: nat, len: nat): (r: nat)
  {
    if len > 0 then cursor % len else 0
  }

  /** The registry: `nodes` and `current_node_index`. */
  datatype State = State(nodes: seq<Node>, cursor: nat)

  const Init := State([], 0)

  ghost predicate Invariant(s: State)
  {
    UniqueIds(s.nodes) && CursorOk(s.nodes, s.cursor)
  }

  /** The effect of one loop iteration on the registry. */
  function Apply(s: State, e: Event): (r: State)
  {
    match e
    case Tick => s
    case Alive => State(s.nodes, Advance(s.cursor, |s.nodes|))
    case Membership(ip, port, id, lat, long, present) =>
      if present then State(Register(s.nodes, Node(ip, port, id, lat, long)), s.cursor)
      else
        var rest := RemoveFirst(s.nodes, id);
        State(rest, Clamp(s.cursor, |rest|))
    case Other => s
  }

  /** The registry after the loop has consumed `items` in order. */
  function Run(s: State, items: seq<Item>): (r: State)
    decreases |items|
  {
    if items == [] then s else Run(Apply(s, Classify(items[0])), items[1..])
  }

  /** The node a tick picks for probing, if any. */
  function ProbeTarget(s: State): (r: Option<Node>)
    requires CursorOk(s.nodes, s.cursor)
  {
    if s.nodes == [] then None else Some(s.nodes[s.cursor])
  }

  /** The node whose probe one event starts: only a tick on a non-empty list starts one. */
  function StepProbe(s: State, e: Event): (r: Option<Node>)
    requires CursorOk(s.nodes, s.cursor)
  {
    if e.Tick? then ProbeTarget(s) else None
  }

  function OptionToSeq(p: Option<Node>): (r: seq<Node>)
  {
    if p.Some? then [p.value] else []
  }

  /** The nodes for which the loop starts a probe while consuming `items`. */
  function Probes(s: State, items: seq<Item>): (r: seq<Node>)
    requires Invariant(s)
    decreases |items|
  {
    if items == [] then []
    else
      var e := Classify(items[0]);
      ApplyPreservesInvariant(s, e);
      OptionToSeq(StepProbe(s, e)) + Probes(Apply(s, e), items[1..])
  }

  /** Consuming a non-empty queue is one step followed by the rest. */
  lemma RunUnfold(s: State, items: seq<Item>)
    requires Invariant(s) && items != []
    ensures Invariant(Apply(s, Classify(items[0])))
    ensures Run(s, items) == Run(Apply(s, Classify(items[0])), items[1..])
    ensures Probes(s, items) ==
      OptionToSeq(StepProbe(s, Classify(items[0]))) + Probes(Apply(s, Classify(items[0])), items[1..])
  {
    ApplyPreservesInvariant(s, Classify(items[0]));
  }

  // ---------------------------------------------------------------------------
  // Removal

  /** The removal drops exactly the first entry with `id` and keeps the order of the rest. */
  lemma {:induction false} RemoveFirstSplices(nodes: seq<Node>, id: string)
    ensures FirstIndexOf(nodes, id) == |nodes| ==> RemoveFirst(nodes, id) == nodes
    ensures FirstIndexOf(nodes, id) < |nodes| ==>
      var k := FirstIndexOf(nodes, id);
      RemoveFirst(nodes, id) == nodes[..k] + nodes[k + 1..]
  {
    if nodes != [] && nodes[0].id != id {
      var tail := nodes[1..];
      RemoveFirstSplices(tail, id);
      var k' := FirstIndexOf(tail, id);
      assert FirstIndexOf(nodes, id) == k' + 1;
      if k' < |tail| {
        assert nodes[..k' + 1] == [nodes[0]] + tail[..k'];
        assert nodes[k' + 2..] == tail[k' + 1..];
      } else {
        assert nodes == [nodes[0]] + tail;
      }
    }
  }

  /** Entries of `nodes` with the one at `k` taken out, by position. */
  lemma SpliceAt(nodes: seq<Node>, k: nat, r: seq<Node>)
    requires k < |nodes| && r == nodes[..k] + nodes[k + 1..]
    ensures |r| == |nodes| - 1
    ensures forall i :: 0 <= i < |r| ==> r[i] == nodes[if i < k then i else i + 1]
  {
  }

  /** Removal keeps the ids distinct, leaves no entry with `id`, and keeps every other id. */
  lemma RemoveFirstKeepsUnique(nodes: seq<Node>, id: string)
    requires UniqueIds(nodes)
    ensures UniqueIds(RemoveFirst(nodes, id))
    ensures !HasId(RemoveFirst(nodes, id), id)
    ensures forall x :: x != id ==> (HasId(RemoveFirst(nodes, id), x) <==> HasId(nodes, x))
  {
    RemoveFirstSplices(nodes, id);
    var k := FirstIndexOf(nodes, id);
    if k < |nodes| {
      var r := RemoveFirst(nodes, id);
      SpliceAt(nodes, k, r);
      forall x | x != id && HasId(nodes, x)
        ensures HasId(r, x)
      {
        var m :| 0 <= m < |nodes| && nodes[m].id == x;
        var i := if m < k then m else m - 1;
        assert r[i] == nodes[m];
      }
    }
  }

  // ---------------------------------------------------------------------------
  // Registration

  /** Registering under an id that is present changes nothing; otherwise the node is appended. */
  lemma RegisterEffect(nodes: seq<Node>, n: Node)
    ensures HasId(nodes, n.id) ==> Register(nodes, n) == nodes
    ensures !HasId(nodes, n.id) ==> Register(nodes, n) == nodes + [n]
    ensures HasId(Register(nodes, n), n.id)
    ensures forall x :: x != n.id ==> (HasId(Register(nodes, n), x) <==> HasId(nodes, x))
    ensures UniqueIds(nodes) ==> UniqueIds(Register(nodes, n))
  {
    var r := Register(nodes, n);
    if !HasId(nodes, n.id) {
      assert r[|nodes|] == n;
      assert forall i :: 0 <= i < |nodes| ==> r[i] == nodes[i];
    }
  }

  /** Registration is idempotent, for any address and location under the same id. */
  lemma RegisterIdempotent(nodes: seq<Node>, n: Node, n': Node)
    requires n'.id == n.id
    ensures Register(Register(nodes, n), n') == Register(nodes, n)
  {
    RegisterEffect(nodes, n);
  }

  // ---------------------------------------------------------------------------
  // The invariant

  /** The registry starts consistent. */
  lemma InitInvariant()
    ensures Invariant(Init)
  {
  }

  /** Every event keeps the ids distinct and the cursor in range. */
  lemma ApplyPreservesInvariant(s: State, e: Event)
    requires Invariant(s)
    ensures Invariant(Apply(s, e))
  {
    match e
    case Membership(ip, port, id, lat, long, present) =>
      if present {
        RegisterEffect(s.nodes, Node(ip, port, id, lat, long));
      } else {
        RemoveFirstKeepsUnique(s.nodes, id);
      }
    case _ =>
  }

  /** Any sequence of queue items keeps the invariant. */
  lemma {:induction false} RunPreservesInvariant(s: State, items: seq<Item>)
    requires Invariant(s)
    ensures Invariant(Run(s, items))
    decreases |items|
  {
    if items != [] {
      ApplyPreservesInvariant(s, Classify(items[0]));
      RunPreservesInvariant(Apply(s, Classify(items[0])), items[1..]);
    }
  }

  /** From the empty registry, every sequence of events leaves distinct ids and a valid cursor. */
  lemma RunFromInitKeepsInvariant(items: seq<Item>)
    ensures UniqueIds(Run(Init, items).nodes)
    ensures CursorOk(Run(Init, items).nodes, Run(Init, items).cursor)
  {
    InitInvariant();
    RunPreservesInvariant(Init, items);
  }

  // ---------------------------------------------------------------------------
  // Probing

  /**
   * A failed probe of a node becomes a removal of its id, after which no entry
   * with that id remains and every other id is kept; a successful probe only
   * advances the cursor.
   */
  lemma ProbeOutcomeEffect(s: State, target: Node)
    requires Invariant(s)
    ensures Classify(ProbeItem(target, false)) == Membership(target.ip, target.port, target.id, None, None, false)
    ensures !HasId(Apply(s, Classify(ProbeItem(target, false))).nodes, target.id)
    ensures forall x :: x != target.id ==>
      (HasId(Apply(s, Classify(ProbeItem(target, false))).nodes, x) <==> HasId(s.nodes, x))
    ensures Apply(s, Classify(ProbeItem(target, true))) == State(s.nodes, Advance(s.cursor, |s.nodes|))
  {
    RemoveFirstKeepsUnique(s.nodes, target.id);
  }

  /** True when `x` is a registration request for `id`. */
  predicate AddsId(x: Item, id: string)
  {
    x.Tuple6? && x.flag != 0 && x.id == id
  }

  /**
   * Once an id is gone it stays gone until a registration for that id is
   * processed, whatever else arrives in between.
   */
  lemma {:induction false} AbsentStaysAbsent(s: State, items: seq<Item>, id: string)
    requires !HasId(s.nodes, id)
    requires forall i :: 0 <= i < |items| ==> !AddsId(items[i], id)
    ensures !HasId(Run(s, items).nodes, id)
    decreases |items|
  {
    if items != [] {
      var s' := Apply(s, Classify(items[0]));
      match Classify(items[0]) {
        case Membership(ip, port, x, lat, long, present) =>
          if present {
            RegisterEffect(s.nodes, Node(ip, port, x, lat, long));
          } else {
            RemoveFirstSplices(s.nodes, x);
            if FirstIndexOf(s.nodes, x) < |s.nodes| {
              var k := FirstIndexOf(s.nodes, x);
              assert forall i :: 0 <= i < |s'.nodes| ==>
                s'.nodes[i] == (if i < k then s.nodes[i] else s.nodes[i + 1]);
            }
          }
        case _ =>
      }
      assert !HasId(s'.nodes, id);
      AbsentStaysAbsent(s', items[1..], id);
    }
  }
}
