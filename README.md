# Seed server registry and request handlers, modelled in Dafny

A seed server for a peer-to-peer overlay keeps a list of live peers. Each
entry is a 5-tuple `(ip, port, id, lat, long)`. It also keeps a round-robin
cursor into that list. A single event loop owns both. That loop takes one
item at a time off a shared queue:

- `0` is a probe tick: start probing the node under the cursor.
- `1` is a successful probe: advance the cursor.
- A 6-tuple `(ip, port, id, lat, long, flag)` adds the node (flag truthy) or
  removes the first entry with that id (flag falsy) and brings the cursor
  back into range.
- Anything else is ignored.

The request handlers answer `get_seed` from the node list. `add_node` and
`dead_node` only put an item on the queue and answer OK.

The project has four modules:

- `Wrappers` (`wrappers.dfy`): `Option`, which stands for Python's `None`.
- `Registry` (`registry.dfy`): the model as values.
  - `Node` is one list entry. `Item` is the raw queue item, in each shape a
    producer puts on the queue. `Event` is what the loop makes of an item.
  - `Classify` makes an `Event` out of an `Item`, using the loop's type
    tests. `Apply` gives the effect of one event. `Run` gives the effect of a
    whole queue. `Probes` lists the nodes whose probes get started.
  - Lemmas prove the registry invariant and the properties of removal,
    registration and probing.
- `SeedServer` (`server.dfy`): the imperative part.
  - The `Server` class has the fields `nodes: seq<Node>` and `cursor: nat`.
    It has one method per event kind. `OnTick` and `OnAlive` state the
    cursor or target they compute outright. `OnAdd` and `OnRemove` carry the
    source's search loops; `OnRemove` is proved against the reference
    removal `RemoveFirst`.
  - `Step` dispatches one event and `Drain` is the loop that consumes the
    queue. These two are proved against `Apply` and `Run`.
  - `EventQueue` is the shared queue, a `seq<Item>`, specified by sequence
    operations.
  - `GetClosestHaversine` is the linear nearest-node search, proved against
    the predicate `IsClosest`. The distance function is a parameter.
- `RpcHandlers` (`rpc_handlers.dfy`): `GetSeed` as a function of a snapshot
  of the list. `AddNode`, `DeadNode` and the `Handle` dispatch are methods
  that append to the queue. It also has the as-written variants used under
  "## Findings".

Where the code departs from the system's stated design, the model follows the
code:

- `get_seed` never looks at coordinates. It always picks a random entry.
- `get_closest_haversine` is modelled, but no handler calls it.
- The dispatch table has no `poll` entry. A probed peer answers `poll` from
  its own code, not from this server's.
- A registered caller who draws its own entry gets the next entry in list
  order. This is `(pick + 1) % len`, not a step of the probing cursor.
- The removal brings the cursor back into range with `cursor % len`. This
  differs from clamping to the last index only when the cursor sat on the
  last entry: there it wraps to 0.

Two places where the code does not do what it evidently means are handled as
findings. The rest of the model uses the corrected behaviour:

- The conflict test compares the caller's `(ip, port, node_id)` with the
  first three fields of each entry, as the docstring at
  `rpc_handlers.py:17` says.
- `add_node`/`dead_node` put the 6-tuple
  `(ip, port, node_id, None, None, flag)`, which the loop acts on.
  `AddNodeItem`/`DeadNodeItem` give this item. The 4-tuples the handlers put
  as written are `AddNodeItemAsWritten`/`DeadNodeItemAsWritten`, and the
  loop ignores them.

## Model

| member | source | states |
|---|---|---|
| `Registry.FirstIndexOf` | server.py:152-155 | The position of the first entry with the id. It is below the length exactly when the id is present, and no earlier entry has that id. |
| `Registry.RemoveFirstSplices` | server.py:151-155 | Removing an id nobody has leaves the list unchanged. Otherwise exactly the first entry with that id is taken out, and the rest keep their order. |
| `Registry.RemoveFirstKeepsUnique` | server.py:151-155 | On a list with distinct ids, removal keeps the ids distinct and leaves no entry with the removed id. Every other id is present afterwards exactly when it was before. |
| `Registry.RegisterEffect` | server.py:141-147 | Adding an id that is already present changes nothing. Otherwise the node is appended at the end with earlier entries untouched. Either way the id is present afterwards, every other id's presence is unchanged, and distinct ids stay distinct. |
| `Registry.RegisterIdempotent` | server.py:141-147 | Registering a second time under the same id, from any address or location, changes nothing. |
| `Registry.InitInvariant` | server.py:27-28 | The initial empty list with cursor 0 satisfies the invariant: distinct ids, and the cursor is a valid index or 0 on an empty list. |
| `Registry.ApplyPreservesInvariant` | server.py:113-162 | Every kind of event keeps the ids distinct and the cursor in range. |
| `Registry.RunPreservesInvariant` | server.py:107-162 | Consuming any sequence of queue items keeps the invariant. |
| `Registry.RunFromInitKeepsInvariant` | server.py:27-28 | From the empty registry, any sequence of queue items leaves pairwise distinct ids and a cursor that is 0 on an empty list and a valid index otherwise. |
| `Registry.ProbeOutcomeEffect` | server.py:69-74 | A failed probe of a node (the item `ProbeItem` gives, as `Classify` reads it) becomes a removal event for its ip, port and id. Processing it leaves no entry with that id and keeps every other id. A successful probe only advances the cursor. |
| `Registry.AbsentStaysAbsent` | server.py:138-155 | An id that is absent stays absent over any sequence of items, as long as none of them registers that id. |
| `SeedServer.EventQueue.constructor` | server.py:88 | The queue starts empty. |
| `SeedServer.EventQueue.Put` | server.py:69-74 | Putting appends the item at the end. |
| `SeedServer.EventQueue.Get` | server.py:108 | Getting returns the oldest item and removes it. |
| `SeedServer.ClosestIsUnique` | server.py:43-45 | Because the comparison is strict, at most one index is the closest: on distance ties the earliest candidate wins. |
| `SeedServer.Server.constructor` | server.py:26-28 | A new server has an empty node list, cursor 0, and satisfies the invariant. |
| `SeedServer.Server.OnTick` | server.py:113-126 | On an empty list a tick picks nothing. Otherwise it picks `nodes[cursor]` for probing. It changes no state. |
| `SeedServer.Server.OnAlive` | server.py:129-135 | The list is unchanged. The cursor becomes `Advance(cursor, len)`: `(cursor + 1) % len`, or 0 when the list is empty. The invariant is kept. |
| `SeedServer.Server.OnAdd` | server.py:140-148 | If the id is present, the list is unchanged. Otherwise it gets exactly the new entry appended. The cursor is unchanged either way, and the invariant is kept. |
| `SeedServer.Server.OnRemove` | server.py:150-160 | The list becomes the reference removal of the first entry with the id. The cursor becomes `cursor % len`, or 0 when the list is empty. The invariant is kept. |
| `SeedServer.Server.Step` | server.py:107-162 | One loop iteration on an item read by `Classify`: the new state is `Apply` of the event to the old one, the invariant is kept, and the probe target is the one a tick picks. |
| `SeedServer.Server.Drain` | server.py:107-162 | Consuming the queue, each item read by `Classify`, leaves the state `Run` of the old state and the items, empties the queue, keeps the invariant, and starts probes exactly for `Probes` of the items. |
| `SeedServer.Server.GetClosestHaversine` | server.py:30-47 | The result is `None` exactly when every node has the excluded id. Otherwise it is the first three fields of a candidate at least as near as every other candidate and strictly nearer than every candidate before it. |
| `RpcHandlers.GetSeed` | rpc_handlers.py:15-55 | A registered id with no entry matching the caller's `(ip, port, id)` gets 409 with no type and an empty body. Every other request gets type `seed_node`. The status is 404, with an empty body, exactly when the list is empty or the caller is registered and is the only entry. A 200 carries some entry's ip, port and node_id. The seed is chosen by `SeedChoice`: an unregistered caller on a non-empty list gets 200 with the drawn entry `nodes[r]`, and a registered caller among several entries gets `nodes[(r+1) % len]` if `nodes[r]` is its own entry, and `nodes[r]` otherwise. |
| `RpcHandlers.EmptyListNotFound` | rpc_handlers.py:40-54 | With an empty list the response is 404 with type `seed_node` and an empty body. |
| `RpcHandlers.SeedIsAnotherNode` | rpc_handlers.py:32-41 | With distinct ids, a seed handed out is an entry of the list whose id differs from the caller's. |
| `RpcHandlers.ConflictMeansOtherAddress` | rpc_handlers.py:26-30 | With distinct ids, the conflict rule holds exactly when the caller's id is registered under a different ip or port. |
| `RpcHandlers.AsWrittenConflictsOnEveryRegisteredId` | rpc_handlers.py:24-30 | With the membership test taken literally, no entry ever equals the caller's 3-tuple, so every registered id gets 409. |
| `RpcHandlers.AsWrittenRejectsRegisteredCaller` | rpc_handlers.py:28 | Concrete case: a node registered at its own address and asking from there gets 409 as written, and 404 under the corrected rule. |
| `RpcHandlers.AsWrittenItemsIgnored` | rpc_handlers.py:65 | The 4-tuples the handlers put as written fall through `Classify` to "other" and change nothing. |
| `RpcHandlers.AsWrittenNeverRegisters` | rpc_handlers.py:65 | From the empty registry, the as-written `add_node` item leaves the list empty. The corrected item registers the node. |
| `RpcHandlers.MembershipItemsEffect` | rpc_handlers.py:58-81 | Processing the `add_node` item registers the caller's id. Processing the `dead_node` item leaves no entry with it. Both keep the invariant. |
| `RpcHandlers.AddNodeTwiceIsOnce` | server.py:141-147 | Processing `add_node` twice for the same id gives the same registry as processing it once. |
| `RpcHandlers.AddThenDeadLeavesEmpty` | server.py:141-160 | Adding a node and then removing it leaves the empty registry, and a later tick starts no probe. |
| `RpcHandlers.OtherAddressConflicts` | rpc_handlers.py:26-30 | After a node registers at one address, a `get_seed` under its id from another address gets 409. |
| `RpcHandlers.AddNode` | rpc_handlers.py:58-67 | Appends exactly one registration item for the caller's ip, port and node_id to the queue, keeps the earlier contents, and answers 200 with type `add` and an empty body. |
| `RpcHandlers.DeadNode` | rpc_handlers.py:70-81 | Appends exactly one removal item for the caller's ip, port and node_id to the queue, keeps the earlier contents, and answers 200 with no type and an empty body. |
| `RpcHandlers.Handle` | rpc_handlers.py:5-9 | Dispatches each of the three operations to its handler. `get_seed` leaves the queue unchanged. No operation writes the server's list. |

## Findings

| source | as written | input that shows it | evidently intended | confidence | as-written member | corrected member |
|---|---|---|---|---|---|---|
| rpc_handlers.py:28 | `node_details not in server.nodes` compares the 3-tuple `(ip, port, node_id)` with list entries that are 5-tuples, so it always holds | list `[("10.0.0.1", 5000, "a", None, None)]`; `get_seed` from `("10.0.0.1", 5000, "a")` gets 409 | compare with each entry's first three fields, so that only an id registered under another address is a conflict (docstring, line 17) | high; not executed | `RpcHandlers.AsWrittenRejectsRegisteredCaller` | `RpcHandlers.ConflictMeansOtherAddress` |
| rpc_handlers.py:65 | `add_node` and `dead_node` put 4-tuples, but the loop only acts on tuples of length 6 (server.py:138) | `add_node` for `("10.0.0.1", 5000, "a")` on an empty registry: the list stays empty | put `(ip, port, node_id, None, None, 1)` or `(…, 0)` | high; not executed | `RpcHandlers.AsWrittenNeverRegisters` | `RpcHandlers.MembershipItemsEffect` |

## Left out

- RpcHandlers.GetSeed: answers from one consistent snapshot of the list. The source reads the shared `server.nodes` up to six times on a handler thread, without a lock, while the loop appends and pops (rpc_handlers.py:26-41, server.py:147, 154). A pop between two of those reads can make `server.nodes[random_seed_index]` raise `IndexError`, and then no response is sent. That interleaving is not modelled.
- Sockets, threads and blocking are not modelled: `accept_connections`, `handle_connection`, `poll_timer`, the connect/send/receive inside `poll_node`, and the thread start-up in `run` (server.py:82-105, 165-222). Starting a probe thread is modelled as the probe target that `Step` returns and `Drain` collects. When a probe ends by reaching the node or by a socket error or timeout, the item it reports is `ProbeItem`.
- Registry.ProbeItem: a probe that raises anything other than a socket error or timeout reports nothing. In particular `client.connect` raises `OverflowError` for a port outside 0..65535 (server.py:63), which the `except` at server.py:71 does not catch, so the probe thread dies without putting an item. `add_node` does not check the port (rpc_handlers.py:65) and `Node.port` is an unbounded `int`, so such a node can be registered. The model always reports one of the two outcomes; in the source no removal follows, the cursor stays on that node, and every later tick probes it again until a removal shifts the list.
- SeedServer.EventQueue.Get: requires a non-empty queue. The source blocks until an item arrives, and concurrent producers interleaving with the loop are not modelled.
- JSON parsing, the string-keyed lookup in `REQUEST_MAP` and response encoding (`utils.create_request`) are not modelled. An unknown operation or a missing body field raises inside the handler thread; the closed `Op` type and the `Contact` record of the body's fields exclude both. Responses are the record `Response(status, kind, body)`.
- The body fields are typed as strings (ip, node_id) and an integer (port). The source accepts any JSON value there.
- SeedServer.Server.GetClosestHaversine: distances are reals. The infinite starting minimum is modelled as "no minimum yet", so the first candidate is always taken. NaN distances are not modelled. `utils.haversine` is not part of this model: the distance is a function parameter.
- Randomness: the index drawn by `randint(0, len - 1)` or `choice(nodes)` is the parameter `pick`, required to lie in range whenever the list is non-empty.
- Raw queue items other than the shapes the producers put (for example an empty tuple, which the loop would treat as a tick) are not modelled.
- The `except ValueError` at server.py:161-162 is not modelled: nothing in that block raises it.
- The optional `lat`/`long` body fields of `add_node` are not read by the source, so the corrected registration item carries no location.
- `handlers.py` is not modelled: it is an older variant that nothing imports. `utils.py` is configuration loading and logging. Logging calls throughout are left out.
