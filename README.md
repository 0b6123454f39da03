# Live-event relay of the Warpgate API, in Dafny

The Warpgate API relays live game events from a message broker to browser
clients connected over websockets. The relay is the `Consumer` object in
`consumer.py`. It holds a registry of connected websocket handles and a
readiness flag for its broker subscription. `connect` registers a handle and
`remove` deletes one. `_send` is the broker callback that fans each inbound
message out to every registered handle. The startup hook in `main.py` runs
`setup` only while the relay is not yet ready.

The project has three modules:

- `Registry` (`registry.dfy`): the registry as a list. `RemoveFirst` and
  `FirstIndex` model Python's `list.remove`, with lemmas relating the two.
- `Fanout` (`fanout.dfy`): one broadcast pass as a function on values.
  `Drain` is the pass as the code runs it. Lemmas give it in closed form:
  which handles are served, in what order, how many acknowledgements are
  issued, and what happens when a send raises. `DrainPruning` is the
  corrected pass (see Findings).
- `Relay` (`relay.dfy`): the class `Consumer<H>`, where `H` is the type of
  client handles. It has the fields `connections`, `isReady` and `queueName`,
  plus two ghost logs: `sent` records every completed `send_text` and `acks`
  counts every `ack()`. `Send` is the drain loop written as a `while` loop.
  It is proved to leave the registry and the logs exactly as `Drain`
  describes. Three scenario methods run the class through concrete
  connect, broadcast and disconnect sequences.

How the environment is modelled:

- Which sends fail is a parameter: the set `failing` of handles whose
  `send_text` raises.
- Which broker call fails during `setup` is a parameter: `failure`, either
  `None` or one `BrokerStep`.
- Whether the websocket `accept` raises is the parameter `acceptFails`.
- The rendering `f"{message.body}"` is the function parameter
  `render: Bytes -> string`. The model only uses the fact that it returns
  the same text for the same body.
- An exception leaving a call is the `Raised` outcome.

Where the code and its design description disagree, the model follows the
code:

- `remove` raises when the handle is absent. The design says it is a no-op.
- `_send` calls `ack()` once per served handle, inside the loop. So there
  is no ack at all when the registry is empty. The design says one ack
  after the whole pass.
- A failing send is not caught. It aborts the pass instead of pruning only
  the failing handle.
- `connect` does not check for duplicates. So distinctness of the registry
  is a hypothesis of the lemmas that need it, not an invariant of the class.

## Model

| member | source | states |
|---|---|---|
| `Relay.Consumer.constructor` | consumer.py:9-11 | A new relay has an empty registry, is not ready, has no queue name, and its send and ack logs are empty. |
| `Relay.Consumer.Setup` | consumer.py:13-27 | The broker calls run in order and the first failure raises. The queue name is recorded exactly when declaring the queue is attempted. The ready flag becomes true only when every call succeeded, and otherwise keeps its old value. |
| `Relay.Consumer.Startup` | main.py:69-75 | `setup` runs only while the relay is not ready. A second startup after a successful one returns and changes nothing. A first startup leaves the relay ready exactly when no broker call failed, with the queue name "warpgate". |
| `Relay.Consumer.Connect` | consumer.py:35-37 | If `accept` raises, the registry is unchanged. Otherwise the handle is appended at the end and the earlier entries are unchanged. Nothing else changes. |
| `Relay.Consumer.Remove` | consumer.py:39-40 | When the handle is registered, its first occurrence is deleted. When it is not, the call raises and the registry is unchanged. |
| `Relay.Consumer.Send` | consumer.py:42-49 | The loop terminates. The outcome, the new registry and the appended deliveries and acks are exactly those of `Drain` on the old registry and the rendered body. After a failure the registry is the untouched remainder. After a normal end it is the served list. |
| `Relay.Consumer.SendPruning` | consumer.py:42-49 | Corrected drain loop: the registry and logs end exactly as `DrainPruning` describes, and the call never raises. |
| `Relay.Consumer.Discard` | consumer.py:39-40 | Corrected removal: deletes the first occurrence when present, is a no-op when absent, and never raises. |
| `Relay.ClientClosedBetweenBroadcasts` | consumer.py:42-49 | Scenario: a and b connect, there is one broadcast, a's socket closes, and there is a second broadcast. The second pass raises, the registry ends as [b], and b got only the first text. |
| `Relay.ClientClosedBetweenPrunedBroadcasts` | consumer.py:42-49 | The same scenario with the corrected loop: the registry ends as [b], and b got both texts in order. |
| `Relay.DroppedClientDisconnects` | main.py:127-133 | Scenario: a's send fails while b is still connected. The pass leaves the registry empty, so b's later disconnect makes `remove` raise. |
| `Registry.FirstIndex` | consumer.py:40 | The index `list.remove` targets: it holds `h`, and no earlier entry is `h`. |
| `Registry.RemoveFirst` | consumer.py:40 | Removing a present handle shortens the list by exactly one. |
| `Registry.RemoveFirstSplices` | consumer.py:40 | The removal equals the list with exactly the first occurrence cut out. All other entries keep their relative order. |
| `Registry.RemoveFirstMultiset` | consumer.py:40 | The removal takes exactly one copy of the handle out of the registry's multiset. |
| `Registry.RemoveFirstDistinct` | consumer.py:40 | A duplicate-free registry stays duplicate-free after removal, and the removed handle is gone. |
| `Registry.RemoveAfterAppend` | consumer.py:35-40 | Connecting an unregistered handle and then removing it restores the registry exactly. |
| `Fanout.Reverse` | consumer.py:45-48 | Popping from the end and appending to a new list gives a list of the same length. |
| `Fanout.ReverseAt` | consumer.py:45-48 | Position i of the rebuilt list holds the handle at position n-1-i of the original. |
| `Fanout.ReverseMultiset` | consumer.py:45-49 | The rebuilt registry holds the same handles, each as often as before. |
| `Fanout.ReverseReverse` | consumer.py:45-49 | Two complete passes restore the original order. |
| `Fanout.ReverseDistinct` | consumer.py:45-49 | A duplicate-free registry stays duplicate-free when rebuilt. |
| `Fanout.Drain` | consumer.py:42-49 | The number of acks equals the number of served handles and of deliveries. A normal end serves every handle and leaves no remainder. A raised pass popped acks+1 handles. |
| `Fanout.DrainStopsAtFailure` | consumer.py:44-48 | The served handles are the last `acks` ones and none of them fails. The pass raised exactly when it stopped short. It then stopped at a failing handle, and the registry is cut back to the handles before that one. |
| `Fanout.DrainLiving` | consumer.py:44-48 | The served list is the last `acks` handles, newest first. |
| `Fanout.DrainSent` | consumer.py:45-46 | The i-th delivery went to the i-th handle from the end and carried the pass's single text. |
| `Fanout.DrainServes` | consumer.py:42-49 | The whole pass in closed form: served suffix, serving order, deliveries, and the raise condition with its remainder. |
| `Fanout.DrainRaisesIff` | consumer.py:44-46 | A pass raises exactly when some registered handle's send fails. |
| `Fanout.CleanPass` | consumer.py:42-49 | With no failing send: the pass ends normally, the new registry is the old one reversed with the same multiset, every handle gets the same text in last-connected-first order, and acks equal the registry length. |
| `Fanout.EmptyPass` | consumer.py:43-44 | An empty registry gives no sends, no acks and an empty registry. |
| `Fanout.AbortedPass` | consumer.py:44-48 | If the k-th popped handle is the first to fail, the pass raises after k-1 acks and the registry is the prefix of length n-k. With distinct handles, the k-1 served handles and the failing one are all gone from the registry. |
| `Fanout.TextsTo` | consumer.py:46 | The texts one client received are drawn from the delivery log and number no more than its entries. |
| `Fanout.TextsToConcat` | consumer.py:46 | What a client receives over two logs in sequence is what it received in the first, then in the second. |
| `Fanout.CleanPassDeliversOnce` | consumer.py:44-48 | With distinct handles and no failure, each registered client receives the text exactly once and no other client receives it. |
| `Fanout.TwoCleanPasses` | consumer.py:42-49 | Two failure-free broadcasts to distinct clients restore the registry order. Each client receives the first text and then the second. |
| `Fanout.DrainPruning` | consumer.py:42-49 | Corrected pass: it never raises, and acks equal the number of kept handles and of deliveries. |
| `Fanout.PruningKeepsLiving` | consumer.py:42-49 | The corrected pass keeps exactly the registered handles whose send succeeds. With distinct handles, each such client gets the text once and a failing one gets nothing. |
| `Fanout.PruningAgreesOnCleanPass` | consumer.py:42-49 | When no send fails, the corrected pass is identical to the pass as written. |
| `Fanout.AbortDropsServedHandle` | consumer.py:44-49 | As written, registry [a, b] with a failing: b is served, the pass raises, and the registry is empty. The corrected pass keeps [b]. |

## Findings

| source | as written | input that shows it | evidently intended | confidence | as-written member | corrected member |
|---|---|---|---|---|---|---|
| consumer.py:44-49 | A failing `send_text` is not caught. It aborts `_send` after the already-served, still-connected handles were popped into the local `living_connections` list, and that list is lost. | Registry [a, b] with a's socket closed: b is served, the send to a raises, the registry becomes [], and b receives no later broadcast. | Drop only the failing handle, keep every handle whose send succeeded, and finish the pass. | medium, not executed | `Fanout.AbortDropsServedHandle` | `Fanout.PruningKeepsLiving` |
| consumer.py:39-40 | `remove` calls `list.remove`, which raises for a handle that is not registered. The disconnect handler at main.py:133 calls it for every closing socket, including one that `_send` already dropped. | Registry [a, b] with a's socket closed: after the broadcast, b's disconnect makes `remove(b)` raise. | Removing an absent handle is a no-op. | medium, not executed | `Relay.DroppedClientDisconnects` | `Relay.Consumer.Discard` |

## Left out

- Broker I/O in `setup` (the connection, channel, exchange, queue, binding and consumer registration) is reduced to one outcome per call. Routing, the exchange type and the routing key are not modelled.
- `push` (consumer.py:29-33) publishes through the broker library and encodes to ASCII. Both are library behaviour, so `push` is not modelled.
- The broker URL parameter of `setup` is only passed to the broker library, so it is not modelled.
- The websocket transport (`accept`, `send_text`) is reduced to success or failure per handle. A send that hangs is not modelled.
- The exact text `f"{message.body}"` produces for a bytes body is not modelled. `render` is an arbitrary function parameter.
- The broker library's own rules for `ack()` are not modelled. That includes whether it accepts more than one ack per message, or any ack on a message consumed with `no_ack=True`. The model only counts the calls.
- Interleaving at `await` points between the websocket handler and `_send` is not modelled: every operation is atomic. So the model does not capture a `connect` that lands in the middle of a pass.
- The HTTP handlers for zones, population and alerts, the health check, CORS, environment configuration, server startup and `config/db.py` are document-store and framework plumbing. They are not part of this model.
- The echo loop of the websocket endpoint (main.py:129-131) is transport plumbing. Only its `remove` call on disconnect is modelled.
