# A verified model of the graph server's core

The server keeps one shared directed graph. Its nodes are names, and its edges
are `(source, destination, weight)` triples in list order. It answers one text
line at a time. This project models in Dafny the four classes that do that work:

- `Edge`, the edge value (module `Edges`);
- `AlgorithmImplementation`, the Dijkstra-style path engine, as the class
  `Algorithm.PathEngine`. The value-level meaning of one run is in module
  `Dijkstra`, and walks and their prices are in module `Paths`;
- `DirectedGraph`, the store, as the class `Graph.DirectedGraph`;
- `MessagesFromClient`, the command dispatcher, as module `Messages`.

The parts of `java.lang` they rely on are written out in two modules:

- `JavaInt`: 32-bit wrap-around, `Integer.parseInt` and `String.valueOf`;
- `JavaString`: `contains`, `startsWith`, `split(" ")`, `compareTo`, the
  iteration order of a `TreeSet<String>`, and `toString()` followed by
  `replaceAll("[\\[\\]\\s]", "")`.

Each class is modelled in its own form:

- The engine and the store are classes whose methods change their fields in
  place. Each method has the same loop as the source, and its contract ties
  the new state to a function of the old one.
- Parsing a line and rendering a reply are pure functions.
- The dispatcher is a module-level method that takes the store.

What is proved, in outline:

- **The engine's run.** After `execute(s)`, the tables are those of a complete
  run of the loop: every pick was a minimum of the unsettled nodes, and
  nothing is left unsettled. On every graph, a complete run leaves:
  - `s` at distance 0;
  - MAX_INT exactly for the nodes without a distance entry;
  - for every other node, the int-summed price of a walk from `s`.
- **Shortest distances.** Call a graph `Good` when every weight is
  non-negative and (number of edges + 1) × (largest weight) is below MAX_INT.
  On a `Good` graph, a node has an entry exactly when it is reachable, and its
  entry is the least price of a walk to it. Java's int arithmetic is modelled
  exactly, so some such bound is needed. `Good` is sufficient, not necessary:
  edges A → B and B → C of weight 1000000000 each fail it, although no sum on
  that graph wraps.
- **Closer than.** `getCloserThan` terminates. It collects exactly the prefix
  of the predecessor chain whose running sum stays within the limit. The
  collected nodes are reachable, never the source, and come back in ascending
  order without duplicates.
- **The store.**
  - Adding succeeds exactly when the source's null checks pass.
  - A removal keeps exactly the edges that do not match. A match is tested
    with `contains` on both ends, and the edges keep their order.
  - Removing twice changes nothing more.
- **Parsing.** Every request a line can express is read back from its
  canonical line. Every parsed request is such a request. These are facts
  about `Parse`. Some such requests, for example an edge from `BYE` to
  `MATE!`, have a canonical line that contains the farewell phrase. The
  dispatcher answers such a line with "" before it parses it.
- **Rendering.**
  - A distance of zero, and only zero, renders as the not-found reply.
  - Every other distance is printed so that `parseInt` reads it back.
  - A set never renders as the not-found reply.

## Model

Source paths are relative to the repository root.

| member | source | states |
|---|---|---|
| JavaInt.ParseIntToString | ddd/Server/src/main/java/org/collibra/challenge/server/MessagesFromClient.java:52 | `Integer.parseInt` reads back every int that `String.valueOf` prints. |
| JavaInt.IntToStringIsZero | ddd/Server/src/main/java/org/collibra/challenge/server/MessagesFromClient.java:119-120 | An int prints as "0" exactly when it is 0. |
| JavaInt.MaxIntToString | ddd/Server/src/main/java/org/collibra/challenge/algorithm/AlgorithmImplementation.java:121-123 | `Integer.MAX_VALUE` prints as "2147483647". |
| JavaString.ContainsOccurrence | ddd/Server/src/main/java/org/collibra/challenge/algorithm/DirectedGraph.java:70 | `contains` holds exactly when the substring occurs at some index. |
| JavaString.JavaSplitOfJoin | ddd/Server/src/main/java/org/collibra/challenge/server/MessagesFromClient.java:38 | `split(" ")` gives the tokens back when space-free tokens, the last non-empty, are joined by spaces. |
| JavaString.JavaSplitTokens | ddd/Server/src/main/java/org/collibra/challenge/server/MessagesFromClient.java:38 | `JavaSplit` is `split(" ")`. The tokens of `split(" ")` on a line with a space: none holds a space, each is made of the line's characters, and the last is not empty. |
| JavaString.Insert | ddd/Server/src/main/java/org/collibra/challenge/algorithm/AlgorithmImplementation.java:143 | `TreeSet.add` keeps the listing strictly ascending, and the listing gains exactly the added name. |
| JavaString.LessTotal | ddd/Server/src/main/java/org/collibra/challenge/algorithm/AlgorithmImplementation.java:130 | `compareTo` puts any two different strings in some order. |
| JavaString.LessTransitive | ddd/Server/src/main/java/org/collibra/challenge/algorithm/AlgorithmImplementation.java:130 | The string order is transitive. |
| JavaString.SortedListingUnique | ddd/Server/src/main/java/org/collibra/challenge/algorithm/AlgorithmImplementation.java:130 | Two ascending, duplicate-free listings of the same names are equal, so a TreeSet has one iteration order. |
| JavaString.StripCollectionToString | ddd/Server/src/main/java/org/collibra/challenge/server/MessagesFromClient.java:130 | Names free of brackets and whitespace render as the names joined by commas. |
| Paths.FirstWeightFirstMatch | ddd/Server/src/main/java/org/collibra/challenge/algorithm/AlgorithmImplementation.java:72-82 | A hop's price is the weight of the earliest matching edge, and MAX_INT exactly when no edge matches. |
| Paths.NeighborListMembers | ddd/Server/src/main/java/org/collibra/challenge/algorithm/AlgorithmImplementation.java:84-96 | v is listed as a neighbour of x exactly when an edge x → v exists and v is not settled. |
| Dijkstra.RelaxImproves | ddd/Server/src/main/java/org/collibra/challenge/algorithm/AlgorithmImplementation.java:59-67 | `Relax` is one turn of the relaxation loop. Relaxing one unsettled neighbour keeps every distance entry, never raises one, and leaves the settled set and the settled nodes' entries alone. When the test passes, the neighbour's distance strictly drops; otherwise nothing changes. |
| Dijkstra.RelaxNear | ddd/Server/src/main/java/org/collibra/challenge/algorithm/AlgorithmImplementation.java:59-67 | After relaxing v from x, v is no farther than x's distance plus the hop's price, when that sum fits in an int. |
| Dijkstra.RelaxAllImproves | ddd/Server/src/main/java/org/collibra/challenge/algorithm/AlgorithmImplementation.java:58-69 | `RelaxAll` is the whole for loop. Relaxing a whole list of unsettled neighbours, in order, never raises a distance and leaves the settled part alone. |
| Dijkstra.StepImproves | ddd/Server/src/main/java/org/collibra/challenge/algorithm/AlgorithmImplementation.java:47-51 | One turn of `execute`'s loop, once x is settled: no distance rises, and every settled node's distance, x's included, is frozen. |
| Dijkstra.RelaxKeeps | ddd/Server/src/main/java/org/collibra/challenge/algorithm/AlgorithmImplementation.java:58-69 | Relaxing one neighbour keeps the loop invariant: the bookkeeping, walk witnesses for every distance, rank-ordered predecessor entries, and bounded distances. |
| Dijkstra.StepKeeps | ddd/Server/src/main/java/org/collibra/challenge/algorithm/AlgorithmImplementation.java:44-52 | A turn that settles a minimum and relaxes its neighbours keeps the invariant. On a `Good` graph, settled distances stay least, and every edge out of a settled node is relaxed. |
| Dijkstra.MinimumOptimal | ddd/Server/src/main/java/org/collibra/challenge/algorithm/AlgorithmImplementation.java:46 | On a `Good` graph, the unsettled node of least distance has a distance no greater than the price of any walk to it. |
| Dijkstra.RunInvariant | ddd/Server/src/main/java/org/collibra/challenge/algorithm/AlgorithmImplementation.java:31-53 | Every valid run of the loop keeps the invariant, ranking the nodes by the order in which they were settled. |
| Dijkstra.CompleteRunFacts | ddd/Server/src/main/java/org/collibra/challenge/algorithm/AlgorithmImplementation.java:31-53 | After a complete run: the source is at 0; MAX_INT marks exactly the nodes without an entry; every entry is the int-summed price of a walk. On a `Good` graph, the entries are exactly the reachable nodes, each at its least price. CompleteRunCloser gives the closer entries' meaning. |
| Dijkstra.HistoryReplay | ddd/Server/src/main/java/org/collibra/challenge/algorithm/AlgorithmImplementation.java:44-52 | A recorded history of the loop is a valid run, and its last tables are the replay of its picks. |
| Dijkstra.HistoryTurn | ddd/Server/src/main/java/org/collibra/challenge/algorithm/AlgorithmImplementation.java:44-52 | One loop turn extends the history. The pick is a new node, and at most one node more than the list has edges is ever settled, so the loop terminates. |
| Dijkstra.RelaxCredited | ddd/Server/src/main/java/org/collibra/challenge/algorithm/AlgorithmImplementation.java:59-66 | Relaxing v from a settled x keeps every closer entry credited: when the test passes, v's closer entry is the hop's price and v's distance is the int sum through x. |
| Dijkstra.StepCredited | ddd/Server/src/main/java/org/collibra/challenge/algorithm/AlgorithmImplementation.java:44-52 | One turn of the loop keeps every closer entry credited to a settled node, because x is settled before its neighbours are relaxed. |
| Dijkstra.RunCredited | ddd/Server/src/main/java/org/collibra/challenge/algorithm/AlgorithmImplementation.java:31-53 | Every valid run keeps the source's closer entry at 0, and credits every other entry to the settled node whose hop set it last. |
| Dijkstra.CompleteRunCloser | ddd/Server/src/main/java/org/collibra/challenge/algorithm/AlgorithmImplementation.java:31-66 | After a complete run, closer entries exist exactly for the distance entries, and the source's is 0. Every other node d has a settled u with an edge u → d: d's closer entry is `getDistance(u, d)`, and d's distance is the int sum of u's distance and it. On a `Good` graph that entry is non-negative and the sum does not wrap. |
| Dijkstra.CloserPrefixLongest | ddd/Server/src/main/java/org/collibra/challenge/algorithm/AlgorithmImplementation.java:136-145 | `CloserThan` is `getCloserThan`'s answer on the tables. The collected nodes are the longest prefix of the chain whose running int sums all stay at most the limit. The first node left out exceeds it. |
| Dijkstra.CloserTurn | ddd/Server/src/main/java/org/collibra/challenge/algorithm/AlgorithmImplementation.java:137-144 | One loop turn either ends the answer (the sum passes the limit) or collects the next chain node. |
| Dijkstra.CloserEnd | ddd/Server/src/main/java/org/collibra/challenge/algorithm/AlgorithmImplementation.java:133-137 | At a node without a predecessor entry, nothing more is collected. |
| Dijkstra.WalkComplete | ddd/Server/src/main/java/org/collibra/challenge/algorithm/AlgorithmImplementation.java:137 | After a complete run, the chain from any node ends within the settled count at a node without a predecessor entry. |
| Dijkstra.CloserThanReachable | ddd/Server/src/main/java/org/collibra/challenge/algorithm/AlgorithmImplementation.java:129-146 | The chain nodes collected after a complete run from s are reachable from s, never s itself, and pairwise distinct. |
| Algorithm.PathEngine.constructor | ddd/Server/src/main/java/org/collibra/challenge/algorithm/AlgorithmImplementation.java:23-26 | The engine keeps a copy of the store's edge list, and its collections start empty. |
| Algorithm.PathEngine.Execute | ddd/Server/src/main/java/org/collibra/challenge/algorithm/AlgorithmImplementation.java:31-53 | Afterwards the collections are the last tables of a recorded history from sourceNode with nothing unsettled, that is, of a complete run (DoneIsCompleteRun). |
| Algorithm.PathEngine.DoneIsCompleteRun | ddd/Server/src/main/java/org/collibra/challenge/algorithm/AlgorithmImplementation.java:31-53 | After `execute`, the collections are the replay of a complete run. |
| Algorithm.PathEngine.FindMinimalDistances | ddd/Server/src/main/java/org/collibra/challenge/algorithm/AlgorithmImplementation.java:55-70 | The new collections are the old ones relaxed, in list order, over the neighbour list of sourceNode. |
| Algorithm.PathEngine.GetDistance | ddd/Server/src/main/java/org/collibra/challenge/algorithm/AlgorithmImplementation.java:72-82 | Returns the weight of the first listed edge between the two names, or MAX_INT. |
| Algorithm.PathEngine.GetNeighbors | ddd/Server/src/main/java/org/collibra/challenge/algorithm/AlgorithmImplementation.java:84-96 | Returns the unsettled destinations of the edges out of sourceNode, in list order. Unsettled is tested by `IsSettled`, which is `isSettled` (lines 114-116), membership in settledNodes. |
| Algorithm.PathEngine.GetMinimum | ddd/Server/src/main/java/org/collibra/challenge/algorithm/AlgorithmImplementation.java:98-112 | Returns null exactly for the empty set; otherwise a member whose distance is at most every member's. |
| Algorithm.PathEngine.GetShortestDistance | ddd/Server/src/main/java/org/collibra/challenge/algorithm/AlgorithmImplementation.java:118-127 | Returns the node's distance entry, or MAX_INT without one. |
| Algorithm.PathEngine.GetCloserThan | ddd/Server/src/main/java/org/collibra/challenge/algorithm/AlgorithmImplementation.java:129-146 | After `execute`: returns a strictly ascending listing whose members are exactly the chain prefix CloserThan. |
| Algorithm.FollowCloser | ddd/Server/src/main/java/org/collibra/challenge/algorithm/AlgorithmImplementation.java:136-145 | The loop of `getCloserThan` returns a strictly ascending listing of exactly the chain prefix CloserThan. |
| Graph.UnmatchedMembers | ddd/Server/src/main/java/org/collibra/challenge/algorithm/DirectedGraph.java:90-95 | `Unmatched` is the list a removal leaves. An edge survives a removal exactly when it was listed and does not match. |
| Graph.UnmatchedConcat | ddd/Server/src/main/java/org/collibra/challenge/algorithm/DirectedGraph.java:90-95 | A removal works piece by piece and keeps the list order. |
| Graph.UnmatchedNone | ddd/Server/src/main/java/org/collibra/challenge/algorithm/DirectedGraph.java:90-95 | A list without a matching edge is left as it is. |
| Graph.UnmatchedTwice | ddd/Server/src/main/java/org/collibra/challenge/algorithm/DirectedGraph.java:85-97 | Removing the same matches twice is the same as removing them once. |
| Graph.RemoveFirstAt | ddd/Server/src/main/java/org/collibra/challenge/algorithm/DirectedGraph.java:71 | `List.remove(Object)` takes out exactly the first equal element. |
| Graph.ShortestAnswerMeaning | ddd/Server/src/main/java/org/collibra/challenge/algorithm/DirectedGraph.java:106-114 | A shortest-path answer is 0 from a node to itself. Any answer other than MAX_INT is the int-summed price of a walk. On a `Good` graph, MAX_INT means unreachable and any other answer is the least walk price. |
| Graph.CloserAnswerMeaning | ddd/Server/src/main/java/org/collibra/challenge/algorithm/DirectedGraph.java:123-131 | Every name a closer-than answer lists is reachable from the source and is not the source. |
| Graph.DirectedGraph.constructor | ddd/Server/src/main/java/org/collibra/challenge/algorithm/DirectedGraph.java:15-20 | The store starts with no nodes and no edges. |
| Graph.DirectedGraph.AddNode | ddd/Server/src/main/java/org/collibra/challenge/algorithm/DirectedGraph.java:28-36 | True exactly when the name was not a node; afterwards it is one. |
| Graph.DirectedGraph.AddEdge | ddd/Server/src/main/java/org/collibra/challenge/algorithm/DirectedGraph.java:46-54 | True exactly when both names are nodes, and then the edge is appended, duplicates included; otherwise the list is unchanged. |
| Graph.DirectedGraph.RemoveNode | ddd/Server/src/main/java/org/collibra/challenge/algorithm/DirectedGraph.java:62-76 | True exactly when the name was a node. It is then removed, along with the edges whose source and destination both contain it. |
| Graph.DirectedGraph.RemoveEdge | ddd/Server/src/main/java/org/collibra/challenge/algorithm/DirectedGraph.java:85-97 | True exactly when both names are nodes. The edges whose source contains the first name and whose destination contains the second are then removed. |
| Graph.DirectedGraph.RemoveMatching | ddd/Server/src/main/java/org/collibra/challenge/algorithm/DirectedGraph.java:69-74 | The `forEach` over a snapshot, with `remove` on the live list, leaves exactly the unmatched edges in their order. |
| Graph.DirectedGraph.GetShortestPath | ddd/Server/src/main/java/org/collibra/challenge/algorithm/DirectedGraph.java:106-114 | Returns 0 when either name is not a node; otherwise the destination's distance after a complete run from the source. |
| Graph.DirectedGraph.GetCloserThan | ddd/Server/src/main/java/org/collibra/challenge/algorithm/DirectedGraph.java:123-131 | Returns null exactly when the source is not a node; otherwise an ascending listing of the chain prefix of a complete run. |
| Messages.ParseFormat | ddd/Server/src/main/java/org/collibra/challenge/server/MessagesFromClient.java:31-65 | `Parse` is the chain of prefix and token-count tests. Every request a line can express parses back, through `Parse`, from its canonical line. |
| Messages.ParseFormatAddEdge | ddd/Server/src/main/java/org/collibra/challenge/server/MessagesFromClient.java:51-53 | `ADD EDGE a b w` parses back to the same edge request: the earlier ADD NODE and REMOVE NODE tests fail on it, and the weight reads back. |
| Messages.ParseFormatCloserThan | ddd/Server/src/main/java/org/collibra/challenge/server/MessagesFromClient.java:63-65 | `CLOSER THAN w s` parses back to the same request, past the five earlier prefix tests. |
| Messages.ParseEmptySource | ddd/Server/src/main/java/org/collibra/challenge/server/MessagesFromClient.java:38-53 | `ADD EDGE  b 1`, with two spaces, parses as an edge request from "" to `b` of weight 1. |
| Messages.EmptyNameNeverNode | ddd/Server/src/main/java/org/collibra/challenge/server/MessagesFromClient.java:33-53 | Handling any line keeps "" out of the nodes, so an edge request from "" replies ERROR: NODE NOT FOUND and leaves the edges alone. |
| Messages.ParsedIsValid | ddd/Server/src/main/java/org/collibra/challenge/server/MessagesFromClient.java:33-65 | Whatever a line parses to has names free of spaces and line terminators, and a non-empty last token. |
| Messages.ParseCanonical | ddd/Server/src/main/java/org/collibra/challenge/server/MessagesFromClient.java:31-65 | A parsed line and its canonical line parse to the same request. |
| Messages.ShortestPathTextMeaning | ddd/Server/src/main/java/org/collibra/challenge/server/MessagesFromClient.java:118-121 | The reply is the not-found text exactly for distance 0. Any other distance is printed so that `parseInt` reads it back, and MAX_INT prints as "2147483647". |
| Messages.CloserThanTextMeaning | ddd/Server/src/main/java/org/collibra/challenge/server/MessagesFromClient.java:128-131 | A set never renders as the not-found text. Names free of brackets and whitespace render joined by commas, and the empty set renders as "". |
| Messages.ProcessResponse | ddd/Server/src/main/java/org/collibra/challenge/server/MessagesFromClient.java:23-73 | A null line, or one containing BYE MATE!, gets "" and leaves the store alone. Any other line changes the store and replies as Handled says for what Parse makes of it. |
| Messages.AddNodeReply | ddd/Server/src/main/java/org/collibra/challenge/server/MessagesFromClient.java:79-81 | Replies NODE ADDED exactly when the name was new, else the already-exists text. |
| Messages.AddEdgeReply | ddd/Server/src/main/java/org/collibra/challenge/server/MessagesFromClient.java:89-94 | Replies EDGE ADDED and appends the edge exactly when both names are nodes. |
| Messages.RemoveNodeReply | ddd/Server/src/main/java/org/collibra/challenge/server/MessagesFromClient.java:100-102 | Replies NODE REMOVED, after removing the node and its matching edges, exactly when it was a node. |
| Messages.RemoveEdgeReply | ddd/Server/src/main/java/org/collibra/challenge/server/MessagesFromClient.java:109-111 | Replies EDGE REMOVED, after removing the matching edges, exactly when both names are nodes. |
| Messages.ShortestPathReply | ddd/Server/src/main/java/org/collibra/challenge/server/MessagesFromClient.java:118-121 | Replies with the rendered distance of a complete run when both names are nodes, else the not-found text. |
| Messages.CloserThanReply | ddd/Server/src/main/java/org/collibra/challenge/server/MessagesFromClient.java:128-131 | Replies with the rendered ascending chain prefix when the source is a node, else the not-found text. |

### Behaviour the model keeps, read from the code

- **An unreachable destination.** The engine answers `Integer.MAX_VALUE`, and
  the dispatcher prints it as "2147483647". It is not replied to as not found,
  so a client cannot tell an unreachable node from a far one by the not-found
  text.
- **Distance 0.** Only the printed text "0" becomes "ERROR: NODE NOT FOUND".
  A true zero distance becomes the not-found reply too, for example from a
  node to itself.
- **The closer-than chain.** `predecessors.put(sourceNode, destinationNode)`
  records, for each node, the last neighbour it relaxed. `getCloserThan`
  follows that chain. It is not the set of all nodes within the limit, and the
  model keeps it as a chain (CloserThan). The running sum is an int that wraps.
- **Removing edges.**
  - Both tests use `contains`, not equality.
  - `removeNode` removes an edge only when BOTH ends contain the name. An
    edge touching the node at one end stays.
- **Parsing.**
  - The prefix is tested on the raw line, and the token count on
    `split(" ")`. So "ADD NODEX y" is an ADD NODE of `y`.
  - An empty token between two spaces is a name, so `ADD EDGE  b 1` parses
    as an edge request from "" to `b`. No line can make "" a node, though: an
    ADD NODE name is the last token of `split(" ")`, which is never empty
    (ParsedIsValid). So against a store built from lines, that request always
    replies ERROR: NODE NOT FOUND (ParseEmptySource, EmptyNameNeverNode).
  - Tabs stay inside a name.

## Left out

- Sockets, sessions, the timeout, the client, and all logging are left out.
  So is concurrency: `synchronized`, `volatile` and the copy-on-write list.
  Each store operation is modelled as one atomic call.
- `getInstance` (the singleton) is left out. The dispatcher takes the store as
  a parameter. `getShortestPath` and `getCloserThan` build their engine from
  `DIRECTED_GRAPH_INSTANCE`; the model uses the store itself, assuming the
  store is that instance.
- `getNodes` and `getEdges` are left out. They return the two fields, and the
  model reads the fields directly. The node map is modelled as a set of names,
  because every key maps to itself.
- Graph.DirectedGraph.RemoveMatching: `remove(Object)` is by `equals`, which
  `Edge` does not override, so the source removes by identity. The model
  removes the first equal value. Equal edges met in snapshot order are taken
  out front to back, so the resulting list is the same. Aliasing of edge
  objects is not modelled.
- Algorithm.PathEngine.GetMinimum: the HashSet iteration order is unspecified,
  and the model leaves it open by choosing any member (`:|`). Every contract
  that follows from a run therefore covers every choice a HashSet could make;
  none is tied to one order.
- Graph.ShortestAnswerMeaning: reachability and least walk price are stated
  only for `Good` graphs: non-negative weights, and (number of edges + 1) ×
  (largest weight) below MAX_INT. That bound keeps every distance and every
  tentative sum below MAX_INT whatever the picks. It is stronger than "no sum
  wraps", so some graphs on which no sum wraps are not covered. On graphs with
  a negative weight, Dijkstra's method is defeated as well. Outside `Good`, only
  the on-every-graph facts are proved.
- Graph.CloserAnswerMeaning: states that collected names are reachable and are
  not the source. It does not state that they are within the limit on a
  shortest path, because the source's chain does not promise that.
- Messages.ProcessResponse: a null message is modelled as `None`. Other
  runtime exceptions the `catch` could swallow cannot occur in the modelled
  code; the only one is the `NumberFormatException` of `parseInt`.
- JavaInt.ParseInt accepts only ASCII digits. Java's `Integer.parseInt` also
  accepts other Unicode decimal digits.
- JavaString.Less orders by Unicode scalar value. Java's `compareTo` compares
  UTF-16 code units, which differ for characters beyond the Basic Multilingual
  Plane.
- The engine's collections start as empty collections rather than null.
  Nothing reads them before `execute`.
