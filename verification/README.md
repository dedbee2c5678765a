# Flight reservation data structures, modelled in Dafny

This project models the four data structures that hold the logic of a small
flight reservation system, and proves what each one promises:

- **The flight index** (`FlightAVLTree`, flight_collection.py). It is an AVL
  tree of flight records keyed by a sortable attribute. It has the height and
  balance helpers, the two rotations, insertion with the four rebalancing
  cases, `find_min`, and deletion through the in-order successor.
  Module `FlightCollection` (flight_collection.dfy).
  - The Python nodes are mutated in place, and each operation returns the new
    subtree root. Here a subtree is a value (`datatype Tree`), and each
    operation is a function that returns the new subtree. That is what the
    caller sees in `root.left = self.insert(root.left, ...)`.
  - The in-order traversal is the function `Keys`, which gives the visited
    keys, or `Entries`, which gives the (key, flight) pairs.
- **The waitlist** (`MaxHeapPriorityQueue`, waitlist.py). It is a binary
  max-heap of passengers held in a Python list. Module `Waitlist`
  (waitlist.dfy).
  - The class keeps the list as a `seq` field, `heap`. Every method reassigns
    it and states its new contents.
  - The sift loops are recursive methods, as they are in the source.
- **The route map** (`Graph`, map.py). It is an undirected adjacency-list
  graph of cities, with a breadth-first `shortest_path`. Module `RouteMap`
  (route_map.dfy).
  - The dictionary is a `map` field, `adjacencyList`. Each mutator is proved
    against a function of the old map: `WithNode`, `WithEdge` and
    `WithoutEdge`.
  - `shortest_path` is a `while` loop over a FIFO queue and a visited set. It
    is proved to return a walk from the start city to the end city with the
    fewest cities. It returns `None` only when no such walk exists.
- **The seat ledger** (`FlightSeatsList`, flight_seats.py). It is a singly
  linked list of `SeatNode` objects, walked with `while` loops. Module
  `FlightSeats` (flight_seats.dfy).
  - The nodes are heap objects whose `isBooked`, `passengerId` and `next`
    fields are updated in place.
  - The ghost sequences `nodes` and `seats` hold the list's spine and its
    contents as values.
  - Every method states the new `seats` as a function of the old one:
    `Booked`, `Cancelled`, or an append.

## Model

| member | source | states |
|---|---|---|
| FlightCollection.Height | flight_collection.py:19-23 | `get_height`: 0 for an absent node, the stored height otherwise; `HeightIsDepth` shows it is the real height when stored heights are consistent |
| FlightCollection.Balance | flight_collection.py:25-29 | `get_balance`: 0 for an absent node, left height minus right height otherwise; `HeightIsDepth` shows it is the real height difference when stored heights are consistent |
| FlightCollection.Keys | flight_collection.py:164-169 | the keys `in_order_traversal` visits (left subtree, node, right subtree); the traversal is empty exactly for an empty subtree |
| FlightCollection.Entries | flight_collection.py:164-169 | the (key, flight) pairs `in_order_traversal` visits, one per key visited |
| FlightCollection.EntryKeys | flight_collection.py:164-169 | the two traversals agree: the i-th (key, flight) pair carries the i-th key |
| FlightCollection.HeightIsDepth | flight_collection.py:19-29 | on a tree whose stored heights are consistent, `get_height` is the real height of the subtree and `get_balance` is the real difference of the two child heights |
| FlightCollection.OrderedIffSorted | flight_collection.py:164-169 | the tree is a search tree exactly when its in-order traversal is sorted |
| FlightCollection.RightRotate | flight_collection.py:31-45 | a right rotation keeps the in-order keys and flights, keeps the search-tree order, and leaves every stored height correct, the demoted node's first |
| FlightCollection.LeftRotate | flight_collection.py:47-61 | the mirror image: a left rotation keeps the in-order keys and flights, the order and correct heights |
| FlightCollection.RotationKeeps | flight_collection.py:31-61 | for any three subtrees a, b, c, the shapes ((a x b) y c) and (a x (b y c)) have the same traversal, and one is ordered exactly when the other is |
| FlightCollection.InsertFixup | flight_collection.py:73-98 | the rebalancing after the recursive insert (LL, RR, LR and RL cases chosen by comparing the key with the heavy child's key) keeps the traversal and the order and leaves correct heights |
| FlightCollection.Insert | flight_collection.py:63-98 | insert adds exactly one node: the key multiset gains the key and the entry multiset gains (key, flight); the height grows by at most one; stored heights stay correct |
| FlightCollection.InsertKeepsOrder | flight_collection.py:63-98 | insert keeps the search-tree order (smaller keys go left, equal or greater keys go right), so the in-order traversal stays sorted |
| FlightCollection.InsertKeepsBalance | flight_collection.py:76-96 | inserting a key not yet in a balanced tree leaves every balance factor in [-1, 1]; when the subtree grows, no rotation happened at its root and it leans towards the side the key went to |
| FlightCollection.DuplicateKeyUnbalances | flight_collection.py:81-96 | inserting 2, 1 and 1 into an empty index leaves the root with balance factor 2: a key equal to the heavy child's key selects none of the four cases |
| FlightCollection.FindMin | flight_collection.py:100-104 | `find_min` returns `None` exactly for an empty subtree, and otherwise a node with no left child that holds the first entry of the traversal |
| FlightCollection.FindMinIsLeast | flight_collection.py:100-104 | on an ordered subtree the key `find_min` returns is in the subtree and no key is smaller |
| FlightCollection.DeleteFixup | flight_collection.py:136-162 | the rebalancing after a delete (cases chosen by the heavy child's balance factor) keeps the traversal and the order and leaves correct heights |
| FlightCollection.Delete | flight_collection.py:106-162 | delete leaves correct stored heights on every path, including the zero-or-one-child case that returns the child unchanged |
| FlightCollection.DeleteContents | flight_collection.py:106-130 | on an ordered tree delete removes exactly one occurrence of the key when there is one (the successor's key replaces the deleted one and is removed from the right subtree), and keeps the order |
| FlightCollection.DeleteAbsent | flight_collection.py:109-114 | deleting a key that is not in a balanced index returns the index unchanged, whatever the order of its keys |
| FlightCollection.DeleteKeepsBalance | flight_collection.py:132-162 | delete keeps every balance factor in [-1, 1] and lowers the height by at most one |
| FlightCollection.ShrinkLeftStep | flight_collection.py:153-160 | when the left subtree lost at most one level, the right-heavy cases (single rotation for a child balance of at most 0, double otherwise) restore balance and lose at most one level |
| FlightCollection.ShrinkRightStep | flight_collection.py:144-151 | the mirror image, for the left-heavy cases with a child balance of at least 0 and below 0 |
| Waitlist.Swap | waitlist.py:17 | the tuple assignment exchanges the two entries, keeps the length and multiset, and changes no other index |
| Waitlist.Parent | waitlist.py:12 | `(index - 1) // 2`: -1 for the root, as Python's floor division gives; for any other index an earlier index of which it is one of the two children 2p + 1 and 2p + 2 |
| Waitlist.RootIsMax | waitlist.py:25-29 | in a max-heap no entry has a higher priority than the one at index 0 |
| Waitlist.SwapUpStep | waitlist.py:10-18 | swapping an entry with a strictly smaller parent moves the one place where the heap order may fail up to the parent |
| Waitlist.SwapDownStep | waitlist.py:31-56 | swapping an entry with its larger child, which strictly outranks it, moves the one place where the heap order may fail down to that child |
| Waitlist.LastToRootOrder | waitlist.py:58-63 | moving the last entry to the root and dropping the last slot leaves a heap that is ordered everywhere except below the root |
| Waitlist.LastToRootContents | waitlist.py:61-62 | the same move loses exactly the old root |
| Waitlist.MaxHeapPriorityQueue.constructor | waitlist.py:7-8 | a new waitlist is empty |
| Waitlist.MaxHeapPriorityQueue.ShiftUp | waitlist.py:10-18 | `shift_up` keeps the length and the multiset of passengers, and turns a heap broken only at `index` into a max-heap |
| Waitlist.MaxHeapPriorityQueue.Insert | waitlist.py:20-23 | insert grows the heap by one, adds exactly the passenger to the multiset and keeps the max-heap property |
| Waitlist.MaxHeapPriorityQueue.HeapMaximumElement | waitlist.py:25-29 | an empty waitlist gives `IndexError` with the source's message; otherwise the result is the passenger at index 0 and, on a max-heap, no one waiting has a higher priority |
| Waitlist.MaxHeapPriorityQueue.ShiftDown | waitlist.py:31-56 | `shift_down` keeps the length and the multiset, and turns a heap broken only below `index` into a max-heap |
| Waitlist.MaxHeapPriorityQueue.ExtractMax | waitlist.py:58-65 | an empty waitlist gives `IndexError` and is unchanged; otherwise the old root is returned, its priority is maximal, the heap loses exactly that passenger and stays a max-heap, including the one-passenger case |
| Waitlist.MaxHeapPriorityQueue.IsEmpty | waitlist.py:67-69 | `is_empty` is true exactly when no one is waiting |
| Waitlist.Served | waitlist.py:86-100 | a passenger whose priority beats everyone else's is the one `extract_max` returns, and the rest stay |
| Waitlist.ServedOneOfTwo | waitlist.py:86-100 | with two passengers tied at the top priority, `extract_max` returns one of the two and the other stays |
| Waitlist.ServeTop | waitlist.py:86-100 | `extract_max` on a waitlist with a unique top passenger returns that passenger and leaves the others as a valid heap |
| Waitlist.ServeTied | waitlist.py:86-88 | two `extract_max` calls on two passengers tied at the top return both, in either order, and leave the others as a valid heap |
| Waitlist.ExampleWaitlist | waitlist.py:71-78 | the six inserts of the commented example give a valid heap holding exactly those six passengers |
| Waitlist.WaitlistExample | waitlist.py:71-103 | the commented example serves Sujan, then Kamal and Caleb (priority 4, in either order), then Zach, Akku and Max; the waitlist is not empty after three extractions and is empty after six |
| RouteMap.RemoveFirst | map.py:23-26 | `list.remove` guarded by a membership test: the list is unchanged when the city is not in it, and one entry shorter when it is |
| RouteMap.RemoveFirstCount | map.py:23-26 | the removal drops exactly one listing of the city when there is one |
| RouteMap.RemoveFirstAt | map.py:23-26 | what is removed is the first occurrence; everything before it and after it stays in order |
| RouteMap.WithNodeKeepsValid | map.py:9-12 | `add_node` adds exactly the new city, with no routes, leaves every existing list alone and keeps the map well formed (closed, symmetric, each self-route listed an even number of times) |
| RouteMap.WithNode | map.py:9-12 | the adjacency list after `add_node`: the cities gain exactly the new one, every existing list is kept, and a new city has no routes |
| RouteMap.WithEdge | map.py:14-18 | the adjacency list after `add_edge`: same cities; every old list is a prefix of the new one; only the two endpoints change; when both exist each lists the other; otherwise nothing changes |
| RouteMap.WithoutEdge | map.py:20-26 | the adjacency list after `remove_edge`: same cities; only the two endpoints change; for two distinct existing cities each list loses one entry exactly when it listed the other; otherwise nothing changes |
| RouteMap.WithEdgeCount | map.py:14-18 | after `add_edge(a, b)` with both cities present, a lists b once more and b lists a once more, and no other listing count changes |
| RouteMap.WithoutEdgeCount | map.py:20-26 | after `remove_edge(a, b)` a lists b once fewer and b lists a once fewer, never below zero; a self-route loses up to two listings; no other count changes |
| RouteMap.WithEdgeKeepsValid | map.py:14-18 | `add_edge` keeps the routes symmetric (for a ≠ b, a lists b as often as b lists a) and the map closed; the cities are unchanged |
| RouteMap.WithoutEdgeKeepsValid | map.py:20-26 | `remove_edge` keeps the routes symmetric and the map closed; the cities are unchanged |
| RouteMap.RemoveEdgeUndoesAddEdge | map.py:14-26 | removing a route just added gives back every city's neighbours as a multiset |
| RouteMap.WithEdgeAsUpdates | map.py:16-18 | the two appends `add_edge` performs, one after the other, give `WithEdge` (including a self-route) |
| RouteMap.WithoutEdgeAsUpdates | map.py:22-26 | the two guarded removals `remove_edge` performs, one after the other, give `WithoutEdge` |
| RouteMap.Graph.constructor | map.py:5-7 | a new map has no cities |
| RouteMap.Graph.AddNode | map.py:9-12 | the new adjacency list is `WithNode` of the old one, and a well-formed map stays well formed |
| RouteMap.Graph.AddEdge | map.py:14-18 | the new adjacency list is `WithEdge` of the old one (a no-op unless both cities exist), and a well-formed map stays well formed |
| RouteMap.Graph.RemoveEdge | map.py:20-26 | the new adjacency list is `WithoutEdge` of the old one (a no-op unless both cities exist), and a well-formed map stays well formed |
| RouteMap.ExpandSpec | map.py:51-53 | the entries the neighbour loop queues are exactly the unvisited neighbours, each with the current path extended by it |
| RouteMap.AppendUnvisited | map.py:51-53 | the neighbour loop appends to the queue exactly the entries `Expand` describes, in neighbour order |
| RouteMap.BfsInit | map.py:38-39 | the initial queue `[(start, [start])]` with nothing visited satisfies the search invariant |
| RouteMap.BfsFrontIsShortest | map.py:41-53 | no walk from the start reaches an unvisited city with fewer cities than the path at the front of the queue |
| RouteMap.BfsSkip | map.py:42-47 | popping an already visited city keeps the search invariant |
| RouteMap.BfsVisit | map.py:42-53 | visiting a new city and queueing its unvisited neighbours keeps the search invariant |
| RouteMap.BfsFoundEnd | map.py:44-45 | when the end city reaches the front of the queue, its path is a walk from start to end with the fewest cities |
| RouteMap.BfsExhausted | map.py:55-56 | when the queue runs dry before reaching the end city, no walk from start to end exists |
| RouteMap.StayingPut | map.py:38-45 | from a city to itself, the one-city walk is the only walk of at most one city |
| RouteMap.Graph.ShortestPath | map.py:33-56 | `None` when either city is missing; otherwise a walk from start to end along listed routes, no longer than any other such walk, and `None` only when no walk exists; `[x]` from a city x to itself |
| FlightSeats.InitialSeats | flight_seats.py:14-17 | a ledger of size n has max(n, 0) seats |
| FlightSeats.InitialSeatsAt | flight_seats.py:14-17 | seat i of a new ledger is number i + 1, available, with no passenger |
| FlightSeats.FindSeat | flight_seats.py:33-44 | the search finds the first seat with the number, and finds none exactly when no seat has it |
| FlightSeats.Booked | flight_seats.py:31-45 | the seats after `book_seat`: as many seats with the same numbers, and the first seat with the number, when there is one, is booked |
| FlightSeats.Cancelled | flight_seats.py:47-61 | the seats after `cancel_seat_booking`: as many seats with the same numbers, and the first seat with the number, when there is one, is available |
| FlightSeats.BookedEffect | flight_seats.py:31-45 | booking touches only the first seat with the number: an available one becomes booked by the passenger, a booked one keeps its passenger; every other seat is unchanged |
| FlightSeats.CancelledEffect | flight_seats.py:47-61 | cancelling touches only the first seat with the number: a booked one becomes available with no passenger, an available one is unchanged; every other seat is unchanged |
| FlightSeats.BookingKeepsConsistent | flight_seats.py:39-54 | booking and cancelling keep "booked exactly when there is a passenger" |
| FlightSeats.BookTwice | flight_seats.py:36-37 | booking a seat a second time, for anyone, changes nothing |
| FlightSeats.CancelUndoesBook | flight_seats.py:31-61 | cancelling the booking of an available seat gives back the ledger as it was |
| FlightSeats.AvailabilityAfterBooking | flight_seats.py:74-81 | a new non-empty ledger has an available seat, and a seat just booked is not available |
| FlightSeats.SeatNode.constructor | flight_seats.py:5-9 | a new seat node is available, has no passenger and no successor |
| FlightSeats.FlightSeatsList.constructor | flight_seats.py:14-17 | a new ledger of size n holds seats 1 to n in list order, all available |
| FlightSeats.FlightSeatsList.AddSeat | flight_seats.py:19-29 | `add_seat` appends an available seat at the tail (not at the head, as its docstring says) and keeps the order of the others |
| FlightSeats.FlightSeatsList.LastSeat | flight_seats.py:26-28 | the walk from the head stops at the last node |
| FlightSeats.FlightSeatsList.LinkAtTail | flight_seats.py:29 | linking the new node after the last one makes it the tail and adds exactly its seat at the end |
| FlightSeats.FlightSeatsList.FindNode | flight_seats.py:33-43 | the search loop stops at the node of the first seat with the number, or runs off the list exactly when no seat has it |
| FlightSeats.FlightSeatsList.BookSeat | flight_seats.py:31-45 | the seats become `Booked` of the old seats, and the result is true exactly when a seat with the number exists, whether it was available or already booked |
| FlightSeats.FlightSeatsList.CancelSeatBooking | flight_seats.py:47-61 | the seats become `Cancelled` of the old seats, and the result is true exactly when a seat with the number exists |
| FlightSeats.FlightSeatsList.IsSeatAvailable | flight_seats.py:74-81 | the result is true exactly when some seat is not booked |

## Left out

- Printing: `in_order_traversal`'s output line, `display`, `show_seat_availability`, and the messages that `book_seat` and `cancel_seat_booking` print. They are console output. The traversal is modelled as the sequence it visits.
- The module-level example code in flight_collection.py, flight_seats.py and map.py. The commented waitlist example is modelled (`Waitlist.WaitlistExample`).
- flight_reservation_system.py and flights.py are not part of this model. The first is interactive glue; the second is a record with no behaviour. The flight record is a type parameter `V`.
- Passenger ids are modelled as `int` and a booking always stores `Some(pid)`. Python's `book_seat` accepts any value, and `book_seat(n, None)` would book a seat with no passenger, which the `Consistent` invariant excludes.
- The `Passenger` class is not among the repository's files. A passenger is modelled as an opaque payload with an integer priority.
- Sort keys are `int`. The example keys by departure-time strings; any totally ordered key behaves the same way.
- Node identity and aliasing in the AVL tree. The tree is a value, so the in-place rewiring and the copy of the successor's key and flight into the node are seen only through the subtree each call returns.
- FlightCollection.InsertKeepsBalance: proved only for a key not already in the tree. `DuplicateKeyUnbalances` shows the rebalancing leaves a balance factor of 2 when the key equals the heavy child's key.
- FlightCollection.Insert: requires a tree with correct heights and balance factors in [-1, 1], as every tree the index builds from distinct keys has. On other trees the double-rotation cases can dereference a missing grandchild.
- FlightCollection.DeleteContents: states the multiset of keys, not which flight goes with which key. With repeated keys the two-children case removes the first node met with the successor's key, which need not be the successor. That can copy one flight and drop another.
- RouteMap.Graph.ShortestPath: requires every listed neighbour to be a city of the map. `add_node`, `add_edge` and `remove_edge` maintain this. A dictionary edited by hand could make the source raise `KeyError` instead.
- RouteMap.Graph.ShortestPath: does not state which of several shortest walks is returned. It is the first one found in queue order.
- Weighted routes, Dijkstra's algorithm, a path cache, subtree sizes, a configurable balance threshold and city removal. The code has none of them.
- Python's unbounded lists and integers are matched by Dafny's unbounded sequences and integers, so no overflow is modelled.
