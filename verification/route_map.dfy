/** The route map of map.py: an undirected graph of cities stored as an
    adjacency list (a dictionary from each city to the list of its
    neighbours, one entry per route), and the breadth-first search that
    finds a route with the fewest stops. The dictionary the object mutates
    is the map field `adjacencyList`, which every operation reassigns. */
module RouteMap {

  datatype Option<T> = None | Some(value: T)

  /** Every city listed as a neighbour is itself in the map. */
  predicate Closed<N>(adj: map<N, seq<N>>) {
    forall a, b :: a in adj && b in adj[a] ==> b in adj
  }

  /** Routes are bidirectional: between two different cities, each lists the
      other as often as the other lists it. */
  predicate Symmetric<N>(adj: map<N, seq<N>>) {
    forall a, b :: a in adj && b in adj && a != b ==> multiset(adj[a])[b] == multiset(adj[b])[a]
  }

  /** A route from a city to itself is listed twice, once per direction. */
  predicate EvenLoops<N>(adj: map<N, seq<N>>) {
    forall a :: a in adj ==> multiset(adj[a])[a] % 2 == 0
  }

  predicate ValidMap<N>(adj: map<N, seq<N>>) {
    Closed(adj) && Symmetric(adj) && EvenLoops(adj)
  }

  /** `list.remove`: the list without its first occurrence of x, or the
      list itself when x does not occur. */
  function RemoveFirst<N(==)>(s: seq<N>, x: N): (r: seq<N>)
    ensures x !in s ==> r == s
    ensures x in s ==> |r| == |s| - 1
  {
    if s == [] then
      []
    else if s[0] == x then
      s[1..]
    else
      [s[0]] + RemoveFirst(s[1..], x)
  }

  /** `list.remove` drops exactly one listing of x when there is one. */
  lemma {:induction false} RemoveFirstCount<N>(s: seq<N>, x: N)
    ensures multiset(RemoveFirst(s, x)) == multiset(s) - multiset{x}
  {
    if s != [] {
      assert s == [s[0]] + s[1..];
      if s[0] != x {
        RemoveFirstCount(s[1..], x);
      }
    }
  }

  /** The same, counted for one city y. */
  lemma RemoveFirstCountOf<N>(s: seq<N>, x: N, y: N)
    ensures multiset(RemoveFirst(s, x))[y] ==
      if x != y then multiset(s)[y] else if multiset(s)[y] >= 1 then multiset(s)[y] - 1 else 0
  {
    RemoveFirstCount(s, x);
  }

  /** What is removed is the first occurrence: everything before it stays
      in front, everything after it stays behind. */
  lemma {:induction false} RemoveFirstAt<N>(s: seq<N>, x: N, i: int)
    requires 0 <= i < |s| && s[i] == x && x !in s[..i]
    ensures RemoveFirst(s, x) == s[..i] + s[i + 1..]
  {
    if i > 0 {
      assert s[0] in s[..i];
      var t := s[1..];
      assert t[..i - 1] == s[1..i];
      RemoveFirstAt(t, x, i - 1);
      assert s[..i] == [s[0]] + t[..i - 1];
      assert s[i + 1..] == t[i..];
    }
  }

  /** The adjacency list after `add_node`: an absent city is added with no
      routes; a present one is left alone. */
  function WithNode<N>(adj: map<N, seq<N>>, n: N): (r: map<N, seq<N>>)
    ensures r.Keys == adj.Keys + {n}
    ensures forall x :: x in adj ==> r[x] == adj[x]
    ensures n !in adj ==> r[n] == []
  {
    if n in adj then adj else adj[n := []]
  }

  /** The adjacency list after `add_edge`: when both cities are present each
      gains the other at the end of its list (a city joined to itself gains
      itself twice); otherwise nothing changes. */
  function WithEdge<N>(adj: map<N, seq<N>>, a: N, b: N): (r: map<N, seq<N>>)
    ensures r.Keys == adj.Keys
    ensures forall x :: x in adj ==> adj[x] <= r[x]
    ensures forall x :: x in adj && x != a && x != b ==> r[x] == adj[x]
    ensures a in adj && b in adj ==> b in r[a] && a in r[b]
    ensures a !in adj || b !in adj ==> r == adj
  {
    if a in adj && b in adj then
      map x | x in adj :: adj[x] + (if x == a then [b] else []) + (if x == b then [a] else [])
    else
      adj
  }

  /** The adjacency list after `remove_edge`: when both cities are present
      each loses its first listing of the other (a city joined to itself
      loses up to two listings of itself); otherwise nothing changes. */
  function WithoutEdge<N>(adj: map<N, seq<N>>, a: N, b: N): (r: map<N, seq<N>>)
    ensures r.Keys == adj.Keys
    ensures forall x :: x in adj && x != a && x != b ==> r[x] == adj[x]
    ensures a in adj && b in adj && a != b ==>
      |r[a]| == |adj[a]| - (if b in adj[a] then 1 else 0) && |r[b]| == |adj[b]| - (if a in adj[b] then 1 else 0)
    ensures a !in adj || b !in adj ==> r == adj
  {
    if a in adj && b in adj then
      map x | x in adj ::
        if x == a && x == b then RemoveFirst(RemoveFirst(adj[x], b), a)
        else if x == a then RemoveFirst(adj[x], b)
        else if x == b then RemoveFirst(adj[x], a)
        else adj[x]
    else
      adj
  }

  /** Adding a city keeps the adjacency list well formed, adds exactly
      that city and leaves every existing list alone. */
  lemma WithNodeKeepsValid<N>(adj: map<N, seq<N>>, n: N)
    requires ValidMap(adj)
    ensures ValidMap(WithNode(adj, n))
    ensures WithNode(adj, n).Keys == adj.Keys + {n}
    ensures forall x :: x in adj ==> WithNode(adj, n)[x] == adj[x]
    ensures n !in adj ==> WithNode(adj, n)[n] == []
  {
    if n !in adj {
      var adj' := adj[n := []];
      forall x, y | x in adj' && y in adj' && x != y
        ensures multiset(adj'[x])[y] == multiset(adj'[y])[x]
      {
        if x == n {
          assert n !in adj[y];
        } else if y == n {
          assert n !in adj[x];
        }
      }
    }
  }

  /** How often x lists y after `add_edge(a, b)`. */
  lemma WithEdgeCount<N>(adj: map<N, seq<N>>, a: N, b: N, x: N, y: N)
    requires a in adj && b in adj && x in adj
    ensures multiset(WithEdge(adj, a, b)[x])[y] ==
      multiset(adj[x])[y] + (if x == a && y == b then 1 else 0) + (if x == b && y == a then 1 else 0)
  {
    assert WithEdge(adj, a, b)[x] == adj[x] + (if x == a then [b] else []) + (if x == b then [a] else []);
  }

  /** How often x lists y after `remove_edge(a, b)`: one listing fewer
      per direction, never below zero. */
  lemma WithoutEdgeCount<N>(adj: map<N, seq<N>>, a: N, b: N, x: N, y: N)
    requires a in adj && b in adj && x in adj
    ensures multiset(WithoutEdge(adj, a, b)[x])[y] ==
      if x == a && x == b && y == a then (if multiset(adj[x])[y] >= 2 then multiset(adj[x])[y] - 2 else 0)
      else if (x == a && y == b) || (x == b && y == a) then (if multiset(adj[x])[y] >= 1 then multiset(adj[x])[y] - 1 else 0)
      else multiset(adj[x])[y]
  {
    var r := WithoutEdge(adj, a, b)[x];
    if x == a && x == b {
      var once := RemoveFirst(adj[x], b);
      assert r == RemoveFirst(once, a);
      RemoveFirstCountOf(adj[x], b, y);
      RemoveFirstCountOf(once, a, y);
    } else if x == a {
      assert r == RemoveFirst(adj[x], b);
      RemoveFirstCountOf(adj[x], b, y);
    } else if x == b {
      assert r == RemoveFirst(adj[x], a);
      RemoveFirstCountOf(adj[x], a, y);
    } else {
      assert r == adj[x];
    }
  }

  /** Adding a route keeps the adjacency list well formed. */
  lemma WithEdgeKeepsValid<N>(adj: map<N, seq<N>>, a: N, b: N)
    requires ValidMap(adj)
    ensures ValidMap(WithEdge(adj, a, b))
    ensures WithEdge(adj, a, b).Keys == adj.Keys
  {
    if a in adj && b in adj {
      WithEdgeSymmetric(adj, a, b);
      WithEdgeEvenLoops(adj, a, b);
      WithEdgeClosed(adj, a, b);
    }
  }

  lemma WithEdgeSymmetric<N>(adj: map<N, seq<N>>, a: N, b: N)
    requires a in adj && b in adj && Symmetric(adj)
    ensures Symmetric(WithEdge(adj, a, b))
  {
    var adj' := WithEdge(adj, a, b);
    forall x, y | x in adj' && y in adj' && x != y
      ensures multiset(adj'[x])[y] == multiset(adj'[y])[x]
    {
      WithEdgeCount(adj, a, b, x, y);
      WithEdgeCount(adj, a, b, y, x);
    }
  }

  lemma WithEdgeEvenLoops<N>(adj: map<N, seq<N>>, a: N, b: N)
    requires a in adj && b in adj && EvenLoops(adj)
    ensures EvenLoops(WithEdge(adj, a, b))
  {
    var adj' := WithEdge(adj, a, b);
    forall x | x in adj' ensures multiset(adj'[x])[x] % 2 == 0 {
      WithEdgeLoopAt(adj, a, b, x);
    }
  }

  lemma WithEdgeLoopAt<N>(adj: map<N, seq<N>>, a: N, b: N, x: N)
    requires a in adj && b in adj && x in adj && multiset(adj[x])[x] % 2 == 0
    ensures multiset(WithEdge(adj, a, b)[x])[x] % 2 == 0
  {
    WithEdgeCount(adj, a, b, x, x);
    if x == a && x == b {
      EvenPlusTwo(multiset(adj[x])[x]);
    }
  }

  lemma WithEdgeClosed<N>(adj: map<N, seq<N>>, a: N, b: N)
    requires a in adj && b in adj && Closed(adj)
    ensures Closed(WithEdge(adj, a, b))
  {
    var adj' := WithEdge(adj, a, b);
    forall x, y | x in adj' && y in adj'[x] ensures y in adj' {
      WithEdgeCount(adj, a, b, x, y);
      assert y in multiset(adj'[x]);
    }
  }

  /** Removing a route keeps the adjacency list well formed. */
  lemma WithoutEdgeKeepsValid<N>(adj: map<N, seq<N>>, a: N, b: N)
    requires ValidMap(adj)
    ensures ValidMap(WithoutEdge(adj, a, b))
    ensures WithoutEdge(adj, a, b).Keys == adj.Keys
  {
    if a in adj && b in adj {
      WithoutEdgeSymmetric(adj, a, b);
      WithoutEdgeEvenLoops(adj, a, b);
      WithoutEdgeClosed(adj, a, b);
    }
  }

  lemma WithoutEdgeSymmetric<N>(adj: map<N, seq<N>>, a: N, b: N)
    requires a in adj && b in adj && Symmetric(adj)
    ensures Symmetric(WithoutEdge(adj, a, b))
  {
    var adj' := WithoutEdge(adj, a, b);
    forall x, y | x in adj' && y in adj' && x != y
      ensures multiset(adj'[x])[y] == multiset(adj'[y])[x]
    {
      WithoutEdgeCount(adj, a, b, x, y);
      WithoutEdgeCount(adj, a, b, y, x);
    }
  }

  lemma WithoutEdgeEvenLoops<N>(adj: map<N, seq<N>>, a: N, b: N)
    requires a in adj && b in adj && EvenLoops(adj)
    ensures EvenLoops(WithoutEdge(adj, a, b))
  {
    var adj' := WithoutEdge(adj, a, b);
    forall x | x in adj' ensures multiset(adj'[x])[x] % 2 == 0 {
      WithoutEdgeLoopAt(adj, a, b, x);
    }
  }

  lemma WithoutEdgeLoopAt<N>(adj: map<N, seq<N>>, a: N, b: N, x: N)
    requires a in adj && b in adj && x in adj && multiset(adj[x])[x] % 2 == 0
    ensures multiset(WithoutEdge(adj, a, b)[x])[x] % 2 == 0
  {
    WithoutEdgeCount(adj, a, b, x, x);
    if x == a && x == b && multiset(adj[x])[x] >= 2 {
      EvenPlusTwo(multiset(adj[x])[x] - 2);
    }
  }

  /** Parity is kept by adding or removing the two listings of a self-route. */
  lemma EvenPlusTwo(c: int)
    ensures c % 2 == 0 <==> (c + 2) % 2 == 0
  {
  }

  lemma WithoutEdgeClosed<N>(adj: map<N, seq<N>>, a: N, b: N)
    requires a in adj && b in adj && Closed(adj)
    ensures Closed(WithoutEdge(adj, a, b))
  {
    var adj' := WithoutEdge(adj, a, b);
    forall x, y | x in adj' && y in adj'[x] ensures y in adj' {
      WithoutEdgeCount(adj, a, b, x, y);
      assert y in multiset(adj'[x]);
      assert y in multiset(adj[x]);
    }
  }

  /** `remove_edge` undoes `add_edge`: every city ends up with the same
      neighbours, as often as before (though not necessarily in the same
      order, since the removal takes the first listing). */
  lemma RemoveEdgeUndoesAddEdge<N>(adj: map<N, seq<N>>, a: N, b: N)
    requires a in adj && b in adj
    ensures WithoutEdge(WithEdge(adj, a, b), a, b).Keys == adj.Keys
    ensures forall x :: x in adj ==> multiset(WithoutEdge(WithEdge(adj, a, b), a, b)[x]) == multiset(adj[x])
  {
    forall x | x in adj ensures multiset(WithoutEdge(WithEdge(adj, a, b), a, b)[x]) == multiset(adj[x]) {
      RemoveEdgeUndoesAddEdgeAt(adj, a, b, x);
    }
  }

  lemma RemoveEdgeUndoesAddEdgeAt<N>(adj: map<N, seq<N>>, a: N, b: N, x: N)
    requires a in adj && b in adj && x in adj
    ensures multiset(WithoutEdge(WithEdge(adj, a, b), a, b)[x]) == multiset(adj[x])
  {
    var added := WithEdge(adj, a, b);
    var s := adj[x];
    assert added.Keys == adj.Keys;
    var back := WithoutEdge(added, a, b)[x];
    if x == a && x == b {
      assert added[x] == (s + [a]) + [a];
      assert back == RemoveFirst(RemoveFirst((s + [a]) + [a], a), a);
      RemoveAppended(s + [a], a);
      RemoveAppended(s, a);
    } else if x == a {
      assert added[x] == s + [b];
      assert back == RemoveFirst(s + [b], b);
      RemoveAppended(s, b);
    } else if x == b {
      assert added[x] == s + [a];
      assert back == RemoveFirst(s + [a], a);
      RemoveAppended(s, a);
    } else {
      assert back == added[x] == s;
    }
  }

  /** Removing the first listing of y from a list that ends in y gives
      back the listings of the list without that last y. */
  lemma RemoveAppended<N>(s: seq<N>, y: N)
    ensures multiset(RemoveFirst(s + [y], y)) == multiset(s)
    ensures forall t :: multiset(t) == multiset(s + [y]) ==> multiset(RemoveFirst(t, y)) == multiset(s)
  {
    var m := multiset(s + [y]);
    assert m == multiset(s) + multiset{y};
    assert m - multiset{y} == multiset(s);
    forall t | multiset(t) == m ensures multiset(RemoveFirst(t, y)) == multiset(s) {
      RemoveFirstCount(t, y);
    }
  }

  /** `add_edge` as the two appends the method performs. */
  lemma WithEdgeAsUpdates<N>(adj: map<N, seq<N>>, a: N, b: N)
    requires a in adj && b in adj
    ensures var m := adj[a := adj[a] + [b]]; WithEdge(adj, a, b) == m[b := m[b] + [a]]
  {
    var m := adj[a := adj[a] + [b]];
    var m' := m[b := m[b] + [a]];
    var w := WithEdge(adj, a, b);
    assert w.Keys == m'.Keys;
    forall x | x in w ensures w[x] == m'[x] {
      assert w[x] == adj[x] + (if x == a then [b] else []) + (if x == b then [a] else []);
      if x == a && x == b {
        assert m'[x] == adj[x] + [b] + [a];
      }
    }
  }

  /** `remove_edge` as the two removals the method performs. */
  lemma WithoutEdgeAsUpdates<N>(adj: map<N, seq<N>>, a: N, b: N)
    requires a in adj && b in adj
    ensures var m := adj[a := RemoveFirst(adj[a], b)]; WithoutEdge(adj, a, b) == m[b := RemoveFirst(m[b], a)]
  {
    var m := adj[a := RemoveFirst(adj[a], b)];
    var m' := m[b := RemoveFirst(m[b], a)];
    var w := WithoutEdge(adj, a, b);
    assert w.Keys == m'.Keys;
    forall x | x in w ensures w[x] == m'[x] {
    }
  }

  /** A walk through the map: consecutive cities are joined by a route. */
  predicate IsWalk<N>(adj: map<N, seq<N>>, p: seq<N>) {
    && |p| > 0
    && (forall i :: 0 <= i < |p| ==> p[i] in adj)
    && (forall i :: 0 < i < |p| ==> p[i] in adj[p[i - 1]])
  }

  predicate WalkFromTo<N>(adj: map<N, seq<N>>, p: seq<N>, s: N, t: N) {
    IsWalk(adj, p) && p[0] == s && p[|p| - 1] == t
  }

  /** A walk can be cut after any of its cities. */
  lemma WalkPrefix<N>(adj: map<N, seq<N>>, p: seq<N>, s: N, t: N, k: int)
    requires WalkFromTo(adj, p, s, t) && 0 < k <= |p|
    ensures WalkFromTo(adj, p[..k], s, p[k - 1])
  {
  }

  /** A walk can be extended along a route to a city of the map. */
  lemma WalkExtend<N>(adj: map<N, seq<N>>, p: seq<N>, s: N, t: N, w: N)
    requires WalkFromTo(adj, p, s, t) && w in adj && w in adj[t]
    ensures WalkFromTo(adj, p + [w], s, w)
  {
  }

  /** From a city of the map to itself, the one-city walk is the only
      walk of at most one city. */
  lemma StayingPut<N>(adj: map<N, seq<N>>, x: N)
    requires x in adj
    ensures WalkFromTo(adj, [x], x, x)
    ensures forall p :: WalkFromTo(adj, p, x, x) && |p| <= 1 ==> p == [x]
  {
    forall p | WalkFromTo(adj, p, x, x) && |p| <= 1 ensures p == [x] {
      assert |p| == 1 && p[0] == x;
    }
  }

  /** A walk that starts inside a set of cities and ends outside it leaves
      the set along some route. */
  lemma {:induction false} FirstOutside<N>(p: seq<N>, inside: set<N>) returns (k: int)
    requires |p| > 0 && p[0] in inside && p[|p| - 1] !in inside
    ensures 0 < k < |p| && p[k - 1] in inside && p[k] !in inside
    decreases |p|
  {
    if p[1] in inside {
      k := FirstOutside(p[1..], inside);
      k := k + 1;
    } else {
      k := 1;
    }
  }

  /** The queue entries the inner loop of `shortest_path` appends for the
      neighbours ns of the city reached by path: one per neighbour not yet
      visited, in list order, each carrying the path extended by it. */
  function Expand<N(==)>(ns: seq<N>, visited: set<N>, path: seq<N>): seq<(N, seq<N>)>
    decreases |ns|
  {
    if ns == [] then
      []
    else
      var last := ns[|ns| - 1];
      Expand(ns[..|ns| - 1], visited, path) + (if last in visited then [] else [(last, path + [last])])
  }

  /** The appended entries are exactly the unvisited neighbours, each with
      the path extended by it. */
  lemma {:induction false} ExpandSpec<N>(ns: seq<N>, visited: set<N>, path: seq<N>)
    ensures forall i :: 0 <= i < |Expand(ns, visited, path)| ==>
      var e := Expand(ns, visited, path)[i]; e.0 in ns && e.0 !in visited && e.1 == path + [e.0]
    ensures forall n :: n in ns && n !in visited ==>
      exists i :: 0 <= i < |Expand(ns, visited, path)| && Expand(ns, visited, path)[i].0 == n
    decreases |ns|
  {
    if ns != [] {
      var init, last := ns[..|ns| - 1], ns[|ns| - 1];
      ExpandSpec(init, visited, path);
      var r, r0 := Expand(ns, visited, path), Expand(init, visited, path);
      assert r == r0 + (if last in visited then [] else [(last, path + [last])]);
      forall i | 0 <= i < |r| ensures r[i].0 in ns && r[i].0 !in visited && r[i].1 == path + [r[i].0] {
        if i < |r0| {
          assert r[i] == r0[i];
          assert r0[i].0 in init;
        }
      }
      forall n | n in ns && n !in visited ensures exists i :: 0 <= i < |r| && r[i].0 == n {
        if n == last {
          assert r[|r0|].0 == n;
        } else {
          assert n in init by {
            var j :| 0 <= j < |ns| && ns[j] == n;
            assert init[j] == n;
          }
          var i :| 0 <= i < |r0| && r0[i].0 == n;
          assert r[i] == r0[i];
        }
      }
    }
  }

  /** The inner loop of `shortest_path`: appends an entry for each
      neighbour not yet visited. */
  method AppendUnvisited<N(==)>(queue: seq<(N, seq<N>)>, neighbours: seq<N>, visited: set<N>, path: seq<N>)
    returns (r: seq<(N, seq<N>)>)
    ensures r == queue + Expand(neighbours, visited, path)
  {
    r := queue;
    for j := 0 to |neighbours|
      invariant r == queue + Expand(neighbours[..j], visited, path)
    {
      var neighbour := neighbours[j];
      assert neighbours[..j + 1][..j] == neighbours[..j];
      if neighbour !in visited {
        r := r + [(neighbour, path + [neighbour])];
      }
    }
    assert neighbours[..|neighbours|] == neighbours;
  }

  /** The queue holds walks from the start to the city of each entry. */
  predicate QueueWalks<N>(adj: map<N, seq<N>>, start: N, queue: seq<(N, seq<N>)>) {
    forall i :: 0 <= i < |queue| ==> WalkFromTo(adj, queue[i].1, start, queue[i].0)
  }

  /** Path lengths along the queue never decrease and differ by at most one. */
  predicate QueueLayered<N>(queue: seq<(N, seq<N>)>) {
    forall i, j :: 0 <= i <= j < |queue| ==> |queue[i].1| <= |queue[j].1| <= |queue[i].1| + 1
  }

  /** Each visited city was reached by a path no longer than any walk to it. */
  ghost predicate LevelsMinimal<N(!new)>(adj: map<N, seq<N>>, start: N, level: map<N, nat>) {
    forall u, p :: u in level && WalkFromTo(adj, p, start, u) ==> level[u] <= |p|
  }

  /** Every unvisited neighbour of a visited city is waiting in the queue
      with a path at most one longer than the one that reached that city. */
  predicate Frontier<N>(adj: map<N, seq<N>>, queue: seq<(N, seq<N>)>, level: map<N, nat>) {
    forall u, w :: u in level && u in adj && w in adj[u] && w !in level ==>
      exists i :: 0 <= i < |queue| && queue[i].0 == w && |queue[i].1| <= level[u] + 1
  }

  /** The state of `shortest_path` at the head of its loop. `level` records,
      for each visited city, the length of the path it was visited with. */
  ghost predicate BfsInv<N(!new)>(adj: map<N, seq<N>>, start: N, end: N, queue: seq<(N, seq<N>)>, visited: set<N>, level: map<N, nat>) {
    && Closed(adj) && start in adj && end in adj
    && visited == level.Keys && visited <= adj.Keys && end !in visited
    && (start in visited || queue == [(start, [start])])
    && QueueWalks(adj, start, queue)
    && QueueLayered(queue)
    && LevelsMinimal(adj, start, level)
    && Frontier(adj, queue, level)
  }

  lemma BfsInit<N(!new)>(adj: map<N, seq<N>>, start: N, end: N)
    requires Closed(adj) && start in adj && end in adj
    ensures BfsInv(adj, start, end, [(start, [start])], {}, map[])
  {
  }

  /** The heart of breadth-first search: no walk reaches an unvisited city
      with fewer cities than the path at the front of the queue. */
  lemma BfsFrontIsShortest<N(!new)>(adj: map<N, seq<N>>, start: N, end: N, queue: seq<(N, seq<N>)>, visited: set<N>, level: map<N, nat>, v: N, p: seq<N>)
    requires BfsInv(adj, start, end, queue, visited, level) && |queue| > 0
    requires v !in visited && WalkFromTo(adj, p, start, v)
    ensures |queue[0].1| <= |p|
  {
    if start in visited {
      var k := FirstOutside(p, visited);
      var u, w := p[k - 1], p[k];
      WalkPrefix(adj, p, start, v, k);
      assert level[u] <= k;
      assert w in adj[u];
      var i :| 0 <= i < |queue| && queue[i].0 == w && |queue[i].1| <= level[u] + 1;
      assert |queue[0].1| <= |queue[i].1|;
    }
  }

  /** Popping an entry whose city is already visited keeps the invariant. */
  lemma BfsSkip<N(!new)>(adj: map<N, seq<N>>, start: N, end: N, queue: seq<(N, seq<N>)>, visited: set<N>, level: map<N, nat>)
    requires BfsInv(adj, start, end, queue, visited, level) && |queue| > 0 && queue[0].0 in visited
    ensures BfsInv(adj, start, end, queue[1..], visited, level)
  {
    var q := queue[1..];
    forall u, w | u in level && u in adj && w in adj[u] && w !in level
      ensures exists i :: 0 <= i < |q| && q[i].0 == w && |q[i].1| <= level[u] + 1
    {
      var i :| 0 <= i < |queue| && queue[i].0 == w && |queue[i].1| <= level[u] + 1;
      assert q[i - 1] == queue[i];
    }
  }

  /** Visiting a new city leaves fewer cities unvisited. */
  lemma VisitShrinks<N>(cities: set<N>, visited: set<N>, c: N)
    requires c in cities && c !in visited
    ensures |cities - (visited + {c})| < |cities - visited|
  {
    assert cities - visited == (cities - (visited + {c})) + {c};
  }

  /** Visiting the city at the front of the queue and appending its
      unvisited neighbours keeps the invariant. */
  lemma BfsVisit<N(!new)>(adj: map<N, seq<N>>, start: N, end: N, queue: seq<(N, seq<N>)>, visited: set<N>, level: map<N, nat>)
    requires BfsInv(adj, start, end, queue, visited, level) && |queue| > 0
    requires queue[0].0 !in visited && queue[0].0 != end
    ensures var c := queue[0].0;
      BfsInv(adj, start, end, queue[1..] + Expand(adj[c], visited + {c}, queue[0].1), visited + {c}, level[c := |queue[0].1|])
  {
    var c, path := queue[0].0, queue[0].1;
    assert c in adj;
    var visited', level' := visited + {c}, level[c := |path|];
    var e := Expand(adj[c], visited', path);
    ExpandSpec(adj[c], visited', path);
    BfsVisitWalks(adj, start, queue, c, path, visited', e);
    BfsVisitLayered(queue, path, e);
    BfsVisitLevels(adj, start, end, queue, visited, level);
    BfsVisitFrontier(adj, queue, level, c, path, e);
  }

  lemma BfsVisitWalks<N>(adj: map<N, seq<N>>, start: N, queue: seq<(N, seq<N>)>, c: N, path: seq<N>, visited: set<N>, e: seq<(N, seq<N>)>)
    requires Closed(adj) && QueueWalks(adj, start, queue) && |queue| > 0 && queue[0] == (c, path)
    requires forall i :: 0 <= i < |e| ==> e[i].0 in adj[c] && e[i].1 == path + [e[i].0]
    ensures QueueWalks(adj, start, queue[1..] + e)
  {
    var q := queue[1..] + e;
    forall i | 0 <= i < |q| ensures WalkFromTo(adj, q[i].1, start, q[i].0) {
      if i < |queue| - 1 {
        assert q[i] == queue[i + 1];
      } else {
        var w := e[i - (|queue| - 1)].0;
        assert q[i] == (w, path + [w]);
        WalkExtend(adj, path, start, c, w);
      }
    }
  }

  lemma BfsVisitLayered<N>(queue: seq<(N, seq<N>)>, path: seq<N>, e: seq<(N, seq<N>)>)
    requires QueueLayered(queue) && |queue| > 0 && queue[0].1 == path
    requires forall i :: 0 <= i < |e| ==> |e[i].1| == |path| + 1
    ensures QueueLayered(queue[1..] + e)
  {
    var q := queue[1..] + e;
    forall i, j | 0 <= i <= j < |q| ensures |q[i].1| <= |q[j].1| <= |q[i].1| + 1 {
      if j < |queue| - 1 {
        assert q[i] == queue[i + 1] && q[j] == queue[j + 1];
      } else if i < |queue| - 1 {
        assert q[i] == queue[i + 1];
        assert |queue[0].1| <= |queue[i + 1].1| <= |queue[0].1| + 1;
        assert q[j] == e[j - (|queue| - 1)];
      } else {
        assert q[i] == e[i - (|queue| - 1)] && q[j] == e[j - (|queue| - 1)];
      }
    }
  }

  lemma BfsVisitLevels<N(!new)>(adj: map<N, seq<N>>, start: N, end: N, queue: seq<(N, seq<N>)>, visited: set<N>, level: map<N, nat>)
    requires BfsInv(adj, start, end, queue, visited, level) && |queue| > 0 && queue[0].0 !in visited
    ensures LevelsMinimal(adj, start, level[queue[0].0 := |queue[0].1|])
  {
    var c := queue[0].0;
    var level' := level[c := |queue[0].1|];
    forall u, p | u in level' && WalkFromTo(adj, p, start, u) ensures level'[u] <= |p| {
      if u == c {
        BfsFrontIsShortest(adj, start, end, queue, visited, level, c, p);
      }
    }
  }

  lemma BfsVisitFrontier<N>(adj: map<N, seq<N>>, queue: seq<(N, seq<N>)>, level: map<N, nat>, c: N, path: seq<N>, e: seq<(N, seq<N>)>)
    requires Frontier(adj, queue, level) && |queue| > 0 && queue[0] == (c, path)
    requires c in adj && e == Expand(adj[c], level.Keys + {c}, path)
    ensures Frontier(adj, queue[1..] + e, level[c := |path|])
  {
    var q := queue[1..] + e;
    var level' := level[c := |path|];
    ExpandSpec(adj[c], level.Keys + {c}, path);
    forall u, w | u in level' && u in adj && w in adj[u] && w !in level'
      ensures exists i :: 0 <= i < |q| && q[i].0 == w && |q[i].1| <= level'[u] + 1
    {
      if u == c {
        var k :| 0 <= k < |e| && e[k].0 == w;
        assert q[|queue| - 1 + k] == e[k];
      } else {
        var i :| 0 <= i < |queue| && queue[i].0 == w && |queue[i].1| <= level[u] + 1;
        assert q[i - 1] == queue[i];
      }
    }
  }

  /** The front entry, when it reaches the destination, is a shortest walk. */
  lemma BfsFoundEnd<N(!new)>(adj: map<N, seq<N>>, start: N, end: N, queue: seq<(N, seq<N>)>, visited: set<N>, level: map<N, nat>)
    requires BfsInv(adj, start, end, queue, visited, level) && |queue| > 0 && queue[0].0 == end
    ensures WalkFromTo(adj, queue[0].1, start, end)
    ensures forall p :: WalkFromTo(adj, p, start, end) ==> |queue[0].1| <= |p|
  {
    forall p | WalkFromTo(adj, p, start, end) ensures |queue[0].1| <= |p| {
      BfsFrontIsShortest(adj, start, end, queue, visited, level, end, p);
    }
  }

  /** When the queue runs dry no walk reaches the destination. */
  lemma BfsExhausted<N(!new)>(adj: map<N, seq<N>>, start: N, end: N, visited: set<N>, level: map<N, nat>)
    requires BfsInv(adj, start, end, [], visited, level)
    ensures forall p :: !WalkFromTo(adj, p, start, end)
  {
    forall p | WalkFromTo(adj, p, start, end) ensures false {
      var k := FirstOutside(p, visited);
    }
  }

  class Graph<N(==,!new)> {
    var adjacencyList: map<N, seq<N>>

    /** `__init__`: a map with no cities. */
    constructor()
      ensures adjacencyList == map[]
    {
      adjacencyList := map[];
    }

    predicate Valid()
      reads this
    {
      ValidMap(adjacencyList)
    }

    /** `add_node`. */
    method AddNode(node: N)
      modifies this
      ensures adjacencyList == WithNode(old(adjacencyList), node)
      ensures old(Valid()) ==> Valid()
    {
      if node !in adjacencyList {
        adjacencyList := adjacencyList[node := []];
      }
      if old(Valid()) {
        WithNodeKeepsValid(old(adjacencyList), node);
      }
    }

    /** `add_edge`: two appends, one per direction. */
    method AddEdge(node1: N, node2: N)
      modifies this
      ensures adjacencyList == WithEdge(old(adjacencyList), node1, node2)
      ensures old(Valid()) ==> Valid()
    {
      if node1 in adjacencyList && node2 in adjacencyList {
        WithEdgeAsUpdates(adjacencyList, node1, node2);
        adjacencyList := adjacencyList[node1 := adjacencyList[node1] + [node2]];
        adjacencyList := adjacencyList[node2 := adjacencyList[node2] + [node1]];
      }
      if old(Valid()) {
        WithEdgeKeepsValid(old(adjacencyList), node1, node2);
      }
    }

    /** `remove_edge`: two guarded removals, one per direction. */
    method RemoveEdge(node1: N, node2: N)
      modifies this
      ensures adjacencyList == WithoutEdge(old(adjacencyList), node1, node2)
      ensures old(Valid()) ==> Valid()
    {
      if node1 in adjacencyList && node2 in adjacencyList {
        WithoutEdgeAsUpdates(adjacencyList, node1, node2);
        if node2 in adjacencyList[node1] {
          adjacencyList := adjacencyList[node1 := RemoveFirst(adjacencyList[node1], node2)];
        } else {
          assert adjacencyList == adjacencyList[node1 := RemoveFirst(adjacencyList[node1], node2)];
        }
        if node1 in adjacencyList[node2] {
          adjacencyList := adjacencyList[node2 := RemoveFirst(adjacencyList[node2], node1)];
        } else {
          assert adjacencyList == adjacencyList[node2 := RemoveFirst(adjacencyList[node2], node1)];
        }
      }
      if old(Valid()) {
        WithoutEdgeKeepsValid(old(adjacencyList), node1, node2);
      }
    }

    /** `shortest_path`: breadth-first search from startNode, returning the
        first path that reaches endNode. The path it returns is a walk with
        the fewest cities; no path is returned exactly when no walk exists. */
    method ShortestPath(startNode: N, endNode: N) returns (r: Option<seq<N>>)
      requires Closed(adjacencyList)
      ensures startNode !in adjacencyList || endNode !in adjacencyList ==> r.None?
      ensures r.Some? ==> WalkFromTo(adjacencyList, r.value, startNode, endNode)
      ensures r.Some? ==> forall p :: WalkFromTo(adjacencyList, p, startNode, endNode) ==> |r.value| <= |p|
      ensures r.None? ==> forall p :: !WalkFromTo(adjacencyList, p, startNode, endNode)
      ensures startNode == endNode && startNode in adjacencyList ==> r == Some([startNode])
    {
      if startNode == endNode && startNode in adjacencyList {
        StayingPut(adjacencyList, startNode);
      }
      if startNode !in adjacencyList || endNode !in adjacencyList {
        return None;
      }
      var queue := [(startNode, [startNode])];
      var visited: set<N> := {};
      ghost var level: map<N, nat> := map[];
      BfsInit(adjacencyList, startNode, endNode);
      while queue != []
        invariant BfsInv(adjacencyList, startNode, endNode, queue, visited, level)
        decreases |adjacencyList.Keys - visited|, |queue|
      {
        var current, path := queue[0].0, queue[0].1;
        if current == endNode {
          BfsFoundEnd(adjacencyList, startNode, endNode, queue, visited, level);
          return Some(path);
        }
        if current !in visited {
          BfsVisit(adjacencyList, startNode, endNode, queue, visited, level);
          VisitShrinks(adjacencyList.Keys, visited, current);
          var rest := queue[1..];
          visited := visited + {current};
          level := level[current := |path|];
          queue := AppendUnvisited(rest, adjacencyList[current], visited, path);
        } else {
          BfsSkip(adjacencyList, startNode, endNode, queue, visited, level);
          queue := queue[1..];
        }
      }
      BfsExhausted(adjacencyList, startNode, endNode, visited, level);
      return None;
    }
  }
}
