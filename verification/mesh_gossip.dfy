/**
 * The mesh demo: nodes that know their peers and remember the events they
 * have seen, and the TTL-limited gossip that spreads an event from one
 * node by depth-first recursion, stopping at nodes that already hold it.
 *
 * `Gossip` is the value-level meaning of the recursive `propagate` over an
 * adjacency map; `Propagate` on `SimpleNode` objects is proved to change
 * the heap exactly as `Gossip` says. `Within` (nodes at most k hops away)
 * is the reference the gossip is measured against: it never goes further
 * than TTL hops, but it can miss nodes that are within TTL hops, because a
 * node first reached along a long path is not forwarded again when it is
 * later reached along a shorter one. `Flood` is the breadth-first spread
 * that reaches exactly the nodes within TTL hops.
 */
module MeshGossip {

  // ---------------------------------------------------------------------------
  // Hop distance
  // ---------------------------------------------------------------------------

  /** Number of hops a TTL allows: the peers are visited only while `ttl > 0`. */
  function Hops(ttl: int): nat
  {
    if ttl > 0 then ttl else 0
  }

  /** All peers of the nodes in `s`. */
  function Neighbours<T>(adj: map<T, seq<T>>, s: set<T>): (r: set<T>)
    ensures forall m, n :: m in s && m in adj && n in adj[m] ==> n in r
  {
    set m, n | m in s && m in adj && n in adj[m] :: n
  }

  /** The nodes at most `k` hops from `start`. */
  function Within<T>(adj: map<T, seq<T>>, start: T, k: nat): (r: set<T>)
    ensures start in r
  {
    if k == 0 then {start}
    else
      var w := Within(adj, start, k - 1);
      w + Neighbours(adj, w)
  }

  /** A walk: consecutive nodes are peers. */
  ghost predicate IsWalk<T>(adj: map<T, seq<T>>, walk: seq<T>)
  {
    |walk| >= 1 && forall i :: 0 <= i < |walk| - 1 ==> walk[i] in adj && walk[i + 1] in adj[walk[i]]
  }

  ghost predicate WalkReaches<T(!new)>(adj: map<T, seq<T>>, start: T, n: T, k: nat)
  {
    exists walk :: IsWalk(adj, walk) && walk[0] == start && walk[|walk| - 1] == n && |walk| <= k + 1
  }

  /** `Within` is exactly the set of nodes reachable by a walk of at most `k` hops. */
  lemma WithinIffWalk<T(!new)>(adj: map<T, seq<T>>, start: T, k: nat, n: T)
    ensures n in Within(adj, start, k) <==> WalkReaches(adj, start, n, k)
  {
    if n in Within(adj, start, k) {
      WithinHasWalk(adj, start, k, n);
    }
    if WalkReaches(adj, start, n, k) {
      var walk :| IsWalk(adj, walk) && walk[0] == start && walk[|walk| - 1] == n && |walk| <= k + 1;
      WalkEndsWithin(adj, walk, k);
    }
  }

  lemma {:induction false} WithinHasWalk<T(!new)>(adj: map<T, seq<T>>, start: T, k: nat, n: T)
    requires n in Within(adj, start, k)
    ensures WalkReaches(adj, start, n, k)
  {
    if k == 0 {
      assert IsWalk(adj, [start]);
    } else {
      var w := Within(adj, start, k - 1);
      if n in w {
        WithinHasWalk(adj, start, k - 1, n);
        var walk :| IsWalk(adj, walk) && walk[0] == start && walk[|walk| - 1] == n && |walk| <= k;
        assert |walk| <= k + 1;
      } else {
        var m :| m in w && m in adj && n in adj[m];
        WithinHasWalk(adj, start, k - 1, m);
        var walk :| IsWalk(adj, walk) && walk[0] == start && walk[|walk| - 1] == m && |walk| <= k;
        var longer := walk + [n];
        assert IsWalk(adj, longer) by {
          forall i | 0 <= i < |longer| - 1
            ensures longer[i] in adj && longer[i + 1] in adj[longer[i]]
          {
            if i < |walk| - 1 {
              assert longer[i] == walk[i] && longer[i + 1] == walk[i + 1];
            }
          }
        }
        assert longer[0] == start && longer[|longer| - 1] == n;
      }
    }
  }

  lemma {:induction false} WalkEndsWithin<T>(adj: map<T, seq<T>>, walk: seq<T>, k: nat)
    requires IsWalk(adj, walk) && |walk| <= k + 1
    ensures walk[|walk| - 1] in Within(adj, walk[0], k)
  {
    if |walk| == 1 {
      WithinGrows(adj, walk[0], 0, k);
    } else {
      var front := walk[..|walk| - 1];
      assert IsWalk(adj, front) by {
        forall i | 0 <= i < |front| - 1
          ensures front[i] in adj && front[i + 1] in adj[front[i]]
        {
          assert front[i] == walk[i] && front[i + 1] == walk[i + 1];
        }
      }
      WalkEndsWithin(adj, front, k - 1);
      var m := walk[|walk| - 2];
      assert m == front[|front| - 1];
      assert m in adj && walk[|walk| - 1] in adj[m];
    }
  }

  lemma {:induction false} WithinGrows<T>(adj: map<T, seq<T>>, start: T, j: nat, k: nat)
    requires j <= k
    ensures Within(adj, start, j) <= Within(adj, start, k)
  {
    if j < k {
      WithinGrows(adj, start, j, k - 1);
    }
  }

  /** A peer's `k`-hop neighbourhood lies within the node's `k + 1`-hop neighbourhood. */
  lemma {:induction false} WithinOfPeer<T>(adj: map<T, seq<T>>, node: T, peer: T, k: nat)
    requires node in adj && peer in adj[node]
    ensures Within(adj, peer, k) <= Within(adj, node, k + 1)
  {
    if k > 0 {
      WithinOfPeer(adj, node, peer, k - 1);
      NeighboursGrow(adj, Within(adj, peer, k - 1), Within(adj, node, k));
    } else {
      WithinGrows(adj, node, 0, 1);
    }
  }

  lemma NeighboursGrow<T>(adj: map<T, seq<T>>, s: set<T>, t: set<T>)
    requires s <= t
    ensures Neighbours(adj, s) <= Neighbours(adj, t)
  {
  }

  // ---------------------------------------------------------------------------
  // Gossip over values
  // ---------------------------------------------------------------------------

  /**
   * `propagate(node, ..., ttl)` as a function of the peer lists and of the
   * set of nodes already holding the event: the set holding it afterwards.
   */
  function Gossip<T>(adj: map<T, seq<T>>, seen: set<T>, node: T, ttl: int): (r: set<T>)
    ensures seen + {node} <= r
    decreases 2 * Hops(ttl), 0
  {
    if node in seen then seen
    else
      var marked := seen + {node};
      if ttl > 0 && node in adj then GossipPeers(adj, marked, adj[node], ttl - 1) else marked
  }

  /** The `for peer in node.peers` loop: gossip to each peer in turn, threading the holders. */
  function GossipPeers<T>(adj: map<T, seq<T>>, seen: set<T>, peers: seq<T>, ttl: int): (r: set<T>)
    ensures seen <= r
    decreases 2 * Hops(ttl) + 1, |peers|
  {
    if peers == [] then seen
    else GossipPeers(adj, Gossip(adj, seen, peers[0], ttl), peers[1..], ttl)
  }

  /**
   * The early exits of `propagate`: a node already holding the event stops
   * at once, and with no TTL left only the node itself is marked.
   */
  lemma GossipStopsEarly<T>(adj: map<T, seq<T>>, seen: set<T>, node: T, ttl: int)
    ensures node in seen ==> Gossip(adj, seen, node, ttl) == seen
    ensures node !in seen && ttl <= 0 ==> Gossip(adj, seen, node, ttl) == seen + {node}
  {
  }

  /** Gossip never leaves the `ttl`-hop neighbourhood of its origin. */
  lemma GossipStaysWithinTtl<T>(adj: map<T, seq<T>>, seen: set<T>, node: T, ttl: int)
    ensures Gossip(adj, seen, node, ttl) <= seen + Within(adj, node, Hops(ttl))
  {
    GossipBounded(adj, seen, node, ttl, seen + Within(adj, node, Hops(ttl)));
  }

  lemma {:induction false} GossipBounded<T>(adj: map<T, seq<T>>, seen: set<T>, node: T, ttl: int, bound: set<T>)
    requires seen <= bound && Within(adj, node, Hops(ttl)) <= bound
    ensures Gossip(adj, seen, node, ttl) <= bound
    decreases 2 * Hops(ttl), 0
  {
    if node !in seen && ttl > 0 && node in adj {
      forall p | p in adj[node]
        ensures Within(adj, p, Hops(ttl - 1)) <= bound
      {
        WithinOfPeer(adj, node, p, ttl - 1);
      }
      PeersBounded(adj, seen + {node}, adj[node], ttl - 1, bound);
    }
  }

  lemma {:induction false} PeersBounded<T>(adj: map<T, seq<T>>, seen: set<T>, peers: seq<T>, ttl: int, bound: set<T>)
    requires seen <= bound
    requires forall p :: p in peers ==> Within(adj, p, Hops(ttl)) <= bound
    ensures GossipPeers(adj, seen, peers, ttl) <= bound
    decreases 2 * Hops(ttl) + 1, |peers|
  {
    if peers != [] {
      GossipBounded(adj, seen, peers[0], ttl, bound);
      PeersBounded(adj, Gossip(adj, seen, peers[0], ttl), peers[1..], ttl, bound);
    }
  }

  /**
   * The demo mesh (0-1, 1-2, 2-3, 3-4, 0-3 connected in that order) with
   * TTL 3 from node 0: the depth-first gossip reaches 0 via 1 and 2 to 3
   * with no TTL left, so node 4, two hops away along 0-3-4, never gets the
   * event.
   */
  lemma DemoGossipMissesNode4<T>(n0: T, n1: T, n2: T, n3: T, n4: T)
    requires Distinct5(n0, n1, n2, n3, n4)
    ensures var adj := DemoMesh(n0, n1, n2, n3, n4);
            Gossip(adj, {}, n0, 3) == {n0, n1, n2, n3}
            && n4 in Within(adj, n0, 2) && n4 !in Gossip(adj, {}, n0, 3)
  {
    var adj := DemoMesh(n0, n1, n2, n3, n4);
    var s0, s01, s012, upTo3 := {n0}, {n0, n1}, {n0, n1, n2}, {n0, n1, n2, n3};
    assert {} + {n0} == s0 && s0 + {n1} == s01 && s01 + {n2} == s012 && s012 + {n3} == upTo3;
    // node 2 forwards with TTL 0 left: node 3 is marked but not forwarded
    assert Gossip(adj, s012, n3, 0) == upTo3;
    assert GossipPeers(adj, s012, [n3], 0) == upTo3;
    assert [n1, n3][1..] == [n3];
    assert GossipPeers(adj, s012, [n1, n3], 0) == upTo3;
    assert Gossip(adj, s01, n2, 1) == upTo3;
    // node 1 forwards with TTL 1 left
    assert GossipPeers(adj, s01, [n2], 1) == upTo3;
    assert [n0, n2][1..] == [n2];
    assert GossipPeers(adj, s01, [n0, n2], 1) == upTo3;
    assert Gossip(adj, s0, n1, 2) == upTo3;
    // back at node 0, node 3 already holds the event
    assert GossipPeers(adj, upTo3, [n3], 2) == upTo3;
    assert [n1, n3][1..] == [n3];
    assert GossipPeers(adj, s0, [n1, n3], 2) == upTo3;
    assert n3 in Within(adj, n0, 1);
    assert n4 in Neighbours(adj, Within(adj, n0, 1));
  }

  function DemoMesh<T>(n0: T, n1: T, n2: T, n3: T, n4: T): (adj: map<T, seq<T>>)
    requires Distinct5(n0, n1, n2, n3, n4)
    ensures adj.Keys == {n0, n1, n2, n3, n4}
    ensures adj[n0] == [n1, n3] && adj[n1] == [n0, n2] && adj[n2] == [n1, n3]
    ensures adj[n3] == [n2, n4, n0] && adj[n4] == [n3]
  {
    map[n0 := [n1, n3], n1 := [n0, n2], n2 := [n1, n3], n3 := [n2, n4, n0], n4 := [n3]]
  }

  /** Five pairwise different nodes. */
  predicate Distinct5<T(==)>(n0: T, n1: T, n2: T, n3: T, n4: T)
  {
    n0 != n1 && n0 != n2 && n0 != n3 && n0 != n4 && n1 != n2
    && n1 != n3 && n1 != n4 && n2 != n3 && n2 != n4 && n3 != n4
  }

  // ---------------------------------------------------------------------------
  // Breadth-first flood: the TTL semantics the demo evidently intends
  // ---------------------------------------------------------------------------

  /**
   * Spread level by level: each round forwards from the nodes first reached
   * in the previous round, for `ttl` rounds. Reaches exactly the nodes
   * within `ttl` hops.
   */
  method Flood<T>(adj: map<T, seq<T>>, start: T, ttl: int) returns (reached: set<T>)
    ensures reached == Within(adj, start, Hops(ttl))
  {
    reached := {start};
    var frontier := {start};
    var round := 0;
    while round < ttl
      invariant 0 <= round <= Hops(ttl)
      invariant reached == Within(adj, start, round)
      invariant frontier == Fresh(adj, start, round)
    {
      var next := Neighbours(adj, frontier) - reached;
      FrontierSuffices(adj, start, round);
      reached := reached + next;
      frontier := next;
      round := round + 1;
    }
  }

  /** The nodes first reached at hop `round`. */
  function Fresh<T>(adj: map<T, seq<T>>, start: T, round: nat): set<T>
  {
    if round == 0 then {start} else Within(adj, start, round) - Within(adj, start, round - 1)
  }

  /** Only the newest layer can contribute nodes the next round does not already have. */
  lemma FrontierSuffices<T>(adj: map<T, seq<T>>, start: T, round: nat)
    ensures Within(adj, start, round + 1) == Within(adj, start, round) + (Neighbours(adj, Fresh(adj, start, round)) - Within(adj, start, round))
    ensures Fresh(adj, start, round + 1) == Neighbours(adj, Fresh(adj, start, round)) - Within(adj, start, round)
  {
    var w := Within(adj, start, round);
    var frontier := Fresh(adj, start, round);
    if round > 0 {
      var older := Within(adj, start, round - 1);
      assert w == older + Neighbours(adj, older);
      forall n | n in Neighbours(adj, w)
        ensures n in w || n in Neighbours(adj, frontier)
      {
        var m :| m in w && m in adj && n in adj[m];
        if m !in frontier {
          assert m in older;
        }
      }
      NeighboursGrow(adj, frontier, w);
    }
  }


  /** On the demo mesh a TTL of 3 floods every node. */
  lemma DemoFloodReachesAll<T>(n0: T, n1: T, n2: T, n3: T, n4: T)
    requires Distinct5(n0, n1, n2, n3, n4)
    ensures Within(DemoMesh(n0, n1, n2, n3, n4), n0, Hops(3)) == {n0, n1, n2, n3, n4}
  {
    var adj := DemoMesh(n0, n1, n2, n3, n4);
    var all := {n0, n1, n2, n3, n4};
    DemoGossipMissesNode4(n0, n1, n2, n3, n4);
    WithinGrows(adj, n0, 2, 3);
    assert n1 in Within(adj, n0, 1);
    assert n2 in Within(adj, n0, 2) by {
      assert n1 in Within(adj, n0, 1);
    }
    WithinGrows(adj, n0, 1, 3);
    WithinOfKeys(adj, n0, 3, all);
  }

  /** A neighbourhood never leaves a set closed under taking peers. */
  lemma {:induction false} WithinOfKeys<T>(adj: map<T, seq<T>>, start: T, k: nat, closed: set<T>)
    requires start in closed
    requires forall m, n :: m in closed && m in adj && n in adj[m] ==> n in closed
    ensures Within(adj, start, k) <= closed
  {
    if k > 0 {
      WithinOfKeys(adj, start, k - 1, closed);
    }
  }

  // ---------------------------------------------------------------------------
  // connect over peer lists
  // ---------------------------------------------------------------------------

  /** `a.connect(b)` on the peer lists. */
  function ConnectAdj<T>(adj: map<T, seq<T>>, a: T, b: T): (r: map<T, seq<T>>)
    requires a in adj && b in adj
    ensures r.Keys == adj.Keys
  {
    if b in adj[a] then adj
    else if a == b then adj[a := adj[a] + [a] + [a]]
    else adj[a := adj[a] + [b]][b := adj[b] + [a]]
  }

  /** Every peer relation goes both ways. */
  ghost predicate Symmetric<T>(adj: map<T, seq<T>>)
  {
    forall m, n :: m in adj && n in adj ==> (m in adj[n] <==> n in adj[m])
  }

  /** No peer list names a peer twice. */
  ghost predicate NoRepeats<T>(adj: map<T, seq<T>>)
  {
    forall n :: n in adj ==> forall i, j :: 0 <= i < j < |adj[n]| ==> adj[n][i] != adj[n][j]
  }

  /** Every peer is itself a known node. */
  ghost predicate PeersKnown<T>(adj: map<T, seq<T>>)
  {
    forall m, n :: m in adj && n in adj[m] ==> n in adj
  }

  /**
   * After `a.connect(b)`, `b` is a peer of `a`; no other list changes, and
   * nothing is removed from a list. Connections made through `connect`
   * stay symmetric, and a link between two different nodes never lists a
   * peer twice.
   */
  lemma ConnectLinks<T>(adj: map<T, seq<T>>, a: T, b: T)
    requires a in adj && b in adj
    ensures var r := ConnectAdj(adj, a, b);
            b in r[a]
            && (forall n :: n in adj && n != a && n != b ==> r[n] == adj[n])
            && (forall n :: n in adj ==> adj[n] <= r[n])
            && (Symmetric(adj) ==> Symmetric(r) && a in r[b])
            && (Symmetric(adj) && NoRepeats(adj) && a != b ==> NoRepeats(r))
            && (PeersKnown(adj) ==> PeersKnown(r))
  {
    var r := ConnectAdj(adj, a, b);
    if Symmetric(adj) && b !in adj[a] && a != b {
      assert a !in adj[b];
      if NoRepeats(adj) {
        forall n | n in r
          ensures forall i, j :: 0 <= i < j < |r[n]| ==> r[n][i] != r[n][j]
        {
          if n == a || n == b {
            var other := if n == a then b else a;
            assert r[n] == adj[n] + [other] && other !in adj[n];
          }
        }
      }
    }
  }

  // ---------------------------------------------------------------------------
  // The node objects
  // ---------------------------------------------------------------------------

  /** `SimpleNode` of the demo: its peers in connection order and the events it holds. */
  class SimpleNode {
    const nodeId: nat
    var peers: seq<SimpleNode>
    var memory: set<string>

    constructor(id: nat)
      ensures nodeId == id && peers == [] && memory == {}
    {
      nodeId := id;
      peers := [];
      memory := {};
    }

    /**
     * `connect`: if `other` is not yet a peer, append it to this node's
     * peers and this node to `other`'s. Connecting a node to itself appends
     * it twice. On the peer lists of `nodes` this is `ConnectAdj`.
     */
    method Connect(other: SimpleNode, ghost nodes: set<SimpleNode>)
      modifies this`peers, other`peers
      ensures other in old(peers) ==> peers == old(peers) && other.peers == old(other.peers)
      ensures other !in old(peers) && other != this ==>
                peers == old(peers) + [other] && other.peers == old(other.peers) + [this]
      ensures other !in old(peers) && other == this ==> peers == old(peers) + [this, this]
      ensures this in nodes && other in nodes ==> Adj(nodes) == ConnectAdj(old(Adj(nodes)), this, other)
    {
      if other !in peers {
        peers := peers + [other];
        other.peers := other.peers + [this];
      }
    }
  }

  /** Every peer of a node in `nodes` is itself in `nodes`. */
  ghost predicate Closed(nodes: set<SimpleNode>)
    reads nodes`peers
  {
    forall n :: n in nodes ==> forall p :: p in n.peers ==> p in nodes
  }

  /** The peer lists of `nodes` as an adjacency map. */
  function Adj(nodes: set<SimpleNode>): (adj: map<SimpleNode, seq<SimpleNode>>)
    reads nodes`peers
    ensures adj.Keys == nodes
    ensures forall n :: n in nodes ==> adj[n] == n.peers
  {
    map n | n in nodes :: n.peers
  }

  /** The nodes among `nodes` whose memory holds `eventId`. */
  function Holders(nodes: set<SimpleNode>, eventId: string): (r: set<SimpleNode>)
    reads nodes`memory
    ensures r <= nodes
    ensures forall n :: n in nodes ==> (n in r <==> eventId in n.memory)
  {
    set n | n in nodes && eventId in n.memory
  }

  /**
   * `propagate`: stop at a node that already holds the event; otherwise
   * record it and, while `ttl > 0`, recurse into each peer in order with
   * `ttl - 1`. The holders afterwards are exactly what `Gossip` gives for
   * the peer lists and the holders before, and no memory gains anything
   * but `eventId`.
   */
  method Propagate(node: SimpleNode, eventId: string, ttl: int, ghost nodes: set<SimpleNode>)
    requires node in nodes && Closed(nodes)
    modifies nodes`memory
    ensures Holders(nodes, eventId) == Gossip(Adj(nodes), old(Holders(nodes, eventId)), node, ttl)
    ensures forall n :: n in nodes ==> n.memory == old(n.memory) || n.memory == old(n.memory) + {eventId}
    decreases Hops(ttl)
  {
    if eventId in node.memory {
      return;
    }
    node.memory := node.memory + {eventId};
    assert Holders(nodes, eventId) == old(Holders(nodes, eventId)) + {node};
    if ttl > 0 {
      assert Adj(nodes)[node] == node.peers && node.peers[0..] == node.peers;
      var i := 0;
      while i < |node.peers|
        invariant 0 <= i <= |node.peers|
        invariant GossipPeers(Adj(nodes), Holders(nodes, eventId), node.peers[i..], ttl - 1)
                  == Gossip(Adj(nodes), old(Holders(nodes, eventId)), node, ttl)
        invariant forall n :: n in nodes ==> n.memory == old(n.memory) || n.memory == old(n.memory) + {eventId}
      {
        Propagate(node.peers[i], eventId, ttl - 1, nodes);
        assert node.peers[i..][1..] == node.peers[i + 1..];
        i := i + 1;
      }
    }
  }

  /** The five demo nodes, connected 0-1, 1-2, 2-3, 3-4, 0-3 in that order, holding no event yet. */
  method BuildDemoMesh() returns (n0: SimpleNode, n1: SimpleNode, n2: SimpleNode, n3: SimpleNode, n4: SimpleNode)
    ensures Distinct5(n0, n1, n2, n3, n4)
    ensures fresh(n0) && fresh(n1) && fresh(n2) && fresh(n3) && fresh(n4)
    ensures n0.peers == [n1, n3] && n1.peers == [n0, n2] && n2.peers == [n1, n3]
    ensures n3.peers == [n2, n4, n0] && n4.peers == [n3]
    ensures n0.memory == {} && n1.memory == {} && n2.memory == {} && n3.memory == {} && n4.memory == {}
  {
    n0 := new SimpleNode(0);
    n1 := new SimpleNode(1);
    n2 := new SimpleNode(2);
    n3 := new SimpleNode(3);
    n4 := new SimpleNode(4);
    // only the peer lists are needed here, not their map view
    n0.Connect(n1, {});
    n1.Connect(n2, {});
    n2.Connect(n3, {});
    n3.Connect(n4, {});
    n0.Connect(n3, {});
  }

  /** The peer lists of the built demo mesh are the demo adjacency. */
  lemma DemoAdjacency(n0: SimpleNode, n1: SimpleNode, n2: SimpleNode, n3: SimpleNode, n4: SimpleNode)
    requires Distinct5(n0, n1, n2, n3, n4)
    requires n0.peers == [n1, n3] && n1.peers == [n0, n2] && n2.peers == [n1, n3]
    requires n3.peers == [n2, n4, n0] && n4.peers == [n3]
    ensures Adj({n0, n1, n2, n3, n4}) == DemoMesh(n0, n1, n2, n3, n4)
    ensures Closed({n0, n1, n2, n3, n4})
  {
  }

  /** `sum(1 for n in nodes if event_id in n.memory)`. */
  function HoldingCount(all: seq<SimpleNode>, eventId: string): (c: nat)
    reads all
    ensures c <= |all|
  {
    if all == [] then 0
    else HoldingCount(all[..|all| - 1], eventId) + (if eventId in all[|all| - 1].memory then 1 else 0)
  }

  /**
   * The mesh demo end to end: five nodes connected as in the demo, the
   * event injected at node 0 with TTL 3, then the holders counted. Four of
   * the five nodes are reached.
   */
  method DemoMeshGossip() returns (reached: nat)
    ensures reached == 4
  {
    var n0, n1, n2, n3, n4 := BuildDemoMesh();
    ghost var nodes := {n0, n1, n2, n3, n4};
    DemoAdjacency(n0, n1, n2, n3, n4);
    assert Holders(nodes, "evt_001") == {};
    var eventId := "evt_001";
    Propagate(n0, eventId, 3, nodes);
    DemoGossipMissesNode4(n0, n1, n2, n3, n4);
    assert Holders(nodes, eventId) == {n0, n1, n2, n3};
    var all := [n0, n1, n2, n3, n4];
    reached := CountReached(all, eventId);
    DemoCount(all, eventId);
  }

  /** The count of holders, one node at a time. */
  method CountReached(all: seq<SimpleNode>, eventId: string) returns (reached: nat)
    ensures reached == HoldingCount(all, eventId)
  {
    reached := 0;
    var i := 0;
    while i < |all|
      invariant 0 <= i <= |all|
      invariant reached == HoldingCount(all[..i], eventId)
    {
      assert all[..i + 1][..i] == all[..i];
      if eventId in all[i].memory {
        reached := reached + 1;
      }
      i := i + 1;
    }
    assert all[..|all|] == all;
  }

  lemma DemoCount(all: seq<SimpleNode>, eventId: string)
    requires |all| == 5
    requires eventId in all[0].memory && eventId in all[1].memory && eventId in all[2].memory
    requires eventId in all[3].memory && eventId !in all[4].memory
    ensures HoldingCount(all, eventId) == 4
  {
    assert all[..1][..0] == [];
    assert HoldingCount(all[..1], eventId) == 1;
    assert all[..2][..1] == all[..1];
    assert HoldingCount(all[..2], eventId) == 2;
    assert all[..3][..2] == all[..2];
    assert HoldingCount(all[..3], eventId) == 3;
    assert all[..4][..3] == all[..3];
    assert HoldingCount(all[..4], eventId) == 4;
    assert all[..5][..4] == all[..4];
  }
}
