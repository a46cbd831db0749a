/**
 Depth-bounded searches of the document graph: `computeActiveSubgraph` and
 `computeFilterExpansion` in the page written by tools/scripts/md-fabric.py.

 Both keep a queue of (node, depth) pairs and a map of the least depth seen so far, and push a
 node again when a smaller depth is found. The meaning is stated by walks over the edge list.
 */
module Bfs {
  import opened Common
  import opened Ordering

  type Node = string
  type EdgeId = string

  datatype Edge = Edge(src: Node, dst: Node, id: EdgeId)

  // ----- Reference: walks ---------------------------------------------------------------------------

  /** The nodes one step away in the given direction of travel. */
  predicate Steps(edges: seq<Edge>, undirected: bool, a: Node, b: Node) {
    exists i :: 0 <= i < |edges| && ((edges[i].src == a && edges[i].dst == b)
                                     || (undirected && edges[i].dst == a && edges[i].src == b))
  }

  /** `n` is at most `d` steps from one of the roots. */
  ghost predicate Within(edges: seq<Edge>, undirected: bool, roots: set<Node>, n: Node, d: nat)
    decreases d
  {
    n in roots || (d > 0 && exists m :: Within(edges, undirected, roots, m, d - 1) && Steps(edges, undirected, m, n))
  }

  lemma {:induction false} WithinMore(edges: seq<Edge>, undirected: bool, roots: set<Node>, n: Node, d: nat, e: nat)
    requires Within(edges, undirected, roots, n, d) && d <= e
    ensures Within(edges, undirected, roots, n, e)
    decreases d
  {
    if n !in roots {
      var m :| Within(edges, undirected, roots, m, d - 1) && Steps(edges, undirected, m, n);
      WithinMore(edges, undirected, roots, m, d - 1, e - 1);
    }
  }

  /** An edge leads from `a` to `b`, or either way if direction does not matter. */
  ghost predicate Joined(edges: seq<Edge>, undirected: bool, a: Node, b: Node) {
    exists e :: e in edges && ((e.src == a && e.dst == b) || (undirected && e.src == b && e.dst == a))
  }

  /** A walk along edges, from a root to `n`, with at most `d` steps. */
  ghost predicate IsWalk(edges: seq<Edge>, undirected: bool, roots: set<Node>, walk: seq<Node>, n: Node, d: nat) {
    && 1 <= |walk| <= d + 1 && walk[0] in roots && walk[|walk| - 1] == n
    && forall i :: 1 <= i < |walk| ==> Joined(edges, undirected, walk[i - 1], walk[i])
  }

  lemma StepsIffJoined(edges: seq<Edge>, undirected: bool, a: Node, b: Node)
    ensures Steps(edges, undirected, a, b) <==> Joined(edges, undirected, a, b)
  {
    if Steps(edges, undirected, a, b) {
      var i :| 0 <= i < |edges| && ((edges[i].src == a && edges[i].dst == b)
                                    || (undirected && edges[i].dst == a && edges[i].src == b));
      assert edges[i] in edges;
    }
  }

  /** A node is within `d` steps exactly when a walk of at most `d` steps leads to it from a root. */
  lemma {:induction false} WithinIffWalk(edges: seq<Edge>, undirected: bool, roots: set<Node>, n: Node, d: nat)
    ensures Within(edges, undirected, roots, n, d) <==> exists walk :: IsWalk(edges, undirected, roots, walk, n, d)
    decreases d
  {
    if Within(edges, undirected, roots, n, d) {
      if n in roots {
        assert IsWalk(edges, undirected, roots, [n], n, d);
      } else {
        var m :| Within(edges, undirected, roots, m, d - 1) && Steps(edges, undirected, m, n);
        WithinIffWalk(edges, undirected, roots, m, d - 1);
        var walk :| IsWalk(edges, undirected, roots, walk, m, d - 1);
        StepsIffJoined(edges, undirected, m, n);
        assert IsWalk(edges, undirected, roots, walk + [n], n, d);
      }
    }
    if walk :| IsWalk(edges, undirected, roots, walk, n, d) && |walk| > 1 {
      var m := walk[|walk| - 2];
      assert IsWalk(edges, undirected, roots, walk[..|walk| - 1], m, d - 1);
      WithinIffWalk(edges, undirected, roots, m, d - 1);
      assert Joined(edges, undirected, walk[|walk| - 2], walk[|walk| - 1]);
      StepsIffJoined(edges, undirected, m, n);
    }
  }

  // ----- Adjacency ----------------------------------------------------------------------------------

  datatype Link = Link(node: Node, edgeId: EdgeId)

  type Adjacency = map<Node, seq<Link>>

  function Links(adj: Adjacency, n: Node): seq<Link> {
    if n in adj then adj[n] else []
  }

  /** The link lists hold exactly the edges, grouped by source. */
  ghost predicate Outbound(adj: Adjacency, edges: seq<Edge>) {
    forall n, l :: l in Links(adj, n) <==> Edge(n, l.node, l.edgeId) in edges
  }

  ghost predicate Inbound(adj: Adjacency, edges: seq<Edge>) {
    forall n, l :: l in Links(adj, n) <==> Edge(l.node, n, l.edgeId) in edges
  }

  function Push(adj: Adjacency, n: Node, l: Link): Adjacency {
    adj[n := Links(adj, n) + [l]]
  }

  lemma PushLinks(adj: Adjacency, n: Node, l: Link)
    ensures forall m, k :: k in Links(Push(adj, n, l), m) <==> k in Links(adj, m) || (m == n && k == l)
  {
  }

  method BuildAdjacency(edges: seq<Edge>) returns (outbound: Adjacency, inbound: Adjacency)
    ensures Outbound(outbound, edges) && Inbound(inbound, edges)
  {
    outbound, inbound := map[], map[];
    for i := 0 to |edges|
      invariant Outbound(outbound, edges[..i]) && Inbound(inbound, edges[..i])
    {
      var e := edges[i];
      TakeSnoc(edges, i);
      PushLinks(outbound, e.src, Link(e.dst, e.id));
      PushLinks(inbound, e.dst, Link(e.src, e.id));
      outbound := Push(outbound, e.src, Link(e.dst, e.id));
      inbound := Push(inbound, e.dst, Link(e.src, e.id));
    }
    assert edges[..|edges|] == edges;
  }

  // ----- The search -----------------------------------------------------------------------------------

  type Depths = map<Node, nat>

  /** A node seen at depth `d` really is within `d` steps. */
  ghost predicate Justified(edges: seq<Edge>, undirected: bool, roots: set<Node>, seen: Depths) {
    forall n :: n in seen ==> Within(edges, undirected, roots, n, seen[n])
  }

  /** Everything one step from `n` has been seen at depth at most `d + 1`. */
  ghost predicate Expanded(edges: seq<Edge>, undirected: bool, seen: Depths, n: Node, d: nat) {
    forall m :: Steps(edges, undirected, n, m) ==> m in seen && seen[m] <= d + 1
  }

  /** Every seen node is queued at its depth, has its neighbours seen, or is at the limit. */
  ghost predicate Progress(edges: seq<Edge>, undirected: bool, seen: Depths, queue: seq<(Node, nat)>, depth: nat) {
    forall n :: n in seen ==>
      (n, seen[n]) in queue || seen[n] >= depth || Expanded(edges, undirected, seen, n, seen[n])
  }

  /** The pairs (node, depth) that could still be lowered to: shrinks with every push. */
  ghost function Open(universe: set<Node>, depth: nat, seen: Depths): set<(Node, nat)> {
    set n, k | n in universe && 0 <= k <= depth && (n !in seen || k < seen[n]) :: (n, k)
  }

  /** When the queue is empty, seen depths are at most the walking distance, up to the limit. */
  lemma {:induction false} SeenIsComplete(edges: seq<Edge>, undirected: bool, roots: set<Node>, seen: Depths,
                                          depth: nat, n: Node, d: nat)
    requires Progress(edges, undirected, seen, [], depth)
    requires forall r :: r in roots ==> r in seen && seen[r] == 0
    requires Within(edges, undirected, roots, n, d) && d <= depth
    ensures n in seen && seen[n] <= d
    decreases d
  {
    if n !in roots {
      var m :| Within(edges, undirected, roots, m, d - 1) && Steps(edges, undirected, m, n);
      SeenIsComplete(edges, undirected, roots, seen, depth, m, d - 1);
      assert Expanded(edges, undirected, seen, m, seen[m]);
    }
  }

  /** What relaxing the links `targets` at depth `next` does to the search state. */
  ghost predicate Relaxed(targets: seq<Link>, next: nat, seen: Depths, queue: seq<(Node, nat)>,
                          seen': Depths, queue': seq<(Node, nat)>) {
    && (forall l :: l in targets ==> l.node in seen' && seen'[l.node] <= next)
    && (forall n :: n in seen ==> n in seen' && seen'[n] <= seen[n])
    && (forall n :: n in seen' ==>
          || (n in seen && seen'[n] == seen[n])
          || (seen'[n] == next && (n, next) in queue' && exists l :: l in targets && l.node == n))
    && queue <= queue'
    && (forall q :: q in queue' ==> q in queue || (q.1 == next && q.0 in seen' && seen'[q.0] <= next))
  }

  /** The pairs pushed are exactly the nodes whose depth was lowered or set, each once; no other depth changes. */
  ghost predicate Lowers(targets: seq<Link>, next: nat, seen: Depths, seen': Depths, pushed: seq<(Node, nat)>) {
    && Distinct(pushed)
    && (forall l :: l in targets ==> l.node in seen' && seen'[l.node] <= next)
    && (forall q :: q in pushed ==> q.1 == next && (q.0 in seen ==> next < seen[q.0]) && Targeted(targets, q.0))
    && (forall n :: n in seen' <==> n in seen || (n, next) in pushed)
    && (forall n :: n in seen' ==> seen'[n] == if (n, next) in pushed then next else seen[n])
  }

  predicate Targeted(targets: seq<Link>, n: Node) {
    exists l :: l in targets && l.node == n
  }

  lemma LowersSkip(done: seq<Link>, l: Link, next: nat, seen: Depths, seen': Depths, pushed: seq<(Node, nat)>)
    requires Lowers(done, next, seen, seen', pushed) && l.node in seen' && seen'[l.node] <= next
    ensures Lowers(done + [l], next, seen, seen', pushed)
  {
    TargetedMore(done, [l]);
  }

  lemma TargetedMore(a: seq<Link>, b: seq<Link>)
    ensures forall n :: Targeted(a + b, n) <==> Targeted(a, n) || Targeted(b, n)
  {
    forall n
      ensures Targeted(a + b, n) <==> Targeted(a, n) || Targeted(b, n)
    {
      if Targeted(a, n) {
        var l :| l in a && l.node == n;
        assert l in a + b;
      }
      if Targeted(b, n) {
        var l :| l in b && l.node == n;
        assert l in a + b;
      }
    }
  }

  lemma LowersPush(done: seq<Link>, l: Link, next: nat, seen: Depths, seen': Depths, pushed: seq<(Node, nat)>)
    requires Lowers(done, next, seen, seen', pushed) && (l.node in seen' ==> next < seen'[l.node])
    ensures Lowers(done + [l], next, seen, seen'[l.node := next], pushed + [(l.node, next)])
  {
    TargetedMore(done, [l]);
    assert l in [l] && Targeted([l], l.node);
    var pair, more := (l.node, next), pushed + [(l.node, next)];
    assert pair !in pushed;
    assert forall q :: q in more <==> q in pushed || q == pair;
  }

  lemma LowersThen(a: seq<Link>, b: seq<Link>, next: nat, seen: Depths, seen1: Depths, seen2: Depths,
                   p: seq<(Node, nat)>, r: seq<(Node, nat)>)
    requires Lowers(a, next, seen, seen1, p) && Lowers(b, next, seen1, seen2, r)
    ensures Lowers(a + b, next, seen, seen2, p + r)
  {
    TargetedMore(a, b);
    assert forall q :: q in p + r <==> q in p || q in r;
    forall i, j | 0 <= i < j < |p + r|
      ensures (p + r)[i] != (p + r)[j]
    {
      if i < |p| <= j {
        assert p[i] in p && r[j - |p|] in r;
      }
    }
  }

  /** What pushing does to the search state, in the terms the invariant needs. */
  lemma LowersRelaxes(targets: seq<Link>, next: nat, seen: Depths, queue: seq<(Node, nat)>, seen': Depths,
                      pushed: seq<(Node, nat)>)
    requires Lowers(targets, next, seen, seen', pushed)
    ensures Relaxed(targets, next, seen, queue, seen', queue + pushed)
  {
    assert forall q :: q in queue + pushed <==> q in queue || q in pushed;
    forall n | n in seen' && !(n in seen && seen'[n] == seen[n])
      ensures seen'[n] == next && (n, next) in queue + pushed && exists l :: l in targets && l.node == n
    {
      assert (n, next) in pushed && Targeted(targets, n);
    }
  }

  /** The inner loop over the links of one node: push what is new or now nearer. */
  method Relax(targets: seq<Link>, next: nat, seen: Depths, nodeIds: set<Node>, queue: seq<(Node, nat)>,
               ghost universe: set<Node>, ghost depth: nat)
    returns (seen': Depths, nodeIds': set<Node>, queue': seq<(Node, nat)>, ghost pushed: seq<(Node, nat)>)
    requires nodeIds == seen.Keys && next <= depth
    requires forall l :: l in targets ==> l.node in universe
    ensures nodeIds' == seen'.Keys && queue' == queue + pushed && Lowers(targets, next, seen, seen', pushed)
    ensures (seen' == seen && queue' == queue) || Open(universe, depth, seen') < Open(universe, depth, seen)
  {
    seen', nodeIds', queue', pushed := seen, nodeIds, queue, [];
    for i := 0 to |targets|
      invariant nodeIds' == seen'.Keys && queue' == queue + pushed
      invariant Lowers(targets[..i], next, seen, seen', pushed)
      invariant (seen' == seen && queue' == queue) || Open(universe, depth, seen') < Open(universe, depth, seen)
    {
      TakeSnoc(targets, i);
      var to := targets[i].node;
      if to in seen' && seen'[to] <= next {
        LowersSkip(targets[..i], targets[i], next, seen, seen', pushed);
        continue;
      }
      LowersPush(targets[..i], targets[i], next, seen, seen', pushed);
      OpenShrinks(universe, depth, seen', to, next);
      AppendAssoc(queue, pushed, [(to, next)]);
      seen' := seen'[to := next];
      nodeIds' := nodeIds' + {to};
      queue' := queue' + [(to, next)];
      pushed := pushed + [(to, next)];
    }
    assert targets[..|targets|] == targets;
  }

  lemma OpenShrinks(universe: set<Node>, depth: nat, seen: Depths, n: Node, k: nat)
    requires n in universe && k <= depth && (n in seen ==> k < seen[n])
    ensures Open(universe, depth, seen[n := k]) < Open(universe, depth, seen)
  {
    assert (n, k) in Open(universe, depth, seen);
    assert (n, k) !in Open(universe, depth, seen[n := k]);
  }

  // ----- First in, first out ----------------------------------------------------------------------------

  /** The seen nodes and their depths, in a list of ascending depths; no node occurs twice if none did at the
      start (`once`). */
  ghost predicate Lists(once: bool, seen: Depths, all: seq<(Node, nat)>) {
    && (forall i, j :: 0 <= i < j < |all| ==> all[i].1 <= all[j].1 && (once ==> all[i].0 != all[j].0))
    && (forall q :: q in all ==> q.0 in seen && seen[q.0] == q.1)
    && (forall n :: n in seen ==> (n, seen[n]) in all)
  }

  ghost predicate Bounded(all: seq<(Node, nat)>, d: nat) {
    forall q :: q in all ==> q.1 <= d
  }

  /** The nodes taken off the queue and those still on it are such a list, and the last is at most one deeper
      than the next to be taken. */
  ghost predicate Order(once: bool, seen: Depths, taken: seq<(Node, nat)>, queue: seq<(Node, nat)>) {
    Lists(once, seen, taken + queue) && (queue != [] ==> Bounded(taken + queue, queue[0].1 + 1))
  }

  lemma TakeAll(taken: seq<(Node, nat)>, queue: seq<(Node, nat)>)
    requires queue != []
    ensures (taken + [queue[0]]) + queue[1..] == taken + queue
  {
    HeadTail(queue);
    AppendAssoc(taken, [queue[0]], queue[1..]);
  }

  /** The second pair of the queue is no less deep than the first. */
  lemma SecondIsDeeper(once: bool, seen: Depths, taken: seq<(Node, nat)>, queue: seq<(Node, nat)>)
    requires Lists(once, seen, taken + queue) && |queue| > 1
    ensures queue[0].1 <= queue[1].1
  {
    var all := taken + queue;
    assert all[|taken|] == queue[0] && all[|taken| + 1] == queue[1];
  }

  lemma OrderTaken(once: bool, seen: Depths, taken: seq<(Node, nat)>, queue: seq<(Node, nat)>)
    requires Order(once, seen, taken, queue) && queue != []
    ensures Order(once, seen, taken + [queue[0]], queue[1..])
  {
    TakeAll(taken, queue);
    if |queue| > 1 {
      SecondIsDeeper(once, seen, taken, queue);
    }
  }

  /** Where no depth exceeds the new one, none is lowered: what is pushed is new. */
  lemma NothingLowered(once: bool, seen: Depths, all: seq<(Node, nat)>, next: nat,
                       targets: seq<Link>, seen': Depths, pushed: seq<(Node, nat)>)
    requires Lists(once, seen, all) && Bounded(all, next) && Lowers(targets, next, seen, seen', pushed)
    ensures forall q :: q in pushed ==> q.0 !in seen
    ensures forall n :: n in seen ==> n in seen' && seen'[n] == seen[n]
  {
    forall n | n in seen
      ensures seen[n] <= next
    {
      assert (n, seen[n]) in all;
    }
  }

  lemma AscendMore(once: bool, seen: Depths, all: seq<(Node, nat)>, next: nat, pushed: seq<(Node, nat)>)
    requires Lists(once, seen, all) && Bounded(all, next) && Distinct(pushed)
    requires forall q :: q in pushed ==> q.1 == next && q.0 !in seen
    ensures var more := all + pushed;
            forall i, j :: 0 <= i < j < |more| ==> more[i].1 <= more[j].1 && (once ==> more[i].0 != more[j].0)
  {
    var more := all + pushed;
    forall i, j | 0 <= i < j < |more|
      ensures more[i].1 <= more[j].1 && (once ==> more[i].0 != more[j].0)
    {
      if j < |all| {
        assert more[i] == all[i] && more[j] == all[j];
      } else {
        assert more[j] == pushed[j - |all|] && pushed[j - |all|] in pushed;
        if i < |all| {
          assert more[i] == all[i] && all[i] in all;
        } else {
          assert more[i] == pushed[i - |all|] && pushed[i - |all|] in pushed;
        }
      }
    }
  }

  lemma ListsMore(once: bool, seen: Depths, all: seq<(Node, nat)>, next: nat,
                  targets: seq<Link>, seen': Depths, pushed: seq<(Node, nat)>)
    requires Lists(once, seen, all) && Bounded(all, next) && Lowers(targets, next, seen, seen', pushed)
    ensures Lists(once, seen', all + pushed) && Bounded(all + pushed, next)
  {
    NothingLowered(once, seen, all, next, targets, seen', pushed);
    AscendMore(once, seen, all, next, pushed);
    assert forall q :: q in all + pushed <==> q in all || q in pushed;
  }

  /** A turn pushes only new nodes, behind everything else. */
  lemma OrderPushed(once: bool, seen: Depths, taken: seq<(Node, nat)>, queue: seq<(Node, nat)>,
                    targets: seq<Link>, seen': Depths, pushed: seq<(Node, nat)>)
    requires Order(once, seen, taken, queue) && queue != []
    requires Lowers(targets, queue[0].1 + 1, seen, seen', pushed)
    ensures Order(once, seen', taken + [queue[0]], queue[1..] + pushed)
  {
    TakeAll(taken, queue);
    AppendAssoc(taken + [queue[0]], queue[1..], pushed);
    ListsMore(once, seen, taken + queue, queue[0].1 + 1, targets, seen', pushed);
    HeadBound(once, seen, taken, queue, targets, seen', pushed);
  }

  lemma HeadBound(once: bool, seen: Depths, taken: seq<(Node, nat)>, queue: seq<(Node, nat)>,
                  targets: seq<Link>, seen': Depths, pushed: seq<(Node, nat)>)
    requires Order(once, seen, taken, queue) && queue != []
    requires Lowers(targets, queue[0].1 + 1, seen, seen', pushed)
    ensures var rest := queue[1..] + pushed; rest != [] ==> queue[0].1 <= rest[0].1
  {
    if |queue| > 1 {
      SecondIsDeeper(once, seen, taken, queue);
    } else if pushed != [] {
      assert queue[1..] + pushed == pushed && pushed[0] in pushed;
    }
  }

  // ----- What the outer loop keeps ----------------------------------------------------------------------

  datatype Search = Search(edges: seq<Edge>, undirected: bool, roots: set<Node>, depth: nat)

  ghost predicate Inv(s: Search, seen: Depths, queue: seq<(Node, nat)>) {
    && Justified(s.edges, s.undirected, s.roots, seen)
    && Progress(s.edges, s.undirected, seen, queue, s.depth)
    && (forall r :: r in s.roots ==> r in seen && seen[r] == 0)
    && (forall q :: q in queue ==> q.0 in seen && seen[q.0] <= q.1 <= s.depth)
    && (forall n :: n in seen ==> seen[n] <= s.depth)
  }

  /** The invariant with the pair (cur, d) already taken off the queue. */
  ghost predicate InvWith(s: Search, seen: Depths, cur: Node, d: nat, queue: seq<(Node, nat)>) {
    && Justified(s.edges, s.undirected, s.roots, seen)
    && (forall n :: n in seen && (n, seen[n]) != (cur, d) ==>
          (n, seen[n]) in queue || seen[n] >= s.depth || Expanded(s.edges, s.undirected, seen, n, seen[n]))
    && (forall r :: r in s.roots ==> r in seen && seen[r] == 0)
    && (forall q :: q in queue ==> q.0 in seen && seen[q.0] <= q.1 <= s.depth)
    && (forall n :: n in seen ==> seen[n] <= s.depth)
    && cur in seen && seen[cur] <= d
  }

  lemma TakeFirst(s: Search, seen: Depths, queue: seq<(Node, nat)>)
    requires Inv(s, seen, queue) && queue != []
    ensures InvWith(s, seen, queue[0].0, queue[0].1, queue[1..])
  {
    HeadTail(queue);
  }

  /** A pair at the depth limit can be dropped. */
  lemma DropKeeps(s: Search, seen: Depths, queue: seq<(Node, nat)>)
    requires Inv(s, seen, queue) && queue != [] && queue[0].1 >= s.depth
    ensures Inv(s, seen, queue[1..])
    ensures forall edgeIds :: EdgeInv(s, seen, queue, edgeIds) ==> EdgeInv(s, seen, queue[1..], edgeIds)
  {
    HeadTail(queue);
  }

  /** The links visited for a node are exactly its neighbours. */
  ghost predicate Neighbours(s: Search, n: Node, targets: seq<Link>) {
    forall m :: Steps(s.edges, s.undirected, n, m) <==> exists l :: l in targets && l.node == m
  }

  /** Expanding the front of the queue keeps the invariant. */
  lemma ExpandKeeps(s: Search, seen: Depths, cur: Node, d: nat, queue: seq<(Node, nat)>, targets: seq<Link>,
                    seen': Depths, queue': seq<(Node, nat)>)
    requires InvWith(s, seen, cur, d, queue) && d < s.depth && Neighbours(s, cur, targets)
    requires Relaxed(targets, d + 1, seen, queue, seen', queue')
    ensures Inv(s, seen', queue')
  {
    WithinMore(s.edges, s.undirected, s.roots, cur, seen[cur], d);
    forall n | n in seen'
      ensures Within(s.edges, s.undirected, s.roots, n, seen'[n])
    {
      if !(n in seen && seen'[n] == seen[n]) {
        assert Steps(s.edges, s.undirected, cur, n);
      }
    }
    forall n | n in seen' && (n, seen'[n]) !in queue' && seen'[n] < s.depth
      ensures Expanded(s.edges, s.undirected, seen', n, seen'[n])
    {
      assert n in seen && seen'[n] == seen[n] && (n, seen[n]) !in queue;
      if n == cur && seen[n] == d {
        forall m | Steps(s.edges, s.undirected, cur, m)
          ensures m in seen' && seen'[m] <= d + 1
        {
          var l :| l in targets && l.node == m;
        }
      } else {
        assert Expanded(s.edges, s.undirected, seen, n, seen[n]);
      }
    }
  }

  /** With an empty queue, the seen nodes are those within the limit, each at its exact distance. */
  lemma SearchDone(s: Search, seen: Depths)
    requires Inv(s, seen, [])
    ensures forall n :: n in seen <==> Within(s.edges, s.undirected, s.roots, n, s.depth)
    ensures forall n :: n in seen ==> Within(s.edges, s.undirected, s.roots, n, seen[n])
    ensures forall n, d: nat :: Within(s.edges, s.undirected, s.roots, n, d) && d <= s.depth ==> n in seen && seen[n] <= d
  {
    forall n, d: nat | Within(s.edges, s.undirected, s.roots, n, d) && d <= s.depth
      ensures n in seen && seen[n] <= d
    {
      SeenIsComplete(s.edges, s.undirected, s.roots, seen, s.depth, n, d);
    }
    forall n | n in seen
      ensures Within(s.edges, s.undirected, s.roots, n, s.depth)
    {
      WithinMore(s.edges, s.undirected, s.roots, n, seen[n], s.depth);
    }
  }

  ghost function Universe(edges: seq<Edge>, roots: set<Node>): set<Node> {
    roots + (set e | e in edges :: e.src) + (set e | e in edges :: e.dst)
  }

  // ----- computeActiveSubgraph ----------------------------------------------------------------------------

  lemma OutNeighbours(s: Search, adj: Adjacency, n: Node)
    requires !s.undirected && Outbound(adj, s.edges)
    ensures Neighbours(s, n, Links(adj, n))
  {
    forall m
      ensures Steps(s.edges, false, n, m) <==> exists l :: l in Links(adj, n) && l.node == m
    {
      if Steps(s.edges, false, n, m) {
        var i :| 0 <= i < |s.edges| && s.edges[i].src == n && s.edges[i].dst == m;
        assert Edge(n, m, s.edges[i].id) in s.edges;
        assert Link(m, s.edges[i].id) in Links(adj, n);
      }
      if l :| l in Links(adj, n) && l.node == m {
        assert Edge(n, m, l.edgeId) in s.edges;
      }
    }
  }

  /** Edge ids collected so far: only out-edges of nodes short of the limit, and all out-edges of
      the nodes already expanded. */
  ghost predicate EdgeInv(s: Search, seen: Depths, queue: seq<(Node, nat)>, edgeIds: set<EdgeId>) {
    && (forall e :: e in s.edges && e.src in seen ==>
          (e.src, seen[e.src]) in queue || seen[e.src] >= s.depth || e.id in edgeIds)
    && (forall id :: id in edgeIds ==> OutEdge(s, id))
  }

  /** `id` names an edge that leaves a node at distance less than the depth. */
  ghost predicate OutEdge(s: Search, id: EdgeId) {
    exists e :: e in s.edges && e.id == id && s.depth > 0 && Within(s.edges, s.undirected, s.roots, e.src, s.depth - 1)
  }

  /** `EdgeInv` with the pair (cur, d) already taken off the queue. */
  ghost predicate EdgeInvWith(s: Search, seen: Depths, cur: Node, d: nat, queue: seq<(Node, nat)>, edgeIds: set<EdgeId>) {
    && (forall e :: e in s.edges && e.src in seen && (e.src, seen[e.src]) != (cur, d) ==>
          (e.src, seen[e.src]) in queue || seen[e.src] >= s.depth || e.id in edgeIds)
    && (forall id :: id in edgeIds ==> OutEdge(s, id))
  }

  lemma TakeFirstEdges(s: Search, seen: Depths, queue: seq<(Node, nat)>, edgeIds: set<EdgeId>)
    requires EdgeInv(s, seen, queue, edgeIds) && queue != []
    ensures EdgeInvWith(s, seen, queue[0].0, queue[0].1, queue[1..], edgeIds)
  {
    HeadTail(queue);
  }

  /** Collecting the edge ids of the expanded node keeps `EdgeInv`. */
  lemma EdgesKept(s: Search, seen: Depths, cur: Node, d: nat, queue: seq<(Node, nat)>, targets: seq<Link>,
                  seen': Depths, queue': seq<(Node, nat)>, edgeIds: set<EdgeId>)
    requires EdgeInvWith(s, seen, cur, d, queue, edgeIds)
    requires Within(s.edges, s.undirected, s.roots, cur, d) && d < s.depth
    requires forall l :: l in targets <==> Edge(cur, l.node, l.edgeId) in s.edges
    requires Relaxed(targets, d + 1, seen, queue, seen', queue')
    ensures EdgeInv(s, seen', queue', edgeIds + set l | l in targets :: l.edgeId)
  {
    hide OutEdge;
    var more := edgeIds + set l | l in targets :: l.edgeId;
    forall e | e in s.edges && e.src in seen' && (e.src, seen'[e.src]) !in queue' && seen'[e.src] < s.depth
      ensures e.id in more
    {
      EdgeCollected(s, seen, cur, d, queue, targets, seen', queue', edgeIds, e);
    }
    forall l | l in targets
      ensures OutEdge(s, l.edgeId)
    {
      LeavesNearNode(s, cur, d, l);
    }
  }

  lemma LeavesNearNode(s: Search, cur: Node, d: nat, l: Link)
    requires Within(s.edges, s.undirected, s.roots, cur, d) && d < s.depth && Edge(cur, l.node, l.edgeId) in s.edges
    ensures OutEdge(s, l.edgeId)
  {
    WithinMore(s.edges, s.undirected, s.roots, cur, d, s.depth - 1);
  }

  /** An edge whose source is neither queued nor at the limit has been collected, now or before. */
  lemma EdgeCollected(s: Search, seen: Depths, cur: Node, d: nat, queue: seq<(Node, nat)>, targets: seq<Link>,
                      seen': Depths, queue': seq<(Node, nat)>, edgeIds: set<EdgeId>, e: Edge)
    requires EdgeInvWith(s, seen, cur, d, queue, edgeIds) && Relaxed(targets, d + 1, seen, queue, seen', queue')
    requires forall l :: l in targets <==> Edge(cur, l.node, l.edgeId) in s.edges
    requires e in s.edges && e.src in seen' && (e.src, seen'[e.src]) !in queue' && seen'[e.src] < s.depth
    ensures e.id in edgeIds + set l | l in targets :: l.edgeId
  {
    hide OutEdge;
    if e.src == cur {
      assert Edge(cur, e.dst, e.id) == e;
      assert Link(e.dst, e.id) in targets;
    } else {
      assert e.src in seen && seen'[e.src] == seen[e.src];
    }
  }

  /** One turn on a node short of the limit. */
  method ExpandOut(ghost s: Search, outbound: Adjacency, cur: Node, d: nat, seen: Depths, nodeIds: set<Node>,
                   queue: seq<(Node, nat)>, edgeIds: set<EdgeId>)
    returns (seen': Depths, nodeIds': set<Node>, queue': seq<(Node, nat)>, edgeIds': set<EdgeId>,
             ghost pushed: seq<(Node, nat)>)
    requires !s.undirected && Outbound(outbound, s.edges) && nodeIds == seen.Keys && d < s.depth
    requires InvWith(s, seen, cur, d, queue) && EdgeInvWith(s, seen, cur, d, queue, edgeIds)
    ensures nodeIds' == seen'.Keys && Inv(s, seen', queue') && EdgeInv(s, seen', queue', edgeIds')
    ensures Lower(s, seen, queue, seen', queue')
    ensures queue' == queue + pushed && Lowers(Links(outbound, cur), d + 1, seen, seen', pushed)
  {
    var links := Links(outbound, cur);
    LinksInUniverse(s.edges, s.roots, outbound, cur);
    seen', nodeIds', queue', pushed := Relax(links, d + 1, seen, nodeIds, queue, Universe(s.edges, s.roots), s.depth);
    LowersRelaxes(links, d + 1, seen, queue, seen', pushed);
    OutNeighbours(s, outbound, cur);
    ExpandKeeps(s, seen, cur, d, queue, links, seen', queue');
    WithinMore(s.edges, s.undirected, s.roots, cur, seen[cur], d);
    EdgesKept(s, seen, cur, d, queue, links, seen', queue', edgeIds);
    edgeIds' := edgeIds + set l | l in links :: l.edgeId;
  }

  /** The turn made progress: a depth was lowered, or nothing was pushed. */
  ghost predicate Lower(s: Search, seen: Depths, queue: seq<(Node, nat)>, seen': Depths, queue': seq<(Node, nat)>) {
    var u := Universe(s.edges, s.roots);
    Open(u, s.depth, seen') < Open(u, s.depth, seen) || (seen' == seen && queue' == queue)
  }

  /** A depth below zero acts as zero. */
  function Limit(depth: int): nat {
    if depth < 0 then 0 else depth
  }

  /** `n` is exactly `d` steps away. */
  ghost predicate Distance(s: Search, n: Node, d: nat) {
    && Within(s.edges, s.undirected, s.roots, n, d)
    && forall e: nat :: e < d ==> !Within(s.edges, s.undirected, s.roots, n, e)
  }

  /** Nodes in the order in which they were taken off the queue: by ascending distance, all that are within the
      limit, and each once if no root was given twice. */
  ghost predicate Visits(s: Search, once: bool, taken: seq<(Node, nat)>) {
    && (forall i, j :: 0 <= i < j < |taken| ==> taken[i].1 <= taken[j].1 && (once ==> taken[i].0 != taken[j].0))
    && (forall q :: q in taken ==> Distance(s, q.0, q.1))
    && (forall n :: Within(s.edges, s.undirected, s.roots, n, s.depth) <==> exists d :: (n, d) in taken)
  }

  lemma VisitsDone(s: Search, once: bool, seen: Depths, taken: seq<(Node, nat)>)
    requires Inv(s, seen, []) && Order(once, seen, taken, [])
    ensures Visits(s, once, taken)
  {
    assert taken + [] == taken;
    SearchDone(s, seen);
  }

  /** The roots, each at depth 0. */
  ghost predicate AtRoots(roots: seq<Node>, seen: Depths, queue: seq<(Node, nat)>) {
    && (forall n :: n in seen <==> n in roots) && (forall n :: n in seen ==> seen[n] == 0)
    && |queue| == |roots| && (forall i :: 0 <= i < |queue| ==> queue[i] == (roots[i], 0))
    && (forall q :: q in queue <==> q.0 in roots && q.1 == 0)
  }

  /** The state before the first turn. */
  method Start(roots: seq<Node>) returns (seen: Depths, queue: seq<(Node, nat)>)
    ensures AtRoots(roots, seen, queue)
  {
    seen := map r | r in roots :: 0;
    queue := seq(|roots|, i requires 0 <= i < |roots| => (roots[i], 0));
    forall r | r in roots
      ensures (r, 0) in queue
    {
      var i :| 0 <= i < |roots| && roots[i] == r;
      assert queue[i] == (r, 0);
    }
  }

  lemma KeysAtRoots(roots: seq<Node>, seen: Depths, queue: seq<(Node, nat)>)
    requires AtRoots(roots, seen, queue)
    ensures seen.Keys == set r | r in roots
  {
  }

  lemma OrderAtStart(roots: seq<Node>, seen: Depths, queue: seq<(Node, nat)>)
    requires AtRoots(roots, seen, queue)
    ensures Order(Distinct(roots), seen, [], queue)
  {
    assert [] + queue == queue;
    ListedAtStart(roots, seen, queue, Distinct(roots));
  }

  lemma ListedAtStart(roots: seq<Node>, seen: Depths, queue: seq<(Node, nat)>, once: bool)
    requires AtRoots(roots, seen, queue) && (once ==> Distinct(roots))
    ensures Lists(once, seen, queue) && Bounded(queue, 1)
  {
    forall i, j | 0 <= i < j < |queue|
      ensures queue[i].1 <= queue[j].1 && (once ==> queue[i].0 != queue[j].0)
    {
      assert queue[i] == (roots[i], 0) && queue[j] == (roots[j], 0);
    }
  }

  lemma InvAtStart(s: Search, roots: seq<Node>, seen: Depths, queue: seq<(Node, nat)>)
    requires AtRoots(roots, seen, queue) && s.roots == set r | r in roots
    ensures Inv(s, seen, queue) && EdgeInv(s, seen, queue, {})
  {
  }

  /** The search from the roots of a view: nodes at directed distance at most `depth`, and the out-edges of the
      nodes at distance less than `depth`. */
  method SearchView(edges: seq<Edge>, outbound: Adjacency, roots: seq<Node>, depth: int)
    returns (nodeIds: set<Node>, rootIds: set<Node>, edgeIds: set<EdgeId>, ghost taken: seq<(Node, nat)>)
    requires Outbound(outbound, edges)
    ensures rootIds == set r | r in roots
    ensures forall n :: n in nodeIds <==> Within(edges, false, rootIds, n, if depth < 0 then 0 else depth)
    ensures forall id :: id in edgeIds <==> OutEdge(Search(edges, false, rootIds, if depth < 0 then 0 else depth), id)
    ensures Visits(Search(edges, false, rootIds, if depth < 0 then 0 else depth), Distinct(roots), taken)
  {
    hide Order;
    hide Lowers;
    hide Visits;
    hide AtRoots;
    hide Inv;
    hide InvWith;
    hide EdgeInv;
    hide EdgeInvWith;
    rootIds := set r | r in roots;
    edgeIds := {};
    var seen, queue := Start(roots);
    nodeIds := rootIds;
    taken := [];
    ghost var s, once := Search(edges, false, rootIds, Limit(depth)), Distinct(roots);
    ghost var pushed: seq<(Node, nat)>;
    KeysAtRoots(roots, seen, queue);
    OrderAtStart(roots, seen, queue);
    InvAtStart(s, roots, seen, queue);
    while queue != []
      invariant nodeIds == seen.Keys && Inv(s, seen, queue) && EdgeInv(s, seen, queue, edgeIds)
      invariant Order(once, seen, taken, queue)
      decreases Open(Universe(edges, rootIds), s.depth, seen), |queue|
    {
      var (current, currentDepth) := queue[0];
      if currentDepth >= depth {
        DropKeeps(s, seen, queue);
        OrderTaken(once, seen, taken, queue);
        taken, queue := taken + [queue[0]], queue[1..];
        continue;
      }
      TakeFirst(s, seen, queue);
      TakeFirstEdges(s, seen, queue, edgeIds);
      ghost var seen0, queue0 := seen, queue;
      seen, nodeIds, queue, edgeIds, pushed :=
        ExpandOut(s, outbound, current, currentDepth, seen, nodeIds, queue[1..], edgeIds);
      OrderPushed(once, seen0, taken, queue0, Links(outbound, current), seen, pushed);
      taken := taken + [queue0[0]];
    }
    SearchDone(s, seen);
    EdgesDone(s, seen, edgeIds);
    VisitsDone(s, once, seen, taken);
  }

  /** The visible part of the graph: all of it without a view, else what the search from its roots finds. */
  method ComputeActiveSubgraph(nodes: seq<Node>, edges: seq<Edge>, outbound: Adjacency, view: Option<seq<Node>>, depth: int)
    returns (nodeIds: set<Node>, rootIds: set<Node>, edgeIds: set<EdgeId>)
    requires Outbound(outbound, edges)
    ensures view == None ==> nodeIds == (set n | n in nodes) && rootIds == {} && edgeIds == (set e | e in edges :: e.id)
    ensures view.Some? ==> rootIds == set r | r in view.value
    ensures view.Some? ==> forall n :: n in nodeIds <==> Within(edges, false, rootIds, n, if depth < 0 then 0 else depth)
    ensures view.Some? ==>
              forall id :: id in edgeIds <==> OutEdge(Search(edges, false, rootIds, if depth < 0 then 0 else depth), id)
  {
    if view == None {
      return set n | n in nodes, {}, set e | e in edges :: e.id;
    }
    ghost var taken: seq<(Node, nat)>;
    nodeIds, rootIds, edgeIds, taken := SearchView(edges, outbound, view.value, depth);
  }

  lemma LinksInUniverse(edges: seq<Edge>, roots: set<Node>, adj: Adjacency, n: Node)
    requires Outbound(adj, edges)
    ensures forall l :: l in Links(adj, n) ==> l.node in Universe(edges, roots)
  {
    forall l | l in Links(adj, n)
      ensures l.node in Universe(edges, roots)
    {
      assert Edge(n, l.node, l.edgeId) in edges;
    }
  }

  lemma EdgesDone(s: Search, seen: Depths, edgeIds: set<EdgeId>)
    requires Inv(s, seen, []) && EdgeInv(s, seen, [], edgeIds)
    ensures forall id :: id in edgeIds <==> OutEdge(s, id)
  {
    forall id | OutEdge(s, id)
      ensures id in edgeIds
    {
      var e :| e in s.edges && e.id == id && Within(s.edges, s.undirected, s.roots, e.src, s.depth - 1);
      SeenIsComplete(s.edges, s.undirected, s.roots, seen, s.depth, e.src, s.depth - 1);
    }
  }

  // ----- computeFilterExpansion -----------------------------------------------------------------------------

  lemma BothNeighbours(s: Search, outbound: Adjacency, inbound: Adjacency, n: Node)
    requires s.undirected && Outbound(outbound, s.edges) && Inbound(inbound, s.edges)
    ensures Neighbours(s, n, Links(outbound, n) + Links(inbound, n))
    ensures forall l :: l in Links(outbound, n) + Links(inbound, n) ==> l.node in Universe(s.edges, s.roots)
  {
    var targets := Links(outbound, n) + Links(inbound, n);
    forall m
      ensures Steps(s.edges, true, n, m) <==> exists l :: l in targets && l.node == m
    {
      if Steps(s.edges, true, n, m) {
        var i :| 0 <= i < |s.edges| && ((s.edges[i].src == n && s.edges[i].dst == m)
                                        || (s.edges[i].dst == n && s.edges[i].src == m));
        assert s.edges[i] == Edge(n, m, s.edges[i].id) || s.edges[i] == Edge(m, n, s.edges[i].id);
        assert Link(m, s.edges[i].id) in targets;
      }
      if l :| l in targets && l.node == m {
        assert Edge(n, m, l.edgeId) in s.edges || Edge(m, n, l.edgeId) in s.edges;
      }
    }
    forall l | l in targets
      ensures l.node in Universe(s.edges, s.roots)
    {
      assert Edge(n, l.node, l.edgeId) in s.edges || Edge(l.node, n, l.edgeId) in s.edges;
    }
  }

  /** One turn: the links out of the node, then the links into it. */
  method ExpandBoth(ghost s: Search, outbound: Adjacency, inbound: Adjacency, cur: Node, d: nat, seen: Depths,
                    result: set<Node>, queue: seq<(Node, nat)>)
    returns (seen': Depths, result': set<Node>, queue': seq<(Node, nat)>, ghost pushed: seq<(Node, nat)>)
    requires s.undirected && Outbound(outbound, s.edges) && Inbound(inbound, s.edges) && result == seen.Keys
    requires InvWith(s, seen, cur, d, queue) && d < s.depth
    ensures result' == seen'.Keys && Inv(s, seen', queue') && Lower(s, seen, queue, seen', queue')
    ensures queue' == queue + pushed
    ensures Lowers(Links(outbound, cur) + Links(inbound, cur), d + 1, seen, seen', pushed)
  {
    ghost var universe := Universe(s.edges, s.roots);
    BothNeighbours(s, outbound, inbound, cur);
    var ahead, back := Links(outbound, cur), Links(inbound, cur);
    ghost var first, second: seq<(Node, nat)>;
    var seen1, result1, queue1;
    seen1, result1, queue1, first := Relax(ahead, d + 1, seen, result, queue, universe, s.depth);
    seen', result', queue', second := Relax(back, d + 1, seen1, result1, queue1, universe, s.depth);
    pushed := first + second;
    AppendAssoc(queue, first, second);
    LowersThen(ahead, back, d + 1, seen, seen1, seen', first, second);
    LowersRelaxes(ahead + back, d + 1, seen, queue, seen', pushed);
    ExpandKeeps(s, seen, cur, d, queue, ahead + back, seen', queue');
  }

  /** The matches of a filter and everything within `depth` steps of them, in either direction. */
  method ComputeFilterExpansion(edges: seq<Edge>, outbound: Adjacency, inbound: Adjacency,
                                matching: seq<Node>, depth: int)
    returns (result: set<Node>, ghost taken: seq<(Node, nat)>)
    requires Outbound(outbound, edges) && Inbound(inbound, edges)
    ensures forall n :: n in result <==> Within(edges, true, (set m | m in matching), n, if depth < 0 then 0 else depth)
    ensures depth > 0 ==> Visits(Search(edges, true, (set m | m in matching), depth), Distinct(matching), taken)
  {
    hide Order;
    hide Lowers;
    hide Visits;
    hide AtRoots;
    hide Inv;
    hide InvWith;
    hide EdgeInv;
    hide EdgeInvWith;
    result, taken := set m | m in matching, [];
    if depth <= 0 {
      return;
    }
    ghost var s, once := Search(edges, true, result, depth), Distinct(matching);
    ghost var pushed: seq<(Node, nat)>;
    var seen, queue := Start(matching);
    KeysAtRoots(matching, seen, queue);
    OrderAtStart(matching, seen, queue);
    InvAtStart(s, matching, seen, queue);
    while queue != []
      invariant result == seen.Keys && Inv(s, seen, queue) && Order(once, seen, taken, queue)
      decreases Open(Universe(edges, s.roots), s.depth, seen), |queue|
    {
      var (cur, d) := queue[0];
      if d >= depth {
        DropKeeps(s, seen, queue);
        OrderTaken(once, seen, taken, queue);
        taken, queue := taken + [queue[0]], queue[1..];
        continue;
      }
      TakeFirst(s, seen, queue);
      ghost var seen0, queue0 := seen, queue;
      seen, result, queue, pushed := ExpandBoth(s, outbound, inbound, cur, d, seen, result, queue[1..]);
      OrderPushed(once, seen0, taken, queue0, Links(outbound, cur) + Links(inbound, cur), seen, pushed);
      taken := taken + [queue0[0]];
    }
    SearchDone(s, seen);
    VisitsDone(s, once, seen, taken);
  }
}
