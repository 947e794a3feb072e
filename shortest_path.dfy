/**
 * Dijkstra's algorithm with lazy priority updates and path reconstruction,
 * over a graph whose nodes are identified by their position in the node
 * list. Distances and predecessors are kept in sequences indexed by node.
 */
module ShortestPath {
  import opened Wrappers
  import opened Graphs
  import opened Heap

  /** A tentative distance: JavaScript's `Infinity` or a finite non-negative number. */
  datatype Dist = Infinity | Finite(value: nat)

  /** `distances[current.nodeLabel] + edge.weight`: Infinity absorbs the weight. */
  function Add(d: Dist, w: nat): (r: Dist)
    ensures r.Infinity? <==> d.Infinity?
    ensures r.Finite? ==> r.value == d.value + w
  {
    match d
    case Infinity => Infinity
    case Finite(x) => Finite(x + w)
  }

  /** JavaScript's `<` on tentative distances: Infinity is below nothing and
      every finite distance is below Infinity. */
  predicate Less(a: Dist, b: Dist): (r: bool)
    ensures a.Infinity? ==> !r
    ensures a.Finite? && b.Infinity? ==> r
    ensures a.Finite? && b.Finite? ==> (r <==> a.value < b.value)
  {
    a.Finite? && (b.Infinity? || a.value < b.value)
  }

  /** Going from (`d0`, `p0`) to (`d`, `p`), each node either kept its
      distance and predecessor, or strictly improved its distance and got
      `u` as its predecessor. */
  predicate ImprovedThrough(d: seq<Dist>, p: seq<Option<nat>>, d0: seq<Dist>, p0: seq<Option<nat>>, u: nat) {
    |d| == |d0| == |p| == |p0| &&
    forall v :: 0 <= v < |d| ==>
      (d[v] == d0[v] && p[v] == p0[v]) || (Less(d[v], d0[v]) && p[v] == Some(u))
  }

  /** No change at all is an improvement through any node. */
  lemma ImprovedRefl(d: seq<Dist>, p: seq<Option<nat>>, u: nat)
    requires |d| == |p|
    ensures ImprovedThrough(d, p, d, p, u)
  {
  }

  /** One strict improvement of `v` with predecessor `u` is an improvement through `u`. */
  lemma ImproveOnce(d: seq<Dist>, p: seq<Option<nat>>, u: nat, v: nat, x: nat)
    requires |d| == |p| && v < |d| && Less(Finite(x), d[v])
    ensures ImprovedThrough(d[v := Finite(x)], p[v := Some(u)], d, p, u)
  {
  }

  /** Edge `e` touches `v`. */
  predicate Incident(e: Edge, v: nat): (r: bool)
    ensures r <==> Joins(e, v, Other(e, v))
  {
    e.source == v || e.target == v
  }

  /** The far end of an edge seen from `v`. */
  function Other(e: Edge, v: nat): (r: nat)
    ensures r == e.source || r == e.target
    ensures (e.source == v || e.target == v) ==> Joins(e, v, r)
  {
    if e.source == v then e.target else e.source
  }

  // ---------------------------------------------------------------------
  // Invariants of the computation
  // ---------------------------------------------------------------------

  /** The first `n` edges touching `v` offer `v`'s neighbours nothing better
      than they already have. */
  ghost predicate RelaxedUpTo(g: Graph, dist: seq<Dist>, v: nat, n: nat)
    requires WellFormed(g) && |dist| == |g.nodes| && v < |dist| && n <= |g.edges|
  {
    dist[v].Finite? &&
    forall j :: 0 <= j < n && Incident(g.edges[j], v) ==>
      dist[Other(g.edges[j], v)].Finite? &&
      dist[Other(g.edges[j], v)].value <= dist[v].value + g.edges[j].weight
  }

  /** Every node with a finite distance either still waits in the queue with
      exactly that distance, or has already been expanded with it. */
  ghost predicate Covered(g: Graph, dist: seq<Dist>, q: multiset<Entry>)
    requires WellFormed(g) && |dist| == |g.nodes|
  {
    forall v :: 0 <= v < |dist| && dist[v].Finite? ==>
      Entry(v, dist[v].value) in q || RelaxedUpTo(g, dist, v, |g.edges|)
  }

  /** `Covered`, except that node `cur` is being expanded and only its first
      `n` edges are done. */
  ghost predicate CoveredExcept(g: Graph, dist: seq<Dist>, q: multiset<Entry>, cur: nat, n: nat)
    requires WellFormed(g) && |dist| == |g.nodes| && n <= |g.edges|
  {
    forall v :: 0 <= v < |dist| && dist[v].Finite? ==>
      Entry(v, dist[v].value) in q || RelaxedUpTo(g, dist, v, |g.edges|) ||
      (v == cur && RelaxedUpTo(g, dist, v, n))
  }

  /** Every queued entry names a node whose distance is finite and no larger
      than the entry's own (stale entries are larger). */
  ghost predicate QueueSound(dist: seq<Dist>, q: multiset<Entry>) {
    forall e :: e in q ==> e.node < |dist| && dist[e.node].Finite? && dist[e.node].value <= e.distance
  }

  /** What `previousNodes[v] = u` records: an edge `via[v]` joins `u` and
      `v`, and going through it from `u` costs no more than `v`'s distance.
      Along a predecessor pointer (distance, stamp) strictly grows, where a
      stamp is the time of a node's last improvement. */
  ghost predicate PrevStep(g: Graph, dist: seq<Dist>, prev: seq<Option<nat>>, via: seq<nat>, stamp: seq<nat>, v: nat)
    requires |dist| == |prev| == |via| == |stamp| && v < |prev| && prev[v].Some?
  {
    var u := prev[v].value;
    u < |dist| && via[v] < |g.edges| && Joins(g.edges[via[v]], u, v) &&
    dist[u].Finite? && dist[v].Finite? &&
    dist[u].value + g.edges[via[v]].weight <= dist[v].value &&
    (dist[u].value == dist[v].value ==> stamp[u] < stamp[v])
  }

  /** The invariant on distances and predecessors. */
  ghost predicate StateInv(g: Graph, s: nat, dist: seq<Dist>, prev: seq<Option<nat>>, via: seq<nat>, stamp: seq<nat>, clock: nat) {
    WellFormed(g) && s < |g.nodes| &&
    |dist| == |g.nodes| && |prev| == |g.nodes| && |via| == |g.nodes| && |stamp| == |g.nodes| &&
    dist[s] == Finite(0) && prev[s] == None &&
    (forall v :: 0 <= v < |dist| && v != s && dist[v].Finite? ==> prev[v].Some?) &&
    (forall v :: 0 <= v < |stamp| ==> stamp[v] <= clock) &&
    (forall v :: 0 <= v < |prev| && prev[v].Some? ==> PrevStep(g, dist, prev, via, stamp, v))
  }

  /** No walk from `s` to `t` is shorter than `t`'s distance. */
  ghost predicate LowerBound(g: Graph, s: nat, t: nat, dist: seq<Dist>)
    requires |dist| == |g.nodes| && t < |dist|
  {
    forall q, fs :: IsWalk(g, q, fs) && q[0] == s && q[|q| - 1] == t ==>
      dist[t].Finite? && dist[t].value <= Weight(g, fs)
  }

  /** Once `t`'s distance is a lower bound on every walk from `s`, the
      reconstructed path is a shortest walk when one exists, and `[t]`
      otherwise. */
  lemma PathMeaning(g: Graph, s: nat, t: nat, dist: seq<Dist>, p: seq<nat>, es: seq<nat>)
    requires |dist| == |g.nodes| && t < |dist| && LowerBound(g, s, t, dist)
    requires IsWalk(g, p, es) && p[|p| - 1] == t
    requires dist[t].Finite? ==> p[0] == s && Weight(g, es) <= dist[t].value
    requires dist[t].Infinity? ==> p == [t]
    ensures Reachable(g, s, t) ==> IsShortestWalk(g, s, t, p, es)
    ensures !Reachable(g, s, t) ==> p == [t]
  {
    if dist[t].Finite? {
      // the reconstructed path itself witnesses reachability
      assert IsWalk(g, p, es) && p[0] == s && p[|p| - 1] == t;
    }
    if Reachable(g, s, t) {
      var q, fs :| IsWalk(g, q, fs) && q[0] == s && q[|q| - 1] == t;
      assert dist[t].Finite?;
    }
  }

  // ---------------------------------------------------------------------
  // Termination measure of the main loop
  // ---------------------------------------------------------------------

  /** Number of nodes still at Infinity. */
  function InfCount(d: seq<Dist>): nat {
    if d == [] then 0 else (if d[0].Infinity? then 1 else 0) + InfCount(d[1..])
  }

  /** Sum of the finite distances. */
  function FinSum(d: seq<Dist>): nat {
    if d == [] then 0 else (if d[0].Finite? then d[0].value else 0) + FinSum(d[1..])
  }

  /** A strict improvement of one node lowers (Infinity count, finite sum)
      lexicographically. */
  lemma {:induction false} ImproveLowersMeasure(d: seq<Dist>, v: nat, x: nat)
    requires v < |d| && Less(Finite(x), d[v])
    ensures InfCount(d[v := Finite(x)]) < InfCount(d) ||
            (InfCount(d[v := Finite(x)]) == InfCount(d) && FinSum(d[v := Finite(x)]) < FinSum(d))
  {
    var d' := d[v := Finite(x)];
    if v == 0 {
      assert d'[1..] == d[1..];
    } else {
      assert d'[1..] == d[1..][v - 1 := Finite(x)];
      ImproveLowersMeasure(d[1..], v - 1, x);
    }
  }

  // ---------------------------------------------------------------------
  // Why the computed distance is minimal
  // ---------------------------------------------------------------------

  /**
   * For any walk from the start, either its end already has a distance no
   * larger than the walk's weight, or some queued entry is no larger than
   * the walk's weight: the walk leaves the expanded region through a node
   * still waiting in the queue.
   */
  lemma {:induction false} Frontier(g: Graph, s: nat, dist: seq<Dist>, q: multiset<Entry>, p: seq<nat>, es: seq<nat>)
    requires WellFormed(g) && |dist| == |g.nodes| && s < |dist| && dist[s] == Finite(0)
    requires Covered(g, dist, q)
    requires IsWalk(g, p, es) && p[0] == s
    ensures (dist[p[|p| - 1]].Finite? && dist[p[|p| - 1]].value <= Weight(g, es)) ||
            (exists e :: e in q && e.distance <= Weight(g, es))
  {
    if es != [] {
      var k := |es| - 1;
      var p', es' := p[..k + 1], es[..k];
      assert IsWalk(g, p', es');
      Frontier(g, s, dist, q, p', es');
      var x, y, e := p[k], p[k + 1], g.edges[es[k]];
      assert Weight(g, es) == Weight(g, es') + e.weight;
      assert Joins(e, x, y);
      if dist[x].Finite? && dist[x].value <= Weight(g, es') {
        if Entry(x, dist[x].value) in q {
          assert Entry(x, dist[x].value).distance <= Weight(g, es);
        } else {
          assert RelaxedUpTo(g, dist, x, |g.edges|);
          assert Incident(g.edges[es[k]], x) && Other(g.edges[es[k]], x) == y;
        }
      }
    }
  }

  /** When every queued entry is no smaller than `t`'s distance (the queue is
      empty, or `t` has just been taken as its minimum), that distance is a
      lower bound on every walk from `s` to `t`. */
  lemma Settled(g: Graph, s: nat, t: nat, dist: seq<Dist>, q: multiset<Entry>)
    requires WellFormed(g) && |dist| == |g.nodes| && s < |dist| && t < |dist| && dist[s] == Finite(0)
    requires Covered(g, dist, q)
    requires forall e :: e in q ==> dist[t].Finite? && dist[t].value <= e.distance
    ensures LowerBound(g, s, t, dist)
  {
    forall p, es | IsWalk(g, p, es) && p[0] == s && p[|p| - 1] == t
      ensures dist[t].Finite? && dist[t].value <= Weight(g, es)
    {
      Frontier(g, s, dist, q, p, es);
    }
  }

  // ---------------------------------------------------------------------
  // Steps of the main loop
  // ---------------------------------------------------------------------

  /** Taking an entry out of the queue leaves every node covered, except the
      taken node, which has yet to be expanded. */
  lemma PopKeeps(g: Graph, dist: seq<Dist>, q0: multiset<Entry>, q: multiset<Entry>, popped: Entry)
    requires WellFormed(g) && |dist| == |g.nodes| && popped.node < |dist|
    requires Covered(g, dist, q0) && QueueSound(dist, q0)
    requires popped in q0 && q == q0 - multiset{popped}
    ensures CoveredExcept(g, dist, q, popped.node, 0) && QueueSound(dist, q)
  {
    forall v | 0 <= v < |dist| && dist[v].Finite?
      ensures Entry(v, dist[v].value) in q || RelaxedUpTo(g, dist, v, |g.edges|) ||
              (v == popped.node && RelaxedUpTo(g, dist, v, 0))
    {
      if v != popped.node && Entry(v, dist[v].value) in q0 {
        assert Entry(v, dist[v].value) != popped;
      }
    }
  }

  /** An edge of `cur` that offers no improvement keeps every invariant and
      extends the done part of `cur`'s expansion by one edge. */
  lemma SkipKeeps(g: Graph, dist: seq<Dist>, q: multiset<Entry>, cur: nat, i: nat)
    requires WellFormed(g) && |dist| == |g.nodes| && cur < |dist| && i < |g.edges|
    requires CoveredExcept(g, dist, q, cur, i)
    requires Incident(g.edges[i], cur) ==>
      !Less(Add(dist[cur], g.edges[i].weight as nat), dist[Other(g.edges[i], cur)])
    ensures CoveredExcept(g, dist, q, cur, i + 1)
  {
    if dist[cur].Finite? && !(Entry(cur, dist[cur].value) in q) && !RelaxedUpTo(g, dist, cur, |g.edges|) {
      assert RelaxedUpTo(g, dist, cur, i);
      assert RelaxedUpTo(g, dist, cur, i + 1);
    }
  }

  /** The conditions under which the algorithm improves `nb` to `nd` through
      edge `i` of `cur`. */
  ghost predicate Improves(g: Graph, dist: seq<Dist>, cur: nat, i: nat, nb: nat, nd: nat)
    requires WellFormed(g) && |dist| == |g.nodes| && cur < |dist| && i < |g.edges|
  {
    Incident(g.edges[i], cur) && nb == Other(g.edges[i], cur) &&
    Add(dist[cur], g.edges[i].weight as nat) == Finite(nd) && Less(Finite(nd), dist[nb])
  }

  /** Improving `nb` through edge `i` of `cur` and recording `cur` as its
      predecessor keeps the invariant on distances and predecessors. */
  lemma RelaxKeepsState(g: Graph, s: nat, dist: seq<Dist>, prev: seq<Option<nat>>, via: seq<nat>, stamp: seq<nat>, clock: nat,
                        cur: nat, i: nat, nb: nat, nd: nat)
    requires StateInv(g, s, dist, prev, via, stamp, clock)
    requires cur < |g.nodes| && i < |g.edges| && Improves(g, dist, cur, i, nb, nd)
    ensures nb != cur && nb != s
    ensures StateInv(g, s, dist[nb := Finite(nd)], prev[nb := Some(cur)], via[nb := i], stamp[nb := clock + 1], clock + 1)
  {
    var dist', prev', via', stamp' := dist[nb := Finite(nd)], prev[nb := Some(cur)], via[nb := i], stamp[nb := clock + 1];
    assert Joins(g.edges[i], cur, nb);
    forall v | 0 <= v < |prev'| && prev'[v].Some?
      ensures PrevStep(g, dist', prev', via', stamp', v)
    {
      if v != nb {
        assert PrevStep(g, dist, prev, via, stamp, v);
      }
    }
  }

  /** ... and queueing `nb` with its new distance keeps every node covered,
      `cur` now having one more edge done. */
  lemma RelaxKeepsCover(g: Graph, dist: seq<Dist>, q: multiset<Entry>, cur: nat, i: nat, nb: nat, nd: nat)
    requires WellFormed(g) && |dist| == |g.nodes| && cur < |dist| && i < |g.edges|
    requires CoveredExcept(g, dist, q, cur, i) && Improves(g, dist, cur, i, nb, nd)
    ensures CoveredExcept(g, dist[nb := Finite(nd)], q + multiset{Entry(nb, nd)}, cur, i + 1)
  {
    var dist', q' := dist[nb := Finite(nd)], q + multiset{Entry(nb, nd)};
    forall v | 0 <= v < |dist'| && dist'[v].Finite?
      ensures Entry(v, dist'[v].value) in q' || RelaxedUpTo(g, dist', v, |g.edges|) ||
              (v == cur && RelaxedUpTo(g, dist', v, i + 1))
    {
      if v != nb {
        if Entry(v, dist[v].value) in q {
        } else if RelaxedUpTo(g, dist, v, |g.edges|) {
          assert RelaxedUpTo(g, dist', v, |g.edges|);
        } else {
          assert v == cur && RelaxedUpTo(g, dist, v, i);
          assert RelaxedUpTo(g, dist', v, i + 1);
        }
      }
    }
  }

  /** Improving a neighbour of `cur` through edge `i` extends the relaxed
      prefix of `cur`'s edges by that edge: the other neighbours only got
      closer, and the improved one is now exactly that edge away. */
  lemma RelaxedAfterImprove(g: Graph, dist: seq<Dist>, cur: nat, i: nat, nb: nat, nd: nat)
    requires WellFormed(g) && |dist| == |g.nodes| && cur < |dist| && i < |g.edges|
    requires Improves(g, dist, cur, i, nb, nd) && RelaxedUpTo(g, dist, cur, i)
    ensures RelaxedUpTo(g, dist[nb := Finite(nd)], cur, i + 1)
  {
    var dist' := dist[nb := Finite(nd)];
    assert nb != cur by {
      assert dist[cur].Finite? && nd == dist[cur].value + g.edges[i].weight;
    }
    forall j | 0 <= j < i + 1 && Incident(g.edges[j], cur)
      ensures dist'[Other(g.edges[j], cur)].Finite? &&
              dist'[Other(g.edges[j], cur)].value <= dist'[cur].value + g.edges[j].weight
    {
    }
  }

  /** An edge of `cur` that offers no strict improvement extends the relaxed
      prefix of `cur`'s edges by that edge. */
  lemma RelaxedAfterSkip(g: Graph, dist: seq<Dist>, cur: nat, i: nat)
    requires WellFormed(g) && |dist| == |g.nodes| && cur < |dist| && i < |g.edges|
    requires Incident(g.edges[i], cur) ==>
      !Less(Add(dist[cur], g.edges[i].weight as nat), dist[Other(g.edges[i], cur)])
    requires RelaxedUpTo(g, dist, cur, i)
    ensures RelaxedUpTo(g, dist, cur, i + 1)
  {
  }

  /** ... and the queue stays sound. */
  lemma RelaxKeepsQueue(dist: seq<Dist>, q: multiset<Entry>, nb: nat, nd: nat)
    requires QueueSound(dist, q) && nb < |dist| && Less(Finite(nd), dist[nb])
    ensures QueueSound(dist[nb := Finite(nd)], q + multiset{Entry(nb, nd)})
  {
  }

  // ---------------------------------------------------------------------
  // The algorithm
  // ---------------------------------------------------------------------

  /** Improvements through `u` compose. */
  lemma ImprovedTrans(d2: seq<Dist>, p2: seq<Option<nat>>, d1: seq<Dist>, p1: seq<Option<nat>>,
                      d0: seq<Dist>, p0: seq<Option<nat>>, u: nat)
    requires ImprovedThrough(d2, p2, d1, p1, u) && ImprovedThrough(d1, p1, d0, p0, u)
    ensures ImprovedThrough(d2, p2, d0, p0, u)
  {
    forall v | 0 <= v < |d2|
      ensures (d2[v] == d0[v] && p2[v] == p0[v]) || (Less(d2[v], d0[v]) && p2[v] == Some(u))
    {
      assert (d2[v] == d1[v] && p2[v] == p1[v]) || (Less(d2[v], d1[v]) && p2[v] == Some(u));
      assert (d1[v] == d0[v] && p1[v] == p0[v]) || (Less(d1[v], d0[v]) && p1[v] == Some(u));
    }
  }

  /**
   * The improving branch of the per-edge step: `nb` gets distance `nd` and
   * predecessor `current`, and is queued again with `nd`.
   */
  method Improve(g: Graph, s: nat, current: nat, i: nat, queue: PriorityQueue,
                 dist0: seq<Dist>, prev0: seq<Option<nat>>, ghost via0: seq<nat>, ghost stamp0: seq<nat>, ghost clock0: nat,
                 nb: nat, nd: nat)
    returns (dist: seq<Dist>, prev: seq<Option<nat>>, ghost via: seq<nat>, ghost stamp: seq<nat>, ghost clock: nat)
    requires StateInv(g, s, dist0, prev0, via0, stamp0, clock0) && current < |g.nodes| && i < |g.edges|
    requires queue.Valid() && QueueSound(dist0, queue.Contents())
    requires CoveredExcept(g, dist0, queue.Contents(), current, i)
    requires Improves(g, dist0, current, i, nb, nd)
    modifies queue
    ensures dist == dist0[nb := Finite(nd)] && prev == prev0[nb := Some(current)]
    ensures queue.Contents() == old(queue.Contents()) + multiset{Entry(nb, nd)}
    ensures StateInv(g, s, dist, prev, via, stamp, clock)
    ensures queue.Valid() && QueueSound(dist, queue.Contents())
    ensures CoveredExcept(g, dist, queue.Contents(), current, i + 1)
    ensures ImprovedThrough(dist, prev, dist0, prev0, current) && dist[current] == dist0[current]
    ensures InfCount(dist) < InfCount(dist0) ||
            (InfCount(dist) == InfCount(dist0) && 2 * FinSum(dist) + |queue.heap| <= 2 * FinSum(dist0) + old(|queue.heap|))
    ensures RelaxedUpTo(g, dist0, current, i) ==> RelaxedUpTo(g, dist, current, i + 1)
  {
    RelaxKeepsState(g, s, dist0, prev0, via0, stamp0, clock0, current, i, nb, nd);
    RelaxKeepsCover(g, dist0, queue.Contents(), current, i, nb, nd);
    RelaxKeepsQueue(dist0, queue.Contents(), nb, nd);
    ImproveLowersMeasure(dist0, nb, nd);
    ImproveOnce(dist0, prev0, current, nb, nd);
    if RelaxedUpTo(g, dist0, current, i) {
      RelaxedAfterImprove(g, dist0, current, i, nb, nd);
    }
    dist := dist0[nb := Finite(nd)];
    prev := prev0[nb := Some(current)];
    via := via0[nb := i];
    clock := clock0 + 1;
    stamp := stamp0[nb := clock];
    queue.Enqueue(Entry(nb, nd));
  }

  /**
   * The per-edge step of an expansion: when edge `i` touches `current`, try
   * its far end at `distances[current] + weight` and, on a strict
   * improvement, record the new distance and `current` as predecessor and
   * queue the neighbour again (earlier entries for it stay in the queue).
   */
  method TryEdge(g: Graph, s: nat, current: nat, i: nat, queue: PriorityQueue,
                 dist0: seq<Dist>, prev0: seq<Option<nat>>, ghost via0: seq<nat>, ghost stamp0: seq<nat>, ghost clock0: nat)
    returns (dist: seq<Dist>, prev: seq<Option<nat>>, ghost via: seq<nat>, ghost stamp: seq<nat>, ghost clock: nat)
    requires StateInv(g, s, dist0, prev0, via0, stamp0, clock0) && current < |g.nodes| && i < |g.edges|
    requires queue.Valid() && QueueSound(dist0, queue.Contents())
    requires CoveredExcept(g, dist0, queue.Contents(), current, i)
    modifies queue
    ensures StateInv(g, s, dist, prev, via, stamp, clock)
    ensures queue.Valid() && QueueSound(dist, queue.Contents())
    ensures CoveredExcept(g, dist, queue.Contents(), current, i + 1)
    ensures ImprovedThrough(dist, prev, dist0, prev0, current) && dist[current] == dist0[current]
    ensures InfCount(dist) < InfCount(dist0) ||
            (InfCount(dist) == InfCount(dist0) && 2 * FinSum(dist) + |queue.heap| <= 2 * FinSum(dist0) + old(|queue.heap|))
    ensures var e := g.edges[i]; var nb := Other(e, current); var nd := Add(dist0[current], e.weight as nat);
      if Incident(e, current) && Less(nd, dist0[nb]) then
        dist == dist0[nb := nd] && prev == prev0[nb := Some(current)] &&
        queue.Contents() == old(queue.Contents()) + multiset{Entry(nb, nd.value)}
      else
        dist == dist0 && prev == prev0 && queue.Contents() == old(queue.Contents())
    ensures RelaxedUpTo(g, dist0, current, i) ==> RelaxedUpTo(g, dist, current, i + 1)
    ensures old(queue.Contents()) <= queue.Contents()
  {
    dist, prev, via, stamp, clock := dist0, prev0, via0, stamp0, clock0;
    var edge := g.edges[i];
    if edge.source == current || edge.target == current {
      var neighbor := if edge.source == current then edge.target else edge.source;
      var newDistance := Add(dist[current], edge.weight as nat);
      if Less(newDistance, dist[neighbor]) {
        dist, prev, via, stamp, clock :=
          Improve(g, s, current, i, queue, dist, prev, via, stamp, clock, neighbor, newDistance.value);
        return;
      }
    }
    SkipKeeps(g, dist, queue.Contents(), current, i);
    if RelaxedUpTo(g, dist, current, i) {
      RelaxedAfterSkip(g, dist, current, i);
    }
    ImprovedRefl(dist, prev, current);
  }

  /** The per-edge step of script.js applied to the first `n` edges in
      order, starting from distances `d0` and predecessors `p0`: the
      resulting distances, predecessors, and the entries pushed. */
  ghost function RelaxAll(g: Graph, cur: nat, d0: seq<Dist>, p0: seq<Option<nat>>, n: nat)
    : (r: (seq<Dist>, seq<Option<nat>>, multiset<Entry>))
    requires WellFormed(g) && |d0| == |p0| == |g.nodes| && cur < |g.nodes| && n <= |g.edges|
    ensures |r.0| == |d0| && |r.1| == |p0|
    decreases n
  {
    if n == 0 then (d0, p0, multiset{})
    else
      var (d, p, q) := RelaxAll(g, cur, d0, p0, n - 1);
      var e := g.edges[n - 1];
      var nb := Other(e, cur);
      var nd := Add(d[cur], e.weight as nat);
      if Incident(e, cur) && Less(nd, d[nb]) then
        (d[nb := nd], p[nb := Some(cur)], q + multiset{Entry(nb, nd.value)})
      else
        (d, p, q)
  }

  /** One more per-edge step, as `TryEdge` states it, extends the fold by
      one edge. */
  lemma RelaxAllStep(g: Graph, cur: nat, d0: seq<Dist>, p0: seq<Option<nat>>, i: nat,
                     d1: seq<Dist>, p1: seq<Option<nat>>, d2: seq<Dist>, p2: seq<Option<nat>>,
                     q0: multiset<Entry>, q1: multiset<Entry>, q2: multiset<Entry>)
    requires WellFormed(g) && |d0| == |p0| == |g.nodes| && cur < |g.nodes| && i < |g.edges|
    requires var r := RelaxAll(g, cur, d0, p0, i); d1 == r.0 && p1 == r.1 && q1 == q0 + r.2
    requires var e := g.edges[i]; var nb := Other(e, cur); var nd := Add(d1[cur], e.weight as nat);
      if Incident(e, cur) && Less(nd, d1[nb]) then
        d2 == d1[nb := nd] && p2 == p1[nb := Some(cur)] && q2 == q1 + multiset{Entry(nb, nd.value)}
      else
        d2 == d1 && p2 == p1 && q2 == q1
    ensures var r := RelaxAll(g, cur, d0, p0, i + 1); d2 == r.0 && p2 == r.1 && q2 == q0 + r.2
  {
    var r := RelaxAll(g, cur, d0, p0, i);
    var e := g.edges[i];
    var nb := Other(e, cur);
    var nd := Add(d1[cur], e.weight as nat);
    if Incident(e, cur) && Less(nd, d1[nb]) {
      assert q0 + (r.2 + multiset{Entry(nb, nd.value)}) == q1 + multiset{Entry(nb, nd.value)};
    }
  }

  /** The entries queued while going from `d0` to `d` are exactly the
      pushes of improved nodes: each added entry names a node whose
      distance changed, and each changed node has its new distance among
      the added entries. */
  ghost predicate AddedMatch(d0: seq<Dist>, d: seq<Dist>, q0: multiset<Entry>, q: multiset<Entry>) {
    |d| == |d0| &&
    (forall e :: e in q - q0 ==> e.node < |d| && d[e.node] != d0[e.node]) &&
    (forall v :: 0 <= v < |d| && d[v] != d0[v] ==> d[v].Finite? && Entry(v, d[v].value) in q - q0)
  }

  /** One per-edge step keeps the added entries matched to the improved
      nodes: either nothing changes, or `nb` drops to `nd` and exactly
      `(nb, nd)` is pushed. */
  lemma AddedStep(d0: seq<Dist>, d1: seq<Dist>, d2: seq<Dist>, p0: seq<Option<nat>>, p1: seq<Option<nat>>,
                  q0: multiset<Entry>, q1: multiset<Entry>, q2: multiset<Entry>, u: nat, nb: nat, nd: Dist)
    requires AddedMatch(d0, d1, q0, q1) && q0 <= q1 && ImprovedThrough(d1, p1, d0, p0, u)
    requires (d2 == d1 && q2 == q1) ||
             (nb < |d1| && nd.Finite? && Less(nd, d1[nb]) && d2 == d1[nb := nd] &&
              q2 == q1 + multiset{Entry(nb, nd.value)})
    ensures AddedMatch(d0, d2, q0, q2) && q0 <= q2
  {
    if d2 != d1 || q2 != q1 {
      assert q2 - q0 == (q1 - q0) + multiset{Entry(nb, nd.value)};
    }
  }

  /**
   * Expands `current`: runs the per-edge step over every edge, in edge
   * order. Afterwards every node with a finite distance is covered again,
   * distances only went down, and every node whose distance changed was
   * strictly improved and now has `current` as its predecessor; the
   * entries pushed are exactly those of the improved nodes.
   */
  method Expand(g: Graph, s: nat, current: nat, queue: PriorityQueue,
                dist0: seq<Dist>, prev0: seq<Option<nat>>, ghost via0: seq<nat>, ghost stamp0: seq<nat>, ghost clock0: nat)
    returns (dist: seq<Dist>, prev: seq<Option<nat>>, ghost via: seq<nat>, ghost stamp: seq<nat>, ghost clock: nat)
    requires StateInv(g, s, dist0, prev0, via0, stamp0, clock0) && current < |g.nodes|
    requires queue.Valid() && QueueSound(dist0, queue.Contents())
    requires CoveredExcept(g, dist0, queue.Contents(), current, 0)
    modifies queue
    ensures StateInv(g, s, dist, prev, via, stamp, clock)
    ensures queue.Valid() && QueueSound(dist, queue.Contents()) && Covered(g, dist, queue.Contents())
    ensures ImprovedThrough(dist, prev, dist0, prev0, current) && dist[current] == dist0[current]
    ensures InfCount(dist) < InfCount(dist0) ||
            (InfCount(dist) == InfCount(dist0) && 2 * FinSum(dist) + |queue.heap| <= 2 * FinSum(dist0) + old(|queue.heap|))
    ensures old(queue.Contents()) <= queue.Contents()
    ensures AddedMatch(dist0, dist, old(queue.Contents()), queue.Contents())
    ensures var r := RelaxAll(g, current, dist0, prev0, |g.edges|);
      dist == r.0 && prev == r.1 && queue.Contents() == old(queue.Contents()) + r.2
    ensures dist0[current].Finite? ==> RelaxedUpTo(g, dist, current, |g.edges|)
  {
    dist, prev, via, stamp, clock := dist0, prev0, via0, stamp0, clock0;
    for i := 0 to |g.edges|
      invariant StateInv(g, s, dist, prev, via, stamp, clock)
      invariant queue.Valid() && QueueSound(dist, queue.Contents())
      invariant CoveredExcept(g, dist, queue.Contents(), current, i)
      invariant ImprovedThrough(dist, prev, dist0, prev0, current) && dist[current] == dist0[current]
      invariant InfCount(dist) < InfCount(dist0) ||
                (InfCount(dist) == InfCount(dist0) && 2 * FinSum(dist) + |queue.heap| <= 2 * FinSum(dist0) + old(|queue.heap|))
      invariant old(queue.Contents()) <= queue.Contents()
      invariant AddedMatch(dist0, dist, old(queue.Contents()), queue.Contents())
      invariant var r := RelaxAll(g, current, dist0, prev0, i);
        dist == r.0 && prev == r.1 && queue.Contents() == old(queue.Contents()) + r.2
      invariant dist0[current].Finite? ==> RelaxedUpTo(g, dist, current, i)
    {
      ghost var distBefore, prevBefore, queueBefore := dist, prev, queue.Contents();
      dist, prev, via, stamp, clock := TryEdge(g, s, current, i, queue, dist, prev, via, stamp, clock);
      assert old(queue.Contents()) <= queueBefore <= queue.Contents();
      RelaxAllStep(g, current, dist0, prev0, i, distBefore, prevBefore, dist, prev,
                   old(queue.Contents()), queueBefore, queue.Contents());
      AddedStep(dist0, distBefore, dist, prev0, prevBefore, old(queue.Contents()), queueBefore, queue.Contents(),
                current, Other(g.edges[i], current), Add(distBefore[current], g.edges[i].weight as nat));
      ImprovedTrans(dist, prev, distBefore, prevBefore, dist0, prev0, current);
    }
  }

  /** `c` follows predecessor pointers backwards: the predecessor of each
      node of `c` after the first is the node before it. */
  predicate IsPrevChain(prev: seq<Option<nat>>, c: seq<nat>) {
    (forall k :: 0 <= k < |c| ==> c[k] < |prev|) &&
    (forall k :: 0 < k < |c| ==> prev[c[k]] == Some(c[k - 1]))
  }

  /** Along a predecessor chain, (distance, stamp) strictly grows. */
  lemma {:induction false} ChainRises(g: Graph, s: nat, dist: seq<Dist>, prev: seq<Option<nat>>, via: seq<nat>,
                                      stamp: seq<nat>, clock: nat, c: seq<nat>, i: nat, j: nat)
    requires StateInv(g, s, dist, prev, via, stamp, clock) && IsPrevChain(prev, c) && i < j < |c|
    ensures dist[c[i]].Finite? && dist[c[j]].Finite?
    ensures dist[c[i]].value < dist[c[j]].value ||
            (dist[c[i]].value == dist[c[j]].value && stamp[c[i]] < stamp[c[j]])
    decreases j
  {
    assert prev[c[j]] == Some(c[j - 1]);
    assert PrevStep(g, dist, prev, via, stamp, c[j]);
    if i < j - 1 {
      ChainRises(g, s, dist, prev, via, stamp, clock, c, i, j - 1);
    }
  }

  /** Predecessor pointers never form a cycle: a chain of them visits no node twice. */
  lemma PrevChainAcyclic(g: Graph, s: nat, dist: seq<Dist>, prev: seq<Option<nat>>, via: seq<nat>,
                         stamp: seq<nat>, clock: nat, c: seq<nat>)
    requires StateInv(g, s, dist, prev, via, stamp, clock) && IsPrevChain(prev, c)
    ensures forall i, j :: 0 <= i < j < |c| ==> c[i] != c[j]
  {
    forall i, j | 0 <= i < j < |c|
      ensures c[i] != c[j]
    {
      ChainRises(g, s, dist, prev, via, stamp, clock, c, i, j);
    }
  }

  /** Rank of a reconstruction cursor: grows along predecessor pointers' reverse. */
  function Rank(dist: seq<Dist>, cur: Option<nat>): nat {
    match cur
    case None => 0
    case Some(v) => if v < |dist| && dist[v].Finite? then dist[v].value + 1 else 1
  }

  /** Stamp of a reconstruction cursor. */
  function StampAt(stamp: seq<nat>, cur: Option<nat>): nat {
    match cur
    case None => 0
    case Some(v) => if v < |stamp| then stamp[v] else 0
  }

  /**
   * Walks the predecessor pointers back from `t`, prepending each node: the
   * result is a walk ending at `t`; it starts at `s` when `t` has a finite
   * distance, and weighs no more than that distance; otherwise it is `[t]`.
   */
  method Reconstruct(g: Graph, s: nat, t: nat, dist: seq<Dist>, prev: seq<Option<nat>>,
                     ghost via: seq<nat>, ghost stamp: seq<nat>, ghost clock: nat)
    returns (path: seq<nat>, ghost es: seq<nat>)
    requires StateInv(g, s, dist, prev, via, stamp, clock) && t < |g.nodes|
    ensures IsWalk(g, path, es) && path[|path| - 1] == t
    ensures dist[t].Finite? ==> path[0] == s && Weight(g, es) <= dist[t].value
    ensures dist[t].Infinity? ==> path == [t]
    ensures s == t ==> path == [s]
    ensures IsPrevChain(prev, path) && prev[path[0]] == None
    ensures forall i, j :: 0 <= i < j < |path| ==> path[i] != path[j]
  {
    path, es := [], [];
    var currentNode: Option<nat> := Some(t);
    while currentNode.Some?
      invariant currentNode.Some? ==> currentNode.value < |g.nodes|
      invariant path == [] ==> currentNode == Some(t) && es == []
      invariant path != [] ==> IsWalk(g, path, es) && path[|path| - 1] == t && currentNode == prev[path[0]]
      invariant path != [] && dist[t].Finite? ==>
        dist[path[0]].Finite? && dist[path[0]].value + Weight(g, es) <= dist[t].value
      invariant path != [] && (dist[t].Infinity? || s == t) ==> path == [t]
      invariant IsPrevChain(prev, path)
      decreases Rank(dist, currentNode), StampAt(stamp, currentNode)
    {
      var v := currentNode.value;
      if path != [] {
        var w := path[0];
        assert PrevStep(g, dist, prev, via, stamp, w);
        WeightCons(g, via[w], es);
        WalkCons(g, v, via[w], path, es);
        es := [via[w]] + es;
      }
      path := [v] + path;
      currentNode := prev[v];
    }
    PrevChainAcyclic(g, s, dist, prev, via, stamp, clock, path);
  }

  /**
   * The search phase: distances start at Infinity with no predecessors, the
   * start at 0 and queued; then entries are taken from the queue in order
   * of distance and their nodes expanded, until the end node is taken or
   * the queue runs dry. Afterwards no walk from `s` to `t` is shorter than
   * `t`'s distance, and the predecessors satisfy the invariant.
   */
  method Search(g: Graph, s: nat, t: nat)
    returns (distances: seq<Dist>, previousNodes: seq<Option<nat>>, ghost viaEdges: seq<nat>, ghost stamp: seq<nat>, ghost clock: nat)
    requires WellFormed(g) && s < |g.nodes| && t < |g.nodes|
    ensures StateInv(g, s, distances, previousNodes, viaEdges, stamp, clock)
    ensures LowerBound(g, s, t, distances)
  {
    distances, previousNodes, viaEdges, stamp, clock := [], [], [], [], 0;
    var queue := new PriorityQueue();
    for k := 0 to |g.nodes|
      invariant |distances| == |previousNodes| == |viaEdges| == |stamp| == k
      invariant forall v :: 0 <= v < k ==> distances[v] == Infinity && previousNodes[v] == None && stamp[v] == 0
    {
      distances := distances + [Infinity];
      previousNodes := previousNodes + [None];
      viaEdges := viaEdges + [0];
      stamp := stamp + [0];
    }
    distances := distances[s := Finite(0)];
    queue.Enqueue(Entry(s, 0));

    ghost var reachedEnd := false;
    while !queue.IsEmpty()
      invariant StateInv(g, s, distances, previousNodes, viaEdges, stamp, clock)
      invariant queue.Valid() && QueueSound(distances, queue.Contents()) && Covered(g, distances, queue.Contents())
      invariant !reachedEnd
      decreases InfCount(distances), 2 * FinSum(distances) + |queue.heap|
    {
      ghost var pending := queue.Contents();
      var popped := queue.Dequeue();
      var entry := popped.value;
      var currentNode := entry.node;
      if currentNode == t {
        Settled(g, s, t, distances, pending);
        reachedEnd := true;
        break;
      }
      PopKeeps(g, distances, pending, queue.Contents(), entry);
      distances, previousNodes, viaEdges, stamp, clock :=
        Expand(g, s, currentNode, queue, distances, previousNodes, viaEdges, stamp, clock);
    }
    if !reachedEnd {
      Settled(g, s, t, distances, queue.Contents());
    }
  }

  /**
   * The shortest-path engine. `None` when the start or end label names no
   * node (nothing is computed). Otherwise the node sequence it produces:
   * `[start]` when start and end coincide, `[end]` when no walk connects
   * them, and otherwise a walk from start to end (with edges `via`) whose
   * weight no walk between them undercuts.
   */
  method FindShortestPath(g: Graph, startLabel: string, endLabel: string) returns (path: Option<seq<nat>>, ghost via: seq<nat>)
    requires WellFormed(g)
    ensures path.None? <==> Find(g.nodes, startLabel).None? || Find(g.nodes, endLabel).None?
    ensures path.Some? ==>
      var s, t := Find(g.nodes, startLabel).value, Find(g.nodes, endLabel).value;
      (s == t ==> path.value == [s]) &&
      (Reachable(g, s, t) ==> IsShortestWalk(g, s, t, path.value, via)) &&
      (!Reachable(g, s, t) ==> path.value == [t])
    ensures path.Some? ==> forall i, j :: 0 <= i < j < |path.value| ==> path.value[i] != path.value[j]
  {
    var startNode := Find(g.nodes, startLabel);
    var endNode := Find(g.nodes, endLabel);
    if startNode.None? || endNode.None? {
      return None, [];
    }
    var s, t := startNode.value, endNode.value;
    var distances, previousNodes, viaEdges, stamp, clock := Search(g, s, t);
    var nodes, es := Reconstruct(g, s, t, distances, previousNodes, viaEdges, stamp, clock);
    PathMeaning(g, s, t, distances, nodes, es);
    path, via := Some(nodes), es;
  }
}
