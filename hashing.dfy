/** The consistent-hash ring that assigns keys to nodes. Every node owns
    `replicas` points on the ring (the hash of "node:i"); a key belongs to
    the owner of the first point strictly above the key's hash, wrapping
    round to the smallest point. The hash itself is a parameter. */
module HashRing {
  import opened Bytes
  import opened Wrappers
  import opened Sequences

  type Node = Bytes

  /** A position on the ring: a SHA-256 digest read as a non-negative integer. */
  type Point = nat

  predicate Sorted(s: seq<Point>) {
    forall i, j :: 0 <= i < j < |s| ==> s[i] <= s[j]
  }

  /** `bisect.bisect` (`bisect_right`): the index of the first point above `h`. */
  function BisectRight(s: seq<Point>, h: nat): (i: nat)
    requires Sorted(s)
    ensures i <= |s|
    ensures forall j :: 0 <= j < i ==> s[j] <= h
    ensures forall j :: i <= j < |s| ==> s[j] > h
  {
    if s == [] || s[0] > h then 0 else 1 + BisectRight(s[1..], h)
  }

  /** `bisect.insort`: `x` goes after every point not above it. */
  function Insort(s: seq<Point>, x: Point): (r: seq<Point>)
    requires Sorted(s)
    ensures Sorted(r)
    ensures multiset(r) == multiset(s) + multiset{x}
  {
    var i := BisectRight(s, x);
    assert s == s[..i] + s[i..];
    InsortSorted(s, x, i);
    s[..i] + [x] + s[i..]
  }

  lemma {:induction false} InsortSorted(s: seq<Point>, x: Point, i: nat)
    requires Sorted(s) && i <= |s|
    requires forall j :: 0 <= j < i ==> s[j] <= x
    requires forall j :: i <= j < |s| ==> s[j] > x
    ensures Sorted(s[..i] + [x] + s[i..])
  {
    var r := s[..i] + [x] + s[i..];
    forall a, b | 0 <= a < b < |r|
      ensures r[a] <= r[b]
    {
      if a < i && b > i {
        assert r[a] == s[a] && r[b] == s[b - 1];
      } else if a > i {
        assert r[a] == s[a - 1] && r[b] == s[b - 1];
      } else if b < i {
        assert r[a] == s[a] && r[b] == s[b];
      }
    }
  }

  lemma {:induction false} WithoutSorted(s: seq<Point>, x: Point)
    requires Sorted(s)
    ensures Sorted(Without(s, x))
  {
    if s != [] {
      WithoutSorted(s[1..], x);
      if s[0] != x {
        var r := Without(s[1..], x);
        forall i, j | 0 <= i < j < |[s[0]] + r|
          ensures ([s[0]] + r)[i] <= ([s[0]] + r)[j]
        {
          if i == 0 {
            assert r[j - 1] in s[1..];
            var k :| 0 <= k < |s[1..]| && s[1..][k] == r[j - 1];
            assert s[k + 1] == r[j - 1];
          }
        }
      }
    }
  }

  /** `list.remove`: the first occurrence of `x` taken out of `s`. */
  function RemoveOnce(s: seq<Point>, x: Point): seq<Point> {
    if s == [] then []
    else if s[0] == x then s[1..]
    else [s[0]] + RemoveOnce(s[1..], x)
  }

  /** `sorted_keys` lists exactly the points of `ring`, ascending. */
  ghost predicate Listing(sortedKeys: seq<Point>, ring: map<Point, Node>) {
    Sorted(sortedKeys) && forall p :: p in sortedKeys <==> p in ring
  }

  /** Giving one more point to a node and inserting it in the list keeps the
      two in step. */
  lemma {:induction false} PlaceStep(sortedKeys: seq<Point>, ring: map<Point, Node>, key: Point, node: Node)
    requires Listing(sortedKeys, ring)
    ensures Listing(Insort(sortedKeys, key), ring[key := node])
  {
    var r := Insort(sortedKeys, key);
    forall p
      ensures p in r <==> p in ring[key := node]
    {
      assert p in r <==> p in multiset(r);
      assert p in sortedKeys <==> p in multiset(sortedKeys);
    }
  }

  /** Taking a point off the ring and every copy of it off the list keeps
      the two in step. */
  lemma {:induction false} UnplaceStep(sortedKeys: seq<Point>, ring: map<Point, Node>, key: Point)
    requires Listing(sortedKeys, ring)
    ensures Listing(Without(sortedKeys, key), ring - {key})
  {
    WithoutSorted(sortedKeys, key);
  }

  /** The loop invariant of `add_node`: the points `done` have gone to
      `node`, every other point keeps its owner. */
  ghost predicate Placed(ring0: map<Point, Node>, ring: map<Point, Node>, done: seq<Point>, node: Node) {
    && (forall p :: p in ring <==> p in ring0 || p in done)
    && (forall p :: p in ring ==> ring[p] == if p in done then node else ring0[p])
  }

  lemma {:induction false} PlacedStep(ring0: map<Point, Node>, ring: map<Point, Node>, done: seq<Point>, node: Node, key: Point)
    requires Placed(ring0, ring, done, node)
    ensures Placed(ring0, ring[key := node], done + [key], node)
  {
  }

  /** One step of the `add_node` loop. */
  lemma {:induction false} AddStep(ring0: map<Point, Node>, sk0: seq<Point>, sortedKeys: seq<Point>, ring: map<Point, Node>, ps: seq<Point>, i: nat, node: Node)
    requires i < |ps|
    requires Listing(sortedKeys, ring) && Placed(ring0, ring, ps[..i], node)
    requires multiset(sortedKeys) == multiset(sk0) + multiset(ps[..i])
    ensures Listing(Insort(sortedKeys, ps[i]), ring[ps[i] := node])
    ensures Placed(ring0, ring[ps[i] := node], ps[..i + 1], node)
    ensures multiset(Insort(sortedKeys, ps[i])) == multiset(sk0) + multiset(ps[..i + 1])
  {
    PlaceStep(sortedKeys, ring, ps[i], node);
    PlacedStep(ring0, ring, ps[..i], node, ps[i]);
    assert ps[..i + 1] == ps[..i] + [ps[i]];
  }

  lemma {:induction false} PlacedAll(ring0: map<Point, Node>, ring: map<Point, Node>, done: seq<Point>, node: Node)
    requires Placed(ring0, ring, done, node)
    ensures ring == Assign(ring0, (set p | p in done), node)
  {
    var a := Assign(ring0, (set p | p in done), node);
    assert ring.Keys == a.Keys;
  }

  /** The loop invariant of `remove_node`: the points `done` are gone,
      every other point keeps its owner. */
  ghost predicate Unplaced(ring0: map<Point, Node>, ring: map<Point, Node>, done: seq<Point>) {
    && (forall p :: p in ring <==> p in ring0 && p !in done)
    && (forall p :: p in ring ==> ring[p] == ring0[p])
  }

  lemma {:induction false} UnplacedStep(ring0: map<Point, Node>, ring: map<Point, Node>, done: seq<Point>, key: Point)
    requires Unplaced(ring0, ring, done)
    ensures Unplaced(ring0, ring - {key}, done + [key])
  {
  }

  /** One step of the second loop of `remove_node`. */
  lemma {:induction false} RemoveStep(ring0: map<Point, Node>, sortedKeys: seq<Point>, ring: map<Point, Node>, owned: seq<Point>, i: nat)
    requires i < |owned|
    requires Listing(sortedKeys, ring) && Unplaced(ring0, ring, owned[..i])
    ensures Listing(Without(sortedKeys, owned[i]), ring - {owned[i]})
    ensures Unplaced(ring0, ring - {owned[i]}, owned[..i + 1])
  {
    UnplaceStep(sortedKeys, ring, owned[i]);
    UnplacedStep(ring0, ring, owned[..i], owned[i]);
    assert owned[..i + 1] == owned[..i] + [owned[i]];
  }

  lemma {:induction false} UnplacedAll(ring0: map<Point, Node>, ring: map<Point, Node>, done: seq<Point>, node: Node)
    requires Unplaced(ring0, ring, done)
    requires forall p :: p in done <==> p in ring0 && ring0[p] == node
    ensures ring == ring0 - Owned(ring0, node)
  {
    var r := ring0 - Owned(ring0, node);
    assert ring.Keys == r.Keys;
  }

  /** The points of a set above `h`. */
  ghost function Above(points: set<Point>, h: nat): set<Point> {
    set p | p in points && p > h
  }

  lemma {:induction false} LeastOf(s: set<Point>) returns (m: Point)
    requires s != {}
    ensures m in s && forall q :: q in s ==> m <= q
  {
    var y :| y in s;
    if s == {y} {
      m := y;
    } else {
      var r := LeastOf(s - {y});
      m := if r < y then r else y;
      forall q | q in s
        ensures m <= q
      {
        if q != y {
          assert q in s - {y};
        }
      }
    }
  }

  lemma {:induction false} LeastExists(s: set<Point>)
    requires s != {}
    ensures exists m :: m in s && forall q :: q in s ==> m <= q
  {
    var m := LeastOf(s);
  }

  ghost function Least(s: set<Point>): (m: Point)
    requires s != {}
    ensures m in s && forall q :: q in s ==> m <= q
  {
    LeastExists(s);
    var m :| m in s && forall q :: q in s ==> m <= q;
    m
  }

  /** The node a hash belongs to: the owner of the least point above it,
      else of the least point of all; none on an empty ring. */
  ghost function Owner(ring: map<Point, Node>, h: nat): Option<Node> {
    if ring == map[] then None
    else if Above(ring.Keys, h) != {} then Some(ring[Least(Above(ring.Keys, h))])
    else Some(ring[Least(ring.Keys)])
  }

  /** `ring` with every point of `ps` given to `node`. */
  function Assign(ring: map<Point, Node>, ps: set<Point>, node: Node): (r: map<Point, Node>)
    ensures r.Keys == ring.Keys + ps
    ensures forall p :: p in r ==> r[p] == if p in ps then node else ring[p]
  {
    ring + map p | p in ps :: node
  }

  /** The points a node owns. */
  function Owned(ring: map<Point, Node>, node: Node): set<Point> {
    set p | p in ring && ring[p] == node
  }

  lemma {:induction false} LeastUnique(s: set<Point>, m: Point)
    requires m in s && forall q :: q in s ==> m <= q
    ensures Least(s) == m
  {
  }

  /** Adding a node moves a key only to that node: its owner is either
      unchanged or the new node. */
  lemma {:induction false} OwnerAfterAdd(ring: map<Point, Node>, ps: set<Point>, node: Node, h: nat)
    ensures var o := Owner(Assign(ring, ps, node), h);
      o == Owner(ring, h) || o == Some(node)
  {
    var r := Assign(ring, ps, node);
    if r != map[] && ring != map[] {
      var s, s' := ring.Keys, r.Keys;
      if Above(s', h) != {} {
        var p := Least(Above(s', h));
        if p !in ps {
          assert p in Above(s, h);
          assert Above(s, h) <= Above(s', h);
          LeastUnique(Above(s, h), p);
        }
      } else {
        var p := Least(s');
        if p !in ps {
          assert Above(s, h) <= Above(s', h);
          LeastUnique(s, p);
        }
      }
    }
  }

  /** Removing a node moves only the keys it owned. */
  lemma {:induction false} OwnerAfterRemove(ring: map<Point, Node>, node: Node, h: nat)
    requires Owner(ring, h) != Some(node)
    ensures Owner(ring - Owned(ring, node), h) == Owner(ring, h)
  {
    var r := ring - Owned(ring, node);
    if ring != map[] {
      var s, s' := ring.Keys, r.Keys;
      if Above(s, h) != {} {
        var p := Least(Above(s, h));
        assert p in Above(s', h);
        assert Above(s', h) <= Above(s, h);
        LeastUnique(Above(s', h), p);
      } else {
        var p := Least(s);
        assert p in s';
        assert Above(s', h) <= Above(s, h);
        LeastUnique(s', p);
      }
    }
  }

  /** `remove_node` as written removes, for each point the node owns, one
      occurrence from the sorted list. A node added twice has every point
      listed twice, so after its removal a point is still listed that the
      ring no longer maps. With another node left the ring is not empty, and
      `get_node` for a hash below that point bisects onto it and fails
      looking it up: here node `node` owns point 7, added twice, and `other`
      owns point 9. */
  lemma {:induction false} RemoveOnceLeavesStale(node: Node, other: Node)
    requires node != other
    ensures BisectRight([7, 9], 0) == 0 && 7 !in map[9 := other]
    ensures Insort(Insort(Insort([], 7), 7), 9) == [7, 7, 9]
    ensures RemoveOnce([7, 7, 9], 7) == [7, 9]
    ensures var ring := Assign(Assign(Assign(map[], {7}, node), {7}, node), {9}, other);
      ring - Owned(ring, node) == map[9 := other]
  {
    StaleListing();
    StaleRing(node, other);
  }

  lemma {:induction false} StaleListing()
    ensures Insort(Insort(Insort([], 7), 7), 9) == [7, 7, 9]
  {
    assert BisectRight([], 7) == 0;
    assert Insort([], 7) == [7];
    assert BisectRight([7], 7) == 1;
    assert Insort([7], 7) == [7, 7];
    assert BisectRight([7, 7], 9) == 2;
  }

  lemma {:induction false} StaleRing(node: Node, other: Node)
    requires node != other
    ensures var ring := Assign(Assign(Assign(map[], {7}, node), {7}, node), {9}, other);
      ring - Owned(ring, node) == map[9 := other]
  {
    var ring := Assign(Assign(Assign(map[], {7}, node), {7}, node), {9}, other);
    assert ring == map[7 := node, 9 := other];
    assert Owned(ring, node) == {7};
  }

  /** The list read from position `start` round to just before it. */
  function Walk(s: seq<Point>, start: nat): (w: seq<Point>)
    requires start <= |s|
    ensures |w| == |s|
  {
    s[start..] + s[..start]
  }

  /** Position `j` of the walk is position `(start + j) % |s|` of the list,
      which is how `get_nodes_for_key` indexes it. */
  lemma {:induction false} WalkAt(s: seq<Point>, start: nat, j: nat)
    requires start <= |s| && j < |s|
    ensures Walk(s, start)[j] == s[(start + j) % |s|]
  {
    var n := |s|;
    if start + j < n {
      ModBelow(start + j, n);
      assert Walk(s, start)[j] == s[start..][j];
    } else {
      ModWrap(start + j, n);
      assert Walk(s, start)[j] == s[..start][j - (n - start)];
    }
  }

  lemma {:induction false} ModBelow(a: nat, n: nat)
    requires a < n
    ensures a % n == a
  {
  }

  lemma {:induction false} ModWrap(a: nat, n: nat)
    requires n <= a < 2 * n
    ensures a % n == a - n
  {
  }

  /** Every listed point is met on the walk. */
  lemma {:induction false} WalkCovers(s: seq<Point>, start: nat)
    requires start <= |s|
    ensures forall p :: p in s ==> p in Walk(s, start)
  {
    assert s == s[..start] + s[start..];
  }

  /** Each of the first `i` owners once, in the order first met. */
  function FirstSeenUpTo(owners: seq<Node>, i: nat): seq<Node>
    requires i <= |owners|
  {
    if i == 0 then []
    else
      var front := FirstSeenUpTo(owners, i - 1);
      if owners[i - 1] in front then front else front + [owners[i - 1]]
  }

  /** Each owner once, in the order first met. */
  function FirstSeen(owners: seq<Node>): seq<Node> {
    FirstSeenUpTo(owners, |owners|)
  }

  /** The first-met order holds every owner met, each once. */
  lemma {:induction false} FirstSeenMeaning(owners: seq<Node>, i: nat)
    requires i <= |owners|
    ensures forall x :: x in FirstSeenUpTo(owners, i) <==> x in owners[..i]
    ensures forall a, b :: 0 <= a < b < |FirstSeenUpTo(owners, i)| ==> FirstSeenUpTo(owners, i)[a] != FirstSeenUpTo(owners, i)[b]
    ensures |FirstSeenUpTo(owners, i)| <= i
  {
    if i > 0 {
      FirstSeenMeaning(owners, i - 1);
      assert owners[..i] == owners[..i - 1] + [owners[i - 1]];
    }
  }

  /** What a shorter walk has met first is what a longer one meets first. */
  lemma {:induction false} FirstSeenPrefix(owners: seq<Node>, i: nat, k: nat)
    requires i <= k <= |owners|
    ensures FirstSeenUpTo(owners, i) <= FirstSeenUpTo(owners, k)
    decreases k
  {
    if i < k {
      FirstSeenPrefix(owners, i, k - 1);
    }
  }

  /** The first `n` of `s`; all of it when it is shorter, or when `n` is
      below one (a list that already holds a node never has length `n` then). */
  function Cut(s: seq<Node>, n: int): (r: seq<Node>)
    ensures r <= s
    ensures n >= 1 ==> |r| == if |s| < n then |s| else n
    ensures n < 1 ==> r == s
  {
    if n >= 1 && n < |s| then s[..n] else s
  }

  /** What `get_nodes_for_key` returns, element by element: distinct owners,
      at most `n` of them, the first owner met first, and every owner met
      unless `n` were collected. */
  ghost predicate Picked(owners: seq<Node>, nodes: seq<Node>, n: int) {
    && (forall a, b :: 0 <= a < b < |nodes| ==> nodes[a] != nodes[b])
    && (forall x :: x in nodes ==> x in owners)
    && (n >= 1 ==> |nodes| <= n)
    && (owners != [] ==> |nodes| >= 1 && nodes[0] == owners[0])
    && (n < 1 || |nodes| < n ==> forall j :: 0 <= j < |owners| ==> owners[j] in nodes)
  }

  /** The first `n` owners met, each once, have those properties. */
  lemma {:induction false} CutMeaning(owners: seq<Node>, n: int)
    ensures Picked(owners, Cut(FirstSeen(owners), n), n)
  {
    var all := FirstSeen(owners);
    var nodes := Cut(all, n);
    FirstSeenMeaning(owners, |owners|);
    assert owners[..|owners|] == owners;
    forall a, b | 0 <= a < b < |nodes|
      ensures nodes[a] != nodes[b]
    {
      assert nodes[a] == all[a] && nodes[b] == all[b];
    }
    forall x | x in nodes
      ensures x in owners
    {
      var j :| 0 <= j < |nodes| && nodes[j] == x;
      assert all[j] == x;
    }
    if owners != [] {
      FirstSeenPrefix(owners, 1, |owners|);
      assert FirstSeenUpTo(owners, 1) == [owners[0]];
    }
  }

  /** The invariant of the `get_nodes_for_key` loop after `i` steps of the
      walk: `nodes` holds the owners met so far, each once, in the order
      first met, and the walk stops as soon as `n` are held. */
  ghost predicate Collected(owners: seq<Node>, i: nat, nodes: seq<Node>, n: int, stopped: bool) {
    && i <= |owners|
    && nodes == FirstSeenUpTo(owners, i)
    && (n >= 1 && !stopped ==> |nodes| < n)
    && (stopped ==> i > 0 && n >= 1 && |nodes| == n)
  }

  lemma {:induction false} CollectStep(owners: seq<Node>, i: nat, nodes: seq<Node>, next: seq<Node>, n: int, stop: bool)
    requires Collected(owners, i, nodes, n, false) && i < |owners|
    requires next == if owners[i] in nodes then nodes else nodes + [owners[i]]
    requires stop == (|next| == n)
    ensures Collected(owners, i + 1, next, n, stop)
  {
    assert owners[i] in next;
  }

  /** A finished walk has collected the first `n` owners it met. */
  lemma {:induction false} CollectedCut(owners: seq<Node>, i: nat, nodes: seq<Node>, n: int, stopped: bool)
    requires Collected(owners, i, nodes, n, stopped)
    requires i == |owners| || stopped
    ensures nodes == Cut(FirstSeen(owners), n)
  {
    FirstSeenPrefix(owners, i, |owners|);
  }

  /** The owner of each point of a walk. */
  function OwnersOf(ring: map<Point, Node>, walk: seq<Point>): (o: seq<Node>)
    requires forall p :: p in walk ==> p in ring
    ensures |o| == |walk| && forall j :: 0 <= j < |walk| ==> o[j] == ring[walk[j]]
  {
    seq(|walk|, j requires 0 <= j < |walk| => ring[walk[j]])
  }

  class Ring {
    const replicas: int
    /** The hash of the `i`-th point name of a node ("node:i"). */
    const pointOf: (Node, nat) -> Point
    var ring: map<Point, Node>
    var sortedKeys: seq<Point>

    /** `sorted_keys` lists exactly the points of `ring`, ascending. */
    ghost predicate Valid()
      reads this
    {
      Listing(sortedKeys, ring)
    }

    /** The points a node is given: one per replica. */
    function Points(node: Node): (ps: seq<Point>)
      ensures |ps| == Bound(replicas)
    {
      seq(Bound(replicas), i requires 0 <= i < Bound(replicas) => pointOf(node, i))
    }

    /** The points of one node, as a set. */
    function PointSet(node: Node): (ps: set<Point>)
      ensures forall p :: p in ps <==> p in Points(node)
    {
      set p | p in Points(node)
    }

    /** The ring after adding `nodes` one by one to an empty one. */
    ghost function Built(nodes: seq<Node>): map<Point, Node>
    {
      if nodes == [] then map[]
      else Assign(Built(nodes[..|nodes| - 1]), PointSet(nodes[|nodes| - 1]), nodes[|nodes| - 1])
    }

    /** Every point of `nodes`, one entry per replica of each node. */
    ghost function AllPoints(nodes: seq<Node>): seq<Point>
    {
      if nodes == [] then [] else AllPoints(nodes[..|nodes| - 1]) + Points(nodes[|nodes| - 1])
    }

    /** `nodes[i]` is given `p` and no later node is. */
    ghost predicate LastHolder(nodes: seq<Node>, p: Point, i: int)
    {
      0 <= i < |nodes| && p in PointSet(nodes[i]) &&
      forall j :: i < j < |nodes| ==> p !in PointSet(nodes[j])
    }

    /** The built ring holds exactly the points some listed node is given. */
    lemma {:induction false} BuiltKeys(nodes: seq<Node>, p: Point)
      ensures p in Built(nodes) <==> p in AllPoints(nodes)
      decreases |nodes|
    {
      if nodes != [] {
        var n := |nodes| - 1;
        BuiltKeys(nodes[..n], p);
        assert p in PointSet(nodes[n]) <==> p in Points(nodes[n]);
      }
    }

    /** A point of the built ring is owned by the last listed node given it. */
    lemma {:induction false} BuiltOwner(nodes: seq<Node>, p: Point)
      requires p in Built(nodes)
      ensures exists i :: LastHolder(nodes, p, i) && Built(nodes)[p] == nodes[i]
      decreases |nodes|
    {
      var n := |nodes| - 1;
      var front := nodes[..n];
      if p in PointSet(nodes[n]) {
        assert Built(nodes)[p] == nodes[n];
        assert LastHolder(nodes, p, n);
      } else {
        assert p in Built(front);
        BuiltOwner(front, p);
        var i :| LastHolder(front, p, i) && Built(front)[p] == front[i];
        assert nodes[i] == front[i];
        forall j | i < j < |nodes|
          ensures p !in PointSet(nodes[j])
        {
          if j < n {
            assert nodes[j] == front[j];
          }
        }
        assert LastHolder(nodes, p, i);
      }
    }

    constructor (nodes: seq<Node>, replicas: int, pointOf: (Node, nat) -> Point)
      ensures Valid() && this.replicas == replicas && this.pointOf == pointOf
      ensures ring == Built(nodes)
      ensures multiset(sortedKeys) == multiset(AllPoints(nodes))
    {
      this.replicas := replicas;
      this.pointOf := pointOf;
      ring := map[];
      sortedKeys := [];
      new;
      var k := 0;
      while k < |nodes|
        invariant 0 <= k <= |nodes| && Valid()
        invariant ring == Built(nodes[..k])
        invariant multiset(sortedKeys) == multiset(AllPoints(nodes[..k]))
      {
        assert nodes[..k + 1][..k] == nodes[..k];
        AddNode(nodes[k]);
        k := k + 1;
      }
      assert nodes[..k] == nodes;
    }

    /** Places the node's points on the ring; the list stays sorted and
        gains exactly those points. */
    method AddNode(node: Node)
      requires Valid()
      modifies this
      ensures Valid()
      ensures ring == Assign(old(ring), (set p | p in Points(node)), node)
      ensures multiset(sortedKeys) == multiset(old(sortedKeys)) + multiset(Points(node))
    {
      var ps := Points(node);
      var i := 0;
      while i < |ps|
        invariant 0 <= i <= |ps| && Valid()
        invariant Placed(old(ring), ring, ps[..i], node)
        invariant multiset(sortedKeys) == multiset(old(sortedKeys)) + multiset(ps[..i])
      {
        var key := pointOf(node, i);
        assert key == ps[i];
        AddStep(old(ring), old(sortedKeys), sortedKeys, ring, ps, i, node);
        ring := ring[key := node];
        sortedKeys := Insort(sortedKeys, key);
        i := i + 1;
      }
      assert ps[..i] == ps;
      PlacedAll(old(ring), ring, ps, node);
    }

    /** The first loop of `remove_node`: the points the node owns, found
        by going through the ring. */
    method PointsOf(node: Node) returns (owned: seq<Point>)
      ensures forall p :: p in owned <==> p in ring && ring[p] == node
    {
      owned := [];
      var pending := ring.Keys;
      while pending != {}
        invariant pending <= ring.Keys
        invariant forall p :: p in owned <==> p in ring && ring[p] == node && p !in pending
        decreases pending
      {
        var key :| key in pending;
        if ring[key] == node {
          owned := owned + [key];
        }
        pending := pending - {key};
      }
    }

    /** Takes the node's points off the ring, every listed copy of each
        included, so the list and the ring stay in step. */
    method RemoveNode(node: Node)
      requires Valid()
      modifies this
      ensures Valid()
      ensures ring == old(ring) - Owned(old(ring), node)
    {
      var owned := PointsOf(node);
      var i := 0;
      while i < |owned|
        invariant 0 <= i <= |owned| && Valid()
        invariant Unplaced(old(ring), ring, owned[..i])
      {
        var key := owned[i];
        RemoveStep(old(ring), sortedKeys, ring, owned, i);
        ring := ring - {key};
        sortedKeys := Without(sortedKeys, key);
        i := i + 1;
      }
      assert owned[..i] == owned;
      UnplacedAll(old(ring), ring, owned, node);
    }

    /** `get_node`: the owner of the first listed point above the hash,
        wrapping to the first point; none on an empty ring. */
    function GetNode(h: nat): (r: Option<Node>)
      requires Valid()
      reads this
      ensures r == Owner(ring, h)
    {
      if ring == map[] then None
      else
        assert sortedKeys != [] by {
          var p :| p in ring;
          assert p in sortedKeys;
        }
        var i := BisectRight(sortedKeys, h);
        var idx := if i == |sortedKeys| then 0 else i;
        SuccessorIsOwner(h, i);
        Some(ring[sortedKeys[idx]])
    }

    lemma {:induction false} SuccessorIsOwner(h: nat, i: nat)
      requires Valid() && sortedKeys != []
      requires i == BisectRight(sortedKeys, h)
      ensures var idx := if i == |sortedKeys| then 0 else i;
        sortedKeys[idx] in ring && Owner(ring, h) == Some(ring[sortedKeys[idx]])
    {
      assert sortedKeys[0] in sortedKeys;
      var s := ring.Keys;
      forall q | q in s
        ensures exists j :: 0 <= j < |sortedKeys| && sortedKeys[j] == q
      {
        assert q in sortedKeys;
      }
      if i < |sortedKeys| {
        assert sortedKeys[i] in sortedKeys;
        forall q | q in Above(s, h)
          ensures sortedKeys[i] <= q
        {
          var j :| 0 <= j < |sortedKeys| && sortedKeys[j] == q;
        }
        LeastUnique(Above(s, h), sortedKeys[i]);
      } else {
        forall q | q in s
          ensures q <= h
        {
          var j :| 0 <= j < |sortedKeys| && sortedKeys[j] == q;
        }
        assert Above(s, h) == {};
        forall q | q in s
          ensures sortedKeys[0] <= q
        {
          var j :| 0 <= j < |sortedKeys| && sortedKeys[j] == q;
        }
        LeastUnique(s, sortedKeys[0]);
      }
    }

    /** `get_nodes_for_key`: walks the list from the key's successor,
        wrapping round, collecting each node the first time it is met and
        stopping once `n` are collected. */
    method GetNodesForKey(h: nat, n: int) returns (nodes: seq<Node>)
      requires Valid()
      ensures ring == map[] ==> nodes == []
      ensures forall i, j :: 0 <= i < j < |nodes| ==> nodes[i] != nodes[j]
      ensures forall x :: x in nodes ==> x in ring.Values
      ensures n >= 1 ==> |nodes| <= n
      ensures n >= 1 && ring != map[] ==> |nodes| >= 1 && Some(nodes[0]) == GetNode(h)
      ensures n < 1 || |nodes| < n ==> forall p :: p in ring ==> ring[p] in nodes
      ensures ring != map[] ==> nodes == Cut(FirstSeen(WalkOwners(h)), n)
    {
      nodes := [];
      if ring == map[] {
        return;
      }
      assert |sortedKeys| > 0 by {
        var p :| p in ring;
        assert p in sortedKeys;
      }
      var idx := BisectRight(sortedKeys, h);
      WalkInRing(idx);
      nodes := CollectFrom(idx, n);
      WalkDone(h, idx, nodes, n);
    }

    /** The loop of `get_nodes_for_key`, from list position `idx`. */
    method CollectFrom(idx: nat, n: int) returns (nodes: seq<Node>)
      requires 0 < |sortedKeys| && idx <= |sortedKeys|
      requires forall p :: p in Walk(sortedKeys, idx) ==> p in ring
      ensures nodes == Cut(FirstSeen(OwnersOf(ring, Walk(sortedKeys, idx))), n)
    {
      var len := |sortedKeys|;
      ghost var owners := OwnersOf(ring, Walk(sortedKeys, idx));
      nodes := [];
      var seen: set<Node> := {};
      var i := 0;
      var stopped := false;
      while i < len && !stopped
        invariant 0 <= i <= len
        invariant forall x :: x in seen <==> x in nodes
        invariant Collected(owners, i, nodes, n, stopped)
      {
        WalkAt(sortedKeys, idx, i);
        var node := ring[sortedKeys[(idx + i) % len]];
        assert node == owners[i];
        ghost var before := nodes;
        if node !in seen {
          nodes := nodes + [node];
          seen := seen + {node};
        }
        stopped := |nodes| == n;
        CollectStep(owners, i, before, nodes, n, stopped);
        i := i + 1;
      }
      CollectedCut(owners, i, nodes, n, stopped);
    }

    /** What the walk returns, in terms of the ring. */
    lemma {:induction false} WalkDone(h: nat, idx: nat, nodes: seq<Node>, n: int)
      requires Valid() && ring != map[] && sortedKeys != []
      requires idx == BisectRight(sortedKeys, h)
      requires forall p :: p in Walk(sortedKeys, idx) ==> p in ring
      requires nodes == Cut(FirstSeen(OwnersOf(ring, Walk(sortedKeys, idx))), n)
      ensures forall i, j :: 0 <= i < j < |nodes| ==> nodes[i] != nodes[j]
      ensures forall x :: x in nodes ==> x in ring.Values
      ensures n >= 1 ==> |nodes| <= n
      ensures |nodes| >= 1 && Some(nodes[0]) == GetNode(h)
      ensures n < 1 || |nodes| < n ==> forall p :: p in ring ==> ring[p] in nodes
      ensures nodes == Cut(FirstSeen(WalkOwners(h)), n)
    {
      var walk := Walk(sortedKeys, idx);
      var owners := OwnersOf(ring, walk);
      assert owners == WalkOwners(h);
      CutMeaning(owners, n);
      FirstOnWalk(h, idx);
      forall x | x in nodes
        ensures x in ring.Values
      {
        var j :| 0 <= j < |owners| && owners[j] == x;
        assert walk[j] in ring;
      }
      if n < 1 || |nodes| < n {
        WalkCovers(sortedKeys, idx);
        forall p | p in ring
          ensures ring[p] in nodes
        {
          assert p in sortedKeys;
          var j :| 0 <= j < |walk| && walk[j] == p;
          assert owners[j] == ring[p];
        }
      }
    }

    /** The owner of each point on the walk from the key's successor,
        wrapping round: the order `get_nodes_for_key` meets them in. */
    ghost function WalkOwners(h: nat): seq<Node>
      reads this
      requires Valid()
    {
      var idx := BisectRight(sortedKeys, h);
      WalkInRing(idx);
      OwnersOf(ring, Walk(sortedKeys, idx))
    }

    lemma {:induction false} WalkInRing(idx: nat)
      requires Valid() && idx <= |sortedKeys|
      ensures forall p :: p in Walk(sortedKeys, idx) ==> p in ring
    {
      assert sortedKeys == sortedKeys[..idx] + sortedKeys[idx..];
    }

    /** The walk starts at the point `get_node` picks. */
    lemma {:induction false} FirstOnWalk(h: nat, idx: nat)
      requires Valid() && ring != map[] && sortedKeys != []
      requires idx == BisectRight(sortedKeys, h)
      ensures Walk(sortedKeys, idx)[0] in ring
      ensures GetNode(h) == Some(ring[Walk(sortedKeys, idx)[0]])
    {
      WalkAt(sortedKeys, idx, 0);
      assert sortedKeys[idx % |sortedKeys|] in sortedKeys;
    }
  }
}
