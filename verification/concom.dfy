/** The connected-components benchmark: an undirected graph kept as
    neighbour lists with a bound on the degree, links added one at a time
    when `linkable` allows them, and a depth-first marker that labels every
    node with the component it belongs to and counts the component sizes.
    The neighbour list of node `x` is `adj[x]`; its length is the degree
    field `nodes[x].n`. */
module ConCom {
  import opened Bots

  // ---------------------------------------------------------------------
  // The graph

  /** The shape the link step keeps: neighbours are nodes, no node is its
      own neighbour, links go both ways, no neighbour is listed twice and no
      degree exceeds the bound. */
  ghost predicate WellFormed(adj: seq<seq<int>>, maxNeighbors: int)
  {
    LinksInRange(adj) && Symmetric(adj) && NoDuplicates(adj) && DegreeBounded(adj, maxNeighbors)
  }

  /** Neighbours are nodes of the graph and no node is its own neighbour. */
  ghost predicate LinksInRange(adj: seq<seq<int>>)
  {
    forall x, k :: 0 <= x < |adj| && 0 <= k < |adj[x]| ==> 0 <= adj[x][k] < |adj| && adj[x][k] != x
  }

  ghost predicate Symmetric(adj: seq<seq<int>>)
  {
    forall x, y :: 0 <= x < |adj| && 0 <= y < |adj| && y in adj[x] ==> x in adj[y]
  }

  ghost predicate NoDuplicates(adj: seq<seq<int>>)
  {
    forall x, k, l :: 0 <= x < |adj| && 0 <= k < l < |adj[x]| ==> adj[x][k] != adj[x][l]
  }

  ghost predicate DegreeBounded(adj: seq<seq<int>>, maxNeighbors: int)
  {
    forall x :: 0 <= x < |adj| ==> |adj[x]| <= maxNeighbors
  }

  /** What `linkable(n1, n2)` checks: distinct nodes, both below the degree
      bound, and not linked yet. */
  ghost predicate CanLink(adj: seq<seq<int>>, maxNeighbors: int, n1: int, n2: int)
    requires 0 <= n1 < |adj| && 0 <= n2 < |adj|
  {
    n1 != n2 && |adj[n1]| < maxNeighbors && |adj[n2]| < maxNeighbors && n2 !in adj[n1]
  }

  /** The link step: each node is appended to the other's list. */
  ghost function WithLink(adj: seq<seq<int>>, n1: int, n2: int): (adj': seq<seq<int>>)
    requires 0 <= n1 < |adj| && 0 <= n2 < |adj| && n1 != n2
  {
    adj[n1 := adj[n1] + [n2]][n2 := adj[n2] + [n1]]
  }

  /** The link step adds exactly the link between `n1` and `n2`, both
      ways, at the end of the two lists. */
  lemma LinkMembers(adj: seq<seq<int>>, n1: int, n2: int)
    requires 0 <= n1 < |adj| && 0 <= n2 < |adj| && n1 != n2
    ensures |WithLink(adj, n1, n2)| == |adj|
    ensures forall x :: 0 <= x < |adj| ==>
      WithLink(adj, n1, n2)[x] == (if x == n1 then adj[x] + [n2] else if x == n2 then adj[x] + [n1] else adj[x])
    ensures forall x, y :: 0 <= x < |adj| ==>
      (y in WithLink(adj, n1, n2)[x] <==> y in adj[x] || (x == n1 && y == n2) || (x == n2 && y == n1))
  {
  }

  /** A link that `linkable` allows keeps the graph well formed. */
  lemma LinkKeepsWellFormed(adj: seq<seq<int>>, maxNeighbors: int, n1: int, n2: int)
    requires WellFormed(adj, maxNeighbors) && 0 <= n1 < |adj| && 0 <= n2 < |adj|
    requires CanLink(adj, maxNeighbors, n1, n2)
    ensures WellFormed(WithLink(adj, n1, n2), maxNeighbors)
  {
    LinkMembers(adj, n1, n2);
    LinkKeepsRange(adj, n1, n2);
    LinkKeepsDistinct(adj, maxNeighbors, n1, n2);
    var adj' := WithLink(adj, n1, n2);
    assert Symmetric(adj') by {
      assert n1 !in adj[n2];
    }
    assert DegreeBounded(adj', maxNeighbors);
  }

  lemma LinkKeepsRange(adj: seq<seq<int>>, n1: int, n2: int)
    requires LinksInRange(adj) && 0 <= n1 < |adj| && 0 <= n2 < |adj| && n1 != n2
    ensures LinksInRange(WithLink(adj, n1, n2))
  {
    var adj' := WithLink(adj, n1, n2);
    LinkMembers(adj, n1, n2);
    forall x, k | 0 <= x < |adj'| && 0 <= k < |adj'[x]|
      ensures 0 <= adj'[x][k] < |adj'| && adj'[x][k] != x
    {
      if k < |adj[x]| {
        assert adj'[x][k] == adj[x][k];
      }
    }
  }

  lemma LinkKeepsDistinct(adj: seq<seq<int>>, maxNeighbors: int, n1: int, n2: int)
    requires WellFormed(adj, maxNeighbors) && 0 <= n1 < |adj| && 0 <= n2 < |adj|
    requires CanLink(adj, maxNeighbors, n1, n2)
    ensures NoDuplicates(WithLink(adj, n1, n2))
  {
    var adj' := WithLink(adj, n1, n2);
    LinkMembers(adj, n1, n2);
    assert n1 !in adj[n2];
    forall x, k, l | 0 <= x < |adj'| && 0 <= k < l < |adj'[x]|
      ensures adj'[x][k] != adj'[x][l]
    {
      assert adj'[x][k] == adj[x][k];
      if l < |adj[x]| {
        assert adj'[x][l] == adj[x][l];
      } else {
        assert adj[x][k] in adj[x];
      }
    }
  }

  // ---------------------------------------------------------------------
  // Paths, reachability and components

  /** `p` is a walk along links that never enters the node set `avoid`. */
  ghost predicate IsPath(adj: seq<seq<int>>, p: seq<int>, avoid: set<int>)
  {
    |p| > 0 &&
    (forall k :: 0 <= k < |p| ==> 0 <= p[k] < |adj| && p[k] !in avoid) &&
    (forall k :: 0 <= k < |p| - 1 ==> p[k + 1] in adj[p[k]])
  }

  /** `y` can be reached from `x` without entering `avoid`. */
  ghost predicate Reach(adj: seq<seq<int>>, x: int, y: int, avoid: set<int>)
  {
    exists p :: IsPath(adj, p, avoid) && p[0] == x && p[|p| - 1] == y
  }

  ghost predicate Connected(adj: seq<seq<int>>, x: int, y: int)
  {
    Reach(adj, x, y, {})
  }

  /** The nodes reachable from `x` without entering `avoid`. */
  ghost function ReachSet(adj: seq<seq<int>>, x: int, avoid: set<int>): set<int>
  {
    set y | 0 <= y < |adj| && Reach(adj, x, y, avoid)
  }

  /** A root is the smallest node of its component: the node at which the
      driver starts a new component. */
  ghost predicate IsRoot(adj: seq<seq<int>>, r: int)
  {
    forall y :: 0 <= y < r ==> !Connected(adj, y, r)
  }

  ghost function RootsBelow(adj: seq<seq<int>>, i: int): set<int>
  {
    set r | 0 <= r < i && IsRoot(adj, r)
  }

  /** The nodes connected to some node below `i`. */
  ghost function Covered(adj: seq<seq<int>>, i: int): set<int>
  {
    set x | 0 <= x < |adj| && ConnectedBelow(adj, i, x)
  }

  ghost predicate ConnectedBelow(adj: seq<seq<int>>, i: int, x: int)
  {
    exists r :: 0 <= r < i && Connected(adj, r, x)
  }

  lemma ConnectedRefl(adj: seq<seq<int>>, x: int)
    requires 0 <= x < |adj|
    ensures Connected(adj, x, x)
  {
    assert IsPath(adj, [x], {});
  }

  lemma ConnectedTrans(adj: seq<seq<int>>, x: int, y: int, z: int)
    requires Connected(adj, x, y) && Connected(adj, y, z)
    ensures Connected(adj, x, z)
  {
    var p :| IsPath(adj, p, {}) && p[0] == x && p[|p| - 1] == y;
    var q :| IsPath(adj, q, {}) && q[0] == y && q[|q| - 1] == z;
    var r := p + q[1..];
    forall k | 0 <= k < |r| - 1
      ensures r[k + 1] in adj[r[k]]
    {
      if k < |p| - 1 {
        assert r[k] == p[k] && r[k + 1] == p[k + 1];
      } else {
        assert r[k] == q[k - |p| + 1] && r[k + 1] == q[k - |p| + 2];
      }
    }
    assert IsPath(adj, r, {});
  }

  lemma ConnectedSymm(adj: seq<seq<int>>, maxNeighbors: int, x: int, y: int)
    requires WellFormed(adj, maxNeighbors) && Connected(adj, x, y)
    ensures Connected(adj, y, x)
  {
    var p :| IsPath(adj, p, {}) && p[0] == x && p[|p| - 1] == y;
    var r := seq(|p|, k requires 0 <= k < |p| => p[|p| - 1 - k]);
    forall k | 0 <= k < |r| - 1
      ensures r[k + 1] in adj[r[k]]
    {
      var m := |p| - 2 - k;
      assert p[m + 1] in adj[p[m]];
    }
    assert IsPath(adj, r, {});
  }

  /** Stepping from an unmarked node to a neighbour: whatever the neighbour
      reaches avoiding a larger set, the node reaches avoiding the smaller. */
  lemma ReachStep(adj: seq<seq<int>>, i: int, n: int, x: int, avoid: set<int>, avoid': set<int>)
    requires 0 <= i < |adj| && i !in avoid && n in adj[i] && avoid <= avoid'
    requires Reach(adj, n, x, avoid')
    ensures Reach(adj, i, x, avoid)
  {
    var p :| IsPath(adj, p, avoid') && p[0] == n && p[|p| - 1] == x;
    var q := [i] + p;
    forall k | 0 <= k < |q| - 1
      ensures q[k + 1] in adj[q[k]]
    {
      if k > 0 {
        assert q[k] == p[k - 1] && q[k + 1] == p[k];
      }
    }
    assert IsPath(adj, q, avoid);
  }

  /** A node set that contains `i` and the avoided set, and that holds every
      neighbour of its members outside the avoided set, contains everything
      `i` reaches without entering the avoided set. */
  lemma ClosedHoldsReach(adj: seq<seq<int>>, m: set<int>, avoid: set<int>, i: int, x: int)
    requires i in m && avoid <= m
    requires ClosedOutside(adj, m, avoid)
    requires Reach(adj, i, x, avoid)
    ensures x in m
  {
    var p :| IsPath(adj, p, avoid) && p[0] == i && p[|p| - 1] == x;
    var k := 0;
    while k < |p| - 1
      invariant 0 <= k < |p| && p[k] in m
    {
      assert p[k + 1] in adj[p[k]];
      k := k + 1;
    }
  }

  /** Outside a node set closed under links, every walk from an outside node
      stays outside: connectivity and reachability avoiding the set agree. */
  lemma ReachOutsideClosed(adj: seq<seq<int>>, maxNeighbors: int, avoid: set<int>, i: int, x: int)
    requires WellFormed(adj, maxNeighbors) && 0 <= i < |adj| && i !in avoid
    requires forall y, z :: y in avoid && 0 <= y < |adj| && z in adj[y] ==> z in avoid
    ensures Connected(adj, i, x) <==> Reach(adj, i, x, avoid)
  {
    if Connected(adj, i, x) {
      var p :| IsPath(adj, p, {}) && p[0] == i && p[|p| - 1] == x;
      var k := 0;
      while k < |p| - 1
        invariant 0 <= k < |p|
        invariant forall l :: 0 <= l <= k ==> p[l] !in avoid
      {
        assert p[k + 1] in adj[p[k]];
        assert p[k] in adj[p[k + 1]];
        k := k + 1;
      }
      assert IsPath(adj, p, avoid);
    }
    if Reach(adj, i, x, avoid) {
      var p :| IsPath(adj, p, avoid) && p[0] == i && p[|p| - 1] == x;
      assert IsPath(adj, p, {});
    }
  }

  /** A walk of more than one node starts along a link. */
  lemma PathStart(adj: seq<seq<int>>, p: seq<int>, avoid: set<int>)
    requires IsPath(adj, p, avoid)
    ensures |p| == 1 || p[1] in adj[p[0]]
  {
    if |p| > 1 {
      assert p[1] in adj[p[0]];
    }
  }

  /** Every node lies in the component of exactly one root. */
  lemma EveryNodeHasOneRoot(adj: seq<seq<int>>, maxNeighbors: int, x: int)
    requires WellFormed(adj, maxNeighbors) && 0 <= x < |adj|
    ensures exists r :: 0 <= r < |adj| && IsRoot(adj, r) && Connected(adj, r, x)
    ensures forall r1, r2 ::
      (0 <= r1 < |adj| && 0 <= r2 < |adj| && IsRoot(adj, r1) && IsRoot(adj, r2) &&
       Connected(adj, r1, x) && Connected(adj, r2, x)) ==> r1 == r2
  {
    // the smallest node connected to x is a root
    ConnectedRefl(adj, x);
    var r := x;
    var y := x - 1;
    while y >= 0
      invariant -1 <= y < r <= x && Connected(adj, r, x)
      invariant forall z :: y < z < r ==> !Connected(adj, z, x)
      decreases y
    {
      if Connected(adj, y, x) {
        r := y;
      }
      y := y - 1;
    }
    forall z | 0 <= z < r
      ensures !Connected(adj, z, r)
    {
      if Connected(adj, z, r) {
        ConnectedTrans(adj, z, r, x);
      }
    }
    assert IsRoot(adj, r);
    forall r1, r2 | 0 <= r1 < |adj| && 0 <= r2 < |adj| && IsRoot(adj, r1) && IsRoot(adj, r2) &&
      Connected(adj, r1, x) && Connected(adj, r2, x)
      ensures r1 == r2
    {
      ConnectedSymm(adj, maxNeighbors, r2, x);
      ConnectedTrans(adj, r1, x, r2);
      ConnectedSymm(adj, maxNeighbors, r1, r2);
    }
  }

  /** Without links every node is alone in its component, and a root. */
  lemma NoLinksAllRoots(adj: seq<seq<int>>, i: int)
    requires forall x :: 0 <= x < |adj| ==> |adj[x]| == 0
    requires 0 <= i <= |adj|
    ensures RootsBelow(adj, i) == Nodes(i)
  {
    forall p | IsPath(adj, p, {})
      ensures |p| == 1
    {
      PathStart(adj, p, {});
      assert |adj[p[0]]| == 0;
    }
    NodesMembers(i);
  }

  /** The nodes 0 .. n - 1. */
  ghost function Nodes(n: int): set<int>
    decreases n
  {
    if n <= 0 then {} else Nodes(n - 1) + {n - 1}
  }

  lemma {:induction false} NodesMembers(n: int)
    ensures forall x :: x in Nodes(n) <==> 0 <= x < n
    ensures n >= 0 ==> |Nodes(n)| == n
    decreases n
  {
    if n > 0 {
      NodesMembers(n - 1);
    }
  }

  /** The sum of a sequence of counters. */
  function Sum(s: seq<int>): int
  {
    if |s| == 0 then 0 else Sum(s[..|s| - 1]) + s[|s| - 1]
  }

  /** Marks only ever go from 0 to 1. */
  ghost predicate ZeroToOne(a: seq<int>, b: seq<int>)
  {
    |a| == |b| && forall x :: 0 <= x < |a| && b[x] != a[x] ==> a[x] == 0 && b[x] == 1
  }

  /** Every mark is 0 or 1. */
  ghost predicate Binary(a: seq<int>)
  {
    forall x :: 0 <= x < |a| ==> a[x] == 0 || a[x] == 1
  }

  lemma ZeroToOneKeepsBinary(a: seq<int>, b: seq<int>)
    requires Binary(a) && ZeroToOne(a, b)
    ensures Binary(b)
  {
  }

  /** The sizes of the first `cc + 1` components, when only the last of
      them has changed. */
  lemma SumStep(a: seq<int>, b: seq<int>, cc: int)
    requires 0 <= cc < |a| == |b|
    requires forall k :: 0 <= k < |a| && k != cc ==> b[k] == a[k]
    ensures Sum(b[..cc + 1]) == Sum(a[..cc]) + b[cc]
  {
    assert b[..cc + 1][..cc] == a[..cc];
  }

  lemma CardAddOne(s: set<int>, x: int)
    requires x !in s
    ensures |s + {x}| == |s| + 1
  {
  }

  /** Marking more nodes only shrinks the set of unmarked ones. */
  lemma Shrink(n: int, m: set<int>, m': set<int>, bound: set<int>)
    requires Nodes(n) - m < bound && m <= m'
    ensures Nodes(n) - m' < bound
  {
  }

  lemma ZeroToOneTrans(a: seq<int>, b: seq<int>, c: seq<int>)
    requires ZeroToOne(a, b) && ZeroToOne(b, c)
    ensures ZeroToOne(a, c)
  {
  }

  /** Every neighbour of a node of `m` outside `avoid` is in `m`. */
  ghost predicate ClosedOutside(adj: seq<seq<int>>, m: set<int>, avoid: set<int>)
  {
    forall y, z :: y in m && y !in avoid && 0 <= y < |adj| && z in adj[y] ==> z in m
  }

  /** What the marker started at `i` on the marks `before` has done so far:
      everything newly marked is reachable from `i` avoiding `before`, and
      every newly marked node other than `i` has its neighbours marked. */
  ghost predicate MarkedFrom(adj: seq<seq<int>>, i: int, before: set<int>, m: set<int>)
  {
    (forall x :: x in m && x !in before ==> Reach(adj, i, x, before)) &&
    ClosedOutside(adj, m, before + {i})
  }

  lemma StartMarking(adj: seq<seq<int>>, i: int, before: set<int>)
    requires 0 <= i < |adj| && i !in before
    ensures MarkedFrom(adj, i, before, before + {i})
  {
    assert IsPath(adj, [i], before);
  }

  /** After the marker has run on the `j`-th neighbour of `i`, the marks
      still describe the marker started at `i`, and the first `j + 1`
      neighbours are marked. */
  lemma MarkChild(adj: seq<seq<int>>, i: int, j: int, before: set<int>, current: set<int>, after: set<int>)
    requires 0 <= i < |adj| && i !in before && 0 <= j < |adj[i]| && 0 <= adj[i][j] < |adj|
    requires before + {i} <= current
    requires MarkedFrom(adj, i, before, current)
    requires forall k :: 0 <= k < j ==> adj[i][k] in current
    requires after == current + ReachSet(adj, adj[i][j], current)
    requires ClosedOutside(adj, after, current)
    ensures MarkedFrom(adj, i, before, after)
    ensures forall k :: 0 <= k <= j ==> adj[i][k] in after
  {
    var n := adj[i][j];
    forall x | x in after && x !in before
      ensures Reach(adj, i, x, before)
    {
      if x !in current {
        ReachStep(adj, i, n, x, before, current);
      }
    }
    if n !in current {
      assert IsPath(adj, [n], current);
    }
  }

  /** Once every neighbour of `i` is marked, exactly the nodes reachable
      from `i` avoiding `before` have been added, and they are closed. */
  lemma FinishMarking(adj: seq<seq<int>>, i: int, before: set<int>, m: set<int>)
    requires 0 <= i < |adj| && i !in before && before + {i} <= m
    requires MarkedFrom(adj, i, before, m)
    requires forall k :: 0 <= k < |adj[i]| ==> adj[i][k] in m
    ensures m == before + ReachSet(adj, i, before)
    ensures ClosedOutside(adj, m, before)
  {
    forall x | x in ReachSet(adj, i, before)
      ensures x in m
    {
      ClosedHoldsReach(adj, m, before, i, x);
    }
    forall x | x in m && x !in before
      ensures x in ReachSet(adj, i, before)
    {
      var p :| IsPath(adj, p, before) && p[0] == i && p[|p| - 1] == x;
    }
  }

  /** A marked node reaches nothing avoiding the marks. */
  lemma NothingReached(adj: seq<seq<int>>, i: int, before: set<int>)
    requires i in before
    ensures ReachSet(adj, i, before) == {}
  {
    forall x | 0 <= x < |adj|
      ensures !Reach(adj, i, x, before)
    {
    }
  }

  // ---------------------------------------------------------------------
  // The benchmark state

  /** The globals of the benchmark: the node array (`nodes`, here the
      neighbour lists `adj`) and the `visited` and `components` arrays, one
      slot per node. */
  class Graph {
    /** nbs_arg_size, the number of nodes. */
    const size: int
    /** nbs_arg_size_1, the bound on the degree. */
    const maxNeighbors: int
    var adj: seq<seq<int>>
    const visited: array<int>
    const components: array<int>

    ghost predicate Valid()
      reads this
    {
      Shape() && WellFormed(adj, maxNeighbors)
    }

    /** What the marker needs of the state: one slot per node in each array,
        and neighbours that are nodes. */
    ghost predicate Shape()
      reads this
    {
      |adj| == size && visited.Length == size && components.Length == size &&
      visited != components && LinksInRange(adj)
    }

    /** The nodes marked as visited. */
    ghost function Marked(): set<int>
      reads this, visited
    {
      set x | 0 <= x < visited.Length && visited[x] != 0
    }

    /** The allocation part of `initialize`: `size` nodes without links and
        the two arrays. */
    constructor (size: nat, maxNeighbors: nat)
      ensures Valid() && fresh(visited) && fresh(components)
      ensures this.size == size && this.maxNeighbors == maxNeighbors
      ensures adj == seq(size, _ => [])
    {
      this.size := size;
      this.maxNeighbors := maxNeighbors;
      adj := seq(size, _ => []);
      visited := new int[size];
      components := new int[size];
    }

    /** `linkable(n1, n2)`. */
    method Linkable(n1: int, n2: int) returns (r: bool)
      requires Valid() && 0 <= n1 < size && 0 <= n2 < size
      ensures r <==> CanLink(adj, maxNeighbors, n1, n2)
    {
      if n1 == n2 {
        return false;
      }
      if |adj[n1]| >= maxNeighbors {
        return false;
      }
      if |adj[n2]| >= maxNeighbors {
        return false;
      }
      var i := 0;
      while i < |adj[n1]|
        invariant 0 <= i <= |adj[n1]|
        invariant n2 !in adj[n1][..i]
      {
        if adj[n1][i] == n2 {
          return false;
        }
        assert adj[n1][..i + 1] == adj[n1][..i] + [adj[n1][i]];
        i := i + 1;
      }
      assert adj[n1][..i] == adj[n1];
      return true;
    }

    /** The body of the link loop of `initialize` for the end nodes `n1`
        and `n2` drawn at random: link them when `linkable` allows it. */
    method Link(n1: int, n2: int)
      requires Valid() && 0 <= n1 < size && 0 <= n2 < size
      modifies this`adj
      ensures Valid()
      ensures adj == if CanLink(old(adj), maxNeighbors, n1, n2) then WithLink(old(adj), n1, n2) else old(adj)
    {
      var ok := Linkable(n1, n2);
      if ok {
        LinkKeepsWellFormed(adj, maxNeighbors, n1, n2);
        LinkMembers(adj, n1, n2);
        var l1 := adj[n1];
        var l2 := adj[n2];
        adj := adj[n1 := l1 + [n2]];
        adj := adj[n2 := l2 + [n1]];
      }
    }

    /** `cc_init`: clear every visited mark and every component size. */
    method Init()
      requires Valid()
      modifies visited, components
      ensures Valid() && Marked() == {}
      ensures forall x :: 0 <= x < size ==> visited[x] == 0 && components[x] == 0
    {
      var i := 0;
      while i < size
        invariant 0 <= i <= size
        invariant forall x :: 0 <= x < i ==> visited[x] == 0 && components[x] == 0
      {
        visited[i] := 0;
        components[i] := 0;
        i := i + 1;
      }
    }

    /** The nodes not marked yet: the measure that shrinks at every
        recursive call of the marker. */
    ghost function Unvisited(): set<int>
      reads this, visited
    {
      Nodes(visited.Length) - Marked()
    }

    /** `CC_seq(i, cc)`: mark `i` and, through its neighbours, everything it
        reaches without passing a marked node, counting each newly marked node
        in `components[cc]`. Marks only go from 0 to 1; on a marked node
        nothing changes. */
    method CCSeq(i: int, cc: int)
      requires Shape() && 0 <= i < size && 0 <= cc < size
      modifies visited, components
      ensures Marked() == old(Marked()) + ReachSet(adj, i, old(Marked()))
      ensures ZeroToOne(old(visited[..]), visited[..])
      ensures old(visited[i]) != 0 ==> visited[..] == old(visited[..]) && components[..] == old(components[..])
      ensures components[cc] == old(components[cc]) + |Marked()| - |old(Marked())|
      ensures forall k :: 0 <= k < size && k != cc ==> components[k] == old(components[k])
      // the newly marked nodes are closed under links
      ensures ClosedOutside(adj, Marked(), old(Marked()))
      decreases Unvisited(), 1
    {
      ghost var before := Marked();
      if visited[i] == 0 {
        ghost var marks := visited[..];
        visited[i] := 1;
        components[cc] := components[cc] + 1;
        assert Marked() == before + {i};
        CardAddOne(before, i);
        NodesMembers(size);
        StartMarking(adj, i, before);
        ghost var started := visited[..];
        assert ZeroToOne(marks, started);
        MarkNeighbours(i, cc, before, old(Unvisited()));
        ZeroToOneTrans(marks, started, visited[..]);
        FinishMarking(adj, i, before, Marked());
      } else {
        NothingReached(adj, i, before);
      }
    }

    /** The loop of `CC_seq` over the neighbours of the freshly marked node
        `i`: mark from each of them in turn. `bound` is the measure the
        enclosing call of the marker started with. */
    method MarkNeighbours(i: int, cc: int, ghost before: set<int>, ghost bound: set<int>)
      requires Shape() && 0 <= i < size && 0 <= cc < size
      requires i !in before && before + {i} <= Marked()
      requires MarkedFrom(adj, i, before, Marked())
      requires Unvisited() < bound
      modifies visited, components
      ensures old(Marked()) <= Marked()
      ensures ZeroToOne(old(visited[..]), visited[..])
      ensures MarkedFrom(adj, i, before, Marked())
      ensures forall k :: 0 <= k < |adj[i]| ==> adj[i][k] in Marked()
      ensures components[cc] == old(components[cc]) + |Marked()| - |old(Marked())|
      ensures forall k :: 0 <= k < size && k != cc ==> components[k] == old(components[k])
      decreases bound, 0
    {
      var j := 0;
      while j < |adj[i]|
        invariant 0 <= j <= |adj[i]|
        invariant old(Marked()) <= Marked()
        invariant Unvisited() < bound
        invariant ZeroToOne(old(visited[..]), visited[..])
        invariant MarkedFrom(adj, i, before, Marked())
        invariant forall k :: 0 <= k < j ==> adj[i][k] in Marked()
        invariant components[cc] == old(components[cc]) + |Marked()| - |old(Marked())|
        invariant forall k :: 0 <= k < size && k != cc ==> components[k] == old(components[k])
      {
        ghost var current := Marked();
        ghost var marks := visited[..];
        CCSeq(adj[i][j], cc);
        ghost var m := Marked();
        MarkChild(adj, i, j, before, current, m);
        ZeroToOneTrans(old(visited[..]), marks, visited[..]);
        Shrink(size, current, m, bound);
        j := j + 1;
      }
    }

    /** The state of `cc_seq` after scanning the nodes below `i`: the marked
        nodes are those connected to a scanned node, `cc` is the number of
        roots among the scanned nodes, the sizes of the `cc` components found
        add up to the number of marked nodes, and the later size slots are
        still 0. */
    ghost predicate Scanned(i: int, cc: int)
      reads this, visited, components
    {
      Valid() && 0 <= i <= size &&
      Marked() == Covered(adj, i) && Binary(visited[..]) &&
      cc == |RootsBelow(adj, i)| && 0 <= cc <= i &&
      Sum(components[..cc]) == |Marked()| &&
      forall k :: cc <= k < size ==> components[k] == 0
    }

    /** `cc_seq`, run after `cc_init`: scan the nodes in order and start a new
        component at every node still unmarked, marking its whole component.
        The count is the number of roots, one per connected component (see
        EveryNodeHasOneRoot); every node ends up marked and the component
        sizes add up to the number of nodes. */
    method SeqComponents() returns (cc: int)
      requires Valid()
      requires forall x :: 0 <= x < size ==> visited[x] == 0 && components[x] == 0
      modifies visited, components
      ensures Valid()
      ensures cc == |RootsBelow(adj, size)|
      ensures forall x :: 0 <= x < size ==> visited[x] == 1
      ensures 0 <= cc <= size && Sum(components[..cc]) == size
      ensures forall k :: cc <= k < size ==> components[k] == 0
    {
      cc := 0;
      var i := 0;
      assert Marked() == {};
      CoveredEnds(adj);
      while i < size
        invariant 0 <= i <= size && Scanned(i, cc)
      {
        cc := ScanNode(i, cc);
        i := i + 1;
      }
      NodesMembers(size);
      forall x | 0 <= x < size
        ensures visited[x] == 1
      {
        assert x in Nodes(size);
        assert visited[..][x] == visited[x];
      }
    }

    /** The body of the loop of `cc_seq` for node `i`: an unmarked node
        starts component number `cc`, marked by `CC_seq`. The source calls
        `CC_par` here (line 149); read sequentially it is `CC_seq`. */
    method ScanNode(i: int, cc: int) returns (cc': int)
      requires 0 <= i < size && Scanned(i, cc)
      modifies visited, components
      ensures Scanned(i + 1, cc')
    {
      ScanStep(adj, maxNeighbors, i);
      cc' := cc;
      if visited[i] == 0 {
        assert i !in Marked();
        ghost var before := Marked();
        ghost var sizes := components[..];
        ghost var marks := visited[..];
        assert Sum(sizes[..cc]) == |before| && sizes[cc] == 0;
        CCSeq(i, cc);
        ZeroToOneKeepsBinary(marks, visited[..]);
        ghost var after := components[..];
        assert after[cc] == |Marked()| - |before|;
        SumStep(sizes, after, cc);
        cc' := cc + 1;
        assert components[..cc'] == after[..cc + 1];
      } else {
        assert i in Marked();
      }
    }
  }

  /** No node is covered before the scan; every node is covered after it. */
  lemma CoveredEnds(adj: seq<seq<int>>)
    ensures Covered(adj, 0) == {}
    ensures Covered(adj, |adj|) == Nodes(|adj|)
  {
    NodesMembers(|adj|);
    forall x | 0 <= x < |adj|
      ensures x in Covered(adj, |adj|)
    {
      ConnectedRefl(adj, x);
      assert ConnectedBelow(adj, |adj|, x);
    }
  }

  /** The nodes connected to a node below `i` are closed under links. */
  lemma CoveredIsClosed(adj: seq<seq<int>>, maxNeighbors: int, i: int)
    requires WellFormed(adj, maxNeighbors)
    ensures ClosedOutside(adj, Covered(adj, i), {})
  {
    forall y, z | y in Covered(adj, i) && 0 <= y < |adj| && z in adj[y]
      ensures z in Covered(adj, i)
    {
      var r :| 0 <= r < i && Connected(adj, r, y);
      assert IsPath(adj, [y, z], {}) by {
        assert 0 <= z < |adj|;
      }
      ConnectedTrans(adj, r, y, z);
    }
  }

  /** One step of the scan of `cc_seq` over node `i`. If no node below `i`
      is connected to it, `i` is a root, and its component, which is what the
      marker reaches from `i` avoiding the covered nodes, joins them. Otherwise
      nothing changes. */
  lemma ScanStep(adj: seq<seq<int>>, maxNeighbors: int, i: int)
    requires WellFormed(adj, maxNeighbors) && 0 <= i < |adj|
    ensures i !in Covered(adj, i) ==>
      IsRoot(adj, i) && i !in RootsBelow(adj, i) && RootsBelow(adj, i + 1) == RootsBelow(adj, i) + {i} &&
      |RootsBelow(adj, i + 1)| == |RootsBelow(adj, i)| + 1 &&
      Covered(adj, i + 1) == Covered(adj, i) + ReachSet(adj, i, Covered(adj, i))
    ensures i in Covered(adj, i) ==>
      RootsBelow(adj, i + 1) == RootsBelow(adj, i) && Covered(adj, i + 1) == Covered(adj, i)
  {
    var covered := Covered(adj, i);
    if i !in covered {
      forall y | 0 <= y < i
        ensures !Connected(adj, y, i)
      {
        if Connected(adj, y, i) {
          assert ConnectedBelow(adj, i, i);
        }
      }
      CoveredIsClosed(adj, maxNeighbors, i);
      forall x | 0 <= x < |adj|
        ensures Connected(adj, i, x) <==> Reach(adj, i, x, covered)
      {
        ReachOutsideClosed(adj, maxNeighbors, covered, i, x);
      }
      forall x | x in Covered(adj, i + 1)
        ensures x in covered || Connected(adj, i, x)
      {
        var r :| 0 <= r < i + 1 && Connected(adj, r, x);
        if r < i {
          assert ConnectedBelow(adj, i, x);
        }
      }
      forall x | 0 <= x < |adj| && Connected(adj, i, x)
        ensures x in Covered(adj, i + 1)
      {
        assert ConnectedBelow(adj, i + 1, x);
      }
    } else {
      var r :| 0 <= r < i && Connected(adj, r, i);
      assert !IsRoot(adj, i);
      forall x | x in Covered(adj, i + 1)
        ensures x in covered
      {
        var r' :| 0 <= r' < i + 1 && Connected(adj, r', x);
        if r' == i {
          ConnectedTrans(adj, r, i, x);
        }
        assert ConnectedBelow(adj, i, x);
      }
    }
  }

  // `cc_check` is Bots.Check on the sequential and parallel counts.
}
