/** Directed graphs of names, and breadth-first walks over them. */
module Graphs {
  import opened Sequences

  type Graph = map<string, seq<string>>

  function Successors(g: Graph, n: string): seq<string> {
    if n in g then g[n] else []
  }

  // ---------- reachability, defined by paths ----------

  ghost predicate IsPath(g: Graph, p: seq<string>) {
    && p != []
    && forall i | 0 <= i < |p| - 1 :: p[i + 1] in Successors(g, p[i])
  }

  ghost predicate PathFromTo(g: Graph, p: seq<string>, a: string, b: string, k: nat) {
    IsPath(g, p) && |p| == k + 1 && p[0] == a && p[k] == b
  }

  /** `b` can be reached from `a` over exactly `k` edges. */
  ghost predicate Reaches(g: Graph, a: string, b: string, k: nat) {
    exists p :: PathFromTo(g, p, a, b, k)
  }

  /** `b` can be reached from `a` over at most `k` edges. */
  ghost predicate Within(g: Graph, a: string, b: string, k: nat) {
    exists j: nat :: j <= k && Reaches(g, a, b, j)
  }

  /** The shortest path from `a` to `b` has `k` edges. */
  ghost predicate IsDistance(g: Graph, a: string, b: string, k: nat) {
    && Reaches(g, a, b, k)
    && forall j: nat | j < k :: !Reaches(g, a, b, j)
  }

  lemma ReachesItself(g: Graph, a: string, b: string)
    ensures Reaches(g, a, b, 0) <==> a == b
  {
    assert PathFromTo(g, [a], a, a, 0);
  }

  lemma ReachesStep(g: Graph, a: string, b: string, c: string, k: nat)
    requires Reaches(g, a, b, k) && c in Successors(g, b)
    ensures Reaches(g, a, c, k + 1)
  {
    var p :| PathFromTo(g, p, a, b, k);
    assert PathFromTo(g, p + [c], a, c, k + 1);
  }

  lemma ReachesLast(g: Graph, a: string, c: string, k: nat) returns (b: string)
    requires Reaches(g, a, c, k + 1)
    ensures Reaches(g, a, b, k) && c in Successors(g, b)
  {
    var p :| PathFromTo(g, p, a, c, k + 1);
    b := p[k];
    assert PathFromTo(g, p[..k + 1], a, b, k);
  }

  lemma {:induction false} HasDistance(g: Graph, a: string, b: string, k: nat) returns (d: nat)
    requires Reaches(g, a, b, k)
    ensures d <= k && IsDistance(g, a, b, d)
    decreases k
  {
    if j: nat :| j < k && Reaches(g, a, b, j) {
      d := HasDistance(g, a, b, j);
    } else {
      d := k;
    }
  }

  /** A shortest path visits no node twice. */
  lemma ShortestIsSimple(g: Graph, p: seq<string>, a: string, b: string, k: nat)
    requires PathFromTo(g, p, a, b, k) && IsDistance(g, a, b, k)
    ensures Distinct(p)
  {
    forall i, j | 0 <= i < j < |p| ensures p[i] != p[j] {
      if p[i] == p[j] {
        var q := p[..i] + p[j..];
        assert forall m | 0 <= m < |q| :: q[m] == if m < i then p[m] else p[m + j - i];
        var shorter: nat := k - (j - i);
        assert PathFromTo(g, q, a, b, shorter);
        assert Reaches(g, a, b, shorter);
      }
    }
  }

  // ---------- the walk, level by level ----------

  /** A queue entry: a name and the path on which it was first seen. */
  datatype Item = Item(name: string, path: seq<string>)

  datatype BfsNode = BfsNode(fqn: string, level: nat, path: seq<string>)

  function ItemNames(items: seq<Item>): seq<string> {
    Map((it: Item) => it.name, items)
  }

  function NodeNames(nodes: seq<BfsNode>): seq<string> {
    Map((n: BfsNode) => n.fqn, nodes)
  }

  /** The relations not seen before, in order and once each. */
  function Discover(path: seq<string>, relations: seq<string>, visited: set<string>): seq<Item> {
    if relations == [] then []
    else
      var found := Discover(path, relations[..|relations| - 1], visited);
      var x := relations[|relations| - 1];
      if x in visited || x in ItemNames(found) then found else found + [Item(x, path + [x])]
  }

  /** What one round finds from a whole frontier. */
  function NextLevel(g: Graph, frontier: seq<Item>, visited: set<string>): seq<Item> {
    if frontier == [] then []
    else
      var found := NextLevel(g, frontier[..|frontier| - 1], visited);
      var cur := frontier[|frontier| - 1];
      found + Discover(cur.path, Successors(g, cur.name), visited + (set x | x in ItemNames(found)))
  }

  lemma NextLevelStep(g: Graph, frontier: seq<Item>, i: nat, visited: set<string>)
    requires i < |frontier|
    ensures var next := NextLevel(g, frontier[..i], visited);
            NextLevel(g, frontier[..i + 1], visited)
            == next + Discover(frontier[i].path, Successors(g, frontier[i].name),
                               visited + (set x | x in ItemNames(next)))
  {
    assert frontier[..i + 1][..i] == frontier[..i];
  }

  function AtLevel(items: seq<Item>, level: nat): seq<BfsNode> {
    Map((it: Item) => BfsNode(it.name, level, it.path), items)
  }

  /** The nodes of the next `depth` levels after `level`. */
  function Walk(g: Graph, frontier: seq<Item>, visited: set<string>, level: nat, depth: nat): seq<BfsNode>
    decreases depth
  {
    if depth == 0 || frontier == [] then []
    else
      var next := NextLevel(g, frontier, visited);
      AtLevel(next, level + 1)
      + Walk(g, next, visited + (set x | x in ItemNames(next)), level + 1, depth - 1)
  }

  function WalkFrom(g: Graph, root: string, maxLevel: int): seq<BfsNode> {
    if maxLevel <= 0 then [] else Walk(g, [Item(root, [root])], {root}, 0, maxLevel)
  }

  // ---------- one round ----------

  lemma {:induction false} DiscoverFinds(path: seq<string>, relations: seq<string>, visited: set<string>)
    ensures var names := ItemNames(Discover(path, relations, visited));
            && Distinct(names)
            && (forall x :: x in names <==> x in relations && x !in visited)
    ensures forall it | it in Discover(path, relations, visited) :: it.path == path + [it.name]
  {
    if relations != [] {
      var init, x := relations[..|relations| - 1], relations[|relations| - 1];
      DiscoverFinds(path, init, visited);
      assert relations == init + [x];
      var found := Discover(path, init, visited);
      assert ItemNames(found + [Item(x, path + [x])]) == ItemNames(found) + [x];
    }
  }

  /** `it` extends the path of a frontier entry by one of its successors. */
  ghost predicate Extends(g: Graph, frontier: seq<Item>, it: Item) {
    exists cur :: cur in frontier && it.name in Successors(g, cur.name) && it.path == cur.path + [it.name]
  }

  lemma NamesAppend(a: seq<Item>, b: seq<Item>)
    ensures ItemNames(a + b) == ItemNames(a) + ItemNames(b)
  {}

  lemma NameOf(items: seq<Item>, it: Item)
    requires it in items
    ensures it.name in ItemNames(items)
  {
    var i :| 0 <= i < |items| && items[i] == it;
    assert ItemNames(items)[i] == it.name;
  }

  /** `x` follows some entry of the frontier. */
  ghost predicate Follows(g: Graph, frontier: seq<Item>, x: string) {
    exists cur :: cur in frontier && x in Successors(g, cur.name)
  }

  lemma FollowsStep(g: Graph, init: seq<Item>, cur: Item, x: string)
    ensures Follows(g, init + [cur], x) <==> Follows(g, init, x) || x in Successors(g, cur.name)
  {
    assert cur in init + [cur];
  }

  lemma {:induction false} NextLevelNames(g: Graph, frontier: seq<Item>, visited: set<string>)
    ensures Distinct(ItemNames(NextLevel(g, frontier, visited)))
    ensures forall x :: x in ItemNames(NextLevel(g, frontier, visited)) <==> x !in visited && Follows(g, frontier, x)
  {
    if frontier != [] {
      var init, cur := frontier[..|frontier| - 1], frontier[|frontier| - 1];
      NextLevelNames(g, init, visited);
      var found := NextLevel(g, init, visited);
      var seen := visited + (set x | x in ItemNames(found));
      var added := Discover(cur.path, Successors(g, cur.name), seen);
      DiscoverFinds(cur.path, Successors(g, cur.name), seen);
      NamesAppend(found, added);
      DistinctAppend(ItemNames(found), ItemNames(added));
      assert frontier == init + [cur];
      forall x ensures x in ItemNames(found + added) <==> x !in visited && Follows(g, frontier, x) {
        FollowsStep(g, init, cur, x);
      }
    }
  }

  lemma {:induction false} NextLevelPaths(g: Graph, frontier: seq<Item>, visited: set<string>)
    ensures forall it | it in NextLevel(g, frontier, visited) :: Extends(g, frontier, it)
  {
    if frontier != [] {
      var init, cur := frontier[..|frontier| - 1], frontier[|frontier| - 1];
      NextLevelPaths(g, init, visited);
      assert frontier == init + [cur];
      var found := NextLevel(g, init, visited);
      var seen := visited + (set x | x in ItemNames(found));
      var added := Discover(cur.path, Successors(g, cur.name), seen);
      DiscoverFinds(cur.path, Successors(g, cur.name), seen);
      forall it | it in found ensures Extends(g, frontier, it) {
        var c :| c in init && it.name in Successors(g, c.name) && it.path == c.path + [it.name];
        assert c in frontier;
      }
      forall it | it in added ensures Extends(g, frontier, it) {
        NameOf(added, it);
        assert cur in frontier;
      }
    }
  }

  // ---------- the state of a walk between two rounds ----------

  /** The frontier holds each node at distance `k` once, with a shortest path to it; `visited` holds
      everything within `k`. */
  ghost predicate AtRound(g: Graph, root: string, k: nat, frontier: seq<Item>, visited: set<string>) {
    && (forall x :: x in visited <==> Within(g, root, x, k))
    && (forall x :: x in ItemNames(frontier) <==> IsDistance(g, root, x, k))
    && Distinct(ItemNames(frontier))
    && (forall it | it in frontier :: PathFromTo(g, it.path, root, it.name, k))
  }

  lemma FirstRound(g: Graph, root: string)
    ensures AtRound(g, root, 0, [Item(root, [root])], {root})
  {
    var it := Item(root, [root]);
    assert ItemNames([it]) == [root];
    forall x ensures Within(g, root, x, 0) <==> x == root {
      ReachesItself(g, root, x);
    }
    forall x ensures IsDistance(g, root, x, 0) <==> x == root {
      ReachesItself(g, root, x);
    }
  }

  lemma NextDistance(g: Graph, root: string, k: nat, x: string)
    ensures IsDistance(g, root, x, k + 1) <==>
            !Within(g, root, x, k) && exists y :: IsDistance(g, root, y, k) && x in Successors(g, y)
  {
    if IsDistance(g, root, x, k + 1) {
      var y := ReachesLast(g, root, x, k);
      var d := HasDistance(g, root, y, k);
      ReachesStep(g, root, y, x, d);
    }
    if y :| !Within(g, root, x, k) && IsDistance(g, root, y, k) && x in Successors(g, y) {
      ReachesStep(g, root, y, x, k);
    }
  }

  lemma NextWithin(g: Graph, root: string, k: nat, x: string)
    ensures Within(g, root, x, k + 1) <==> Within(g, root, x, k) || IsDistance(g, root, x, k + 1)
  {
    if Within(g, root, x, k + 1) {
      var j: nat :| j <= k + 1 && Reaches(g, root, x, j);
      var d := HasDistance(g, root, x, j);
    }
  }

  lemma NextRound(g: Graph, root: string, k: nat, frontier: seq<Item>, visited: set<string>)
    requires AtRound(g, root, k, frontier, visited)
    ensures var next := NextLevel(g, frontier, visited);
            AtRound(g, root, k + 1, next, visited + (set x | x in ItemNames(next)))
  {
    var next := NextLevel(g, frontier, visited);
    NextLevelNames(g, frontier, visited);
    NextLevelPaths(g, frontier, visited);
    forall x ensures x in ItemNames(next) <==> IsDistance(g, root, x, k + 1) {
      NextDistance(g, root, k, x);
      FrontierNames(g, frontier, x);
      assert forall y :: y in ItemNames(frontier) <==> IsDistance(g, root, y, k);
    }
    forall x ensures x in visited || x in ItemNames(next) <==> Within(g, root, x, k + 1) {
      NextWithin(g, root, k, x);
    }
    forall it | it in next ensures PathFromTo(g, it.path, root, it.name, k + 1) {
      assert Extends(g, frontier, it);
    }
  }

  lemma FrontierNames(g: Graph, frontier: seq<Item>, x: string)
    ensures Follows(g, frontier, x) <==> exists y :: y in ItemNames(frontier) && x in Successors(g, y)
  {
    if Follows(g, frontier, x) {
      var cur :| cur in frontier && x in Successors(g, cur.name);
      NameOf(frontier, cur);
    }
    if y :| y in ItemNames(frontier) && x in Successors(g, y) {
      var i :| 0 <= i < |frontier| && ItemNames(frontier)[i] == y;
      assert frontier[i] in frontier;
    }
  }

  // ---------- the whole walk ----------

  /** The node carries its shortest distance and a shortest path from the root. */
  ghost predicate IsWitness(g: Graph, root: string, node: BfsNode) {
    && IsDistance(g, root, node.fqn, node.level)
    && PathFromTo(g, node.path, root, node.fqn, node.level)
  }

  ghost predicate Between(g: Graph, root: string, x: string, lo: nat, hi: nat) {
    exists d: nat :: lo < d <= hi && IsDistance(g, root, x, d)
  }

  ghost predicate LevelsAscend(nodes: seq<BfsNode>) {
    forall i, j | 0 <= i < j < |nodes| :: nodes[i].level <= nodes[j].level
  }

  /** `nodes` is the output of a walk that went from distance `lo` to distance `hi`. */
  ghost predicate Covers(g: Graph, root: string, lo: nat, hi: nat, nodes: seq<BfsNode>) {
    && Distinct(NodeNames(nodes))
    && (forall x :: x in NodeNames(nodes) <==> Between(g, root, x, lo, hi))
    && (forall n | n in nodes :: lo < n.level && IsWitness(g, root, n))
    && LevelsAscend(nodes)
  }

  lemma {:induction false} DistancesHaveNoGap(g: Graph, root: string, x: string, d: nat, k: nat) returns (y: string)
    requires IsDistance(g, root, x, d) && k <= d
    ensures IsDistance(g, root, y, k)
    decreases d
  {
    if d == k {
      y := x;
    } else {
      NextDistance(g, root, d - 1, x);
      var z :| IsDistance(g, root, z, d - 1) && x in Successors(g, z);
      y := DistancesHaveNoGap(g, root, z, d - 1, k);
    }
  }

  lemma NodesOfLevel(items: seq<Item>, level: nat)
    ensures NodeNames(AtLevel(items, level)) == ItemNames(items)
    ensures forall n | n in AtLevel(items, level) :: exists it :: it in items && n == BfsNode(it.name, level, it.path)
  {
    forall n | n in AtLevel(items, level)
      ensures exists it :: it in items && n == BfsNode(it.name, level, it.path)
    {
      var i :| 0 <= i < |items| && AtLevel(items, level)[i] == n;
      assert items[i] in items;
    }
  }

  lemma CoversLevel(g: Graph, root: string, k: nat, items: seq<Item>, visited: set<string>)
    requires AtRound(g, root, k + 1, items, visited)
    ensures Covers(g, root, k, k + 1, AtLevel(items, k + 1))
  {
    var nodes := AtLevel(items, k + 1);
    NodesOfLevel(items, k + 1);
    forall x ensures x in NodeNames(nodes) <==> Between(g, root, x, k, k + 1) {
      if x in NodeNames(nodes) { assert IsDistance(g, root, x, k + 1); }
    }
    forall n | n in nodes ensures n.level == k + 1 && IsWitness(g, root, n) {
      var it :| it in items && n == BfsNode(it.name, k + 1, it.path);
      NameOf(items, it);
    }
  }

  lemma DistanceIsUnique(g: Graph, root: string, x: string, d: nat, e: nat)
    requires IsDistance(g, root, x, d) && IsDistance(g, root, x, e)
    ensures d == e
  {}

  lemma BetweenIsDisjoint(g: Graph, root: string, x: string, lo: nat, mid: nat, hi: nat)
    ensures !Between(g, root, x, lo, mid) || !Between(g, root, x, mid, hi)
  {
    forall d: nat, e: nat | IsDistance(g, root, x, d) && IsDistance(g, root, x, e) ensures d == e {
      DistanceIsUnique(g, root, x, d, e);
    }
  }

  lemma CoversAppend(g: Graph, root: string, lo: nat, mid: nat, hi: nat, a: seq<BfsNode>, b: seq<BfsNode>)
    requires lo <= mid <= hi && Covers(g, root, lo, mid, a) && Covers(g, root, mid, hi, b)
    ensures Covers(g, root, lo, hi, a + b)
  {
    assert NodeNames(a + b) == NodeNames(a) + NodeNames(b);
    forall x | x in NodeNames(b) ensures x !in NodeNames(a) {
      BetweenIsDisjoint(g, root, x, lo, mid, hi);
    }
    DistinctAppend(NodeNames(a), NodeNames(b));
    forall x ensures Between(g, root, x, lo, hi) <==> Between(g, root, x, lo, mid) || Between(g, root, x, mid, hi) {}
    LevelsAppend(g, root, lo, mid, hi, a, b);
  }

  lemma LevelsAppend(g: Graph, root: string, lo: nat, mid: nat, hi: nat, a: seq<BfsNode>, b: seq<BfsNode>)
    requires Covers(g, root, lo, mid, a) && Covers(g, root, mid, hi, b)
    ensures LevelsAscend(a + b)
  {
    forall n | n in a ensures n.level <= mid {
      var i :| 0 <= i < |a| && a[i] == n;
      assert NodeNames(a)[i] == n.fqn;
      assert Between(g, root, n.fqn, lo, mid);
      var d: nat :| lo < d <= mid && IsDistance(g, root, n.fqn, d);
      DistanceIsUnique(g, root, n.fqn, d, n.level);
    }
    forall i, j | 0 <= i < j < |a + b| ensures (a + b)[i].level <= (a + b)[j].level {
      if i < |a| { assert a[i] in a; }
      if j >= |a| { assert b[j - |a|] in b; }
    }
  }

  lemma NothingFurther(g: Graph, root: string, k: nat, frontier: seq<Item>, visited: set<string>, hi: nat)
    requires AtRound(g, root, k, frontier, visited) && (hi == k || frontier == [])
    ensures Covers(g, root, k, hi, [])
  {
    assert NodeNames([]) == [];
    forall x ensures !Between(g, root, x, k, hi) {
      if d: nat :| k < d <= hi && IsDistance(g, root, x, d) {
        var y := DistancesHaveNoGap(g, root, x, d, k);
      }
    }
  }

  lemma CoversStep(g: Graph, root: string, k: nat, next: seq<Item>, visited: set<string>, hi: nat, rest: seq<BfsNode>)
    requires AtRound(g, root, k + 1, next, visited) && k + 1 <= hi && Covers(g, root, k + 1, hi, rest)
    ensures Covers(g, root, k, hi, AtLevel(next, k + 1) + rest)
  {
    CoversLevel(g, root, k, next, visited);
    CoversAppend(g, root, k, k + 1, hi, AtLevel(next, k + 1), rest);
  }

  lemma {:induction false} WalkCovers(g: Graph, root: string, k: nat, frontier: seq<Item>, visited: set<string>,
                                      depth: nat)
    requires AtRound(g, root, k, frontier, visited)
    ensures Covers(g, root, k, k + depth, Walk(g, frontier, visited, k, depth))
    decreases depth
  {
    if depth == 0 || frontier == [] {
      NothingFurther(g, root, k, frontier, visited, k + depth);
    } else {
      var next := NextLevel(g, frontier, visited);
      var visited' := visited + (set x | x in ItemNames(next));
      NextRound(g, root, k, frontier, visited);
      WalkCovers(g, root, k + 1, next, visited', depth - 1);
      CoversStep(g, root, k, next, visited', k + depth, Walk(g, next, visited', k + 1, depth - 1));
    }
  }

  /** The walk returns exactly the nodes other than the root that are reachable within `maxLevel`
      edges, each once, with its shortest distance, with a real path of that many edges and no node
      twice, nearest first. */
  lemma WalkFromIsCorrect(g: Graph, root: string, maxLevel: int)
    ensures var nodes := WalkFrom(g, root, maxLevel);
            && Distinct(NodeNames(nodes))
            && (forall x :: x in NodeNames(nodes) <==> x != root && maxLevel > 0 && Within(g, root, x, maxLevel))
            && (forall n | n in nodes :: IsWitness(g, root, n) && Distinct(n.path))
            && LevelsAscend(nodes)
  {
    if maxLevel > 0 {
      FirstRound(g, root);
      WalkCovers(g, root, 0, [Item(root, [root])], {root}, maxLevel);
      forall x ensures Between(g, root, x, 0, maxLevel) <==> x != root && Within(g, root, x, maxLevel) {
        ReachesItself(g, root, x);
        if Within(g, root, x, maxLevel) {
          var j: nat :| j <= maxLevel && Reaches(g, root, x, j);
          var d := HasDistance(g, root, x, j);
        }
      }
      forall n | n in WalkFrom(g, root, maxLevel) ensures Distinct(n.path) {
        ShortestIsSimple(g, n.path, root, n.fqn, n.level);
      }
    } else {
      assert NodeNames([]) == [];
    }
  }

  // ---------- a large enough depth is no limit ----------

  ghost function Nodes(g: Graph): set<string> {
    g.Keys + set x, k | k in g && x in g[k] :: x
  }

  lemma {:induction false} DistinctFits<T>(s: seq<T>, all: set<T>)
    requires Distinct(s) && forall x | x in s :: x in all
    ensures |s| <= |all|
  {
    if s != [] {
      var init, x := s[..|s| - 1], s[|s| - 1];
      forall y | y in init ensures y in all - {x} {
        var i :| 0 <= i < |init| && init[i] == y;
        assert s[i] == y;
      }
      DistinctFits(init, all - {x});
    }
  }

  lemma DistanceFits(g: Graph, a: string, b: string, d: nat)
    requires IsDistance(g, a, b, d)
    ensures d == 0 || d < |Nodes(g)|
  {
    var p :| PathFromTo(g, p, a, b, d);
    ShortestIsSimple(g, p, a, b, d);
    if d > 0 {
      forall x | x in p ensures x in Nodes(g) {
        var i :| 0 <= i < |p| && p[i] == x;
        if i < d {
          assert p[i + 1] in Successors(g, p[i]);
        } else {
          assert p[i] in Successors(g, p[i - 1]);
        }
      }
      DistinctFits(p, Nodes(g));
    }
  }

  /** With at most `depth + 1` nodes, everything reachable at all is reachable within `depth`. */
  lemma DeepEnough(g: Graph, a: string, b: string, depth: nat)
    requires |Nodes(g)| <= depth + 1
    ensures Within(g, a, b, depth) <==> exists k: nat :: Reaches(g, a, b, k)
  {
    if k: nat :| Reaches(g, a, b, k) {
      var d := HasDistance(g, a, b, k);
      DistanceFits(g, a, b, d);
    }
  }

  // ---------- transposed graphs ----------

  /** Same edges, opposite direction. */
  ghost predicate Transposed(f: Graph, r: Graph) {
    forall u, v :: v in Successors(f, u) <==> u in Successors(r, v)
  }

  lemma ReachesBack(f: Graph, r: Graph, a: string, b: string, k: nat)
    requires Transposed(f, r) && Reaches(f, a, b, k)
    ensures Reaches(r, b, a, k)
  {
    var p :| PathFromTo(f, p, a, b, k);
    var q := seq(|p|, i requires 0 <= i < |p| => p[k - i]);
    forall i | 0 <= i < |q| - 1 ensures q[i + 1] in Successors(r, q[i]) {
      assert p[(k - i - 1) + 1] in Successors(f, p[k - i - 1]);
    }
    assert PathFromTo(r, q, b, a, k);
  }

  /** Distances in a graph and its transpose mirror each other. */
  lemma DistancesMirror(f: Graph, r: Graph, a: string, b: string, k: nat)
    requires Transposed(f, r)
    ensures IsDistance(f, a, b, k) <==> IsDistance(r, b, a, k)
  {
    assert Transposed(r, f);
    if IsDistance(f, a, b, k) {
      ReachesBack(f, r, a, b, k);
      forall j: nat | j < k ensures !Reaches(r, b, a, j) {
        if Reaches(r, b, a, j) { ReachesBack(r, f, b, a, j); }
      }
    }
    if IsDistance(r, b, a, k) {
      ReachesBack(r, f, b, a, k);
      forall j: nat | j < k ensures !Reaches(f, a, b, j) {
        if Reaches(f, a, b, j) { ReachesBack(f, r, a, b, j); }
      }
    }
  }

  /** `v` is found from `u` at level `k` exactly when `u` is found from `v` at level `k` in the
      transposed graph. */
  lemma WalksMirror(f: Graph, r: Graph, u: string, v: string, k: nat, maxLevel: int)
    requires Transposed(f, r)
    ensures (exists n :: n in WalkFrom(f, u, maxLevel) && n.fqn == v && n.level == k)
            <==> exists n :: n in WalkFrom(r, v, maxLevel) && n.fqn == u && n.level == k
  {
    assert Transposed(r, f);
    DistancesMirror(f, r, u, v, k);
    FoundAt(f, u, v, k, maxLevel);
    FoundAt(r, v, u, k, maxLevel);
  }

  lemma FoundAt(g: Graph, u: string, v: string, k: nat, maxLevel: int)
    ensures (exists n :: n in WalkFrom(g, u, maxLevel) && n.fqn == v && n.level == k)
            <==> 0 < k <= maxLevel && IsDistance(g, u, v, k)
  {
    WalkFromIsCorrect(g, u, maxLevel);
    ReachesItself(g, u, v);
    var nodes := WalkFrom(g, u, maxLevel);
    if n :| n in nodes && n.fqn == v && n.level == k {
      NodeNameOf(nodes, n);
      assert maxLevel > 0 && Within(g, u, v, maxLevel);
      var j: nat :| j <= maxLevel && Reaches(g, u, v, j);
      assert IsDistance(g, u, v, k) && !(j < k);
    }
    if 0 < k <= maxLevel && IsDistance(g, u, v, k) {
      assert !Reaches(g, u, v, 0) && Within(g, u, v, maxLevel);
      assert v in NodeNames(nodes);
      var i :| 0 <= i < |nodes| && NodeNames(nodes)[i] == v;
      assert nodes[i] in nodes;
      DistanceIsUnique(g, u, v, k, nodes[i].level);
    }
  }

  lemma NodeNameOf(nodes: seq<BfsNode>, n: BfsNode)
    requires n in nodes
    ensures n.fqn in NodeNames(nodes)
  {
    var i :| 0 <= i < |nodes| && nodes[i] == n;
    assert NodeNames(nodes)[i] == n.fqn;
  }
}
