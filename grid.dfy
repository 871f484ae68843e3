/**
 * The walkability grid (`Vec<Vec<bool>>`, indexed `walkables[y][x]`),
 * four-connected walks over it, and the search that stands in for the
 * external A* call of `find_path`.
 */
module Grid {
  import opened Common

  /** A grid cell `(x, y)`; both coordinates are `usize` in the source. */
  datatype Cell = Cell(x: nat, y: nat)

  type Walkables = seq<seq<bool>>

  /** A non-empty rectangular grid. */
  predicate IsGrid(w: Walkables) {
    |w| > 0 && |w[0]| > 0 && forall r :: 0 <= r < |w| ==> |w[r]| == |w[0]|
  }

  function Width(w: Walkables): nat
    requires |w| > 0
  {
    |w[0]|
  }

  predicate InBounds(w: Walkables, c: Cell) {
    c.y < |w| && c.x < |w[c.y]|
  }

  predicate Walkable(w: Walkables, c: Cell) {
    InBounds(w, c) && w[c.y][c.x]
  }

  /** The two cells differ by one unit along exactly one axis. */
  predicate Adjacent(a: Cell, b: Cell) {
    || (a.x == b.x && (a.y + 1 == b.y || b.y + 1 == a.y))
    || (a.y == b.y && (a.x + 1 == b.x || b.x + 1 == a.x))
  }

  /**
   * A walk as the search returns it: it starts inside the grid, and every
   * later cell is walkable and four-adjacent to the one before. The search
   * never checks the walkability of the cell it starts from.
   */
  predicate IsWalk(w: Walkables, p: seq<Cell>) {
    && |p| > 0
    && InBounds(w, p[0])
    && forall k :: 0 < k < |p| ==> Walkable(w, p[k]) && Adjacent(p[k - 1], p[k])
  }

  predicate IsRoute(w: Walkables, p: seq<Cell>, s: Cell, g: Cell) {
    IsWalk(w, p) && p[0] == s && p[|p| - 1] == g
  }

  ghost predicate Reachable(w: Walkables, s: Cell, g: Cell) {
    exists p :: IsRoute(w, p, s, g)
  }

  /** `w2` has the shape of `w` and every cell walkable in `w` is walkable in `w2`. */
  ghost predicate Covers(w: Walkables, w2: Walkables) {
    && |w2| == |w|
    && (forall r :: 0 <= r < |w| ==> |w2[r]| == |w[r]|)
    && (forall c :: Walkable(w, c) ==> Walkable(w2, c))
  }

  lemma {:induction false} RouteMonotone(w: Walkables, w2: Walkables, p: seq<Cell>, s: Cell, g: Cell)
    requires Covers(w, w2) && IsRoute(w, p, s, g)
    ensures IsRoute(w2, p, s, g)
  {
    assert InBounds(w2, p[0]);
    forall k | 0 < k < |p|
      ensures Walkable(w2, p[k]) && Adjacent(p[k - 1], p[k])
    {
      assert Walkable(w, p[k]);
    }
  }

  /** Making more cells walkable never breaks reachability. */
  lemma ReachableMonotone(w: Walkables, w2: Walkables, s: Cell, g: Cell)
    requires Covers(w, w2) && Reachable(w, s, g)
    ensures Reachable(w2, s, g)
  {
    var p :| IsRoute(w, p, s, g);
    RouteMonotone(w, w2, p, s, g);
  }

  lemma CoversTransitive(w1: Walkables, w2: Walkables, w3: Walkables)
    requires Covers(w1, w2) && Covers(w2, w3)
    ensures Covers(w1, w3)
  {
  }

  lemma {:induction false} RouteExtend(w: Walkables, p: seq<Cell>, s: Cell, c: Cell, n: Cell)
    requires IsRoute(w, p, s, c) && Adjacent(c, n) && Walkable(w, n)
    ensures IsRoute(w, p + [n], s, n)
  {
    var q := p + [n];
    forall k | 0 < k < |q|
      ensures Walkable(w, q[k]) && Adjacent(q[k - 1], q[k])
    {
      if k < |p| {
        assert q[k] == p[k] && q[k - 1] == p[k - 1];
      }
    }
  }

  lemma {:induction false} RoutePrefix(w: Walkables, p: seq<Cell>, k: nat)
    requires IsWalk(w, p) && k < |p|
    ensures IsRoute(w, p[..k + 1], p[0], p[k])
  {
    var q := p[..k + 1];
    forall j | 0 < j < |q|
      ensures Walkable(w, q[j]) && Adjacent(q[j - 1], q[j])
    {
      assert q[j] == p[j] && q[j - 1] == p[j - 1];
    }
  }

  lemma {:induction false} RouteConcat(w: Walkables, p: seq<Cell>, q: seq<Cell>, s: Cell, m: Cell, g: Cell)
    requires IsRoute(w, p, s, m) && IsRoute(w, q, m, g)
    ensures IsRoute(w, p + q[1..], s, g)
  {
    var r := p + q[1..];
    forall k | 0 < k < |r|
      ensures Walkable(w, r[k]) && Adjacent(r[k - 1], r[k])
    {
      if k < |p| {
        assert r[k] == p[k] && r[k - 1] == p[k - 1];
      } else {
        var j := k - |p| + 1;
        assert r[k] == q[j];
        assert r[k - 1] == q[j - 1];
      }
    }
  }

  /** The cells `(x, y)` with `x < n` of row `y`. */
  ghost function RowCells(y: nat, n: nat): set<Cell> {
    if n == 0 then {} else RowCells(y, n - 1) + {Cell(n - 1, y)}
  }

  /** The cells of the first `m` rows of `w`. */
  ghost function CellsOfRows(w: Walkables, m: nat): set<Cell>
    requires m <= |w|
  {
    if m == 0 then {} else CellsOfRows(w, m - 1) + RowCells(m - 1, |w[m - 1]|)
  }

  /** Every cell of the grid: the finite universe the search works in. */
  ghost function AllCells(w: Walkables): set<Cell> {
    CellsOfRows(w, |w|)
  }

  lemma {:induction false} RowCellsHas(y: nat, n: nat, x: nat)
    requires x < n
    ensures Cell(x, y) in RowCells(y, n)
    decreases n
  {
    if x < n - 1 {
      RowCellsHas(y, n - 1, x);
    }
  }

  lemma {:induction false} CellsOfRowsHas(w: Walkables, m: nat, c: Cell)
    requires m <= |w| && c.y < m && c.x < |w[c.y]|
    ensures c in CellsOfRows(w, m)
    decreases m
  {
    if c.y < m - 1 {
      CellsOfRowsHas(w, m - 1, c);
    } else {
      RowCellsHas(c.y, |w[c.y]|, c.x);
    }
  }

  lemma AllCellsHas(w: Walkables, c: Cell)
    requires InBounds(w, c)
    ensures c in AllCells(w)
  {
    CellsOfRowsHas(w, |w|, c);
  }

  /** The in-bounds four-neighbours of `c`, in the order left, right, up, down. */
  method Around(w: Walkables, c: Cell) returns (r: seq<Cell>)
    ensures forall j :: 0 <= j < |r| ==> Adjacent(c, r[j]) && InBounds(w, r[j])
    ensures forall n :: Adjacent(c, n) && InBounds(w, n) ==> n in r
  {
    r := [];
    if c.x > 0 && InBounds(w, Cell(c.x - 1, c.y)) {
      r := r + [Cell(c.x - 1, c.y)];
    }
    if InBounds(w, Cell(c.x + 1, c.y)) {
      r := r + [Cell(c.x + 1, c.y)];
    }
    if c.y > 0 && InBounds(w, Cell(c.x, c.y - 1)) {
      r := r + [Cell(c.x, c.y - 1)];
    }
    if InBounds(w, Cell(c.x, c.y + 1)) {
      r := r + [Cell(c.x, c.y + 1)];
    }
  }

  /** No walkable neighbour of `c` lies outside `s`. */
  ghost predicate ClosedAt(w: Walkables, s: set<Cell>, c: Cell) {
    forall n :: Adjacent(c, n) && Walkable(w, n) ==> n in s
  }

  /** A set that holds `s` and is closed at each of its cells holds every cell reachable from `s`. */
  lemma {:induction false} ClosedContainsReachable(w: Walkables, region: set<Cell>, s: Cell, g: Cell)
    requires s in region
    requires forall c :: c in region ==> ClosedAt(w, region, c)
    requires Reachable(w, s, g)
    ensures g in region
  {
    var p :| IsRoute(w, p, s, g);
    var k := 0;
    while k < |p| - 1
      invariant 0 <= k < |p| && p[k] in region
    {
      assert ClosedAt(w, region, p[k]);
      assert Adjacent(p[k], p[k + 1]) && Walkable(w, p[k + 1]);
      k := k + 1;
    }
  }

  /**
   * The bookkeeping of the search: every discovered cell maps to a route
   * from `start`, the goal is not yet discovered, and the queue holds
   * discovered cells only.
   */
  ghost predicate Frontier(w: Walkables, start: Cell, goal: Cell, paths: map<Cell, seq<Cell>>, queue: seq<Cell>) {
    && start in paths && goal !in paths
    && (forall c :: c in paths ==> IsRoute(w, paths[c], start, c))
    && (forall c :: c in queue ==> c in paths)
  }

  /** Every discovered cell that has left the queue has all its walkable neighbours discovered. */
  ghost predicate Settled(w: Walkables, paths: map<Cell, seq<Cell>>, queue: seq<Cell>) {
    forall c :: c in paths && c !in queue ==> ClosedAt(w, paths.Keys, c)
  }

  lemma SettledAfterExpand(w: Walkables, paths: map<Cell, seq<Cell>>, queue: seq<Cell>,
                           paths2: map<Cell, seq<Cell>>, queue2: seq<Cell>)
    requires |queue| > 0 && Settled(w, paths, queue)
    requires paths.Keys <= paths2.Keys && ClosedAt(w, paths2.Keys, queue[0])
    requires forall d :: d in queue[1..] ==> d in queue2
    requires forall d :: d in paths2 && d !in paths ==> d in queue2
    ensures Settled(w, paths2, queue2)
  {
    forall d | d in paths2 && d !in queue2
      ensures ClosedAt(w, paths2.Keys, d)
    {
      if d != queue[0] {
        assert d in paths;
        assert ClosedAt(w, paths.Keys, d);
      }
    }
  }

  /** Discovering one more cell next to a discovered one keeps the bookkeeping and shrinks the undiscovered part. */
  lemma Discover(w: Walkables, start: Cell, goal: Cell, paths: map<Cell, seq<Cell>>, queue: seq<Cell>, c: Cell, n: Cell)
    requires Frontier(w, start, goal, paths, queue) && c in paths
    requires Adjacent(c, n) && Walkable(w, n) && n !in paths
    ensures IsRoute(w, paths[c] + [n], start, n)
    ensures n != goal ==> Frontier(w, start, goal, paths[n := paths[c] + [n]], queue + [n])
    ensures paths[n := paths[c] + [n]].Keys == paths.Keys + {n}
    ensures Unseen(w, paths[n := paths[c] + [n]]) < Unseen(w, paths)
  {
    RouteExtend(w, paths[c], start, c, n);
    AllCellsHas(w, n);
    var all := AllCells(w);
    assert all - (paths.Keys + {n}) == (all - paths.Keys) - {n};
  }

  /** The number of grid cells not yet discovered. */
  ghost function Unseen(w: Walkables, paths: map<Cell, seq<Cell>>): nat {
    |AllCells(w) - paths.Keys|
  }

  /** The search discovered a cell, or left the queue as long as it was. */
  ghost predicate Progress(w: Walkables, paths: map<Cell, seq<Cell>>, queue: seq<Cell>,
                           paths2: map<Cell, seq<Cell>>, queue2: seq<Cell>) {
    Unseen(w, paths2) < Unseen(w, paths) || (Unseen(w, paths2) == Unseen(w, paths) && |queue2| == |queue|)
  }

  /**
   * The state of the search after looking at the first `k` neighbours of
   * `c`, relative to the state `paths`, `queue` before it.
   */
  ghost predicate ExpandInv(w: Walkables, start: Cell, goal: Cell, c: Cell,
                            paths: map<Cell, seq<Cell>>, queue: seq<Cell>,
                            around: seq<Cell>, k: nat,
                            paths2: map<Cell, seq<Cell>>, queue2: seq<Cell>) {
    && k <= |around|
    && Frontier(w, start, goal, paths2, queue2) && c in paths2
    && paths.Keys <= paths2.Keys
    && (forall d :: d in queue ==> d in queue2)
    && (forall d :: d in paths2 && d !in paths ==> d in queue2)
    && (forall j :: 0 <= j < k ==> Walkable(w, around[j]) ==> around[j] in paths2)
    && Progress(w, paths, queue, paths2, queue2)
  }

  lemma HandledStep(w: Walkables, around: seq<Cell>, k: nat, paths1: map<Cell, seq<Cell>>, paths2: map<Cell, seq<Cell>>)
    requires k < |around|
    requires forall j :: 0 <= j < k ==> Walkable(w, around[j]) ==> around[j] in paths1
    requires paths1.Keys <= paths2.Keys
    requires Walkable(w, around[k]) ==> around[k] in paths2
    ensures forall j :: 0 <= j < k + 1 ==> Walkable(w, around[j]) ==> around[j] in paths2
  {
    forall j | 0 <= j < k + 1 && Walkable(w, around[j])
      ensures around[j] in paths2
    {
      if j < k {
        assert around[j] in paths1;
      }
    }
  }

  /**
   * Looks at the neighbour `around[k]` of the discovered cell `c`: when it
   * is walkable and undiscovered, records a route to it through `c` and
   * queues it, or, when it is the goal, returns that route.
   */
  method Visit(w: Walkables, start: Cell, goal: Cell, c: Cell,
               paths: map<Cell, seq<Cell>>, queue: seq<Cell>, around: seq<Cell>, k: nat,
               paths1: map<Cell, seq<Cell>>, queue1: seq<Cell>)
    returns (paths2: map<Cell, seq<Cell>>, queue2: seq<Cell>, found: Option<seq<Cell>>)
    requires ExpandInv(w, start, goal, c, paths, queue, around, k, paths1, queue1) && k < |around|
    requires Adjacent(c, around[k]) && InBounds(w, around[k])
    ensures found.Some? ==> IsRoute(w, found.value, start, goal)
    ensures found.None? ==> ExpandInv(w, start, goal, c, paths, queue, around, k + 1, paths2, queue2)
  {
    var n := around[k];
    paths2, queue2, found := paths1, queue1, None;
    if w[n.y][n.x] && n !in paths1 {
      Discover(w, start, goal, paths1, queue1, c, n);
      if n == goal {
        found := Some(paths1[c] + [n]);
        return;
      }
      paths2 := paths1[n := paths1[c] + [n]];
      queue2 := queue1 + [n];
    }
    HandledStep(w, around, k, paths1, paths2);
  }

  /**
   * Visits the in-bounds neighbours of `c` in the order left, right, up,
   * down, stopping as soon as the goal is discovered.
   */
  method Expand(w: Walkables, start: Cell, goal: Cell, c: Cell, paths: map<Cell, seq<Cell>>, queue: seq<Cell>)
    returns (paths2: map<Cell, seq<Cell>>, queue2: seq<Cell>, found: Option<seq<Cell>>)
    requires Frontier(w, start, goal, paths, queue) && c in paths
    ensures found.Some? ==> IsRoute(w, found.value, start, goal)
    ensures found.None? ==>
      && Frontier(w, start, goal, paths2, queue2)
      && paths.Keys <= paths2.Keys
      && ClosedAt(w, paths2.Keys, c)
      && (forall d :: d in queue ==> d in queue2)
      && (forall d :: d in paths2 && d !in paths ==> d in queue2)
      && Progress(w, paths, queue, paths2, queue2)
  {
    paths2, queue2 := paths, queue;
    var around := Around(w, c);
    var k := 0;
    while k < |around|
      invariant ExpandInv(w, start, goal, c, paths, queue, around, k, paths2, queue2)
    {
      paths2, queue2, found := Visit(w, start, goal, c, paths, queue, around, k, paths2, queue2);
      if found.Some? {
        return;
      }
      k := k + 1;
    }
    found := None;
  }

  /**
   * Stand-in for `pathfinding::astar` with unit costs: a breadth-first
   * search from `start`. It returns a route to `goal` when one exists and
   * `None` only when no route exists. Which route is returned when several
   * exist is not the library's.
   */
  method Search(w: Walkables, start: Cell, goal: Cell) returns (r: Option<seq<Cell>>)
    requires InBounds(w, start)
    ensures r.Some? ==> IsRoute(w, r.value, start, goal)
    ensures r.None? ==> !Reachable(w, start, goal)
  {
    if start == goal {
      return Some([start]);
    }
    var paths: map<Cell, seq<Cell>> := map[start := [start]];
    var queue: seq<Cell> := [start];
    while queue != []
      invariant Frontier(w, start, goal, paths, queue)
      invariant Settled(w, paths, queue)
      decreases Unseen(w, paths), |queue|
    {
      var c := queue[0];
      var paths2, queue2, found := Expand(w, start, goal, c, paths, queue[1..]);
      if found.Some? {
        return found;
      }
      SettledAfterExpand(w, paths, queue, paths2, queue2);
      paths, queue := paths2, queue2;
    }
    if Reachable(w, start, goal) {
      ClosedContainsReachable(w, paths.Keys, start, goal);
    }
    return None;
  }

  /** The number of moves of a route: the cost A* reports with unit steps. */
  function Moves(p: seq<Cell>): nat
    requires |p| > 0
  {
    |p| - 1
  }

  function AbsDiff(a: nat, b: nat): nat {
    if a < b then b - a else a - b
  }

  /** One move from `s` toward `g`, first along x, then along y. */
  function Toward(s: Cell, g: Cell): (n: Cell)
    requires s != g
    ensures Adjacent(s, n)
    ensures AbsDiff(n.x, g.x) + AbsDiff(n.y, g.y) < AbsDiff(s.x, g.x) + AbsDiff(s.y, g.y)
    ensures (n.x == s.x || n.x == if s.x < g.x then s.x + 1 else s.x - 1) && (s.x <= n.x <= g.x || g.x <= n.x <= s.x)
    ensures (s.y <= n.y <= g.y || g.y <= n.y <= s.y)
  {
    if s.x < g.x then Cell(s.x + 1, s.y)
    else if g.x < s.x then Cell(s.x - 1, s.y)
    else if s.y < g.y then Cell(s.x, s.y + 1)
    else Cell(s.x, s.y - 1)
  }

  /** On a grid where every cell is walkable, any two cells are connected. */
  lemma {:induction false} OpenGridRoute(w: Walkables, s: Cell, g: Cell) returns (p: seq<Cell>)
    requires IsGrid(w) && InBounds(w, s) && InBounds(w, g)
    requires forall c :: InBounds(w, c) ==> w[c.y][c.x]
    ensures IsRoute(w, p, s, g)
    decreases AbsDiff(s.x, g.x) + AbsDiff(s.y, g.y)
  {
    if s == g {
      p := [s];
    } else {
      var n := Toward(s, g);
      assert InBounds(w, n) by {
        assert n.y < |w|;
        assert |w[n.y]| == |w[0]| == |w[s.y]|;
      }
      var rest := OpenGridRoute(w, n, g);
      p := [s] + rest;
      forall k | 0 < k < |p|
        ensures Walkable(w, p[k]) && Adjacent(p[k - 1], p[k])
      {
        if k > 1 {
          assert p[k] == rest[k - 1] && p[k - 1] == rest[k - 2];
        }
      }
    }
  }
}
