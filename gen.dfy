/**
 * Map generation from a public key and the connectivity repair that
 * carves walkable cells (src/maps/gen.rs). Random draws are parameters:
 * the `OsRng` draws of the placement loop as a finite sequence, the
 * `thread_rng` draws of the repair as a stream `rng` read from a position.
 */
module MapGen {
  import opened Common
  import opened Grid
  import opened GridMap

  /* ---------------------------------------------------------------- */
  /* Board helpers                                                      */
  /* ---------------------------------------------------------------- */

  /** An 8 x 8 grid of symbols, as `vec![vec![..; 8]; 8]` builds it. */
  predicate IsTileBoard(m: Tiles) {
    |m| == Size && forall y :: 0 <= y < Size ==> |m[y]| == Size
  }

  /** `map[d.y][d.x] = t`. */
  function Put(m: Tiles, d: Cell, t: string): (r: Tiles)
    requires IsTileBoard(m) && OnBoard(d)
    ensures IsTileBoard(r)
    ensures forall e :: OnBoard(e) ==> r[e.y][e.x] == if e == d then t else m[e.y][e.x]
  {
    m[d.y := m[d.y][d.x := t]]
  }

  /** `walkables[d.y][d.x] = true`. */
  function MarkWalkable(w: Walkables, d: Cell): (r: Walkables)
    requires IsBoardGrid(w) && OnBoard(d)
    ensures IsBoardGrid(r)
    ensures forall e :: OnBoard(e) ==> r[e.y][e.x] == (e == d || w[e.y][e.x])
  {
    w[d.y := w[d.y][d.x := true]]
  }

  /** The grid `always_find_path` searches: `vec![vec![true; 8]; 8]`. */
  function OpenBoard(): (w: Walkables)
    ensures IsBoardGrid(w) && IsGrid(w)
    ensures forall c :: InBounds(w, c) <==> OnBoard(c)
    ensures forall c :: InBounds(w, c) ==> w[c.y][c.x]
  {
    var row := [true, true, true, true, true, true, true, true];
    [row, row, row, row, row, row, row, row]
  }

  /** `ch as u8`: the low byte of the code point. */
  function LowByte(ch: char): nat {
    (ch as int) % 256
  }

  /** `rng.gen_range(lo..=hi)` fed with the raw draw `d`. */
  function Pick(d: nat, lo: nat, hi: nat): (r: nat)
    requires lo <= hi
    ensures lo <= r <= hi
  {
    lo + d % (hi - lo + 1)
  }

  /** The gate column a key character selects: `1 + ch as u8 % 6`. */
  function GateColumn(ch: char): (c: nat)
    ensures 1 <= c <= 6
  {
    1 + LowByte(ch) % 6
  }

  predicate OnEdge(c: Cell) {
    c.y == 0 || c.y == 7 || c.x == 0 || c.x == 7
  }

  /** Rows and columns 1 to 6, where treasure and graves are dropped. */
  predicate Inside(c: Cell) {
    1 <= c.x <= 6 && 1 <= c.y <= 6
  }

  /* ---------------------------------------------------------------- */
  /* gen_map_from_public_key: the layout                                */
  /* ---------------------------------------------------------------- */

  /** The cell key character `i` turns into a tree: row `i % 7 + 1`, column `ch as u8 % 8`. */
  function ObstacleCell(key: string, i: nat): (c: Cell)
    requires i < |key|
    ensures OnBoard(c) && 1 <= c.y
  {
    Cell(LowByte(key[i]) % 8, i % 7 + 1)
  }

  /** Some key character among indices `2 .. n` puts a tree on `c`. */
  ghost predicate ObstacleBefore(key: string, n: nat, c: Cell) {
    exists i :: 2 <= i < n && i < |key| && ObstacleCell(key, i) == c
  }

  /** Some key character from index 2 on puts a tree on `c`. */
  ghost predicate KeyObstacle(key: string, c: Cell) {
    ObstacleBefore(key, |key|, c)
  }

  /** The symbol the key alone gives `c`: the edges and the key's obstacles are trees. */
  ghost function LayoutTile(key: string, c: Cell): string {
    if OnEdge(c) || KeyObstacle(key, c) then TreeTile else TrailTile
  }

  /** The layout once the gates at `(c, 0)` and `(a, 7)` are placed. */
  ghost function GatedTile(key: string, c: nat, a: nat, d: Cell): string {
    if d == Cell(c, 0) || d == Cell(a, 7) then GateTile else LayoutTile(key, d)
  }

  /**
   * During the placement loop each cell holds its gated layout symbol, or
   * treasure or a grave dropped inside rows and columns 1 to 6.
   */
  ghost predicate ScatteredAt(key: string, c: nat, a: nat, m: Tiles, d: Cell)
    requires IsTileBoard(m) && OnBoard(d)
  {
    || m[d.y][d.x] == GatedTile(key, c, a, d)
    || (Inside(d) && (m[d.y][d.x] == CoinTile || m[d.y][d.x] == SkullTile))
  }

  ghost predicate Scattered(key: string, c: nat, a: nat, m: Tiles) {
    IsTileBoard(m) && forall d :: OnBoard(d) ==> ScatteredAt(key, c, a, m, d)
  }

  /**
   * The board a key yields: trees on the edges and on the key's obstacle
   * cells, gates at `(c, 0)` and `(a, 7)`, the exit at `(c, 1)`, the
   * entrance at `(a, 6)`, and any treasure or grave inside rows and
   * columns 1 to 6; `c` and `a` come from the first two key characters.
   */
  ghost predicate KeyBoard(key: string, m: Tiles)
    requires |key| >= 2
  {
    var c := GateColumn(key[0]);
    var a := GateColumn(key[1]);
    && IsTileBoard(m)
    && m[0][c] == GateTile && m[7][a] == GateTile
    && m[1][c] == GoalTile && m[6][a] == StartTile
    && forall d :: OnBoard(d) && d != Cell(c, 1) && d != Cell(a, 6) ==> ScatteredAt(key, c, a, m, d)
  }

  datatype KeyMap = KeyMap(walkables: Walkables, start: Cell, goal: Cell, tiles: Tiles)

  /** Cells of rows and columns `0 .. i` on the edge, as the edge loop has covered them. */
  predicate EdgeBefore(c: Cell, i: nat) {
    || ((c.y == 0 || c.y == 7) && c.x < i)
    || ((c.x == 0 || c.x == 7) && c.y < i)
  }

  /** The first loop: a board of trails whose four edges become trees. */
  method FillEdges() returns (m: Tiles)
    ensures IsTileBoard(m)
    ensures forall c :: OnBoard(c) ==> m[c.y][c.x] == if OnEdge(c) then TreeTile else TrailTile
  {
    var row := [TrailTile, TrailTile, TrailTile, TrailTile, TrailTile, TrailTile, TrailTile, TrailTile];
    m := [row, row, row, row, row, row, row, row];
    for i := 0 to Size
      invariant IsTileBoard(m)
      invariant forall c :: OnBoard(c) ==> m[c.y][c.x] == if EdgeBefore(c, i) then TreeTile else TrailTile
    {
      m := Put(m, Cell(i, 0), TreeTile);
      m := Put(m, Cell(i, 7), TreeTile);
      m := Put(m, Cell(0, i), TreeTile);
      m := Put(m, Cell(7, i), TreeTile);
    }
  }

  lemma {:induction false} ObstacleStep(key: string, i: nat, c: Cell)
    requires i < |key|
    ensures ObstacleBefore(key, i + 1, c) <==> ObstacleBefore(key, i, c) || (2 <= i && ObstacleCell(key, i) == c)
  {
    if ObstacleBefore(key, i + 1, c) {
      var j :| 2 <= j < i + 1 && j < |key| && ObstacleCell(key, j) == c;
      if j < i {
        assert ObstacleBefore(key, i, c);
      }
    }
    if 2 <= i && ObstacleCell(key, i) == c {
      assert 2 <= i < i + 1 && ObstacleCell(key, i) == c;
    }
  }

  lemma {:induction false} ObstacleDone(key: string, i: nat, c: Cell)
    requires |key| <= i
    ensures ObstacleBefore(key, i, c) <==> KeyObstacle(key, c)
  {
    if ObstacleBefore(key, i, c) {
      var j :| 2 <= j < i && j < |key| && ObstacleCell(key, j) == c;
      assert 2 <= j < |key|;
    }
  }

  /** The second loop: every key character from index 2 on plants a tree. */
  method PlaceObstacles(key: string, m0: Tiles) returns (m: Tiles)
    requires IsTileBoard(m0)
    requires forall c :: OnBoard(c) ==> m0[c.y][c.x] == if OnEdge(c) then TreeTile else TrailTile
    ensures IsTileBoard(m)
    ensures forall c :: OnBoard(c) ==> m[c.y][c.x] == LayoutTile(key, c)
  {
    m := m0;
    var i := 2;
    while i < |key|
      invariant 2 <= i && IsTileBoard(m)
      invariant forall c :: OnBoard(c) ==> m[c.y][c.x] == if OnEdge(c) || ObstacleBefore(key, i, c) then TreeTile else TrailTile
    {
      var cell := ObstacleCell(key, i);
      ghost var m1 := m;
      m := Put(m, cell, TreeTile);
      forall c | OnBoard(c)
        ensures m[c.y][c.x] == if OnEdge(c) || ObstacleBefore(key, i + 1, c) then TreeTile else TrailTile
      {
        ObstacleStep(key, i, c);
      }
      i := i + 1;
    }
    forall c | OnBoard(c)
      ensures m[c.y][c.x] == LayoutTile(key, c)
    {
      ObstacleDone(key, i, c);
    }
  }

  /** The cell round `j` of the placement loop drops treasure on (row, then column, each 1 to 6). */
  function CoinCell(draws: seq<nat>, j: nat): (d: Cell)
    requires 4 * j + 4 <= |draws|
    ensures OnBoard(d) && Inside(d)
  {
    Cell(Pick(draws[4 * j + 1], 1, 6), Pick(draws[4 * j], 1, 6))
  }

  /** The cell round `j` of the placement loop drops a grave on. */
  function SkullCell(draws: seq<nat>, j: nat): (d: Cell)
    requires 4 * j + 4 <= |draws|
    ensures OnBoard(d) && Inside(d)
  {
    Cell(Pick(draws[4 * j + 3], 1, 6), Pick(draws[4 * j + 2], 1, 6))
  }

  /** Round `j` of the placement loop on board `m`: treasure, then a grave. */
  function Round(m: Tiles, draws: seq<nat>, j: nat): (r: Tiles)
    requires IsTileBoard(m) && 4 * j + 4 <= |draws|
    ensures IsTileBoard(r)
  {
    Put(Put(m, CoinCell(draws, j), CoinTile), SkullCell(draws, j), SkullTile)
  }

  /** `(c, 1)`, where the exit goes, holds treasure or a grave. */
  predicate Blocked(m: Tiles, c: nat)
    requires IsTileBoard(m) && c < Size
  {
    m[1][c] == CoinTile || m[1][c] == SkullTile
  }

  /** Round `j` drops treasure or a grave on `(c, 1)`. */
  predicate RoundHits(draws: seq<nat>, j: nat, c: nat)
    requires 4 * j + 4 <= |draws|
  {
    CoinCell(draws, j) == Cell(c, 1) || SkullCell(draws, j) == Cell(c, 1)
  }

  /** A round never clears `(c, 1)`: it is blocked after the round iff it was before or the round hits it. */
  lemma RoundBlocks(m: Tiles, draws: seq<nat>, j: nat, c: nat)
    requires IsTileBoard(m) && 4 * j + 4 <= |draws| && c < Size
    ensures Blocked(Round(m, draws, j), c) <==> Blocked(m, c) || RoundHits(draws, j, c)
  {
    var m1 := Put(m, CoinCell(draws, j), CoinTile);
    assert m1[1][c] == if Cell(c, 1) == CoinCell(draws, j) then CoinTile else m[1][c];
    assert Round(m, draws, j)[1][c] == if Cell(c, 1) == SkullCell(draws, j) then SkullTile else m1[1][c];
  }

  /** A round keeps the board scattered: it only drops treasure and graves inside the border. */
  lemma RoundScatters(key: string, c: nat, a: nat, m: Tiles, draws: seq<nat>, j: nat)
    requires 1 <= c <= 6 && 1 <= a <= 6
    requires Scattered(key, c, a, m) && 4 * j + 4 <= |draws|
    ensures Scattered(key, c, a, Round(m, draws, j))
  {
    var m1 := Put(m, CoinCell(draws, j), CoinTile);
    assert Scattered(key, c, a, m1);
  }

  /** Writing the exit at `(c, 1)` and then the entrance at `(a, 6)` leaves both in place. */
  lemma GatesMarked(s: Tiles, c: nat, a: nat)
    requires IsTileBoard(s) && 1 <= c <= 6 && 1 <= a <= 6
    ensures var r := Put(Put(s, Cell(c, 1), GoalTile), Cell(a, 6), StartTile);
            IsTileBoard(r) && r[1][c] == GoalTile && r[6][a] == StartTile
  {
  }

  /**
   * The placement loop as written. Each round drops treasure, then a grave,
   * on the board the earlier rounds left, and the loop ends only when
   * `(c, 1)` holds neither; it then writes the exit there and the entrance
   * at `(a, 6)`. Nothing is ever taken off the board, so once `(c, 1)` is
   * blocked every later round finds it blocked: the loop ends after its
   * first round or never. `None` stands both for the draws running out and
   * for that endless loop.
   */
  method PlaceMarkersAsWritten(ghost key: string, c: nat, a: nat, m0: Tiles, draws: seq<nat>)
    returns (r: Option<Tiles>, scattered: Tiles)
    requires 1 <= c <= 6 && 1 <= a <= 6
    requires Scattered(key, c, a, m0)
    ensures r.Some? <==> 4 <= |draws| && !Blocked(m0, c) && !RoundHits(draws, 0, c)
    ensures r.Some? ==> 4 <= |draws| && scattered == Round(m0, draws, 0)
    ensures r.Some? ==> Scattered(key, c, a, scattered) && !Blocked(scattered, c)
    ensures r.Some? ==> r.value == Put(Put(scattered, Cell(c, 1), GoalTile), Cell(a, 6), StartTile)
    ensures r.Some? ==> IsTileBoard(r.value) && r.value[1][c] == GoalTile && r.value[6][a] == StartTile
  {
    var m := m0;
    var j := 0;
    while true
      invariant 4 * j <= |draws| && Scattered(key, c, a, m)
      invariant j == 0 ==> m == m0
      invariant j > 0 ==> 4 <= |draws| && Blocked(m, c) && (Blocked(m0, c) || RoundHits(draws, 0, c))
      decreases |draws| - 4 * j
    {
      if |draws| - 4 * j < 4 {
        return None, m;
      }
      RoundBlocks(m, draws, j, c);
      if j == 0 {
        RoundBlocks(m0, draws, 0, c);
      }
      m := Round(m, draws, j);
      j := j + 1;
      if !Blocked(m, c) {
        scattered := m;
        m := Put(m, Cell(c, 1), GoalTile);
        m := Put(m, Cell(a, 6), StartTile);
        return Some(m), scattered;
      }
    }
  }

  /**
   * The placement loop as evidently intended: every round drops treasure
   * and a grave on the board as it was before the loop, so a round that
   * blocks `(c, 1)` is simply drawn again, and the first round that leaves
   * it free is kept. `None` only when the draws run out first. A round
   * leaves the exit cell blocked exactly when it was blocked before the
   * loop or the round lands on it (`RoundBlocks`), so the test is made on
   * the draws and the board is built once, for the round that is kept.
   */
  method PlaceMarkers(ghost key: string, c: nat, a: nat, m0: Tiles, draws: seq<nat>)
    returns (r: Option<Tiles>, scattered: Tiles)
    requires 1 <= c <= 6 && 1 <= a <= 6
    requires Scattered(key, c, a, m0)
    ensures r.Some? <==> !Blocked(m0, c) && exists j: nat :: 4 * j + 4 <= |draws| && !RoundHits(draws, j, c)
    ensures r.Some? ==> exists j: nat :: 4 * j + 4 <= |draws| && scattered == Round(m0, draws, j)
                                    && !RoundHits(draws, j, c)
                                    && forall i :: 0 <= i < j ==> RoundHits(draws, i, c)
    ensures r.Some? ==> Scattered(key, c, a, scattered) && !Blocked(scattered, c)
    ensures r.Some? ==> r.value == Put(Put(scattered, Cell(c, 1), GoalTile), Cell(a, 6), StartTile)
    ensures r.Some? ==> IsTileBoard(r.value) && r.value[1][c] == GoalTile && r.value[6][a] == StartTile
  {
    var j := 0;
    while 4 * j + 4 <= |draws| && (Blocked(m0, c) || RoundHits(draws, j, c))
      invariant 4 * j <= |draws|
      invariant forall i :: 0 <= i < j ==> Blocked(m0, c) || RoundHits(draws, i, c)
      decreases |draws| - 4 * j
    {
      j := j + 1;
    }
    if |draws| < 4 * j + 4 {
      assert forall k: nat :: 4 * k + 4 <= |draws| ==> k < j;
      return None, m0;
    }
    RoundBlocks(m0, draws, j, c);
    RoundScatters(key, c, a, m0, draws, j);
    scattered := Round(m0, draws, j);
    assert !Blocked(m0, c) && !RoundHits(draws, j, c);
    assert forall i :: 0 <= i < j ==> RoundHits(draws, i, c);
    GatesMarked(scattered, c, a);
    r := Some(Put(Put(scattered, Cell(c, 1), GoalTile), Cell(a, 6), StartTile));
  }

  /**
   * A first round whose treasure lands on `(c, 1)`: the loop as written
   * never gets past it, whatever follows, while the corrected loop goes on
   * to the second round, which drops both on `(6, 6)`.
   */
  lemma FirstRoundBlocks(c: nat, rest: seq<nat>)
    requires 1 <= c <= 6
    ensures RoundHits([0, c - 1, 0, 0] + rest, 0, c)
    ensures !RoundHits([0, c - 1, 0, 0, 5, 5, 5, 5], 1, c)
  {
    var ds := [0, c - 1, 0, 0] + rest;
    assert ds[0] == 0 && ds[1] == c - 1;
  }

  /** The entrance and exit written last make a key board. */
  lemma {:induction false} MarkersMakeKeyBoard(key: string, s: Tiles)
    requires |key| >= 2
    requires Scattered(key, GateColumn(key[0]), GateColumn(key[1]), s)
    ensures KeyBoard(key, Put(Put(s, Cell(GateColumn(key[0]), 1), GoalTile), Cell(GateColumn(key[1]), 6), StartTile))
  {
    var c, a := GateColumn(key[0]), GateColumn(key[1]);
    var m := Put(Put(s, Cell(c, 1), GoalTile), Cell(a, 6), StartTile);
    assert ScatteredAt(key, c, a, s, Cell(c, 0));
    assert ScatteredAt(key, c, a, s, Cell(a, 7));
    forall d | OnBoard(d) && d != Cell(c, 1) && d != Cell(a, 6)
      ensures ScatteredAt(key, c, a, m, d)
    {
      assert ScatteredAt(key, c, a, s, d);
    }
  }

  /** A symbol found in exactly one cell is where `generate_map` reports it. */
  lemma {:induction false} SoleMarker(m: Tiles, t: string, p: Cell, q: Cell)
    requires HasBoard(m) && OnBoard(p) && m[p.y][p.x] == t
    requires forall d :: OnBoard(d) && d != p ==> m[d.y][d.x] != t
    requires MarkerAt(m, t, q)
    ensures q == p
  {
    assert Occurs(m, t);
  }

  /** On a key board the entrance and the exit each occur once. */
  lemma {:induction false} KeyBoardMarkers(key: string, m: Tiles, start: Cell, goal: Cell)
    requires |key| >= 2 && KeyBoard(key, m)
    requires MarkerAt(m, StartTile, start) && MarkerAt(m, GoalTile, goal)
    ensures start == Cell(GateColumn(key[1]), 6) && goal == Cell(GateColumn(key[0]), 1)
  {
    var c, a := GateColumn(key[0]), GateColumn(key[1]);
    forall d | OnBoard(d) && d != Cell(a, 6)
      ensures m[d.y][d.x] != StartTile
    {
      if d != Cell(c, 1) {
        assert ScatteredAt(key, c, a, m, d);
      }
    }
    forall d | OnBoard(d) && d != Cell(c, 1)
      ensures m[d.y][d.x] != GoalTile
    {
      if d != Cell(a, 6) {
        assert ScatteredAt(key, c, a, m, d);
      }
    }
    SoleMarker(m, StartTile, Cell(a, 6), start);
    SoleMarker(m, GoalTile, Cell(c, 1), goal);
  }

  /**
   * `gen_map_from_public_key`: the key's layout, gates and markers, read
   * back by `generate_map`. A key of fewer than two characters panics on
   * `expect`. With the corrected placement loop a map comes out exactly
   * when some round of four draws leaves the exit cell free; `Done(None)`
   * when the draws run out first.
   */
  method GenMapFromPublicKey(key: string, draws: seq<nat>) returns (r: Run<Option<KeyMap>>)
    ensures r.Panic? <==> |key| < 2
    ensures |key| >= 2 ==>
              (r.Done? && r.value.Some? <==> exists j: nat :: 4 * j + 4 <= |draws| && !RoundHits(draws, j, GateColumn(key[0])))
    ensures r.Done? && r.value.Some? ==>
              var g := r.value.value;
              && KeyBoard(key, g.tiles)
              && WalkablesOf(g.tiles, g.walkables)
              && g.start == Cell(GateColumn(key[1]), 6)
              && g.goal == Cell(GateColumn(key[0]), 1)
  {
    var m := FillEdges();
    m := PlaceObstacles(key, m);
    if |key| < 2 {
      return Panic;
    }
    var c := GateColumn(key[0]);
    var a := GateColumn(key[1]);
    assert m[1][c] == LayoutTile(key, Cell(c, 1));
    m := Put(m, Cell(c, 0), GateTile);
    m := Put(m, Cell(a, 7), GateTile);
    assert forall d :: OnBoard(d) ==> ScatteredAt(key, c, a, m, d);
    assert !Blocked(m, c);
    var placed, scattered := PlaceMarkers(key, c, a, m, draws);
    if placed.None? {
      return Done(None);
    }
    m := placed.value;
    MarkersMakeKeyBoard(key, scattered);
    var w, start, goal := GenerateMap(m);
    KeyBoardMarkers(key, m, start, goal);
    r := Done(Some(KeyMap(w, start, goal, m)));
  }

  /** Every edge cell of a key board is a tree or one of its two gates. */
  lemma {:induction false} KeyBoardEdges(key: string, m: Tiles, d: Cell)
    requires |key| >= 2 && KeyBoard(key, m) && OnBoard(d) && OnEdge(d)
    ensures !TileWalkable(m[d.y][d.x])
    ensures m[d.y][d.x] == GateTile <==> d == Cell(GateColumn(key[0]), 0) || d == Cell(GateColumn(key[1]), 7)
  {
    assert ScatteredAt(key, GateColumn(key[0]), GateColumn(key[1]), m, d);
  }

  /** Two boards built from the same key agree on every cell the key alone decides. */
  lemma {:induction false} SameKeySameLayout(key: string, m1: Tiles, m2: Tiles, d: Cell)
    requires |key| >= 2 && KeyBoard(key, m1) && KeyBoard(key, m2) && OnBoard(d)
    requires !Inside(d)
    ensures m1[d.y][d.x] == m2[d.y][d.x] == GatedTile(key, GateColumn(key[0]), GateColumn(key[1]), d)
  {
    var c, a := GateColumn(key[0]), GateColumn(key[1]);
    assert ScatteredAt(key, c, a, m1, d) && ScatteredAt(key, c, a, m2, d);
  }

  /**
   * The entrance and exit of a generated map are interior cells, so
   * `successors` never panics on them.
   */
  lemma GeneratedEndsInterior(key: string, g: KeyMap)
    requires |key| >= 2 && KeyBoard(key, g.tiles) && WalkablesOf(g.tiles, g.walkables)
    requires g.start == Cell(GateColumn(key[1]), 6) && g.goal == Cell(GateColumn(key[0]), 1)
    ensures Interior(g.walkables, g.start) && Interior(g.walkables, g.goal)
    ensures Successors(g.walkables, g.start).Done? && Successors(g.walkables, g.goal).Done?
  {
  }

  /**
   * On a generated map every cell the search can reach from the entrance is
   * interior, so `successors` never panics there and `find_path` as written
   * panics exactly for an unreachable goal.
   */
  lemma {:induction false} GeneratedEdgeFree(key: string, g: KeyMap)
    requires |key| >= 2 && KeyBoard(key, g.tiles) && WalkablesOf(g.tiles, g.walkables)
    requires g.start == Cell(GateColumn(key[1]), 6) && g.goal == Cell(GateColumn(key[0]), 1)
    ensures EdgeFree(g.walkables, g.start)
  {
    GeneratedEndsInterior(key, g);
    forall c | Walkable(g.walkables, c)
      ensures Interior(g.walkables, c)
    {
      if OnEdge(c) {
        KeyBoardEdges(key, g.tiles, c);
      }
    }
    ClosedBorderEdgeFree(g.walkables, g.start);
  }

  /* ---------------------------------------------------------------- */
  /* The example key whose layout walls the entrance off                */
  /* ---------------------------------------------------------------- */

  /**
   * Characters 2, 9, 16, 23, 30 and 37 land on row 3 at columns 1 to 6, so
   * row 3 is all trees; both gates fall in column 2.
   */
  const BlockingKey: string := "aa1000000200000030000004000000500000060"

  lemma {:induction false} BlockingKeyRow(x: nat)
    requires 1 <= x <= 6
    ensures KeyObstacle(BlockingKey, Cell(x, 3))
  {
    var i := 2 + 7 * (x - 1);
    assert BlockingKey[i] == ['1', '2', '3', '4', '5', '6'][x - 1];
    assert ObstacleCell(BlockingKey, i) == Cell(x, 3);
  }

  /**
   * A board from `BlockingKey` with no treasure or grave dropped on row 3
   * has no route from its entrance to its exit.
   */
  lemma {:induction false} BlockingKeyWalled(m: Tiles, w: Walkables)
    requires KeyBoard(BlockingKey, m) && WalkablesOf(m, w)
    requires forall x :: 0 <= x < Size ==> m[3][x] != CoinTile && m[3][x] != SkullTile
    ensures !Reachable(w, Cell(2, 6), Cell(2, 1))
  {
    assert GateColumn(BlockingKey[0]) == 2 && GateColumn(BlockingKey[1]) == 2;
    forall x | 0 <= x < |w[3]|
      ensures !w[3][x]
    {
      var d := Cell(x, 3);
      assert OnBoard(d);
      if 1 <= x <= 6 {
        BlockingKeyRow(x);
      }
      assert ScatteredAt(BlockingKey, 2, 2, m, d);
    }
    WallBlocksRoute(w, Cell(2, 6), Cell(2, 1), 3);
  }

  /* ---------------------------------------------------------------- */
  /* always_find_path                                                   */
  /* ---------------------------------------------------------------- */

  /**
   * `always_find_path`: the corrected `find_path` on the all-walkable 8 x 8
   * grid, whose `expect` never fires because any two board cells are
   * connected there.
   */
  method AlwaysFindPath(start: Cell, goal: Cell) returns (pc: PathCost)
    requires OnBoard(start) && OnBoard(goal)
    ensures IsRoute(OpenBoard(), pc.path, start, goal) && pc.cost == Moves(pc.path)
  {
    var open := OpenBoard();
    ghost var p := OpenGridRoute(open, start, goal);
    var r := TryFindPath(open, start, goal, false);
    pc := r.value;
  }

  /**
   * On the all-walkable board the corner `(0, 0)` reaches `(0, 1)`, yet
   * `successors` panics on it: `find_path` as written panics there, where
   * the corrected search returns the route.
   */
  lemma OpenBoardCornerPanics()
    ensures Reachable(OpenBoard(), Cell(0, 0), Cell(0, 1))
    ensures Successors(OpenBoard(), Cell(0, 0)).Panic?
  {
    assert IsRoute(OpenBoard(), [Cell(0, 0), Cell(0, 1)], Cell(0, 0), Cell(0, 1));
  }

  lemma {:induction false} OpenRouteOnBoard(p: seq<Cell>, s: Cell, g: Cell)
    requires IsRoute(OpenBoard(), p, s, g)
    ensures forall k :: 0 <= k < |p| ==> OnBoard(p[k])
  {
    forall k | 0 <= k < |p|
      ensures OnBoard(p[k])
    {
      if k > 0 {
        assert Walkable(OpenBoard(), p[k]);
      }
    }
  }

  /* ---------------------------------------------------------------- */
  /* Carving                                                            */
  /* ---------------------------------------------------------------- */

  /**
   * What paving along `p` does: every cell of `p` becomes walkable, and
   * those that were not are re-tagged as trail; nothing else changes.
   */
  ghost predicate Paved(w0: Walkables, t0: Tiles, p: seq<Cell>, w1: Walkables, t1: Tiles)
    requires IsBoardGrid(w0) && IsTileBoard(t0)
  {
    && IsBoardGrid(w1) && IsTileBoard(t1)
    && forall c :: OnBoard(c) ==>
         && w1[c.y][c.x] == (w0[c.y][c.x] || c in p)
         && t1[c.y][c.x] == if !w0[c.y][c.x] && c in p then TrailTile else t0[c.y][c.x]
  }

  /**
   * Carving only adds walkable cells, and changes a symbol only on a cell
   * that was unwalkable, always to trail.
   */
  ghost predicate Carved(w0: Walkables, t0: Tiles, w1: Walkables, t1: Tiles) {
    && IsBoardGrid(w0) && IsTileBoard(t0) && IsBoardGrid(w1) && IsTileBoard(t1)
    && forall c :: OnBoard(c) ==>
         && (w0[c.y][c.x] ==> w1[c.y][c.x])
         && (t1[c.y][c.x] != t0[c.y][c.x] ==> !w0[c.y][c.x] && t1[c.y][c.x] == TrailTile)
  }

  lemma CarvedReflexive(w: Walkables, t: Tiles)
    requires IsBoardGrid(w) && IsTileBoard(t)
    ensures Carved(w, t, w, t)
  {
  }

  lemma {:induction false} CarvedTransitive(w0: Walkables, t0: Tiles, w1: Walkables, t1: Tiles, w2: Walkables, t2: Tiles)
    requires Carved(w0, t0, w1, t1) && Carved(w1, t1, w2, t2)
    ensures Carved(w0, t0, w2, t2)
  {
    forall c | OnBoard(c)
      ensures t2[c.y][c.x] != t0[c.y][c.x] ==> !w0[c.y][c.x] && t2[c.y][c.x] == TrailTile
    {
    }
  }

  lemma {:induction false} CarvedCovers(w0: Walkables, t0: Tiles, w1: Walkables, t1: Tiles)
    requires Carved(w0, t0, w1, t1)
    ensures Covers(w0, w1)
  {
    forall c | Walkable(w0, c)
      ensures Walkable(w1, c)
    {
      assert OnBoard(c);
    }
  }

  lemma {:induction false} PavedCarved(w0: Walkables, t0: Tiles, p: seq<Cell>, w1: Walkables, t1: Tiles)
    requires IsBoardGrid(w0) && IsTileBoard(t0) && Paved(w0, t0, p, w1, t1)
    ensures Carved(w0, t0, w1, t1)
  {
  }

  lemma {:induction false} PaveStep(w0: Walkables, t0: Tiles, p: seq<Cell>, k: nat, w1: Walkables, t1: Tiles)
    requires IsBoardGrid(w0) && IsTileBoard(t0) && k < |p| && OnBoard(p[k])
    requires Paved(w0, t0, p[..k], w1, t1)
    ensures !w1[p[k].y][p[k].x] ==> Paved(w0, t0, p[..k + 1], MarkWalkable(w1, p[k]), Put(t1, p[k], TrailTile))
    ensures w1[p[k].y][p[k].x] ==> Paved(w0, t0, p[..k + 1], w1, t1)
  {
    assert p[..k + 1] == p[..k] + [p[k]];
  }

  /* ---------------------------------------------------------------- */
  /* Reachability of the markers                                        */
  /* ---------------------------------------------------------------- */

  /** Every cell before the scan point `p` that holds `target` is reachable from `start`. */
  ghost predicate ReachedBefore(w: Walkables, t: Tiles, start: Cell, target: string, p: Cell)
    requires IsTileBoard(t)
  {
    forall c :: OnBoard(c) && Precedes(c, p) && t[c.y][c.x] == target ==> Reachable(w, start, c)
  }

  /** Every cell of the board that holds `target` is reachable from `start`. */
  ghost predicate AllReached(w: Walkables, t: Tiles, start: Cell, target: string)
    requires IsTileBoard(t)
  {
    ReachedBefore(w, t, start, target, Cell(0, Size))
  }

  lemma {:induction false} ReachedStep(w: Walkables, t: Tiles, start: Cell, target: string, q: Cell)
    requires IsTileBoard(t) && OnBoard(q) && ReachedBefore(w, t, start, target, q)
    requires t[q.y][q.x] == target ==> Reachable(w, start, q)
    ensures ReachedBefore(w, t, start, target, Cell(q.x + 1, q.y))
  {
  }

  lemma {:induction false} ReachedRow(w: Walkables, t: Tiles, start: Cell, target: string, y: nat)
    requires IsTileBoard(t) && ReachedBefore(w, t, start, target, Cell(Size, y))
    ensures ReachedBefore(w, t, start, target, Cell(0, y + 1))
  {
    forall c | OnBoard(c) && Precedes(c, Cell(0, y + 1)) && t[c.y][c.x] == target
      ensures Reachable(w, start, c)
    {
      assert Precedes(c, Cell(Size, y));
    }
  }

  /** Carving keeps every reached marker reached, as long as the marker is not trail. */
  lemma {:induction false} ReachedCarried(w1: Walkables, t1: Tiles, w2: Walkables, t2: Tiles, start: Cell, target: string, p: Cell)
    requires Carved(w1, t1, w2, t2) && target != TrailTile
    requires ReachedBefore(w1, t1, start, target, p)
    ensures ReachedBefore(w2, t2, start, target, p)
  {
    CarvedCovers(w1, t1, w2, t2);
    forall c | OnBoard(c) && Precedes(c, p) && t2[c.y][c.x] == target
      ensures Reachable(w2, start, c)
    {
      assert t1[c.y][c.x] == target;
      ReachableMonotone(w1, w2, start, c);
    }
  }

  /** A cell that is a target and unreachable after carving already was before it. */
  lemma {:induction false} UnreachedBefore(w0: Walkables, t0: Tiles, w1: Walkables, t1: Tiles, start: Cell, target: string, q: Cell)
    requires Carved(w0, t0, w1, t1) && target != TrailTile && OnBoard(q)
    requires t1[q.y][q.x] == target && !Reachable(w1, start, q)
    ensures !AllReached(w0, t0, start, target)
  {
    CarvedCovers(w0, t0, w1, t1);
    assert t0[q.y][q.x] == target;
    if Reachable(w0, start, q) {
      ReachableMonotone(w0, w1, start, q);
    }
    assert Precedes(q, Cell(0, Size));
  }

  /** A walk of the all-walkable board whose cells were all paved is a walk of the paved grid. */
  lemma {:induction false} PavedRoute(w0: Walkables, t0: Tiles, p: seq<Cell>, s: Cell, g: Cell, w1: Walkables, t1: Tiles)
    requires IsBoardGrid(w0) && IsTileBoard(t0)
    requires IsRoute(OpenBoard(), p, s, g) && Paved(w0, t0, p, w1, t1)
    ensures IsRoute(w1, p, s, g)
  {
    OpenRouteOnBoard(p, s, g);
    forall k | 0 < k < |p|
      ensures Walkable(w1, p[k]) && Adjacent(p[k - 1], p[k])
    {
      assert p[k] in p && OnBoard(p[k]);
    }
  }

  /**
   * After paving the reference path from main-route node `node` to `q`,
   * `q` is reachable from the start: along the main route to the node,
   * then along the paved path.
   */
  lemma {:induction false} PavedReach(w0: Walkables, t0: Tiles, main: seq<Cell>, node: nat, p: seq<Cell>,
                                      w1: Walkables, t1: Tiles, q: Cell)
    requires IsBoardGrid(w0) && IsTileBoard(t0) && IsWalk(w0, main) && node < |main|
    requires IsRoute(OpenBoard(), p, main[node], q) && Paved(w0, t0, p, w1, t1)
    ensures Carved(w0, t0, w1, t1) && IsWalk(w1, main)
    ensures Reachable(w1, main[0], q)
  {
    PavedCarved(w0, t0, p, w1, t1);
    CarvedCovers(w0, t0, w1, t1);
    RouteMonotone(w0, w1, main, main[0], main[|main| - 1]);
    RoutePrefix(w1, main, node);
    PavedRoute(w0, t0, p, main[node], q, w1, t1);
    RouteConcat(w1, main[..node + 1], p, main[0], main[node], q);
  }

  lemma {:induction false} WalkOnBoard(w: Walkables, p: seq<Cell>, k: nat)
    requires IsBoardGrid(w) && IsWalk(w, p) && k < |p|
    ensures OnBoard(p[k])
  {
    if k > 0 {
      assert Walkable(w, p[k]);
    }
  }

  /* ---------------------------------------------------------------- */
  /* refine_walkable_map and check_and_pave_path, corrected             */
  /* ---------------------------------------------------------------- */

  /**
   * The `walkables` grid and the symbol `map` that the repair functions
   * take by `&mut` and carve in place.
   */
  class Board {
    var walkables: Walkables
    var tiles: Tiles

    ghost predicate Valid()
      reads this
    {
      IsBoardGrid(walkables) && IsTileBoard(tiles)
    }

    constructor (w: Walkables, t: Tiles)
      requires IsBoardGrid(w) && IsTileBoard(t)
      ensures Valid() && walkables == w && tiles == t
    {
      walkables := w;
      tiles := t;
    }

    /** The paving loop: `if !walkables[py][px] { walkables[py][px] = true; map[py][px] = "➖" }`. */
    method Pave(path: seq<Cell>)
      requires Valid() && forall k :: 0 <= k < |path| ==> OnBoard(path[k])
      modifies this
      ensures Valid() && Paved(old(walkables), old(tiles), path, walkables, tiles)
    {
      for k := 0 to |path|
        invariant Valid() && Paved(old(walkables), old(tiles), path[..k], walkables, tiles)
      {
        PaveStep(old(walkables), old(tiles), path, k, walkables, tiles);
        var c := path[k];
        if !walkables[c.y][c.x] {
          walkables := MarkWalkable(walkables, c);
          tiles := Put(tiles, c, TrailTile);
        }
      }
      assert path[..|path|] == path;
    }

    /**
     * The main route of `refine_walkable_map`: the route `find_path`
     * finds, or else the all-walkable reference path, paved.
     */
    method MainRoute(start: Cell, goal: Cell) returns (main: seq<Cell>)
      requires Valid() && OnBoard(start) && OnBoard(goal)
      modifies this
      ensures Valid() && Carved(old(walkables), old(tiles), walkables, tiles)
      ensures IsRoute(walkables, main, start, goal)
      ensures old(Reachable(walkables, start, goal)) ==> walkables == old(walkables) && tiles == old(tiles)
      ensures !old(Reachable(walkables, start, goal)) ==>
                IsRoute(OpenBoard(), main, start, goal) && Paved(old(walkables), old(tiles), main, walkables, tiles)
    {
      var found := TryFindPath(walkables, start, goal, false);
      if found.Some? {
        CarvedReflexive(walkables, tiles);
        return found.value.path;
      }
      var pc := AlwaysFindPath(start, goal);
      OpenRouteOnBoard(pc.path, start, goal);
      ghost var w0, t0 := walkables, tiles;
      Pave(pc.path);
      main := pc.path;
      PavedCarved(w0, t0, main, walkables, tiles);
      PavedRoute(w0, t0, main, start, goal, walkables, tiles);
    }

    /**
     * One cell of the `check_and_pave_path` scan. A `target` cell the
     * start cannot reach gets the reference path from a random main-route
     * node (index drawn from `1 .. len - 1`) paved to it; the draw panics
     * when the main route has fewer than 3 cells.
     */
    method CheckCell(start: Cell, main: seq<Cell>, target: string, q: Cell, rng: nat -> nat, k: nat)
      returns (r: Run<nat>)
      requires Valid() && OnBoard(q) && IsWalk(walkables, main) && main[0] == start
      modifies this
      ensures Valid() && Carved(old(walkables), old(tiles), walkables, tiles) && IsWalk(walkables, main)
      ensures r.Done? && tiles[q.y][q.x] == target ==> Reachable(walkables, start, q)
      ensures old(tiles[q.y][q.x]) != target || old(Reachable(walkables, start, q)) ==>
                r == Done(k) && walkables == old(walkables) && tiles == old(tiles)
      ensures r.Panic? ==> |main| < 3 && old(tiles[q.y][q.x]) == target && !old(Reachable(walkables, start, q))
    {
      CarvedReflexive(walkables, tiles);
      if tiles[q.y][q.x] != target {
        return Done(k);
      }
      WalkOnBoard(walkables, main, 0);
      var found := TryFindPath(walkables, start, q, false);
      if found.Some? {
        return Done(k);
      }
      if |main| < 3 {
        return Panic;
      }
      var node := Pick(rng(k), 1, |main| - 2);
      WalkOnBoard(walkables, main, node);
      var pc := AlwaysFindPath(main[node], q);
      OpenRouteOnBoard(pc.path, main[node], q);
      ghost var w0, t0 := walkables, tiles;
      Pave(pc.path);
      PavedReach(w0, t0, main, node, pc.path, walkables, tiles, q);
      r := Done(k + 1);
    }

    /**
     * `check_and_pave_path`: scans the board in row-major order and makes
     * every `target` cell reachable from the start, carving only. It
     * changes nothing when every target cell is already reachable, and it
     * panics only on an unreachable target with a main route of fewer
     * than 3 cells. Returns the next position in the draw stream.
     */
    method CheckAndPavePath(start: Cell, main: seq<Cell>, target: string, rng: nat -> nat, k0: nat)
      returns (r: Run<nat>)
      requires Valid() && IsWalk(walkables, main) && main[0] == start && target != TrailTile
      modifies this
      ensures Valid() && Carved(old(walkables), old(tiles), walkables, tiles) && IsWalk(walkables, main)
      ensures r.Done? ==> AllReached(walkables, tiles, start, target)
      ensures old(AllReached(walkables, tiles, start, target)) ==>
                r == Done(k0) && walkables == old(walkables) && tiles == old(tiles)
      ensures r.Panic? ==> |main| < 3 && !old(AllReached(walkables, tiles, start, target))
    {
      ghost var w0, t0 := walkables, tiles;
      ghost var all := AllReached(w0, t0, start, target);
      CarvedReflexive(w0, t0);
      var k := k0;
      for y := 0 to Size
        invariant Valid() && Carved(w0, t0, walkables, tiles) && IsWalk(walkables, main)
        invariant ReachedBefore(walkables, tiles, start, target, Cell(0, y))
        invariant all ==> k == k0 && walkables == w0 && tiles == t0
      {
        for x := 0 to Size
          invariant Valid() && Carved(w0, t0, walkables, tiles) && IsWalk(walkables, main)
          invariant ReachedBefore(walkables, tiles, start, target, Cell(x, y))
          invariant all ==> k == k0 && walkables == w0 && tiles == t0
        {
          ghost var w1, t1 := walkables, tiles;
          var s := CheckCell(start, main, target, Cell(x, y), rng, k);
          if s.Panic? {
            UnreachedBefore(w0, t0, w1, t1, start, target, Cell(x, y));
            return Panic;
          }
          k := s.value;
          CarvedTransitive(w0, t0, w1, t1, walkables, tiles);
          ReachedCarried(w1, t1, walkables, tiles, start, target, Cell(x, y));
          ReachedStep(walkables, tiles, start, target, Cell(x, y));
        }
        ReachedRow(walkables, tiles, start, target, y);
      }
      r := Done(k);
    }

    /**
     * `refine_walkable_map` with the repair branches reachable: afterwards
     * the exit and every treasure and grave are reachable from the
     * entrance, carving only; a board already connected is left alone.
     * Returns the clones of the two grids.
     */
    method RefineWalkableMap(start: Cell, goal: Cell, rng: nat -> nat)
      returns (r: Run<(Walkables, Tiles)>, main: seq<Cell>)
      requires Valid() && OnBoard(start) && OnBoard(goal)
      modifies this
      ensures Valid() && Carved(old(walkables), old(tiles), walkables, tiles)
      ensures IsRoute(walkables, main, start, goal)
      ensures r.Done? ==> r.value == (walkables, tiles)
      ensures r.Done? ==> && Reachable(walkables, start, goal)
                          && AllReached(walkables, tiles, start, CoinTile)
                          && AllReached(walkables, tiles, start, SkullTile)
      ensures old(Reachable(walkables, start, goal)
                  && AllReached(walkables, tiles, start, CoinTile)
                  && AllReached(walkables, tiles, start, SkullTile)) ==>
                r.Done? && walkables == old(walkables) && tiles == old(tiles)
      ensures r.Panic? ==> |main| < 3 && !old(AllReached(walkables, tiles, start, CoinTile)
                                             && AllReached(walkables, tiles, start, SkullTile))
    {
      ghost var w0, t0 := walkables, tiles;
      main := MainRoute(start, goal);
      ghost var w1, t1 := walkables, tiles;
      var coins := CheckAndPavePath(start, main, CoinTile, rng, 0);
      CarvedTransitive(w0, t0, w1, t1, walkables, tiles);
      if coins.Panic? {
        if AllReached(w0, t0, start, CoinTile) {
          ReachedCarried(w0, t0, w1, t1, start, CoinTile, Cell(0, Size));
        }
        return Panic, main;
      }
      ghost var w2, t2 := walkables, tiles;
      var skulls := CheckAndPavePath(start, main, SkullTile, rng, coins.value);
      CarvedTransitive(w0, t0, w2, t2, walkables, tiles);
      CarvedTransitive(w1, t1, w2, t2, walkables, tiles);
      if skulls.Panic? {
        if AllReached(w0, t0, start, SkullTile) {
          CarvedTransitive(w0, t0, w1, t1, w2, t2);
          ReachedCarried(w0, t0, w2, t2, start, SkullTile, Cell(0, Size));
        }
        return Panic, main;
      }
      ReachedCarried(w2, t2, walkables, tiles, start, CoinTile, Cell(0, Size));
      assert IsRoute(walkables, main, start, goal);
      r := Done((walkables, tiles));
    }
  }

  /* ---------------------------------------------------------------- */
  /* refine_walkable_map and check_and_pave_path, as written            */
  /* ---------------------------------------------------------------- */

  /**
   * `check_and_pave_path` as written: `find_path` panics instead of
   * returning `Err`, so the paving branch is never taken. The scan either
   * panics, on the first unreachable target or where A* expands an edge
   * cell, or changes nothing, which is why it takes the grids by value
   * here. From an edge-free entrance only unreachable targets panic.
   */
  method CheckAndPavePathAsWritten(w: Walkables, t: Tiles, start: Cell, target: string) returns (r: Run<()>)
    requires IsBoardGrid(w) && IsTileBoard(t) && OnBoard(start)
    ensures !AllReached(w, t, start, target) ==> r.Panic?
    ensures EdgeFree(w, start) ==> (r.Panic? <==> !AllReached(w, t, start, target))
  {
    for y := 0 to Size
      invariant ReachedBefore(w, t, start, target, Cell(0, y))
    {
      for x := 0 to Size
        invariant ReachedBefore(w, t, start, target, Cell(x, y))
      {
        if t[y][x] == target {
          var found := FindPath(w, start, Cell(x, y), false);
          if found.Panic? {
            assert Precedes(Cell(x, y), Cell(0, Size));
            return Panic;
          }
        }
        ReachedStep(w, t, start, target, Cell(x, y));
      }
      ReachedRow(w, t, start, target, y);
    }
    r := Done(());
  }

  /**
   * `refine_walkable_map` as written: it panics unless the exit and every
   * treasure and grave are already reachable, and otherwise returns the
   * grids unchanged; from an entrance that is not edge-free it may also
   * panic on a reachable layout.
   */
  method RefineWalkableMapAsWritten(w: Walkables, t: Tiles, start: Cell, goal: Cell)
    returns (r: Run<(Walkables, Tiles)>)
    requires IsBoardGrid(w) && IsTileBoard(t) && OnBoard(start)
    ensures !(Reachable(w, start, goal) && AllReached(w, t, start, CoinTile) && AllReached(w, t, start, SkullTile))
            ==> r.Panic?
    ensures EdgeFree(w, start) ==>
              (r.Panic? <==> !(Reachable(w, start, goal)
                               && AllReached(w, t, start, CoinTile)
                               && AllReached(w, t, start, SkullTile)))
    ensures r.Done? ==> r.value == (w, t)
  {
    var main := FindPath(w, start, goal, false);
    if main.Panic? {
      return Panic;
    }
    var coins := CheckAndPavePathAsWritten(w, t, start, CoinTile);
    if coins.Panic? {
      return Panic;
    }
    var skulls := CheckAndPavePathAsWritten(w, t, start, SkullTile);
    if skulls.Panic? {
      return Panic;
    }
    r := Done((w, t));
  }
}
