// MediocrePlayer (Player.cpp:169-350): deterministic backtracking placement on
// a randomly blocked board, and a two-state attack strategy that searches at
// random and then concentrates on a cross of half-width 4 around a hit.

module Mediocre {
  import opened Game
  import opened Board

  /** The lower end of the window around x (Player.cpp:253-254, 259-260). */
  function Least(x: int): int
  {
    if x - 4 < 0 then 0 else x - 4
  }

  /** The upper end of the window around x, clamped to n rather than n-1 (Player.cpp:255-257, 261-263). */
  function Greatest(x: int, n: int): int
  {
    if x + 4 > n then n else x + 4
  }

  /** The last index the exhaustion scan reads (Player.cpp:267-269, 277-279). */
  function ScanMax(x: int, n: int): int
  {
    var g := Greatest(x, n);
    if g == n then g - 1 else g
  }

  /** q lies on the cross of half-width 4 centred on `centre`. */
  predicate InCross(q: Point, centre: Point)
  {
    (q.c == centre.c && centre.r - 4 <= q.r <= centre.r + 4) ||
    (q.r == centre.r && centre.c - 4 <= q.c <= centre.c + 4)
  }

  class MediocrePlayer {
    const cat: Catalog
    const cellsAttacked: array2<char>
    var lastAttacked: Point
    var state: int

    predicate InGrid(q: Point)
    {
      0 <= q.r < cellsAttacked.Length0 && 0 <= q.c < cellsAttacked.Length1
    }

    /** The player's invariant: it is searching (1) or targeting a hit on the grid (2). */
    ghost predicate Valid()
      reads this
    {
      && cellsAttacked.Length0 == cat.rows && cellsAttacked.Length1 == cat.cols
      && (state == 1 || state == 2)
      && (state == 2 ==> InGrid(lastAttacked))
    }

    /** Some cell of the cross around `centre` is on the grid and not yet attacked. */
    ghost predicate CrossOpen(centre: Point)
      reads cellsAttacked
    {
      exists i, j :: 0 <= i < cellsAttacked.Length0 && 0 <= j < cellsAttacked.Length1 &&
        InCross(Point(i, j), centre) && cellsAttacked[i, j] == '.'
    }

    /** MediocrePlayer::MediocrePlayer (Player.cpp:187-194). */
    constructor (g: Catalog)
      requires g.rows >= 0 && g.cols >= 0
      ensures Valid() && cat == g && fresh(cellsAttacked)
      ensures state == 1 && lastAttacked == Point(-1, -1)
      ensures forall i, j :: 0 <= i < cellsAttacked.Length0 && 0 <= j < cellsAttacked.Length1 ==>
        cellsAttacked[i, j] == '.'
    {
      cat := g;
      cellsAttacked := new char[g.rows, g.cols];
      lastAttacked := Point(-1, -1);
      state := 1;
      new;
      FillCells(cellsAttacked, '.');
    }

    /**
     * MediocrePlayer::placeRec (Player.cpp:196-224): try ship k at (r, c)
     * horizontally, then vertically, then move down the column, and at the
     * bottom move to the top of the next column.
     */
    method PlaceRec(b: BoardImpl, r: int, c: int, k: int) returns (ok: bool)
      requires b.Valid() && b.cat == cat
      requires 0 <= k <= cat.nShips && 0 <= r <= cat.rows && 0 <= c <= cat.cols
      modifies b, b.grid
      decreases cat.nShips - k, cat.cols - c, cat.rows - r, 2
      ensures b.Valid() && b.shipsLeft == old(b.shipsLeft) && b.kills == old(b.kills)
      ensures ok ==> PlacedFrom(b.ships, old(b.ships), cat.nShips, k) && b.Painted(cat.nShips - k)
      ensures forall i, j :: 0 <= i < b.grid.Length0 && 0 <= j < b.grid.Length1 && old(b.grid[i, j]) != '.' ==>
        b.grid[i, j] == old(b.grid[i, j])
      ensures !ok ==> b.ships == old(b.ships)
      ensures !ok ==> forall i, j :: 0 <= i < b.grid.Length0 && 0 <= j < b.grid.Length1 ==>
        b.grid[i, j] == old(b.grid[i, j])
    {
      if k == cat.nShips {
        return true;
      }
      if r == cat.rows && c == cat.cols {
        return false;
      }
      ok := TryPlace(b, Point(r, c), k, Horizontal);
      if ok {
        return;
      }
      ok := TryPlace(b, Point(r, c), k, Vertical);
      if ok {
        return;
      }
      if r < cat.rows {
        ok := PlaceRec(b, r + 1, c, k);
        return;
      }
      ok := PlaceRec(b, 0, c + 1, k);
    }

    /**
     * One direction of placeRec (Player.cpp:205-215): place ship k, recurse on
     * the next ship from (0, 0), and unplace ship k again if that fails.
     */
    method TryPlace(b: BoardImpl, origin: Point, k: int, dir: Direction) returns (ok: bool)
      requires b.Valid() && b.cat == cat
      requires 0 <= k < cat.nShips && 0 <= origin.r <= cat.rows && 0 <= origin.c <= cat.cols
      modifies b, b.grid
      decreases cat.nShips - k, cat.cols - origin.c, cat.rows - origin.r, 1
      ensures b.Valid() && b.shipsLeft == old(b.shipsLeft) && b.kills == old(b.kills)
      ensures ok ==> PlacedFrom(b.ships, old(b.ships), cat.nShips, k) && b.Painted(cat.nShips - k)
      ensures forall i, j :: 0 <= i < b.grid.Length0 && 0 <= j < b.grid.Length1 && old(b.grid[i, j]) != '.' ==>
        b.grid[i, j] == old(b.grid[i, j])
      ensures !ok ==> b.ships == old(b.ships)
      ensures !ok ==> forall i, j :: 0 <= i < b.grid.Length0 && 0 <= j < b.grid.Length1 ==>
        b.grid[i, j] == old(b.grid[i, j])
    {
      ghost var length := cat.ShipLength(k);
      if b.CanPlace(origin, k, dir) {
        b.EmptyFootprintCells(origin, length, dir);
      }
      var placed := b.PlaceShip(origin, k, dir);
      if !placed {
        return false;
      }
      ok := RecurseOrUndo(b, origin, k, dir);
      if !ok {
        forall i, j | 0 <= i < b.grid.Length0 && 0 <= j < b.grid.Length1
          ensures b.grid[i, j] == old(b.grid[i, j])
        {
          if OnFootprint(Point(i, j), origin, length, dir) {
            assert b.grid[i, j] == '.';
          }
        }
      }
    }

    /** The rest of that step, once ship k has been placed at `origin`. */
    method RecurseOrUndo(b: BoardImpl, origin: Point, k: int, dir: Direction) returns (ok: bool)
      requires b.Valid() && b.cat == cat
      requires 0 <= k < cat.nShips && 0 <= origin.r <= cat.rows && 0 <= origin.c <= cat.cols
      requires |b.ships| > 0 && b.ships[0] == b.NewRecord(origin, k, dir) && b.Painted(1)
      modifies b, b.grid
      decreases cat.nShips - k, cat.cols - origin.c, cat.rows - origin.r, 0
      ensures b.Valid() && b.shipsLeft == old(b.shipsLeft) && b.kills == old(b.kills)
      ensures ok ==> PlacedFrom(b.ships, old(b.ships[1..]), cat.nShips, k) && b.Painted(cat.nShips - k)
      ensures ok ==> forall i, j :: 0 <= i < b.grid.Length0 && 0 <= j < b.grid.Length1 && old(b.grid[i, j]) != '.' ==>
        b.grid[i, j] == old(b.grid[i, j])
      ensures !ok ==> b.ships == old(b.ships[1..])
      ensures !ok ==> forall i, j :: 0 <= i < b.grid.Length0 && 0 <= j < b.grid.Length1 ==>
        b.grid[i, j] == if OnFootprint(Point(i, j), origin, cat.ShipLength(k), dir) then '.' else old(b.grid[i, j])
    {
      ghost var mid := b.ships;
      ok := PlaceRec(b, 0, 0, k + 1);
      if ok {
        assert b.ships[cat.nShips - (k + 1)..] == mid;
        assert b.ships[cat.nShips - k..] == mid[1..];
        assert !Reserved(mid[0].symbol) by {
          assert b.RecordOk(mid[0]);
        }
        assert b.ships[cat.nShips - k - 1] == mid[0];
        forall i, j | 0 <= i < b.grid.Length0 && 0 <= j < b.grid.Length1 && b.Covers(mid[0], Point(i, j))
          ensures b.grid[i, j] == mid[0].symbol
        {
        }
        b.PaintedNext(cat.nShips - k - 1);
        return;
      }
      b.UnplaceHead(origin, k, dir);
    }

    /**
     * MediocrePlayer::placeShips (Player.cpp:226-236) with the coin flips of
     * attempt i supplied as coin(i, r, c): at most 50 attempts, each blocking
     * cells, searching, and unblocking on success or clearing on failure.
     */
    method PlaceShips(b: BoardImpl, coin: (int, int, int) -> bool) returns (ok: bool)
      requires b.Valid() && b.cat == cat
      modifies b, b.grid
      ensures b.Valid() && b.shipsLeft == old(b.shipsLeft)
      ensures ok ==> PlacedFrom(b.ships, old(b.ships), cat.nShips, 0) && b.Painted(cat.nShips)
      ensures ok ==> forall i, j :: 0 <= i < b.grid.Length0 && 0 <= j < b.grid.Length1 ==> b.grid[i, j] != 'X'
      ensures !ok ==> b.ships == old(b.ships)
      ensures !ok ==> forall i, j :: 0 <= i < b.grid.Length0 && 0 <= j < b.grid.Length1 ==> b.grid[i, j] == '.'
    {
      var i := 0;
      while i < 50
        invariant 0 <= i <= 50
        invariant b.Valid() && b.cat == cat && b.shipsLeft == old(b.shipsLeft) && b.ships == old(b.ships)
        invariant i > 0 ==> forall x, y :: 0 <= x < b.grid.Length0 && 0 <= y < b.grid.Length1 ==> b.grid[x, y] == '.'
      {
        b.Block((r, c) => coin(i, r, c));
        ok := PlaceRec(b, 0, 0, 0);
        if ok {
          b.Unblock();
          return;
        }
        b.Clear();
        i := i + 1;
      }
      ok := false;
    }

    /** The exhaustion scan of column c over rows lo..hi (Player.cpp:271-275). */
    method OpenInColumn(c: int, lo: int, hi: int) returns (found: bool)
      requires 0 <= c < cellsAttacked.Length1 && 0 <= lo && hi < cellsAttacked.Length0
      ensures found <==> exists i :: lo <= i <= hi && cellsAttacked[i, c] == '.'
    {
      var i := lo;
      while i <= hi
        invariant i == lo || lo <= i <= hi + 1
        invariant forall x :: lo <= x < i ==> cellsAttacked[x, c] != '.'
      {
        if cellsAttacked[i, c] == '.' {
          return true;
        }
        i := i + 1;
      }
      return false;
    }

    /** The exhaustion scan of row r over columns lo..hi (Player.cpp:280-285). */
    method OpenInRow(r: int, lo: int, hi: int) returns (found: bool)
      requires 0 <= r < cellsAttacked.Length0 && 0 <= lo && hi < cellsAttacked.Length1
      ensures found <==> exists j :: lo <= j <= hi && cellsAttacked[r, j] == '.'
    {
      var j := lo;
      while j <= hi
        invariant j == lo || lo <= j <= hi + 1
        invariant forall y :: lo <= y < j ==> cellsAttacked[r, y] != '.'
      {
        if cellsAttacked[r, j] == '.' {
          return true;
        }
        j := j + 1;
      }
      return false;
    }

    /** The clamped scan ranges cover exactly the part of the cross that lies on the grid. */
    lemma ScanIsCross(centre: Point)
      requires InGrid(centre)
      ensures CrossOpen(centre) <==>
        (exists i :: Least(centre.r) <= i <= ScanMax(centre.r, cellsAttacked.Length0) && cellsAttacked[i, centre.c] == '.') ||
        (exists j :: Least(centre.c) <= j <= ScanMax(centre.c, cellsAttacked.Length1) && cellsAttacked[centre.r, j] == '.')
    {
      if CrossOpen(centre) {
        var i, j :| 0 <= i < cellsAttacked.Length0 && 0 <= j < cellsAttacked.Length1 &&
          InCross(Point(i, j), centre) && cellsAttacked[i, j] == '.';
        if j == centre.c && centre.r - 4 <= i <= centre.r + 4 {
          assert Least(centre.r) <= i <= ScanMax(centre.r, cellsAttacked.Length0);
        } else {
          assert Least(centre.c) <= j <= ScanMax(centre.c, cellsAttacked.Length1);
        }
      }
    }

    /**
     * MediocrePlayer::recommendAttack (Player.cpp:242-325). In state 2 it
     * drops back to state 1 exactly when the cross around the last hit is
     * exhausted; the shot is an unattacked cell, of the cross while in state 2,
     * and it is marked '*'. The random retry loops become a choice among the
     * cells they can end on.
     */
    method RecommendAttack() returns (p: Point)
      requires Valid()
      requires exists i, j :: 0 <= i < cellsAttacked.Length0 && 0 <= j < cellsAttacked.Length1 && cellsAttacked[i, j] == '.'
      modifies this, cellsAttacked
      ensures Valid() && lastAttacked == old(lastAttacked)
      ensures InGrid(p) && old(cellsAttacked[p.r, p.c]) == '.' && cellsAttacked[p.r, p.c] == '*'
      ensures forall i, j :: 0 <= i < cellsAttacked.Length0 && 0 <= j < cellsAttacked.Length1 && Point(i, j) != p ==>
        cellsAttacked[i, j] == old(cellsAttacked[i, j])
      ensures old(state) == 2 ==> (state == 2 <==> old(CrossOpen(lastAttacked)))
      ensures old(state) == 1 ==> state == 1
      ensures state == 2 ==> InCross(p, lastAttacked)
    {
      var rows, cols := cat.rows, cat.cols;
      if state == 2 {
        var open := CrossStillOpen();
        if open {
          var i, j :| 0 <= i < rows && 0 <= j < cols && InCross(Point(i, j), lastAttacked) && cellsAttacked[i, j] == '.';
          cellsAttacked[i, j] := '*';
          return Point(i, j);
        }
        state := 1;
      }
      var i, j :| 0 <= i < rows && 0 <= j < cols && cellsAttacked[i, j] == '.';
      cellsAttacked[i, j] := '*';
      p := Point(i, j);
    }

    /**
     * The exhaustion scans of recommendAttack (Player.cpp:248-285): down the
     * column of the last hit, then along its row, each over the clamped window.
     */
    method CrossStillOpen() returns (open: bool)
      requires Valid() && state == 2
      ensures open <==> CrossOpen(lastAttacked)
    {
      var rows, cols := cat.rows, cat.cols;
      var r, c := lastAttacked.r, lastAttacked.c;
      var leastr := r - 4;
      if leastr < 0 {
        leastr := 0;
      }
      var greatr := r + 4;
      if greatr > rows {
        greatr := rows;
      }
      var leastc := c - 4;
      if leastc < 0 {
        leastc := 0;
      }
      var greatc := c + 4;
      if greatc > cols {
        greatc := cols;
      }
      var max := greatr;
      if max == rows {
        max := max - 1;
      }
      open := OpenInColumn(c, leastr, max);
      max := greatc;
      if max == cols {
        max := max - 1;
      }
      if !open {
        open := OpenInRow(r, leastc, max);
      }
      ScanIsCross(lastAttacked);
    }

    /** MediocrePlayer::recordAttackResult (Player.cpp:327-350). */
    method RecordAttackResult(p: Point, validShot: bool, shotHit: bool, shipDestroyed: bool, shipId: int)
      requires Valid() && (validShot ==> InGrid(p))
      modifies this
      ensures Valid()
      ensures !validShot || !shotHit ==> state == old(state) && lastAttacked == old(lastAttacked)
      ensures validShot && shotHit && shipDestroyed ==> state == 1 && lastAttacked == Point(-1, -1)
      ensures validShot && shotHit && !shipDestroyed && old(state) == 1 ==> state == 2 && lastAttacked == p
      ensures validShot && shotHit && !shipDestroyed && old(state) == 2 ==>
        state == 2 && lastAttacked == old(lastAttacked)
    {
      if !validShot {
        return;
      }
      if !shotHit {
        return;
      }
      if shipDestroyed {
        state := 1;
        lastAttacked := Point(-1, -1);
        return;
      }
      if state == 1 {
        state := 2;
        lastAttacked := p;
      }
    }
  }
}
