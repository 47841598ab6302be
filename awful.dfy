// AwfulPlayer (Player.cpp:15-63): places every ship in the left column, one
// per row, and attacks the cells one by one backwards in row-major order.

module Awful {
  import opened Game
  import opened Board

  /** The row-major position of cell p on a grid with `cols` columns. */
  function Index(p: Point, cols: int): int
  {
    p.r * cols + p.c
  }

  predicate InBounds(p: Point, rows: int, cols: int)
  {
    0 <= p.r < rows && 0 <= p.c < cols
  }

  /** In-grid cells have distinct row-major positions, all in 0 .. rows*cols-1. */
  lemma IndexInjective(p: Point, q: Point, rows: int, cols: int)
    requires InBounds(p, rows, cols) && InBounds(q, rows, cols)
    ensures 0 <= Index(p, cols) < rows * cols
    ensures Index(p, cols) == Index(q, cols) ==> p == q
  {
    IndexBounds(p, rows, cols);
    if p.r < q.r {
      RowsApart(p.r, q.r, cols);
    } else if q.r < p.r {
      RowsApart(q.r, p.r, cols);
    }
  }

  lemma IndexBounds(p: Point, rows: int, cols: int)
    requires InBounds(p, rows, cols)
    ensures 0 <= Index(p, cols) < rows * cols
  {
    assert p.r * cols <= (rows - 1) * cols by {
      MulLeq(p.r, rows - 1, cols);
    }
    assert (rows - 1) * cols + cols == rows * cols;
  }

  lemma MulLeq(a: int, b: int, n: int)
    requires a <= b && n >= 0
    ensures a * n <= b * n
  {
    assert b * n - a * n == (b - a) * n;
  }

  lemma RowsApart(a: int, b: int, cols: int)
    requires a < b && cols > 0
    ensures a * cols + cols <= b * cols
  {
    MulLeq(a + 1, b, cols);
  }

  /** Every position 0 .. rows*cols-1 is the position of an in-grid cell. */
  lemma CellOfIndex(n: int, rows: int, cols: int)
    requires cols > 0 && 0 <= n < rows * cols
    ensures InBounds(Point(n / cols, n % cols), rows, cols)
    ensures Index(Point(n / cols, n % cols), cols) == n
  {
    var r := n / cols;
    if r >= rows {
      MulLeq(rows, r, cols);
    }
  }

  /** One step back on the cycle 0 .. n-1. */
  lemma PrevMod(x: int, n: int)
    requires 0 <= x < n
    ensures (x - 1) % n == if x == 0 then n - 1 else x - 1
  {
  }

  /** Stepping back within a row is one position back on the cycle. */
  lemma BackInRow(p: Point, rows: int, cols: int)
    requires InBounds(p, rows, cols) && p.c > 0
    ensures Index(p.(c := p.c - 1), cols) == (Index(p, cols) - 1) % (rows * cols)
  {
    IndexBounds(p, rows, cols);
    MulLeq(0, p.r, cols);
    PrevMod(Index(p, cols), rows * cols);
  }

  /** Stepping back from the start of a row to the end of the previous one. */
  lemma BackRow(p: Point, rows: int, cols: int)
    requires InBounds(p, rows, cols) && p.c == 0 && p.r > 0
    ensures Index(Point(p.r - 1, cols - 1), cols) == (Index(p, cols) - 1) % (rows * cols)
  {
    IndexBounds(p, rows, cols);
    assert (p.r - 1) * cols + cols == p.r * cols;
    MulLeq(1, p.r, cols);
    PrevMod(Index(p, cols), rows * cols);
  }

  /** Stepping back from (0, 0) wraps to the last cell. */
  lemma BackWrap(rows: int, cols: int)
    requires rows >= 1 && cols >= 1
    ensures Index(Point(rows - 1, cols - 1), cols) == (Index(Point(0, 0), cols) - 1) % (rows * cols)
  {
    assert (rows - 1) * cols + cols == rows * cols;
    MulLeq(1, rows, cols);
    PrevMod(0, rows * cols);
  }

  /** Ships k-1 .. 0 head the list, ship t horizontally at (t, 0), in front of `before`. */
  predicate LeftColumn(b: BoardImpl, ships: seq<ShipRec>, before: seq<ShipRec>, k: nat)
  {
    && |ships| == |before| + k && ships[k..] == before
    && forall t :: 0 <= t < k ==> ships[t] == b.NewRecord(Point(k - 1 - t, 0), k - 1 - t, Horizontal)
  }

  lemma LeftColumnStep(b: BoardImpl, ships: seq<ShipRec>, before: seq<ShipRec>, k: nat)
    requires LeftColumn(b, ships, before, k)
    ensures LeftColumn(b, [b.NewRecord(Point(k, 0), k, Horizontal)] + ships, before, k + 1)
  {
    var ships' := [b.NewRecord(Point(k, 0), k, Horizontal)] + ships;
    assert ships'[k + 1..] == ships[k..];
    forall t | 0 <= t < k + 1
      ensures ships'[t] == b.NewRecord(Point(k - t, 0), k - t, Horizontal)
    {
      if t > 0 {
        assert ships'[t] == ships[t - 1];
      }
    }
  }

  class AwfulPlayer {
    const cat: Catalog
    var last: Point

    ghost predicate Valid()
      reads this
    {
      cat.rows >= 1 && cat.cols >= 1 && InBounds(last, cat.rows, cat.cols)
    }

    /** AwfulPlayer::AwfulPlayer (Player.cpp:27-28): the walk starts from (0, 0). */
    constructor (g: Catalog)
      requires g.rows >= 1 && g.cols >= 1
      ensures Valid() && cat == g && last == Point(0, 0)
    {
      cat := g;
      last := Point(0, 0);
    }

    /**
     * AwfulPlayer::recommendAttack (Player.cpp:39-52): the cell before the
     * previous one in row-major order, wrapping from (0, 0) to the last cell.
     */
    method RecommendAttack() returns (p: Point)
      requires Valid()
      modifies this
      ensures Valid() && p == last
      ensures InBounds(p, cat.rows, cat.cols)
      ensures Index(p, cat.cols) == (Index(old(last), cat.cols) - 1) % (cat.rows * cat.cols)
    {
      if last.c > 0 {
        BackInRow(last, cat.rows, cat.cols);
        last := last.(c := last.c - 1);
      } else if last.r > 0 {
        BackRow(last, cat.rows, cat.cols);
        last := Point(last.r - 1, cat.cols - 1);
      } else {
        BackWrap(cat.rows, cat.cols);
        last := Point(cat.rows - 1, cat.cols - 1);
      }
      p := last;
    }

    /**
     * AwfulPlayer::placeShips (Player.cpp:30-37): ship k goes horizontally at
     * (k, 0); the first refusal ends the attempt, leaving earlier ships placed.
     */
    method PlaceShips(b: BoardImpl) returns (ok: bool)
      requires b.Valid() && b.cat == cat
      modifies b, b.grid
      ensures b.Valid() && b.shipsLeft == old(b.shipsLeft)
      ensures ok ==> |b.ships| == |old(b.ships)| + cat.nShips
      ensures ok ==> b.ships[cat.nShips..] == old(b.ships)
      ensures ok ==> forall t :: 0 <= t < cat.nShips ==>
        b.ships[t] == b.NewRecord(Point(cat.nShips - 1 - t, 0), cat.nShips - 1 - t, Horizontal)
    {
      var k := 0;
      while k < cat.nShips
        invariant 0 <= k <= cat.nShips
        invariant b.Valid() && b.shipsLeft == old(b.shipsLeft)
        invariant LeftColumn(b, b.ships, old(b.ships), k)
      {
        ghost var prev := b.ships;
        var placed := b.PlaceShip(Point(k, 0), k, Horizontal);
        if !placed {
          return false;
        }
        LeftColumnStep(b, prev, old(b.ships), k);
        k := k + 1;
      }
      return true;
    }
  }
}
