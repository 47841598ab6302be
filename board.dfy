// The board of one player (Board.cpp): a character grid and the list of the
// ships placed on it. '.' is an empty cell, a ship symbol an occupied cell,
// 'X' a hit (or a blocked cell during placement) and 'o' a miss.

module Board {
  import opened Game

  /** A placed ship (Board.cpp:26-33): origin, name, direction, health, id, symbol. */
  datatype ShipRec = ShipRec(r: int, c: int, name: string, dir: Direction, health: int, id: int, symbol: char)
  {
    function Origin(): Point
    {
      Point(r, c)
    }
  }

  /** Index of the first record with this name, or |ships| (the walks of Board.cpp:107-110 and 162-166). */
  function FindName(ships: seq<ShipRec>, name: string): (k: nat)
    ensures k <= |ships|
    ensures k < |ships| ==> ships[k].name == name
    ensures forall j :: 0 <= j < k ==> ships[j].name != name
  {
    if ships == [] then 0
    else if ships[0].name == name then 0
    else 1 + FindName(ships[1..], name)
  }

  /** Index of the first record with this symbol, or |ships| (the walk of Board.cpp:249-250). */
  function FindSymbol(ships: seq<ShipRec>, symbol: char): (k: nat)
    ensures k <= |ships|
    ensures k < |ships| ==> ships[k].symbol == symbol
    ensures forall j :: 0 <= j < k ==> ships[j].symbol != symbol
  {
    if ships == [] then 0
    else if ships[0].symbol == symbol then 0
    else 1 + FindSymbol(ships[1..], symbol)
  }

  /** What the opponent's view shows of a cell (Board.cpp:222-224): never a ship symbol. */
  function ShotsOnlyView(ch: char): (shown: char)
    ensures Reserved(shown)
    ensures Reserved(ch) ==> shown == ch
  {
    if ch != 'X' && ch != '.' && ch != 'o' then '.' else ch
  }

  /** The cell `block` leaves: 'X' where the coin came up, the old cell elsewhere (Board.cpp:71-74). */
  function Blocked(ch: char, coin: bool): char
  {
    if coin then 'X' else ch
  }

  /** The cell `unblock` leaves (Board.cpp:82-83). */
  function Unblocked(ch: char): (ch': char)
    ensures ch' != 'X'
    ensures ch != 'X' ==> ch' == ch
  {
    if ch == 'X' then '.' else ch
  }

  /** A double loop writing `ch` into every cell of a grid. */
  method FillCells<T>(a: array2<T>, ch: T)
    modifies a
    ensures forall i, j :: 0 <= i < a.Length0 && 0 <= j < a.Length1 ==> a[i, j] == ch
  {
    var r := 0;
    while r < a.Length0
      invariant 0 <= r <= a.Length0
      invariant forall i, j :: 0 <= i < r && 0 <= j < a.Length1 ==> a[i, j] == ch
    {
      var c := 0;
      while c < a.Length1
        invariant 0 <= c <= a.Length1
        invariant forall i, j :: 0 <= i < r && 0 <= j < a.Length1 ==> a[i, j] == ch
        invariant forall j :: 0 <= j < c ==> a[r, j] == ch
      {
        a[r, c] := ch;
        c := c + 1;
      }
      r := r + 1;
    }
  }

  /** The list without its m-th record: the unlinking unplaceShip intends (Board.cpp:183-185). */
  function Unlink(s: seq<ShipRec>, m: int): seq<ShipRec>
    requires 0 <= m < |s|
  {
    s[..m] + s[m + 1..]
  }

  /** The list with the k-th record one health down. */
  function Damaged(s: seq<ShipRec>, k: nat): seq<ShipRec>
    requires k < |s|
  {
    s[k := s[k].(health := s[k].health - 1)]
  }

  /** Unlink keeps every other record, in order, and drops exactly the m-th. */
  lemma UnlinkAt(s: seq<ShipRec>, m: int)
    requires 0 <= m < |s|
    ensures |Unlink(s, m)| == |s| - 1
    ensures forall k :: 0 <= k < m ==> Unlink(s, m)[k] == s[k]
    ensures forall k :: m <= k < |s| - 1 ==> Unlink(s, m)[k] == s[k + 1]
    ensures multiset(Unlink(s, m)) + multiset{s[m]} == multiset(s)
  {
    assert s == s[..m] + [s[m]] + s[m + 1..];
  }

  /**
   * The unlinking as Board.cpp:158-185 writes it. The walk leaves `ptr2` on the
   * predecessor of the record found (or on the head when the head is found),
   * and the test `ptr2 == head` then also holds when the second record is the
   * one found, so `head = ptr->next` drops the first record with it.
   */
  function UnlinkAsWritten(s: seq<ShipRec>, m: int): (s': seq<ShipRec>)
    requires 0 <= m < |s|
    ensures m != 1 ==> s' == Unlink(s, m)
  {
    var prev := if m == 0 then 0 else m - 1;
    if prev == 0 then s[m + 1..] else s[..prev + 1] + s[m + 1..]
  }

  /** Unplacing the second record of a list loses the first one as well. */
  lemma UnlinkSecondLosesHead(s: seq<ShipRec>)
    requires |s| >= 2
    ensures UnlinkAsWritten(s, 1) == s[2..]
    ensures Unlink(s, 1) == [s[0]] + s[2..]
    ensures |UnlinkAsWritten(s, 1)| == |s| - 2
  {
  }

  /** Ship ids n-1 .. k head the list, newest first, in front of `before`. */
  ghost predicate PlacedFrom(ships: seq<ShipRec>, before: seq<ShipRec>, n: int, k: int)
    requires 0 <= k <= n
  {
    && |ships| == |before| + (n - k)
    && ships[n - k..] == before
    && (forall t :: 0 <= t < n - k ==> ships[t].id == n - 1 - t)
  }

  class BoardImpl {
    const cat: Catalog
    const grid: array2<char>
    var ships: seq<ShipRec>
    var shipsLeft: int
    /** The number of attacks that destroyed a ship so far. */
    ghost var kills: nat

    predicate InGrid(q: Point)
    {
      0 <= q.r < grid.Length0 && 0 <= q.c < grid.Length1
    }

    /** The footprint stays on the grid: the bounds checks of Board.cpp:94-101. */
    predicate FitsGrid(origin: Point, length: int, dir: Direction)
    {
      InGrid(origin) &&
      match dir
      case Horizontal => origin.c + length <= grid.Length1
      case Vertical => origin.r + length <= grid.Length0
    }

    lemma FootCellInGrid(origin: Point, length: int, dir: Direction, t: int)
      requires FitsGrid(origin, length, dir) && 0 <= t < length
      ensures InGrid(FootCell(origin, t, dir))
    {
    }

    /** Every footprint cell is '.' (isValidPlacement, Board.cpp:138-151). */
    ghost predicate FootprintEmpty(origin: Point, length: int, dir: Direction)
      reads grid
      requires FitsGrid(origin, length, dir)
    {
      forall t :: 0 <= t < length ==>
        var q := FootCell(origin, t, dir); grid[q.r, q.c] == '.'
    }

    /** Every grid cell on an empty footprint is '.'. */
    lemma EmptyFootprintCells(origin: Point, length: int, dir: Direction)
      requires FitsGrid(origin, length, dir) && FootprintEmpty(origin, length, dir)
      ensures forall i, j :: 0 <= i < grid.Length0 && 0 <= j < grid.Length1 && OnFootprint(Point(i, j), origin, length, dir) ==>
        grid[i, j] == '.'
    {
      forall i, j | 0 <= i < grid.Length0 && 0 <= j < grid.Length1 && OnFootprint(Point(i, j), origin, length, dir)
        ensures grid[i, j] == '.'
      {
        var t := if dir == Horizontal then j - origin.c else i - origin.r;
        assert FootCell(origin, t, dir) == Point(i, j);
      }
    }

    /** The record covers cell q with its catalogue length. */
    ghost predicate Covers(rec: ShipRec, q: Point)
    {
      OnFootprint(q, rec.Origin(), cat.ShipLength(rec.id), rec.dir)
    }

    ghost predicate RecordOk(rec: ShipRec)
    {
      && cat.Registered(rec.id)
      && rec.name == cat.ShipName(rec.id)
      && rec.symbol == cat.ShipSymbol(rec.id)
      && FitsGrid(rec.Origin(), cat.ShipLength(rec.id), rec.dir)
    }

    /** Some record in `s` has symbol `ch` and covers cell q. */
    ghost predicate OwnedBy(s: seq<ShipRec>, ch: char, q: Point)
    {
      exists k :: 0 <= k < |s| && s[k].symbol == ch && Covers(s[k], q)
    }

    lemma PrependOwner(rec: ShipRec, s: seq<ShipRec>, ch: char, q: Point)
      requires OwnedBy(s, ch, q)
      ensures OwnedBy([rec] + s, ch, q)
    {
      var k :| 0 <= k < |s| && s[k].symbol == ch && Covers(s[k], q);
      assert ([rec] + s)[k + 1] == s[k];
    }

    lemma HitOwner(s: seq<ShipRec>, k: int, health: int, ch: char, q: Point)
      requires 0 <= k < |s| && OwnedBy(s, ch, q)
      ensures OwnedBy(s[k := s[k].(health := health)], ch, q)
    {
      var k' :| 0 <= k' < |s| && s[k'].symbol == ch && Covers(s[k'], q);
      assert s[k := s[k].(health := health)][k'].symbol == ch;
    }

    /**
     * The board invariant: the grid has the catalogue's size, every record
     * describes a registered kind lying on the grid, names are distinct, every
     * ship symbol on the grid belongs to a placed ship covering that cell, and
     * shipsLeft counts down from nShips by one per kill.
     */
    ghost predicate Valid()
      reads this, grid
    {
      && cat.Valid()
      && grid.Length0 == cat.rows && grid.Length1 == cat.cols
      && RecordsOk(ships)
      && GridOwned(ships)
      && shipsLeft + kills == cat.nShips
    }

    /** Every record describes a registered kind lying on the grid, and no two share a name. */
    ghost predicate RecordsOk(s: seq<ShipRec>)
    {
      && (forall k :: 0 <= k < |s| ==> RecordOk(s[k]))
      && (forall a, b :: 0 <= a < b < |s| ==> s[a].name != s[b].name)
    }

    /** Every ship symbol on the grid belongs to a record of `s` covering that cell. */
    ghost predicate GridOwned(s: seq<ShipRec>)
      reads grid
    {
      forall i, j :: 0 <= i < grid.Length0 && 0 <= j < grid.Length1 && !Reserved(grid[i, j]) ==>
        OwnedBy(s, grid[i, j], Point(i, j))
    }

    /** Every cell covered by one of the first n records holds that record's symbol. */
    ghost predicate Painted(n: int)
      reads this, grid
    {
      && 0 <= n <= |ships|
      && forall t, i, j ::
           0 <= t < n && 0 <= i < grid.Length0 && 0 <= j < grid.Length1 && Covers(ships[t], Point(i, j)) ==>
           grid[i, j] == ships[t].symbol
    }

    /** Painting extends to record n once its cells hold its symbol. */
    lemma PaintedNext(n: int)
      requires Painted(n) && n < |ships|
      requires forall i, j :: 0 <= i < grid.Length0 && 0 <= j < grid.Length1 && Covers(ships[n], Point(i, j)) ==>
        grid[i, j] == ships[n].symbol
      ensures Painted(n + 1)
    {
      forall t, i, j | 0 <= t < n + 1 && 0 <= i < grid.Length0 && 0 <= j < grid.Length1 && Covers(ships[t], Point(i, j))
        ensures grid[i, j] == ships[t].symbol
      {
        if t == n {
          assert Covers(ships[n], Point(i, j));
        }
      }
    }

    /** BoardImpl::BoardImpl (Board.cpp:38-48). */
    constructor (g: Catalog)
      requires g.Valid() && g.rows >= 0 && g.cols >= 0
      ensures Valid() && fresh(grid)
      ensures cat == g && ships == [] && shipsLeft == g.nShips && kills == 0
      ensures forall i, j :: 0 <= i < grid.Length0 && 0 <= j < grid.Length1 ==> grid[i, j] == '.'
    {
      cat := g;
      grid := new char[g.rows, g.cols];
      ships := [];
      shipsLeft := g.nShips;
      kills := 0;
      new;
      ResetCells();
    }

    /** The double loop that writes '.' into every cell (Board.cpp:44-46 and 60-62). */
    method ResetCells()
      modifies grid
      ensures forall i, j :: 0 <= i < grid.Length0 && 0 <= j < grid.Length1 ==> grid[i, j] == '.'
    {
      FillCells(grid, '.');
    }

    /** BoardImpl::clear (Board.cpp:58-64): the grid only; the ship list and shipsLeft stay. */
    method Clear()
      requires Valid()
      modifies grid
      ensures Valid()
      ensures forall i, j :: 0 <= i < grid.Length0 && 0 <= j < grid.Length1 ==> grid[i, j] == '.'
    {
      ResetCells();
    }

    /**
     * BoardImpl::block (Board.cpp:66-75) with the coin flips supplied:
     * every cell whose coin comes up becomes 'X', whatever it held.
     */
    method Block(coin: (int, int) -> bool)
      requires Valid()
      modifies grid
      ensures Valid()
      ensures forall i, j :: 0 <= i < grid.Length0 && 0 <= j < grid.Length1 ==>
        grid[i, j] == Blocked(old(grid[i, j]), coin(i, j))
    {
      var r := 0;
      while r < grid.Length0
        invariant 0 <= r <= grid.Length0
        invariant forall i, j :: 0 <= i < r && 0 <= j < grid.Length1 ==> grid[i, j] == Blocked(old(grid[i, j]), coin(i, j))
        invariant forall i, j :: r <= i < grid.Length0 && 0 <= j < grid.Length1 ==> grid[i, j] == old(grid[i, j])
      {
        var c := 0;
        while c < grid.Length1
          invariant 0 <= c <= grid.Length1
          invariant forall i, j :: 0 <= i < r && 0 <= j < grid.Length1 ==> grid[i, j] == Blocked(old(grid[i, j]), coin(i, j))
          invariant forall j :: 0 <= j < c ==> grid[r, j] == Blocked(old(grid[r, j]), coin(r, j))
          invariant forall j :: c <= j < grid.Length1 ==> grid[r, j] == old(grid[r, j])
          invariant forall i, j :: r < i < grid.Length0 && 0 <= j < grid.Length1 ==> grid[i, j] == old(grid[i, j])
        {
          if coin(r, c) {
            grid[r, c] := 'X';
          }
          c := c + 1;
        }
        r := r + 1;
      }
      forall i, j | 0 <= i < grid.Length0 && 0 <= j < grid.Length1 && !Reserved(grid[i, j])
        ensures OwnedBy(ships, grid[i, j], Point(i, j))
      {
        assert grid[i, j] == old(grid[i, j]);
      }
    }

    /** BoardImpl::unblock (Board.cpp:77-85): every 'X', hits included, becomes '.'. */
    method Unblock()
      requires Valid()
      modifies grid
      ensures Valid()
      ensures forall i, j :: 0 <= i < grid.Length0 && 0 <= j < grid.Length1 ==>
        grid[i, j] == Unblocked(old(grid[i, j]))
    {
      var r := 0;
      while r < grid.Length0
        invariant 0 <= r <= grid.Length0
        invariant forall i, j :: 0 <= i < r && 0 <= j < grid.Length1 ==> grid[i, j] == Unblocked(old(grid[i, j]))
        invariant forall i, j :: r <= i < grid.Length0 && 0 <= j < grid.Length1 ==> grid[i, j] == old(grid[i, j])
      {
        var c := 0;
        while c < grid.Length1
          invariant 0 <= c <= grid.Length1
          invariant forall i, j :: 0 <= i < r && 0 <= j < grid.Length1 ==> grid[i, j] == Unblocked(old(grid[i, j]))
          invariant forall j :: 0 <= j < c ==> grid[r, j] == Unblocked(old(grid[r, j]))
          invariant forall j :: c <= j < grid.Length1 ==> grid[r, j] == old(grid[r, j])
          invariant forall i, j :: r < i < grid.Length0 && 0 <= j < grid.Length1 ==> grid[i, j] == old(grid[i, j])
        {
          if grid[r, c] == 'X' {
            grid[r, c] := '.';
          }
          c := c + 1;
        }
        r := r + 1;
      }
      forall i, j | 0 <= i < grid.Length0 && 0 <= j < grid.Length1 && !Reserved(grid[i, j])
        ensures OwnedBy(ships, grid[i, j], Point(i, j))
      {
        assert grid[i, j] == old(grid[i, j]);
      }
    }

    /** BoardImpl::isValidPlacement (Board.cpp:138-151). */
    method IsValidPlacement(r: int, c: int, length: int, dir: Direction) returns (ok: bool)
      requires FitsGrid(Point(r, c), length, dir)
      ensures ok <==> FootprintEmpty(Point(r, c), length, dir)
    {
      var i := 0;
      while i < length
        invariant 0 <= i <= if length < 0 then 0 else length
        invariant forall t :: 0 <= t < i ==> var q := FootCell(Point(r, c), t, dir); grid[q.r, q.c] == '.'
      {
        var q := FootCell(Point(r, c), i, dir);
        if grid[q.r, q.c] != '.' {
          return false;
        }
        i := i + 1;
      }
      return true;
    }

    /** Every condition under which placeShip succeeds (Board.cpp:89-110). */
    ghost predicate CanPlace(origin: Point, shipId: int, dir: Direction)
      reads this, grid
    {
      var length := cat.ShipLength(shipId);
      && length != -1
      && FitsGrid(origin, length, dir)
      && FootprintEmpty(origin, length, dir)
      && FindName(ships, cat.ShipName(shipId)) == |ships|
    }

    /** The record placeShip adds for this kind (Board.cpp:112-123). */
    function NewRecord(origin: Point, shipId: int, dir: Direction): ShipRec
    {
      ShipRec(origin.r, origin.c, cat.ShipName(shipId), dir, cat.ShipLength(shipId), shipId, cat.ShipSymbol(shipId))
    }

    /** The walk that looks for a record by name (Board.cpp:107-110, 161-163). */
    method FindByName(name: string) returns (k: nat)
      ensures k == FindName(ships, name)
    {
      k := 0;
      while k < |ships| && ships[k].name != name
        invariant 0 <= k <= |ships|
        invariant forall j :: 0 <= j < k ==> ships[j].name != name
      {
        k := k + 1;
      }
    }

    /** Writes `ch` over a footprint: the loops of Board.cpp:125-133 and 171-181. */
    method Paint(origin: Point, length: int, dir: Direction, ch: char)
      requires length >= 0 && FitsGrid(origin, length, dir)
      modifies grid
      ensures forall x, y :: 0 <= x < grid.Length0 && 0 <= y < grid.Length1 ==>
        grid[x, y] == if OnFootprint(Point(x, y), origin, length, dir) then ch else old(grid[x, y])
    {
      var i := 0;
      while i < length
        invariant 0 <= i <= length
        invariant forall x, y :: 0 <= x < grid.Length0 && 0 <= y < grid.Length1 ==>
          grid[x, y] == if OnFootprint(Point(x, y), origin, i, dir) then ch else old(grid[x, y])
      {
        var q := FootCell(origin, i, dir);
        grid[q.r, q.c] := ch;
        i := i + 1;
      }
    }

    /** BoardImpl::placeShip (Board.cpp:87-136). */
    method PlaceShip(origin: Point, shipId: int, dir: Direction) returns (ok: bool)
      requires Valid()
      modifies this, grid
      ensures Valid()
      ensures shipsLeft == old(shipsLeft) && kills == old(kills)
      ensures ok <==> old(CanPlace(origin, shipId, dir))
      ensures ok ==> ships == [NewRecord(origin, shipId, dir)] + old(ships)
      ensures ok ==> forall i, j :: 0 <= i < grid.Length0 && 0 <= j < grid.Length1 ==>
        grid[i, j] == if OnFootprint(Point(i, j), origin, cat.ShipLength(shipId), dir)
                      then cat.ShipSymbol(shipId) else old(grid[i, j])
      ensures ok ==> Painted(1)
      ensures forall i, j :: 0 <= i < grid.Length0 && 0 <= j < grid.Length1 && old(grid[i, j]) != '.' ==>
        grid[i, j] == old(grid[i, j])
      ensures !ok ==> ships == old(ships)
      ensures !ok ==> forall i, j :: 0 <= i < grid.Length0 && 0 <= j < grid.Length1 ==> grid[i, j] == old(grid[i, j])
    {
      var length := cat.ShipLength(shipId);
      if length == -1 {
        return false;
      }
      var r, c := origin.r, origin.c;
      if r < 0 || c < 0 || r >= cat.rows || c >= cat.cols {
        return false;
      }
      if dir == Vertical && r + length > cat.rows {
        return false;
      }
      if dir == Horizontal && c + length > cat.cols {
        return false;
      }
      var fits := IsValidPlacement(r, c, length, dir);
      if !fits {
        return false;
      }
      var name := cat.ShipName(shipId);
      var k := FindByName(name);
      if k < |ships| {
        return false;
      }
      Insert(origin, shipId, dir);
      ok := true;
    }

    /** The success path of placeShip (Board.cpp:112-133): prepend the record and paint its footprint. */
    method Insert(origin: Point, shipId: int, dir: Direction)
      requires Valid() && CanPlace(origin, shipId, dir)
      modifies this, grid
      ensures Valid()
      ensures shipsLeft == old(shipsLeft) && kills == old(kills)
      ensures ships == [NewRecord(origin, shipId, dir)] + old(ships)
      ensures forall i, j :: 0 <= i < grid.Length0 && 0 <= j < grid.Length1 ==>
        grid[i, j] == if OnFootprint(Point(i, j), origin, cat.ShipLength(shipId), dir)
                      then cat.ShipSymbol(shipId) else old(grid[i, j])
      ensures Painted(1)
      ensures forall i, j :: 0 <= i < grid.Length0 && 0 <= j < grid.Length1 && old(grid[i, j]) != '.' ==>
        grid[i, j] == old(grid[i, j])
    {
      var length := cat.ShipLength(shipId);
      var symbol := cat.ShipSymbol(shipId);
      ghost var before := ships;
      EmptyFootprintCells(origin, length, dir);
      var rec := NewRecord(origin, shipId, dir);
      AddedRecord(rec, ships);
      ships := [rec] + ships;
      Paint(origin, length, dir, symbol);
      forall i, j | 0 <= i < grid.Length0 && 0 <= j < grid.Length1 && !Reserved(grid[i, j])
        ensures OwnedBy(ships, grid[i, j], Point(i, j))
      {
        if OnFootprint(Point(i, j), origin, length, dir) {
          assert ships[0].symbol == grid[i, j] && Covers(ships[0], Point(i, j));
        } else {
          PrependOwner(ships[0], before, grid[i, j], Point(i, j));
        }
      }
    }

    /** unplaceShip of the record placed last, which the players' backtracking undoes (Board.cpp:153-190). */
    method UnplaceHead(origin: Point, shipId: int, dir: Direction)
      requires Valid() && |ships| > 0 && ships[0] == NewRecord(origin, shipId, dir)
      modifies this, grid
      ensures Valid()
      ensures shipsLeft == old(shipsLeft) && kills == old(kills)
      ensures ships == old(ships[1..])
      ensures forall i, j :: 0 <= i < grid.Length0 && 0 <= j < grid.Length1 ==>
        grid[i, j] == if OnFootprint(Point(i, j), origin, cat.ShipLength(shipId), dir) then '.' else old(grid[i, j])
    {
      ghost var before := ships;
      assert CanUnplace(origin, shipId, dir) by {
        assert RecordOk(ships[0]);
        assert FindName(ships, cat.ShipName(shipId)) == 0;
      }
      var removed := UnplaceShip(origin, shipId, dir);
      assert Unlink(before, 0) == before[1..];
    }

    /** Every condition under which unplaceShip succeeds (Board.cpp:155-169). */
    ghost predicate CanUnplace(origin: Point, shipId: int, dir: Direction)
      reads this
    {
      var m := FindName(ships, cat.ShipName(shipId));
      && cat.ShipLength(shipId) != -1
      && m < |ships|
      && ships[m].Origin() == origin && ships[m].dir == dir
    }

    /** BoardImpl::unplaceShip (Board.cpp:153-190), with the unlinking of the found record as evidently intended. */
    method UnplaceShip(origin: Point, shipId: int, dir: Direction) returns (ok: bool)
      requires Valid()
      modifies this, grid
      ensures Valid()
      ensures shipsLeft == old(shipsLeft) && kills == old(kills)
      ensures ok <==> old(CanUnplace(origin, shipId, dir))
      ensures ok ==> ships == Unlink(old(ships), FindName(old(ships), cat.ShipName(shipId)))
      ensures ok ==> forall i, j :: 0 <= i < grid.Length0 && 0 <= j < grid.Length1 ==>
        grid[i, j] == if OnFootprint(Point(i, j), origin, cat.ShipLength(shipId), dir) then '.' else old(grid[i, j])
      ensures !ok ==> ships == old(ships)
      ensures !ok ==> forall i, j :: 0 <= i < grid.Length0 && 0 <= j < grid.Length1 ==> grid[i, j] == old(grid[i, j])
    {
      var length := cat.ShipLength(shipId);
      if length == -1 {
        return false;
      }
      var nm := cat.ShipName(shipId);
      var m := FindByName(nm);
      if m == |ships| {
        return false;
      }
      if origin.c != ships[m].c || origin.r != ships[m].r || dir != ships[m].dir {
        return false;
      }
      SameKind(ships[m], shipId);
      Paint(origin, length, dir, '.');
      ghost var before := ships;
      ships := Unlink(ships, m);
      RemovedRecords(before, m);
      forall i, j | 0 <= i < grid.Length0 && 0 <= j < grid.Length1 && !Reserved(grid[i, j])
        ensures OwnedBy(ships, grid[i, j], Point(i, j))
      {
        RemoveOwner(before, m, grid[i, j], Point(i, j));
      }
      ok := true;
    }

    /** The record found by name is the record of that kind. */
    lemma SameKind(rec: ShipRec, shipId: int)
      requires cat.Valid() && RecordOk(rec) && cat.Registered(shipId) && rec.name == cat.ShipName(shipId)
      ensures rec.id == shipId
    {
      if rec.id != shipId {
        DistinctKinds(cat, rec.id, shipId);
      }
    }

    /** Removing one record keeps the others valid and their names distinct. */
    lemma RemovedRecords(s: seq<ShipRec>, m: int)
      requires 0 <= m < |s| && RecordsOk(s)
      ensures RecordsOk(Unlink(s, m))
    {
      UnlinkAt(s, m);
    }

    /** Adding a record of a new name keeps the list valid. */
    lemma AddedRecord(rec: ShipRec, s: seq<ShipRec>)
      requires RecordsOk(s) && RecordOk(rec) && FindName(s, rec.name) == |s|
      ensures RecordsOk([rec] + s)
    {
    }

    /** Lowering a record's health keeps the list valid and the grid owned. */
    lemma HitRecord(s: seq<ShipRec>, k: nat)
      requires k < |s| && RecordsOk(s) && GridOwned(s)
      ensures RecordsOk(Damaged(s, k))
      ensures GridOwned(Damaged(s, k))
    {
      forall i, j | 0 <= i < grid.Length0 && 0 <= j < grid.Length1 && !Reserved(grid[i, j])
        ensures OwnedBy(Damaged(s, k), grid[i, j], Point(i, j))
      {
        HitOwner(s, k, s[k].health - 1, grid[i, j], Point(i, j));
      }
    }

    lemma RemoveOwner(s: seq<ShipRec>, m: int, ch: char, q: Point)
      requires 0 <= m < |s| && OwnedBy(s, ch, q) && !Covers(s[m], q)
      ensures OwnedBy(Unlink(s, m), ch, q)
    {
      UnlinkAt(s, m);
      var k :| 0 <= k < |s| && s[k].symbol == ch && Covers(s[k], q);
      var k' := if k < m then k else k - 1;
      assert Unlink(s, m)[k'] == s[k];
    }

    /** The walk that finds the record by symbol (Board.cpp:249-250). */
    method FindBySymbol(sym: char) returns (k: nat)
      ensures k == FindSymbol(ships, sym)
    {
      k := 0;
      while k < |ships| && ships[k].symbol != sym
        invariant 0 <= k <= |ships|
        invariant forall j :: 0 <= j < k ==> ships[j].symbol != sym
      {
        k := k + 1;
      }
    }

    /** The game's isValid (Game.cpp:71-74) is the board's own in-grid test (Board.cpp:234). */
    lemma IsValidInGrid(p: Point)
      requires Valid()
      ensures cat.IsValid(p) <==> InGrid(p)
    {
    }

    /** BoardImpl::attack (Board.cpp:232-270); `prevShipId` is what the caller's shipId held. */
    method Attack(p: Point, prevShipId: int) returns (accepted: bool, shotHit: bool, shipDestroyed: bool, shipId: int)
      requires Valid()
      modifies this, grid
      ensures Valid()
      ensures accepted <==> cat.IsValid(p) && old(grid[p.r, p.c]) != 'o' && old(grid[p.r, p.c]) != 'X'
      ensures !accepted ==> !shotHit && !shipDestroyed
      ensures !accepted ==> forall i, j :: 0 <= i < grid.Length0 && 0 <= j < grid.Length1 ==> grid[i, j] == old(grid[i, j])
      ensures forall i, j :: 0 <= i < grid.Length0 && 0 <= j < grid.Length1 && Point(i, j) != p ==>
        grid[i, j] == old(grid[i, j])
      ensures !accepted || old(grid[p.r, p.c]) == '.' ==>
        ships == old(ships) && shipsLeft == old(shipsLeft) && kills == old(kills)
      ensures accepted && old(grid[p.r, p.c]) == '.' ==> grid[p.r, p.c] == 'o' && !shotHit && !shipDestroyed
      ensures accepted && !Reserved(old(grid[p.r, p.c])) ==>
        var k := FindSymbol(old(ships), old(grid[p.r, p.c]));
        && grid[p.r, p.c] == 'X' && shotHit
        && k < |old(ships)|
        && ships == Damaged(old(ships), k)
        && (shipDestroyed <==> ships[k].health == 0)
        && (shipDestroyed ==> shipsLeft == old(shipsLeft) - 1 && kills == old(kills) + 1 && shipId == ships[k].id)
        && (!shipDestroyed ==> shipsLeft == old(shipsLeft) && kills == old(kills))
      ensures !shipDestroyed ==> shipId == prevShipId
    {
      shipId := prevShipId;
      if p.c >= cat.cols || p.r >= cat.rows || p.c < 0 || p.r < 0 {
        return false, false, false, shipId;
      }
      if grid[p.r, p.c] == 'o' || grid[p.r, p.c] == 'X' {
        return false, false, false, shipId;
      }
      if grid[p.r, p.c] != '.' {
        var id;
        shipDestroyed, id := HitShip(p);
        shotHit := true;
        if shipDestroyed {
          shipId := id;
        }
      } else {
        shotHit := false;
        shipDestroyed := false;
        grid[p.r, p.c] := 'o';
      }
      accepted := true;
    }

    /** The hit branch of attack (Board.cpp:245-260). */
    method HitShip(p: Point) returns (destroyed: bool, id: int)
      requires Valid() && InGrid(p) && !Reserved(grid[p.r, p.c])
      modifies this, grid
      ensures Valid() && grid[p.r, p.c] == 'X'
      ensures forall i, j :: 0 <= i < grid.Length0 && 0 <= j < grid.Length1 && Point(i, j) != p ==>
        grid[i, j] == old(grid[i, j])
      ensures var k := FindSymbol(old(ships), old(grid[p.r, p.c]));
        && k < |old(ships)|
        && ships == Damaged(old(ships), k)
        && (destroyed <==> ships[k].health == 0)
        && (destroyed ==> shipsLeft == old(shipsLeft) - 1 && kills == old(kills) + 1 && id == ships[k].id)
        && (!destroyed ==> shipsLeft == old(shipsLeft) && kills == old(kills))
    {
      var sym := grid[p.r, p.c];
      OwnedFound(ships, sym, p);
      MarkHit(p);
      var k := FindBySymbol(sym);
      destroyed, id := Damage(k);
    }

    /** A symbol owned by some record is found by the walk by symbol. */
    lemma OwnedFound(s: seq<ShipRec>, ch: char, q: Point)
      requires OwnedBy(s, ch, q)
      ensures FindSymbol(s, ch) < |s|
    {
      var k :| 0 <= k < |s| && s[k].symbol == ch && Covers(s[k], q);
      assert FindSymbol(s, ch) <= k;
    }

    /** The hit cell of attack (Board.cpp:246-247): a ship cell becomes 'X'. */
    method MarkHit(p: Point)
      requires Valid() && InGrid(p) && !Reserved(grid[p.r, p.c])
      modifies grid
      ensures Valid() && grid[p.r, p.c] == 'X'
      ensures forall i, j :: 0 <= i < grid.Length0 && 0 <= j < grid.Length1 && Point(i, j) != p ==>
        grid[i, j] == old(grid[i, j])
    {
      grid[p.r, p.c] := 'X';
      forall i, j | 0 <= i < grid.Length0 && 0 <= j < grid.Length1 && !Reserved(grid[i, j])
        ensures OwnedBy(ships, grid[i, j], Point(i, j))
      {
        assert grid[i, j] == old(grid[i, j]);
      }
    }

    /** The record update of attack (Board.cpp:251-257): one health less, and a kill at zero. */
    method Damage(k: nat) returns (destroyed: bool, id: int)
      requires Valid() && k < |ships|
      modifies this
      ensures Valid()
      ensures ships == Damaged(old(ships), k)
      ensures destroyed <==> ships[k].health == 0
      ensures destroyed ==> shipsLeft == old(shipsLeft) - 1 && kills == old(kills) + 1 && id == ships[k].id
      ensures !destroyed ==> shipsLeft == old(shipsLeft) && kills == old(kills)
    {
      var s := Damaged(ships, k);
      HitRecord(ships, k);
      destroyed := s[k].health == 0;
      id := s[k].id;
      if destroyed {
        ships, shipsLeft, kills := s, shipsLeft - 1, kills + 1;
      } else {
        ships := s;
      }
    }

    /** BoardImpl::allShipsDestroyed (Board.cpp:272-278). */
    function AllShipsDestroyed(): (all: bool)
      reads this, grid
      requires Valid()
      ensures all <==> kills == cat.nShips
    {
      shipsLeft == 0
    }
  }

  /**
   * placeShip followed by unplaceShip with the same origin, id and direction
   * gives back the grid and the ship list as they were (Board.cpp:125-133, 171-187).
   */
  method PlaceThenUnplace(b: BoardImpl, origin: Point, shipId: int, dir: Direction) returns (placed: bool, removed: bool)
    requires b.Valid()
    modifies b, b.grid
    ensures b.Valid()
    ensures placed ==> removed
    ensures b.ships == old(b.ships) && b.shipsLeft == old(b.shipsLeft)
    ensures forall i, j :: 0 <= i < b.grid.Length0 && 0 <= j < b.grid.Length1 ==> b.grid[i, j] == old(b.grid[i, j])
  {
    ghost var name := b.cat.ShipName(shipId);
    ghost var length := b.cat.ShipLength(shipId);
    if b.CanPlace(origin, shipId, dir) {
      b.EmptyFootprintCells(origin, length, dir);
    }
    placed := b.PlaceShip(origin, shipId, dir);
    removed := false;
    if placed {
      ghost var mid := b.ships;
      assert b.CanUnplace(origin, shipId, dir) by {
        assert FindName(b.ships, name) == 0;
      }
      removed := b.UnplaceShip(origin, shipId, dir);
      assert b.ships == old(b.ships) by {
        assert Unlink(mid, 0) == mid[1..];
      }
      forall i, j | 0 <= i < b.grid.Length0 && 0 <= j < b.grid.Length1
        ensures b.grid[i, j] == old(b.grid[i, j])
      {
        if OnFootprint(Point(i, j), origin, length, dir) {
          assert b.grid[i, j] == '.';
        }
      }
    }
  }
}
