// The ship catalogue of a Battleship game (Game.cpp): the registry of ship
// kinds, each with an id, a length, a symbol and a name, and the checks a new
// kind has to pass before it is added.

module Game {

  datatype Option<T> = None | Some(value: T)

  /** A grid coordinate: row and column. */
  datatype Point = Point(r: int, c: int)

  /** A ship lies to the right of its origin (Horizontal) or below it (Vertical). */
  datatype Direction = Horizontal | Vertical

  /** The `t`-th cell of the footprint of a ship whose top or left cell is `origin`. */
  function FootCell(origin: Point, t: int, dir: Direction): Point
  {
    match dir
    case Horizontal => Point(origin.r, origin.c + t)
    case Vertical => Point(origin.r + t, origin.c)
  }

  /** Cell `q` is covered by a ship of `length` cells placed at `origin` in direction `dir`. */
  predicate OnFootprint(q: Point, origin: Point, length: int, dir: Direction)
  {
    match dir
    case Horizontal => q.r == origin.r && origin.c <= q.c < origin.c + length
    case Vertical => q.c == origin.c && origin.r <= q.r < origin.r + length
  }

  lemma FootCellOnFootprint(origin: Point, t: int, length: int, dir: Direction)
    requires 0 <= t < length
    ensures OnFootprint(FootCell(origin, t, dir), origin, length, dir)
  {
  }

  /** The characters the board reserves: empty, hit (or blocked) and miss. */
  predicate Reserved(ch: char)
  {
    ch == 'o' || ch == 'X' || ch == '.'
  }

  /** One node of the catalogue's list. */
  datatype ShipNode = ShipNode(length: int, symbol: char, name: string, id: int)

  /** The first node of `nodes` with the given id, if any (the walk of Game.cpp:109-113). */
  function FindNode(nodes: seq<ShipNode>, id: int): (found: Option<ShipNode>)
    ensures found.Some? <==> exists j :: 0 <= j < |nodes| && nodes[j].id == id
    ensures found.Some? ==> found.value.id == id && found.value in nodes
  {
    if nodes == [] then None
    else if nodes[0].id == id then Some(nodes[0])
    else FindNode(nodes[1..], id)
  }

  /** A ship kind GameImpl::addShip accepts on its own terms (ignoring duplicates). */
  predicate Admissible(rows: int, cols: int, length: int, symbol: char)
  {
    length > 0 && (length <= rows || length <= cols) && !Reserved(symbol)
  }

  /** Some node already uses this symbol or this name. */
  predicate Clashes(nodes: seq<ShipNode>, symbol: char, name: string)
  {
    exists j :: 0 <= j < |nodes| && (nodes[j].symbol == symbol || nodes[j].name == name)
  }

  /** The sum of the lengths of the nodes. */
  function TotalLength(nodes: seq<ShipNode>): int
  {
    if nodes == [] then 0 else nodes[0].length + TotalLength(nodes[1..])
  }

  /**
   * A snapshot of the catalogue: the board dimensions, the ship counter and
   * the list of nodes, newest first (addShip prepends).
   */
  datatype Catalog = Catalog(rows: int, cols: int, nShips: int, head: seq<ShipNode>)
  {
    /** GameImpl::isValid (Game.cpp:71-74). */
    predicate IsValid(p: Point)
    {
      0 <= p.r < rows && 0 <= p.c < cols
    }

    predicate Registered(id: int)
    {
      0 <= id < nShips
    }

    /**
     * The registry invariant: the ids are exactly 0..nShips-1 (newest
     * first), every kind is admissible, and symbols and names are pairwise
     * distinct.
     */
    ghost predicate Valid()
    {
      && nShips == |head|
      && (forall j :: 0 <= j < |head| ==> head[j].id == nShips - 1 - j)
      && (forall j :: 0 <= j < |head| ==> Admissible(rows, cols, head[j].length, head[j].symbol))
      && (forall i, j :: 0 <= i < j < |head| ==>
            head[i].symbol != head[j].symbol && head[i].name != head[j].name)
    }

    /** With a valid registry, the walk finds exactly the node of a registered id. */
    lemma Lookup(id: int)
      ensures Valid() && Registered(id) ==> FindNode(head, id) == Some(head[nShips - 1 - id])
      ensures Valid() && !Registered(id) ==> FindNode(head, id) == None
    {
      if Valid() && Registered(id) {
        assert head[nShips - 1 - id].id == id;
        var n := FindNode(head, id).value;
        var j :| 0 <= j < |head| && head[j] == n;
        assert j == nShips - 1 - id;
      }
    }

    /** GameImpl::shipLength: the stored length, or -1 for an unknown id. */
    function ShipLength(id: int): (len: int)
      ensures Valid() ==> (len == -1 <==> !Registered(id))
      ensures Valid() && Registered(id) ==> len == head[nShips - 1 - id].length && len > 0
    {
      Lookup(id);
      match FindNode(head, id)
      case Some(n) => n.length
      case None => -1
    }

    /** GameImpl::shipSymbol: the stored symbol, or '?' for an unknown id. */
    function ShipSymbol(id: int): (sym: char)
      ensures !Registered(id) && Valid() ==> sym == '?'
      ensures Valid() && Registered(id) ==> sym == head[nShips - 1 - id].symbol && !Reserved(sym)
    {
      Lookup(id);
      match FindNode(head, id)
      case Some(n) => n.symbol
      case None => '?'
    }

    /** GameImpl::shipName: the stored name, or "" for an unknown id. */
    function ShipName(id: int): (name: string)
      ensures !Registered(id) && Valid() ==> name == ""
      ensures Valid() && Registered(id) ==> name == head[nShips - 1 - id].name
    {
      Lookup(id);
      match FindNode(head, id)
      case Some(n) => n.name
      case None => ""
    }
  }

  /** The catalogue after GameImpl::addShip accepted a kind: it gets the next id. */
  function WithKind(cat: Catalog, length: int, symbol: char, name: string): (cat': Catalog)
    ensures cat'.nShips == cat.nShips + 1 && |cat'.head| == |cat.head| + 1
    ensures cat'.head[0] == ShipNode(length, symbol, name, cat.nShips) && cat'.head[1..] == cat.head
  {
    cat.(nShips := cat.nShips + 1, head := [ShipNode(length, symbol, name, cat.nShips)] + cat.head)
  }

  /** Distinct registered kinds have distinct names and distinct symbols. */
  lemma DistinctKinds(cat: Catalog, a: int, b: int)
    requires cat.Valid() && cat.Registered(a) && cat.Registered(b) && a != b
    ensures cat.ShipName(a) != cat.ShipName(b)
    ensures cat.ShipSymbol(a) != cat.ShipSymbol(b)
  {
    var i, j := cat.nShips - 1 - a, cat.nShips - 1 - b;
    if i < j {
      assert cat.head[i].symbol != cat.head[j].symbol && cat.head[i].name != cat.head[j].name;
    } else {
      assert cat.head[j].symbol != cat.head[i].symbol && cat.head[j].name != cat.head[i].name;
    }
  }

  /**
   * Adding a node with the next id keeps every old lookup and makes the new
   * id answer with the new node's fields (Game.cpp:90-98).
   */
  lemma {:induction false} AddedKindLookup(cat: Catalog, length: int, symbol: char, name: string, id: int)
    ensures var cat' := WithKind(cat, length, symbol, name);
      && (id == cat.nShips ==> cat'.ShipLength(id) == length && cat'.ShipSymbol(id) == symbol && cat'.ShipName(id) == name)
      && (id != cat.nShips ==>
            cat'.ShipLength(id) == cat.ShipLength(id) && cat'.ShipSymbol(id) == cat.ShipSymbol(id)
            && cat'.ShipName(id) == cat.ShipName(id))
  {
    var cat' := WithKind(cat, length, symbol, name);
    if id != cat.nShips {
      assert FindNode(cat'.head, id) == FindNode(cat.head, id);
    }
  }

  /** GameImpl: the catalogue with its linked list modelled as a sequence. */
  class GameImpl {
    const rows: int
    const cols: int
    var nShips: int
    var head: seq<ShipNode>

    function Snapshot(): Catalog
      reads this
    {
      Catalog(rows, cols, nShips, head)
    }

    ghost predicate Valid()
      reads this
    {
      Snapshot().Valid()
    }

    constructor (nRows: int, nCols: int)
      ensures Valid() && Snapshot() == Catalog(nRows, nCols, 0, [])
    {
      rows, cols := nRows, nCols;
      nShips, head := 0, [];
    }

    /** The duplicate scan of Game.cpp:86-88. */
    method FindClash(symbol: char, name: string) returns (clash: bool)
      ensures clash <==> Clashes(head, symbol, name)
    {
      var i := 0;
      while i < |head|
        invariant 0 <= i <= |head|
        invariant forall j :: 0 <= j < i ==> head[j].symbol != symbol && head[j].name != name
      {
        if head[i].symbol == symbol || head[i].name == name {
          return true;
        }
        i := i + 1;
      }
      return false;
    }

    /** GameImpl::addShip (Game.cpp:81-100). */
    method AddShip(length: int, symbol: char, name: string) returns (ok: bool)
      requires Valid()
      modifies this
      ensures Valid()
      ensures ok <==> Admissible(rows, cols, length, symbol) && !Clashes(old(head), symbol, name)
      ensures ok ==> nShips == old(nShips) + 1 && head == [ShipNode(length, symbol, name, old(nShips))] + old(head)
      ensures !ok ==> nShips == old(nShips) && head == old(head)
      ensures ok ==> Snapshot() == WithKind(old(Snapshot()), length, symbol, name)
      ensures !ok ==> Snapshot() == old(Snapshot())
    {
      if length <= 0 || (length > rows && length > cols) || symbol == 'o' || symbol == 'X' || symbol == '.' {
        return false;
      }
      var clash := FindClash(symbol, name);
      if clash {
        return false;
      }
      head := [ShipNode(length, symbol, name, nShips)] + head;
      nShips := nShips + 1;
      ok := true;
    }
  }

  /** A printable ASCII character (isascii && isprint). */
  predicate Printable(ch: char)
  {
    ' ' <= ch <= '~'
  }

  /** Game: the public front that adds the checks of Game.cpp:281-323. */
  class Game {
    const impl: GameImpl

    /** Besides the registry invariant, the ships always fit on the board in total. */
    ghost predicate Valid()
      reads this, impl
    {
      && impl.Valid()
      && impl.rows >= 1 && impl.cols >= 1
      && TotalLength(impl.head) <= impl.rows * impl.cols
    }

    constructor (nRows: int, nCols: int)
      requires nRows >= 1 && nCols >= 1
      ensures Valid() && fresh(impl) && impl.Snapshot() == Catalog(nRows, nCols, 0, [])
    {
      impl := new GameImpl(nRows, nCols);
    }

    /**
     * The scan of Game.cpp:306-316: sums the lengths of the registered kinds
     * and stops early, reporting a clash, at the first kind with this symbol.
     */
    method ScanKinds(symbol: char) returns (total: int, clash: bool)
      requires Valid()
      ensures clash <==> exists j :: 0 <= j < |impl.head| && impl.head[j].symbol == symbol
      ensures !clash ==> total == TotalLength(impl.head)
    {
      var cat := impl.Snapshot();
      total := 0;
      var s := 0;
      while s < impl.nShips
        invariant 0 <= s <= impl.nShips
        invariant total == TotalLength(cat.head[cat.nShips - s..])
        // the kinds with ids below s sit at the tail of the list
        invariant forall j :: cat.nShips - s <= j < |cat.head| ==> cat.head[j].symbol != symbol
      {
        total := total + cat.ShipLength(s);
        if cat.ShipSymbol(s) == symbol {
          return total, true;
        }
        assert cat.head[cat.nShips - s - 1..][1..] == cat.head[cat.nShips - s..];
        s := s + 1;
      }
      assert cat.head[cat.nShips - s..] == cat.head;
      clash := false;
    }

    /** Game::addShip (Game.cpp:281-323). */
    method AddShip(length: int, symbol: char, name: string) returns (ok: bool)
      requires Valid()
      modifies impl
      ensures Valid()
      ensures ok <==>
        && length >= 1
        && (length <= impl.rows || length <= impl.cols)
        && Printable(symbol) && !Reserved(symbol)
        && !Clashes(old(impl.head), symbol, name)
        && TotalLength(old(impl.head)) + length <= impl.rows * impl.cols
      ensures ok ==> (impl.nShips == old(impl.nShips) + 1
                  && impl.head == [ShipNode(length, symbol, name, old(impl.nShips))] + old(impl.head))
      ensures !ok ==> impl.nShips == old(impl.nShips) && impl.head == old(impl.head)
    {
      if length < 1 {
        return false;
      }
      if length > impl.rows && length > impl.cols {
        return false;
      }
      if !Printable(symbol) {
        return false;
      }
      if symbol == 'X' || symbol == '.' || symbol == 'o' {
        return false;
      }
      var total, clash := ScanKinds(symbol);
      if clash {
        return false;
      }
      if total + length > impl.rows * impl.cols {
        return false;
      }
      ghost var before := impl.head;
      ok := impl.AddShip(length, symbol, name);
      assert ok ==> impl.head[1..] == before;
    }
  }
}
