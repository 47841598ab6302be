// GoodPlayer (Player.cpp:356-825): random backtracking placement; in the
// search state a probability-density scan over the cells not yet attacked,
// in the hunt state directional probes around the chain of hits on the
// targeted ship, and the bookkeeping of those chains.

module Good {
  import opened Game
  import opened Board

  /** A chain of hits believed to be on one ship (the Node list, Player.cpp:370-375). */
  datatype Chain = Chain(shipId: int, destroyed: bool, pos: seq<Point>)

  /** An opposing ship kind the player still counts (the shipsRemaining list, Player.cpp:384-389). */
  datatype Remaining = Remaining(id: int, length: int, destroyed: bool)

  /** One random choice of placeRec: randInt(rows), randInt(cols), randInt(2) (Player.cpp:401-404). */
  datatype Draw = Draw(r: int, c: int, dir: int)

  /** Index of the first chain with this id, or |chains| (Player.cpp:498-501, 701-705). */
  function FirstChainWithId(chains: seq<Chain>, id: int): (f: nat)
    ensures f <= |chains|
    ensures f < |chains| ==> chains[f].shipId == id
    ensures forall j :: 0 <= j < f ==> chains[j].shipId != id
  {
    if chains == [] then 0
    else if chains[0].shipId == id then 0
    else 1 + FirstChainWithId(chains[1..], id)
  }

  /** Index of the first chain not destroyed, or |chains| (Player.cpp:811-817). */
  function FirstLive(chains: seq<Chain>): (f: nat)
    ensures f <= |chains|
    ensures f < |chains| ==> !chains[f].destroyed
    ensures forall j :: 0 <= j < f ==> chains[j].destroyed
  {
    if chains == [] then 0
    else if !chains[0].destroyed then 0
    else 1 + FirstLive(chains[1..])
  }

  /** Index of the first entry of this length, destroyed or not, or |rs| (Player.cpp:726-730). */
  function FirstWithLength(rs: seq<Remaining>, length: int): (g: nat)
    ensures g <= |rs|
    ensures g < |rs| ==> rs[g].length == length
    ensures forall j :: 0 <= j < g ==> rs[j].length != length
  {
    if rs == [] then 0
    else if rs[0].length == length then 0
    else 1 + FirstWithLength(rs[1..], length)
  }

  /** Index of the first -1 sentinel, or |xs|. */
  function FirstSentinel(xs: seq<int>): (f: nat)
    ensures f <= |xs|
    ensures f < |xs| ==> xs[f] == -1
    ensures forall j :: 0 <= j < f ==> xs[j] != -1
  {
    if xs == [] then 0
    else if xs[0] == -1 then 0
    else 1 + FirstSentinel(xs[1..])
  }

  /** The last coordinate before the first -1 sentinel, 0 when there is none (Player.cpp:514-517, 540-543). */
  function RecentEnd(xs: seq<int>): int
  {
    var f := FirstSentinel(xs);
    if f == 0 then 0 else xs[f - 1]
  }

  function Cols(ps: seq<Point>): (cs: seq<int>)
    ensures |cs| == |ps| && forall i :: 0 <= i < |ps| ==> cs[i] == ps[i].c
  {
    if ps == [] then [] else [ps[0].c] + Cols(ps[1..])
  }

  function Rows(ps: seq<Point>): (rs: seq<int>)
    ensures |rs| == |ps| && forall i :: 0 <= i < |ps| ==> rs[i] == ps[i].r
  {
    if ps == [] then [] else [ps[0].r] + Rows(ps[1..])
  }

  /**
   * The probes of a chain of two or more hits, in the order they are tried
   * (Player.cpp:509-563): along the row beyond the recent end and then
   * beside the first hit when the first two hits share a row, and the same
   * along the column when they share a column.
   */
  function LineProbes(pos: seq<Point>): seq<Point>
    requires |pos| >= 2
  {
    var p0, p1 := pos[0], pos[1];
    var cl := RecentEnd(Cols(pos));
    var rl := RecentEnd(Rows(pos));
    (if p0.r == p1.r
     then [Point(p0.r, cl + 1), Point(p0.r, cl - 1), Point(p0.r, p0.c + 1), Point(p0.r, p0.c - 1)]
     else []) +
    (if p0.c == p1.c
     then [Point(rl + 1, p0.c), Point(rl - 1, p0.c), Point(p0.r - 1, p0.c), Point(p0.r + 1, p0.c)]
     else [])
  }

  /** Up, left, down, right of a hit (Player.cpp:581-603). */
  function CrossProbes(p: Point): seq<Point>
  {
    [Point(p.r - 1, p.c), Point(p.r, p.c - 1), Point(p.r + 1, p.c), Point(p.r, p.c + 1)]
  }

  /** The shipsRemaining list the constructor builds: ids n-1 .. 0, newest first (Player.cpp:648-656). */
  function InitialRemaining(cat: Catalog, k: nat): (rs: seq<Remaining>)
    ensures |rs| == k
    ensures forall t :: 0 <= t < k ==> rs[t] == Remaining(k - 1 - t, cat.ShipLength(k - 1 - t), false)
  {
    if k == 0 then [] else [Remaining(k - 1, cat.ShipLength(k - 1), false)] + InitialRemaining(cat, k - 1)
  }

  class GoodPlayer {
    const cat: Catalog
    const attackedCells: array2<char>
    const densityGrid: array2<int>
    var mState: int
    var target: int
    var chains: seq<Chain>
    var remaining: seq<Remaining>

    predicate InGrid(q: Point)
    {
      0 <= q.r < attackedCells.Length0 && 0 <= q.c < attackedCells.Length1
    }

    ghost predicate Valid()
      reads this
    {
      && cat.rows >= 1 && cat.cols >= 1
      && attackedCells.Length0 == cat.rows && attackedCells.Length1 == cat.cols
      && densityGrid.Length0 == cat.rows && densityGrid.Length1 == cat.cols
      && (mState == 1 || mState == 2)
    }

    /** In the hunt state some chain carries the target id. */
    ghost predicate TargetTracked()
      reads this
    {
      mState == 2 ==> FirstChainWithId(chains, target) < |chains|
    }

    /** A cell of the grid not attacked yet. */
    ghost predicate Open(q: Point)
      reads attackedCells
    {
      InGrid(q) && attackedCells[q.r, q.c] == '.'
    }

    /** GoodPlayer::GoodPlayer (Player.cpp:619-657), without the never-read m_grid and myShips. */
    constructor (g: Catalog)
      requires g.rows >= 1 && g.cols >= 1
      ensures Valid() && cat == g && fresh(attackedCells) && fresh(densityGrid)
      ensures mState == 1 && target == -1 && chains == [] && TargetTracked()
      ensures remaining == InitialRemaining(g, if g.nShips < 0 then 0 else g.nShips)
      ensures forall i, j :: 0 <= i < attackedCells.Length0 && 0 <= j < attackedCells.Length1 ==>
        attackedCells[i, j] == '.' && densityGrid[i, j] == 0
    {
      cat := g;
      attackedCells := new char[g.rows, g.cols];
      densityGrid := new int[g.rows, g.cols];
      mState := 1;
      target := -1;
      chains := [];
      remaining := [];
      new;
      FillCells(attackedCells, '.');
      FillCells(densityGrid, 0);
      var i := 0;
      while i < cat.nShips
        invariant 0 <= i <= if cat.nShips < 0 then 0 else cat.nShips
        invariant remaining == InitialRemaining(cat, i)
        invariant Valid() && cat == g && mState == 1 && target == -1 && chains == []
        invariant forall i, j :: 0 <= i < attackedCells.Length0 && 0 <= j < attackedCells.Length1 ==>
          attackedCells[i, j] == '.' && densityGrid[i, j] == 0
      {
        remaining := [Remaining(i, cat.ShipLength(i), false)] + remaining;
        i := i + 1;
      }
    }

    /** The footprint lies within the grid's far edge and every cell of it is open (checkFit). */
    ghost predicate Fits(o: Point, length: int, dir: Direction)
      reads attackedCells
    {
      && (match dir
          case Vertical => o.r + length <= attackedCells.Length0
          case Horizontal => o.c + length <= attackedCells.Length1)
      && forall t :: 0 <= t < length ==> Open(FootCell(o, t, dir))
    }

    /** GoodPlayer::checkFit (Player.cpp:429-451). */
    method CheckFit(p: Point, length: int, dir: Direction) returns (fits: bool)
      requires InGrid(p)
      ensures fits <==> Fits(p, length, dir)
    {
      if dir == Vertical && p.r + length > attackedCells.Length0 {
        return false;
      }
      if dir == Horizontal && p.c + length > attackedCells.Length1 {
        return false;
      }
      var i := 0;
      while i < length
        invariant 0 <= i <= if length < 0 then 0 else length
        invariant forall t :: 0 <= t < i ==> Open(FootCell(p, t, dir))
      {
        var q := FootCell(p, i, dir);
        if attackedCells[q.r, q.c] != '.' {
          return false;
        }
        i := i + 1;
      }
      return true;
    }

    /** How many of the two placements at origin o of a ship of this length fit and cover q. */
    ghost function Hits(q: Point, o: Point, length: int): int
      reads attackedCells
    {
      (if Fits(o, length, Horizontal) && OnFootprint(q, o, length, Horizontal) then 1 else 0) +
      (if Fits(o, length, Vertical) && OnFootprint(q, o, length, Vertical) then 1 else 0)
    }

    /** Hits over the origins (i, 0) .. (i, k-1). */
    ghost function RowSum(q: Point, length: int, i: int, k: int): int
      reads attackedCells
      decreases k
    {
      if k <= 0 then 0 else RowSum(q, length, i, k - 1) + Hits(q, Point(i, k - 1), length)
    }

    /** Hits over the origins of rows 0 .. i-1. */
    ghost function GridSum(q: Point, length: int, i: int): int
      reads attackedCells
      decreases i
    {
      if i <= 0 then 0 else GridSum(q, length, i - 1) + RowSum(q, length, i - 1, attackedCells.Length1)
    }

    /** The density of q: fitting placements covering q, over the entries not destroyed. */
    ghost function Density(q: Point, rs: seq<Remaining>): int
      reads attackedCells
      decreases |rs|
    {
      if rs == [] then 0
      else
        var last := rs[|rs| - 1];
        Density(q, rs[..|rs| - 1]) + (if last.destroyed then 0 else GridSum(q, last.length, attackedCells.Length0))
    }

    /** An attacked cell lies on no fitting placement. */
    lemma HitsAttacked(q: Point, o: Point, length: int)
      ensures !Open(q) ==> Hits(q, o, length) == 0
    {
      if !Open(q) && OnFootprint(q, o, length, Horizontal) {
        assert FootCell(o, q.c - o.c, Horizontal) == q;
        assert !Fits(o, length, Horizontal);
      }
      if !Open(q) && OnFootprint(q, o, length, Vertical) {
        assert FootCell(o, q.r - o.r, Vertical) == q;
        assert !Fits(o, length, Vertical);
      }
    }

    lemma {:induction false} RowSumAttacked(q: Point, length: int, i: int, k: int)
      ensures !Open(q) ==> RowSum(q, length, i, k) == 0
      decreases k
    {
      if k > 0 {
        RowSumAttacked(q, length, i, k - 1);
        HitsAttacked(q, Point(i, k - 1), length);
      }
    }

    lemma {:induction false} GridSumAttacked(q: Point, length: int, i: int)
      ensures !Open(q) ==> GridSum(q, length, i) == 0
      decreases i
    {
      if i > 0 {
        GridSumAttacked(q, length, i - 1);
        RowSumAttacked(q, length, i - 1, attackedCells.Length1);
      }
    }

    /** Attacked cells have density 0: no ship can still lie across them. */
    lemma {:induction false} DensityZeroAtAttacked(q: Point, rs: seq<Remaining>)
      ensures !Open(q) ==> Density(q, rs) == 0
      decreases |rs|
    {
      if rs != [] {
        DensityZeroAtAttacked(q, rs[..|rs| - 1]);
        GridSumAttacked(q, rs[|rs| - 1].length, attackedCells.Length0);
      }
    }

    /** One footprint's increments (Player.cpp:467-469, 472-474). */
    method AddFootprint(o: Point, length: int, dir: Direction)
      requires InGrid(o)
      requires densityGrid.Length0 == attackedCells.Length0 && densityGrid.Length1 == attackedCells.Length1
      requires match dir
        case Vertical => o.r + length <= attackedCells.Length0
        case Horizontal => o.c + length <= attackedCells.Length1
      modifies densityGrid
      ensures forall x, y :: 0 <= x < densityGrid.Length0 && 0 <= y < densityGrid.Length1 ==>
        densityGrid[x, y] == old(densityGrid[x, y]) + if OnFootprint(Point(x, y), o, length, dir) then 1 else 0
    {
      var t := 0;
      while t < length
        invariant 0 <= t <= if length < 0 then 0 else length
        invariant forall x, y :: 0 <= x < densityGrid.Length0 && 0 <= y < densityGrid.Length1 ==>
          densityGrid[x, y] == old(densityGrid[x, y]) + if OnFootprint(Point(x, y), o, t, dir) then 1 else 0
      {
        var q := FootCell(o, t, dir);
        densityGrid[q.r, q.c] := densityGrid[q.r, q.c] + 1;
        t := t + 1;
      }
      if length < 0 {
        forall x, y | 0 <= x < densityGrid.Length0 && 0 <= y < densityGrid.Length1
          ensures !OnFootprint(Point(x, y), o, length, dir) && !OnFootprint(Point(x, y), o, t, dir)
        {
        }
      }
    }

    /** The origins loop for one remaining ship (Player.cpp:463-476). */
    method AccumulateShip(length: int)
      requires Valid()
      modifies densityGrid
      ensures forall x, y :: 0 <= x < densityGrid.Length0 && 0 <= y < densityGrid.Length1 ==>
        densityGrid[x, y] == old(densityGrid[x, y]) + GridSum(Point(x, y), length, attackedCells.Length0)
    {
      var i := 0;
      while i < attackedCells.Length0
        invariant 0 <= i <= attackedCells.Length0
        invariant forall x, y :: 0 <= x < densityGrid.Length0 && 0 <= y < densityGrid.Length1 ==>
          densityGrid[x, y] == old(densityGrid[x, y]) + GridSum(Point(x, y), length, i)
      {
        AccumulateRow(length, i);
        i := i + 1;
      }
    }

    /** The origins (i, 0) .. (i, cols-1) for one remaining ship. */
    method AccumulateRow(length: int, i: int)
      requires Valid() && 0 <= i < attackedCells.Length0
      modifies densityGrid
      ensures forall x, y :: 0 <= x < densityGrid.Length0 && 0 <= y < densityGrid.Length1 ==>
        densityGrid[x, y] == old(densityGrid[x, y]) + RowSum(Point(x, y), length, i, attackedCells.Length1)
    {
      var k := 0;
      while k < attackedCells.Length1
        invariant 0 <= k <= attackedCells.Length1
        invariant forall x, y :: 0 <= x < densityGrid.Length0 && 0 <= y < densityGrid.Length1 ==>
          densityGrid[x, y] == old(densityGrid[x, y]) + RowSum(Point(x, y), length, i, k)
      {
        AccumulateOrigin(length, Point(i, k));
        k := k + 1;
      }
    }

    /** Both placements at one origin. */
    method AccumulateOrigin(length: int, o: Point)
      requires Valid() && InGrid(o)
      modifies densityGrid
      ensures forall x, y :: 0 <= x < densityGrid.Length0 && 0 <= y < densityGrid.Length1 ==>
        densityGrid[x, y] == old(densityGrid[x, y]) + Hits(Point(x, y), o, length)
    {
      var fitsH := CheckFit(o, length, Horizontal);
      if fitsH {
        AddFootprint(o, length, Horizontal);
      }
      var fitsV := CheckFit(o, length, Vertical);
      if fitsV {
        AddFootprint(o, length, Vertical);
      }
    }

    /** The density scan (Player.cpp:459-477): reset to 0, then accumulate every entry not destroyed. */
    method FillDensity()
      requires Valid()
      modifies densityGrid
      ensures forall x, y :: 0 <= x < densityGrid.Length0 && 0 <= y < densityGrid.Length1 ==>
        densityGrid[x, y] == Density(Point(x, y), remaining)
    {
      FillCells(densityGrid, 0);
      var s := 0;
      while s < |remaining|
        invariant 0 <= s <= |remaining|
        invariant forall x, y :: 0 <= x < densityGrid.Length0 && 0 <= y < densityGrid.Length1 ==>
          densityGrid[x, y] == Density(Point(x, y), remaining[..s])
      {
        assert remaining[..s + 1][..s] == remaining[..s];
        if !remaining[s].destroyed {
          AccumulateShip(remaining[s].length);
        }
        s := s + 1;
      }
      assert remaining[..s] == remaining;
    }

    /**
     * The argmax of the search state (Player.cpp:481-491): the first cell in
     * row-major order of the largest positive density, or (0, 0) when no
     * density is positive.
     */
    method ArgMaxDensity() returns (best: Point, peak: int)
      requires Valid()
      ensures peak >= 0 && InGrid(best)
      ensures forall x, y :: 0 <= x < densityGrid.Length0 && 0 <= y < densityGrid.Length1 ==> densityGrid[x, y] <= peak
      ensures peak == 0 ==> best == Point(0, 0)
      ensures peak > 0 ==> densityGrid[best.r, best.c] == peak
      ensures peak > 0 ==> forall x, y :: 0 <= x < densityGrid.Length0 && 0 <= y < densityGrid.Length1 ==>
        Before(Point(x, y), best) ==> densityGrid[x, y] < peak
    {
      best, peak := Point(0, 0), 0;
      var i := 0;
      while i < densityGrid.Length0
        invariant 0 <= i <= densityGrid.Length0
        invariant peak >= 0 && InGrid(best)
        invariant forall x, y :: 0 <= x < i && 0 <= y < densityGrid.Length1 ==> densityGrid[x, y] <= peak
        invariant peak == 0 ==> best == Point(0, 0)
        invariant peak > 0 ==> best.r < i && densityGrid[best.r, best.c] == peak
        invariant peak > 0 ==> forall x, y :: 0 <= x < densityGrid.Length0 && 0 <= y < densityGrid.Length1 ==>
          Before(Point(x, y), best) ==> densityGrid[x, y] < peak
      {
        var k := 0;
        while k < densityGrid.Length1
          invariant 0 <= k <= densityGrid.Length1
          invariant peak >= 0 && InGrid(best)
          invariant forall x, y :: 0 <= x < densityGrid.Length0 && 0 <= y < densityGrid.Length1 ==>
            Before(Point(x, y), Point(i, k)) ==> densityGrid[x, y] <= peak
          invariant peak == 0 ==> best == Point(0, 0)
          invariant peak > 0 ==> Before(best, Point(i, k)) && densityGrid[best.r, best.c] == peak
          invariant peak > 0 ==> forall x, y :: 0 <= x < densityGrid.Length0 && 0 <= y < densityGrid.Length1 ==>
            Before(Point(x, y), best) ==> densityGrid[x, y] < peak
        {
          if densityGrid[i, k] > peak {
            best, peak := Point(i, k), densityGrid[i, k];
          }
          k := k + 1;
        }
        i := i + 1;
      }
    }

    /**
     * The search state of findSpot (Player.cpp:461-494): fill the densities,
     * attack the argmax. A cell of positive density was not attacked before.
     */
    method ScanAttack() returns (p: Point)
      requires Valid()
      modifies densityGrid, attackedCells
      ensures forall x, y :: 0 <= x < densityGrid.Length0 && 0 <= y < densityGrid.Length1 ==>
        densityGrid[x, y] == old(Density(Point(x, y), remaining))
      ensures InGrid(p) && attackedCells[p.r, p.c] == '*'
      ensures forall x, y :: 0 <= x < attackedCells.Length0 && 0 <= y < attackedCells.Length1 && Point(x, y) != p ==>
        attackedCells[x, y] == old(attackedCells[x, y])
      ensures densityGrid[p.r, p.c] > 0 ==> old(Open(p))
      ensures densityGrid[p.r, p.c] > 0 ==> forall x, y :: 0 <= x < densityGrid.Length0 && 0 <= y < densityGrid.Length1 ==>
        densityGrid[x, y] <= densityGrid[p.r, p.c]
      ensures densityGrid[p.r, p.c] > 0 ==> forall x, y :: 0 <= x < densityGrid.Length0 && 0 <= y < densityGrid.Length1 ==>
        Before(Point(x, y), p) ==> densityGrid[x, y] < densityGrid[p.r, p.c]
      ensures densityGrid[p.r, p.c] <= 0 ==> p == Point(0, 0)
      ensures densityGrid[p.r, p.c] <= 0 ==> forall x, y :: 0 <= x < densityGrid.Length0 && 0 <= y < densityGrid.Length1 ==>
        densityGrid[x, y] <= 0
    {
      FillDensity();
      var peak;
      p, peak := ArgMaxDensity();
      DensityZeroAtAttacked(p, remaining);
      attackedCells[p.r, p.c] := '*';
    }

    /** Index of the first open candidate, or |cands|. */
    ghost function FirstOpen(cands: seq<Point>): (n: nat)
      reads attackedCells
      ensures n <= |cands|
      ensures n < |cands| ==> Open(cands[n])
      ensures forall j :: 0 <= j < n ==> !Open(cands[j])
    {
      if cands == [] then 0
      else if Open(cands[0]) then 0
      else 1 + FirstOpen(cands[1..])
    }

    /**
     * An if-else cascade of probes (Player.cpp:519-538, 545-562, 581-603):
     * the first candidate inside the grid and not attacked yet.
     */
    method FirstOpenOf(cands: seq<Point>) returns (n: nat)
      ensures n == FirstOpen(cands)
    {
      n := 0;
      while n < |cands| && !(InGrid(cands[n]) && attackedCells[cands[n].r, cands[n].c] == '.')
        invariant n <= |cands|
        invariant forall j :: 0 <= j < n ==> !Open(cands[j])
      {
        n := n + 1;
      }
    }

    /** Attack one probe or random cell. */
    method MarkShot(q: Point)
      requires InGrid(q)
      modifies attackedCells
      ensures attackedCells[q.r, q.c] == '*'
      ensures forall x, y :: 0 <= x < attackedCells.Length0 && 0 <= y < attackedCells.Length1 && Point(x, y) != q ==>
        attackedCells[x, y] == old(attackedCells[x, y])
    {
      attackedCells[q.r, q.c] := '*';
    }

    /**
     * The hunt state of findSpot (Player.cpp:496-604). With no chain of the
     * target id the shot is (0, 0), left unmarked. Otherwise the line probes
     * of a chain of two or more hits come first; when none is open the chain
     * is split after its first hit; then the cross around the first hit.
     * `found` is false when nothing is open, and the random fallback follows.
     */
    method Hunt() returns (p: Point, found: bool)
      requires Valid() && mState == 2
      modifies this, attackedCells
      ensures Valid() && mState == 2 && target == old(target) && remaining == old(remaining)
      ensures old(TargetTracked()) ==> TargetTracked()
      ensures !found ==> unchanged(attackedCells)
      ensures var f := FirstChainWithId(old(chains), target);
        f == |old(chains)| ==> p == Point(0, 0) && found && chains == old(chains) && unchanged(attackedCells)
      ensures var f := FirstChainWithId(old(chains), target);
        f < |old(chains)| && old(chains)[f].pos == [] ==> !found && chains == old(chains)
      ensures var f := FirstChainWithId(old(chains), target);
        f < |old(chains)| && old(chains)[f].pos != [] ==>
          var pos := old(chains)[f].pos;
          var line := if |pos| >= 2 then LineProbes(pos) else [];
          var m := old(FirstOpen(line));
          var n := old(FirstOpen(CrossProbes(pos[0])));
          && (m < |line| ==> found && p == line[m] && chains == old(chains))
          && (m == |line| ==> chains == (if |pos| >= 2 then SplitFront(old(chains), f) else old(chains)))
          && (m == |line| ==> (found <==> n < 4) && (found ==> p == CrossProbes(pos[0])[n]))
      ensures found && FirstChainWithId(old(chains), target) < |old(chains)| ==> old(Open(p))
      ensures found && FirstChainWithId(old(chains), target) < |old(chains)| ==> attackedCells[p.r, p.c] == '*'
      ensures forall x, y :: 0 <= x < attackedCells.Length0 && 0 <= y < attackedCells.Length1 && Point(x, y) != p ==>
        attackedCells[x, y] == old(attackedCells[x, y])
    {
      var f := FindChain(chains, target);
      if f == |chains| {
        return Point(0, 0), true;
      }
      if chains[f].pos == [] {
        return Point(0, 0), false;
      }
      p, found := HuntChain(f);
    }

    /** The probes of the target chain f. */
    method HuntChain(f: nat) returns (p: Point, found: bool)
      requires Valid() && mState == 2 && f < |chains| && chains[f].pos != []
      requires chains[f].shipId == target
      modifies this, attackedCells
      ensures Valid() && mState == 2 && target == old(target) && remaining == old(remaining)
      ensures TargetTracked()
      ensures !found ==> unchanged(attackedCells)
      ensures var pos := old(chains)[f].pos;
        var line := if |pos| >= 2 then LineProbes(pos) else [];
        var m := old(FirstOpen(line));
        var n := old(FirstOpen(CrossProbes(pos[0])));
        && (m < |line| ==> found && p == line[m] && chains == old(chains))
        && (m == |line| ==> chains == (if |pos| >= 2 then SplitFront(old(chains), f) else old(chains)))
        && (m == |line| ==> (found <==> n < 4) && (found ==> p == CrossProbes(pos[0])[n]))
      ensures found ==> old(Open(p)) && attackedCells[p.r, p.c] == '*'
      ensures forall x, y :: 0 <= x < attackedCells.Length0 && 0 <= y < attackedCells.Length1 && Point(x, y) != p ==>
        attackedCells[x, y] == old(attackedCells[x, y])
    {
      var pos := chains[f].pos;
      if |pos| >= 2 {
        var line := LineProbesOf(pos);
        p, found := Probe(line);
        if found {
          return;
        }
        SplitTarget(f);
      }
      p, found := Probe(CrossProbes(pos[0]));
    }

    /** The split of the target chain after its first hit (Player.cpp:567-580). */
    method SplitTarget(f: nat)
      requires Valid() && mState == 2 && f < |chains| && chains[f].pos != []
      requires chains[f].shipId == target
      modifies this
      ensures Valid() && mState == 2 && target == old(target) && remaining == old(remaining)
      ensures chains == SplitFront(old(chains), f)
      ensures TargetTracked()
    {
      var kept, moved := MoveTail(chains[f].pos);
      chains := [Chain(chains[f].shipId + 1, false, moved)] + chains[f := chains[f].(pos := kept)];
      assert chains == SplitFront(old(chains), f);
      assert chains[f + 1].shipId == target;
    }

    /** Attack the first open candidate, if any. */
    method Probe(cands: seq<Point>) returns (p: Point, found: bool)
      modifies attackedCells
      ensures var n := old(FirstOpen(cands));
        && (found <==> n < |cands|)
        && (found ==> p == cands[n] && old(Open(p)) && attackedCells[p.r, p.c] == '*')
      ensures !found ==> unchanged(attackedCells)
      ensures forall x, y :: 0 <= x < attackedCells.Length0 && 0 <= y < attackedCells.Length1 && Point(x, y) != p ==>
        attackedCells[x, y] == old(attackedCells[x, y])
    {
      var n := FirstOpenOf(cands);
      if n < |cands| {
        p := cands[n];
        MarkShot(p);
        return p, true;
      }
      return Point(0, 0), false;
    }

    /** The random fallback of findSpot (Player.cpp:606-614): some cell not attacked yet. */
    method RandomAttack() returns (p: Point)
      requires Valid()
      requires exists i, j :: 0 <= i < attackedCells.Length0 && 0 <= j < attackedCells.Length1 && attackedCells[i, j] == '.'
      modifies attackedCells
      ensures old(Open(p)) && attackedCells[p.r, p.c] == '*'
      ensures forall x, y :: 0 <= x < attackedCells.Length0 && 0 <= y < attackedCells.Length1 && Point(x, y) != p ==>
        attackedCells[x, y] == old(attackedCells[x, y])
    {
      var i, j :| 0 <= i < attackedCells.Length0 && 0 <= j < attackedCells.Length1 && attackedCells[i, j] == '.';
      p := Point(i, j);
      MarkShot(p);
    }

    /**
     * GoodPlayer::findSpot and recommendAttack (Player.cpp:453-617, 687-692):
     * the search state scans, the hunt state probes, and a hunt that finds
     * nothing open falls back to a random open cell.
     */
    method FindSpot() returns (p: Point)
      requires Valid()
      requires mState == 2 ==>
        exists i, j :: 0 <= i < attackedCells.Length0 && 0 <= j < attackedCells.Length1 && attackedCells[i, j] == '.'
      modifies this, attackedCells, densityGrid
      ensures Valid() && mState == old(mState) && target == old(target) && remaining == old(remaining)
      ensures old(TargetTracked()) ==> TargetTracked()
      ensures old(mState) == 1 ==> chains == old(chains)
      ensures old(mState) == 1 ==> forall x, y :: 0 <= x < densityGrid.Length0 && 0 <= y < densityGrid.Length1 ==>
        densityGrid[x, y] == old(Density(Point(x, y), remaining))
      ensures old(mState) == 2 ==> unchanged(densityGrid)
      ensures InGrid(p) && (old(Open(p)) || p == Point(0, 0))
      ensures forall x, y :: 0 <= x < attackedCells.Length0 && 0 <= y < attackedCells.Length1 && Point(x, y) != p ==>
        attackedCells[x, y] == old(attackedCells[x, y])
      ensures attackedCells[p.r, p.c] == '*' ||
        (old(mState) == 2 && FirstChainWithId(old(chains), target) == |old(chains)| && unchanged(attackedCells))
      ensures old(mState) == 1 && densityGrid[p.r, p.c] > 0 ==>
        forall x, y :: 0 <= x < densityGrid.Length0 && 0 <= y < densityGrid.Length1 ==>
          densityGrid[x, y] <= densityGrid[p.r, p.c] && (Before(Point(x, y), p) ==> densityGrid[x, y] < densityGrid[p.r, p.c])
      ensures old(mState) == 1 && densityGrid[p.r, p.c] <= 0 ==>
        && p == Point(0, 0)
        && forall x, y :: 0 <= x < densityGrid.Length0 && 0 <= y < densityGrid.Length1 ==> densityGrid[x, y] <= 0
      ensures old(mState) == 2 ==> var f := FirstChainWithId(old(chains), target);
        && (f == |old(chains)| ==> p == Point(0, 0) && chains == old(chains))
        && (f < |old(chains)| && old(chains)[f].pos == [] ==> chains == old(chains))
        && (f < |old(chains)| && old(chains)[f].pos != [] ==>
              var pos := old(chains)[f].pos;
              var line := if |pos| >= 2 then LineProbes(pos) else [];
              var m := old(FirstOpen(line));
              var n := old(FirstOpen(CrossProbes(pos[0])));
              && (m < |line| ==> p == line[m] && chains == old(chains))
              && (m == |line| ==> chains == (if |pos| >= 2 then SplitFront(old(chains), f) else old(chains)))
              && (m == |line| && n < 4 ==> p == CrossProbes(pos[0])[n]))
    {
      if mState == 1 {
        p := ScanAttack();
        return;
      }
      var found;
      p, found := Hunt();
      if !found {
        assert forall i, j :: 0 <= i < attackedCells.Length0 && 0 <= j < attackedCells.Length1 ==>
          attackedCells[i, j] == old(attackedCells[i, j]);
        p := RandomAttack();
      }
    }

    /**
     * GoodPlayer::placeRec (Player.cpp:393-427) with the random choices read
     * from draw(cursor), draw(cursor + 1), ...; `next` is the first draw not
     * consumed. Each call counts one attempt; past 1000 it fails.
     */
    method PlaceRec(b: BoardImpl, counter: int, k: int, draw: nat -> Draw, cursor: nat) returns (ok: bool, next: nat)
      requires b.Valid() && b.cat == cat && 0 <= k <= cat.nShips
      modifies b, b.grid
      decreases 1000 - counter, 0
      ensures b.Valid() && b.shipsLeft == old(b.shipsLeft) && b.kills == old(b.kills)
      ensures next >= cursor
      ensures ok ==> PlacedFrom(b.ships, old(b.ships), cat.nShips, k) && b.Painted(cat.nShips - k)
      ensures forall i, j :: 0 <= i < b.grid.Length0 && 0 <= j < b.grid.Length1 && old(b.grid[i, j]) != '.' ==>
        b.grid[i, j] == old(b.grid[i, j])
      ensures !ok ==> b.ships == old(b.ships)
      ensures !ok ==> forall i, j :: 0 <= i < b.grid.Length0 && 0 <= j < b.grid.Length1 ==>
        b.grid[i, j] == old(b.grid[i, j])
    {
      if k == cat.nShips {
        return true, cursor;
      }
      var tries := counter + 1;
      if tries > 1000 {
        return false, cursor;
      }
      var d := draw(cursor);
      var dir := if d.dir == 0 then Horizontal else Vertical;
      ok, next := TryPlace(b, tries, k, Point(d.r, d.c), dir, draw, cursor + 1);
      if ok {
        return;
      }
      ok, next := PlaceRec(b, tries, k, draw, next);
    }

    /** Place ship k as drawn, recurse on ship k + 1, and unplace ship k if that fails. */
    method TryPlace(b: BoardImpl, counter: int, k: int, origin: Point, dir: Direction, draw: nat -> Draw, cursor: nat)
      returns (ok: bool, next: nat)
      requires b.Valid() && b.cat == cat && 0 <= k < cat.nShips
      modifies b, b.grid
      decreases 1000 - counter, 2
      ensures b.Valid() && b.shipsLeft == old(b.shipsLeft) && b.kills == old(b.kills)
      ensures next >= cursor
      ensures ok ==> PlacedFrom(b.ships, old(b.ships), cat.nShips, k) && b.Painted(cat.nShips - k)
      ensures forall i, j :: 0 <= i < b.grid.Length0 && 0 <= j < b.grid.Length1 && old(b.grid[i, j]) != '.' ==>
        b.grid[i, j] == old(b.grid[i, j])
      ensures !ok ==> b.ships == old(b.ships)
      ensures !ok ==> forall i, j :: 0 <= i < b.grid.Length0 && 0 <= j < b.grid.Length1 ==>
        b.grid[i, j] == old(b.grid[i, j])
    {
      ghost var length := cat.ShipLength(k);
      if b.CanPlace(origin, k, dir) {
        b.EmptyFootprintCells(origin, length, dir);
      }
      var placed := b.PlaceShip(origin, k, dir);
      if !placed {
        return false, cursor;
      }
      ok, next := RecurseOrUndo(b, counter, k, origin, dir, draw, cursor);
      if !ok {
        forall i, j | 0 <= i < b.grid.Length0 && 0 <= j < b.grid.Length1
          ensures b.grid[i, j] == old(b.grid[i, j])
        {
          if OnFootprint(Point(i, j), origin, length, dir) {
            assert b.grid[i, j] == '.';
          }
        }
      }
    }

    /** The rest of that step, once ship k has been placed at `origin`. */
    method RecurseOrUndo(b: BoardImpl, counter: int, k: int, origin: Point, dir: Direction, draw: nat -> Draw, cursor: nat)
      returns (ok: bool, next: nat)
      requires b.Valid() && b.cat == cat && 0 <= k < cat.nShips
      requires |b.ships| > 0 && b.ships[0] == b.NewRecord(origin, k, dir) && b.Painted(1)
      modifies b, b.grid
      decreases 1000 - counter, 1
      ensures b.Valid() && b.shipsLeft == old(b.shipsLeft) && b.kills == old(b.kills)
      ensures next >= cursor
      ensures ok ==> PlacedFrom(b.ships, old(b.ships[1..]), cat.nShips, k) && b.Painted(cat.nShips - k)
      ensures ok ==> forall i, j :: 0 <= i < b.grid.Length0 && 0 <= j < b.grid.Length1 && old(b.grid[i, j]) != '.' ==>
        b.grid[i, j] == old(b.grid[i, j])
      ensures !ok ==> b.ships == old(b.ships[1..])
      ensures !ok ==> forall i, j :: 0 <= i < b.grid.Length0 && 0 <= j < b.grid.Length1 ==>
        b.grid[i, j] == if OnFootprint(Point(i, j), origin, cat.ShipLength(k), dir) then '.' else old(b.grid[i, j])
    {
      ghost var mid := b.ships;
      ok, next := PlaceRec(b, counter, k + 1, draw, cursor);
      if ok {
        assert b.ships[cat.nShips - (k + 1)..] == mid;
        assert b.ships[cat.nShips - k..] == mid[1..];
        assert !Reserved(mid[0].symbol) by {
          assert b.RecordOk(mid[0]);
        }
        assert b.ships[cat.nShips - k - 1] == mid[0];
        forall i, j | 0 <= i < b.grid.Length0 && 0 <= j < b.grid.Length1 && b.Covers(mid[0], Point(i, j))
          ensures b.grid[i, j] == mid[0].symbol
        {
        }
        b.PaintedNext(cat.nShips - k - 1);
        return;
      }
      b.UnplaceHead(origin, k, dir);
    }

    /** GoodPlayer::placeShips (Player.cpp:680-685): placeRec from ship 0 with a fresh counter. */
    method PlaceShips(b: BoardImpl, draw: nat -> Draw) returns (ok: bool)
      requires b.Valid() && b.cat == cat
      modifies b, b.grid
      ensures b.Valid() && b.shipsLeft == old(b.shipsLeft)
      ensures ok ==> PlacedFrom(b.ships, old(b.ships), cat.nShips, 0) && b.Painted(cat.nShips)
      ensures !ok ==> b.ships == old(b.ships)
      ensures !ok ==> forall i, j :: 0 <= i < b.grid.Length0 && 0 <= j < b.grid.Length1 ==>
        b.grid[i, j] == old(b.grid[i, j])
    {
      assert 0 <= cat.nShips by {
        assert b.cat.Valid();
      }
      var next;
      ok, next := PlaceRec(b, 0, 0, draw, 0);
    }

    /** The id one past the last chain's, as recordAttackResult computes a new target (Player.cpp:699-708). */
    static function NextId(chains: seq<Chain>): int
    {
      if chains == [] then 0 else chains[|chains| - 1].shipId + 1
    }

    /**
     * GoodPlayer::recordAttackResult (Player.cpp:693-825). A shot outside the
     * board changes nothing, nor does a miss. A hit enters the hunt state: with
     * no chain of the target id a new chain holds just this hit; otherwise the
     * hit joins the target chain and, on a kill, the chain is closed, the first
     * remaining entry of the sunk ship's length is struck off, and either the
     * extra hits split off into a new target chain or the first live chain
     * becomes the target (the search state when there is none).
     */
    method RecordAttackResult(p: Point, validShot: bool, shotHit: bool, shipDestroyed: bool, shipId: int)
      requires Valid()
      modifies this
      ensures Valid()
      ensures validShot && shotHit ==> TargetTracked()
      ensures old(TargetTracked()) ==> TargetTracked()
      ensures !(validShot && shotHit) ==>
        chains == old(chains) && remaining == old(remaining) && mState == old(mState) && target == old(target)
      ensures validShot && shotHit && FirstChainWithId(old(chains), old(target)) == |old(chains)| ==>
        && target == NextId(old(chains)) && mState == 2
        && chains == [Chain(target, false, [p])] + old(chains) && remaining == old(remaining)
      ensures var f := FirstChainWithId(old(chains), old(target));
        validShot && shotHit && f < |old(chains)| && !shipDestroyed ==>
          && chains == old(chains)[f := old(chains)[f].(pos := old(chains)[f].pos + [p])]
          && target == old(target) && mState == 2 && remaining == old(remaining)
      ensures var f := FirstChainWithId(old(chains), old(target));
        validShot && shotHit && f < |old(chains)| && shipDestroyed ==>
          var length := cat.ShipLength(shipId);
          var closed := old(chains)[f].(pos := old(chains)[f].pos + [p], destroyed := true);
          && remaining == StrikeOff(old(remaining), length)
          && (length >= 0 && |closed.pos| > length ==>
                var marked := MarkKilled(closed.pos, length);
                && chains == [Chain(closed.shipId + 1, false, Survivors(marked))] + old(chains)[f := closed.(pos := marked)]
                && target == closed.shipId + 1 && mState == 2)
          && (!(length >= 0 && |closed.pos| > length) ==>
                && chains == old(chains)[f := closed]
                && var g := FirstLive(chains);
                && (g < |chains| ==> target == chains[g].shipId && mState == 2)
                && (g == |chains| ==> target == -1 && mState == 1))
    {
      if !validShot || !shotHit {
        return;
      }
      mState := 2;
      var f, temp := FindTarget(chains, target);
      if f == |chains| {
        target := temp + 1;
        chains := [Chain(target, false, [p])] + chains;
        return;
      }
      ExtendChain(f, p, shipDestroyed, shipId);
    }

    /** A hit on the target chain f (Player.cpp:718-819): append it, and close the chain on a kill. */
    method ExtendChain(f: nat, p: Point, shipDestroyed: bool, shipId: int)
      requires Valid() && mState == 2 && f < |chains| && f == FirstChainWithId(chains, target)
      modifies this
      ensures Valid() && TargetTracked()
      ensures !shipDestroyed ==>
        && chains == old(chains)[f := old(chains)[f].(pos := old(chains)[f].pos + [p])]
        && target == old(target) && mState == 2 && remaining == old(remaining)
      ensures shipDestroyed ==>
        var length := cat.ShipLength(shipId);
        var closed := old(chains)[f].(pos := old(chains)[f].pos + [p], destroyed := true);
        && remaining == StrikeOff(old(remaining), length)
        && (length >= 0 && |closed.pos| > length ==>
              var marked := MarkKilled(closed.pos, length);
              && chains == [Chain(closed.shipId + 1, false, Survivors(marked))] + old(chains)[f := closed.(pos := marked)]
              && target == closed.shipId + 1 && mState == 2)
        && (!(length >= 0 && |closed.pos| > length) ==>
              && chains == old(chains)[f := closed]
              && var g := FirstLive(chains);
              && (g < |chains| ==> target == chains[g].shipId && mState == 2)
              && (g == |chains| ==> target == -1 && mState == 1))
    {
      chains := chains[f := chains[f].(pos := chains[f].pos + [p])];
      if shipDestroyed {
        CloseChain(f, shipId);
      } else {
        assert chains[f].shipId == target;
      }
    }

    /** The kill branch of recordAttackResult (Player.cpp:722-819). */
    method CloseChain(f: nat, shipId: int)
      requires Valid() && f < |chains| && chains[f].pos != []
      modifies this
      ensures Valid() && TargetTracked()
      ensures var length := cat.ShipLength(shipId);
        var closed := old(chains)[f].(destroyed := true);
        && remaining == StrikeOff(old(remaining), length)
        && (length >= 0 && |closed.pos| > length ==>
              var marked := MarkKilled(closed.pos, length);
              && chains == [Chain(closed.shipId + 1, false, Survivors(marked))] + old(chains)[f := closed.(pos := marked)]
              && target == closed.shipId + 1 && mState == 2)
        && (!(length >= 0 && |closed.pos| > length) ==>
              && chains == old(chains)[f := closed]
              && var g := FirstLive(chains);
              && (g < |chains| ==> target == chains[g].shipId && mState == 2)
              && (g == |chains| ==> target == -1 && mState == 1))
    {
      var length := cat.ShipLength(shipId);
      var g := FindLength(remaining, length);
      var rs := remaining;
      if g < |rs| {
        rs := rs[g := rs[g].(destroyed := true)];
      }
      var cs, t, st := Retarget(chains, f, length);
      remaining, chains, target, mState := rs, cs, t, st;
    }
  }

  /**
   * The chain bookkeeping of the kill branch (Player.cpp:733-819): the target
   * chain is closed; when it holds more hits than the sunk ship's length, its
   * marked run stays behind and the unmarked hits form a new chain that
   * becomes the target; otherwise the first live chain becomes the target, or
   * the player goes back to searching.
   */
  method Retarget(chains: seq<Chain>, f: nat, length: int) returns (chains': seq<Chain>, target: int, state: int)
    requires f < |chains| && chains[f].pos != []
    ensures state == 1 || state == 2
    ensures state == 2 ==> FirstChainWithId(chains', target) < |chains'|
    ensures var closed := chains[f].(destroyed := true);
      && (length >= 0 && |closed.pos| > length ==>
            var marked := MarkKilled(closed.pos, length);
            && chains' == [Chain(closed.shipId + 1, false, Survivors(marked))] + chains[f := closed.(pos := marked)]
            && target == closed.shipId + 1 && state == 2)
      && (!(length >= 0 && |closed.pos| > length) ==>
            && chains' == chains[f := closed]
            && var g := FirstLive(chains');
            && (g < |chains'| ==> target == chains'[g].shipId && state == 2)
            && (g == |chains'| ==> target == -1 && state == 1))
  {
    var closed := chains[f].(destroyed := true);
    if length >= 0 && |closed.pos| > length {
      var marked, kept := SplitKilled(closed.pos, length);
      chains' := [Chain(closed.shipId + 1, false, kept)] + chains[f := closed.(pos := marked)];
      return chains', closed.shipId + 1, 2;
    }
    chains' := chains[f := closed];
    var h := FindLive(chains');
    if h < |chains'| {
      target, state := chains'[h].shipId, 2;
    } else {
      target, state := -1, 1;
    }
  }

  /** The marking and the copy of the kill split (Player.cpp:736-803). */
  method SplitKilled(pos: seq<Point>, length: nat) returns (marked: seq<Point>, kept: seq<Point>)
    requires pos != []
    ensures marked == MarkKilled(pos, length) && kept == Survivors(marked)
  {
    var last := pos[|pos| - 1];
    var vertical := pos[0].c == last.c;
    var toward := if vertical then pos[0].r < last.r else pos[0].c < last.c;
    marked := MarkRun(pos, length, vertical, toward);
    kept := SurvivorsOf(marked);
  }

  /** Row-major order of the scans. */
  predicate Before(a: Point, b: Point)
  {
    a.r < b.r || (a.r == b.r && a.c < b.c)
  }

  /** The hunt's split of a chain after its first hit (Player.cpp:566-578). */
  function SplitFront(chains: seq<Chain>, f: nat): (split: seq<Chain>)
    requires f < |chains| && chains[f].pos != []
    ensures |split| == |chains| + 1
    ensures split[0] == Chain(chains[f].shipId + 1, false, chains[f].pos[1..])
    ensures split[f + 1] == chains[f].(pos := [chains[f].pos[0]])
    ensures split[f + 1].pos + split[0].pos == chains[f].pos
    ensures forall j :: 0 <= j < |chains| && j != f ==> split[j + 1] == chains[j]
  {
    assert chains[f].pos[..1] == [chains[f].pos[0]];
    [Chain(chains[f].shipId + 1, false, chains[f].pos[1..])] + chains[f := chains[f].(pos := chains[f].pos[..1])]
  }

  /** The target search of findSpot and recordAttackResult. */
  method FindChain(chains: seq<Chain>, id: int) returns (f: nat)
    ensures f == FirstChainWithId(chains, id)
  {
    f := 0;
    while f < |chains| && chains[f].shipId != id
      invariant f <= |chains|
      invariant forall j :: 0 <= j < f ==> chains[j].shipId != id
    {
      f := f + 1;
    }
  }

  /** The most-recent-end scan (Player.cpp:514-517, 540-543). */
  method RecentEndOf(xs: seq<int>) returns (last: int)
    ensures last == RecentEnd(xs)
  {
    last := 0;
    var i := 0;
    while i < |xs| && xs[i] != -1
      invariant i <= |xs|
      invariant forall j :: 0 <= j < i ==> xs[j] != -1
      invariant last == if i == 0 then 0 else xs[i - 1]
    {
      last := xs[i];
      i := i + 1;
    }
  }

  method LineProbesOf(pos: seq<Point>) returns (line: seq<Point>)
    requires |pos| >= 2
    ensures line == LineProbes(pos)
  {
    var p0, p1 := pos[0], pos[1];
    line := [];
    if p0.r == p1.r {
      var cl := RecentEndOf(Cols(pos));
      line := [Point(p0.r, cl + 1), Point(p0.r, cl - 1), Point(p0.r, p0.c + 1), Point(p0.r, p0.c - 1)];
    }
    if p0.c == p1.c {
      var rl := RecentEndOf(Rows(pos));
      line := line + [Point(rl + 1, p0.c), Point(rl - 1, p0.c), Point(p0.r - 1, p0.c), Point(p0.r + 1, p0.c)];
    }
  }

  /** The erase loop of the hunt's split (Player.cpp:572-577). */
  method MoveTail(pos: seq<Point>) returns (kept: seq<Point>, moved: seq<Point>)
    requires pos != []
    ensures kept == [pos[0]] && moved == pos[1..]
    ensures kept + moved == pos
  {
    kept, moved := pos, [];
    while |kept| > 1
      invariant 1 <= |kept| && kept[0] == pos[0]
      invariant [pos[0]] + moved + kept[1..] == pos
    {
      moved := moved + [kept[1]];
      kept := [kept[0]] + kept[2..];
    }
  }

  /** Finding the target chain while remembering the last id visited (Player.cpp:699-705). */
  method FindTarget(chains: seq<Chain>, id: int) returns (f: nat, temp: int)
    ensures f == FirstChainWithId(chains, id)
    ensures f < |chains| ==> temp == id
    ensures f == |chains| ==> temp + 1 == GoodPlayer.NextId(chains)
  {
    f, temp := 0, -1;
    while f < |chains|
      invariant f <= |chains|
      invariant forall j :: 0 <= j < f ==> chains[j].shipId != id
      invariant temp == if f == 0 then -1 else chains[f - 1].shipId
    {
      temp := chains[f].shipId;
      if temp == id {
        return;
      }
      f := f + 1;
    }
  }

  /** The search for the first live chain (Player.cpp:811-817). */
  method FindLive(chains: seq<Chain>) returns (g: nat)
    ensures g == FirstLive(chains)
  {
    g := 0;
    while g < |chains| && chains[g].destroyed
      invariant g <= |chains|
      invariant forall j :: 0 <= j < g ==> chains[j].destroyed
    {
      g := g + 1;
    }
  }

  /** The search for the first remaining entry of a length (Player.cpp:726-730). */
  method FindLength(rs: seq<Remaining>, length: int) returns (g: nat)
    ensures g == FirstWithLength(rs, length)
  {
    g := 0;
    while g < |rs| && rs[g].length != length
      invariant g <= |rs|
      invariant forall j :: 0 <= j < g ==> rs[j].length != length
    {
      g := g + 1;
    }
  }

  /** Striking off the first entry of the sunk ship's length, whether or not it was already struck. */
  function StrikeOff(rs: seq<Remaining>, length: int): (rs': seq<Remaining>)
    ensures |rs'| == |rs|
    ensures forall j :: 0 <= j < |rs| && j != FirstWithLength(rs, length) ==> rs'[j] == rs[j]
    ensures FirstWithLength(rs, length) < |rs| ==> rs'[FirstWithLength(rs, length)].destroyed
  {
    var g := FirstWithLength(rs, length);
    if g < |rs| then rs[g := rs[g].(destroyed := true)] else rs
  }

  /** The coordinate the kill split compares: the row of a vertical chain, else the column. */
  function Coord(q: Point, vertical: bool): int
  {
    if vertical then q.r else q.c
  }

  /** The split's mark: that coordinate set to -10 (Player.cpp:759, 770, 782, 793). */
  function MarkPoint(q: Point, vertical: bool): Point
  {
    if vertical then q.(r := -10) else q.(c := -10)
  }

  predicate Marked(q: Point)
  {
    q.r == -10 || q.c == -10
  }

  /** Index of the first point whose compared coordinate is key, or |pos|. */
  function FirstWithCoord(pos: seq<Point>, key: int, vertical: bool): (j: nat)
    ensures j <= |pos|
    ensures j < |pos| ==> Coord(pos[j], vertical) == key
    ensures forall i {:trigger Coord(pos[i], vertical)} :: 0 <= i < j ==> Coord(pos[i], vertical) != key
  {
    if pos == [] then 0
    else if Coord(pos[0], vertical) == key then 0
    else 1 + FirstWithCoord(pos[1..], key, vertical)
  }

  /**
   * The marking walk (Player.cpp:752-798): `steps` times, look for the first
   * point one step further (toward smaller coordinates when `toward`) from the
   * current one; when there is one, mark the current point and move to it.
   */
  function MarkSteps(pos: seq<Point>, cur: nat, steps: nat, vertical: bool, toward: bool): (marked: seq<Point>)
    requires cur < |pos|
    ensures |marked| == |pos|
    decreases steps
  {
    if steps == 0 then pos
    else
      var key := Coord(pos[cur], vertical) + (if toward then -1 else 1);
      var j := FirstWithCoord(pos, key, vertical);
      if j == |pos| then MarkSteps(pos, cur, steps - 1, vertical, toward)
      else MarkSteps(pos[cur := MarkPoint(pos[cur], vertical)], j, steps - 1, vertical, toward)
  }

  /** The kill split's walk from the kill shot, in the direction the first and last hits give (Player.cpp:736-750). */
  function MarkKilled(pos: seq<Point>, length: nat): (marked: seq<Point>)
    requires pos != []
    ensures |marked| == |pos|
  {
    var last := pos[|pos| - 1];
    var vertical := pos[0].c == last.c;
    var toward := if vertical then pos[0].r < last.r else pos[0].c < last.c;
    MarkSteps(pos, |pos| - 1, length, vertical, toward)
  }

  /** The points left unmarked, in order (Player.cpp:800-803). */
  function Survivors(pos: seq<Point>): (kept: seq<Point>)
    ensures |kept| <= |pos|
    ensures forall i :: 0 <= i < |kept| ==> !Marked(kept[i])
  {
    if pos == [] then []
    else Survivors(pos[..|pos| - 1]) + (if Marked(pos[|pos| - 1]) then [] else [pos[|pos| - 1]])
  }

  /** The inner search of the marking walk. */
  method FindCoord(pos: seq<Point>, key: int, vertical: bool) returns (j: nat)
    ensures j == FirstWithCoord(pos, key, vertical)
  {
    j := 0;
    while j < |pos| && Coord(pos[j], vertical) != key
      invariant j <= |pos|
      invariant forall i :: 0 <= i < j ==> Coord(pos[i], vertical) != key
    {
      j := j + 1;
    }
  }

  /** The marking loops of the kill split (Player.cpp:752-798). */
  method MarkRun(pos: seq<Point>, length: nat, vertical: bool, toward: bool) returns (marked: seq<Point>)
    requires pos != []
    ensures marked == MarkSteps(pos, |pos| - 1, length, vertical, toward)
  {
    marked := pos;
    var cur: nat := |pos| - 1;
    var i := 0;
    while i < length
      invariant 0 <= i <= length && |marked| == |pos| && cur < |marked|
      invariant MarkSteps(marked, cur, length - i, vertical, toward) == MarkSteps(pos, |pos| - 1, length, vertical, toward)
    {
      var key := Coord(marked[cur], vertical) + (if toward then -1 else 1);
      var j := FindCoord(marked, key, vertical);
      if j < |marked| {
        marked := marked[cur := MarkPoint(marked[cur], vertical)];
        cur := j;
      }
      i := i + 1;
    }
  }

  /** The copy of the unmarked points into the new chain (Player.cpp:800-803). */
  method SurvivorsOf(pos: seq<Point>) returns (kept: seq<Point>)
    ensures kept == Survivors(pos)
  {
    kept := [];
    var i := 0;
    while i < |pos|
      invariant 0 <= i <= |pos|
      invariant kept == Survivors(pos[..i])
    {
      assert pos[..i + 1][..i] == pos[..i];
      if !Marked(pos[i]) {
        kept := kept + [pos[i]];
      }
      i := i + 1;
    }
    assert pos[..i] == pos;
  }

  /** Every unmarked point of the chain, and only those, is kept. */
  lemma {:induction false} SurvivorsMembers(pos: seq<Point>, q: Point)
    ensures q in Survivors(pos) <==> q in pos && !Marked(q)
    decreases |pos|
  {
    if pos != [] {
      var front := pos[..|pos| - 1];
      SurvivorsMembers(front, q);
      assert pos == front + [pos[|pos| - 1]];
    }
  }

  /** The chain with the points from index `from` on marked, as the walk leaves a straight run. */
  function MarkedFrom(pos: seq<Point>, from: int, vertical: bool): (marked: seq<Point>)
    ensures |marked| == |pos|
  {
    seq(|pos|, j requires 0 <= j < |pos| => if j < from then pos[j] else MarkPoint(pos[j], vertical))
  }

  /** A straight run of hits from `start`, one cell apart, in the order they were made. */
  predicate StraightRun(pos: seq<Point>, start: Point, dir: Direction)
  {
    forall j {:trigger FootCell(start, j, dir)} :: 0 <= j < |pos| ==> pos[j] == FootCell(start, j, dir)
  }

  /** The walk on a straight run, from hit cur with the later hits marked, marks `steps` more hits. */
  lemma {:induction false} RunWalk(pos: seq<Point>, start: Point, dir: Direction, cur: nat, steps: nat)
    requires StraightRun(pos, start, dir) && start.r >= 0 && start.c >= 0
    requires steps <= cur < |pos|
    ensures MarkSteps(MarkedFrom(pos, cur + 1, dir == Vertical), cur, steps, dir == Vertical, true) == MarkedFrom(pos, cur + 1 - steps, dir == Vertical)
    decreases steps
  {
    if steps > 0 {
      WalkStep(pos, start, dir, cur, steps);
      RunWalk(pos, start, dir, cur - 1, steps - 1);
    }
  }

  /** One step of the walk on a straight run finds the previous hit and marks the current one. */
  lemma WalkStep(pos: seq<Point>, start: Point, dir: Direction, cur: nat, steps: nat)
    requires StraightRun(pos, start, dir) && start.r >= 0 && start.c >= 0
    requires 0 < steps <= cur < |pos|
    ensures MarkSteps(MarkedFrom(pos, cur + 1, dir == Vertical), cur, steps, dir == Vertical, true)
      == MarkSteps(MarkedFrom(pos, cur, dir == Vertical), cur - 1, steps - 1, dir == Vertical, true)
  {
    var vertical := dir == Vertical;
    var m := MarkedFrom(pos, cur + 1, vertical);
    RunPrevious(pos, m, start, dir, cur);
    RunMarkOne(pos, m, cur, vertical);
    MarkStepsFound(m, cur, steps, vertical, cur - 1, MarkedFrom(pos, cur, vertical));
  }

  /** One step of the marking walk when the search finds point j. */
  lemma MarkStepsFound(pos: seq<Point>, cur: nat, steps: nat, vertical: bool, j: nat, next: seq<Point>)
    requires cur < |pos| && steps > 0 && j < |pos|
    requires FirstWithCoord(pos, Coord(pos[cur], vertical) - 1, vertical) == j
    requires next == pos[cur := MarkPoint(pos[cur], vertical)]
    ensures MarkSteps(pos, cur, steps, vertical, true) == MarkSteps(next, j, steps - 1, vertical, true)
  {
  }

  /** On a straight run the search from hit cur (cur > 0) stops at hit cur - 1. */
  lemma RunPrevious(pos: seq<Point>, m: seq<Point>, start: Point, dir: Direction, cur: nat)
    requires StraightRun(pos, start, dir) && start.r >= 0 && start.c >= 0
    requires 0 < cur < |pos|
    requires m == MarkedFrom(pos, cur + 1, dir == Vertical)
    ensures FirstWithCoord(m, Coord(m[cur], dir == Vertical) - 1, dir == Vertical) == cur - 1
  {
    var vertical := dir == Vertical;
    var key := Coord(m[cur], vertical) - 1;
    assert m[cur] == FootCell(start, cur, dir) && m[cur - 1] == FootCell(start, cur - 1, dir);
    assert Coord(m[cur - 1], vertical) == key;
    forall i | 0 <= i < cur - 1
      ensures Coord(m[i], vertical) != key
    {
      assert m[i] == FootCell(start, i, dir);
    }
  }

  /** Marking hit cur extends the marked suffix by one. */
  lemma RunMarkOne(pos: seq<Point>, m: seq<Point>, cur: nat, vertical: bool)
    requires cur < |pos| && m == MarkedFrom(pos, cur + 1, vertical)
    ensures m[cur := MarkPoint(m[cur], vertical)] == MarkedFrom(pos, cur, vertical)
  {
  }

  /** Marking the points from `from` on leaves exactly the hits before it. */
  lemma {:induction false} SurvivorsOfMarked(pos: seq<Point>, from: int, vertical: bool)
    requires 0 <= from <= |pos|
    requires forall j :: 0 <= j < |pos| ==> !Marked(pos[j])
    ensures Survivors(MarkedFrom(pos, from, vertical)) == pos[..from]
    decreases |pos|
  {
    if pos != [] {
      var last := |pos| - 1;
      var front := pos[..last];
      var m := MarkedFrom(pos, from, vertical);
      if from == |pos| {
        assert m[..last] == MarkedFrom(front, last, vertical);
        SurvivorsOfMarked(front, last, vertical);
        assert m[last] == pos[last];
        assert pos[..from] == front + [pos[last]];
      } else {
        assert m[..last] == MarkedFrom(front, from, vertical);
        SurvivorsOfMarked(front, from, vertical);
        assert Marked(m[last]);
      }
    }
  }

  /**
   * The kill split on a straight run of hits ending with the kill shot: the
   * last `length` hits go with the sunk ship and the earlier ones form the
   * new chain, in order.
   */
  lemma {:induction false} StraightRunSplit(pos: seq<Point>, start: Point, dir: Direction, length: nat)
    requires StraightRun(pos, start, dir) && start.r >= 0 && start.c >= 0
    requires length < |pos|
    ensures Survivors(MarkKilled(pos, length)) == pos[..|pos| - length]
  {
    var n := |pos|;
    var vertical := dir == Vertical;
    RunUnmarked(pos, start, dir);
    if length == 0 {
      assert MarkKilled(pos, length) == pos;
      assert MarkedFrom(pos, n, vertical) == pos;
      SurvivorsOfMarked(pos, n, vertical);
    } else {
      RunMarks(pos, start, dir, length);
      SurvivorsOfMarked(pos, n - length, vertical);
    }
  }

  /** On a straight run the walk marks exactly the last `length` hits. */
  lemma {:induction false} RunMarks(pos: seq<Point>, start: Point, dir: Direction, length: nat)
    requires StraightRun(pos, start, dir) && start.r >= 0 && start.c >= 0
    requires 1 <= length < |pos|
    ensures MarkKilled(pos, length) == MarkedFrom(pos, |pos| - length, dir == Vertical)
  {
    var n := |pos|;
    assert pos[0] == FootCell(start, 0, dir) && pos[n - 1] == FootCell(start, n - 1, dir);
    RunWalkFromEnd(pos, start, dir, length);
  }

  lemma {:induction false} RunWalkFromEnd(pos: seq<Point>, start: Point, dir: Direction, steps: nat)
    requires StraightRun(pos, start, dir) && start.r >= 0 && start.c >= 0
    requires steps < |pos|
    ensures MarkSteps(pos, |pos| - 1, steps, dir == Vertical, true) == MarkedFrom(pos, |pos| - steps, dir == Vertical)
  {
    MarkedFromEnd(pos, dir == Vertical);
    RunWalk(pos, start, dir, |pos| - 1, steps);
  }

  /** Marking from the end marks nothing. */
  lemma MarkedFromEnd(pos: seq<Point>, vertical: bool)
    ensures MarkedFrom(pos, |pos|, vertical) == pos
  {
  }

  lemma RunUnmarked(pos: seq<Point>, start: Point, dir: Direction)
    requires StraightRun(pos, start, dir) && start.r >= 0 && start.c >= 0
    ensures forall j :: 0 <= j < |pos| ==> !Marked(pos[j])
  {
    forall j | 0 <= j < |pos|
      ensures !Marked(pos[j])
    {
      assert pos[j] == FootCell(start, j, dir);
    }
  }
}
