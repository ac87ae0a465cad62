/**
 * Locations on the electrode grid and the grid helpers the planner relies on
 * (`neighbors4`, `neighbors_dimensions`, `Droplet::get_locations`,
 * `Location::distance_to`). The grid is the set of its electrode locations.
 */
module Geometry {

  /** A grid cell, `(y, x)`; also used for droplet dimensions. */
  datatype Location = Location(y: int, x: int)

  /** The electrodes that exist on the board. */
  datatype Grid = Grid(cells: set<Location>)

  function Abs(n: int): nat { if n < 0 then -n else n }

  /** `distance_to`: Manhattan distance. */
  function DistanceTo(a: Location, b: Location): (d: nat)
    ensures d == 0 <==> a == b
  {
    Abs(a.y - b.y) + Abs(a.x - b.x)
  }

  /** Chebyshev distance, the separation measure of the collision rule. */
  function Chebyshev(a: Location, b: Location): (d: nat)
    ensures d >= Abs(a.y - b.y) && d >= Abs(a.x - b.x)
    ensures d == Abs(a.y - b.y) || d == Abs(a.x - b.x)
  {
    if Abs(a.y - b.y) < Abs(a.x - b.x) then Abs(a.x - b.x) else Abs(a.y - b.y)
  }

  /** The four cardinal neighbours of `loc`, in a fixed order, before the grid filter. */
  function Cardinal(loc: Location): seq<Location>
  {
    [Location(loc.y - 1, loc.x), Location(loc.y, loc.x - 1),
     Location(loc.y + 1, loc.x), Location(loc.y, loc.x + 1)]
  }

  function FilterCells(grid: Grid, s: seq<Location>): (r: seq<Location>)
    ensures forall l :: l in r <==> l in s && l in grid.cells
    ensures |r| <= |s|
  {
    if s == [] then []
    else if s[0] in grid.cells then [s[0]] + FilterCells(grid, s[1..])
    else FilterCells(grid, s[1..])
  }

  /** `Grid::neighbors4`: the cardinal neighbours of `loc` that are electrodes. */
  function Neighbors4(grid: Grid, loc: Location): (r: seq<Location>)
    ensures forall l :: l in r <==> l in grid.cells && DistanceTo(loc, l) == 1
    ensures |r| <= 4
  {
    var r := FilterCells(grid, Cardinal(loc));
    assert forall l :: DistanceTo(loc, l) == 1 <==> l in Cardinal(loc);
    r
  }

  /** The cells a droplet of the given dimensions at `loc` covers. */
  predicate InFootprint(loc: Location, dims: Location, l: Location)
  {
    loc.y <= l.y < loc.y + dims.y && loc.x <= l.x < loc.x + dims.x
  }

  /** `Droplet::get_locations`: the rectangle covered, grid or not. */
  function GetLocations(loc: Location, dims: Location): (r: set<Location>)
    ensures forall l :: l in r <==> InFootprint(loc, dims, l)
  {
    set y, x | loc.y <= y < loc.y + dims.y && loc.x <= x < loc.x + dims.x :: Location(y, x)
  }

  /**
   * `Grid::neighbors_dimensions`: the electrodes in the footprint of a droplet of
   * the given dimensions or next to it, diagonals included.
   */
  predicate InNeighbourhood(loc: Location, dims: Location, l: Location)
  {
    dims.y >= 1 && dims.x >= 1 &&
    loc.y - 1 <= l.y <= loc.y + dims.y && loc.x - 1 <= l.x <= loc.x + dims.x
  }

  function NeighborsDimensions(grid: Grid, loc: Location, dims: Location): (r: set<Location>)
    ensures forall l :: l in r <==> l in grid.cells && InNeighbourhood(loc, dims, l)
  {
    set l | l in grid.cells && InNeighbourhood(loc, dims, l)
  }

  /** For a 1x1 droplet, the neighbourhood is the cells within Chebyshev distance 1. */
  lemma UnitNeighbourhood(grid: Grid, loc: Location, l: Location)
    ensures l in NeighborsDimensions(grid, loc, Location(1, 1))
        <==> l in grid.cells && Chebyshev(loc, l) <= 1
  {
  }
}
