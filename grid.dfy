/** The rectangular occupancy grid the simulation runs on.

    Field.java and Location.java are not part of this model. This module is a
    minimal stand-in that offers only the operations the agents call:
    getObjectAt, place, clear, clear (all), adjacentLocations,
    getFreeAdjacentLocations, freeAdjacentLocation, getDepth and getWidth.
    A cell that holds nothing is a location absent from `cells`.

    The field lists a neighbourhood in a random order. Here that order is an
    input: a shuffle of the eight compass directions, of which the in-bounds
    ones are kept. Every order of the in-bounds neighbours arises this way. */
module Grid {

  datatype Option<+T> = None | Some(value: T)

  /** A cell coordinate, compared by components. */
  datatype Location = Location(row: int, col: int)

  /** The cell one step from `l` in direction `d`: the directions number the
      eight cells around `l` row by row, skipping `l` itself. */
  function Towards(l: Location, d: nat): (m: Location)
    requires d < 8
    ensures IsNeighbour(l, m)
  {
    var k := if d < 4 then d else d + 1;
    Location(l.row + k / 3 - 1, l.col + k % 3 - 1)
  }

  /** Different directions lead to different cells. */
  lemma TowardsInjective(l: Location, d1: nat, d2: nat)
    requires d1 < 8 && d2 < 8 && Towards(l, d1) == Towards(l, d2)
    ensures d1 == d2
  {
    var k1 := if d1 < 4 then d1 else d1 + 1;
    var k2 := if d2 < 4 then d2 else d2 + 1;
    assert k1 == 3 * (k1 / 3) + k1 % 3 && k2 == 3 * (k2 / 3) + k2 % 3;
  }

  /** `m` is one of the eight cells around `l` (bounds aside). */
  predicate IsNeighbour(l: Location, m: Location)
  {
    m != l && -1 <= m.row - l.row <= 1 && -1 <= m.col - l.col <= 1
  }

  /** A permutation of the eight directions: the random order of one neighbourhood query. */
  predicate IsShuffle(order: seq<nat>)
  {
    && |order| == 8
    && (forall i | 0 <= i < 8 :: order[i] < 8)
    && (forall i, j | 0 <= i < j < 8 :: order[i] != order[j])
    && (forall d: nat | d < 8 :: d in order)
  }

  predicate Distinct<T(==)>(s: seq<T>)
  {
    forall i, j | 0 <= i < j < |s| :: s[i] != s[j]
  }

  function Min(a: int, b: int): int
  {
    if a <= b then a else b
  }

  lemma NeighbourIsTowards(l: Location, m: Location) returns (d: nat)
    requires IsNeighbour(l, m)
    ensures d < 8 && Towards(l, d) == m
  {
    var dr, dc := m.row - l.row, m.col - l.col;
    d := if dr == -1 then dc + 1 else if dr == 0 then (if dc == -1 then 3 else 4) else 6 + dc;
  }

  /** The members of `locs` outside `taken`, in the same order. */
  function FreeAmong(taken: set<Location>, locs: seq<Location>): (r: seq<Location>)
    ensures forall m {:trigger m in r} :: m in r <==> m in locs && m !in taken
    ensures forall i | 0 <= i < |r| :: r[i] in locs && r[i] !in taken
    ensures Distinct(locs) ==> Distinct(r)
  {
    if |locs| == 0 then []
    else
      var rest := FreeAmong(taken, locs[1..]);
      assert forall m :: m in locs[1..] ==> m in locs;
      (if locs[0] !in taken then [locs[0]] else []) + rest
  }

  /** The head of a list, if it has one. */
  function First<T>(s: seq<T>): (r: Option<T>)
    ensures r.None? <==> |s| == 0
    ensures r.Some? ==> r.value == s[0]
  {
    if |s| == 0 then None else Some(s[0])
  }

  /** The set of elements of a sequence. */
  function Elements<T>(s: seq<T>): set<T>
  {
    set x | x in s
  }

  class Field<T(==)> {
    const depth: nat
    const width: nat
    /** The occupied cells and their occupants. */
    var cells: map<Location, T>

    predicate InBounds(l: Location)
    {
      0 <= l.row < depth && 0 <= l.col < width
    }

    ghost predicate Valid()
      reads this
    {
      forall l | l in cells :: InBounds(l)
    }

    constructor (depth: nat, width: nat)
      ensures this.depth == depth && this.width == width
      ensures cells == map[] && Valid()
    {
      this.depth := depth;
      this.width := width;
      cells := map[];
    }

    function GetObjectAt(l: Location): Option<T>
      reads this
      requires InBounds(l)
    {
      if l in cells then Some(cells[l]) else None
    }

    /** Puts `x` in cell `l`, overwriting whatever was there. */
    method Place(x: T, l: Location)
      requires InBounds(l)
      modifies this
      ensures cells == old(cells)[l := x]
    {
      cells := cells[l := x];
    }

    method Clear(l: Location)
      requires InBounds(l)
      modifies this
      ensures cells == old(cells) - {l}
    {
      cells := cells - {l};
    }

    /** Empties every cell. */
    method ClearAll()
      modifies this
      ensures cells == map[]
    {
      cells := map[];
    }

    /** The in-bounds cells reached from `l` along the directions `dirs`, in that order. */
    function Follow(l: Location, dirs: seq<nat>): (r: seq<Location>)
      requires forall i | 0 <= i < |dirs| :: dirs[i] < 8
      ensures forall m {:trigger m in r} :: m in r <==> InBounds(m) && exists i | 0 <= i < |dirs| :: Towards(l, dirs[i]) == m
      ensures forall i | 0 <= i < |r| :: InBounds(r[i])
      ensures Distinct(dirs) ==> Distinct(r)
    {
      if |dirs| == 0 then []
      else
        var m := Towards(l, dirs[0]);
        var rest := Follow(l, dirs[1..]);
        assert forall i | 1 <= i < |dirs| :: dirs[1..][i - 1] == dirs[i];
        assert Distinct(dirs) && InBounds(m) ==> m !in rest by {
          if Distinct(dirs) && InBounds(m) && m in rest {
            var i :| 0 <= i < |dirs[1..]| && Towards(l, dirs[1..][i]) == m;
            TowardsInjective(l, dirs[0], dirs[1..][i]);
          }
        }
        var r := (if InBounds(m) then [m] else []) + rest;
        assert forall x {:trigger x in r} :: x in r <==> (InBounds(m) && x == m) || x in rest;
        r
    }

    /** adjacentLocations: the in-bounds neighbours of `l`, each once, in the order `order` gives. */
    function AdjacentLocations(l: Location, order: seq<nat>): (r: seq<Location>)
      requires IsShuffle(order)
      ensures forall m {:trigger m in r} :: m in r <==> InBounds(m) && IsNeighbour(l, m)
      ensures forall i | 0 <= i < |r| :: InBounds(r[i]) && IsNeighbour(l, r[i])
      ensures Distinct(r)
    {
      var r := Follow(l, order);
      assert forall m :: InBounds(m) && IsNeighbour(l, m) ==> m in r by {
        forall m | InBounds(m) && IsNeighbour(l, m) ensures m in r {
          var d := NeighbourIsTowards(l, m);
          assert d in order;
          var i :| 0 <= i < 8 && order[i] == d;
        }
      }
      assert forall i | 0 <= i < |r| :: r[i] in r;
      r
    }

    /** getFreeAdjacentLocations: the empty in-bounds neighbours of `l`, each once. */
    function GetFreeAdjacentLocations(l: Location, order: seq<nat>): (r: seq<Location>)
      reads this
      requires IsShuffle(order)
      ensures forall m {:trigger m in r} :: m in r <==> InBounds(m) && IsNeighbour(l, m) && m !in cells
      ensures forall i | 0 <= i < |r| :: InBounds(r[i]) && IsNeighbour(l, r[i]) && r[i] !in cells
      ensures Distinct(r)
    {
      FreeAmong(cells.Keys, AdjacentLocations(l, order))
    }

    /** freeAdjacentLocation: the first free neighbour of a fresh query, or none when every neighbour is taken. */
    function FreeAdjacentLocation(l: Location, order: seq<nat>): (r: Option<Location>)
      reads this
      requires IsShuffle(order)
      ensures r.None? <==> forall m | InBounds(m) && IsNeighbour(l, m) :: m in cells
      ensures r.Some? ==> InBounds(r.value) && IsNeighbour(l, r.value) && r.value !in cells
    {
      var free := GetFreeAdjacentLocations(l, order);
      assert forall m | InBounds(m) && IsNeighbour(l, m) && m !in cells :: m in free;
      First(free)
    }
  }
}
