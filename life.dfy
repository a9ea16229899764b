/** The behaviour the species classes share, each piece written once and
    called by every species module with its own constants: incrementAge and
    incrementHunger, adjacentGenderCheck, breed, giveBirth, findFood, and the
    eat-or-move-or-die-of-overcrowding step that ends a hunting turn.

    Every random draw is an input (see Draws). A probability test
    `rand.nextDouble() <= p` is a boolean saying whether the test passed. */
module Life {
  import opened Grid
  import opened Animals

  /** The simulator's weather strings "Sunny", "Rainy" and "Windy". */
  datatype Weather = Sunny | Rainy | Windy

  /** The random outcomes one agent's act or sleep consumes. */
  datatype Draws = Draws(
    decrement: int,        // rand.nextInt(): an arbitrary food or water decrement
    mateOrder: seq<nat>,   // neighbourhood order of adjacentGenderCheck
    breedTest: bool,       // the breeding (or growing) probability test passed
    litterDraw: nat,       // rand.nextInt(MAX_LITTER_SIZE), one less than the litter
    birthOrder: seq<nat>,  // neighbourhood order of getFreeAdjacentLocations in giveBirth or grow
    genders: seq<nat>,     // the gender draw of each newborn, in birth order
    foodOrder: seq<nat>,   // neighbourhood order of findFood
    moveOrder: seq<nat>,   // neighbourhood order of freeAdjacentLocation after findFood failed
    seedTest: bool,        // plants: the dispersal probability test passed
    seedDraw: nat,         // plants: rand.nextInt(maxSeeds), one less than the seed count
    seeds: seq<SeedDraws>) // plants: the draws of each seed, in order

  /** The draws of one dispersed seed. */
  datatype SeedDraws = SeedDraws(
    takes: bool,           // rand.nextDouble() >= SEED_Growing_PROBABILITY
    depthDraw: nat,        // rand.nextInt(field.getDepth())
    widthDraw: nat,        // rand.nextInt(field.getWidth())
    order: seq<nat>,       // neighbourhood order of freeAdjacentLocation when the cell is taken
    waterDraw: nat,        // rand.nextInt(20) of the new plant's waterLevel
    genderDraw: nat)       // the new plant's gender draw

  /** What a Random hands out to an animal whose litter is at most `maxLitter`. */
  predicate ValidDraws(d: Draws, maxLitter: nat)
  {
    && IsShuffle(d.mateOrder) && IsShuffle(d.birthOrder) && IsShuffle(d.foodOrder) && IsShuffle(d.moveOrder)
    && d.litterDraw < maxLitter
    && |d.genders| >= maxLitter
    && (forall i | 0 <= i < |d.genders| :: d.genders[i] < 2)
  }

  /** breed(): no births unless the agent can breed and the probability test
      passes; then between 1 and `maxLitter`. */
  function Breed(canBreed: bool, test: bool, litterDraw: nat, maxLitter: nat): (births: nat)
    requires litterDraw < maxLitter
    ensures births == 0 <==> !(canBreed && test)
    ensures births <= maxLitter
  {
    if canBreed && test then litterDraw + 1 else 0
  }

  /** setDead, stated against the field the agent is on. */
  method Die(a: Animal, f: Field<Animal>)
    requires Placed(f) && Located(a, f)
    modifies a`alive, a`location, a`field, f
    ensures !a.alive && Placed(f) && Located(a, f)
    ensures f.cells == if old(a.alive) then old(f.cells) - {old(a.location).value} else old(f.cells)
  {
    if a.alive {
      a.SetDead();
    } else {
      a.SetDead();
      assert forall l | l in f.cells :: f.cells[l] != a;
    }
  }

  /** incrementAge: one year older; dead when the new age exceeds `maxAge`. */
  method IncrementAge(a: Animal, f: Field<Animal>, maxAge: int)
    requires Placed(f) && Located(a, f)
    modifies a, f
    ensures a.age == old(a.age) + 1 && a.foodLevel == old(a.foodLevel) && a.waterLevel == old(a.waterLevel)
    ensures a.alive == (old(a.alive) && a.age <= maxAge)
    ensures Placed(f) && Located(a, f)
    ensures f.cells == if old(a.alive) && !a.alive then old(f.cells) - {old(a.location).value} else old(f.cells)
  {
    a.age := a.age + 1;
    if a.age > maxAge {
      Die(a, f);
    }
  }

  /** incrementHunger: one unit less food; dead when the food level reaches 0 or below. */
  method IncrementHunger(a: Animal, f: Field<Animal>)
    requires Placed(f) && Located(a, f)
    modifies a, f
    ensures a.foodLevel == old(a.foodLevel) - 1 && a.age == old(a.age) && a.waterLevel == old(a.waterLevel)
    ensures a.alive == (old(a.alive) && a.foodLevel > 0)
    ensures Placed(f) && Located(a, f)
    ensures f.cells == if old(a.alive) && !a.alive then old(f.cells) - {old(a.location).value} else old(f.cells)
  {
    a.foodLevel := a.foodLevel - 1;
    if a.foodLevel <= 0 {
      Die(a, f);
    }
  }

  /** The outcome for an agent that died of age, hunger or thirst (or was
      already dead): it is dead, and the field is `before` without the cell
      `at` the agent held, if any. */
  ghost predicate Died(f: Field<Animal>, a: Animal, before: map<Location, Animal>, at: Option<Location>)
    reads f, f.cells.Values`alive, f.cells.Values`location, f.cells.Values`field, a`alive, a`location, a`field
  {
    && !a.alive && Placed(f) && Located(a, f)
    && f.cells == if at.Some? then before - {at.value} else before
  }

  /** Everyone is where the field says after a turn of `a` that began on
      the cells `before` and brought the newborns `born`: the field is
      placed, `a`, every agent that was on the field and every newborn are
      located, and nobody else is on the field. */
  ghost predicate Settled(f: Field<Animal>, a: Animal, before: map<Location, Animal>, born: seq<Animal>)
    reads f, f.cells.Values`alive, f.cells.Values`location, f.cells.Values`field, a`alive, a`location, a`field
    reads before.Values`alive, before.Values`location, before.Values`field
    reads Elements(born)`alive, Elements(born)`location, Elements(born)`field
  {
    && Placed(f) && Located(a, f)
    && (forall x | x in before.Values :: Located(x, f))
    && (forall i | 0 <= i < |born| :: Located(born[i], f))
    && f.cells.Values <= before.Values + {a} + Elements(born)
  }

  /** A turn that keeps every cell of `before` except those of `a` and of
      the prey in `eaten`, leaving those prey located, settles everyone. */
  lemma Settles(f: Field<Animal>, a: Animal, before: map<Location, Animal>, born: seq<Animal>, eaten: set<Animal>)
    requires Placed(f) && Located(a, f)
    requires forall l | l in before && before[l] != a && before[l] !in eaten :: l in f.cells && f.cells[l] == before[l]
    requires forall b | b in eaten :: Located(b, f)
    requires forall i | 0 <= i < |born| :: Located(born[i], f)
    requires f.cells.Values <= before.Values + {a} + Elements(born)
    ensures Settled(f, a, before, born)
  {
    forall x | x in before.Values ensures Located(x, f) {
      var l :| l in before && before[l] == x;
      if x != a && x !in eaten {
        assert l in f.cells && f.cells[l] == x;
      }
    }
  }

  /** A turn in the sense of Turn settles everyone. */
  lemma TurnSettles(f: Field<Animal>, a: Animal, before: map<Location, Animal>, born: seq<Animal>,
                    eaten: set<Animal>, prey: map<Kind, int>)
    requires Turn(f, a, before, born, eaten, prey)
    ensures Settled(f, a, before, born)
  {
    Settles(f, a, before, born, eaten);
  }

  /** A death of `a`, which held the cell `at` of `before`, settles everyone. */
  lemma DiedSettles(f: Field<Animal>, a: Animal, before: map<Location, Animal>, at: Option<Location>)
    requires Died(f, a, before, at)
    requires at.Some? ==> at.value in before && before[at.value] == a
    ensures Settled(f, a, before, [])
  {
    forall b | b in f.cells.Values ensures b in before.Values {
      var l :| l in f.cells && f.cells[l] == b;
    }
    Settles(f, a, before, [], {});
  }

  /** A turn that leaves the cells as they were settles everyone. */
  lemma StillSettles(f: Field<Animal>, a: Animal, before: map<Location, Animal>)
    requires Placed(f) && Located(a, f) && f.cells == before
    ensures Settled(f, a, before, [])
  {
    Settles(f, a, before, [], {});
  }

  /** Cell `m` holds a live agent of the given kind and of a gender other than `gender`. */
  ghost predicate IsMateAt(f: Field<Animal>, kind: Kind, gender: char, m: Location)
    reads f, f.cells.Values`alive
  {
    m in f.cells && f.cells[m].kind == kind && f.cells[m].alive && f.cells[m].gender != gender
  }

  /** Some cell of `adj` holds a mate in the sense of IsMateAt. */
  ghost predicate MateAmong(f: Field<Animal>, kind: Kind, gender: char, adj: seq<Location>)
    reads f, f.cells.Values`alive
  {
    exists i | 0 <= i < |adj| :: IsMateAt(f, kind, gender, adj[i])
  }

  /** Some cell of `adj` holds, in `cells`, an agent of the given kind and of
      a gender other than `gender`. */
  predicate MateOf(cells: map<Location, Animal>, kind: Kind, gender: char, adj: seq<Location>)
  {
    exists i | 0 <= i < |adj| :: adj[i] in cells && cells[adj[i]].kind == kind && cells[adj[i]].gender != gender
  }

  /** On a field where everyone is alive, a mate is any occupant of the kind and the other gender. */
  lemma PlacedMate(f: Field<Animal>, kind: Kind, gender: char, adj: seq<Location>)
    requires Placed(f)
    ensures MateAmong(f, kind, gender, adj) == MateOf(f.cells, kind, gender, adj)
  {
    if MateOf(f.cells, kind, gender, adj) {
      var i :| 0 <= i < |adj| && adj[i] in f.cells && f.cells[adj[i]].kind == kind && f.cells[adj[i]].gender != gender;
      assert IsMateAt(f, kind, gender, adj[i]);
    }
  }

  /** adjacentGenderCheck: whether some neighbour of `a` is a live agent of its
      kind and of the opposite gender. */
  method AdjacentGenderCheck(a: Animal, f: Field<Animal>, order: seq<nat>) returns (state: bool)
    requires a.field == f && a.location.Some? && IsShuffle(order)
    ensures state <==> MateAmong(f, a.kind, a.gender, f.AdjacentLocations(a.location.value, order))
  {
    state := false;
    var adj := f.AdjacentLocations(a.location.value, order);
    var i := 0;
    while i < |adj|
      invariant 0 <= i <= |adj|
      invariant forall j | 0 <= j < i :: !IsMateAt(f, a.kind, a.gender, adj[j])
    {
      var animal := f.GetObjectAt(adj[i]);
      if animal.Some? && animal.value.kind == a.kind && animal.value.IsAlive() && animal.value.gender != a.gender {
        state := true;
        break;
      }
      i := i + 1;
    }
  }

  /** The cells that hold a live agent of one of the kinds in `prey`. */
  ghost function PreyCells(f: Field<Animal>, prey: map<Kind, int>): set<Location>
    reads f, f.cells.Values`alive
  {
    set l | l in f.cells && f.cells[l].kind in prey && f.cells[l].alive
  }

  /** The first cell of `adj` that lies in `s`. */
  function FirstIn(s: set<Location>, adj: seq<Location>): Option<Location>
  {
    if |adj| == 0 then None
    else if adj[0] in s then Some(adj[0])
    else FirstIn(s, adj[1..])
  }

  /** FirstIn finds nothing exactly when no cell of `adj` is in `s`, and
      otherwise a cell of `s` that no earlier cell of `adj` is in. */
  lemma {:induction false} FirstInIsFirst(s: set<Location>, adj: seq<Location>)
    ensures FirstIn(s, adj).None? <==> forall j | 0 <= j < |adj| :: adj[j] !in s
    ensures FirstIn(s, adj).Some? ==>
              exists i | 0 <= i < |adj| :: adj[i] == FirstIn(s, adj).value && adj[i] in s
                                          && forall j | 0 <= j < i :: adj[j] !in s
  {
    if adj != [] && adj[0] !in s {
      FirstInIsFirst(s, adj[1..]);
      assert forall j | 1 <= j < |adj| :: adj[1..][j - 1] == adj[j];
      var r := FirstIn(s, adj[1..]);
      if r.Some? {
        var i :| 0 <= i < |adj[1..]| && adj[1..][i] == r.value && adj[1..][i] in s
                 && forall j | 0 <= j < i :: adj[1..][j] !in s;
        assert adj[i + 1] == r.value;
      }
    }
  }

  /** The search loop of findFood: the first cell of `adj` holding live prey. */
  method ScanForPrey(f: Field<Animal>, adj: seq<Location>, prey: map<Kind, int>) returns (found: Option<Location>)
    requires forall i | 0 <= i < |adj| :: f.InBounds(adj[i])
    ensures found == FirstIn(PreyCells(f, prey), adj)
    ensures found.Some? ==> found.value in PreyCells(f, prey)
  {
    var i := 0;
    found := None;
    while i < |adj|
      invariant 0 <= i <= |adj|
      invariant FirstIn(PreyCells(f, prey), adj) == FirstIn(PreyCells(f, prey), adj[i..])
    {
      assert adj[i..][1..] == adj[i + 1..];
      var animal := f.GetObjectAt(adj[i]);
      if animal.Some? && animal.value.kind in prey && animal.value.IsAlive() {
        found := Some(adj[i]);
        return;
      }
      i := i + 1;
    }
  }

  /** findFood: kills the first live prey in adjacency order, sets the food
      level to that prey's food value and returns its cell; with no live prey
      around it returns none and changes nothing. */
  method FindFood(a: Animal, f: Field<Animal>, order: seq<nat>, prey: map<Kind, int>)
    returns (newLocation: Option<Location>, ghost eaten: set<Animal>)
    requires Placed(f) && Located(a, f) && a.alive && IsShuffle(order) && a.kind !in prey
    modifies a`foodLevel, f, f.cells.Values`alive, f.cells.Values`location, f.cells.Values`field
    ensures Placed(f) && Located(a, f) && a.alive && a.location == old(a.location)
    ensures newLocation == old(FirstIn(PreyCells(f, prey), f.AdjacentLocations(a.location.value, order)))
    ensures newLocation.None? ==> eaten == {} && a.foodLevel == old(a.foodLevel) && f.cells == old(f.cells)
    ensures newLocation.Some? ==>
              var m := newLocation.value;
              && m in old(f.cells) && old(f.cells[m]).kind in prey
              && eaten == {old(f.cells[m])}
              && a.foodLevel == prey[old(f.cells[m]).kind]
              && f.cells == old(f.cells) - {m}
    ensures forall b | b in eaten :: b != a && !b.alive && Located(b, f)
  {
    var adj := f.AdjacentLocations(a.location.value, order);
    newLocation := ScanForPrey(f, adj, prey);
    eaten := {};
    if newLocation.Some? {
      var food := f.cells[newLocation.value];
      Die(food, f);
      a.foodLevel := prey[food.kind];
      eaten := {food};
    }
  }

  /** `x` has age 0, the given kind, gender and food level, and water level 0. */
  ghost predicate IsYoung(x: Animal, kind: Kind, genderDraw: nat, food: int)
    reads x`age, x`foodLevel, x`waterLevel
  {
    && genderDraw < 2
    && x.kind == kind && x.gender == GenderOf(genderDraw)
    && x.age == 0 && x.foodLevel == food && x.waterLevel == 0
  }

  /** `x` is a young live agent on `loc`. */
  ghost predicate IsNewborn(x: Animal, kind: Kind, genderDraw: nat, f: Field<Animal>, loc: Location, food: int)
    reads x
  {
    IsYoung(x, kind, genderDraw, food) && x.alive && x.location == Some(loc) && x.field == f
  }

  /** `new` of a species class for a newborn, on an empty cell: a live agent
      of age 0 on `loc` (a grown plant's water level is 0 as well). */
  method Newborn(kind: Kind, genderDraw: nat, f: Field<Animal>, loc: Location, food: int)
    returns (young: Animal)
    requires Placed(f) && f.InBounds(loc) && loc !in f.cells && genderDraw < 2
    modifies f
    ensures fresh(young) && young.kind == kind && young.gender == GenderOf(genderDraw)
    ensures young.alive && young.location == Some(loc) && young.field == f
    ensures young.age == 0 && young.foodLevel == food && young.waterLevel == 0
    ensures f.cells == old(f.cells)[loc := young]
    ensures Placed(f)
  {
    young := new Animal(kind, genderDraw, f, loc, 0, food, 0);
  }

  /** The loop of giveBirth: newborn `i` goes to `free[i]`, for as many
      newborns as there are births and free cells. */
  method PlaceLitter(kind: Kind, f: Field<Animal>, births: nat, free: seq<Location>, genders: seq<nat>,
                     food: int)
    returns (born: seq<Animal>)
    requires Placed(f) && Distinct(free)
    requires forall i | 0 <= i < |free| :: f.InBounds(free[i]) && free[i] !in f.cells
    requires |genders| >= births && forall i | 0 <= i < |genders| :: genders[i] < 2
    modifies f
    ensures Placed(f)
    ensures |born| == Min(births, |free|)
    ensures forall i | 0 <= i < |born| :: fresh(born[i]) && IsNewborn(born[i], kind, genders[i], f, free[i], food)
    ensures forall l | l in old(f.cells) :: l in f.cells && f.cells[l] == old(f.cells)[l]
    ensures forall i | 0 <= i < |born| :: free[i] in f.cells && f.cells[free[i]] == born[i]
    ensures forall l | l in f.cells :: l in old(f.cells) || l in free[..|born|]
  {
    born := [];
    var b := 0;
    while b < births && b < |free|
      invariant 0 <= b <= births && b <= |free|
      invariant |born| == b
      invariant Placed(f)
      invariant forall i | b <= i < |free| :: free[i] !in f.cells
      invariant forall i | 0 <= i < b :: fresh(born[i]) && IsNewborn(born[i], kind, genders[i], f, free[i], food)
      invariant forall l | l in old(f.cells) :: l in f.cells && f.cells[l] == old(f.cells)[l]
      invariant forall i | 0 <= i < b :: free[i] in f.cells && f.cells[free[i]] == born[i]
      invariant forall l | l in f.cells :: l in old(f.cells) || l in free[..b]
    {
      var young := Newborn(kind, genders[b], f, free[b], food);
      assert free[..b + 1] == free[..b] + [free[b]];
      born := born + [young];
      b := b + 1;
    }
  }

  /** What every turn of `a` keeps, between the cells `before` held when the
      turn began and now: the placement invariant holds and `a` is located;
      every other agent on the field, apart from the prey in `eaten`, keeps
      its cell; the prey are dead and off the field; the newborns in `born`
      are new, distinct, alive, of `a`'s kind and on the field; and nobody
      else is on the field. */
  ghost predicate Turn(f: Field<Animal>, a: Animal, before: map<Location, Animal>, born: seq<Animal>,
                       eaten: set<Animal>, prey: map<Kind, int>)
    reads f, f.cells.Values`alive, f.cells.Values`location, f.cells.Values`field
    reads a`alive, a`location, a`field, eaten`alive, eaten`location, eaten`field
    reads Elements(born)`alive, Elements(born)`location, Elements(born)`field
  {
    && Placed(f) && Located(a, f)
    && (forall l | l in before && before[l] != a && before[l] !in eaten :: l in f.cells && f.cells[l] == before[l])
    && (forall b | b in eaten :: b in before.Values && b != a && b.kind in prey && !b.alive && Located(b, f))
    && (forall i | 0 <= i < |born| ::
          born[i] !in before.Values && born[i] != a && born[i].kind == a.kind && born[i].alive && Located(born[i], f))
    && Distinct(born)
    && f.cells.Values <= before.Values + {a} + Elements(born)
  }

  /** giveBirth: one newborn of `a`'s kind in each of the first `births` free
      neighbours (fewer when fewer are free), in the order listed; newborn `i`
      has age 0, food level `food`, water level 0 and gender `genders[i]`.
      Nothing else on the field changes. */
  method GiveBirth(a: Animal, f: Field<Animal>, births: nat, order: seq<nat>, genders: seq<nat>, food: int)
    returns (born: seq<Animal>)
    requires Placed(f) && Located(a, f) && a.alive && IsShuffle(order)
    requires |genders| >= births && forall i | 0 <= i < |genders| :: genders[i] < 2
    modifies f
    ensures forall i | 0 <= i < |born| :: fresh(born[i])
    ensures Bred(f, a, old(f.cells), births, old(f.GetFreeAdjacentLocations(a.location.value, order)), born, genders, food)
  {
    var free := f.GetFreeAdjacentLocations(a.location.value, order);
    assert a == f.cells[a.location.value];
    born := PlaceLitter(a.kind, f, births, free, genders, food);
    LitterTurn(f, a, old(f.cells), births, born, free, genders, food);
  }

  /** A litter placed on distinct free cells makes a turn of its parent. */
  lemma LitterTurn(f: Field<Animal>, a: Animal, before: map<Location, Animal>, births: nat, born: seq<Animal>,
                   free: seq<Location>, genders: seq<nat>, food: int)
    requires Placed(f) && Located(a, f) && a.alive && a in before.Values
    requires Distinct(free) && |born| == Min(births, |free|) && |born| <= |genders|
    requires forall i | 0 <= i < |free| :: free[i] !in before
    requires forall i | 0 <= i < |born| :: IsNewborn(born[i], a.kind, genders[i], f, free[i], food)
    requires forall l | l in before :: l in f.cells && f.cells[l] == before[l]
    requires forall i | 0 <= i < |born| :: free[i] in f.cells && f.cells[free[i]] == born[i]
    requires forall l | l in f.cells :: l in before || l in free[..|born|]
    ensures Bred(f, a, before, births, free, born, genders, food)
  {
    assert Distinct(born) by {
      forall i, j | 0 <= i < j < |born| ensures born[i] != born[j] {
        assert born[i].location == Some(free[i]) && born[j].location == Some(free[j]);
      }
    }
    ValuesGrow(before, f.cells, born, free);
    forall i | 0 <= i < |born| ensures born[i] !in before.Values {
      assert IsNewborn(born[i], a.kind, genders[i], f, free[i], food);
    }
    forall l | l in Elements(free[..|born|]) ensures l in f.cells {
      var i :| 0 <= i < |born| && free[..|born|][i] == l;
    }
  }

  /** Cells that keep their occupants keep them among the values; new cells hold newborns. */
  lemma ValuesGrow(before: map<Location, Animal>, after: map<Location, Animal>, born: seq<Animal>, free: seq<Location>)
    requires |born| <= |free|
    requires forall l | l in before :: l in after && after[l] == before[l]
    requires forall i | 0 <= i < |born| :: free[i] in after && after[free[i]] == born[i]
    requires forall l | l in after :: l in before || l in free[..|born|]
    ensures before.Values <= after.Values
    ensures after.Values <= before.Values + Elements(born)
  {
    forall b | b in after.Values ensures b in before.Values + Elements(born) {
      var l :| l in after && after[l] == b;
      if l !in before {
        var i :| 0 <= i < |born| && free[..|born|][i] == l;
        assert born[i] == b;
      }
    }
  }

  /** The last lines of a hunting turn: move to `newLocation`, or die when there is none. */
  method MoveOrDie(a: Animal, f: Field<Animal>, newLocation: Option<Location>)
    requires Placed(f) && Located(a, f) && a.alive
    requires newLocation.Some? ==> f.InBounds(newLocation.value) && newLocation.value !in f.cells
    modifies a, f
    ensures Placed(f) && Located(a, f)
    ensures a.age == old(a.age) && a.foodLevel == old(a.foodLevel) && a.waterLevel == old(a.waterLevel)
    ensures a.alive == newLocation.Some? && (a.alive ==> a.location == newLocation)
    ensures var vacated := old(f.cells) - {old(a.location).value};
            f.cells == if newLocation.Some? then vacated[newLocation.value := a] else vacated
  {
    if newLocation.Some? {
      a.SetLocation(newLocation.value);
    } else {
      Die(a, f);
    }
  }

  /** The end of a hunting turn: eat the first live prey found and move into
      its cell; otherwise move to the free neighbour of a fresh query;
      otherwise die of overcrowding. */
  method EatOrMove(a: Animal, f: Field<Animal>, foodOrder: seq<nat>, moveOrder: seq<nat>, prey: map<Kind, int>)
    returns (ghost eaten: set<Animal>)
    requires Placed(f) && Located(a, f) && a.alive && IsShuffle(foodOrder) && IsShuffle(moveOrder) && a.kind !in prey
    modifies a, f, f.cells.Values`alive, f.cells.Values`location, f.cells.Values`field
    ensures a.age == old(a.age) && a.waterLevel == old(a.waterLevel)
    ensures var here := old(a.location).value;
            match old(FirstIn(PreyCells(f, prey), f.AdjacentLocations(here, foodOrder)))
            case Some(m) =>
              && m in old(f.cells) && old(f.cells[m]).kind in prey
              && eaten == {old(f.cells[m])} && a.foodLevel == prey[old(f.cells[m]).kind]
              && a.alive && a.location == Some(m)
            case None =>
              && eaten == {} && a.foodLevel == old(a.foodLevel)
              && match First(FreeAmong(old(f.cells).Keys, f.AdjacentLocations(here, moveOrder)))
                 case Some(m) => a.alive && a.location == Some(m)
                 case None => !a.alive
    ensures Turn(f, a, old(f.cells), [], eaten, prey)
  {
    ghost var here := a.location.value;
    var newLocation;
    newLocation, eaten := FindFood(a, f, foodOrder, prey);
    if newLocation.None? {
      newLocation := f.FreeAdjacentLocation(a.location.value, moveOrder);
      assert newLocation == old(f.FreeAdjacentLocation(here, moveOrder));
    }
    ghost var mid := f.cells;
    MoveOrDie(a, f, newLocation);
    ForageTurn(f, a, old(f.cells), mid, here, newLocation, eaten, prey);
  }

  /** The cells after eating (at most one cell emptied) and moving or dying
      make a turn of the hunter. */
  lemma ForageTurn(f: Field<Animal>, a: Animal, before: map<Location, Animal>, mid: map<Location, Animal>,
                   here: Location, dest: Option<Location>, eaten: set<Animal>, prey: map<Kind, int>)
    requires Placed(f) && Located(a, f)
    requires here in before && before[here] == a
    requires forall l | l in mid :: l in before && mid[l] == before[l]
    requires forall l | l in before && l !in mid :: l == here || before[l] in eaten
    requires dest.Some? ==> dest.value !in mid
    requires f.cells == if dest.Some? then (mid - {here})[dest.value := a] else mid - {here}
    requires forall b | b in eaten :: b in before.Values && b != a && b.kind in prey && !b.alive && Located(b, f)
    ensures Turn(f, a, before, [], eaten, prey)
  {
    forall l | l in before && before[l] != a && before[l] !in eaten ensures l in f.cells && f.cells[l] == before[l] {
      assert l in mid && l != here;
    }
  }

  /** A litter (from `before` to `mid`) followed by eating and moving (from
      `mid` to now) is one turn from `before` to now. */
  lemma TurnsCompose(f: Field<Animal>, a: Animal, before: map<Location, Animal>, mid: map<Location, Animal>,
                     born: seq<Animal>, free: seq<Location>, eaten: set<Animal>, prey: map<Kind, int>)
    requires Turn(f, a, mid, [], eaten, prey) && a.kind !in prey && a in before.Values
    requires |born| <= |free| && Distinct(born)
    requires forall l | l in before :: l in mid && mid[l] == before[l]
    requires forall l | l in mid && l !in before :: l in free[..|born|]
    requires forall i | 0 <= i < |born| ::
               free[i] in mid && mid[free[i]] == born[i] && born[i].kind == a.kind && born[i] !in before.Values
    ensures Turn(f, a, before, born, eaten, prey)
  {
    forall i | 0 <= i < |born| ensures born[i].alive && Located(born[i], f) {
      assert mid[free[i]] != a && mid[free[i]] !in eaten;
    }
    forall b | b in f.cells.Values && b != a ensures b in before.Values + Elements(born) {
      var l :| l in mid && mid[l] == b;
      if l !in before {
        var i :| 0 <= i < |born| && free[..|born|][i] == l;
        assert b == born[i];
      }
    }
  }

  /** The outcome of a hunting turn, given what the field looked like when it
      began: the cells `before`, the hunter's food level, the number of
      births, the free neighbours listed for the litter, the first prey
      found, and the neighbours of the move query in their order. The
      litter fills the first free neighbours. With prey about, the hunter
      eats it, steps into its cell and takes its food value. Otherwise it
      keeps its food level and moves to the first neighbour of the move
      query that was free and did not receive a newborn, or dies of
      overcrowding when there is none. */
  ghost predicate Hunted(f: Field<Animal>, a: Animal, before: map<Location, Animal>, foodBefore: int,
                         births: nat, free: seq<Location>, target: Option<Location>, moveAdj: seq<Location>,
                         born: seq<Animal>, eaten: set<Animal>, genders: seq<nat>, prey: map<Kind, int>, food: int)
    reads f, f.cells.Values`alive, f.cells.Values`location, f.cells.Values`field
    reads a, eaten`alive, eaten`location, eaten`field, Elements(born)
  {
    && |born| == Min(births, |free|) && |born| <= |genders|
    && (forall i | 0 <= i < |born| :: IsNewborn(born[i], a.kind, genders[i], f, free[i], food))
    && (match target
        case Some(m) =>
          && m in before && before[m].kind in prey
          && eaten == {before[m]} && a.foodLevel == prey[before[m].kind]
          && a.alive && a.location == Some(m)
        case None =>
          && eaten == {} && a.foodLevel == foodBefore
          && match First(FreeAmong(before.Keys + Elements(free[..|born|]), moveAdj))
             case Some(m) => a.alive && a.location == Some(m)
             case None => !a.alive)
    && Turn(f, a, before, born, eaten, prey)
  }

  /** The outcome of giveBirth, given the cells `before` it and the free
      neighbours it listed: newborn `i`, young and alive, is in the `i`-th
      free cell, for as many newborns as there are births and free cells;
      every other cell is as it was. */
  ghost predicate Bred(f: Field<Animal>, a: Animal, before: map<Location, Animal>, births: nat,
                       free: seq<Location>, born: seq<Animal>, genders: seq<nat>, food: int)
    reads f, f.cells.Values`alive, f.cells.Values`location, f.cells.Values`field
    reads a`alive, a`location, a`field, Elements(born)
  {
    && |born| == Min(births, |free|) && |born| <= |genders|
    && (forall i | 0 <= i < |born| :: IsNewborn(born[i], a.kind, genders[i], f, free[i], food))
    && (forall i | 0 <= i < |born| :: free[i] in f.cells && f.cells[free[i]] == born[i])
    && f.cells.Keys == before.Keys + Elements(free[..|born|])
    && (forall l | l in before :: l in f.cells && f.cells[l] == before[l])
    && Turn(f, a, before, born, {}, map[])
  }

  /** The birth half of a hunting turn: the litter of giveBirth, for the
      species that need one only when a mate is adjacent. The litter goes to
      empty cells and is not prey to its parent, so the same cells hold prey
      as before. */
  method Litter(a: Animal, f: Field<Animal>, gated: bool, births: nat, d: Draws, prey: map<Kind, int>, food: int)
    returns (born: seq<Animal>)
    requires Placed(f) && Located(a, f) && a.alive && a.kind !in prey
    requires IsShuffle(d.mateOrder) && IsShuffle(d.birthOrder)
    requires |d.genders| >= births && forall i | 0 <= i < |d.genders| :: d.genders[i] < 2
    modifies f
    ensures forall i | 0 <= i < |born| :: fresh(born[i])
    ensures var here := a.location.value;
            Bred(f, a, old(f.cells),
                 if gated && !MateOf(old(f.cells), a.kind, a.gender, f.AdjacentLocations(here, d.mateOrder)) then 0 else births,
                 old(f.GetFreeAdjacentLocations(here, d.birthOrder)), born, d.genders, food)
    ensures PreyOf(f.cells, prey) == PreyOf(old(f.cells), prey)
  {
    ghost var free := f.GetFreeAdjacentLocations(a.location.value, d.birthOrder);
    // without a mate giveBirth is skipped, which is a litter of none
    var litter := births;
    if gated {
      var mate := AdjacentGenderCheck(a, f, d.mateOrder);
      PlacedMate(f, a.kind, a.gender, f.AdjacentLocations(a.location.value, d.mateOrder));
      if !mate {
        litter := 0;
      }
    }
    ghost var before := f.cells;
    born := GiveBirth(a, f, litter, d.birthOrder, d.genders, food);
    BredKeepsPrey(f, a, before, litter, free, born, d.genders, food, prey);
  }

  /** The prey kinds' cells of a map of occupants. */
  function PreyOf(cells: map<Location, Animal>, prey: map<Kind, int>): set<Location>
  {
    set l | l in cells && cells[l].kind in prey
  }

  /** On a field where everyone is alive, the prey cells are those of a prey kind. */
  lemma PlacedPrey(f: Field<Animal>, prey: map<Kind, int>)
    requires Placed(f)
    ensures PreyCells(f, prey) == PreyOf(f.cells, prey)
  {
  }

  /** A litter of a kind that is not prey adds no prey cells. */
  lemma BredKeepsPrey(f: Field<Animal>, a: Animal, before: map<Location, Animal>, births: nat,
                      free: seq<Location>, born: seq<Animal>, genders: seq<nat>, food: int, prey: map<Kind, int>)
    requires Bred(f, a, before, births, free, born, genders, food) && a.kind !in prey
    ensures PreyOf(f.cells, prey) == PreyOf(before, prey)
  {
    forall l | l in f.cells && l !in before ensures f.cells[l].kind !in prey {
      var i :| 0 <= i < |born| && free[..|born|][i] == l;
      assert IsNewborn(born[i], a.kind, genders[i], f, free[i], food);
    }
  }

  /** The agents of a litter stand on distinct cells, so they are distinct. */
  lemma BredDistinct(f: Field<Animal>, a: Animal, before: map<Location, Animal>, births: nat,
                     free: seq<Location>, born: seq<Animal>, genders: seq<nat>, food: int)
    requires Bred(f, a, before, births, free, born, genders, food) && Distinct(free)
    ensures Distinct(born)
  {
    forall i, j | 0 <= i < j < |born| ensures born[i] != born[j] {
      assert born[i].location == Some(free[i]) && born[j].location == Some(free[j]);
    }
  }

  /** The `if (isAlive())` block of a hunting turn, shared by every animal:
      give birth (for the species that need one, only when a mate is
      adjacent), then eat, move or die of overcrowding. `births` is the
      outcome of breed(). */
  method Hunt(a: Animal, f: Field<Animal>, gated: bool, births: nat, d: Draws, prey: map<Kind, int>, food: int)
    returns (born: seq<Animal>, ghost eaten: set<Animal>)
    requires Placed(f) && Located(a, f) && a.alive && a.kind !in prey
    requires IsShuffle(d.mateOrder) && IsShuffle(d.birthOrder) && IsShuffle(d.foodOrder) && IsShuffle(d.moveOrder)
    requires |d.genders| >= births && forall i | 0 <= i < |d.genders| :: d.genders[i] < 2
    modifies a, f, f.cells.Values`alive, f.cells.Values`location, f.cells.Values`field
    ensures forall i | 0 <= i < |born| :: fresh(born[i])
    ensures a.age == old(a.age) && a.waterLevel == old(a.waterLevel)
    ensures var here := old(a.location).value;
            Hunted(f, a, old(f.cells), old(a.foodLevel),
                   if gated && !MateOf(old(f.cells), a.kind, a.gender, f.AdjacentLocations(here, d.mateOrder)) then 0 else births,
                   old(f.GetFreeAdjacentLocations(here, d.birthOrder)),
                   FirstIn(PreyOf(old(f.cells), prey), f.AdjacentLocations(here, d.foodOrder)),
                   f.AdjacentLocations(here, d.moveOrder), born, eaten, d.genders, prey, food)
  {
    ghost var here := a.location.value;
    assert a in f.cells.Values by { assert f.cells[here] == a; }
    ghost var before, foodBefore := f.cells, a.foodLevel;
    ghost var n := if gated && !MateOf(f.cells, a.kind, a.gender, f.AdjacentLocations(here, d.mateOrder)) then 0 else births;
    ghost var free := f.GetFreeAdjacentLocations(here, d.birthOrder);
    ghost var target := FirstIn(PreyOf(f.cells, prey), f.AdjacentLocations(here, d.foodOrder));
    born := Litter(a, f, gated, births, d, prey, food);
    BredDistinct(f, a, before, n, free, born, d.genders, food);
    eaten := Forage(a, f, before, foodBefore, n, free, target, born, d, prey, food);
  }

  /** The eating half of a hunting turn, after a litter on the first free
      neighbours has taken the field from `before` to its present state. */
  method Forage(a: Animal, f: Field<Animal>, ghost before: map<Location, Animal>, ghost foodBefore: int,
                ghost births: nat, ghost free: seq<Location>, ghost target: Option<Location>, born: seq<Animal>, d: Draws,
                prey: map<Kind, int>, food: int)
    returns (ghost eaten: set<Animal>)
    requires Placed(f) && Located(a, f) && a.alive && a.kind !in prey
    requires IsShuffle(d.foodOrder) && IsShuffle(d.moveOrder)
    requires a in before.Values && a.foodLevel == foodBefore
    requires Bred(f, a, before, births, free, born, d.genders, food)
    requires Distinct(born) && forall i | 0 <= i < |born| :: born[i] !in before.Values && born[i] != a
    requires target == FirstIn(PreyOf(f.cells, prey), f.AdjacentLocations(a.location.value, d.foodOrder))
    modifies a, f, f.cells.Values`alive, f.cells.Values`location, f.cells.Values`field
    ensures a.age == old(a.age) && a.waterLevel == old(a.waterLevel)
    ensures Hunted(f, a, before, foodBefore, births, free, target, f.AdjacentLocations(old(a.location).value, d.moveOrder),
                   born, eaten, d.genders, prey, food)
  {
    ghost var here := a.location.value;
    ghost var mid := f.cells;
    PlacedPrey(f, prey);
    eaten := EatOrMove(a, f, d.foodOrder, d.moveOrder, prey);
    forall i | 0 <= i < |born| ensures IsYoung(born[i], a.kind, d.genders[i], food) {
      assert born[i] != a;
      assert born[i].age == 0 && born[i].foodLevel == food && born[i].waterLevel == 0;
    }
    HuntedFrom(f, a, before, mid, foodBefore, births, free, target, f.AdjacentLocations(here, d.moveOrder),
               born, eaten, d.genders, prey, food);
  }

  /** A litter on the first free neighbours (from `before` to `mid`) and then
      eating or moving (from `mid` to now) make the hunting turn Hunted
      describes. */
  lemma HuntedFrom(f: Field<Animal>, a: Animal, before: map<Location, Animal>, mid: map<Location, Animal>,
                   foodBefore: int, births: nat, free: seq<Location>, target: Option<Location>,
                   moveAdj: seq<Location>, born: seq<Animal>, eaten: set<Animal>, genders: seq<nat>,
                   prey: map<Kind, int>, food: int)
    requires a.kind !in prey && a in before.Values && Distinct(born)
    requires |born| == Min(births, |free|) && |born| <= |genders|
    requires forall i | 0 <= i < |born| ::
               IsYoung(born[i], a.kind, genders[i], food) && born[i] !in before.Values
               && free[i] in mid && mid[free[i]] == born[i]
    requires forall l | l in before :: l in mid && mid[l] == before[l]
    requires mid.Keys == before.Keys + Elements(free[..|born|])
    requires match target
             case Some(m) =>
               && m in mid && mid[m].kind in prey
               && eaten == {mid[m]} && a.foodLevel == prey[mid[m].kind]
               && a.alive && a.location == Some(m)
             case None =>
               && eaten == {} && a.foodLevel == foodBefore
               && match First(FreeAmong(mid.Keys, moveAdj))
                  case Some(m) => a.alive && a.location == Some(m)
                  case None => !a.alive
    requires Turn(f, a, mid, [], eaten, prey)
    ensures Hunted(f, a, before, foodBefore, births, free, target, moveAdj, born, eaten, genders, prey, food)
  {
    assert forall l | l in mid && l !in before :: l in free[..|born|];
    TurnsCompose(f, a, before, mid, born, free, eaten, prey);
    forall i | 0 <= i < |born| ensures IsNewborn(born[i], a.kind, genders[i], f, free[i], food) {
      assert mid[free[i]] != a && mid[free[i]] !in eaten;
    }
  }
}
