/** Snake.java: a hunter of squirrels that breeds without looking for a
    mate. By day (sunny or windy) it hungers, ages, breeds, then eats the
    first live squirrel around it, moves or dies of overcrowding. At night,
    unless it rains, it ages, loses an arbitrary amount of food (with no
    hunger check) and breeds, without moving. When it rains by day it sleeps,
    which in the rain does nothing. */
module Snakes {
  import opened Grid
  import opened Animals
  import opened Life

  const BreedingAge := 6
  const MaxAge := 70
  const MaxLitter := 40
  /** The food value of a squirrel, also a newborn's food level. */
  const SquirrelFoodValue := 8
  const Prey: map<Kind, int> := map[Squirrel := SquirrelFoodValue]

  /** canBreed: old enough, fed enough (a quarter of a squirrel, rounded down) and female. */
  function CanBreed(age: int, foodLevel: int, gender: char): (b: bool)
    ensures b <==> age >= 6 && foodLevel >= 2 && gender == 'F'
  {
    age >= BreedingAge && foodLevel >= SquirrelFoodValue / 4 && gender == 'F'
  }

  /** new Snake(randomAge, field, location): age and food level drawn below
      their bounds, or 0 and a full squirrel for a newborn. */
  method Create(randomAge: bool, ageDraw: nat, foodDraw: nat, genderDraw: nat, f: Field<Animal>, loc: Location)
    returns (s: Animal)
    requires ageDraw < MaxAge && foodDraw < SquirrelFoodValue && genderDraw < 2 && f.InBounds(loc)
    modifies f
    ensures fresh(s) && s.kind == Snake && s.gender == GenderOf(genderDraw)
    ensures s.alive && s.field == f && s.location == Some(loc)
    ensures s.age == (if randomAge then ageDraw else 0)
    ensures s.foodLevel == (if randomAge then foodDraw else SquirrelFoodValue)
    ensures f.cells == old(f.cells)[loc := s]
  {
    if randomAge {
      s := new Animal(Snake, genderDraw, f, loc, ageDraw, foodDraw, 0);
    } else {
      s := new Animal(Snake, genderDraw, f, loc, 0, SquirrelFoodValue, 0);
    }
  }

  /** act: nothing when it rains; otherwise hunger, then age, and for a
      snake that survives both a hunting turn whose litter needs no mate. */
  method Act(a: Animal, f: Field<Animal>, w: Weather, d: Draws) returns (born: seq<Animal>, ghost eaten: set<Animal>)
    requires a.kind == Snake && Placed(f) && Located(a, f) && ValidDraws(d, MaxLitter)
    modifies a, f, f.cells.Values`alive, f.cells.Values`location, f.cells.Values`field
    ensures forall i | 0 <= i < |born| :: fresh(born[i])
    ensures Settled(f, a, old(f.cells), born)
    ensures a.waterLevel == old(a.waterLevel)
    ensures w == Rainy ==>
              && born == [] && eaten == {} && f.cells == old(f.cells)
              && a.alive == old(a.alive) && a.age == old(a.age) && a.foodLevel == old(a.foodLevel)
              && a.location == old(a.location)
    ensures w != Rainy ==> a.age == old(a.age) + 1
    ensures var survives := old(a.alive) && old(a.foodLevel) - 1 > 0 && old(a.age) + 1 <= MaxAge;
            w != Rainy && !survives ==>
              && born == [] && eaten == {} && a.foodLevel == old(a.foodLevel) - 1
              && Died(f, a, old(f.cells), old(a.location))
    ensures var survives := old(a.alive) && old(a.foodLevel) - 1 > 0 && old(a.age) + 1 <= MaxAge;
            w != Rainy && survives ==>
              var here := old(a.location).value;
              var births := Breed(CanBreed(old(a.age) + 1, old(a.foodLevel) - 1, a.gender), d.breedTest, d.litterDraw, MaxLitter);
              Hunted(f, a, old(f.cells), old(a.foodLevel) - 1, births,
                     old(f.GetFreeAdjacentLocations(here, d.birthOrder)),
                     FirstIn(PreyOf(old(f.cells), Prey), f.AdjacentLocations(here, d.foodOrder)),
                     f.AdjacentLocations(here, d.moveOrder), born, eaten, d.genders, Prey, SquirrelFoodValue)
  {
    born, eaten := [], {};
    if w != Rainy {
      IncrementHunger(a, f);
      IncrementAge(a, f, MaxAge);
      if a.alive {
        var births := Breed(CanBreed(a.age, a.foodLevel, a.gender), d.breedTest, d.litterDraw, MaxLitter);
        born, eaten := Hunt(a, f, false, births, d, Prey, SquirrelFoodValue);
        TurnSettles(f, a, old(f.cells), born, eaten, Prey);
      } else {
        DiedSettles(f, a, old(f.cells), old(a.location));
      }
    } else {
      born := Sleep(a, f, w, d);
    }
  }

  /** sleep: unless it rains, age, an arbitrary food decrement (with no
      hunger check) and, for a snake still alive, a litter that needs no
      mate; the snake does not move. */
  method Sleep(a: Animal, f: Field<Animal>, w: Weather, d: Draws) returns (born: seq<Animal>)
    requires a.kind == Snake && Placed(f) && Located(a, f) && ValidDraws(d, MaxLitter)
    modifies a, f
    ensures forall i | 0 <= i < |born| :: fresh(born[i])
    ensures Settled(f, a, old(f.cells), born)
    ensures a.waterLevel == old(a.waterLevel)
    ensures w == Rainy ==>
              && born == [] && f.cells == old(f.cells) && a.alive == old(a.alive)
              && a.age == old(a.age) && a.foodLevel == old(a.foodLevel) && a.location == old(a.location)
    ensures w != Rainy ==>
              && a.age == old(a.age) + 1 && a.foodLevel == old(a.foodLevel) - d.decrement
              && a.alive == (old(a.alive) && old(a.age) + 1 <= MaxAge)
    ensures w != Rainy && !a.alive ==> born == [] && Died(f, a, old(f.cells), old(a.location))
    ensures w != Rainy && a.alive ==>
              var here := old(a.location).value;
              var births := Breed(CanBreed(old(a.age) + 1, old(a.foodLevel) - d.decrement, a.gender), d.breedTest, d.litterDraw, MaxLitter);
              && a.location == old(a.location)
              && Bred(f, a, old(f.cells), births, old(f.GetFreeAdjacentLocations(here, d.birthOrder)), born, d.genders, SquirrelFoodValue)
  {
    born := [];
    if w != Rainy {
      IncrementAge(a, f, MaxAge);
      a.foodLevel := a.foodLevel - d.decrement;
      if a.alive {
        var births := Breed(CanBreed(a.age, a.foodLevel, a.gender), d.breedTest, d.litterDraw, MaxLitter);
        born := Litter(a, f, false, births, d, Prey, SquirrelFoodValue);
        TurnSettles(f, a, old(f.cells), born, {}, map[]);
      } else {
        DiedSettles(f, a, old(f.cells), old(a.location));
      }
    } else {
      StillSettles(f, a, old(f.cells));
    }
  }
}
