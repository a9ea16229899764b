/** Owl.java: a night hunter of mice and squirrels that breeds without
    looking for a mate. Its act is empty. At night, unless it rains, it ages,
    hungers, breeds, then eats the first live mouse or squirrel around it,
    moves or dies of overcrowding; in the rain it calls act, which does
    nothing. */
module Owls {
  import opened Grid
  import opened Animals
  import opened Life

  const BreedingAge := 10
  const MaxAge := 135
  const MaxLitter := 6
  /** The food value of a mouse, also a newborn's food level. */
  const MouseFoodValue := 10
  const SquirrelFoodValue := 4
  const Prey: map<Kind, int> := map[Mouse := MouseFoodValue, Squirrel := SquirrelFoodValue]

  /** canBreed: old enough, a food level of at least 3, and female. */
  function CanBreed(age: int, foodLevel: int, gender: char): (b: bool)
    ensures b <==> age >= 10 && foodLevel >= 3 && gender == 'F'
  {
    age >= BreedingAge && foodLevel >= 3 && gender == 'F'
  }

  /** new Owl(randomAge, field, location): age and food level drawn below
      their bounds, or 0 and a full mouse for a newborn. */
  method Create(randomAge: bool, ageDraw: nat, foodDraw: nat, genderDraw: nat, f: Field<Animal>, loc: Location)
    returns (o: Animal)
    requires ageDraw < MaxAge && foodDraw < MouseFoodValue && genderDraw < 2 && f.InBounds(loc)
    modifies f
    ensures fresh(o) && o.kind == Owl && o.gender == GenderOf(genderDraw)
    ensures o.alive && o.field == f && o.location == Some(loc)
    ensures o.age == (if randomAge then ageDraw else 0)
    ensures o.foodLevel == (if randomAge then foodDraw else MouseFoodValue)
    ensures f.cells == old(f.cells)[loc := o]
  {
    if randomAge {
      o := new Animal(Owl, genderDraw, f, loc, ageDraw, foodDraw, 0);
    } else {
      o := new Animal(Owl, genderDraw, f, loc, 0, MouseFoodValue, 0);
    }
  }

  /** act: empty, in every weather; it adds no newborns. */
  method Act(a: Animal, f: Field<Animal>, w: Weather) returns (born: seq<Animal>)
    ensures born == []
  {
    born := [];
  }

  /** sleep: unless it rains, age, then hunger, and for an owl that survives
      both a hunting turn whose litter needs no mate; in the rain, act. */
  method Sleep(a: Animal, f: Field<Animal>, w: Weather, d: Draws) returns (born: seq<Animal>, ghost eaten: set<Animal>)
    requires a.kind == Owl && Placed(f) && Located(a, f) && ValidDraws(d, MaxLitter)
    modifies a, f, f.cells.Values`alive, f.cells.Values`location, f.cells.Values`field
    ensures forall i | 0 <= i < |born| :: fresh(born[i])
    ensures Settled(f, a, old(f.cells), born)
    ensures a.waterLevel == old(a.waterLevel)
    ensures w == Rainy ==>
              && born == [] && eaten == {} && f.cells == old(f.cells)
              && a.alive == old(a.alive) && a.age == old(a.age) && a.foodLevel == old(a.foodLevel)
              && a.location == old(a.location)
    ensures w != Rainy ==> a.age == old(a.age) + 1
    ensures var survives := old(a.alive) && old(a.foodLevel) - 1 > 0 && old(a.age) + 1 <= MaxAge;
            w != Rainy && !survives ==>
              && born == [] && eaten == {} && a.foodLevel == old(a.foodLevel) - 1
              && Died(f, a, old(f.cells), old(a.location))
    ensures var survives := old(a.alive) && old(a.foodLevel) - 1 > 0 && old(a.age) + 1 <= MaxAge;
            w != Rainy && survives ==>
              var here := old(a.location).value;
              var births := Breed(CanBreed(old(a.age) + 1, old(a.foodLevel) - 1, a.gender), d.breedTest, d.litterDraw, MaxLitter);
              Hunted(f, a, old(f.cells), old(a.foodLevel) - 1, births,
                     old(f.GetFreeAdjacentLocations(here, d.birthOrder)),
                     FirstIn(PreyOf(old(f.cells), Prey), f.AdjacentLocations(here, d.foodOrder)),
                     f.AdjacentLocations(here, d.moveOrder), born, eaten, d.genders, Prey, MouseFoodValue)
  {
    eaten := {};
    if w != Rainy {
      born := [];
      IncrementAge(a, f, MaxAge);
      IncrementHunger(a, f);
      if a.alive {
        var births := Breed(CanBreed(a.age, a.foodLevel, a.gender), d.breedTest, d.litterDraw, MaxLitter);
        born, eaten := Hunt(a, f, false, births, d, Prey, MouseFoodValue);
        TurnSettles(f, a, old(f.cells), born, eaten, Prey);
      } else {
        DiedSettles(f, a, old(f.cells), old(a.location));
      }
    } else {
      born := Act(a, f, w);
      StillSettles(f, a, old(f.cells));
    }
  }
}
