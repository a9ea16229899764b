/** Squirrel.java: a plant eater. By day (sunny or windy) it ages, hungers,
    breeds when a mate is adjacent, then eats the first live plant around it,
    moves or dies of overcrowding. When it rains by day it only ages and loses
    an arbitrary amount of food (with no hunger check). At night, unless it
    rains, it loses an arbitrary amount of food and breeds when a mate is
    adjacent, without moving. */
module Squirrels {
  import opened Grid
  import opened Animals
  import opened Life

  const BreedingAge := 4
  const MaxAge := 150
  const MaxLitter := 5
  /** The food value of a plant, also a newborn's food level. */
  const PlantFoodValue := 12
  const Prey: map<Kind, int> := map[Plant := PlantFoodValue]

  /** canBreed: old enough, fed enough (a quarter of a plant, rounded down) and female. */
  function CanBreed(age: int, foodLevel: int, gender: char): (b: bool)
    ensures b <==> age >= 4 && foodLevel >= 3 && gender == 'F'
  {
    age >= BreedingAge && foodLevel >= PlantFoodValue / 4 && gender == 'F'
  }

  /** new Squirrel(randomAge, field, location): age and food level drawn
      below their bounds, or 0 and a full plant for a newborn. */
  method Create(randomAge: bool, ageDraw: nat, foodDraw: nat, genderDraw: nat, f: Field<Animal>, loc: Location)
    returns (s: Animal)
    requires ageDraw < MaxAge && foodDraw < PlantFoodValue && genderDraw < 2 && f.InBounds(loc)
    modifies f
    ensures fresh(s) && s.kind == Squirrel && s.gender == GenderOf(genderDraw)
    ensures s.alive && s.field == f && s.location == Some(loc)
    ensures s.age == (if randomAge then ageDraw else 0)
    ensures s.foodLevel == (if randomAge then foodDraw else PlantFoodValue)
    ensures f.cells == old(f.cells)[loc := s]
  {
    if randomAge {
      s := new Animal(Squirrel, genderDraw, f, loc, ageDraw, foodDraw, 0);
    } else {
      s := new Animal(Squirrel, genderDraw, f, loc, 0, PlantFoodValue, 0);
    }
  }

  /** act: by day age, then hunger, and for a squirrel that survives both a
      hunting turn whose litter needs an adjacent mate; in the rain age and
      an arbitrary food decrement, nothing else. */
  method Act(a: Animal, f: Field<Animal>, w: Weather, d: Draws) returns (born: seq<Animal>, ghost eaten: set<Animal>)
    requires a.kind == Squirrel && Placed(f) && Located(a, f) && ValidDraws(d, MaxLitter)
    modifies a, f, f.cells.Values`alive, f.cells.Values`location, f.cells.Values`field
    ensures forall i | 0 <= i < |born| :: fresh(born[i])
    ensures Settled(f, a, old(f.cells), born)
    ensures a.waterLevel == old(a.waterLevel) && a.age == old(a.age) + 1
    ensures var survives := old(a.alive) && old(a.foodLevel) - 1 > 0 && old(a.age) + 1 <= MaxAge;
            w != Rainy && !survives ==>
              && born == [] && eaten == {} && a.foodLevel == old(a.foodLevel) - 1
              && Died(f, a, old(f.cells), old(a.location))
    ensures var survives := old(a.alive) && old(a.foodLevel) - 1 > 0 && old(a.age) + 1 <= MaxAge;
            w != Rainy && survives ==>
              var here := old(a.location).value;
              var births := Breed(CanBreed(old(a.age) + 1, old(a.foodLevel) - 1, a.gender), d.breedTest, d.litterDraw, MaxLitter);
              Hunted(f, a, old(f.cells), old(a.foodLevel) - 1,
                     if MateOf(old(f.cells), Squirrel, a.gender, f.AdjacentLocations(here, d.mateOrder)) then births else 0,
                     old(f.GetFreeAdjacentLocations(here, d.birthOrder)),
                     FirstIn(PreyOf(old(f.cells), Prey), f.AdjacentLocations(here, d.foodOrder)),
                     f.AdjacentLocations(here, d.moveOrder), born, eaten, d.genders, Prey, PlantFoodValue)
    ensures w == Rainy ==>
              && born == [] && eaten == {} && a.foodLevel == old(a.foodLevel) - d.decrement
              && a.alive == (old(a.alive) && old(a.age) + 1 <= MaxAge)
              && (a.alive ==> a.location == old(a.location) && f.cells == old(f.cells))
              && (!a.alive ==> Died(f, a, old(f.cells), old(a.location)))
  {
    born, eaten := [], {};
    IncrementAge(a, f, MaxAge);
    if w != Rainy {
      IncrementHunger(a, f);
      if a.alive {
        var births := Breed(CanBreed(a.age, a.foodLevel, a.gender), d.breedTest, d.litterDraw, MaxLitter);
        born, eaten := Hunt(a, f, true, births, d, Prey, PlantFoodValue);
        TurnSettles(f, a, old(f.cells), born, eaten, Prey);
      } else {
        DiedSettles(f, a, old(f.cells), old(a.location));
      }
    } else {
      a.foodLevel := a.foodLevel - d.decrement;
      if a.alive {
        StillSettles(f, a, old(f.cells));
      } else {
        DiedSettles(f, a, old(f.cells), old(a.location));
      }
    }
  }

  /** sleep: unless it rains, an arbitrary food decrement (with no hunger
      check) and, for a live squirrel, a litter that needs an adjacent mate;
      the squirrel neither ages nor moves. */
  method Sleep(a: Animal, f: Field<Animal>, w: Weather, d: Draws) returns (born: seq<Animal>)
    requires a.kind == Squirrel && Placed(f) && Located(a, f) && ValidDraws(d, MaxLitter)
    modifies a`foodLevel, f
    ensures forall i | 0 <= i < |born| :: fresh(born[i])
    ensures Settled(f, a, old(f.cells), born)
    ensures a.age == old(a.age) && a.alive == old(a.alive) && a.location == old(a.location)
    ensures a.foodLevel == if w == Rainy then old(a.foodLevel) else old(a.foodLevel) - d.decrement
    ensures w == Rainy || !old(a.alive) ==> born == [] && f.cells == old(f.cells)
    ensures w != Rainy && old(a.alive) ==>
              var here := old(a.location).value;
              var births := Breed(CanBreed(old(a.age), old(a.foodLevel) - d.decrement, a.gender), d.breedTest, d.litterDraw, MaxLitter);
              Bred(f, a, old(f.cells), if MateOf(old(f.cells), Squirrel, a.gender, f.AdjacentLocations(here, d.mateOrder)) then births else 0,
                   old(f.GetFreeAdjacentLocations(here, d.birthOrder)), born, d.genders, PlantFoodValue)
  {
    born := [];
    if w != Rainy {
      a.foodLevel := a.foodLevel - d.decrement;
      if a.alive {
        var births := Breed(CanBreed(a.age, a.foodLevel, a.gender), d.breedTest, d.litterDraw, MaxLitter);
        born := Litter(a, f, true, births, d, Prey, PlantFoodValue);
        TurnSettles(f, a, old(f.cells), born, {}, map[]);
      }
    }
    if |born| == 0 && f.cells == old(f.cells) {
      StillSettles(f, a, old(f.cells));
    }
  }
}
