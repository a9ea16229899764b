/** Cat.java: a hunter of mice. By day (sunny or windy) it hungers, ages,
    breeds when a mate is adjacent, then eats the first live mouse around it,
    moves or dies of overcrowding. At night it breeds when a mate is adjacent;
    its food decrement there is rand.nextInt(1), which is always 0. When it
    rains it does nothing, day or night. */
module Cats {
  import opened Grid
  import opened Animals
  import opened Life

  const BreedingAge := 6
  const MaxAge := 140
  const MaxLitter := 5
  /** The food value of a mouse, also a newborn's food level. */
  const MouseFoodValue := 8
  const Prey: map<Kind, int> := map[Mouse := MouseFoodValue]

  /** canBreed: old enough, fed enough (a quarter of a mouse, rounded down) and female. */
  function CanBreed(age: int, foodLevel: int, gender: char): (b: bool)
    ensures b <==> age >= 6 && foodLevel >= 2 && gender == 'F'
  {
    age >= BreedingAge && foodLevel >= MouseFoodValue / 4 && gender == 'F'
  }

  /** new Cat(randomAge, field, location): age and food level drawn below
      their bounds, or 0 and a full mouse for a newborn. */
  method Create(randomAge: bool, ageDraw: nat, foodDraw: nat, genderDraw: nat, f: Field<Animal>, loc: Location)
    returns (c: Animal)
    requires ageDraw < MaxAge && foodDraw < MouseFoodValue && genderDraw < 2 && f.InBounds(loc)
    modifies f
    ensures fresh(c) && c.kind == Cat && c.gender == GenderOf(genderDraw)
    ensures c.alive && c.field == f && c.location == Some(loc)
    ensures c.age == (if randomAge then ageDraw else 0)
    ensures c.foodLevel == (if randomAge then foodDraw else MouseFoodValue)
    ensures f.cells == old(f.cells)[loc := c]
  {
    if randomAge {
      c := new Animal(Cat, genderDraw, f, loc, ageDraw, foodDraw, 0);
    } else {
      c := new Animal(Cat, genderDraw, f, loc, 0, MouseFoodValue, 0);
    }
  }

  /** act: nothing when it rains; otherwise hunger, then age, and for a cat
      that survives both a hunting turn whose litter needs an adjacent mate. */
  method Act(a: Animal, f: Field<Animal>, w: Weather, d: Draws) returns (born: seq<Animal>, ghost eaten: set<Animal>)
    requires a.kind == Cat && Placed(f) && Located(a, f) && ValidDraws(d, MaxLitter)
    modifies a, f, f.cells.Values`alive, f.cells.Values`location, f.cells.Values`field
    ensures forall i | 0 <= i < |born| :: fresh(born[i])
    ensures a.waterLevel == old(a.waterLevel)
    ensures Settled(f, a, old(f.cells), born)
    ensures w == Rainy ==>
              && born == [] && eaten == {} && f.cells == old(f.cells)
              && a.alive == old(a.alive) && a.age == old(a.age) && a.foodLevel == old(a.foodLevel)
              && a.location == old(a.location)
    ensures w != Rainy ==> a.age == old(a.age) + 1
    ensures var survives := old(a.alive) && old(a.foodLevel) - 1 > 0 && old(a.age) + 1 <= MaxAge;
            w != Rainy && !survives ==>
              && born == [] && eaten == {} && a.foodLevel == old(a.foodLevel) - 1
              && Died(f, a, old(f.cells), old(a.location))
    ensures var survives := old(a.alive) && old(a.foodLevel) - 1 > 0 && old(a.age) + 1 <= MaxAge;
            w != Rainy && survives ==>
              var here := old(a.location).value;
              var births := Breed(CanBreed(old(a.age) + 1, old(a.foodLevel) - 1, a.gender), d.breedTest, d.litterDraw, MaxLitter);
              Hunted(f, a, old(f.cells), old(a.foodLevel) - 1,
                     if MateOf(old(f.cells), Cat, a.gender, f.AdjacentLocations(here, d.mateOrder)) then births else 0,
                     old(f.GetFreeAdjacentLocations(here, d.birthOrder)),
                     FirstIn(PreyOf(old(f.cells), Prey), f.AdjacentLocations(here, d.foodOrder)),
                     f.AdjacentLocations(here, d.moveOrder), born, eaten, d.genders, Prey, MouseFoodValue)
  {
    born, eaten := [], {};
    if w != Rainy {
      IncrementHunger(a, f);
      IncrementAge(a, f, MaxAge);
      if a.alive {
        var births := Breed(CanBreed(a.age, a.foodLevel, a.gender), d.breedTest, d.litterDraw, MaxLitter);
        born, eaten := Hunt(a, f, true, births, d, Prey, MouseFoodValue);
        TurnSettles(f, a, old(f.cells), born, eaten, Prey);
      } else {
        DiedSettles(f, a, old(f.cells), old(a.location));
      }
    } else {
      born := Sleep(a, f, w, d);
    }
  }

  /** sleep: unless it rains, a live cat breeds when a mate is adjacent; its
      food level loses rand.nextInt(1), which is 0, and it neither ages nor moves. */
  method Sleep(a: Animal, f: Field<Animal>, w: Weather, d: Draws) returns (born: seq<Animal>)
    requires a.kind == Cat && Placed(f) && Located(a, f) && ValidDraws(d, MaxLitter)
    modifies a`foodLevel, f
    ensures forall i | 0 <= i < |born| :: fresh(born[i])
    ensures a.age == old(a.age) && a.foodLevel == old(a.foodLevel) && a.alive == old(a.alive)
    ensures a.location == old(a.location)
    ensures Settled(f, a, old(f.cells), born)
    ensures w == Rainy || !old(a.alive) ==> born == [] && f.cells == old(f.cells)
    ensures w != Rainy && old(a.alive) ==>
              var here := old(a.location).value;
              var births := Breed(CanBreed(old(a.age), old(a.foodLevel), a.gender), d.breedTest, d.litterDraw, MaxLitter);
              Bred(f, a, old(f.cells), if MateOf(old(f.cells), Cat, a.gender, f.AdjacentLocations(here, d.mateOrder)) then births else 0,
                   old(f.GetFreeAdjacentLocations(here, d.birthOrder)), born, d.genders, MouseFoodValue)
  {
    born := [];
    if w != Rainy {
      a.foodLevel := a.foodLevel - 0;  // rand.nextInt(1) is always 0
      if a.alive {
        var births := Breed(CanBreed(a.age, a.foodLevel, a.gender), d.breedTest, d.litterDraw, MaxLitter);
        born := Litter(a, f, true, births, d, Prey, MouseFoodValue);
        TurnSettles(f, a, old(f.cells), born, {}, map[]);
      }
    }
    if |born| == 0 && f.cells == old(f.cells) {
      StillSettles(f, a, old(f.cells));
    }
  }
}
