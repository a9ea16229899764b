/** Plant.java: an agent that grows into neighbouring cells and disperses
    seeds over the field. Its age is a single static counter shared by every
    plant (PlantStatics.age); every plant construction resets it. A plant
    ages every tick, dies of thirst when its water level drops below 0 on a
    sunny day, grows by day and night, and disperses seeds in wind and rain. */
module Plants {
  import opened Grid
  import opened Animals
  import opened Life

  const MaxAge := 500
  const BreedingAge := 2
  const MaxSizeIncrease := 5
  const MaxSeeds := 10

  /** Plant's static fields: the one age all plants share. */
  class PlantStatics {
    var age: int

    constructor ()
      ensures age == 0
    {
      age := 0;
    }
  }

  /** canBreed: the shared age has reached the breeding age. */
  function CanBreed(age: int): (b: bool)
    ensures b <==> age >= 2
  {
    age >= BreedingAge
  }

  /** sizeExpansion: no growth unless the probability test passes; then 1 to 5 cells. */
  function SizeExpansion(test: bool, draw: nat): (size: nat)
    requires draw < MaxSizeIncrease
    ensures size == 0 <==> !test
    ensures size <= MaxSizeIncrease
  {
    if test then draw + 1 else 0
  }

  /** The random outcomes a plant's act or sleep consumes on field `f`: those
      of growing (the test, the size draw, the free-cell order and the
      genders) and those of dispersal (at most 10 seeds). */
  predicate ValidPlantDraws(d: Draws, f: Field<Animal>)
  {
    && ValidDraws(d, MaxSizeIncrease)
    && d.seedDraw < MaxSeeds && |d.seeds| >= MaxSeeds
    && forall j | 0 <= j < |d.seeds| ::
         && IsShuffle(d.seeds[j].order) && d.seeds[j].waterDraw < 20 && d.seeds[j].genderDraw < 2
         && d.seeds[j].depthDraw < f.depth && d.seeds[j].widthDraw < f.width
  }

  /** new Plant(randomAge, field, location): the shared age is reset to 0 and,
      for a random age, then drawn below 50; the water level is 1 to 20. */
  method Create(randomAge: bool, ageDraw: nat, waterDraw: nat, genderDraw: nat, s: PlantStatics,
                f: Field<Animal>, loc: Location)
    returns (p: Animal)
    requires ageDraw < 50 && waterDraw < 20 && genderDraw < 2 && f.InBounds(loc)
    modifies f, s
    ensures fresh(p) && p.kind == Plant && p.gender == GenderOf(genderDraw)
    ensures p.alive && p.field == f && p.location == Some(loc)
    ensures p.waterLevel == waterDraw + 1 && 1 <= p.waterLevel <= 20
    ensures s.age == (if randomAge then ageDraw else 0)
    ensures f.cells == old(f.cells)[loc := p]
  {
    p := new Animal(Plant, genderDraw, f, loc, 0, 0, waterDraw + 1);
    s.age := 0;
    if randomAge {
      s.age := ageDraw;
    }
  }

  /** incrementAge: the shared age goes up by one; this plant dies when it
      exceeds 500. */
  method IncrementAge(a: Animal, f: Field<Animal>, s: PlantStatics)
    requires Placed(f) && Located(a, f)
    modifies s, a`alive, a`location, a`field, f
    ensures s.age == old(s.age) + 1
    ensures a.alive == (old(a.alive) && s.age <= MaxAge)
    ensures Placed(f) && Located(a, f)
    ensures a.alive ==> f.cells == old(f.cells) && a.location == old(a.location)
    ensures !a.alive ==> Died(f, a, old(f.cells), old(a.location))
  {
    s.age := s.age + 1;
    if s.age > MaxAge {
      Die(a, f);
    }
  }

  /** incrementThirst: the water level drops by an arbitrary amount; the
      plant dies when it falls below 0. */
  method IncrementThirst(a: Animal, f: Field<Animal>, decrement: int)
    requires Placed(f) && Located(a, f)
    modifies a, f
    ensures a.waterLevel == old(a.waterLevel) - decrement
    ensures a.alive == (old(a.alive) && a.waterLevel >= 0)
    ensures Placed(f) && Located(a, f)
    ensures a.alive ==> f.cells == old(f.cells) && a.location == old(a.location)
    ensures !a.alive ==> Died(f, a, old(f.cells), old(a.location))
  {
    a.waterLevel := a.waterLevel - decrement;
    if a.waterLevel < 0 {
      Die(a, f);
    }
  }

  /** `after` is `before` with newcomer `born[i]` in each cell `sites[i]`. */
  predicate CellsGrow(before: map<Location, Animal>, after: map<Location, Animal>, sites: seq<Location>, born: seq<Animal>)
  {
    && |sites| == |born|
    && (forall l | l in before :: l in after && after[l] == before[l])
    && (forall i | 0 <= i < |sites| :: sites[i] in after && after[sites[i]] == born[i])
    && (forall l | l in after :: l in before || l in sites)
  }

  /** Growth then dispersal: newcomers added in two rounds are added once. */
  lemma CellsGrowCompose(before: map<Location, Animal>, mid: map<Location, Animal>, after: map<Location, Animal>,
                         s1: seq<Location>, b1: seq<Animal>, s2: seq<Location>, b2: seq<Animal>)
    requires CellsGrow(before, mid, s1, b1) && CellsGrow(mid, after, s2, b2)
    requires forall i | 0 <= i < |s1| :: s1[i] !in before
    requires forall j | 0 <= j < |s2| :: s2[j] !in mid
    ensures CellsGrow(before, after, s1 + s2, b1 + b2)
  {
    forall l | l in after ensures l in before || l in s1 + s2 {
      if l in s2 {
        var j :| 0 <= j < |s2| && s2[j] == l;
        assert (s1 + s2)[|s1| + j] == l;
      } else if l !in before {
        var i :| 0 <= i < |s1| && s1[i] == l;
        assert (s1 + s2)[i] == l;
      }
    }
    forall i | 0 <= i < |s1 + s2| ensures (s1 + s2)[i] in after && after[(s1 + s2)[i]] == (b1 + b2)[i] {
      if i >= |s1| {
        assert (s1 + s2)[i] == s2[i - |s1|];
      }
    }
  }

  /** The plants `born` grown from the plant on `here`: a young plant of
      water level 0 in each of the first sizeExpansion() cells free around
      it in `before` (fewer when fewer are free), which `after` adds to
      `before`. */
  ghost predicate Grown(f: Field<Animal>, before: map<Location, Animal>, after: map<Location, Animal>,
                        here: Location, d: Draws, born: seq<Animal>)
    reads Elements(born)
    requires ValidDraws(d, MaxSizeIncrease)
  {
    var free := FreeAmong(before.Keys, f.AdjacentLocations(here, d.birthOrder));
    && |born| == Min(SizeExpansion(d.breedTest, d.litterDraw), |free|)
    && (forall i | 0 <= i < |born| :: IsNewborn(born[i], Plant, d.genders[i], f, free[i], 0))
    && CellsGrow(before, after, free[..|born|], born)
  }

  /** grow: one grown plant of water level 0 in each of the first
      sizeExpansion() free neighbours (fewer when fewer are free). Each
      grown plant's construction resets the shared age to 0. */
  method Grow(a: Animal, f: Field<Animal>, s: PlantStatics, d: Draws) returns (born: seq<Animal>)
    requires a.kind == Plant && Placed(f) && Located(a, f) && a.alive && ValidDraws(d, MaxSizeIncrease)
    modifies f, s
    ensures forall i | 0 <= i < |born| :: fresh(born[i])
    ensures Grown(f, old(f.cells), f.cells, a.location.value, d, born)
    ensures Placed(f) && Located(a, f)
    ensures s.age == if |born| > 0 then 0 else old(s.age)
  {
    var size := SizeExpansion(d.breedTest, d.litterDraw);
    ghost var free := f.GetFreeAdjacentLocations(a.location.value, d.birthOrder);
    born := GiveBirth(a, f, size, d.birthOrder, d.genders, 0);
    assert |free[..|born|]| == |born|;
    if |born| > 0 {
      // new Plant(field, loc, true) sets age to 0, then to getAge(), which is 0
      s.age := 0;
    }
  }

  /** Where a plant lands for one seed, when the cells in `taken` are
      occupied: nowhere unless the seed takes; its drawn cell, whose row is
      the width draw plus one and whose column is the depth draw plus one,
      when that cell is on the field and empty; otherwise the first free
      neighbour of that cell; otherwise nowhere. */
  function SeedSite(f: Field<Animal>, taken: set<Location>, sd: SeedDraws): Option<Location>
    requires IsShuffle(sd.order)
  {
    var loc := Location(sd.widthDraw + 1, sd.depthDraw + 1);
    if !sd.takes || !f.InBounds(loc) then None
    else if loc !in taken then Some(loc)
    else First(FreeAmong(taken, f.AdjacentLocations(loc, sd.order)))
  }

  /** A seed lands exactly when it takes and its drawn cell is on the field
      and is empty or has a free neighbour; it lands on its drawn cell when
      that is empty, and always on a free cell of the field. */
  lemma SeedSiteIsFree(f: Field<Animal>, taken: set<Location>, sd: SeedDraws)
    requires IsShuffle(sd.order)
    ensures var loc := Location(sd.widthDraw + 1, sd.depthDraw + 1);
            SeedSite(f, taken, sd).Some? <==>
              sd.takes && f.InBounds(loc)
              && (loc !in taken || exists m | f.InBounds(m) && IsNeighbour(loc, m) :: m !in taken)
    ensures var loc := Location(sd.widthDraw + 1, sd.depthDraw + 1);
            sd.takes && f.InBounds(loc) && loc !in taken ==> SeedSite(f, taken, sd) == Some(loc)
    ensures SeedSite(f, taken, sd).Some? ==>
              f.InBounds(SeedSite(f, taken, sd).value) && SeedSite(f, taken, sd).value !in taken
  {
    var loc := Location(sd.widthDraw + 1, sd.depthDraw + 1);
    if sd.takes && f.InBounds(loc) && loc in taken {
      var free := FreeAmong(taken, f.AdjacentLocations(loc, sd.order));
      if m :| f.InBounds(m) && IsNeighbour(loc, m) && m !in taken {
        assert m in free;
      }
    }
  }

  /** A plant grown from a seed: its cell, water level and gender draw. */
  datatype Landing = Landing(at: Location, water: int, genderDraw: nat)

  /** The cells of a list of landings. */
  function Sites(ls: seq<Landing>): (r: seq<Location>)
    ensures |r| == |ls| && forall i | 0 <= i < |ls| :: r[i] == ls[i].at
  {
    if |ls| == 0 then [] else [ls[0].at] + Sites(ls[1..])
  }

  /** The cells taken once the first `n` seeds of `sds` have landed,
      starting from the occupied cells `taken`: each seed sees the cells of
      the seeds before it. */
  function ScatteredTaken(f: Field<Animal>, taken: set<Location>, sds: seq<SeedDraws>, n: nat): set<Location>
    requires n <= |sds| && forall j | 0 <= j < |sds| :: IsShuffle(sds[j].order)
  {
    if n == 0 then taken
    else
      var prev := ScatteredTaken(f, taken, sds, n - 1);
      match SeedSite(f, prev, sds[n - 1])
      case None => prev
      case Some(l) => prev + {l}
  }

  /** Where the plants of the first `n` seeds of `sds` land, in seed order. */
  function ScatteredLanded(f: Field<Animal>, taken: set<Location>, sds: seq<SeedDraws>, n: nat): seq<Landing>
    requires n <= |sds| && forall j | 0 <= j < |sds| :: IsShuffle(sds[j].order)
  {
    if n == 0 then []
    else
      var prev := ScatteredLanded(f, taken, sds, n - 1);
      var sd := sds[n - 1];
      match SeedSite(f, ScatteredTaken(f, taken, sds, n - 1), sd)
      case None => prev
      case Some(l) => prev + [Landing(l, sd.waterDraw + 1, sd.genderDraw)]
  }

  /** One seed more: its plant lands, or not, where SeedSite says on the cells the earlier ones left. */
  lemma ScatteredStep(f: Field<Animal>, taken0: set<Location>, sds: seq<SeedDraws>, n: nat,
                      taken: set<Location>, ls: seq<Landing>, site: Option<Location>)
    requires n < |sds| && forall j | 0 <= j < |sds| :: IsShuffle(sds[j].order)
    requires taken == ScatteredTaken(f, taken0, sds, n) && ls == ScatteredLanded(f, taken0, sds, n)
    requires site == SeedSite(f, taken, sds[n])
    ensures ScatteredTaken(f, taken0, sds, n + 1) == if site.None? then taken else taken + {site.value}
    ensures ScatteredLanded(f, taken0, sds, n + 1) ==
              if site.None? then ls else ls + [Landing(site.value, sds[n].waterDraw + 1, sds[n].genderDraw)]
  {
  }

  /** Seeds land on distinct free cells of the field, at most one plant per seed. */
  lemma {:induction false} ScatteredIsFree(f: Field<Animal>, taken: set<Location>, sds: seq<SeedDraws>, n: nat)
    requires n <= |sds| && forall j | 0 <= j < |sds| :: IsShuffle(sds[j].order)
    ensures var ls := ScatteredLanded(f, taken, sds, n);
            && |ls| <= n
            && (forall i | 0 <= i < |ls| :: f.InBounds(ls[i].at) && ls[i].at !in taken)
            && (forall i, j | 0 <= i < j < |ls| :: ls[i].at != ls[j].at)
  {
    if n > 0 {
      ScatteredIsFree(f, taken, sds, n - 1);
      ScatteredCover(f, taken, sds, n - 1);
      var prev := ScatteredLanded(f, taken, sds, n - 1);
      var sd := sds[n - 1];
      SeedSiteIsFree(f, ScatteredTaken(f, taken, sds, n - 1), sd);
      var site := SeedSite(f, ScatteredTaken(f, taken, sds, n - 1), sd);
      if site.Some? {
        var ls := prev + [Landing(site.value, sd.waterDraw + 1, sd.genderDraw)];
        assert ls[|prev|].at == site.value;
        assert forall i | 0 <= i < |prev| :: ls[i] == prev[i];
      }
    }
  }

  /** The cells taken after the first `n` seeds are the original ones and theirs. */
  lemma {:induction false} ScatteredCover(f: Field<Animal>, taken: set<Location>, sds: seq<SeedDraws>, n: nat)
    requires n <= |sds| && forall j | 0 <= j < |sds| :: IsShuffle(sds[j].order)
    ensures forall l :: l in ScatteredTaken(f, taken, sds, n) <==>
              l in taken || exists i | 0 <= i < |ScatteredLanded(f, taken, sds, n)| :: ScatteredLanded(f, taken, sds, n)[i].at == l
  {
    if n > 0 {
      ScatteredCover(f, taken, sds, n - 1);
      var prev := ScatteredLanded(f, taken, sds, n - 1);
      var sd := sds[n - 1];
      var site := SeedSite(f, ScatteredTaken(f, taken, sds, n - 1), sd);
      var ls := ScatteredLanded(f, taken, sds, n);
      ScatteredStep(f, taken, sds, n - 1, ScatteredTaken(f, taken, sds, n - 1), prev, site);
      assert forall i | 0 <= i < |prev| :: ls[i] == prev[i];
      forall l ensures l in ScatteredTaken(f, taken, sds, n) <==> l in taken || exists i | 0 <= i < |ls| :: ls[i].at == l {
        if site.Some? && l == site.value {
          assert ls[|prev|].at == l;
        } else if exists i | 0 <= i < |ls| :: ls[i].at == l {
          var i :| 0 <= i < |ls| && ls[i].at == l;
          assert i < |prev| && prev[i].at == l;
        }
      }
    }
  }

  /** `p` is the plant of landing `l`: a new live plant of age 0 on `l`'s cell. */
  ghost predicate IsSeedling(p: Animal, f: Field<Animal>, l: Landing)
    reads p
  {
    && l.genderDraw < 2
    && p.kind == Plant && p.gender == GenderOf(l.genderDraw) && p.waterLevel == l.water
    && p.alive && p.location == Some(l.at) && p.field == f
  }

  /** `p` is a plant of landing `l`'s gender draw and water level. */
  predicate Sown(p: Animal, l: Landing)
    reads p`waterLevel
  {
    l.genderDraw < 2 && p.kind == Plant && p.gender == GenderOf(l.genderDraw) && p.waterLevel == l.water
  }

  /** Plants that stand where the landings say are their seedlings. */
  lemma SeededAreSeedlings(f: Field<Animal>, before: map<Location, Animal>, ls: seq<Landing>, born: seq<Animal>)
    requires Seeded(f, before, ls, born)
    requires forall i | 0 <= i < |born| :: Sown(born[i], ls[i])
    ensures forall i | 0 <= i < |born| :: IsSeedling(born[i], f, ls[i])
  {
    forall i | 0 <= i < |born| ensures IsSeedling(born[i], f, ls[i]) {
      assert ls[i].at in f.cells && f.cells[ls[i].at] == born[i];
    }
  }

  /** The plants `born` stand on the field, as the landings `ls` say, among
      the cells `before` held. */
  ghost predicate Seeded(f: Field<Animal>, before: map<Location, Animal>, ls: seq<Landing>, born: seq<Animal>)
    reads f, f.cells.Values`alive, f.cells.Values`location, f.cells.Values`field
  {
    Sprouted(before, f.cells, ls, born) && Placed(f)
  }

  /** `after` keeps the cells of `before` and holds `born[i]` on the cell of `ls[i]`. */
  predicate Sprouted(before: map<Location, Animal>, after: map<Location, Animal>, ls: seq<Landing>, born: seq<Animal>)
  {
    && |born| == |ls|
    && (forall l | l in before :: l in after && after[l] == before[l])
    && (forall i | 0 <= i < |ls| :: ls[i].at in after && after[ls[i].at] == born[i])
  }

  /** Sprouted cells that account for every cell of `after` make a growth. */
  lemma SproutedGrows(before: map<Location, Animal>, after: map<Location, Animal>, ls: seq<Landing>, born: seq<Animal>)
    requires Sprouted(before, after, ls, born)
    requires forall l | l in after :: l in before || exists i | 0 <= i < |ls| :: ls[i].at == l
    ensures CellsGrow(before, after, Sites(ls), born)
  {
    var sites := Sites(ls);
    assert forall i | 0 <= i < |ls| :: sites[i] == ls[i].at;
  }

  /** The plants `born` of the seeds landed as `ls`, which `after` adds to `before`. */
  ghost predicate Dispersed(f: Field<Animal>, before: map<Location, Animal>, after: map<Location, Animal>,
                            ls: seq<Landing>, born: seq<Animal>)
    reads Elements(born)
  {
    && |born| == |ls|
    && (forall i | 0 <= i < |born| :: IsSeedling(born[i], f, ls[i]))
    && CellsGrow(before, after, Sites(ls), born)
  }

  /** seedDispersal: no seeds unless the plant can breed and the probability
      test passes, and then 1 to 10; the seeds' plants land as
      ScatteredLanded says, and each resets the shared age. */
  method SeedDispersal(a: Animal, f: Field<Animal>, s: PlantStatics, test: bool, d: Draws) returns (born: seq<Animal>)
    requires a.kind == Plant && Placed(f) && Located(a, f) && a.alive && ValidPlantDraws(d, f)
    modifies f, s
    ensures forall i | 0 <= i < |born| :: fresh(born[i])
    ensures Dispersed(f, old(f.cells), f.cells,
                      ScatteredLanded(f, old(f.cells).Keys, d.seeds, Breed(CanBreed(old(s.age)), test, d.seedDraw, MaxSeeds)), born)
    ensures Placed(f) && Located(a, f)
    ensures s.age == if |born| > 0 then 0 else old(s.age)
  {
    var seeds := Breed(CanBreed(s.age), test, d.seedDraw, MaxSeeds);
    ghost var here, cells0, age0 := a.location.value, f.cells, s.age;
    born := Disperse(f, s, d.seeds, seeds, cells0, age0);
    DispersingEnds(f, s, cells0, d.seeds, seeds, age0, born);
    ghost var ls := ScatteredLanded(f, cells0.Keys, d.seeds, seeds);
    SeededAreSeedlings(f, cells0, ls, born);
    ScatteredIsFree(f, cells0.Keys, d.seeds, seeds);
    ScatteredCover(f, cells0.Keys, d.seeds, seeds);
    SproutedGrows(cells0, f.cells, ls, born);
    assert |born| == |ls| && here in cells0;
  }

  /** The draws of seeds that can be dispersed. */
  predicate SeedsFit(sds: seq<SeedDraws>)
  {
    forall j | 0 <= j < |sds| :: IsShuffle(sds[j].order) && sds[j].waterDraw < 20 && sds[j].genderDraw < 2
  }

  /** The dispersal loop over the first `seeds` seed draws. */
  method Disperse(f: Field<Animal>, s: PlantStatics, sds: seq<SeedDraws>, seeds: nat,
                  ghost cells0: map<Location, Animal>, ghost age0: int)
    returns (born: seq<Animal>)
    requires Placed(f) && SeedsFit(sds) && seeds <= |sds|
    requires cells0 == f.cells && age0 == s.age
    modifies f, s
    ensures forall i | 0 <= i < |born| :: fresh(born[i])
    ensures Dispersing(f, s, cells0, sds, seeds, age0, born)
    ensures forall i | 0 <= i < |born| :: Sown(born[i], ScatteredLanded(f, cells0.Keys, sds, seeds)[i])
  {
    born := [];
    DispersingStarts(f, s, cells0, sds);
    var seed := 0;
    while seed < seeds
      invariant 0 <= seed <= seeds
      invariant forall i | 0 <= i < |born| :: fresh(born[i])
      invariant Dispersing(f, s, cells0, sds, seed, age0, born)
      invariant forall i | 0 <= i < |born| :: Sown(born[i], ScatteredLanded(f, cells0.Keys, sds, seed)[i])
    {
      var added := DisperseNext(f, s, cells0, sds, seed, age0, born);
      born := born + added;
      seed := seed + 1;
    }
  }

  lemma DispersingStarts(f: Field<Animal>, s: PlantStatics, cells0: map<Location, Animal>, sds: seq<SeedDraws>)
    requires forall j | 0 <= j < |sds| :: IsShuffle(sds[j].order)
    requires Placed(f) && cells0 == f.cells
    ensures Dispersing(f, s, cells0, sds, 0, s.age, [])
  {
  }

  lemma DispersingEnds(f: Field<Animal>, s: PlantStatics, cells0: map<Location, Animal>, sds: seq<SeedDraws>,
                       seed: nat, age0: int, born: seq<Animal>)
    requires seed <= |sds| && forall j | 0 <= j < |sds| :: IsShuffle(sds[j].order)
    requires Dispersing(f, s, cells0, sds, seed, age0, born)
    ensures var ls := ScatteredLanded(f, cells0.Keys, sds, seed);
            && Seeded(f, cells0, ls, born) && f.cells.Keys == ScatteredTaken(f, cells0.Keys, sds, seed)
            && s.age == if |ls| == 0 then age0 else 0
  {
  }

  /** The state of the dispersal loop after `seed` seeds, which started on the
      cells `cells0` with the shared age at `age0`. */
  ghost predicate Dispersing(f: Field<Animal>, s: PlantStatics, cells0: map<Location, Animal>, sds: seq<SeedDraws>,
                             seed: nat, age0: int, born: seq<Animal>)
    reads f, f.cells.Values`alive, f.cells.Values`location, f.cells.Values`field, s
    requires seed <= |sds| && forall j | 0 <= j < |sds| :: IsShuffle(sds[j].order)
  {
    DispersedAs(f, s, cells0, ScatteredTaken(f, cells0.Keys, sds, seed), ScatteredLanded(f, cells0.Keys, sds, seed), age0, born)
  }

  /** The field holds the cells `cells0` and the plants `born` of the
      landings `ls`, which take the cells `taken`, and the shared age was
      reset from `age0` if any plant landed. */
  ghost predicate DispersedAs(f: Field<Animal>, s: PlantStatics, cells0: map<Location, Animal>, taken: set<Location>,
                              ls: seq<Landing>, age0: int, born: seq<Animal>)
    reads f, f.cells.Values`alive, f.cells.Values`location, f.cells.Values`field, s
  {
    && f.cells.Keys == taken
    && Seeded(f, cells0, ls, born)
    && s.age == if |ls| == 0 then age0 else 0
  }

  /** One turn of the dispersal loop, on seed `seed`. */
  method DisperseNext(f: Field<Animal>, s: PlantStatics, ghost cells0: map<Location, Animal>, sds: seq<SeedDraws>,
                      seed: nat, ghost age0: int, born: seq<Animal>)
    returns (added: seq<Animal>)
    requires seed < |sds| && forall j | 0 <= j < |sds| :: IsShuffle(sds[j].order)
    requires sds[seed].waterDraw < 20 && sds[seed].genderDraw < 2
    requires Dispersing(f, s, cells0, sds, seed, age0, born)
    requires forall i | 0 <= i < |born| :: Sown(born[i], ScatteredLanded(f, cells0.Keys, sds, seed)[i])
    modifies f, s
    ensures forall i | 0 <= i < |added| :: fresh(added[i])
    ensures Dispersing(f, s, cells0, sds, seed + 1, age0, born + added)
    ensures forall i | 0 <= i < |born + added| :: Sown((born + added)[i], ScatteredLanded(f, cells0.Keys, sds, seed + 1)[i])
  {
    var sd := sds[seed];
    ghost var taken, ls := ScatteredTaken(f, cells0.Keys, sds, seed), ScatteredLanded(f, cells0.Keys, sds, seed);
    ghost var taken', ls' := ScatteredTaken(f, cells0.Keys, sds, seed + 1), ScatteredLanded(f, cells0.Keys, sds, seed + 1);
    ghost var site := SeedSite(f, taken, sd);
    ScatteredStep(f, cells0.Keys, sds, seed, taken, ls, site);
    var q := DisperseStep(f, s, sd, site, cells0, age0, taken, ls, taken', ls', born);
    added := if q.Some? then [q.value] else [];
  }

  /** The body of the dispersal loop: the plant of seed `sd`, if it lands on
      the cells `taken` that the field and the plants `born` of the earlier
      seeds (landed as `ls`) leave, joins them. */
  method DisperseStep(f: Field<Animal>, s: PlantStatics, sd: SeedDraws, ghost site: Option<Location>,
                      ghost cells0: map<Location, Animal>, ghost age0: int,
                      ghost taken: set<Location>, ghost ls: seq<Landing>,
                      ghost taken': set<Location>, ghost ls': seq<Landing>, born: seq<Animal>)
    returns (q: Option<Animal>)
    requires IsShuffle(sd.order) && sd.waterDraw < 20 && sd.genderDraw < 2 && site == SeedSite(f, taken, sd)
    requires taken' == if site.None? then taken else taken + {site.value}
    requires ls' == if site.None? then ls else ls + [Landing(site.value, sd.waterDraw + 1, sd.genderDraw)]
    requires DispersedAs(f, s, cells0, taken, ls, age0, born)
    requires forall i | 0 <= i < |born| :: Sown(born[i], ls[i])
    modifies f, s
    ensures q.Some? ==> fresh(q.value)
    ensures var born' := if q.Some? then born + [q.value] else born;
            && DispersedAs(f, s, cells0, taken', ls', age0, born')
            && forall i | 0 <= i < |born'| :: Sown(born'[i], ls'[i])
  {
    ghost var before := f.cells;
    q := DisperseSeed(f, s, sd, taken, site);
    if q.Some? {
      Sprout(before, f.cells, ls, born, cells0, Landing(site.value, sd.waterDraw + 1, sd.genderDraw), q.value);
    }
  }

  /** One round of the dispersal loop: the plant of seed `sd`, if it lands. */
  method DisperseSeed(f: Field<Animal>, s: PlantStatics, sd: SeedDraws,
                      ghost taken: set<Location>, ghost site: Option<Location>)
    returns (p: Option<Animal>)
    requires Placed(f) && f.cells.Keys == taken
    requires IsShuffle(sd.order) && sd.waterDraw < 20 && sd.genderDraw < 2 && site == SeedSite(f, taken, sd)
    modifies f, s
    ensures Placed(f)
    ensures p.Some? <==> site.Some?
    ensures p.None? ==> f.cells == old(f.cells) && s.age == old(s.age)
    ensures p.Some? ==>
              var l := site.value;
              && fresh(p.value) && Sown(p.value, Landing(l, sd.waterDraw + 1, sd.genderDraw))
              && l !in taken && f.cells == old(f.cells)[l := p.value] && f.cells.Keys == taken + {l} && s.age == 0
  {
    var spot: Option<Location> := None;
    if sd.takes {
      var loc := Location(sd.widthDraw + 1, sd.depthDraw + 1);
      // off the field, getObjectAt throws and the seed is discarded
      if f.InBounds(loc) {
        if f.GetObjectAt(loc).None? {
          spot := Some(loc);
        } else {
          // with no free neighbour the constructor throws in place() and the seed is discarded
          spot := f.FreeAdjacentLocation(loc, sd.order);
        }
      }
    }
    assert spot == site;
    p := None;
    if spot.Some? {
      var plant := Seedling(f, s, spot.value, sd.waterDraw, sd.genderDraw);
      p := Some(plant);
    }
  }

  /** new Plant(false, field, location) for a seed, on an empty cell. */
  method Seedling(f: Field<Animal>, s: PlantStatics, loc: Location, waterDraw: nat, genderDraw: nat)
    returns (p: Animal)
    requires Placed(f) && f.InBounds(loc) && loc !in f.cells && waterDraw < 20 && genderDraw < 2
    modifies f, s
    ensures fresh(p) && IsSeedling(p, f, Landing(loc, waterDraw + 1, genderDraw))
    ensures f.cells == old(f.cells)[loc := p] && Placed(f)
    ensures s.age == 0
  {
    p := Create(false, 0, waterDraw, genderDraw, s, f, loc);
  }

  /** One more plant on an empty cell keeps the field sprouted from the original cells. */
  lemma Sprout(mid: map<Location, Animal>, after: map<Location, Animal>, ls: seq<Landing>, born: seq<Animal>,
               before: map<Location, Animal>, l: Landing, p: Animal)
    requires Sprouted(before, mid, ls, born) && l.at !in mid && after == mid[l.at := p]
    ensures Sprouted(before, after, ls + [l], born + [p])
  {
    assert (ls + [l])[|ls|] == l;
  }

  /** grow followed by seedDispersal, for the plant on `here` with the shared
      age at `age`: the grown plants come first in `born`, as Grown says; the
      seedlings follow, their seeds seeing the grown plants' cells taken and
      the shared age that growing left (0 once a plant has grown). */
  ghost predicate GrewAndSeeded(f: Field<Animal>, before: map<Location, Animal>, after: map<Location, Animal>,
                                here: Location, age: int, d: Draws, born: seq<Animal>)
    reads Elements(born)
    requires ValidPlantDraws(d, f)
  {
    var free := FreeAmong(before.Keys, f.AdjacentLocations(here, d.birthOrder));
    var k := Min(SizeExpansion(d.breedTest, d.litterDraw), |free|);
    var ls := ScatteredLanded(f, before.Keys + Elements(free[..k]), d.seeds,
                              Breed(CanBreed(if k > 0 then 0 else age), d.seedTest, d.seedDraw, MaxSeeds));
    SeededGrowth(f, before, after, free[..k], ls, d.genders, born)
  }

  /** `born` is plants grown on the cells `grown` (the i-th of gender draw
      `genders[i]`) followed by the seedlings of the landings `ls`, and
      `after` is `before` with them added. */
  ghost predicate SeededGrowth(f: Field<Animal>, before: map<Location, Animal>, after: map<Location, Animal>,
                               grown: seq<Location>, ls: seq<Landing>, genders: seq<nat>, born: seq<Animal>)
    reads Elements(born)
  {
    && |born| == |grown| + |ls| && |grown| <= |genders|
    && (forall i | 0 <= i < |grown| :: IsNewborn(born[i], Plant, genders[i], f, grown[i], 0))
    && (forall i | 0 <= i < |ls| :: IsSeedling(born[|grown| + i], f, ls[i]))
    && CellsGrow(before, after, grown + Sites(ls), born)
  }

  /** The cells a growth adds are the listed ones. */
  lemma CellsGrowKeys(before: map<Location, Animal>, after: map<Location, Animal>, sites: seq<Location>, born: seq<Animal>)
    requires CellsGrow(before, after, sites, born)
    ensures after.Keys == before.Keys + Elements(sites)
  {
    forall l | l in before.Keys + Elements(sites) ensures l in after.Keys {
      if l !in before {
        var i :| 0 <= i < |sites| && sites[i] == l;
      }
    }
  }

  /** Growth on `before` giving `mid`, then dispersal on `mid` giving `after`,
      is what GrewAndSeeded describes. */
  lemma GrowthThenDispersal(f: Field<Animal>, before: map<Location, Animal>, mid: map<Location, Animal>,
                            after: map<Location, Animal>, here: Location, age: int, d: Draws,
                            grown: seq<Animal>, seeded: seq<Animal>)
    requires ValidPlantDraws(d, f)
    requires Grown(f, before, mid, here, d, grown)
    requires Dispersed(f, mid, after,
                       ScatteredLanded(f, mid.Keys, d.seeds,
                                       Breed(CanBreed(if |grown| > 0 then 0 else age), d.seedTest, d.seedDraw, MaxSeeds)),
                       seeded)
    ensures GrewAndSeeded(f, before, after, here, age, d, grown + seeded)
  {
    var free := FreeAmong(before.Keys, f.AdjacentLocations(here, d.birthOrder));
    var k := |grown|;
    CellsGrowKeys(before, mid, free[..k], grown);
    var n := Breed(CanBreed(if k > 0 then 0 else age), d.seedTest, d.seedDraw, MaxSeeds);
    var ls := ScatteredLanded(f, mid.Keys, d.seeds, n);
    ScatteredIsFree(f, mid.Keys, d.seeds, n);
    SeedingComposes(f, before, mid, after, free[..k], grown, ls, seeded, d.genders);
  }

  /** Plants grown on the cells `s1` and then seedlings of the landings `ls`
      are the newcomers of one combined growth. */
  lemma SeedingComposes(f: Field<Animal>, before: map<Location, Animal>, mid: map<Location, Animal>,
                        after: map<Location, Animal>, s1: seq<Location>, b1: seq<Animal>,
                        ls: seq<Landing>, b2: seq<Animal>, genders: seq<nat>)
    requires CellsGrow(before, mid, s1, b1) && |b1| <= |genders|
    requires forall i | 0 <= i < |b1| :: IsNewborn(b1[i], Plant, genders[i], f, s1[i], 0) && s1[i] !in before
    requires Dispersed(f, mid, after, ls, b2)
    requires forall i | 0 <= i < |ls| :: ls[i].at !in mid
    ensures SeededGrowth(f, before, after, s1, ls, genders, b1 + b2)
  {
    var born := b1 + b2;
    assert forall i | 0 <= i < |b1| :: born[i] == b1[i];
    assert forall i | 0 <= i < |ls| :: born[|b1| + i] == b2[i];
    CellsGrowCompose(before, mid, after, s1, b1, Sites(ls), b2);
  }

  /** grow then seedDispersal, as a windy act or sleep does. */
  method GrowAndSeed(a: Animal, f: Field<Animal>, s: PlantStatics, d: Draws) returns (born: seq<Animal>)
    requires a.kind == Plant && Placed(f) && Located(a, f) && a.alive && ValidPlantDraws(d, f)
    modifies f, s
    ensures forall i | 0 <= i < |born| :: fresh(born[i])
    ensures GrewAndSeeded(f, old(f.cells), f.cells, a.location.value, old(s.age), d, born)
    ensures Placed(f) && Located(a, f)
    ensures s.age == if |born| > 0 then 0 else old(s.age)
  {
    ghost var before, age := f.cells, s.age;
    var grown := Grow(a, f, s, d);
    born := SeedAfterGrowth(a, f, s, d, before, age, grown);
  }

  /** The seedDispersal half of GrowAndSeed, after grow gave `grown`. */
  method SeedAfterGrowth(a: Animal, f: Field<Animal>, s: PlantStatics, d: Draws,
                         ghost before: map<Location, Animal>, ghost age: int, grown: seq<Animal>)
    returns (born: seq<Animal>)
    requires a.kind == Plant && Placed(f) && Located(a, f) && a.alive && ValidPlantDraws(d, f)
    requires Grown(f, before, f.cells, a.location.value, d, grown)
    requires s.age == if |grown| > 0 then 0 else age
    modifies f, s
    ensures |grown| <= |born| && born[..|grown|] == grown
    ensures forall i | |grown| <= i < |born| :: fresh(born[i])
    ensures GrewAndSeeded(f, before, f.cells, a.location.value, age, d, born)
    ensures Placed(f) && Located(a, f)
    ensures s.age == if |born| > 0 then 0 else age
  {
    ghost var mid := f.cells;
    var seeded := SeedDispersal(a, f, s, d.seedTest, d);
    born := grown + seeded;
    GrowthThenDispersal(f, before, mid, f.cells, a.location.value, age, d, grown, seeded);
  }

  /** Where the seeds of a seedDispersal land on cells `before` with the
      shared age at `age`. */
  ghost function SeedLandings(f: Field<Animal>, before: map<Location, Animal>, age: int, d: Draws): seq<Landing>
    requires ValidPlantDraws(d, f)
  {
    ScatteredLanded(f, before.Keys, d.seeds, Breed(CanBreed(age), d.seedTest, d.seedDraw, MaxSeeds))
  }

  /** How many plants grow: none unless the growing test passes, no more
      than sizeExpansion(), and fewer only when every neighbour of `here`
      is then taken. */
  lemma GrownCount(f: Field<Animal>, before: map<Location, Animal>, after: map<Location, Animal>,
                   here: Location, d: Draws, born: seq<Animal>)
    requires ValidDraws(d, MaxSizeIncrease) && Grown(f, before, after, here, d, born)
    ensures !d.breedTest ==> born == []
    ensures |born| <= SizeExpansion(d.breedTest, d.litterDraw) <= MaxSizeIncrease
    ensures |born| < SizeExpansion(d.breedTest, d.litterDraw) ==>
              forall m | f.InBounds(m) && IsNeighbour(here, m) :: m in after
  {
    var free := FreeAmong(before.Keys, f.AdjacentLocations(here, d.birthOrder));
    if |born| < SizeExpansion(d.breedTest, d.litterDraw) {
      forall m | f.InBounds(m) && IsNeighbour(here, m) ensures m in after {
        if m !in before {
          assert m in free;
          var i :| 0 <= i < |free| && free[i] == m;
          assert free[..|born|][i] == m;
        }
      }
    }
  }

  /** Where plants grow: each grown plant is a live young plant of water
      level 0 on its own neighbour of `here` that was free, and the field
      keeps every other cell as it was. */
  lemma GrownCells(f: Field<Animal>, before: map<Location, Animal>, after: map<Location, Animal>,
                   here: Location, d: Draws, born: seq<Animal>)
    requires ValidDraws(d, MaxSizeIncrease) && Grown(f, before, after, here, d, born)
    ensures forall i | 0 <= i < |born| ::
              && born[i].location.Some? && born[i].field == f && born[i].alive
              && born[i].kind == Plant && born[i].age == 0 && born[i].waterLevel == 0
              && var l := born[i].location.value;
                 f.InBounds(l) && IsNeighbour(here, l) && l !in before && after[l] == born[i]
    ensures forall i, j | 0 <= i < j < |born| :: born[i].location != born[j].location
    ensures forall l | l in before :: l in after && after[l] == before[l]
    ensures forall l | l in after && l !in before :: exists i | 0 <= i < |born| :: born[i].location == Some(l)
  {
    var free := FreeAmong(before.Keys, f.AdjacentLocations(here, d.birthOrder));
    var sites := free[..|born|];
    assert forall i | 0 <= i < |born| :: sites[i] == free[i];
    forall l | l in after && l !in before ensures exists i | 0 <= i < |born| :: born[i].location == Some(l) {
      var i :| 0 <= i < |sites| && sites[i] == l;
    }
  }

  /** How many seeds land: none unless the plant can breed and the
      dispersal test passes, and never more than 10. */
  lemma SeedsCount(f: Field<Animal>, before: map<Location, Animal>, after: map<Location, Animal>,
                   age: int, d: Draws, born: seq<Animal>)
    requires ValidPlantDraws(d, f) && Dispersed(f, before, after, SeedLandings(f, before, age, d), born)
    ensures !(CanBreed(age) && d.seedTest) ==> born == []
    ensures |born| <= MaxSeeds
  {
    ScatteredIsFree(f, before.Keys, d.seeds, Breed(CanBreed(age), d.seedTest, d.seedDraw, MaxSeeds));
  }

  /** Where seeds land: each seedling is a live plant of water level 1 to
      20 on its own cell of the field that was free. */
  lemma SeedsCells(f: Field<Animal>, before: map<Location, Animal>, after: map<Location, Animal>,
                   age: int, d: Draws, born: seq<Animal>)
    requires ValidPlantDraws(d, f) && Dispersed(f, before, after, SeedLandings(f, before, age, d), born)
    ensures forall i | 0 <= i < |born| ::
              && born[i].location.Some? && born[i].field == f && born[i].alive
              && born[i].kind == Plant && 1 <= born[i].waterLevel <= 20
              && var l := born[i].location.value;
                 f.InBounds(l) && l !in before && l in after && after[l] == born[i]
    ensures forall i, j | 0 <= i < j < |born| :: born[i].location != born[j].location
  {
    var n := Breed(CanBreed(age), d.seedTest, d.seedDraw, MaxSeeds);
    ScatteredIsFree(f, before.Keys, d.seeds, n);
    LandedWater(f, before.Keys, d.seeds, n);
  }

  /** The field keeps every cell it had, and its new cells hold the seedlings. */
  lemma SeedsKeep(f: Field<Animal>, before: map<Location, Animal>, after: map<Location, Animal>,
                  age: int, d: Draws, born: seq<Animal>)
    requires ValidPlantDraws(d, f) && Dispersed(f, before, after, SeedLandings(f, before, age, d), born)
    ensures forall l | l in before :: l in after && after[l] == before[l]
    ensures forall l | l in after && l !in before :: exists i | 0 <= i < |born| :: born[i].location == Some(l)
  {
    var ls := SeedLandings(f, before, age, d);
    var sites := Sites(ls);
    forall l | l in after && l !in before ensures exists i | 0 <= i < |born| :: born[i].location == Some(l) {
      var i :| 0 <= i < |sites| && sites[i] == l;
      assert IsSeedling(born[i], f, ls[i]);
    }
  }


  /** Every landed seed's plant has 1 to 20 units of water. */
  lemma {:induction false} LandedWater(f: Field<Animal>, taken: set<Location>, sds: seq<SeedDraws>, n: nat)
    requires n <= |sds| && SeedsFit(sds)
    ensures forall i | 0 <= i < |ScatteredLanded(f, taken, sds, n)| :: 1 <= ScatteredLanded(f, taken, sds, n)[i].water <= 20
  {
    if n > 0 {
      LandedWater(f, taken, sds, n - 1);
      var prev := ScatteredLanded(f, taken, sds, n - 1);
      assert forall i | 0 <= i < |prev| :: 1 <= prev[i].water <= 20;
      var ls := ScatteredLanded(f, taken, sds, n);
      var site := SeedSite(f, ScatteredTaken(f, taken, sds, n - 1), sds[n - 1]);
      if site.Some? {
        assert ls == prev + [Landing(site.value, sds[n - 1].waterDraw + 1, sds[n - 1].genderDraw)];
        assert forall i | 0 <= i < |prev| :: ls[i] == prev[i];
        assert sds[n - 1].waterDraw < 20 && ls[|prev|].water == sds[n - 1].waterDraw + 1;
      } else {
        assert ls == prev;
      }
    }
  }

  /** How a plant's turn ends, from cells `before` with the plant on `at`
      and the shared age raised to `age1`: a plant that `lives` keeps its
      cell, `settled` describes its newcomers, and the shared age is reset
      when there are any; otherwise it has died and has none. */
  ghost predicate TurnEnds(f: Field<Animal>, a: Animal, s: PlantStatics, before: map<Location, Animal>,
                           at: Option<Location>, lives: bool, age1: int, born: seq<Animal>, settled: bool)
    reads f, f.cells.Values`alive, f.cells.Values`location, f.cells.Values`field, a`alive, a`location, a`field, s
  {
    && a.alive == lives
    && (!lives ==> born == [] && s.age == age1 && Died(f, a, before, at))
    && (lives ==> && a.location == at && Placed(f) && Located(a, f) && settled
                  && s.age == if |born| > 0 then 0 else age1)
  }

  /** A growth of the field by newcomers that stand on the cells it adds settles everyone. */
  lemma GrowthSettles(f: Field<Animal>, a: Animal, before: map<Location, Animal>, sites: seq<Location>, born: seq<Animal>)
    requires Placed(f) && Located(a, f) && CellsGrow(before, f.cells, sites, born)
    requires forall i | 0 <= i < |born| :: born[i].alive && born[i].field == f && born[i].location == Some(sites[i])
    ensures Settled(f, a, before, born)
  {
    forall b | b in f.cells.Values ensures b in before.Values + Elements(born) {
      var l :| l in f.cells && f.cells[l] == b;
      if l !in before {
        var i :| 0 <= i < |sites| && sites[i] == l;
        assert b == born[i];
      }
    }
    Settles(f, a, before, born, {});
  }

  lemma GrownSettles(f: Field<Animal>, a: Animal, before: map<Location, Animal>, here: Location, d: Draws, born: seq<Animal>)
    requires ValidDraws(d, MaxSizeIncrease) && Placed(f) && Located(a, f) && Grown(f, before, f.cells, here, d, born)
    ensures Settled(f, a, before, born)
  {
    var free := FreeAmong(before.Keys, f.AdjacentLocations(here, d.birthOrder));
    GrowthSettles(f, a, before, free[..|born|], born);
  }

  lemma DispersedSettles(f: Field<Animal>, a: Animal, before: map<Location, Animal>, ls: seq<Landing>, born: seq<Animal>)
    requires Placed(f) && Located(a, f) && Dispersed(f, before, f.cells, ls, born)
    ensures Settled(f, a, before, born)
  {
    GrowthSettles(f, a, before, Sites(ls), born);
  }

  lemma GrewAndSeededSettles(f: Field<Animal>, a: Animal, before: map<Location, Animal>, here: Location, age: int,
                             d: Draws, born: seq<Animal>)
    requires ValidPlantDraws(d, f) && Placed(f) && Located(a, f) && GrewAndSeeded(f, before, f.cells, here, age, d, born)
    ensures Settled(f, a, before, born)
  {
    var free := FreeAmong(before.Keys, f.AdjacentLocations(here, d.birthOrder));
    var k := Min(SizeExpansion(d.breedTest, d.litterDraw), |free|);
    var ls := ScatteredLanded(f, before.Keys + Elements(free[..k]), d.seeds,
                              Breed(CanBreed(if k > 0 then 0 else age), d.seedTest, d.seedDraw, MaxSeeds));
    var sites := free[..k] + Sites(ls);
    assert forall i | k <= i < |born| :: sites[i] == ls[i - k].at;
    GrowthSettles(f, a, before, sites, born);
  }

  /** act on a sunny day: age, thirst by `d.decrement`, then, for a plant
      still alive, grow. */
  method SunnyDay(a: Animal, f: Field<Animal>, s: PlantStatics, d: Draws) returns (born: seq<Animal>)
    requires a.kind == Plant && Placed(f) && Located(a, f) && ValidPlantDraws(d, f)
    modifies a, f, s
    ensures forall i | 0 <= i < |born| :: fresh(born[i])
    ensures Settled(f, a, old(f.cells), born)
    ensures a.waterLevel == old(a.waterLevel) - d.decrement
    ensures var lives := old(a.alive) && old(s.age) + 1 <= MaxAge && old(a.waterLevel) - d.decrement >= 0;
            TurnEnds(f, a, s, old(f.cells), old(a.location), lives, old(s.age) + 1, born,
                     lives ==> Grown(f, old(f.cells), f.cells, old(a.location).value, d, born))
  {
    born := [];
    IncrementAge(a, f, s);
    IncrementThirst(a, f, d.decrement);
    if a.alive {
      born := Grow(a, f, s, d);
      GrownSettles(f, a, old(f.cells), a.location.value, d, born);
    } else {
      DiedSettles(f, a, old(f.cells), old(a.location));
    }
  }

  /** A calm night (sleep, neither rainy nor windy): age, then, for a plant
      still alive, grow. */
  method CalmNight(a: Animal, f: Field<Animal>, s: PlantStatics, d: Draws) returns (born: seq<Animal>)
    requires a.kind == Plant && Placed(f) && Located(a, f) && ValidPlantDraws(d, f)
    modifies a, f, s
    ensures forall i | 0 <= i < |born| :: fresh(born[i])
    ensures Settled(f, a, old(f.cells), born)
    ensures a.waterLevel == old(a.waterLevel)
    ensures var lives := old(a.alive) && old(s.age) + 1 <= MaxAge;
            TurnEnds(f, a, s, old(f.cells), old(a.location), lives, old(s.age) + 1, born,
                     lives ==> Grown(f, old(f.cells), f.cells, old(a.location).value, d, born))
  {
    born := [];
    IncrementAge(a, f, s);
    if a.alive {
      born := Grow(a, f, s, d);
      GrownSettles(f, a, old(f.cells), a.location.value, d, born);
    } else {
      DiedSettles(f, a, old(f.cells), old(a.location));
    }
  }

  /** A windy act or sleep: age, then, for a plant still alive, grow and
      disperse seeds. */
  method WindyTurn(a: Animal, f: Field<Animal>, s: PlantStatics, d: Draws) returns (born: seq<Animal>)
    requires a.kind == Plant && Placed(f) && Located(a, f) && ValidPlantDraws(d, f)
    modifies a, f, s
    ensures forall i | 0 <= i < |born| :: fresh(born[i])
    ensures Settled(f, a, old(f.cells), born)
    ensures a.waterLevel == old(a.waterLevel)
    ensures var lives := old(a.alive) && old(s.age) + 1 <= MaxAge;
            TurnEnds(f, a, s, old(f.cells), old(a.location), lives, old(s.age) + 1, born,
                     lives ==> GrewAndSeeded(f, old(f.cells), f.cells, old(a.location).value, old(s.age) + 1, d, born))
  {
    born := [];
    IncrementAge(a, f, s);
    if a.alive {
      born := GrowAndSeed(a, f, s, d);
      GrewAndSeededSettles(f, a, old(f.cells), a.location.value, old(s.age) + 1, d, born);
    } else {
      DiedSettles(f, a, old(f.cells), old(a.location));
    }
  }

  /** A rainy act or sleep: age, one more unit of water, then, for a plant
      still alive, disperse seeds. By day the water comes whether or not
      the plant lives (`byDay`); by night only to a live plant. */
  method RainyTurn(a: Animal, f: Field<Animal>, s: PlantStatics, d: Draws, byDay: bool) returns (born: seq<Animal>)
    requires a.kind == Plant && Placed(f) && Located(a, f) && ValidPlantDraws(d, f)
    modifies a, f, s
    ensures forall i | 0 <= i < |born| :: fresh(born[i])
    ensures Settled(f, a, old(f.cells), born)
    ensures var lives := old(a.alive) && old(s.age) + 1 <= MaxAge;
            && a.waterLevel == old(a.waterLevel) + (if byDay || lives then 1 else 0)
            && TurnEnds(f, a, s, old(f.cells), old(a.location), lives, old(s.age) + 1, born,
                        lives ==> Dispersed(f, old(f.cells), f.cells, SeedLandings(f, old(f.cells), old(s.age) + 1, d), born))
  {
    born := [];
    IncrementAge(a, f, s);
    if byDay {
      a.waterLevel := a.waterLevel + 1;
    }
    if a.alive {
      if !byDay {
        a.waterLevel := a.waterLevel + 1;
      }
      born := SeedDispersal(a, f, s, d.seedTest, d);
      DispersedSettles(f, a, old(f.cells), SeedLandings(f, old(f.cells), old(s.age) + 1, d), born);
    } else {
      DiedSettles(f, a, old(f.cells), old(a.location));
    }
  }

  /** act: by the weather, a sunny day, a windy turn or a rainy day. */
  method Act(a: Animal, f: Field<Animal>, s: PlantStatics, w: Weather, d: Draws) returns (born: seq<Animal>)
    requires a.kind == Plant && Placed(f) && Located(a, f) && ValidPlantDraws(d, f)
    modifies a, f, s
    ensures forall i | 0 <= i < |born| :: fresh(born[i])
    ensures Settled(f, a, old(f.cells), born)
    ensures var lives := old(a.alive) && old(s.age) + 1 <= MaxAge && (w == Sunny ==> old(a.waterLevel) - d.decrement >= 0);
            && a.waterLevel == old(a.waterLevel) + (match w case Sunny => -d.decrement case Windy => 0 case Rainy => 1)
            && TurnEnds(f, a, s, old(f.cells), old(a.location), lives, old(s.age) + 1, born,
                        lives ==> match w
                                  case Sunny => Grown(f, old(f.cells), f.cells, old(a.location).value, d, born)
                                  case Windy => GrewAndSeeded(f, old(f.cells), f.cells, old(a.location).value, old(s.age) + 1, d, born)
                                  case Rainy => Dispersed(f, old(f.cells), f.cells, SeedLandings(f, old(f.cells), old(s.age) + 1, d), born))
  {
    match w
    case Sunny => born := SunnyDay(a, f, s, d);
    case Windy => born := WindyTurn(a, f, s, d);
    case Rainy => born := RainyTurn(a, f, s, d, true);
  }

  /** sleep: by the weather, a rainy night, a windy turn or a calm night. */
  method Sleep(a: Animal, f: Field<Animal>, s: PlantStatics, w: Weather, d: Draws) returns (born: seq<Animal>)
    requires a.kind == Plant && Placed(f) && Located(a, f) && ValidPlantDraws(d, f)
    modifies a, f, s
    ensures forall i | 0 <= i < |born| :: fresh(born[i])
    ensures Settled(f, a, old(f.cells), born)
    ensures var lives := old(a.alive) && old(s.age) + 1 <= MaxAge;
            && a.waterLevel == old(a.waterLevel) + (if w == Rainy && lives then 1 else 0)
            && TurnEnds(f, a, s, old(f.cells), old(a.location), lives, old(s.age) + 1, born,
                        lives ==> match w
                                  case Sunny => Grown(f, old(f.cells), f.cells, old(a.location).value, d, born)
                                  case Windy => GrewAndSeeded(f, old(f.cells), f.cells, old(a.location).value, old(s.age) + 1, d, born)
                                  case Rainy => Dispersed(f, old(f.cells), f.cells, SeedLandings(f, old(f.cells), old(s.age) + 1, d), born))
  {
    match w
    case Rainy => born := RainyTurn(a, f, s, d, false);
    case Windy => born := WindyTurn(a, f, s, d);
    case Sunny => born := CalmNight(a, f, s, d);
  }
}
