/** Simulator.java: the field, the list of agents on it and the clock.

    Every step advances the step count and the day counter and may draw a new
    weather. Counter values 1 to 10 are day: every listed agent acts. Values
    11 to 20 are night: every listed agent sleeps. On the 21st step of a cycle
    nobody moves and the counter restarts at 0. Each sweep removes an agent
    that is dead after its own turn, and the newborns of the step join the
    list after the sweep.

    The random draws are inputs: `weatherDraw` is rand.nextInt(3) of
    setWeather, and `draw(i, kind)` gives the draws of the i-th turn of a
    sweep for an agent of that kind. How the views judge viability is an
    input as well. */
module Simulation {
  import opened Grid
  import opened Animals
  import opened Life
  import Cats
  import Mice
  import Owls
  import Squirrels
  import Snakes
  import Plants

  const DefaultWidth := 120
  const DefaultDepth := 80

  /** The last counter value of the day and of the night. */
  const DayEnd := 10
  const NightEnd := 20

  datatype TimeStatus = Day | Night

  /** Simulator(depth, width): the given dimensions, or 80 by 120 when either is not positive. */
  function Dimensions(depth: int, width: int): (r: (nat, nat))
    ensures r.0 > 0 && r.1 > 0
    ensures depth > 0 && width > 0 ==> r == (depth, width)
    ensures depth <= 0 || width <= 0 ==> r == (DefaultDepth, DefaultWidth)
  {
    if width <= 0 || depth <= 0 then (DefaultDepth, DefaultWidth) else (depth, width)
  }

  /** weatherType[i], for the array {"Sunny", "Rainy", "Windy"}. */
  function WeatherType(i: nat): Weather
    requires i < 3
  {
    if i == 0 then Sunny else if i == 1 then Rainy else Windy
  }

  /** setWeather(counter): a weather drawn afresh when the counter is at most
      1 or is 10; otherwise the weather stays. */
  function SetWeather(weather: Option<Weather>, counter: int, draw: nat): (r: Option<Weather>)
    requires draw < 3
    ensures r.Some? || r == weather
    ensures counter <= 1 || counter == DayEnd ==> r == Some(WeatherType(draw))
    ensures 1 < counter && counter != DayEnd ==> r == weather
  {
    if counter <= 1 || counter == DayEnd then Some(WeatherType(draw)) else weather
  }

  /** What a step whose incremented counter is `counter` does: day, night, or
      nothing (the counter then restarts). */
  function PhaseOf(counter: int): Option<TimeStatus>
  {
    if counter <= DayEnd then Some(Day) else if counter <= NightEnd then Some(Night) else None
  }

  /** The counter after one step from `counter`. */
  function Tick(counter: int): (c: int)
    ensures 0 <= counter <= NightEnd ==> 0 <= c <= NightEnd
    ensures counter < NightEnd ==> c == counter + 1
    ensures counter >= NightEnd ==> c == 0
  {
    if counter + 1 <= NightEnd then counter + 1 else 0
  }

  /** The counter after `n` steps from `counter`. */
  function Ticks(counter: int, n: nat): int
  {
    if n == 0 then counter else Tick(Ticks(counter, n - 1))
  }

  /** From a reset counter, the counter after `n` steps is `n` modulo 21:
      the clock has a period of 21 steps. */
  lemma {:induction false} ClockCycles(n: nat)
    ensures Ticks(0, n) == n % (NightEnd + 1)
  {
    if n > 0 {
      ClockCycles(n - 1);
    }
  }

  /** Step `n` (counting from 1) after a reset: of each 21 steps the first
      10 are day, the next 10 night, and in the last nobody moves. */
  lemma {:induction false} DayAndNight(n: nat)
    requires n >= 1
    ensures var k := (n - 1) % (NightEnd + 1);
            PhaseOf(Ticks(0, n - 1) + 1) == if k < DayEnd then Some(Day) else if k < NightEnd then Some(Night) else None
  {
    ClockCycles(n - 1);
  }

  /** The weather after steps from counter `counter` with the given draws of setWeather. */
  function WeatherAfter(weather: Option<Weather>, counter: int, draws: seq<nat>): Option<Weather>
    requires forall i | 0 <= i < |draws| :: draws[i] < 3
    decreases |draws|
  {
    if |draws| == 0 then weather
    else WeatherAfter(SetWeather(weather, counter + 1, draws[0]), Tick(counter), draws[1..])
  }

  /** The weather drawn on the first step of a cycle holds through its
      ninth, and the one drawn on the tenth holds through the 21st: it
      changes on no other step. */
  lemma {:induction false} WeatherSteady(weather: Option<Weather>, counter: int, draws: seq<nat>)
    requires forall i | 0 <= i < |draws| :: draws[i] < 3
    requires (1 <= counter && counter + |draws| <= DayEnd - 1) || (DayEnd <= counter && counter + |draws| <= NightEnd + 1)
    ensures WeatherAfter(weather, counter, draws) == weather
    decreases |draws|
  {
    if |draws| > 0 {
      if counter < NightEnd {
        WeatherSteady(weather, counter + 1, draws[1..]);
      }
    }
  }

  /** The number of steps simulate(numSteps) runs from check `from` on:
      it stops after numSteps steps or at the first check that is not viable. */
  function StepsRun(from: int, numSteps: int, viable: int -> bool): (n: nat)
    decreases numSteps - from
    ensures n <= if numSteps >= from then numSteps - from + 1 else 0
    ensures forall k | from <= k < from + n :: viable(k)
    ensures from + n <= numSteps ==> !viable(from + n)
  {
    if from > numSteps || !viable(from) then 0 else 1 + StepsRun(from + 1, numSteps, viable)
  }

  /** The members of `xs` whose flag is set, in order: the list the
      iterator leaves after removing the others. */
  function Keep(xs: seq<Animal>, flags: seq<bool>): seq<Animal>
    requires |flags| == |xs|
  {
    if |xs| == 0 then []
    else Keep(xs[..|xs| - 1], flags[..|xs| - 1]) + (if flags[|xs| - 1] then [xs[|xs| - 1]] else [])
  }

  /** Keep drops exactly the unflagged members and never lengthens the list. */
  lemma {:induction false} KeepMembers(xs: seq<Animal>, flags: seq<bool>)
    requires |flags| == |xs|
    ensures |Keep(xs, flags)| <= |xs|
    ensures forall x :: x in Keep(xs, flags) <==> exists i | 0 <= i < |xs| :: xs[i] == x && flags[i]
  {
    if |xs| > 0 {
      var n := |xs| - 1;
      KeepMembers(xs[..n], flags[..n]);
      forall x ensures x in Keep(xs, flags) <==> exists i | 0 <= i < |xs| :: xs[i] == x && flags[i] {
        if x in Keep(xs[..n], flags[..n]) {
          var i :| 0 <= i < n && xs[..n][i] == x && flags[..n][i];
          assert xs[i] == x && flags[i];
        } else if exists i | 0 <= i < |xs| :: xs[i] == x && flags[i] {
          var i :| 0 <= i < |xs| && xs[i] == x && flags[i];
          if i < n {
            assert xs[..n][i] == x && flags[..n][i];
          }
        }
      }
    }
  }

  /** With every flag set, Keep removes nothing. */
  lemma {:induction false} KeepAll(xs: seq<Animal>, flags: seq<bool>)
    requires |flags| == |xs| && forall i | 0 <= i < |flags| :: flags[i]
    ensures Keep(xs, flags) == xs
  {
    if |xs| > 0 {
      var n := |xs| - 1;
      KeepAll(xs[..n], flags[..n]);
      assert xs[..n] + [xs[n]] == xs;
    }
  }

  /** One more member: Keep extends by it exactly when it is flagged. */
  lemma {:induction false} KeepStep(xs: seq<Animal>, flags: seq<bool>, b: bool)
    requires |flags| < |xs|
    ensures Keep(xs[..|flags| + 1], flags + [b]) == Keep(xs[..|flags|], flags) + if b then [xs[|flags|]] else []
  {
    var i := |flags|;
    var ys, gs := xs[..i + 1], flags + [b];
    assert ys[..i] == xs[..i] && ys[i] == xs[i];
    assert gs[..i] == flags && gs[i] == b;
    assert Keep(ys, gs) == Keep(ys[..i], gs[..i]) + if gs[i] then [ys[i]] else [];
  }

  /** The creation tests of populate, in the order it makes them. */
  const CreationOrder: seq<Kind> := [Mouse, Cat, Owl, Squirrel, Plant, Snake]

  /** The random draws of one cell of populate: the outcomes of its creation
      tests (rand.nextDouble() <= the species' creation probability), then
      the draws of the created agent's constructor: a random age, a food
      level (a water level for a plant) and a gender. */
  datatype Spawn = Spawn(tests: seq<bool>, ageDraw: nat, levelDraw: nat, genderDraw: nat)

  /** The species created from the tests `tests[k..]`: the first that passes. */
  function SpeciesFrom(tests: seq<bool>, k: nat): Option<Kind>
    requires |tests| == |CreationOrder|
    decreases |tests| - k
  {
    if k >= |tests| then None
    else if tests[k] then Some(CreationOrder[k])
    else SpeciesFrom(tests, k + 1)
  }

  /** The species populate creates in a cell, if any. */
  function Species(tests: seq<bool>): Option<Kind>
    requires |tests| == |CreationOrder|
  {
    SpeciesFrom(tests, 0)
  }

  /** A cell gets the species of the first passing test, and none when all fail. */
  lemma {:induction false} SpeciesFirst(tests: seq<bool>, k: nat)
    requires |tests| == |CreationOrder| && k <= |tests|
    ensures SpeciesFrom(tests, k).None? <==> forall j | k <= j < |tests| :: !tests[j]
    ensures forall j | k <= j < |tests| ::
              SpeciesFrom(tests, k) == Some(CreationOrder[j]) <==> tests[j] && forall i | k <= i < j :: !tests[i]
    decreases |tests| - k
  {
    if k < |tests| {
      SpeciesFirst(tests, k + 1);
    }
  }

  /** The bounds of the constructor draws of each species. */
  predicate SpawnFits(sp: Spawn)
  {
    && |sp.tests| == |CreationOrder| && sp.genderDraw < 2
    && match Species(sp.tests)
       case None => true
       case Some(k) =>
         match k
         case Mouse => sp.ageDraw < Mice.MaxAge && sp.levelDraw < Mice.PlantFoodValue
         case Cat => sp.ageDraw < Cats.MaxAge && sp.levelDraw < Cats.MouseFoodValue
         case Owl => sp.ageDraw < Owls.MaxAge && sp.levelDraw < Owls.MouseFoodValue
         case Squirrel => sp.ageDraw < Squirrels.MaxAge && sp.levelDraw < Squirrels.PlantFoodValue
         case Snake => sp.ageDraw < Snakes.MaxAge && sp.levelDraw < Snakes.SquirrelFoodValue
         case Plant => sp.ageDraw < 50 && sp.levelDraw < 20
  }

  /** Draws for a `depth` by `width` populate, one per cell, by row and column. */
  predicate SpawnsFit(spawns: seq<seq<Spawn>>, depth: nat, width: nat)
  {
    && |spawns| == depth
    && forall r | 0 <= r < depth :: |spawns[r]| == width && forall c | 0 <= c < width :: SpawnFits(spawns[r][c])
  }

  /** `x` is the agent created with random age from the draws `sp`, alive. */
  ghost predicate Spawned(x: Animal, sp: Spawn)
    reads x
    requires |sp.tests| == |CreationOrder| && sp.genderDraw < 2
  {
    && Species(sp.tests) == Some(x.kind) && x.gender == GenderOf(sp.genderDraw) && x.alive
    && (x.kind == Plant ==> x.waterLevel == sp.levelDraw + 1)
    && (x.kind != Plant ==> x.age == sp.ageDraw && x.foodLevel == sp.levelDraw)
  }

  /** Row-major order: `l` comes before `m`. */
  predicate Precedes(l: Location, m: Location)
  {
    l.row < m.row || (l.row == m.row && l.col < m.col)
  }

  /** The shared plant age after the plants of `row` are created from `age`:
      the random age of the last plant, if any. */
  function RowAge(age: int, row: seq<Spawn>): int
    requires forall c | 0 <= c < |row| :: |row[c].tests| == |CreationOrder|
  {
    if |row| == 0 then age
    else
      var last := row[|row| - 1];
      if Species(last.tests) == Some(Plant) then last.ageDraw else RowAge(age, row[..|row| - 1])
  }

  /** The shared plant age after populate has gone through `rows`. */
  function GridAge(age: int, rows: seq<seq<Spawn>>): int
    requires forall r, c | 0 <= r < |rows| && 0 <= c < |rows[r]| :: |rows[r][c].tests| == |CreationOrder|
  {
    if |rows| == 0 then age else RowAge(GridAge(age, rows[..|rows| - 1]), rows[|rows| - 1])
  }

  /** The field as populate leaves it: a cell is taken exactly when a
      creation test of its draws passed, by the agent those draws create.
      `added` lists the new agents in row-major order. */
  ghost predicate Populated(f: Field<Animal>, spawns: seq<seq<Spawn>>, added: seq<Animal>)
    reads f, Elements(added), f.cells.Values
    requires SpawnsFit(spawns, f.depth, f.width)
  {
    && (forall l {:trigger l in f.cells} :: l in f.cells <==> f.InBounds(l) && Species(spawns[l.row][l.col].tests).Some?)
    && (forall l | l in f.cells :: Spawned(f.cells[l], spawns[l.row][l.col]))
    && (forall k | 0 <= k < |added| :: Located(added[k], f) && added[k].alive)
    && (forall j, k | 0 <= j < k < |added| :: Precedes(added[j].location.value, added[k].location.value))
    && f.cells.Values <= Elements(added)
  }

  /** The turn of one agent, by its kind: act by day, sleep by night.
      Every agent it concerns stays located, and none comes back to life. */
  method TakeTurn(a: Animal, f: Field<Animal>, s: Plants.PlantStatics, night: bool, w: Weather, d: Draws,
                  ghost listed: seq<Animal>)
    returns (born: seq<Animal>)
    requires Placed(f) && Located(a, f) && FitsKind(a.kind, d, f)
    requires forall j | 0 <= j < |listed| :: Located(listed[j], f)
    modifies a, f, f.cells.Values`alive, f.cells.Values`location, f.cells.Values`field, s
    ensures forall i | 0 <= i < |born| :: fresh(born[i])
    ensures Settled(f, a, old(f.cells), born)
    ensures forall j | 0 <= j < |listed| :: Located(listed[j], f)
    ensures forall j | 0 <= j < |listed| :: listed[j].alive ==> old(listed[j].alive)
  {
    if night {
      born := NightTurn(a, f, s, w, d);
    } else {
      born := DayTurn(a, f, s, w, d);
    }
    forall j | 0 <= j < |listed| ensures Located(listed[j], f) && (listed[j].alive ==> old(listed[j].alive)) {
      if listed[j] != a && listed[j] !in old(f.cells).Values {
        assert old(!listed[j].alive);
      }
    }
  }

  /** act, dispatched on the agent's kind. */
  method DayTurn(a: Animal, f: Field<Animal>, s: Plants.PlantStatics, w: Weather, d: Draws) returns (born: seq<Animal>)
    requires Placed(f) && Located(a, f) && FitsKind(a.kind, d, f)
    modifies a, f, f.cells.Values`alive, f.cells.Values`location, f.cells.Values`field, s
    ensures forall i | 0 <= i < |born| :: fresh(born[i])
    ensures Settled(f, a, old(f.cells), born)
    ensures a.alive ==> old(a.alive)
  {
    ghost var e: set<Animal>;
    match a.kind
    case Cat => born, e := Cats.Act(a, f, w, d);
    case Mouse => born, e := Mice.Act(a, f, w, d);
    case Squirrel => born, e := Squirrels.Act(a, f, w, d);
    case Snake => born, e := Snakes.Act(a, f, w, d);
    case Owl =>
      born := Owls.Act(a, f, w);
      StillSettles(f, a, old(f.cells));
    case Plant => born := Plants.Act(a, f, s, w, d);
  }

  /** sleep, dispatched on the agent's kind. */
  method NightTurn(a: Animal, f: Field<Animal>, s: Plants.PlantStatics, w: Weather, d: Draws) returns (born: seq<Animal>)
    requires Placed(f) && Located(a, f) && FitsKind(a.kind, d, f)
    modifies a, f, f.cells.Values`alive, f.cells.Values`location, f.cells.Values`field, s
    ensures forall i | 0 <= i < |born| :: fresh(born[i])
    ensures Settled(f, a, old(f.cells), born)
    ensures a.alive ==> old(a.alive)
  {
    ghost var e: set<Animal>;
    match a.kind
    case Cat => born := Cats.Sleep(a, f, w, d);
    case Mouse => born := Mice.Sleep(a, f, w, d);
    case Squirrel => born := Squirrels.Sleep(a, f, w, d);
    case Snake => born := Snakes.Sleep(a, f, w, d);
    case Owl => born, e := Owls.Sleep(a, f, w, d);
    case Plant => born := Plants.Sleep(a, f, s, w, d);
  }

  /** The draws `d` suit an agent of kind `k` on `f`. */
  predicate FitsKind(k: Kind, d: Draws, f: Field<Animal>)
  {
    match k
    case Cat => ValidDraws(d, Cats.MaxLitter)
    case Mouse => ValidDraws(d, Mice.MaxLitter)
    case Owl => ValidDraws(d, Owls.MaxLitter)
    case Squirrel => ValidDraws(d, Squirrels.MaxLitter)
    case Snake => ValidDraws(d, Snakes.MaxLitter)
    case Plant => Plants.ValidPlantDraws(d, f)
  }

  class Simulator {
    /** The agents of the simulation, in the order they take their turns. */
    var animals: seq<Animal>
    const field: Field<Animal>
    /** Plant's static state, shared by every plant. */
    const plants: Plants.PlantStatics
    var step: int
    var counter: int
    var weather: Option<Weather>
    var timeStatus: Option<TimeStatus>

    /** Everyone is where the field says, every agent on the field is
        listed, and the counter is within its cycle, with a weather drawn
        once it has started. */
    ghost predicate Valid()
      reads this, field, field.cells.Values`alive, field.cells.Values`location, field.cells.Values`field
      reads Elements(animals)`alive, Elements(animals)`location, Elements(animals)`field
    {
      && Placed(field)
      && (forall i | 0 <= i < |animals| :: Located(animals[i], field))
      && field.cells.Values <= Elements(animals)
      && 0 <= counter <= NightEnd
      && (counter >= 1 ==> weather.Some?)
    }

    /** Simulator(depth, width): a field of the given size (80 by 120 when
        either is not positive), populated from `spawns`, at step 0 with the
        counter at 0 and no weather or time status yet. */
    constructor (depth: int, width: int, s: Plants.PlantStatics, spawns: seq<seq<Spawn>>)
      requires SpawnsFit(spawns, Dimensions(depth, width).0, Dimensions(depth, width).1)
      modifies s
      ensures (field.depth, field.width) == Dimensions(depth, width) && plants == s
      ensures Valid() && step == 0 && counter == 0 && weather == None && timeStatus == None
      ensures Populated(field, spawns, animals)
      ensures s.age == GridAge(old(s.age), spawns)
    {
      var dims := Dimensions(depth, width);
      animals := [];
      field := new Field(dims.0, dims.1);
      plants := s;
      step := 0;
      counter := 0;
      weather := None;
      timeStatus := None;
      new;
      Reset(spawns);
    }

    /** reset: step 0, an empty list, then populate. */
    method Reset(spawns: seq<seq<Spawn>>)
      requires SpawnsFit(spawns, field.depth, field.width) && 0 <= counter <= NightEnd && (counter >= 1 ==> weather.Some?)
      modifies this, field, plants
      ensures Valid() && step == 0 && Populated(field, spawns, animals)
      ensures counter == old(counter) && weather == old(weather) && timeStatus == old(timeStatus)
      ensures plants.age == GridAge(old(plants.age), spawns)
    {
      step := 0;
      animals := [];
      var added := Populate(spawns);
      assert animals == added;
    }

    /** populate: empties the field, then goes through it by rows and
        columns, creating in each cell the agent of the first passing test,
        and lists each new agent. */
    method Populate(spawns: seq<seq<Spawn>>) returns (ghost added: seq<Animal>)
      requires SpawnsFit(spawns, field.depth, field.width)
      modifies this, field, plants
      ensures animals == old(animals) + added && step == old(step) && counter == old(counter)
      ensures weather == old(weather) && timeStatus == old(timeStatus)
      ensures Placed(field) && Populated(field, spawns, added)
      ensures plants.age == GridAge(old(plants.age), spawns)
    {
      field.ClearAll();
      added := [];
      ghost var locs: seq<Location> := [];
      var row := 0;
      while row < field.depth
        invariant 0 <= row <= field.depth
        invariant animals == old(animals) + added && step == old(step) && counter == old(counter)
        invariant weather == old(weather) && timeStatus == old(timeStatus)
        invariant RowsDone(field, spawns, locs, added, row, 0)
        invariant plants.age == GridAge(old(plants.age), spawns[..row])
      {
        locs, added := PopulateRow(spawns, row, old(animals), locs, added);
        assert spawns[..row + 1][..row] == spawns[..row] && spawns[..row + 1][row] == spawns[row];
        RowDone(field.cells, spawns, locs, added, row, field.depth, field.width);
        row := row + 1;
      }
      assert spawns[..row] == spawns;
      RowsPopulated(field, spawns, locs, added);
    }

    /** The columns of one row of populate. */
    method PopulateRow(spawns: seq<seq<Spawn>>, row: nat, ghost listed: seq<Animal>, ghost locs0: seq<Location>,
                       ghost added0: seq<Animal>)
      returns (ghost locs: seq<Location>, ghost added: seq<Animal>)
      requires SpawnsFit(spawns, field.depth, field.width) && row < field.depth
      requires RowsDone(field, spawns, locs0, added0, row, 0) && animals == listed + added0
      modifies this`animals, field, plants
      ensures animals == listed + added
      ensures RowsDone(field, spawns, locs, added, row, field.width)
      ensures plants.age == RowAge(old(plants.age), spawns[row])
    {
      locs, added := locs0, added0;
      var col := 0;
      while col < field.width
        invariant 0 <= col <= field.width && animals == listed + added
        invariant RowsDone(field, spawns, locs, added, row, col)
        invariant plants.age == RowAge(old(plants.age), spawns[row][..col])
      {
        var x := PopulateCell(field, plants, spawns, row, col, locs, added);
        if x.Some? {
          assert (listed + added) + [x.value] == listed + (added + [x.value]);
          animals := animals + [x.value];
          locs, added := locs + [Location(row, col)], added + [x.value];
        }
        assert spawns[row][..col + 1][..col] == spawns[row][..col] && spawns[row][..col + 1][col] == spawns[row][col];
        col := col + 1;
      }
      assert spawns[row][..col] == spawns[row];
    }

    /** simulateOneStep: one more step and one more tick of the counter, a
        weather drawn when the counter comes to 1 or 10, and a sweep of the
        list: by day every agent acts, by night every agent sleeps, on the
        21st step nobody moves. The sweep removes every agent dead after its
        own turn (`survived` records who was alive then), so each agent alive
        now stays listed, and the newborns `born` are appended. */
    method SimulateOneStep(draw: (nat, Kind) -> Draws, weatherDraw: nat)
      returns (ghost survived: seq<bool>, ghost born: seq<Animal>)
      requires Valid() && weatherDraw < 3
      requires forall i: nat, k: Kind :: FitsKind(k, draw(i, k), field)
      modifies this, field, plants, Elements(animals)
      ensures Valid()
      ensures step == old(step) + 1 && counter == Tick(old(counter))
      ensures weather == SetWeather(old(weather), old(counter) + 1, weatherDraw)
      ensures timeStatus == if PhaseOf(old(counter) + 1).Some? then PhaseOf(old(counter) + 1) else old(timeStatus)
      ensures PhaseOf(old(counter) + 1).None? ==> animals == old(animals) && field.cells == old(field.cells)
      ensures PhaseOf(old(counter) + 1).None? ==> unchanged(plants) && unchanged(Elements(animals))
      ensures |survived| == |old(animals)| && animals == Keep(old(animals), survived) + born
      ensures forall i | 0 <= i < |born| :: fresh(born[i])
      ensures forall i | 0 <= i < |old(animals)| :: old(animals)[i].alive ==> survived[i]
      ensures PhaseOf(old(counter) + 1).Some? ==>
                forall i | 0 <= i < |old(animals)| :: survived[i] ==> old(animals[i].alive)
    {
      step := step + 1;
      counter := counter + 1;
      weather := SetWeather(weather, counter, weatherDraw);
      if counter <= DayEnd {
        timeStatus := Some(Day);
        survived, born := Sweep(false, draw);
      } else if counter <= NightEnd {
        timeStatus := Some(Night);
        survived, born := Sweep(true, draw);
      } else {
        counter := 0;
        survived, born := seq(|animals|, i => true), [];
        KeepAll(animals, survived);
      }
    }

    /** The sweep of one step over the list, as simulateOneStep does it. */
    method Sweep(night: bool, draw: (nat, Kind) -> Draws) returns (ghost survived: seq<bool>, ghost born: seq<Animal>)
      requires Placed(field) && weather.Some?
      requires forall i | 0 <= i < |animals| :: Located(animals[i], field)
      requires field.cells.Values <= Elements(animals)
      requires forall i: nat, k: Kind :: FitsKind(k, draw(i, k), field)
      modifies this`animals, field, plants, Elements(animals)
      ensures Placed(field)
      ensures forall i | 0 <= i < |animals| :: Located(animals[i], field)
      ensures field.cells.Values <= Elements(animals)
      ensures |survived| == |old(animals)| && animals == Keep(old(animals), survived) + born
      ensures forall i | 0 <= i < |born| :: fresh(born[i])
      ensures forall i | 0 <= i < |old(animals)| :: old(animals)[i].alive ==> survived[i]
      ensures forall i | 0 <= i < |old(animals)| :: survived[i] ==> old(animals[i].alive)
    {
      var all := animals;
      var kept: seq<Animal> := [];
      var roster: seq<Animal> := all;
      ghost var alive0 := AliveFlags(all);
      survived := [];
      var i := 0;
      while i < |all|
        invariant 0 <= i <= |all| && animals == all
        invariant |survived| == i && kept == Keep(all[..i], survived)
        invariant |all| <= |roster| && roster[..|all|] == all
        invariant Placed(field)
        invariant forall j | 0 <= j < |roster| :: Located(roster[j], field)
        invariant forall j | |all| <= j < |roster| :: fresh(roster[j])
        invariant field.cells.Values <= Elements(kept) + Elements(all[i..]) + Elements(roster[|all|..])
        invariant forall j | 0 <= j < i && !survived[j] :: !roster[j].alive
        invariant |alive0| == |all| && forall j | 0 <= j < |all| :: alive0[j] == old(all[j].alive)
        invariant forall j | 0 <= j < i && survived[j] :: alive0[j]
        invariant forall j | i <= j < |all| && all[j].alive :: alive0[j]
      {
        var a := all[i];
        CellsListed(field.cells.Values, all, survived, roster);
        var born := SweepTurn(a, field, plants, night, weather.value, draw(i, a.kind), all, i, kept, survived, roster);
        KeepStep(all, survived, a.alive);
        FlagsFollow(alive0, survived, a.alive);
        if a.alive {
          kept := kept + [a];
        }
        survived := survived + [a.alive];
        roster := roster + born;
        i := i + 1;
      }
      animals := kept + roster[|all|..];
      born := roster[|all|..];
      assert all[..i] == all;
      SweepDone(field, all, survived, roster);
    }

    /** simulate(numSteps): steps while the count of steps of this run is at
        most numSteps and the view finds the field viable (`viable(k)` is
        the answer of the check before the k-th step of the run). */
    method Simulate(numSteps: int, viable: int -> bool, weatherDraw: int -> nat, draw: (int, nat, Kind) -> Draws)
      requires Valid()
      requires forall k: int :: weatherDraw(k) < 3
      requires forall k: int, i: nat, kind: Kind :: FitsKind(kind, draw(k, i, kind), field)
      modifies this, field, plants, Elements(animals)
      ensures Valid()
      ensures step == old(step) + StepsRun(1, numSteps, viable)
      ensures counter == Ticks(old(counter), StepsRun(1, numSteps, viable))
    {
      var k := 1;
      while k <= numSteps && viable(k)
        invariant 1 <= k && StepsRun(1, numSteps, viable) == (k - 1) + StepsRun(k, numSteps, viable)
        invariant Valid()
        invariant step == old(step) + (k - 1) && counter == Ticks(old(counter), k - 1)
        invariant forall i | 0 <= i < |animals| :: animals[i] in old(Elements(animals)) || fresh(animals[i])
        decreases numSteps - k
      {
        ghost var xs := animals;
        ghost var survived, born := SimulateOneStep((i: nat, kind: Kind) => draw(k, i, kind), weatherDraw(k));
        KeepMembers(xs, survived);
        forall j | 0 <= j < |animals| ensures animals[j] in old(Elements(animals)) || fresh(animals[j]) {
          var ks := Keep(xs, survived);
          if j < |ks| {
            assert animals[j] == ks[j] && ks[j] in ks;
            var m :| 0 <= m < |xs| && xs[m] == ks[j] && survived[m];
          } else {
            assert animals[j] == born[j - |ks|];
          }
        }
        k := k + 1;
      }
    }
  }

  /** After a turn, every agent on the field was on it before, is the one
      whose turn it was (then alive), or is a newborn: so it is kept, still
      to come in the sweep, or new. */
  lemma {:induction false} SweepCells(cells: set<Animal>, before: set<Animal>, born: seq<Animal>,
                   kept: seq<Animal>, all: seq<Animal>, i: nat, newAnimals: seq<Animal>, alive: bool)
    requires i < |all| && cells <= before + {all[i]} + Elements(born)
    requires before <= Elements(kept) + Elements(all[i..]) + Elements(newAnimals)
    requires all[i] in cells ==> alive
    ensures cells <= Elements(kept + if alive then [all[i]] else []) + Elements(all[i + 1..]) + Elements(newAnimals + born)
  {
    var a, rest := all[i], all[i..];
    assert rest[0] == a && rest[1..] == all[i + 1..];
    forall x | x in cells
      ensures x in Elements(kept + if alive then [a] else []) + Elements(rest[1..]) + Elements(newAnimals + born)
    {
      if x != a && x in rest {
        var j :| 0 <= j < |rest| && rest[j] == x;
        assert rest[1..][j - 1] == x;
      }
    }
  }

  /** The turn of the `i`-th agent of a sweep that has kept `kept` of the
      first `i` and found the others dead (`survived`), with the newborns of
      the step so far at the end of `roster`. */
  method SweepTurn(a: Animal, f: Field<Animal>, s: Plants.PlantStatics, night: bool, w: Weather, d: Draws,
                   ghost all: seq<Animal>, ghost i: nat, ghost kept: seq<Animal>, ghost survived: seq<bool>,
                   ghost roster: seq<Animal>)
    returns (born: seq<Animal>)
    requires i == |survived| < |all| <= |roster| && roster[..|all|] == all && a == all[i]
    requires Placed(f) && FitsKind(a.kind, d, f)
    requires forall j | 0 <= j < |roster| :: Located(roster[j], f)
    requires f.cells.Values <= Elements(kept) + Elements(all[i..]) + Elements(roster[|all|..])
    requires forall j | 0 <= j < i && !survived[j] :: !roster[j].alive
    modifies a, f, f.cells.Values`alive, f.cells.Values`location, f.cells.Values`field, s
    ensures forall j | 0 <= j < |born| :: fresh(born[j])
    ensures Placed(f)
    ensures forall j | 0 <= j < |roster + born| :: Located((roster + born)[j], f)
    ensures f.cells.Values <= Elements(kept + if a.alive then [a] else []) + Elements(all[i + 1..]) + Elements((roster + born)[|all|..])
    ensures forall j | 0 <= j < i + 1 && !(survived + [a.alive])[j] :: !(roster + born)[j].alive
    ensures forall j | i <= j < |all| && all[j].alive :: old(all[j].alive)
  {
    ghost var before := f.cells;
    assert roster[i] == roster[..|all|][i];
    born := TakeTurn(a, f, s, night, w, d, roster);
    assert a in f.cells.Values ==> a.alive;
    SweepCells(f.cells.Values, before.Values, born, kept, all, i, roster[|all|..], a.alive);
    RosterGrows(f, roster, born, survived, i, |all|);
  }

  /** Whether each agent of `xs` is alive. */
  ghost function AliveFlags(xs: seq<Animal>): (r: seq<bool>)
    reads Elements(xs)
    ensures |r| == |xs| && forall j | 0 <= j < |xs| :: r[j] == xs[j].alive
  {
    seq(|xs|, j requires 0 <= j < |xs| reads Elements(xs) => xs[j].alive)
  }

  /** A flag set only for agents alive at the start stays so set one agent further. */
  lemma FlagsFollow(alive0: seq<bool>, survived: seq<bool>, b: bool)
    requires |survived| < |alive0| && (b ==> alive0[|survived|])
    requires forall j | 0 <= j < |survived| && survived[j] :: alive0[j]
    ensures forall j | 0 <= j < |survived| + 1 && (survived + [b])[j] :: alive0[j]
  {
  }

  /** Before a turn, everyone on the field is in the list the sweep goes
      through or is a newborn of this sweep. */
  lemma {:induction false} CellsListed(cells: set<Animal>, all: seq<Animal>, survived: seq<bool>, roster: seq<Animal>)
    requires |survived| <= |all| <= |roster|
    requires cells <= Elements(Keep(all[..|survived|], survived)) + Elements(all[|survived|..]) + Elements(roster[|all|..])
    ensures forall x | x in cells :: x in all || exists j | |all| <= j < |roster| :: roster[j] == x
  {
    var i := |survived|;
    KeepMembers(all[..i], survived);
    forall x | x in cells ensures x in all || exists j | |all| <= j < |roster| :: roster[j] == x {
      if x in Keep(all[..i], survived) {
        var m :| 0 <= m < i && all[..i][m] == x && survived[m];
        assert all[m] == x;
      } else if x in all[i..] {
        var m :| 0 <= m < |all[i..]| && all[i..][m] == x;
        assert all[i + m] == x;
      } else {
        var m :| 0 <= m < |roster[|all|..]| && roster[|all|..][m] == x;
        assert roster[|all| + m] == x;
      }
    }
  }

  /** After a turn, the roster extended by the newborns stays located, and
      the agents the sweep found dead stay dead. */
  lemma {:induction false} RosterGrows(f: Field<Animal>, roster: seq<Animal>, born: seq<Animal>, survived: seq<bool>, i: nat, n: nat)
    requires i == |survived| < n <= |roster|
    requires forall j | 0 <= j < |roster| :: Located(roster[j], f)
    requires forall j | 0 <= j < |born| :: Located(born[j], f)
    requires forall j | 0 <= j < i && !survived[j] :: !roster[j].alive
    ensures forall j | 0 <= j < |roster + born| :: Located((roster + born)[j], f)
    ensures forall j | 0 <= j < i + 1 && !(survived + [roster[i].alive])[j] :: !(roster + born)[j].alive
    ensures (roster + born)[..n] == roster[..n] && (roster + born)[n..] == roster[n..] + born
    ensures forall j | 0 <= j < |roster| :: (roster + born)[j] == roster[j]
    ensures forall j | 0 <= j < |born| :: (roster + born)[|roster| + j] == born[j]
  {
    assert forall j | 0 <= j < |roster| :: (roster + born)[j] == roster[j];
    assert forall j | 0 <= j < |born| :: (roster + born)[|roster| + j] == born[j];
  }

  /** Keep lists only members of its input, so it keeps them located. */
  lemma {:induction false} KeepLocated(f: Field<Animal>, xs: seq<Animal>, flags: seq<bool>)
    requires |flags| == |xs| && forall j | 0 <= j < |xs| :: Located(xs[j], f)
    ensures forall j | 0 <= j < |Keep(xs, flags)| :: Located(Keep(xs, flags)[j], f)
  {
    if |xs| > 0 {
      var n := |xs| - 1;
      assert forall j | 0 <= j < n :: xs[..n][j] == xs[j];
      KeepLocated(f, xs[..n], flags[..n]);
    }
  }

  /** After the sweep, the kept agents and the newborns are located. */
  lemma {:induction false} SweepDone(f: Field<Animal>, all: seq<Animal>, survived: seq<bool>, roster: seq<Animal>)
    requires |survived| == |all| <= |roster| && roster[..|all|] == all
    requires forall j | 0 <= j < |roster| :: Located(roster[j], f)
    ensures forall j | 0 <= j < |Keep(all, survived) + roster[|all|..]| :: Located((Keep(all, survived) + roster[|all|..])[j], f)
    ensures forall j | 0 <= j < |all| :: Located(all[j], f)
  {
    var kept, rest := Keep(all, survived), roster[|all|..];
    assert forall j | 0 <= j < |all| :: all[j] == roster[..|all|][j] == roster[j];
    KeepLocated(f, all, survived);
    assert forall j | 0 <= j < |rest| :: rest[j] == roster[|all| + j];
    assert forall j | 0 <= j < |kept + rest| :: (kept + rest)[j] == if j < |kept| then kept[j] else rest[j - |kept|];
  }

  /** Populate's progress on the cells: those before (`row`, `col`) in
      row-major order hold an agent exactly when a creation test passed,
      the others are empty, and `added` lists the agents of the cells
      `locs`, in row-major order. */
  ghost predicate CellsDone(cells: map<Location, Animal>, spawns: seq<seq<Spawn>>, locs: seq<Location>, added: seq<Animal>,
                      row: int, col: int, depth: nat, width: nat)
    requires SpawnsFit(spawns, depth, width)
  {
    && (forall l {:trigger l in cells} ::
          l in cells <==> 0 <= l.row < depth && 0 <= l.col < width && Precedes(l, Location(row, col))
                          && Species(spawns[l.row][l.col].tests).Some?)
    && |locs| == |added|
    && (forall k | 0 <= k < |locs| :: locs[k] in cells && cells[locs[k]] == added[k])
    && (forall j, k | 0 <= j < k < |locs| :: Precedes(locs[j], locs[k]))
    && cells.Values <= Elements(added)
  }

  /** Populate's progress on the field: placed, the cells as CellsDone
      says, and each listed agent made from the draws of its cell. */
  ghost predicate RowsDone(f: Field<Animal>, spawns: seq<seq<Spawn>>, locs: seq<Location>, added: seq<Animal>, row: int, col: int)
    reads f, Elements(added), f.cells.Values
    requires SpawnsFit(spawns, f.depth, f.width)
  {
    && Placed(f)
    && CellsDone(f.cells, spawns, locs, added, row, col, f.depth, f.width)
    && forall k | 0 <= k < |added| :: Spawned(added[k], spawns[locs[k].row][locs[k].col])
  }

  /** Filling the cell (`row`, `col`), or leaving it empty, moves the progress on by one cell. */
  lemma {:induction false} CellFilled(before: map<Location, Animal>, cells: map<Location, Animal>, spawns: seq<seq<Spawn>>,
                   locs: seq<Location>, added: seq<Animal>, row: nat, col: nat, depth: nat, width: nat, x: Option<Animal>)
    requires SpawnsFit(spawns, depth, width) && row < depth && col < width
    requires CellsDone(before, spawns, locs, added, row, col, depth, width)
    requires x.Some? <==> Species(spawns[row][col].tests).Some?
    requires cells == if x.Some? then before[Location(row, col) := x.value] else before
    ensures x.Some? ==> CellsDone(cells, spawns, locs + [Location(row, col)], added + [x.value], row, col + 1, depth, width)
    ensures x.None? ==> CellsDone(cells, spawns, locs, added, row, col + 1, depth, width)
  {
    var loc := Location(row, col);
    assert forall k | 0 <= k < |locs| :: locs[k] != loc by {
      forall k | 0 <= k < |locs| ensures locs[k] != loc {
        assert locs[k] in before;
      }
    }
    if x.Some? {
      var locs', added' := locs + [loc], added + [x.value];
      forall y | y in cells.Values ensures y in Elements(added') {
        var l :| l in cells && cells[l] == y;
        if l != loc {
          assert before[l] == y && y in before.Values;
          var k :| 0 <= k < |added| && added[k] == y;
          assert added'[k] == y;
        } else {
          assert added'[|added|] == y;
        }
      }
      assert forall k | 0 <= k < |locs| :: locs'[k] == locs[k] && added'[k] == added[k];
    }
  }

  /** The end of a row is the start of the next. */
  lemma {:induction false} RowDone(cells: map<Location, Animal>, spawns: seq<seq<Spawn>>, locs: seq<Location>, added: seq<Animal>,
                row: int, depth: nat, width: nat)
    requires SpawnsFit(spawns, depth, width) && CellsDone(cells, spawns, locs, added, row, width, depth, width)
    ensures CellsDone(cells, spawns, locs, added, row + 1, 0, depth, width)
  {
  }

  /** Once every row is done, the field is populated. */
  lemma {:induction false} RowsPopulated(f: Field<Animal>, spawns: seq<seq<Spawn>>, locs: seq<Location>, added: seq<Animal>)
    requires SpawnsFit(spawns, f.depth, f.width) && RowsDone(f, spawns, locs, added, f.depth, 0)
    ensures Populated(f, spawns, added)
  {
    forall l | l in f.cells ensures Spawned(f.cells[l], spawns[l.row][l.col]) {
      var y := f.cells[l];
      assert y in f.cells.Values;
      var k :| 0 <= k < |added| && added[k] == y;
      assert f.cells[locs[k]] == y;
    }
    forall k | 0 <= k < |added| ensures Located(added[k], f) && added[k].alive {
      assert f.cells[locs[k]] == added[k];
    }
    forall j, k | 0 <= j < k < |added| ensures Precedes(added[j].location.value, added[k].location.value) {
      assert f.cells[locs[j]] == added[j] && f.cells[locs[k]] == added[k];
    }
  }

  /** The agent populate creates from the draws `sp` on the empty cell `loc`, if any. */
  method SpawnAt(f: Field<Animal>, s: Plants.PlantStatics, sp: Spawn, loc: Location) returns (x: Option<Animal>)
    requires Placed(f) && f.InBounds(loc) && loc !in f.cells && SpawnFits(sp)
    modifies f, s
    ensures x.Some? <==> Species(sp.tests).Some?
    ensures x.None? ==> f.cells == old(f.cells)
    ensures x.Some? ==>
              && fresh(x.value) && Spawned(x.value, sp) && x.value.location == Some(loc) && x.value.field == f
              && f.cells == old(f.cells)[loc := x.value]
    ensures Placed(f)
    ensures s.age == if Species(sp.tests) == Some(Plant) then sp.ageDraw else old(s.age)
  {
    x := None;
    match Species(sp.tests)
    case None =>
    case Some(k) =>
      var y: Animal;
      match k {
        case Mouse => y := Mice.Create(true, sp.ageDraw, sp.levelDraw, sp.genderDraw, f, loc);
        case Cat => y := Cats.Create(true, sp.ageDraw, sp.levelDraw, sp.genderDraw, f, loc);
        case Owl => y := Owls.Create(true, sp.ageDraw, sp.levelDraw, sp.genderDraw, f, loc);
        case Squirrel => y := Squirrels.Create(true, sp.ageDraw, sp.levelDraw, sp.genderDraw, f, loc);
        case Plant => y := Plants.Create(true, sp.ageDraw, sp.levelDraw, sp.genderDraw, s, f, loc);
        case Snake => y := Snakes.Create(true, sp.ageDraw, sp.levelDraw, sp.genderDraw, f, loc);
      }
      x := Some(y);
  }

  /** One cell of populate: the agent of its draws, if any, on cell (`row`, `col`). */
  method PopulateCell(f: Field<Animal>, s: Plants.PlantStatics, spawns: seq<seq<Spawn>>, row: nat, col: nat,
                      ghost locs: seq<Location>, ghost added: seq<Animal>)
    returns (x: Option<Animal>)
    requires SpawnsFit(spawns, f.depth, f.width) && row < f.depth && col < f.width
    requires RowsDone(f, spawns, locs, added, row, col)
    modifies f, s
    ensures x.Some? <==> Species(spawns[row][col].tests).Some?
    ensures x.Some? ==> fresh(x.value) && RowsDone(f, spawns, locs + [Location(row, col)], added + [x.value], row, col + 1)
    ensures x.None? ==> RowsDone(f, spawns, locs, added, row, col + 1)
    ensures s.age == if Species(spawns[row][col].tests) == Some(Plant) then spawns[row][col].ageDraw else old(s.age)
  {
    ghost var before := f.cells;
    x := SpawnAt(f, s, spawns[row][col], Location(row, col));
    CellFilled(before, f.cells, spawns, locs, added, row, col, f.depth, f.width, x);
    if x.Some? {
      assert forall k | 0 <= k < |added| :: (locs + [Location(row, col)])[k] == locs[k] && (added + [x.value])[k] == added[k];
    }
  }
}
