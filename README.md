# Ecosystem simulator, modelled in Dafny

The system is a predator–prey simulation on a rectangular grid. Six kinds of agent live on it:
cats, mice, owls, squirrels, snakes and plants. Each step of the clock advances a day counter and
may draw a new weather: sunny, rainy or windy. The step then sweeps the list of agents.

- **By day** (counter 1 to 10) every agent acts. **By night** (counter 11 to 20) every agent
  sleeps. On the 21st step nobody moves and the counter restarts.
- **Animals** age and hunger, breed into free neighbouring cells and eat the first live prey
  next to them. An animal that finds no prey moves to a free neighbour, or dies of overcrowding
  when there is none.
- **Plants** share a single age counter. They age and thirst, grow into free neighbouring cells
  and scatter seeds over the field.
- **After the sweep**, agents that died are dropped from the list and the step's newborns are
  appended.

The model keeps the program's imperative form:

- `Grid.Field` is a class whose `cells` map holds the occupied cells.
- `Animals.Animal` is a class with the fields every agent has. A `kind` tag stands for the Java
  subclass.
- `Simulation.Simulator` is a class holding the list of agents, the step, the counter, the
  weather and the time status.
- The species behaviour is a set of methods that update those fields and the field's cells.

Every random draw is an input:

- a probability test is a boolean saying whether it passed;
- `nextInt(n)` is a natural number below `n`;
- `nextInt()` is an arbitrary integer;
- the random order of a neighbourhood query is a permutation of the eight directions.

Two invariants run through every contract:

- `Placed(f)`: every occupied cell holds a live agent that records that cell.
- `Located(a, f)`: a live agent stands where it says; a dead one has neither field nor
  location.

Each turn proves `Life.Settled`: the field is placed, the acting agent, everyone who was on the
field and every newborn are located, and nobody else is on the field. The simulator's `Valid`
keeps these invariants for the whole list across steps.

Modules: `Grid` (the field and its neighbourhood queries), `Animals`, `Life` (the behaviour the
species share), `Cats`, `Mice`, `Owls`, `Squirrels`, `Snakes`, `Plants` and `Simulation`.

## Model

| member | source | states |
|---|---|---|
| Animals.GenderOf | Animal.java:42-47 | the gender is 'M' or 'F', and 'M' exactly for draw 0 |
| Animals.Animal.constructor | Animal.java:29-35 | a new agent is alive, records the given field and location, has its drawn gender, and the field holds it at that cell with every other cell unchanged |
| Animals.Animal.SetDead | Animal.java:86-94 | the agent is dead with no location; if it had one, its cell is cleared and its field dropped; if not, no cell changes (so a second call changes nothing); placement and location invariants are kept |
| Animals.Animal.SetLocation | Animal.java:109-116 | the previous cell (if any) is emptied, the new location recorded and the agent written there; no other cell and no other field changes; the invariants are kept when the target is free or its own cell |
| Grid.Field.constructor | Simulator.java:83 | a field of the given depth and width with no occupied cell |
| Grid.Field.Place | Animal.java:115 | the cell holds the agent and every other cell is unchanged |
| Grid.Field.Clear | Animal.java:90 | the cell is emptied and every other cell is unchanged |
| Grid.Field.ClearAll | Simulator.java:202 | every cell is emptied |
| Grid.Field.AdjacentLocations | Cat.java:158 | exactly the in-bounds neighbours of the cell, each once, in the caller's random order |
| Grid.Field.GetFreeAdjacentLocations | Cat.java:190 | exactly the empty in-bounds neighbours of the cell, each once |
| Grid.Field.FreeAdjacentLocation | Cat.java:84 | no result exactly when every in-bounds neighbour is occupied, otherwise an empty in-bounds neighbour |
| Life.Breed | Cat.java:233-240 | no births exactly when the agent cannot breed or the probability test fails; otherwise between 1 and the maximum litter |
| Life.Die | Animal.java:86-94 | setDead on a field agent: it is dead, its cell (if it was alive and placed) is cleared, and the invariants hold |
| Life.IncrementAge | Cat.java:131-137 | age goes up by one; the agent dies exactly when the new age exceeds the species' maximum, and then leaves its cell |
| Life.IncrementHunger | Cat.java:142-148 | food goes down by one; the agent dies exactly when the new food level is 0 or less, and then leaves its cell |
| Life.AdjacentGenderCheck | Cat.java:204-225 | true exactly when some neighbour holds a live agent of the same kind and a different gender |
| Life.FirstInIsFirst | Cat.java:159-172 | the scan finds nothing exactly when no neighbour qualifies, and otherwise the first qualifying neighbour in order |
| Life.ScanForPrey | Cat.java:159-172 | the search loop returns the first neighbour holding live prey, in adjacency order |
| Life.FindFood | Cat.java:155-175 | the first live prey in adjacency order is killed and removed from its cell, the food level becomes that prey's food value, and its cell is returned; with no live prey nothing changes |
| Life.Newborn | Cat.java:47-59 | a newborn is a fresh live agent of age 0 with the newborn food level and water level 0, placed on the given empty cell |
| Life.PlaceLitter | Cat.java:191-196 | min(births, free cells) newborns, the i-th on the i-th free cell, with every earlier cell kept and no other cell added |
| Life.GiveBirth | Cat.java:185-197 | the litter is placed on distinct, previously free neighbours, at most the number of births, each newborn young with its drawn gender; nothing else changes |
| Life.MoveOrDie | Cat.java:87-92 | the agent moves to the new location when there is one and dies of overcrowding otherwise; only its own cells change |
| Life.EatOrMove | Cat.java:80-92 | eat the first live prey and move into its cell; otherwise move to the first free neighbour; otherwise die |
| Life.Litter | Cat.java:75-78 | a species that needs a mate gives birth only when an adjacent live agent of its kind has the other gender |
| Life.Hunt | Cat.java:74-93 | the hunting turn of a live animal: a (possibly mate-gated) litter, then eat, move or die, as Hunted says |
| Life.Forage | Cat.java:80-92 | the eating half of a hunt after the litter, as Hunted says |
| Cats.CanBreed | Cat.java:246-252 | true exactly when age is at least 6, food at least 2 and the cat is female |
| Cats.Create | Cat.java:47-59 | a cat of random age and food below 140 and 8, or age 0 and food 8 for a newborn, on its cell |
| Cats.Act | Cat.java:68-103 | rain changes nothing; otherwise hunger, then age, and a cat that survives both breeds only with an adjacent mate, then eats a mouse, moves or dies |
| Cats.Sleep | Cat.java:113-126 | food, age and position never change; without rain a live cat breeds with an adjacent mate |
| Mice.CanBreed | Mouse.java:210-218 | true exactly when age is at least 4, food at least 2 and the mouse is female |
| Mice.Create | Mouse.java:49-62 | a mouse of random age and food below 100 and 10, or age 0 and food 10 for a newborn |
| Mice.Act | Mouse.java:70-104 | by day age, then hunger, then a mate-gated litter and eat a plant, move or die; in the rain as RainyDay |
| Mice.RainyDay | Mouse.java:94-102 | the mouse ages, loses an arbitrary amount of food with no hunger death, breeds only with an adjacent mate, and never moves |
| Mice.Sleep | Mouse.java:115-128 | without rain an arbitrary food decrement and a mate-gated litter, no ageing and no move; rain changes nothing |
| Squirrels.CanBreed | Squirrel.java:206-213 | true exactly when age is at least 4, food at least 3 and the squirrel is female |
| Squirrels.Create | Squirrel.java:45-57 | a squirrel of random age and food below 150 and 12, or age 0 and food 12 for a newborn |
| Squirrels.Act | Squirrel.java:65-98 | by day age, then hunger, then a mate-gated litter and eat a plant, move or die; in the rain only ageing and an arbitrary food decrement |
| Squirrels.Sleep | Squirrel.java:108-124 | without rain an arbitrary food decrement and a mate-gated litter with no ageing or move; rain changes nothing |
| Snakes.CanBreed | Snake.java:168-175 | true exactly when age is at least 6, food at least 2 and the snake is female |
| Snakes.Create | Snake.java:42-52 | a snake of random age and food below 70 and 8, or age 0 and food 8 for a newborn |
| Snakes.Act | Snake.java:61-89 | rain changes nothing; otherwise hunger, then age, then an ungated litter (up to 40, capped by free cells) and eat a squirrel, move or die |
| Snakes.Sleep | Snake.java:97-106 | without rain age, an arbitrary food decrement with no hunger death and an ungated litter, never moving; rain changes nothing |
| Owls.CanBreed | Owl.java:247-253 | true exactly when age is at least 10, food at least 3 and the owl is female |
| Owls.Create | Owl.java:51-63 | an owl of random age and food below 135 and 10, or age 0 and food 10 for a newborn |
| Owls.Act | Owl.java:71-76 | nothing changes, in any weather, and no newborn is added |
| Owls.Sleep | Owl.java:86-116 | rain changes nothing; otherwise age, then hunger, an ungated litter, then eat a mouse (food 10) or squirrel (food 4), move or die |
| Plants.PlantStatics.constructor | Plant.java:16 | the shared plant age starts at 0 |
| Plants.CanBreed | Plant.java:190-193 | true exactly when the shared age is at least 2 |
| Plants.SizeExpansion | Plant.java:97-104 | 0 exactly when the growing test fails, otherwise 1 to 5 |
| Plants.Create | Plant.java:47-57 | the shared age is reset to 0, then drawn below 50 for a random age; the water level is 1 to 20 |
| Plants.IncrementAge | Plant.java:166-172 | the shared age goes up by one; this plant dies exactly when it exceeds 500 |
| Plants.IncrementThirst | Plant.java:178-184 | the water level drops by an arbitrary amount; the plant dies exactly when it falls below 0 |
| Plants.Grow | Plant.java:79-89 | young plants of water level 0 on the first sizeExpansion() free neighbours (fewer when fewer are free), each construction resetting the shared age |
| Plants.GrownCount | Plant.java:79-104 | no plant grows without the test; at most sizeExpansion() plants grow, and fewer only when every neighbour is then taken |
| Plants.GrownCells | Plant.java:79-89 | each grown plant is young, has water level 0 and stands on its own previously free neighbour; every other cell keeps its occupant |
| Plants.SeedSiteIsFree | Plant.java:223-249 | a seed lands exactly when it takes, its drawn cell is on the field and that cell is empty or has a free neighbour; on its cell when that is empty; always on a free cell |
| Plants.ScatteredIsFree | Plant.java:219-250 | the seeds of one dispersal land on distinct free cells, at most one plant per seed |
| Plants.ScatteredCover | Plant.java:219-250 | the cells taken after a dispersal are the old ones plus exactly the landed seeds' cells |
| Plants.LandedWater | Plant.java:50 | every seed's plant has 1 to 20 units of water |
| Plants.SeedsCount | Plant.java:218-221 | no seed lands unless the plant can breed and the dispersal test passes, and never more than 10 |
| Plants.SeedsCells | Plant.java:228-248 | each seedling is a live plant of water 1 to 20 on its own landing cell |
| Plants.SeedsKeep | Plant.java:216-252 | dispersal keeps every occupied cell and its new cells hold the seedlings |
| Plants.SeedDispersal | Plant.java:216-252 | the seedlings land where the scattered landings say, each resetting the shared age |
| Plants.Disperse | Plant.java:219-250 | the dispersal loop over the seeds gives the seedlings of the scattered landings, in seed order |
| Plants.DisperseSeed | Plant.java:228-248 | one seed's plant is created exactly when it has a landing site, and then stands there |
| Plants.Seedling | Plant.java:228-239 | a seed's plant is a live plant of age 0 on an empty cell, with the shared age reset |
| Plants.GrowAndSeed | Plant.java:126-127 | grow then seedDispersal: the grown plants come first, then the seedlings, which see the grown plants' cells taken |
| Plants.SunnyDay | Plant.java:116-122 | age, thirst, then for a live plant growth |
| Plants.CalmNight | Plant.java:160-162 | age, then for a live plant growth, with the water level unchanged |
| Plants.WindyTurn | Plant.java:123-129 | age, then for a live plant growth followed by dispersal |
| Plants.RainyTurn | Plant.java:130-136 | age, one more unit of water (by night only for a live plant), then for a live plant dispersal only |
| Plants.Act | Plant.java:114-138 | by the weather, a sunny day, a windy turn or a rainy day, which settles everyone |
| Plants.Sleep | Plant.java:148-164 | age, then a rainy, windy or calm night, which settles everyone |
| Simulation.Dimensions | Simulator.java:73-80 | the given dimensions when both are positive, else 80 by 120 |
| Simulation.SetWeather | Simulator.java:263-278 | a weather drawn afresh exactly when the counter is at most 1 or is 10; otherwise unchanged |
| Simulation.Tick | Simulator.java:139-175 | the counter goes up by one until 20 and then restarts at 0, staying within 0 to 20 |
| Simulation.ClockCycles | Simulator.java:139-175 | from a reset counter, after n steps the counter is n modulo 21 |
| Simulation.DayAndNight | Simulator.java:146-175 | of each 21 steps after a reset the first 10 are day, the next 10 night, and in the last nobody moves |
| Simulation.WeatherSteady | Simulator.java:263-278 | the weather does not change on steps with counter 2 to 9 or 11 to 21 |
| Simulation.StepsRun | Simulator.java:126-132 | simulate runs at most numSteps steps, each preceded by a viable check, and stops at the first non-viable one |
| Simulation.KeepMembers | Simulator.java:150-155 | removing the dead keeps exactly the survivors and never lengthens the list |
| Simulation.KeepAll | Simulator.java:170-175 | a step on which nobody moves keeps the whole list |
| Simulation.KeepStep | Simulator.java:150-155 | each iteration keeps the current agent exactly when it survived, after those before it |
| Simulation.SpeciesFirst | Simulator.java:205-237 | a cell gets the species of the first passing creation test in the order mouse, cat, owl, squirrel, plant, snake, and nothing when all fail |
| Simulation.TakeTurn | Simulator.java:150-153 | one agent's act or sleep settles everyone, and no listed agent comes back to life |
| Simulation.DayTurn | Simulator.java:151 | act dispatched by kind, settling everyone, and a dead agent stays dead |
| Simulation.NightTurn | Simulator.java:164 | sleep dispatched by kind, settling everyone, and a dead agent stays dead |
| Simulation.Simulator.constructor | Simulator.java:73-105 | a field of the checked dimensions, populated, at step 0 with counter 0 and no weather or time status yet |
| Simulation.Simulator.Reset | Simulator.java:187-195 | step 0 and an emptied list, then populate; the counter and weather are unchanged |
| Simulation.Simulator.Populate | Simulator.java:200-241 | each cell, in row-major order, holds the agent of its first passing creation test, and nothing when all fail; the list gets those agents in that order |
| Simulation.Simulator.PopulateRow | Simulator.java:204-239 | the columns of one row are populated and listed in order |
| Simulation.Simulator.SimulateOneStep | Simulator.java:139-182 | step and counter advance by one tick, the weather is as setWeather gives it and the time status follows the phase; the list after the step is the flagged agents of the old list in their old order, followed by fresh newborns; on a day or night step an agent already dead when the step starts is dropped, and an agent alive at its end is kept; on the idle step no agent runs: the list, the field's cells, every listed agent's fields and the shared plant age are unchanged; the placement invariants hold after the step |
| Simulation.Simulator.Sweep | Simulator.java:148-156 | the list after the sweep is the flagged agents of the old list in their old order, followed by the fresh newborns; agents dead when the sweep starts are dropped, agents alive at its end are kept, and newborns join only after the sweep; the placement invariants hold again |
| Simulation.Simulator.Simulate | Simulator.java:126-132 | exactly StepsRun steps are taken, and the invariants hold throughout |
| Simulation.SpawnAt | Simulator.java:205-237 | the agent of a cell's creation tests, created with its random age, level and gender draws |
| Simulation.PopulateCell | Simulator.java:205-237 | one cell of populate is filled with the agent of its first passing creation test |

## Left out

- Random number generation is not modelled: every draw is an input, and a probability test `nextDouble() <= p` is the boolean outcome, so the probability constants have no role.
- Java's 32-bit integer overflow is not modelled: integers are unbounded. The arbitrary `nextInt()` decrements are arbitrary integers.
- Field.java and Location.java are not part of this model. `Grid` gives the operations the core calls, with adjacency order a caller-supplied permutation of the eight directions.
- The views are left out because they are user interface: GridView, GraphView, colours, updateViews and showStatus. Whether the field is viable is an input to `Simulate`.
- Pacing and launch code are left out: delay, main and runLongSimulation.
- The exceptions caught in seedDispersal are modelled as discarded seeds, with the shared age not reset.
- The unused adjacentGenderCheck of Owl.java and Snake.java is not modelled, because nothing calls it.
- Weather strings are the three values of `Life.Weather`. Lower-casing plays no part, since the simulator only ever uses the three array strings.
- Plant's getAge and getWaterLevel are field reads. Animal's isAlive, getGender and getLocation are too.
- setWeather's comment speaks of counter 5. The code tests 10, and the model follows the code.
- Simulation.Simulator.Sweep: does not say that every agent takes its turn, or which turn's outcome each newborn comes from. TakeTurn states what one turn does: it settles the field and revives nobody.
- Simulation.Simulator.Sweep: an agent alive when the sweep starts and dead at its end may have died in its own turn, and is then dropped. It may instead have been eaten by a later agent, and is then kept. The contract does not say which of the two happened.
- Simulation.Simulator.SimulateOneStep: inherits both gaps of Sweep on day and night steps.
- Simulation.Simulator.Simulate: states the number of steps taken and the kept invariants, not the state after each step.
- Simulation.Simulator.Reset: does not state that the step's agents are fresh.
- Simulation.Dimensions: the two console messages printed for non-positive dimensions are output only, and are left out.
