/** Animal.java: the state every agent shares (alive flag, gender, field and
    location) and the two operations that change an agent's cell, setDead and
    setLocation. The six Java subclasses are one class here, tagged by `kind`. */
module Animals {
  import opened Grid

  /** The concrete class of an agent. */
  datatype Kind = Mouse | Cat | Owl | Squirrel | Plant | Snake

  /** setRandGender: the character at index `draw` (0 or 1) of "MF". */
  function GenderOf(draw: nat): (g: char)
    requires draw < 2
    ensures g == 'M' || g == 'F'
    ensures draw == 0 <==> g == 'M'
  {
    "MF"[draw]
  }

  class Animal {
    const kind: Kind
    /** Set once by the constructor; there is no setter. */
    const gender: char
    var alive: bool
    var field: Field?<Animal>
    var location: Option<Location>
    /** The per-instance age and food level of the animal subclasses (a
        plant's age is the shared Plants.PlantStatics.age instead). */
    var age: int
    var foodLevel: int
    /** Plant's waterLevel (the animal subclasses have no such field). */
    var waterLevel: int

    /** Animal(field, location) followed by the subclass's initialisation of
        its counters. The cell is written without looking at what it held. */
    constructor (kind: Kind, genderDraw: nat, field: Field<Animal>, location: Location,
                 age: int, foodLevel: int, waterLevel: int)
      requires genderDraw < 2 && field.InBounds(location)
      modifies field
      ensures this.kind == kind && gender == GenderOf(genderDraw)
      ensures alive && this.field == field && this.location == Some(location)
      ensures this.age == age && this.foodLevel == foodLevel && this.waterLevel == waterLevel
      ensures field.cells == old(field.cells)[location := this]
    {
      this.kind := kind;
      alive := true;
      gender := GenderOf(genderDraw);
      this.field := field;
      this.location := None;
      this.age := age;
      this.foodLevel := foodLevel;
      this.waterLevel := waterLevel;
      new;
      SetLocation(location);
    }

    predicate IsAlive()
      reads this
    {
      alive
    }

    /** setDead: marks the agent dead; an agent on the field also leaves its
        cell and drops its location and its field. */
    method SetDead()
      requires location.Some? ==> field != null && field.InBounds(location.value)
      modifies this`alive, this`location, this`field, field
      ensures !alive && location == None
      ensures old(location).Some? ==> field == null && old(field).cells == old(field.cells) - {old(location).value}
      ensures old(location).None? ==> field == old(field) && (field != null ==> field.cells == old(field.cells))
      ensures old(field) != null && old(Placed(field)) && old(Located(this, field)) ==>
                Placed(old(field)) && Located(this, old(field))
    {
      alive := false;
      if location.Some? {
        field.Clear(location.value);
        location := None;
        field := null;
      }
    }

    /** setLocation: empties the previous cell, if any, then records `newLocation`
        and writes this agent into it. No other cell changes. */
    method SetLocation(newLocation: Location)
      requires field != null && field.InBounds(newLocation)
      requires location.Some? ==> field.InBounds(location.value)
      modifies this, field
      ensures location == Some(newLocation)
      ensures field == old(field) && alive == old(alive)
      ensures age == old(age) && foodLevel == old(foodLevel) && waterLevel == old(waterLevel)
      ensures field.cells ==
                (if old(location).Some? then old(field.cells) - {old(location).value} else old(field.cells))[newLocation := this]
      ensures old(Placed(field)) && old(Located(this, field)) && alive
                && (newLocation !in old(field.cells) || old(location) == Some(newLocation)) ==>
                Placed(field) && Located(this, field)
    {
      if location.Some? {
        field.Clear(location.value);
      }
      location := Some(newLocation);
      field.Place(this, newLocation);
    }
  }

  /** Every occupied cell holds a live agent that records that cell and this field
      (so no cell points to a dead agent, and no agent occupies two cells). */
  ghost predicate Placed(f: Field<Animal>)
    reads f, f.cells.Values`alive, f.cells.Values`location, f.cells.Values`field
  {
    && f.Valid()
    && forall l | l in f.cells :: f.cells[l].alive && f.cells[l].location == Some(l) && f.cells[l].field == f
  }

  /** A live agent is on `f` in the cell it records; a dead one holds neither location nor field. */
  ghost predicate Located(a: Animal, f: Field<Animal>)
    reads a`alive, a`location, a`field, f
  {
    if a.alive then a.field == f && a.location.Some? && a.location.value in f.cells && f.cells[a.location.value] == a
    else a.location == None && a.field == null
  }
}
