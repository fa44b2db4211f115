/**
 * The location endpoints other than the nearest search: reads by id and by owner, and the
 * owner-only create, edit and delete.
 */
module Locations {
  import opened Wrappers
  import opened Sequences
  import opened Validation
  import opened Store

  /** The fields a create or edit request may carry. */
  datatype LocationInput = LocationInput(
    name: Option<string>, lat: Option<real>, lng: Option<real>,
    address: Option<string>, isPublic: Option<bool>)

  const NotOwner := "You are not logged in as the owner of this location"

  /** `name`, `lat` and `lng` are required. */
  predicate Acceptable(input: LocationInput)
    ensures Acceptable(input) ==> input.name.Some? && |input.name.value| > 0
  {
    input.name.Some? && Filled(input.name.value) && input.lat.Some? && input.lng.Some?
  }

  /** The location a valid create request describes, owned by `owner`. */
  function FromInput(id: nat, owner: nat, input: LocationInput): (r: Location)
    requires Acceptable(input)
    ensures r.id == id && r.userId == owner
  {
    Location(id, owner, input.name.value, input.lat.value, input.lng.value, input.address, input.isPublic)
  }

  /** `update($request->all())`: the fields the request carries replace the stored ones. */
  function Updated(l: Location, input: LocationInput): (r: Location)
    requires Acceptable(input)
    ensures r.id == l.id && r.userId == l.userId
    ensures input.address.None? ==> r.address == l.address
    ensures input.isPublic.None? ==> r.isPublic == l.isPublic
  {
    l.(name := input.name.value, lat := input.lat.value, lng := input.lng.value,
       address := if input.address.Some? then input.address else l.address,
       isPublic := if input.isPublic.Some? then input.isPublic else l.isPublic)
  }

  /**
   * `getUserLocations(userId)`, and `getLocations` with the caller's id: exactly the rows owned
   * by `userId`, in table order; an unknown user owns none.
   */
  function UserLocations(rows: seq<Location>, userId: int): (r: seq<Location>)
    requires StrictlyIncreasing(rows, LocationKey)
    ensures forall l :: l in r <==> l in rows && l.userId == userId
    ensures StrictlyIncreasing(r, LocationKey)
    ensures (forall l :: l in rows ==> l.userId != userId) ==> r == []
  {
    var owned := (l: Location) => l.userId == userId;
    FilterKeepsOrder(rows, owned, LocationKey);
    var r := Filter(rows, owned);
    assert r != [] ==> r[0] in rows && r[0].userId == userId;
    r
  }

  /**
   * `getUserLocations(userId)` over the locations table, and `getLocations` for the caller:
   * exactly the stored locations of that user.
   */
  function GetUserLocations(db: Database, userId: int): (r: seq<Location>)
    reads db
    requires db.Valid()
    ensures forall l :: l in r <==> l in db.locations.Values && l.userId == userId
    ensures StrictlyIncreasing(r, LocationKey)
  {
    UserLocations(db.LocationRows(), userId)
  }

  /** `create`: 422 unless name, lat and lng are given; otherwise a new location owned by the caller. */
  method Create(db: Database, caller: nat, input: LocationInput) returns (r: Response<Location>)
    requires db.Valid()
    modifies db`locations, db`nextLocationId
    ensures db.Valid()
    ensures !Acceptable(input) ==>
      r == Unprocessable && db.locations == old(db.locations) && db.nextLocationId == old(db.nextLocationId)
    ensures Acceptable(input) ==>
      && r == Created(FromInput(old(db.nextLocationId), caller, input))
      && r.data.userId == caller
      && old(db.nextLocationId) !in old(db.locations)
      && db.locations == old(db.locations)[old(db.nextLocationId) := r.data]
  {
    if !Acceptable(input) {
      return Unprocessable;
    }
    var id := db.nextLocationId;
    var location := FromInput(id, caller, input);
    db.locations := db.locations[id := location];
    db.nextLocationId := id + 1;
    r := Created(location);
  }

  /**
   * `edit`: 404 for a missing id, then 403 for anyone but the owner, and only then 422 for a
   * request missing name, lat or lng. Only a success changes the table, and only that row.
   */
  method Edit(db: Database, caller: nat, id: nat, input: LocationInput) returns (r: Response<Location>)
    requires db.Valid()
    modifies db`locations
    ensures db.Valid()
    ensures id !in old(db.locations) ==> r == NotFound
    ensures id in old(db.locations) && old(db.locations[id]).userId != caller ==> r == Forbidden(NotOwner)
    ensures id in old(db.locations) && old(db.locations[id]).userId == caller && !Acceptable(input) ==>
      r == Unprocessable
    ensures r.Ok? <==> id in old(db.locations) && old(db.locations[id]).userId == caller && Acceptable(input)
    ensures r.Ok? ==>
      && r.data == Updated(old(db.locations[id]), input)
      && r.data.id == id && r.data.userId == caller
      && db.locations == old(db.locations)[id := r.data]
    ensures !r.Ok? ==> db.locations == old(db.locations)
  {
    if id !in db.locations {
      return NotFound;
    }
    var location := db.locations[id];
    if caller != location.userId {
      return Forbidden(NotOwner);
    }
    if !Acceptable(input) {
      return Unprocessable;
    }
    var updated := Updated(location, input);
    db.locations := db.locations[id := updated];
    r := Ok(updated);
  }

  /**
   * `delete`: 404 for a missing id, 403 for anyone but the owner. The plants at the location
   * go with it (the foreign key cascades), unless a comment is on one of them: then the
   * database refuses the delete (500) and nothing changes.
   */
  method Delete(db: Database, caller: nat, id: nat) returns (r: Response<()>)
    requires db.Valid()
    modifies db`locations, db`plants
    ensures db.Valid()
    ensures id !in old(db.locations) ==> r == NotFound
    ensures id in old(db.locations) && old(db.locations[id]).userId != caller ==> r == Forbidden(NotOwner)
    ensures (id in old(db.locations) && old(db.locations[id]).userId == caller
      && LocationCommented(db.comments, old(db.plants), id)) ==> r == ServerError
    ensures r.Ok? <==>
      && id in old(db.locations) && old(db.locations[id]).userId == caller
      && !LocationCommented(db.comments, old(db.plants), id)
    ensures r.Ok? ==>
      && db.locations == old(db.locations) - {id}
      && db.plants == WithoutLocation(old(db.plants), id)
    ensures !r.Ok? ==> db.locations == old(db.locations) && db.plants == old(db.plants)
  {
    if id !in db.locations {
      return NotFound;
    }
    if caller != db.locations[id].userId {
      return Forbidden(NotOwner);
    }
    if LocationCommented(db.comments, db.plants, id) {
      return ServerError;
    }
    db.locations := db.locations - {id};
    db.plants := WithoutLocation(db.plants, id);
    r := Ok(());
  }
}
