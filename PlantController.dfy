/**
 * The plant endpoints: public reads (by id, by name, by location) and the create, edit and
 * delete that only the owner of the plant's location may perform.
 */
module Plants {
  import opened Wrappers
  import opened Sequences
  import opened Validation
  import opened Store

  /**
   * The four fields a create or edit request is validated on, and an `image` string field that
   * an edit request may carry unvalidated (it is mass assignable). The `integer` rule admits
   * negative ids.
   */
  datatype PlantInput = PlantInput(
    locationId: Option<int>, trefleId: Option<int>, name: Option<string>, desc: Option<string>,
    image: Option<string>)

  const NotOwnerOfLocation := "You are not the owner of this location"
  const NotOwnerOfCurrent := "You are not the owner of current location"
  const NotOwnerOfNew := "You are not the owner of new location"

  /** `location_id`, `trefle_id`, `name` and `desc` are all required. */
  predicate Acceptable(input: PlantInput)
    ensures Acceptable(input) ==> input.name.Some? && |input.name.value| > 0 && input.desc.Some? && |input.desc.value| > 0
  {
    && input.locationId.Some? && input.trefleId.Some?
    && input.name.Some? && Filled(input.name.value)
    && input.desc.Some? && Filled(input.desc.value)
  }

  /**
   * The plant a valid create request describes: only the four validated fields are taken from
   * the request; `upload` is the stored path of an attached image file, if any.
   */
  function FromInput(id: nat, input: PlantInput, upload: Option<string>): (r: Plant)
    requires Acceptable(input) && input.locationId.value >= 0
    ensures r.id == id && r.locationId == input.locationId.value && r.image == upload
  {
    Plant(id, input.locationId.value as nat, input.trefleId.value, input.name.value, input.desc.value, upload)
  }

  /** `update($request->all())`: the four validated fields, and `image` when the request has one. */
  function Updated(p: Plant, input: PlantInput): (r: Plant)
    requires Acceptable(input) && input.locationId.value >= 0
    ensures r.id == p.id && r.locationId == input.locationId.value
    ensures input.image.None? ==> r.image == p.image
  {
    p.(locationId := input.locationId.value as nat, trefleId := input.trefleId.value,
       name := input.name.value, desc := input.desc.value,
       image := if input.image.Some? then input.image else p.image)
  }

  /**
   * `search(query, limit)`: plants whose name contains `query`, in table order, at most `limit`
   * of them; a matching plant is left out only when `limit` were returned. A negative limit
   * is ignored by the query builder, and then every match is returned.
   */
  function Search(rows: seq<Plant>, query: string, limit: int): (r: seq<Plant>)
    requires StrictlyIncreasing(rows, PlantKey)
    ensures limit >= 0 ==> |r| <= limit
    ensures forall p :: p in r ==> p in rows && Contains(p.name, query)
    ensures forall p :: p in rows && Contains(p.name, query) && p !in r ==> limit >= 0 && |r| == limit
    ensures StrictlyIncreasing(r, PlantKey)
  {
    var matches := (p: Plant) => Contains(p.name, query);
    var found := Filter(rows, matches);
    FilterKeepsOrder(rows, matches, PlantKey);
    if limit < 0 then found
    else
      var r := Take(found, limit as nat);
      TakeFilterComplete(rows, matches, limit as nat);
      assert forall p :: p in r ==> p in found;
      assert StrictlyIncreasing(r, PlantKey) by {
        forall i, j | 0 <= i < j < |r| ensures r[i].id < r[j].id {
          assert r[i] == found[i] && r[j] == found[j];
        }
      }
      r
  }

  /**
   * `plants(idLocation)`: 404 when the location does not exist; otherwise exactly the plants
   * at that location, in table order.
   */
  function PlantsAt(locations: map<nat, Location>, rows: seq<Plant>, locationId: int): (r: Response<seq<Plant>>)
    requires StrictlyIncreasing(rows, PlantKey)
    ensures r.Ok? <==> locationId in locations
    ensures !r.Ok? ==> r == NotFound
    ensures r.Ok? ==> forall p :: p in r.data <==> p in rows && p.locationId == locationId
    ensures r.Ok? ==> StrictlyIncreasing(r.data, PlantKey)
  {
    if locationId !in locations then NotFound
    else
      var here := (p: Plant) => p.locationId == locationId;
      FilterKeepsOrder(rows, here, PlantKey);
      Ok(Filter(rows, here))
  }

  /** `search(query, limit)` over the plants table. */
  function SearchPlants(db: Database, query: string, limit: int): (r: seq<Plant>)
    reads db
    requires db.Valid()
    ensures limit >= 0 ==> |r| <= limit
    ensures forall p :: p in r ==> p in db.plants.Values && Contains(p.name, query)
    ensures forall p :: p in db.plants.Values && Contains(p.name, query) && p !in r ==> limit >= 0 && |r| == limit
  {
    var rows := db.PlantRows();
    Search(rows, query, limit)
  }

  /** `plants(idLocation)` over the tables: 404 for an unknown location, else exactly its plants. */
  function LocationPlants(db: Database, locationId: int): (r: Response<seq<Plant>>)
    reads db
    requires db.Valid()
    ensures r.Ok? <==> locationId in db.locations
    ensures !r.Ok? ==> r == NotFound
    ensures r.Ok? ==> forall p :: p in r.data <==> p in db.plants.Values && p.locationId == locationId
  {
    var rows := db.PlantRows();
    PlantsAt(db.locations, rows, locationId)
  }

  /**
   * `create`: 422 for missing fields before any lookup, then 404 for an unknown location, then
   * 403 unless the caller owns it. Only a success adds a plant, under a fresh id.
   */
  method Create(db: Database, caller: nat, input: PlantInput, upload: Option<string>) returns (r: Response<Plant>)
    requires db.Valid()
    modifies db`plants, db`nextPlantId
    ensures db.Valid()
    ensures !Acceptable(input) ==> r == Unprocessable
    ensures Acceptable(input) && input.locationId.value !in db.locations ==> r == NotFound
    ensures (Acceptable(input) && input.locationId.value in db.locations
      && db.locations[input.locationId.value].userId != caller) ==> r == Forbidden(NotOwnerOfLocation)
    ensures r.Created? <==> Acceptable(input) && OwnedBy(db.locations, input.locationId.value, caller)
    ensures r.Created? ==>
      && r.data == FromInput(old(db.nextPlantId), input, upload)
      && old(db.nextPlantId) !in old(db.plants)
      && db.plants == old(db.plants)[old(db.nextPlantId) := r.data]
    ensures !r.Created? ==> db.plants == old(db.plants) && db.nextPlantId == old(db.nextPlantId)
  {
    if !Acceptable(input) {
      return Unprocessable;
    }
    var locationId := input.locationId.value;
    if locationId !in db.locations {
      return NotFound;
    }
    if db.locations[locationId].userId != caller {
      return Forbidden(NotOwnerOfLocation);
    }
    var id := db.nextPlantId;
    var plant := FromInput(id, input, upload);
    db.plants := db.plants[id := plant];
    db.nextPlantId := id + 1;
    r := Created(plant);
  }

  /**
   * `edit`: 422 before the plant is looked up, 404 for a missing plant, 403 unless the caller
   * owns the plant's current location, then 404 and 403 for the target location. A plant whose
   * location row is gone makes the ownership read fail (500). Only a success changes that row.
   */
  method Edit(db: Database, caller: nat, id: nat, input: PlantInput) returns (r: Response<Plant>)
    requires db.Valid()
    modifies db`plants
    ensures db.Valid()
    ensures !Acceptable(input) ==> r == Unprocessable
    ensures Acceptable(input) && id !in old(db.plants) ==> r == NotFound
    ensures Acceptable(input) && id in old(db.plants) && old(db.plants[id]).locationId !in db.locations ==>
      r == ServerError
    ensures (Acceptable(input) && id in old(db.plants) && old(db.plants[id]).locationId in db.locations
      && !OwnedBy(db.locations, old(db.plants[id]).locationId, caller)) ==> r == Forbidden(NotOwnerOfCurrent)
    ensures (Acceptable(input) && id in old(db.plants) && OwnedBy(db.locations, old(db.plants[id]).locationId, caller)
      && input.locationId.value !in db.locations) ==> r == NotFound
    ensures (Acceptable(input) && id in old(db.plants) && OwnedBy(db.locations, old(db.plants[id]).locationId, caller)
      && input.locationId.value in db.locations && !OwnedBy(db.locations, input.locationId.value, caller)) ==>
      r == Forbidden(NotOwnerOfNew)
    ensures r.Ok? <==>
      && Acceptable(input) && id in old(db.plants)
      && OwnedBy(db.locations, old(db.plants[id]).locationId, caller)
      && OwnedBy(db.locations, input.locationId.value, caller)
    ensures r.Ok? ==> r.data == Updated(old(db.plants[id]), input) && db.plants == old(db.plants)[id := r.data]
    ensures !r.Ok? ==> db.plants == old(db.plants)
  {
    if !Acceptable(input) {
      return Unprocessable;
    }
    if id !in db.plants {
      return NotFound;
    }
    var plant := db.plants[id];
    if plant.locationId !in db.locations {
      return ServerError;
    }
    if db.locations[plant.locationId].userId != caller {
      return Forbidden(NotOwnerOfCurrent);
    }
    var target := input.locationId.value;
    if target !in db.locations {
      return NotFound;
    }
    if db.locations[target].userId != caller {
      return Forbidden(NotOwnerOfNew);
    }
    var updated := Updated(plant, input);
    db.plants := db.plants[id := updated];
    r := Ok(updated);
  }

  /**
   * `delete`: 404 for a missing plant, 500 when its location row is gone, 403 unless the
   * caller owns its location, and 500 when a comment is on the plant, because the database
   * refuses the delete. A success removes exactly that plant.
   */
  method Delete(db: Database, caller: nat, id: nat) returns (r: Response<()>)
    requires db.Valid()
    modifies db`plants
    ensures db.Valid()
    ensures id !in old(db.plants) ==> r == NotFound
    ensures id in old(db.plants) && old(db.plants[id]).locationId !in db.locations ==> r == ServerError
    ensures (id in old(db.plants) && old(db.plants[id]).locationId in db.locations
      && !OwnedBy(db.locations, old(db.plants[id]).locationId, caller)) ==> r == Forbidden(NotOwnerOfLocation)
    ensures (id in old(db.plants) && OwnedBy(db.locations, old(db.plants[id]).locationId, caller)
      && PlantCommented(db.comments, id)) ==> r == ServerError
    ensures r.Ok? <==>
      && id in old(db.plants) && OwnedBy(db.locations, old(db.plants[id]).locationId, caller)
      && !PlantCommented(db.comments, id)
    ensures r.Ok? ==> db.plants == old(db.plants) - {id}
    ensures !r.Ok? ==> db.plants == old(db.plants)
  {
    if id !in db.plants {
      return NotFound;
    }
    var locationId := db.plants[id].locationId;
    if locationId !in db.locations {
      return ServerError;
    }
    if db.locations[locationId].userId != caller {
      return Forbidden(NotOwnerOfLocation);
    }
    if PlantCommented(db.comments, id) {
      return ServerError;
    }
    db.plants := db.plants - {id};
    r := Ok(());
  }
}
