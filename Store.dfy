/**
 * The records of the four tables (locations, plants, comments, users), the responses the
 * controllers send, and the database the controllers change in place.
 */
module Store {
  import opened Wrappers
  import opened Sequences

  datatype Location = Location(
    id: nat, userId: nat, name: string, lat: real, lng: real,
    address: Option<string>, isPublic: Option<bool>)

  datatype Plant = Plant(
    id: nat, locationId: nat, trefleId: int, name: string, desc: string, image: Option<string>)

  datatype Comment = Comment(id: nat, userId: nat, plantId: nat, comment: string)

  /** A stored password: `Hashed(p)` stands for the bcrypt hash of `p`. */
  datatype Secret = Hashed(plain: string)

  datatype User = User(
    id: nat, username: string, email: string, password: Secret, phone: Option<string>,
    firstName: Option<string>, lastName: Option<string>, profilePicture: Option<string>,
    bio: Option<string>, isBotanic: bool, isGarden: bool)

  /** What an endpoint answers, by HTTP status. */
  datatype Response<T> =
    | Ok(data: T)                 // 200
    | Created(data: T)            // 201
    | BadRequest(error: string)   // 400
    | Forbidden(message: string)  // 403
    | NotFound                    // 404, `findOrFail` or an explicit check
    | Unprocessable               // 422, a failed validation
    | ServerError                 // 500, a read through a missing related row, or a delete a foreign key refuses

  /** The primary keys, as the sort keys of the ordered row lists. */
  function LocationKey(l: Location): int {
    l.id
  }

  function PlantKey(p: Plant): int {
    p.id
  }

  function CommentKey(c: Comment): int {
    c.id
  }

  /**
   * `Model::findOrFail(id)` answered as JSON: the stored row, or 404 exactly when no row has
   * that id. The single-record reads of locations, plants and comments are this lookup.
   */
  function FindOrFail<T>(table: map<nat, T>, id: int): (r: Response<T>)
    ensures r.Ok? <==> id in table
    ensures r.Ok? ==> r.data == table[id]
    ensures !r.Ok? ==> r == NotFound
  {
    if id in table then Ok(table[id]) else NotFound
  }

  /** Location `locationId` exists and belongs to `userId`. */
  predicate OwnedBy(locations: map<nat, Location>, locationId: int, userId: nat)
    ensures OwnedBy(locations, locationId, userId) ==> locationId >= 0 && locationId in locations
  {
    locationId in locations && locations[locationId].userId == userId
  }

  /**
   * The plants table after its location `locationId` is deleted: the foreign key
   * `plants.location_id` cascades, so exactly the plants at that location go with it.
   */
  function WithoutLocation(plants: map<nat, Plant>, locationId: nat): (r: map<nat, Plant>)
    ensures forall k :: k in r <==> k in plants && plants[k].locationId != locationId
    ensures forall k :: k in r ==> r[k] == plants[k]
  {
    map k | k in plants && plants[k].locationId != locationId :: plants[k]
  }

  /**
   * Some comment is on plant `plantId`. The foreign key `comments.plant_id` has no delete
   * action, so the database refuses to delete such a plant.
   */
  predicate PlantCommented(comments: map<nat, Comment>, plantId: nat)
    ensures PlantCommented(comments, plantId) <==> exists c :: c in comments.Values && c.plantId == plantId
  {
    exists k :: k in comments && comments[k].plantId == plantId
  }

  /** Some comment is on a plant at location `locationId`: the cascade to that plant is refused. */
  predicate LocationCommented(comments: map<nat, Comment>, plants: map<nat, Plant>, locationId: nat)
    ensures LocationCommented(comments, plants, locationId) <==>
      exists p :: p in plants && plants[p].locationId == locationId && PlantCommented(comments, p)
  {
    exists k :: k in comments && comments[k].plantId in plants && plants[comments[k].plantId].locationId == locationId
  }

  /** Some comment was written by `userId`: the foreign key `comments.user_id` refuses the delete. */
  predicate UserCommented(comments: map<nat, Comment>, userId: nat)
    ensures UserCommented(comments, userId) <==> exists c :: c in comments.Values && c.userId == userId
  {
    exists k :: k in comments && comments[k].userId == userId
  }

  /** No two users share a username or an email. */
  predicate UniqueAccounts(users: map<nat, User>) {
    forall a, b :: a in users && b in users && a != b ==>
      users[a].username != users[b].username && users[a].email != users[b].email
  }

  /** The ids of `table` below `below`, in ascending order. */
  function RowIds<T>(table: map<nat, T>, below: nat): (ids: seq<nat>)
    ensures forall i :: 0 <= i < |ids| ==> ids[i] in table && ids[i] < below
    ensures forall k :: k in table && k < below ==> k in ids
    ensures forall i, j :: 0 <= i < j < |ids| ==> ids[i] < ids[j]
  {
    if below == 0 then []
    else RowIds(table, below - 1) + (if below - 1 in table then [below - 1] else [])
  }

  /** The records of `table` with id below `below`, in ascending id order. */
  function Rows<T>(table: map<nat, T>, below: nat): (r: seq<T>)
    ensures |r| == |RowIds(table, below)|
    ensures forall i :: 0 <= i < |r| ==> r[i] == table[RowIds(table, below)[i]]
  {
    var ids := RowIds(table, below);
    seq(|ids|, i requires 0 <= i < |ids| => table[ids[i]])
  }

  /**
   * The application database. Each table maps a primary key to its row; the `next` counters
   * play the part of the auto-increment sequences, so a new row never reuses an id.
   */
  class Database {
    var locations: map<nat, Location>
    var plants: map<nat, Plant>
    var comments: map<nat, Comment>
    var users: map<nat, User>
    var nextLocationId: nat
    var nextPlantId: nat
    var nextCommentId: nat
    var nextUserId: nat

    /**
     * Every row is stored under its own id, and every id is below its table's counter. No two
     * users share a username or an email, as the registration and update rules guarantee.
     */
    ghost predicate Valid()
      reads this
    {
      && (forall k :: k in locations ==> k < nextLocationId && locations[k].id == k)
      && (forall k :: k in plants ==> k < nextPlantId && plants[k].id == k)
      && (forall k :: k in comments ==> k < nextCommentId && comments[k].id == k)
      && (forall k :: k in users ==> k < nextUserId && users[k].id == k)
      && UniqueAccounts(users)
    }

    constructor ()
      ensures Valid()
      ensures locations == map[] && plants == map[] && comments == map[] && users == map[]
    {
      locations, plants, comments, users := map[], map[], map[], map[];
      nextLocationId, nextPlantId, nextCommentId, nextUserId := 1, 1, 1, 1;
    }

    /** `Location::all()`: every location, once, in ascending id order. */
    function LocationRows(): (r: seq<Location>)
      reads this
      requires Valid()
      ensures forall l :: l in r <==> l in locations.Values
      ensures StrictlyIncreasing(r, LocationKey)
    {
      var r := Rows(locations, nextLocationId);
      var ids := RowIds(locations, nextLocationId);
      assert forall l :: l in locations.Values ==> l in r by {
        forall l | l in locations.Values ensures l in r {
          var k :| k in locations && locations[k] == l;
          var i :| 0 <= i < |ids| && ids[i] == k;
          assert r[i] == l;
        }
      }
      r
    }

    /** `Plant::all()`: every plant, once, in ascending id order. */
    function PlantRows(): (r: seq<Plant>)
      reads this
      requires Valid()
      ensures forall p :: p in r <==> p in plants.Values
      ensures StrictlyIncreasing(r, PlantKey)
    {
      var r := Rows(plants, nextPlantId);
      var ids := RowIds(plants, nextPlantId);
      assert forall p :: p in plants.Values ==> p in r by {
        forall p | p in plants.Values ensures p in r {
          var k :| k in plants && plants[k] == p;
          var i :| 0 <= i < |ids| && ids[i] == k;
          assert r[i] == p;
        }
      }
      r
    }

    /** `Comment::all()`: every comment, once, in ascending id order. */
    function CommentRows(): (r: seq<Comment>)
      reads this
      requires Valid()
      ensures forall c :: c in r <==> c in comments.Values
      ensures StrictlyIncreasing(r, CommentKey)
    {
      var r := Rows(comments, nextCommentId);
      var ids := RowIds(comments, nextCommentId);
      assert forall c :: c in comments.Values ==> c in r by {
        forall c | c in comments.Values ensures c in r {
          var k :| k in comments && comments[k] == c;
          var i :| 0 <= i < |ids| && ids[i] == k;
          assert r[i] == c;
        }
      }
      r
    }
  }
}
