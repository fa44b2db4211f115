# LeafyLinks REST controllers in Dafny

This project models the four controllers of the LeafyLinks plant-sharing backend:

- `LocationController`: a nearest-location query, plus the owner's create, edit and delete of
  locations.
- `PlantController`: plant reads and search, plus create, edit and delete for the owner of the
  plant's location.
- `CommentController`: comment reads, plus create, edit and delete.
- `UserController`: public profiles, registration, and the caller's own update and deletion.

The database is a `Store.Database` object. It holds one map per table, from primary key to row,
and one auto-increment counter per table. Endpoints that change data are module-level methods
of each controller's module that take the database object as a parameter. Their `modifies`
clauses name only the tables of that object an endpoint touches. Each method states the
following:

- the answer for every way a request can fail, in the code's check order;
- that a failed request leaves its table unchanged;
- the exact new table after a success.

Read-only endpoints are functions over the maps, or over the rows in ascending id order. Each
list endpoint also has a function over the database object, whose contract speaks of the
stored tables themselves. The
nearest-location query is a pure pipeline with these steps:

1. annotate each location with its distance;
2. keep those within the radius;
3. stable-sort by distance;
4. take ten.

The lemmas prove it returns the ten closest qualifying locations in that order. The
great-circle distance is a parameter.

Each answer is a `Store.Response`, one case per HTTP status the controllers send:

| case | status |
|---|---|
| `Ok` | 200 |
| `Created` | 201 |
| `BadRequest` | 400 |
| `Forbidden` | 403 |
| `NotFound` | 404 |
| `Unprocessable` | 422 |
| `ServerError` | 500 |

Laravel's validation rules are modelled as follows:

- `required` means a string that is not blank once the characters PHP's `trim` removes are
  ignored.
- `digits_between` is skipped for a blank value.
- `unique:table,column,id` ignores the row `id`.
- `exists:plants,id` is a key lookup.
- The foreign keys of the plants and comments tables are modelled where an endpoint deletes:
  deleting a location deletes its plants (`ON DELETE CASCADE`), and deleting a plant, a
  location whose plants have comments, or a user who has written comments is refused by the
  database, which the application answers with 500.
- `integer` admits negative values; a negative id names no row.
- A property read through a missing related row, such as `$plant->location->user_id` for a
  plant whose location is gone, raises an error in PHP 8. It is modelled as `ServerError`, with
  nothing changed.

Where the code and the test suite disagree, the model follows the code. `register` answers
400 on a validation failure, which the register test expects to be 422.

Files:

- `Wrappers.dfy`: `Option`.
- `Sequences.dfy`: filter, take, substring containment, and order lemmas.
- `Validation.dfy`: the validation rules.
- `Store.dfy`: rows, responses, and the database class.
- `Nearest.dfy`: the nearest-location query.
- `LocationController.dfy`, `PlantController.dfy`, `CommentController.dfy`,
  `UserController.dfy`: one module per controller.

## Model

| member | source | states |
|---|---|---|
| Store.Database.LocationRows | app/Http/Controllers/LocationController.php:65 | `Location::all()` holds every stored location exactly once, in ascending id order |
| Store.Database.PlantRows | app/Http/Controllers/PlantController.php:32-36 | `all` returns every stored plant exactly once, in ascending id order |
| Store.Database.CommentRows | app/Http/Controllers/CommentController.php:43 | the comment table's rows: every stored comment, in ascending id order |
| Store.FindOrFail | app/Http/Controllers/LocationController.php:95-99 | `getLocationById`, and likewise plant `get` (PlantController.php:54-58) and comment `getById` (CommentController.php:66-70): the stored row, or 404 exactly when no row has that id, negative ids included |
| Store.RowIds | app/Http/Controllers/PlantController.php:34 | the table's ids below the counter, strictly ascending: every listed id is stored, and no stored id below the counter is omitted |
| Store.OwnedBy | app/Http/Controllers/PlantController.php:147-148 | `findOrFail` on the location and then `user_id` equals the caller: only a stored (hence non-negative) location id is owned |
| Store.PlantCommented | database/migrations/2024_02_05_181512_create_comments_table.php:23 | the `plant_id` key blocks a plant's delete exactly when some stored comment is on that plant |
| Store.LocationCommented | database/migrations/2024_02_05_181512_create_comments_table.php:23 | the cascade from a location is blocked exactly when some plant at that location is itself blocked by a comment |
| Store.UserCommented | database/migrations/2024_02_05_181512_create_comments_table.php:22 | the `user_id` key blocks a user's delete exactly when some stored comment was written by that user |
| Store.WithoutLocation | database/migrations/2024_02_01_082017_create_plants_table.php:24 | the plants left after a location is deleted: exactly those at other locations, unchanged |
| Validation.Filled | app/Http/Controllers/UserController.php:91-93 | the `required` rule on a string: some character is not one that PHP `trim` removes |
| Validation.DigitsBetweenIfFilled | app/Http/Controllers/UserController.php:203 | `digits_between:lo,hi`, skipped for a blank value: only the digits 0-9, between `lo` and `hi` of them |
| Validation.TrimLeft | app/Http/Controllers/UserController.php:91-93 | `ltrim`: a suffix of the value, everything dropped before it is whitespace, and it is empty or starts with a non-whitespace character |
| Validation.TrimRight | app/Http/Controllers/UserController.php:91-93 | `rtrim`: a prefix of the value, everything dropped after it is whitespace, and it is empty or ends with a non-whitespace character |
| Validation.Trim | app/Http/Controllers/UserController.php:91-93 | PHP `trim`: a contiguous piece of the value with only whitespace before and after it, empty or beginning and ending with a non-whitespace character |
| Validation.FilledIffTrimNonEmpty | app/Http/Controllers/UserController.php:91-93 | the `required` rule (a value is filled) holds exactly when PHP `trim` leaves something |
| Validation.PhoneRule | app/Http/Controllers/UserController.php:203 | `nullable|digits_between:1,20`: a phone that trims to nothing passes; otherwise it must be 1 to 20 digits |
| Sequences.Filter | app/Http/Controllers/LocationController.php:70-72 | a collection `filter` keeps exactly the elements satisfying the predicate |
| Sequences.FilterKeepsOrder | app/Http/Controllers/LocationController.php:70-72 | filtering keeps the original relative order |
| Sequences.Contains | app/Http/Controllers/PlantController.php:85 | `LIKE '%q%'`: the query occurs in the value as a contiguous block at some position |
| Sequences.Take | app/Http/Controllers/LocationController.php:74 | `take(n)` is the first min(n, length) elements |
| Sequences.TakeFilterComplete | app/Http/Controllers/PlantController.php:85 | a match is left out of `take(n)` of the matches only when n were returned |
| Nearest.Annotate | app/Http/Controllers/LocationController.php:65-69 | every location gets its distance from the query point, in table order |
| Nearest.WithinRadius | app/Http/Controllers/LocationController.php:70-72 | exactly the entries with distance at most the radius are kept, order preserved |
| Nearest.Insert | app/Http/Controllers/LocationController.php:73 | inserting an entry that comes earlier in table order than every entry of a ranked list keeps the list ranked and adds exactly that entry |
| Nearest.SortByDistance | app/Http/Controllers/LocationController.php:73 | `sortBy('distance')` is a permutation ordered by distance, with ties in table order (stable) |
| Nearest.RankedPermutationUnique | app/Http/Controllers/LocationController.php:73 | any two ranked permutations of the same entries are equal, so the stable sort's result is determined |
| Nearest.Candidates | app/Http/Controllers/LocationController.php:65-73 | the sorted candidates are exactly the locations within the radius |
| Nearest.NearestLocations | app/Http/Controllers/LocationController.php:63-77 | at most ten locations are returned |
| Nearest.NearestBounds | app/Http/Controllers/LocationController.php:63-74 | at most ten results, each within `dist`, and within 50 when `dist` is not given |
| Nearest.NearestFaithful | app/Http/Controllers/LocationController.php:65-69 | each result is a stored location with its true distance, and none is repeated |
| Nearest.NearestOrdered | app/Http/Controllers/LocationController.php:73 | results come in non-decreasing distance, ties in table order |
| Nearest.NearestTopK | app/Http/Controllers/LocationController.php:70-74 | a qualifying location is left out only when ten results are returned, each at least as close |
| Nearest.NearestAllWhenFew | app/Http/Controllers/LocationController.php:70-74 | with fewer than ten results, every qualifying location is among them |
| Nearest.NearestFirstIsClosest | app/Http/Controllers/LocationController.php:73-74 | the first result is no farther than any qualifying location |
| Nearest.NearestEmptyWhenNoneQualifies | app/Http/Controllers/LocationController.php:70-76 | the answer is empty when no location lies within the radius |
| Nearest.NearestMembers | app/Http/Controllers/LocationController.php:65-72 | each result is one of the given locations, with its own distance, within the radius |
| Nearest.NearestCoversWhenFew | app/Http/Controllers/LocationController.php:70-74 | with fewer than ten results, every given location within the radius is the location of some result |
| Nearest.GetNearestLocations | app/Http/Controllers/LocationController.php:63-77 | `getNearestLocations` over the locations table: at most ten stored locations with their own distances, within the radius, and all of them when fewer than ten |
| Locations.UserLocations | app/Http/Controllers/LocationController.php:117-121 | exactly the locations of the given user, in table order; an unknown user gets an empty list, not an error |
| Locations.GetUserLocations | app/Http/Controllers/LocationController.php:117-137 | `getUserLocations`, and `getLocations` for the caller: exactly the stored locations of that user, in ascending id order |
| Locations.Acceptable | app/Http/Controllers/LocationController.php:166-172 | the create and edit rules: `name` filled in, `lat` and `lng` present |
| Locations.FromInput | app/Http/Controllers/LocationController.php:174-176 | a created location gets the fresh id and the caller as owner |
| Locations.Updated | app/Http/Controllers/LocationController.php:235 | an edit keeps the id and owner, and keeps address and public when the request leaves them out |
| Locations.Create | app/Http/Controllers/LocationController.php:164-182 | 422 and no change without name, lat and lng; otherwise a new row owned by the caller, under a fresh id |
| Locations.Edit | app/Http/Controllers/LocationController.php:216-237 | 404, then 403 for a non-owner, then 422; a success updates only that row, keeping id and owner |
| Locations.Delete | app/Http/Controllers/LocationController.php:257-270 | 404, then 403 for a non-owner, then 500 with nothing changed when a comment is on one of its plants; a success removes exactly that row and, by the cascade, exactly the plants at it |
| Plants.Search | app/Http/Controllers/PlantController.php:83-87 | only plants whose name contains the query, at most `limit` of them, in table order; a match is left out only when `limit` were returned; a negative limit returns every match |
| Plants.SearchPlants | app/Http/Controllers/PlantController.php:83-87 | `search` over the plants table: only stored plants whose name contains the query, at most `limit`, and a stored match left out only when `limit` were returned |
| Plants.LocationPlants | app/Http/Controllers/PlantController.php:105-111 | `plants` over the tables: 404 exactly for an unknown location, otherwise exactly the stored plants at it |
| Plants.Acceptable | app/Http/Controllers/PlantController.php:140-145 | the create and edit rules: `location_id` and `trefle_id` present, `name` and `desc` filled in |
| Plants.FromInput | app/Http/Controllers/PlantController.php:155-159 | a created plant gets the fresh id, the requested location and the uploaded image path |
| Plants.Updated | app/Http/Controllers/PlantController.php:220 | an edit keeps the id, moves the plant to the requested location, and keeps the image when none is sent |
| Plants.PlantsAt | app/Http/Controllers/PlantController.php:105-111 | 404 exactly for an unknown location; otherwise exactly the plants at it |
| Plants.Create | app/Http/Controllers/PlantController.php:138-163 | 422, then 404 for an unknown location, then 403 for a non-owner; only a success adds a plant, under a fresh id |
| Plants.Edit | app/Http/Controllers/PlantController.php:196-222 | 422 before the lookup, 404, 403 on the current location, then 404 and 403 on the new location; a success changes only that plant |
| Plants.Delete | app/Http/Controllers/PlantController.php:242-255 | 404, 500 when its location is gone, 403 unless the caller owns the plant's location, then 500 when a comment is on the plant; a success removes exactly that plant |
| Comments.OnPlant | app/Http/Controllers/CommentController.php:36-48 | 404 exactly for an unknown plant; otherwise exactly its comments, and the empty list when there are none |
| Comments.Create | app/Http/Controllers/CommentController.php:93-107 | 422 and no change unless the text is filled in and the plant exists; otherwise a new comment by the caller on that plant |
| Comments.PlantComments | app/Http/Controllers/CommentController.php:36-48 | `get` over the tables: 404 exactly for an unknown plant, otherwise exactly the stored comments on it |
| Comments.Acceptable | app/Http/Controllers/CommentController.php:95-98 | the create rules: only a non-negative `plant_id` of an existing plant passes `exists:plants,id` |
| Comments.MayDelete | app/Http/Controllers/CommentController.php:182 | the delete permission: the author always may; when the plant is gone, only the author may |
| Comments.AcceptableText | app/Http/Controllers/CommentController.php:139-141 | `comment` is `required`: a text was sent and it is non-empty |
| Comments.AcceptableTextIffTrimmed | app/Http/Controllers/CommentController.php:139-141 | an edit's text is accepted exactly when PHP `trim` leaves something of it |
| Comments.Edit | app/Http/Controllers/CommentController.php:137-159 | 422 before the lookup, then 404, then 403 for anyone but the author; a success changes only the text |
| Comments.Dangling | app/Http/Controllers/CommentController.php:182 | `$comment->plant->location` reads through no missing row exactly when the plant and its location are stored, and then that location has an owner to compare; a comment on a missing plant always dangles |
| Comments.Delete | app/Http/Controllers/CommentController.php:179-191 | success exactly for the author or the owner of the plant's location; otherwise 403, or 500 when the plant or its location is gone; the author's case never looks at the plant |
| Users.ProfileOf | app/Http/Controllers/UserController.php:137-145 | the `only([...])` projection: username, first and last name, profile picture, bio and the two flags |
| Users.GetById | app/Http/Controllers/UserController.php:130-146 | 404 exactly for an unknown id; otherwise only the seven public fields |
| Users.ProfileHidesPrivate | app/Http/Controllers/UserController.php:137-145 | changing email, password or phone does not change the profile answer |
| Users.UsernameTaken | app/Http/Controllers/UserController.php:91 | `unique:users,username[,id]` fails only when some stored user holds the name, and, with no row ignored (or an ignored id that is not stored), exactly then |
| Users.EmailTaken | app/Http/Controllers/UserController.php:92 | `unique:users,email[,id]` fails only when some stored user holds the email, and, with no row ignored (or an ignored id that is not stored), exactly then |
| Users.Register | app/Http/Controllers/UserController.php:88-108 | 400 and no change when a field is missing or the username or email is taken; otherwise a new user with the hashed password |
| Users.RegisterAccepted | app/Http/Controllers/UserController.php:90-95 | the register rules: when they pass, no stored user has the requested username or email |
| Users.NewUser | app/Http/Controllers/UserController.php:99-101 | `User::create($request->all())`: the fresh id, the username and email sent, the password hashed, the profile fields as sent, and each flag true exactly when the request sends it as true |
| Users.RegisterTwiceRejected | app/Http/Controllers/UserController.php:90-93 | a registration that succeeded cannot be repeated with the same data |
| Users.AppliedKeepsUnique | app/Http/Controllers/UserController.php:200-201 | an accepted update keeps usernames and emails unique across users |
| Users.Update | app/Http/Controllers/UserController.php:195-227 | validation 400, then the `is_botanic` and `is_garden` guards; any 400 leaves the record as it was; a success applies exactly the sent fields, and the flags keep their stored values |
| Users.UpdateFieldsAccepted | app/Http/Controllers/UserController.php:199-208 | the update rules: a sent username or email is not null and belongs to no other user, since `unique` ignores the caller's row |
| Users.BotanicKept | app/Http/Controllers/UserController.php:213-215 | the `is_botanic` guard passes exactly when assigning the request's flag leaves the stored value |
| Users.GardenKept | app/Http/Controllers/UserController.php:216-218 | the `is_garden` guard passes exactly when assigning the request's flag leaves the stored value |
| Users.Assign | app/Http/Controllers/UserController.php:224 | a nullable column after mass assignment: kept when left out, the sent value when given, and empty exactly when nulled or left out while empty |
| Users.Applied | app/Http/Controllers/UserController.php:220-224 | `update($request->all())`: keeps the id, stores a sent password hashed and keeps it otherwise, and, when the flag guards pass, leaves the flags as stored |
| Users.ResubmitOwnAccepted | app/Http/Controllers/UserController.php:200-218 | re-sending one's own username, email and flags passes every check and changes nothing |
| Users.Destroy | app/Http/Controllers/UserController.php:241-247 | the caller's account is removed, and no other user, unless the caller has written a comment: then 500 and no change |

## Left out

- The haversine formula and its 6371 km radius are not modelled. They are floating-point trigonometry. The distance is the parameter `haversine`, and coordinates are reals.
- Authentication, Sanctum tokens, `login`, `logout` and `me` are not modelled. The caller's id is an explicit parameter, and `Update` and `Destroy` require that caller to exist.
- bcrypt is not modelled. A stored password is `Hashed(p)`.
- The order of `hash` and the `update($request->all())` overwrite depends on a password cast in the User model. The User model is not part of this model. `Users.Applied` stores `Hashed(p)`.
- The format check of the `email` rule is the parameter `isEmail`.
- Uniqueness and `LIKE` are plain string equality and plain substring containment. Database collation, case-insensitivity and the `%`/`_` wildcards in the query are not modelled.
- Users.Register: the answer carries the new user's id instead of the token and `$user->name`.
- Users.NewUser: every field of the request, `is_botanic` and `is_garden` included, is taken as mass-assignable, so a registration can create a botanist or a garden account; an unsent flag is taken as false. The User model's `$fillable` list and the users migration's column defaults are not part of this model.
- Location mass assignment stores name, lat, lng, address and public. The Location model's `$fillable` list is not part of this model.
- The `boolean` and `string` type rules for `public` and `address` are carried by the Dafny types. A request whose values have the wrong type is not representable.
- The `string` type rules on plant and comment fields are carried by the types. The `integer` rule is an `int`. A negative `location_id` or `plant_id` therefore finds no row.
- Plants.Create: a negative `trefle_id` passes validation and is stored. The column is unsigned, so a database in strict mode would refuse the insert. That depends on the database and is not modelled.
- Route parameters `id` of the edit and delete methods are naturals. A negative id would match no row and answer 404, just as an unknown id does. Only `Store.FindOrFail` takes any integer.
- Users.Update: the loose `!=` between a stored flag and a request value such as `"1"` is modelled as boolean comparison.
- Users.Update: an explicit null `password` is not modelled.
- The TrimStrings and ConvertEmptyStringsToNull middleware are not modelled. Strings are stored as sent.
- The plant image upload is not modelled. It is file I/O in `app/Traits/Upload.php`. `Plants.Create` takes the stored path as a parameter.
- The `asset()` URL accessor on `image` is URL generation and is not modelled.
- The foreign keys of the plants and comments tables are modelled only in the delete methods. The model does not keep a referential-integrity invariant, so a plant may refer to a missing location, and a comment to a missing plant. Such a reference gives `ServerError` where the code reads through it. A database that enforces those keys never reaches these cases.
- Users.Destroy: the locations table's foreign key to users is not modelled, because the locations migration is not part of this model. Only the refusal caused by `comments.user_id` is modelled.
- Route wiring is not modelled. This includes the digit-only constraint on `lat`/`lng`/`dist` and the `me` route that names a missing `edit` method.
- JSON bodies and messages of validation errors are not modelled. A 400 from validation carries one constant message, and a 422 carries none.
- Rows are listed in ascending id order. The database returns rows in that order when no ordering is given, but SQL does not guarantee it.
- Strict `!==` comparisons between owner ids and `Auth::id()` are modelled as equality of naturals.
