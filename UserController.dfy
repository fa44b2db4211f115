/**
 * The user endpoints: the public profile by id, registration, and the authenticated caller's
 * own update and deletion. Tokens and the bcrypt hash are not modelled: a stored password is
 * `Hashed(p)`, and the format check of the `email` rule is the parameter `isEmail`.
 */
module Users {
  import opened Wrappers
  import opened Validation
  import opened Store

  /** The fields `getById` exposes; email, password and phone are never part of it. */
  datatype Profile = Profile(
    username: string, firstName: Option<string>, lastName: Option<string>,
    profilePicture: Option<string>, bio: Option<string>, isBotanic: bool, isGarden: bool)

  /** A field of an update request: left out, sent as null, or sent with a string. */
  datatype Field = Absent | Null | Given(value: string)

  /**
   * The body of a register request. Only the first three fields are validated; the profile
   * fields and the two flags are stored as sent.
   */
  datatype RegisterInput = RegisterInput(
    username: Option<string>, email: Option<string>, password: Option<string>, phone: Option<string>,
    firstName: Option<string>, lastName: Option<string>, profilePicture: Option<string>,
    bio: Option<string>, isBotanic: Option<bool>, isGarden: Option<bool>)

  datatype UpdateInput = UpdateInput(
    username: Field, email: Field, password: Option<string>, phone: Field,
    firstName: Field, lastName: Field, profilePicture: Field, bio: Field,
    isBotanic: Option<bool>, isGarden: Option<bool>)

  /** The 400 answer of a failed validation; the error bag itself is not modelled. */
  const ValidationFailed := "validation failed"
  const CannotEditBotanic := "Cannot edit is_botanic"
  const CannotEditGarden := "Cannot edit is_garden"

  function ProfileOf(u: User): (r: Profile)
    ensures r.username == u.username && r.isBotanic == u.isBotanic && r.isGarden == u.isGarden
  {
    Profile(u.username, u.firstName, u.lastName, u.profilePicture, u.bio, u.isBotanic, u.isGarden)
  }

  /** `getById(id)`: the public profile of user `id`, or 404. */
  function GetById(users: map<nat, User>, id: nat): (r: Response<Profile>)
    ensures r.Ok? <==> id in users
    ensures !r.Ok? ==> r == NotFound
    ensures r.Ok? ==> r.data == ProfileOf(users[id])
  {
    if id in users then Ok(ProfileOf(users[id])) else NotFound
  }

  /** The profile of a user says nothing about their email, password or phone. */
  lemma ProfileHidesPrivate(users: map<nat, User>, id: nat, email: string, password: Secret, phone: Option<string>)
    requires id in users
    ensures GetById(users[id := users[id].(email := email, password := password, phone := phone)], id)
         == GetById(users, id)
  {
  }

  /** The rule `unique:users,username[,except]`: another row already holds `name`. */
  predicate UsernameTaken(users: map<nat, User>, name: string, except: Option<nat>)
    ensures UsernameTaken(users, name, except) ==> exists u :: u in users.Values && u.username == name
    ensures except.None? || except.value !in users ==>
      (UsernameTaken(users, name, except) <==> exists u :: u in users.Values && u.username == name)
  {
    exists k :: k in users && users[k].username == name && except != Some(k)
  }

  /** The rule `unique:users,email[,except]`. */
  predicate EmailTaken(users: map<nat, User>, email: string, except: Option<nat>)
    ensures EmailTaken(users, email, except) ==> exists u :: u in users.Values && u.email == email
    ensures except.None? || except.value !in users ==>
      (EmailTaken(users, email, except) <==> exists u :: u in users.Values && u.email == email)
  {
    exists k :: k in users && users[k].email == email && except != Some(k)
  }

  /** `register` validation: all three fields required; username and email unused; email well formed. */
  predicate RegisterAccepted(users: map<nat, User>, input: RegisterInput, isEmail: string -> bool)
    ensures RegisterAccepted(users, input, isEmail) ==>
      input.username.Some? && input.email.Some? && input.password.Some? &&
      forall k :: k in users ==> users[k].username != input.username.value && users[k].email != input.email.value
  {
    && input.username.Some? && Filled(input.username.value) && !UsernameTaken(users, input.username.value, None)
    && input.email.Some? && Filled(input.email.value) && isEmail(input.email.value)
    && !EmailTaken(users, input.email.value, None)
    && input.password.Some? && Filled(input.password.value)
  }

  /**
   * The user `User::create($input)` stores for a valid registration: every field of the request,
   * with the password hashed. A flag the request leaves out is false.
   */
  function NewUser(id: nat, input: RegisterInput): (r: User)
    requires input.username.Some? && input.email.Some? && input.password.Some?
    ensures r.id == id && r.password == Hashed(input.password.value)
    ensures r.username == input.username.value && r.email == input.email.value
    ensures r.phone == input.phone && r.firstName == input.firstName && r.lastName == input.lastName
    ensures r.profilePicture == input.profilePicture && r.bio == input.bio
    ensures r.isBotanic <==> input.isBotanic == Some(true)
    ensures r.isGarden <==> input.isGarden == Some(true)
  {
    User(id, input.username.value, input.email.value, Hashed(input.password.value),
         input.phone, input.firstName, input.lastName, input.profilePicture, input.bio,
         input.isBotanic.GetOr(false), input.isGarden.GetOr(false))
  }

  /**
   * `register`: 400 with nothing stored when validation fails; otherwise a new user under a
   * fresh id, whose password is stored hashed. The answer carries the new user.
   */
  method Register(db: Database, input: RegisterInput, isEmail: string -> bool) returns (r: Response<nat>)
    requires db.Valid()
    modifies db`users, db`nextUserId
    ensures db.Valid()
    ensures r.Ok? <==> RegisterAccepted(old(db.users), input, isEmail)
    ensures !r.Ok? ==> r == BadRequest(ValidationFailed)
    ensures r.Ok? ==>
      && r.data == old(db.nextUserId) && r.data !in old(db.users)
      && db.users == old(db.users)[r.data := NewUser(r.data, input)]
    ensures !r.Ok? ==> db.users == old(db.users) && db.nextUserId == old(db.nextUserId)
  {
    if !RegisterAccepted(db.users, input, isEmail) {
      return BadRequest(ValidationFailed);
    }
    var id := db.nextUserId;
    db.users := db.users[id := NewUser(id, input)];
    db.nextUserId := id + 1;
    r := Ok(id);
  }

  /** A registration that succeeded cannot be repeated: the username is now taken. */
  lemma RegisterTwiceRejected(users: map<nat, User>, id: nat, input: RegisterInput, isEmail: string -> bool)
    requires RegisterAccepted(users, input, isEmail)
    ensures !RegisterAccepted(users[id := NewUser(id, input)], input, isEmail)
  {
    assert users[id := NewUser(id, input)][id].username == input.username.value;
  }

  /**
   * `update` validation for caller `me`: username and email may be left out, but when sent they
   * are required and must not belong to another user; phone, when filled in, is 1 to 20 digits.
   */
  predicate UpdateFieldsAccepted(users: map<nat, User>, me: nat, input: UpdateInput, isEmail: string -> bool)
    ensures UpdateFieldsAccepted(users, me, input, isEmail) && input.username.Given? ==>
      forall k :: k in users && k != me ==> users[k].username != input.username.value
    ensures UpdateFieldsAccepted(users, me, input, isEmail) && input.email.Given? ==>
      forall k :: k in users && k != me ==> users[k].email != input.email.value
    ensures UpdateFieldsAccepted(users, me, input, isEmail) ==> !input.username.Null? && !input.email.Null?
  {
    && (match input.username
        case Absent => true
        case Null => false
        case Given(name) => Filled(name) && !UsernameTaken(users, name, Some(me)))
    && (match input.email
        case Absent => true
        case Null => false
        case Given(email) => Filled(email) && isEmail(email) && !EmailTaken(users, email, Some(me)))
    && (input.phone.Given? ==> DigitsBetweenIfFilled(input.phone.value, 1, 20))
  }

  /** The flag guards: `is_botanic` and `is_garden` may be sent, but only with the stored value. */
  predicate BotanicKept(u: User, input: UpdateInput)
    ensures BotanicKept(u, input) <==> input.isBotanic.GetOr(u.isBotanic) == u.isBotanic
  {
    input.isBotanic.Some? ==> input.isBotanic.value == u.isBotanic
  }

  predicate GardenKept(u: User, input: UpdateInput)
    ensures GardenKept(u, input) <==> input.isGarden.GetOr(u.isGarden) == u.isGarden
  {
    input.isGarden.Some? ==> input.isGarden.value == u.isGarden
  }

  /**
   * A nullable column after mass assignment of `f`: kept when the request leaves it out,
   * cleared by an explicit null, replaced by a sent value.
   */
  function Assign(current: Option<string>, f: Field): (r: Option<string>)
    ensures f.Absent? ==> r == current
    ensures f.Given? ==> r == Some(f.value)
    ensures r.None? <==> f.Null? || (f.Absent? && current.None?)
  {
    match f
    case Absent => current
    case Null => None
    case Given(v) => Some(v)
  }

  /**
   * The record after `update($request->all())`: every field the request sends is assigned,
   * the flags included, and the password is stored hashed.
   */
  function Applied(u: User, input: UpdateInput): (r: User)
    ensures r.id == u.id
    ensures BotanicKept(u, input) && GardenKept(u, input) ==> r.isBotanic == u.isBotanic && r.isGarden == u.isGarden
    ensures input.password.Some? ==> r.password == Hashed(input.password.value)
    ensures input.password.None? ==> r.password == u.password
  {
    u.(username := if input.username.Given? then input.username.value else u.username,
       email := if input.email.Given? then input.email.value else u.email,
       password := if input.password.Some? then Hashed(input.password.value) else u.password,
       phone := Assign(u.phone, input.phone),
       firstName := Assign(u.firstName, input.firstName),
       lastName := Assign(u.lastName, input.lastName),
       profilePicture := Assign(u.profilePicture, input.profilePicture),
       bio := Assign(u.bio, input.bio),
       isBotanic := input.isBotanic.GetOr(u.isBotanic),
       isGarden := input.isGarden.GetOr(u.isGarden))
  }

  /**
   * Updating an account with names no other account holds keeps usernames and emails unique.
   */
  lemma AppliedKeepsUnique(users: map<nat, User>, me: nat, input: UpdateInput, isEmail: string -> bool)
    requires UniqueAccounts(users) && me in users
    requires UpdateFieldsAccepted(users, me, input, isEmail)
    ensures UniqueAccounts(users[me := Applied(users[me], input)])
  {
    var after := users[me := Applied(users[me], input)];
    forall a, b | a in after && b in after && a != b
      ensures after[a].username != after[b].username && after[a].email != after[b].email
    {
      if a == me || b == me {
        var other := if a == me then b else a;
        assert after[other] == users[other];
        assert !UsernameTaken(users, after[me].username, Some(me)) by {
          if input.username.Absent? {
            assert users[other].username != users[me].username;
          }
        }
        assert !EmailTaken(users, after[me].email, Some(me)) by {
          if input.email.Absent? {
            assert users[other].email != users[me].email;
          }
        }
      }
    }
  }

  /**
   * `update` of the caller `me`: field validation first (400), then the `is_botanic` guard,
   * then the `is_garden` guard. Any 400 leaves the record as it was; a success applies exactly
   * the fields the request sends.
   */
  method Update(db: Database, me: nat, input: UpdateInput, isEmail: string -> bool) returns (r: Response<()>)
    requires db.Valid() && me in db.users
    modifies db`users
    ensures db.Valid()
    ensures !UpdateFieldsAccepted(old(db.users), me, input, isEmail) ==> r == BadRequest(ValidationFailed)
    ensures (UpdateFieldsAccepted(old(db.users), me, input, isEmail)
      && !BotanicKept(old(db.users[me]), input)) ==> r == BadRequest(CannotEditBotanic)
    ensures (UpdateFieldsAccepted(old(db.users), me, input, isEmail) && BotanicKept(old(db.users[me]), input)
      && !GardenKept(old(db.users[me]), input)) ==> r == BadRequest(CannotEditGarden)
    ensures r.Ok? <==>
      && UpdateFieldsAccepted(old(db.users), me, input, isEmail)
      && BotanicKept(old(db.users[me]), input) && GardenKept(old(db.users[me]), input)
    ensures r.Ok? ==> db.users == old(db.users)[me := Applied(old(db.users[me]), input)]
    ensures r.Ok? ==> db.users[me].isBotanic == old(db.users[me].isBotanic) && db.users[me].isGarden == old(db.users[me].isGarden)
    ensures !r.Ok? ==> db.users == old(db.users)
  {
    if !UpdateFieldsAccepted(db.users, me, input, isEmail) {
      return BadRequest(ValidationFailed);
    }
    var u := db.users[me];
    if !BotanicKept(u, input) {
      return BadRequest(CannotEditBotanic);
    }
    if !GardenKept(u, input) {
      return BadRequest(CannotEditGarden);
    }
    AppliedKeepsUnique(db.users, me, input, isEmail);
    db.users := db.users[me := Applied(u, input)];
    r := Ok(());
  }

  /**
   * Re-submitting one's own username and email, and one's own flags, passes every check of
   * `update`: the uniqueness rules ignore the caller's own row.
   */
  lemma ResubmitOwnAccepted(users: map<nat, User>, me: nat, isEmail: string -> bool)
    requires UniqueAccounts(users) && me in users
    requires Filled(users[me].username) && Filled(users[me].email) && isEmail(users[me].email)
    ensures var u := users[me];
      var input := UpdateInput(Given(u.username), Given(u.email), None, Absent, Absent, Absent, Absent,
                               Absent, Some(u.isBotanic), Some(u.isGarden));
      && UpdateFieldsAccepted(users, me, input, isEmail) && BotanicKept(u, input) && GardenKept(u, input)
      && Applied(u, input) == u
  {
  }

  /**
   * `destroy`: the caller's own account is removed, and nothing else in the users table,
   * unless the caller has written a comment: the foreign key `comments.user_id` then makes
   * the database refuse the delete (500) and nothing changes.
   */
  method Destroy(db: Database, me: nat) returns (r: Response<()>)
    requires db.Valid() && me in db.users
    modifies db`users
    ensures db.Valid()
    ensures r.Ok? || r == ServerError
    ensures r.Ok? <==> !UserCommented(db.comments, me)
    ensures r.Ok? ==> db.users == old(db.users) - {me}
    ensures !r.Ok? ==> db.users == old(db.users)
  {
    if UserCommented(db.comments, me) {
      return ServerError;
    }
    db.users := db.users - {me};
    r := Ok(());
  }
}
