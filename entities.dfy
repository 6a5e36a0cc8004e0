/**
 * The persisted records other than questions: users, answers, product
 * listings and crops, with the user-table lookups every handler starts from.
 */
module Entities {
  import opened Common

  /** A row of the user table. `totalAnswers` is None where registration
      leaves the column at the entity's own default. */
  datatype User = User(
    id: nat,
    username: string,
    email: string,
    password: string,
    firstName: string,
    lastName: string,
    role: Role,
    enabled: bool,
    isApproved: bool,
    totalAnswers: Option<int>)

  /** A row of the answer table; `question` and `expert` hold the ids the
      foreign keys point to. */
  datatype Answer = Answer(
    id: nat,
    question: nat,
    expert: nat,
    content: Option<string>,
    isApproved: bool,
    isAccepted: bool,
    upvotes: int,
    downvotes: int,
    createdAt: int)

  /** A product listing as the request body carries it and as it is stored:
      every column may be null in a body. */
  datatype Listing = Listing(
    id: Option<nat>,
    farmer: Option<nat>,
    productName: Option<string>,
    category: Option<string>,
    location: Option<string>,
    isApproved: Option<bool>,
    isAvailable: Option<bool>)

  /** A row of the crop catalogue, with the columns the recommendation reads. */
  datatype Crop = Crop(
    id: nat,
    name: string,
    season: Option<string>,
    soilType: Option<string>,
    climate: Option<string>)

  /** `findByUsername` over the user table in scan order. */
  function FindUserByUsername(users: seq<User>, username: string): (r: Option<User>)
    ensures r.Some? ==> r.value in users && r.value.username == username
    ensures r.None? <==> forall u :: u in users ==> u.username != username
    decreases |users|
  {
    if users == [] then None
    else if users[0].username == username then Some(users[0])
    else
      var rest := FindUserByUsername(users[1..], username);
      assert forall u :: u in users ==> u == users[0] || u in users[1..];
      rest
  }

  /** `findByEmail` over the user table in scan order. */
  function FindUserByEmail(users: seq<User>, email: string): (r: Option<User>)
    ensures r.Some? ==> r.value in users && r.value.email == email
    ensures r.None? <==> forall u :: u in users ==> u.email != email
    decreases |users|
  {
    if users == [] then None
    else if users[0].email == email then Some(users[0])
    else
      var rest := FindUserByEmail(users[1..], email);
      assert forall u :: u in users ==> u == users[0] || u in users[1..];
      rest
  }

  /** The user the handlers look up for the request's username
      (`getByUsername(authentication.getName())`). */
  function CurrentUser(users: seq<User>, auth: Authentication): (r: Option<User>)
    ensures r.Some? ==> auth.Authenticated? && r.value in users && r.value.username == auth.username
    ensures r.Some? <==> auth.Authenticated? && exists u :: u in users && u.username == auth.username
  {
    if auth.Authenticated? then FindUserByUsername(users, auth.username) else None
  }

  /** The ownership rule of the Q&A handlers: the caller owns the record
      or is an administrator. */
  predicate OwnerOrAdmin(caller: User, owner: nat)
  {
    caller.id == owner || caller.role == Admin
  }
}
