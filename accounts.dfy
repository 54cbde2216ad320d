/** The account rules of routes/user.js that are about values: the user
    record, the lookups, login, the profile read and the profile update.
    Register and delete, which change the stores, are methods of `Store.Db`. */
module Accounts {
  import opened Wrappers
  import opened Http
  import opened LinkModel

  /** A stored user. `password` holds the hash, never the plain text. */
  datatype User = User(id: Id, username: string, email: string, mobile: string, password: string)

  /** The user document as login returns it: everything but the password. */
  datatype UserDetails = UserDetails(id: Id, username: string, email: string, mobile: string)

  /** The body of GET /userget. */
  datatype Profile = Profile(username: string, email: string, mobile: string)

  function Details(u: User): UserDetails {
    UserDetails(u.id, u.username, u.email, u.mobile)
  }

  /** No two users share an id. */
  predicate DistinctUserIds(users: seq<User>) {
    forall a, b :: 0 <= a < b < |users| ==> users[a].id != users[b].id
  }

  /** `User.findOne({ email })`: the first user with that email, or -1.
      Emails are not kept unique (an update can duplicate one), so "first"
      matters. */
  function IndexOfEmail(users: seq<User>, email: string): (i: int)
    ensures -1 <= i < |users|
    ensures i >= 0 ==> users[i].email == email && forall j :: 0 <= j < i ==> users[j].email != email
    ensures i < 0 ==> forall j :: 0 <= j < |users| ==> users[j].email != email
  {
    if |users| == 0 then -1
    else if users[0].email == email then 0
    else
      var k := IndexOfEmail(users[1..], email);
      if k < 0 then -1 else k + 1
  }

  /** `User.findById(id)`: the position of the user with that id, or -1. */
  function IndexOfUser(users: seq<User>, id: Id): (i: int)
    ensures -1 <= i < |users|
    ensures i >= 0 ==> users[i].id == id
    ensures i < 0 ==> forall j :: 0 <= j < |users| ==> users[j].id != id
  {
    if |users| == 0 then -1
    else if users[0].id == id then 0
    else
      var k := IndexOfUser(users[1..], id);
      if k < 0 then -1 else k + 1
  }

  /** `User.findByIdAndDelete(id)`: every other user, in order. */
  function WithoutUser(users: seq<User>, id: Id): (r: seq<User>)
    ensures forall u :: u in r <==> u in users && u.id != id
    ensures |r| <= |users|
  {
    if |users| == 0 then []
    else (if users[0].id != id then [users[0]] else []) + WithoutUser(users[1..], id)
  }

  /** A user whose id no other user has can be put in front. */
  lemma ConsUserDistinct(x: User, s: seq<User>)
    requires DistinctUserIds(s) && forall u :: u in s ==> u.id != x.id
    ensures DistinctUserIds([x] + s)
  {
    var t := [x] + s;
    forall a, b | 0 <= a < b < |t| ensures t[a].id != t[b].id {
      assert t[b] == s[b - 1];
      if a > 0 {
        assert t[a] == s[a - 1];
      } else {
        assert s[b - 1] in s;
      }
    }
  }

  /** The tail of users with distinct ids has distinct ids, none of them the head's. */
  lemma TailUserDistinct(users: seq<User>)
    requires |users| > 0 && DistinctUserIds(users)
    ensures DistinctUserIds(users[1..])
    ensures forall u :: u in users[1..] ==> u.id != users[0].id
  {
    var t := users[1..];
    forall a, b | 0 <= a < b < |t| ensures t[a].id != t[b].id {
      assert t[a] == users[a + 1] && t[b] == users[b + 1];
    }
    forall u | u in t ensures u.id != users[0].id {
      var m :| 0 <= m < |t| && t[m] == u;
      assert users[m + 1] == u;
    }
  }

  lemma {:induction false} WithoutUserDistinct(users: seq<User>, id: Id)
    requires DistinctUserIds(users)
    ensures DistinctUserIds(WithoutUser(users, id))
  {
    if |users| > 0 {
      TailUserDistinct(users);
      WithoutUserDistinct(users[1..], id);
      var rest := WithoutUser(users[1..], id);
      if users[0].id != id {
        ConsUserDistinct(users[0], rest);
      } else {
        assert WithoutUser(users, id) == rest;
      }
    }
  }

  /** POST /login: 400 when a field is missing, 404 for an unknown email,
      500 when the password does not match the first user with that email,
      and otherwise that user's details without the password. `hash` stands
      for bcrypt; a password matches when its hash is the stored one. */
  function Login(users: seq<User>, email: Option<string>, password: Option<string>,
                 hash: string -> string): (r: Response<UserDetails>)
    ensures !Given(email) || !Given(password) ==> r == Fail(BadRequest)
    ensures Given(email) && Given(password) && (forall u :: u in users ==> u.email != email.value) ==>
              r == Fail(NotFound)
    ensures r.Reply? ==> Given(email) && Given(password)
    ensures r.Reply? ==> r.body == Details(users[IndexOfEmail(users, email.value)])
    ensures r.Reply? ==> (exists u :: u in users && u.email == email.value && u.password == hash(password.value) &&
                                      r.body == UserDetails(u.id, u.username, u.email, u.mobile))
    ensures Given(email) && Given(password) && IndexOfEmail(users, email.value) >= 0 ==>
              (r.Reply? <==> users[IndexOfEmail(users, email.value)].password == hash(password.value))
    ensures r.Fail? ==> r.status in {BadRequest, NotFound, ServerError}
    ensures r == Fail(ServerError) ==> exists u :: u in users && u.email == email.value && u.password != hash(password.value)
  {
    if !Given(email) || !Given(password) then Fail(BadRequest)
    else
      var i := IndexOfEmail(users, email.value);
      if i < 0 then Fail(NotFound)
      else
        assert users[i] in users;
        if hash(password.value) != users[i].password then Fail(ServerError)
        else Reply(Details(users[i]))
  }

  /** A user registered with a password can log in with it, provided no
      earlier user holds the same email. */
  lemma LoginAfterRegister(users: seq<User>, u: User, password: string, hash: string -> string)
    requires password != "" && u.email != "" && u.password == hash(password)
    requires forall v :: v in users ==> v.email != u.email
    ensures Login(users + [u], Some(u.email), Some(password), hash) == Reply(Details(u))
  {
    assert (users + [u])[|users|] == u;
    assert forall j :: 0 <= j < |users| ==> (users + [u])[j] in users;
  }

  /** GET /userget: 400 for an unknown user, otherwise the three fields. */
  function UserGet(users: seq<User>, id: Id): (r: Response<Profile>)
    ensures r.Fail? <==> forall u :: u in users ==> u.id != id
    ensures r.Fail? ==> r.status == BadRequest
    ensures r.Reply? ==> (exists u :: u in users && u.id == id &&
                                      r.body == Profile(u.username, u.email, u.mobile))
  {
    var i := IndexOfUser(users, id);
    if i < 0 then Fail(BadRequest)
    else
      assert users[i] in users;
      Reply(Profile(users[i].username, users[i].email, users[i].mobile))
  }

  /** `findByIdAndUpdate(id, { username, email, mobile })`: each supplied
      field replaces the stored one; absent ones are left; the id and the
      password hash are kept. */
  function ProfileUpdated(u: User, username: Option<string>, email: Option<string>, mobile: Option<string>): (r: User)
    ensures r.username == username.GetOr(u.username)
    ensures r.email == email.GetOr(u.email)
    ensures r.mobile == mobile.GetOr(u.mobile)
    ensures r.id == u.id && r.password == u.password
  {
    u.(username := username.GetOr(u.username), email := email.GetOr(u.email), mobile := mobile.GetOr(u.mobile))
  }
}
