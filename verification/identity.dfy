/**
 * The identity and social-graph handlers of app.py: createUser, getUsers,
 * authenticateUser, addFollower and removeFollower. Each write handler has a
 * specification function on the table state (`...Step`) and the handler itself
 * as a method on the open Database, an early-return guard chain followed by one
 * write statement, proved to behave as its specification.
 */
module Identity {
  import opened Wrappers
  import opened Storage

  const MISSING_SIGNUP_FIELDS_MSG := "Missing Username or Password or email fields"
  const USER_EXISTS_MSG := "User Already Exists"
  const USER_CREATED_MSG := "User Created Successfully"
  const MISSING_LOGIN_FIELDS_MSG := "Missing Username or Password fields"
  const USER_NOT_FOUND_MSG := "User not found"
  const MISSING_FOLLOW_FIELDS_MSG := "Bad Request. Missing Username or UsernameToFollow"
  // The source spells it this way, for follow and unfollow alike.
  const SELF_FOLLOW_MSG := "Bad Request. User cannot follow himserlf/herself"
  const FOLLOW_TARGET_NOT_FOUND_MSG := "User to Follow not found"
  const FOLLOWER_ADDED_MSG := "Follower Added Successfully"
  const MISSING_UNFOLLOW_FIELDS_MSG := "Missing Username or usernameToRemove fields"
  const UNFOLLOW_TARGET_NOT_FOUND_MSG := "User to remove not found"
  const FOLLOWER_REMOVED_MSG := "Follower Removed Successfully"

  /**
   * The password library, left uninterpreted: `hash(salt, password)` stands for
   * generate_password_hash (whose random salt becomes an input) and
   * `check(stored, guess)` for check_password_hash.
   */
  datatype PasswordScheme = PasswordScheme(hash: (string, string) -> string, check: (string, string) -> bool)

  /** The library's promise: a password checks against its own hash. */
  ghost predicate Sound(scheme: PasswordScheme)
  {
    forall salt, password :: scheme.check(scheme.hash(salt, password), password)
  }

  /** A collision-free library: only the hashed password checks against a hash. */
  ghost predicate Exact(scheme: PasswordScheme)
  {
    forall salt, password, guess :: scheme.check(scheme.hash(salt, password), guess) <==> guess == password
  }

  predicate Present(req: Request, key: string)
  {
    Get(req, key).Some?
  }

  // ---------------------------------------------------------------------------
  // createUser

  /** Whether a createUser request passes every check on tables `t`. */
  predicate SignupAccepted(t: Tables, req: Request)
  {
    && req.contentType == JSON_CONTENT_TYPE
    && Present(req, "username") && Present(req, "password") && Present(req, "email")
    && Get(req, "username").value !in t.users
  }

  /** POST /v1/createUser on tables `t`. */
  function CreateUserStep(t: Tables, req: Request, scheme: PasswordScheme, salt: string): (o: Outcome)
    // the content type is checked before any field is read
    ensures req.contentType != JSON_CONTENT_TYPE ==> o == Reject(t, 400, BAD_CONTENT_TYPE_MSG)
    ensures req.contentType == JSON_CONTENT_TYPE
            && (!Present(req, "username") || !Present(req, "password") || !Present(req, "email"))
            ==> o == Reject(t, 400, MISSING_SIGNUP_FIELDS_MSG)
    ensures req.contentType == JSON_CONTENT_TYPE
            && Present(req, "username") && Present(req, "password") && Present(req, "email")
            && Get(req, "username").value in t.users
            ==> o == Reject(t, 409, USER_EXISTS_MSG)
    // success exactly when every check passes, and only success writes
    ensures o.response.statusCode == 200 <==> SignupAccepted(t, req)
    ensures o.response.statusCode != 200 ==> o.tables == t
    // success adds one row holding the hash, never the raw password
    ensures SignupAccepted(t, req) ==>
              && o.response == JsonResponse(200, Text(USER_CREATED_MSG))
              && o.tables.users.Keys == t.users.Keys + {Get(req, "username").value}
              && o.tables.users[Get(req, "username").value]
                 == Account(Get(req, "email").value, scheme.hash(salt, Get(req, "password").value))
    // no existing account changes and the other tables are never touched
    ensures forall name :: name in t.users ==> name in o.tables.users && o.tables.users[name] == t.users[name]
    ensures o.tables.followers == t.followers && o.tables.posts == t.posts
  {
    if req.contentType != JSON_CONTENT_TYPE then Reject(t, 400, BAD_CONTENT_TYPE_MSG)
    else
      var username, password, email := Get(req, "username"), Get(req, "password"), Get(req, "email");
      if username.None? || password.None? || email.None? then Reject(t, 400, MISSING_SIGNUP_FIELDS_MSG)
      else if username.value in t.users then Reject(t, 409, USER_EXISTS_MSG)
      else
        var account := Account(email.value, scheme.hash(salt, password.value));
        Outcome(JsonResponse(200, Text(USER_CREATED_MSG)), t.(users := t.users[username.value := account]))
  }

  /** The createUser handler. */
  method CreateUser(db: Database, req: Request, scheme: PasswordScheme, salt: string) returns (resp: Envelope)
    modifies db
    ensures resp == CreateUserStep(old(db.State()), req, scheme, salt).response
    ensures db.State() == CreateUserStep(old(db.State()), req, scheme, salt).tables
  {
    if req.contentType != JSON_CONTENT_TYPE {
      return JsonResponse(400, Text(BAD_CONTENT_TYPE_MSG));
    }
    var username := Get(req, "username");
    var password := Get(req, "password");
    var email := Get(req, "email");
    if username.None? || password.None? || email.None? {
      return JsonResponse(400, Text(MISSING_SIGNUP_FIELDS_MSG));
    }
    var findUser := QueryDb(SelectUser(db.users, username.value), true);
    if findUser.Some? {
      return JsonResponse(409, Text(USER_EXISTS_MSG));
    }
    var hashedPassword := scheme.hash(salt, password.value);
    db.InsertUser(username.value, email.value, hashedPassword);
    return JsonResponse(200, Text(USER_CREATED_MSG));
  }

  // ---------------------------------------------------------------------------
  // getUsers

  /**
   * GET /v1/getUsers: every row of `users`, password hashes included, answered
   * as a bare list rather than an envelope.
   */
  function GetUsers(t: Tables): (rows: set<UserRow>)
    ensures forall row :: row in rows <==> row.username in t.users && t.users[row.username] == Account(row.email, row.password)
  {
    set name | name in t.users :: UserRow(name, t.users[name].email, t.users[name].passwordHash)
  }

  // ---------------------------------------------------------------------------
  // authenticateUser

  /**
   * POST /v1/authenticateUser on tables `t`. A read: it answers an envelope and
   * leaves every table as it was. A wrong password is still a 200.
   */
  function AuthenticateUser(t: Tables, req: Request, scheme: PasswordScheme): (e: Envelope)
    ensures req.contentType != JSON_CONTENT_TYPE ==> e == JsonResponse(400, Text(BAD_CONTENT_TYPE_MSG))
    ensures req.contentType == JSON_CONTENT_TYPE && (!Present(req, "username") || !Present(req, "password"))
            ==> e == JsonResponse(400, Text(MISSING_LOGIN_FIELDS_MSG))
    ensures req.contentType == JSON_CONTENT_TYPE && Present(req, "username") && Present(req, "password")
            ==> e == if Get(req, "username").value in t.users
                     then JsonResponse(200, Verdict(scheme.check(t.users[Get(req, "username").value].passwordHash, Get(req, "password").value)))
                     else JsonResponse(404, Text(USER_NOT_FOUND_MSG))
  {
    if req.contentType != JSON_CONTENT_TYPE then JsonResponse(400, Text(BAD_CONTENT_TYPE_MSG))
    else
      var username, password := Get(req, "username"), Get(req, "password");
      if username.None? || password.None? then JsonResponse(400, Text(MISSING_LOGIN_FIELDS_MSG))
      else
        var userPassword := QueryDb(SelectUser(t.users, username.value), true);
        if userPassword.None? then JsonResponse(404, Text(USER_NOT_FOUND_MSG))
        else JsonResponse(200, Verdict(scheme.check(userPassword.value.row.password, password.value)))
  }

  // ---------------------------------------------------------------------------
  // addFollower and removeFollower

  /**
   * The guard chain addFollower and removeFollower share, in its order: content
   * type, missing fields, self-reference, acting user, target. None when every
   * check passes, otherwise the refusal's status and message.
   */
  function EdgeRefusal(t: Tables, req: Request, targetKey: string, missingMsg: string, targetMissingMsg: string): (r: Option<(int, string)>)
    ensures r.None? <==>
              && req.contentType == JSON_CONTENT_TYPE
              && Present(req, "username") && Present(req, targetKey)
              && Get(req, "username").value != Get(req, targetKey).value
              && Get(req, "username").value in t.users && Get(req, targetKey).value in t.users
    ensures req.contentType != JSON_CONTENT_TYPE ==> r == Some((400, BAD_CONTENT_TYPE_MSG))
    ensures req.contentType == JSON_CONTENT_TYPE && (!Present(req, "username") || !Present(req, targetKey))
            ==> r == Some((400, missingMsg))
    // self-reference is refused before either user is looked up
    ensures req.contentType == JSON_CONTENT_TYPE && Present(req, "username") && Present(req, targetKey)
            && Get(req, "username").value == Get(req, targetKey).value
            ==> r == Some((400, SELF_FOLLOW_MSG))
    // the acting user is looked up before the target
    ensures req.contentType == JSON_CONTENT_TYPE && Present(req, "username") && Present(req, targetKey)
            && Get(req, "username").value != Get(req, targetKey).value
            ==> r == if Get(req, "username").value !in t.users then Some((404, USER_NOT_FOUND_MSG))
                     else if Get(req, targetKey).value !in t.users then Some((404, targetMissingMsg))
                     else None
  {
    if req.contentType != JSON_CONTENT_TYPE then Some((400, BAD_CONTENT_TYPE_MSG))
    else
      var username, target := Get(req, "username"), Get(req, targetKey);
      if username.None? || target.None? then Some((400, missingMsg))
      else if username.value == target.value then Some((400, SELF_FOLLOW_MSG))
      else if username.value !in t.users then Some((404, USER_NOT_FOUND_MSG))
      else if target.value !in t.users then Some((404, targetMissingMsg))
      else None
  }

  /** The edge a request names, `(username, <targetKey>)`, once its fields are present. */
  function RequestedEdge(req: Request, targetKey: string): Edge
    requires Present(req, "username") && Present(req, targetKey)
  {
    Edge(Get(req, "username").value, Get(req, targetKey).value)
  }

  /** POST /v1/addFollower on tables `t`. */
  function AddFollowerStep(t: Tables, req: Request): (o: Outcome)
    // every refusal answers as the guard chain says and leaves the tables alone
    ensures var refusal := EdgeRefusal(t, req, "usernameToFollow", MISSING_FOLLOW_FIELDS_MSG, FOLLOW_TARGET_NOT_FOUND_MSG);
            refusal.Some? ==> o == Reject(t, refusal.value.0, refusal.value.1)
    ensures o.response.statusCode == 200 <==> EdgeRefusal(t, req, "usernameToFollow", MISSING_FOLLOW_FIELDS_MSG, FOLLOW_TARGET_NOT_FOUND_MSG).None?
    // success appends exactly one edge, with no duplicate check
    ensures o.response.statusCode == 200 ==>
              && o.response == JsonResponse(200, Text(FOLLOWER_ADDED_MSG))
              && o.tables.followers == t.followers + [RequestedEdge(req, "usernameToFollow")]
    ensures o.tables.users == t.users && o.tables.posts == t.posts
  {
    match EdgeRefusal(t, req, "usernameToFollow", MISSING_FOLLOW_FIELDS_MSG, FOLLOW_TARGET_NOT_FOUND_MSG)
    case Some((code, msg)) => Reject(t, code, msg)
    case None =>
      Outcome(JsonResponse(200, Text(FOLLOWER_ADDED_MSG)),
              t.(followers := t.followers + [RequestedEdge(req, "usernameToFollow")]))
  }

  /** The addFollower handler. */
  method AddFollower(db: Database, req: Request) returns (resp: Envelope)
    modifies db
    ensures resp == AddFollowerStep(old(db.State()), req).response
    ensures db.State() == AddFollowerStep(old(db.State()), req).tables
  {
    if req.contentType != JSON_CONTENT_TYPE {
      return JsonResponse(400, Text(BAD_CONTENT_TYPE_MSG));
    }
    var username := Get(req, "username");
    var usernameToFollow := Get(req, "usernameToFollow");
    if username.None? || usernameToFollow.None? {
      return JsonResponse(400, Text(MISSING_FOLLOW_FIELDS_MSG));
    }
    if username.value == usernameToFollow.value {
      return JsonResponse(400, Text(SELF_FOLLOW_MSG));
    }
    var getUsername := QueryDb(SelectUser(db.users, username.value), true);
    if getUsername.None? {
      return JsonResponse(404, Text(USER_NOT_FOUND_MSG));
    }
    var getUsernameToFollow := QueryDb(SelectUser(db.users, usernameToFollow.value), true);
    if getUsernameToFollow.None? {
      return JsonResponse(404, Text(FOLLOW_TARGET_NOT_FOUND_MSG));
    }
    db.InsertFollower(Edge(username.value, usernameToFollow.value));
    return JsonResponse(200, Text(FOLLOWER_ADDED_MSG));
  }

  /** POST /v1/removeFollower on tables `t`. */
  function RemoveFollowerStep(t: Tables, req: Request): (o: Outcome)
    ensures var refusal := EdgeRefusal(t, req, "usernameToRemove", MISSING_UNFOLLOW_FIELDS_MSG, UNFOLLOW_TARGET_NOT_FOUND_MSG);
            refusal.Some? ==> o == Reject(t, refusal.value.0, refusal.value.1)
    ensures o.response.statusCode == 200 <==> EdgeRefusal(t, req, "usernameToRemove", MISSING_UNFOLLOW_FIELDS_MSG, UNFOLLOW_TARGET_NOT_FOUND_MSG).None?
    // success deletes every copy of the edge, keeps every other edge, and is
    // reported even when there was nothing to delete
    ensures o.response.statusCode == 200 ==>
              && o.response == JsonResponse(200, Text(FOLLOWER_REMOVED_MSG))
              && o.tables.followers == Without(t.followers, RequestedEdge(req, "usernameToRemove"))
              && RequestedEdge(req, "usernameToRemove") !in o.tables.followers
              && (forall e :: e != RequestedEdge(req, "usernameToRemove") ==> multiset(o.tables.followers)[e] == multiset(t.followers)[e])
              && (RequestedEdge(req, "usernameToRemove") !in t.followers ==> o.tables == t)
    ensures o.tables.users == t.users && o.tables.posts == t.posts
  {
    match EdgeRefusal(t, req, "usernameToRemove", MISSING_UNFOLLOW_FIELDS_MSG, UNFOLLOW_TARGET_NOT_FOUND_MSG)
    case Some((code, msg)) => Reject(t, code, msg)
    case None =>
      var e := RequestedEdge(req, "usernameToRemove");
      WithoutCount(t.followers, e);
      assert e !in t.followers ==> Without(t.followers, e) == t.followers by {
        if e !in t.followers { WithoutAbsent(t.followers, e); }
      }
      Outcome(JsonResponse(200, Text(FOLLOWER_REMOVED_MSG)), t.(followers := Without(t.followers, e)))
  }

  /** The removeFollower handler. */
  method RemoveFollower(db: Database, req: Request) returns (resp: Envelope)
    modifies db
    ensures resp == RemoveFollowerStep(old(db.State()), req).response
    ensures db.State() == RemoveFollowerStep(old(db.State()), req).tables
  {
    if req.contentType != JSON_CONTENT_TYPE {
      return JsonResponse(400, Text(BAD_CONTENT_TYPE_MSG));
    }
    var username := Get(req, "username");
    var usernameToRemove := Get(req, "usernameToRemove");
    if username.None? || usernameToRemove.None? {
      return JsonResponse(400, Text(MISSING_UNFOLLOW_FIELDS_MSG));
    }
    if username.value == usernameToRemove.value {
      return JsonResponse(400, Text(SELF_FOLLOW_MSG));
    }
    var getUsername := QueryDb(SelectUser(db.users, username.value), true);
    if getUsername.None? {
      return JsonResponse(404, Text(USER_NOT_FOUND_MSG));
    }
    var getUsernameToRemove := QueryDb(SelectUser(db.users, usernameToRemove.value), true);
    if getUsernameToRemove.None? {
      return JsonResponse(404, Text(UNFOLLOW_TARGET_NOT_FOUND_MSG));
    }
    db.DeleteFollowers(Edge(username.value, usernameToRemove.value));
    return JsonResponse(200, Text(FOLLOWER_REMOVED_MSG));
  }
}
