/**
 * The database shared by both groups of request handlers, and the helpers that
 * app.py and timelinesApi.py each define identically: query_db (row selection),
 * inserttodb (the write statements) and jsonResponse (the response envelope).
 * The SQLite connection is replaced by the in-memory tables of a Database object.
 */
module Storage {
  import opened Wrappers

  /** A row of `users` without its key: the email and the stored password hash. */
  datatype Account = Account(email: string, passwordHash: string)

  /** A full row of `users` as `Select * from users` returns it. */
  datatype UserRow = UserRow(username: string, email: string, password: string)

  /** A row of `followers`: `username` follows `followerUsername`. */
  datatype Edge = Edge(username: string, followerUsername: string)

  /** A row of `posts`; the timestamp is the server clock reading at insertion. */
  datatype Post = Post(author: string, postContent: string, postTimestamp: int)

  /** A row of the home-timeline join `posts p INNER JOIN followers f`. */
  datatype HomeRow = HomeRow(post: Post, edge: Edge)

  /** The state of the three tables. */
  datatype Tables = Tables(users: map<string, Account>, followers: seq<Edge>, posts: seq<Post>)

  // ---------------------------------------------------------------------------
  // Requests

  /** A JSON value of a request body field: a string, or an explicit `null`. */
  datatype Json = Null | Str(s: string)

  /** A POST request: its Content-Type header and its JSON object body. */
  datatype Request = Request(contentType: string, body: map<string, Json>)

  const JSON_CONTENT_TYPE := "application/json"
  const BAD_CONTENT_TYPE_MSG := "Bad Request. Content type should be json"

  /** `request.json.get(key)`: an absent key and an explicit null both give None. */
  function Get(req: Request, key: string): (r: Option<string>)
    ensures r.Some? <==> key in req.body && req.body[key].Str?
    ensures r.Some? ==> req.body[key] == Str(r.value)
  {
    if key in req.body then
      match req.body[key]
      case Str(s) => Some(s)
      case Null => None
    else None
  }

  // ---------------------------------------------------------------------------
  // Responses

  /** The payload placed in an envelope's Message field. */
  datatype Message =
    | Text(text: string)
    | Verdict(matches: bool)
    | ContentList(contents: seq<string>)
    | PostList(posts: seq<Post>)
    | JoinedList(rows: seq<HomeRow>)

  /** The JSON envelope every handler but getUsers answers with. */
  datatype Envelope = Envelope(contentLanguage: string, contentType: string, statusCode: int, message: Message)

  /** jsonResponse: the fixed language and content type around a status and a message. */
  function JsonResponse(statusCode: int, message: Message): (e: Envelope)
    ensures e.contentLanguage == "en-US" && e.contentType == JSON_CONTENT_TYPE
    ensures e.statusCode == statusCode && e.message == message
  {
    Envelope("en-US", JSON_CONTENT_TYPE, statusCode, message)
  }

  /** What a write handler answers and what the tables are afterwards. */
  datatype Outcome = Outcome(response: Envelope, tables: Tables)

  /** A refusal: an envelope with a text message, and no table touched. */
  function Reject(t: Tables, statusCode: int, text: string): Outcome
  {
    Outcome(JsonResponse(statusCode, Text(text)), t)
  }

  // ---------------------------------------------------------------------------
  // Reads: query_db

  /** The shapes query_db returns: one row (one=True), or the whole list (one=False). */
  datatype Fetched<R> = Single(row: R) | All(rows: seq<R>)

  /**
   * query_db applied to the rows a statement fetched: with `one` the first row,
   * or None when there is none; without `one` the whole list, even when empty.
   */
  function QueryDb<R>(retrieve: seq<R>, one: bool): (r: Option<Fetched<R>>)
    ensures r.None? <==> one && |retrieve| == 0
    ensures one && |retrieve| > 0 ==> r == Some(Single(retrieve[0]))
    ensures r.Some? && r.value.Single? ==> one && r.value.row == retrieve[0]
    ensures !one ==> r == Some(All(retrieve))
  {
    if one then (if |retrieve| > 0 then Some(Single(retrieve[0])) else None)
    else Some(All(retrieve))
  }

  /** The rows of `Select * from users where username = ?`; username is the key. */
  function SelectUser(users: map<string, Account>, username: string): (rows: seq<UserRow>)
    ensures |rows| <= 1
    ensures |rows| == 0 <==> username !in users
    ensures |rows| == 1 ==> rows[0] == UserRow(username, users[username].email, users[username].passwordHash)
  {
    if username in users then [UserRow(username, users[username].email, users[username].passwordHash)] else []
  }

  // ---------------------------------------------------------------------------
  // Writes: the DELETE statement of removeFollower

  /**
   * `DELETE FROM followers WHERE username = ? AND followerUsername = ?`: every row
   * equal to `e` goes, every other row stays, in its order.
   */
  function Without(edges: seq<Edge>, e: Edge): (r: seq<Edge>)
    ensures forall x :: x in r ==> x in edges && x != e
  {
    if |edges| == 0 then []
    else (if edges[0] == e then [] else [edges[0]]) + Without(edges[1..], e)
  }

  /** What the deletion keeps: no copy of `e`, every copy of every other edge. */
  lemma {:induction false} WithoutCount(edges: seq<Edge>, e: Edge)
    ensures e !in Without(edges, e)
    ensures forall x :: x != e ==> multiset(Without(edges, e))[x] == multiset(edges)[x]
    ensures |Without(edges, e)| == |edges| - multiset(edges)[e]
  {
    if |edges| > 0 {
      assert edges == [edges[0]] + edges[1..];
      WithoutCount(edges[1..], e);
    }
  }

  /** Deleting an edge that is not there deletes nothing. */
  lemma {:induction false} WithoutAbsent(edges: seq<Edge>, e: Edge)
    requires e !in edges
    ensures Without(edges, e) == edges
  {
    if |edges| > 0 {
      assert e !in edges[1..];
      WithoutAbsent(edges[1..], e);
    }
  }

  /** The deletion works row by row: it distributes over concatenation. */
  lemma {:induction false} WithoutConcat(a: seq<Edge>, b: seq<Edge>, e: Edge)
    ensures Without(a + b, e) == Without(a, e) + Without(b, e)
  {
    if |a| == 0 {
      assert a + b == b;
    } else {
      var head := if a[0] == e then [] else [a[0]];
      assert (a + b)[0] == a[0] && (a + b)[1..] == a[1..] + b;
      assert Without(a + b, e) == head + Without(a[1..] + b, e);
      WithoutConcat(a[1..], b, e);
      assert Without(a, e) == head + Without(a[1..], e);
    }
  }

  /** Deleting twice deletes nothing more. */
  lemma WithoutIdempotent(edges: seq<Edge>, e: Edge)
    ensures Without(Without(edges, e), e) == Without(edges, e)
  {
    WithoutCount(edges, e);
    WithoutAbsent(Without(edges, e), e);
  }

  // ---------------------------------------------------------------------------
  // The database connection

  /** The open database: the three tables, changed in place by the write statements. */
  class Database {
    var users: map<string, Account>
    var followers: seq<Edge>
    var posts: seq<Post>

    /** The tables as a value. */
    function State(): Tables
      reads this
    {
      Tables(users, followers, posts)
    }

    /** A freshly initialised database: all three tables empty. */
    constructor ()
      ensures State() == Tables(map[], [], [])
    {
      users, followers, posts := map[], [], [];
    }

    /** `INSERT INTO users(username, email, password)`; username is the primary key. */
    method InsertUser(username: string, email: string, passwordHash: string)
      requires username !in users
      modifies this
      ensures State() == old(State()).(users := old(users)[username := Account(email, passwordHash)])
    {
      users := users[username := Account(email, passwordHash)];
    }

    /** `INSERT INTO followers(username, followerUsername)`: no uniqueness constraint. */
    method InsertFollower(e: Edge)
      modifies this
      ensures State() == old(State()).(followers := old(followers) + [e])
    {
      followers := followers + [e];
    }

    /** `DELETE FROM followers WHERE username = ? AND followerUsername = ?`. */
    method DeleteFollowers(e: Edge)
      modifies this
      ensures State() == old(State()).(followers := Without(old(followers), e))
    {
      followers := Without(followers, e);
    }

    /** `INSERT INTO posts(author, postContent, postTimestamp)`. */
    method InsertPost(p: Post)
      modifies this
      ensures State() == old(State()).(posts := old(posts) + [p])
    {
      posts := posts + [p];
    }
  }
}
