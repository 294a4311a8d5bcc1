/**
 * The timeline handlers of timelinesApi.py: postTweet, a guarded append to
 * `posts`, and the three timeline reads, each one query (a filter, or a join
 * with `followers`, then ORDER BY postTimestamp DESC LIMIT 25) whose answer is
 * always a 200: query_db with one=False returns a list, never None, so the
 * "Not Found" branches of the three reads cannot be taken.
 */
module Timelines {
  import opened Wrappers
  import opened Storage
  import opened Ranking

  const TIMELINE_LIMIT: nat := 25
  const MISSING_TWEET_FIELDS_MSG := "Missing Username or Post"
  const AUTHOR_NOT_FOUND_MSG := "User Not Found"
  const TWEET_POSTED_MSG := "Tweet Posted Successfully"
  const USER_POSTS_NOT_FOUND_MSG := "Posts from the user Not Found"
  const POSTS_NOT_FOUND_MSG := "Posts Not Found"

  function PostTime(p: Post): int
  {
    p.postTimestamp
  }

  function RowTime(row: HomeRow): int
  {
    row.post.postTimestamp
  }

  // ---------------------------------------------------------------------------
  // postTweet

  /** Whether a postTweet request passes every check on tables `t`. */
  predicate TweetAccepted(t: Tables, req: Request)
  {
    && req.contentType == JSON_CONTENT_TYPE
    && Get(req, "username").Some? && Get(req, "post").Some?
    && Get(req, "username").value in t.users
  }

  /** POST /v1/postTweet on tables `t`, with the server clock reading `now`. */
  function PostTweetStep(t: Tables, req: Request, now: int): (o: Outcome)
    ensures req.contentType != JSON_CONTENT_TYPE ==> o == Reject(t, 400, BAD_CONTENT_TYPE_MSG)
    ensures req.contentType == JSON_CONTENT_TYPE && (Get(req, "username").None? || Get(req, "post").None?)
            ==> o == Reject(t, 400, MISSING_TWEET_FIELDS_MSG)
    // an unknown author is a 400, not a 404
    ensures req.contentType == JSON_CONTENT_TYPE && Get(req, "username").Some? && Get(req, "post").Some?
            && Get(req, "username").value !in t.users
            ==> o == Reject(t, 400, AUTHOR_NOT_FOUND_MSG)
    ensures o.response.statusCode == 200 <==> TweetAccepted(t, req)
    ensures o.response.statusCode != 200 ==> o.tables == t
    // success appends exactly one post, stamped with the clock
    ensures TweetAccepted(t, req) ==>
              && o.response == JsonResponse(200, Text(TWEET_POSTED_MSG))
              && o.tables.posts == t.posts + [Post(Get(req, "username").value, Get(req, "post").value, now)]
    ensures o.tables.users == t.users && o.tables.followers == t.followers
  {
    if req.contentType != JSON_CONTENT_TYPE then Reject(t, 400, BAD_CONTENT_TYPE_MSG)
    else
      var username, post := Get(req, "username"), Get(req, "post");
      if username.None? || post.None? then Reject(t, 400, MISSING_TWEET_FIELDS_MSG)
      else if username.value !in t.users then Reject(t, 400, AUTHOR_NOT_FOUND_MSG)
      else Outcome(JsonResponse(200, Text(TWEET_POSTED_MSG)),
                   t.(posts := t.posts + [Post(username.value, post.value, now)]))
  }

  /** The postTweet handler. */
  method PostTweet(db: Database, req: Request, now: int) returns (resp: Envelope)
    modifies db
    ensures resp == PostTweetStep(old(db.State()), req, now).response
    ensures db.State() == PostTweetStep(old(db.State()), req, now).tables
  {
    if req.contentType != JSON_CONTENT_TYPE {
      return JsonResponse(400, Text(BAD_CONTENT_TYPE_MSG));
    }
    var username := Get(req, "username");
    var post := Get(req, "post");
    if username.None? || post.None? {
      return JsonResponse(400, Text(MISSING_TWEET_FIELDS_MSG));
    }
    var findUser := QueryDb(SelectUser(db.users, username.value), true);
    if findUser.None? {
      return JsonResponse(400, Text(AUTHOR_NOT_FOUND_MSG));
    }
    db.InsertPost(Post(username.value, post.value, now));
    return JsonResponse(200, Text(TWEET_POSTED_MSG));
  }

  // ---------------------------------------------------------------------------
  // userTimeline

  /**
   * `where author = ?`: the posts by `author`, each as often as it occurs. A
   * missing query parameter is SQL NULL, which equals nothing.
   */
  function ByAuthor(posts: seq<Post>, author: Option<string>): (r: seq<Post>)
    ensures forall p :: p in r ==> p in posts && author == Some(p.author)
    ensures forall p :: multiset(r)[p] == if author == Some(p.author) then multiset(posts)[p] else 0
  {
    if |posts| == 0 then []
    else
      assert posts == [posts[0]] + posts[1..];
      (if author == Some(posts[0].author) then [posts[0]] else []) + ByAuthor(posts[1..], author)
  }

  /** The posts of the user timeline: the newest 25 by `author`. */
  function UserTimelinePosts(posts: seq<Post>, author: Option<string>): (r: seq<Post>)
    ensures IsNewest(r, ByAuthor(posts, author), PostTime, TIMELINE_LIMIT)
    ensures forall p :: p in r ==> p in posts && author == Some(p.author)
  {
    var r := Newest(ByAuthor(posts, author), PostTime, TIMELINE_LIMIT);
    NewestMembers(r, ByAuthor(posts, author), PostTime, TIMELINE_LIMIT);
    r
  }

  /** `Select postContent`: the content column of each post, in order. */
  function Contents(ps: seq<Post>): (r: seq<string>)
    ensures |r| == |ps|
    ensures forall i :: 0 <= i < |ps| ==> r[i] == ps[i].postContent
  {
    if |ps| == 0 then [] else [ps[0].postContent] + Contents(ps[1..])
  }

  /**
   * GET /v1/userTimeline?author=...: always a 200, an unknown author or one
   * without posts answering the empty list.
   */
  function GetUserTimeline(t: Tables, author: Option<string>): (e: Envelope)
    ensures e == JsonResponse(200, ContentList(Contents(UserTimelinePosts(t.posts, author))))
    ensures |e.message.contents| <= TIMELINE_LIMIT
  {
    var getUserPosts := QueryDb(Contents(UserTimelinePosts(t.posts, author)), false);
    if getUserPosts.None? then JsonResponse(400, Text(USER_POSTS_NOT_FOUND_MSG))
    else JsonResponse(200, ContentList(getUserPosts.value.rows))
  }

  // ---------------------------------------------------------------------------
  // publicTimeline

  /** GET /v1/publicTimeline: the newest 25 posts of everyone, always a 200. */
  function GetPublicTimeline(t: Tables): (e: Envelope)
    ensures e.statusCode == 200 && e.message.PostList?
    ensures IsNewest(e.message.posts, t.posts, PostTime, TIMELINE_LIMIT)
    ensures |e.message.posts| == if |t.posts| < TIMELINE_LIMIT then |t.posts| else TIMELINE_LIMIT
  {
    var getAllPosts := QueryDb(Newest(t.posts, PostTime, TIMELINE_LIMIT), false);
    if getAllPosts.None? then JsonResponse(400, Text(POSTS_NOT_FOUND_MSG))
    else JsonResponse(200, PostList(getAllPosts.value.rows))
  }

  // ---------------------------------------------------------------------------
  // homeTimeline

  /** The join condition `f.username = ? AND f.followerUsername = p.author`. */
  predicate Follows(username: Option<string>, e: Edge, p: Post)
  {
    username == Some(e.username) && e.followerUsername == p.author
  }

  /** The joined rows of one post: one per matching edge, duplicates included. */
  function PairWith(p: Post, followers: seq<Edge>, username: Option<string>): (r: seq<HomeRow>)
    ensures forall row :: row in r ==> row.post == p && row.edge in followers && Follows(username, row.edge, p)
    ensures forall q, e :: multiset(r)[HomeRow(q, e)] == if q == p && Follows(username, e, p) then multiset(followers)[e] else 0
  {
    if |followers| == 0 then []
    else
      assert followers == [followers[0]] + followers[1..];
      (if Follows(username, followers[0], p) then [HomeRow(p, followers[0])] else [])
      + PairWith(p, followers[1..], username)
  }

  /** `posts p INNER JOIN followers f where f.username = ? AND f.followerUsername = p.author`. */
  function Join(posts: seq<Post>, followers: seq<Edge>, username: Option<string>): (r: seq<HomeRow>)
    ensures forall row :: row in r ==> row.post in posts && row.edge in followers && Follows(username, row.edge, row.post)
  {
    if |posts| == 0 then []
    else PairWith(posts[0], followers, username) + Join(posts[1..], followers, username)
  }

  lemma OnePlusTimes(a: int, n: int)
    ensures (1 + a) * n == n + a * n
  {
  }

  /** The join of a non-empty post list: the first post's rows, then the rest's. */
  lemma JoinUnfold(posts: seq<Post>, followers: seq<Edge>, username: Option<string>, row: HomeRow)
    requires |posts| > 0
    ensures multiset(Join(posts, followers, username))[row]
            == multiset(PairWith(posts[0], followers, username))[row] + multiset(Join(posts[1..], followers, username))[row]
  {
  }

  lemma CountUnfold(posts: seq<Post>, p: Post)
    requires |posts| > 0
    ensures multiset(posts)[p] == (if posts[0] == p then 1 else 0) + multiset(posts[1..])[p]
  {
    assert posts == [posts[0]] + posts[1..];
  }

  /**
   * The join holds each (post, edge) pair as often as the post occurs times as
   * often as the edge occurs: following twice doubles every row.
   */
  lemma {:induction false} JoinCount(posts: seq<Post>, followers: seq<Edge>, username: Option<string>, p: Post, e: Edge)
    ensures multiset(Join(posts, followers, username))[HomeRow(p, e)]
            == if Follows(username, e, p) then multiset(posts)[p] * multiset(followers)[e] else 0
  {
    if |posts| > 0 {
      var total := multiset(Join(posts, followers, username))[HomeRow(p, e)];
      var head := multiset(PairWith(posts[0], followers, username))[HomeRow(p, e)];
      var tail := multiset(Join(posts[1..], followers, username))[HomeRow(p, e)];
      var rest := multiset(posts[1..])[p];
      var n := multiset(followers)[e];
      JoinUnfold(posts, followers, username, HomeRow(p, e));
      CountUnfold(posts, p);
      JoinCount(posts[1..], followers, username, p, e);
      assert total == head + tail;
      if !Follows(username, e, p) {
        assert head == 0 && tail == 0;
      } else if posts[0] == p {
        assert head == n && tail == rest * n;
        OnePlusTimes(rest, n);
        assert multiset(posts)[p] == 1 + rest;
        assert total == (1 + rest) * n;
      } else {
        assert head == 0 && tail == rest * n;
        assert multiset(posts)[p] == rest;
      }
    }
  }

  /** The rows of the home timeline: the newest 25 joined rows. */
  function HomeTimelineRows(t: Tables, username: Option<string>): (r: seq<HomeRow>)
    ensures IsNewest(r, Join(t.posts, t.followers, username), RowTime, TIMELINE_LIMIT)
    // only posts by authors the user follows, each with an edge naming that author
    ensures forall row :: row in r ==> row.post in t.posts && row.edge in t.followers && Follows(username, row.edge, row.post)
  {
    var r := Newest(Join(t.posts, t.followers, username), RowTime, TIMELINE_LIMIT);
    NewestMembers(r, Join(t.posts, t.followers, username), RowTime, TIMELINE_LIMIT);
    r
  }

  /** GET /v1/homeTimeline?username=...: always a 200. */
  function GetHomeTimeline(t: Tables, username: Option<string>): (e: Envelope)
    ensures e == JsonResponse(200, JoinedList(HomeTimelineRows(t, username)))
    ensures |e.message.rows| <= TIMELINE_LIMIT
  {
    var getAllPosts := QueryDb(HomeTimelineRows(t, username), false);
    if getAllPosts.None? then JsonResponse(400, Text(POSTS_NOT_FOUND_MSG))
    else JsonResponse(200, JoinedList(getAllPosts.value.rows))
  }
}
