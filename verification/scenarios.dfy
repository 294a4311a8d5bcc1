/**
 * Properties that relate several requests: registering and then signing in,
 * following and unfollowing and what the home timeline then shows, and posting
 * and what the user timeline then shows.
 */
module Scenarios {
  import opened Wrappers
  import opened Storage
  import opened Ranking
  import opened Identity
  import opened Timelines

  // ---------------------------------------------------------------------------
  // Table invariants the guards maintain

  /**
   * What the checks before each write keep true: nobody follows themselves,
   * both ends of every edge are registered, and every post's author is.
   */
  ghost predicate TablesInvariant(t: Tables)
  {
    && (forall e :: e in t.followers ==>
          e.username != e.followerUsername && e.username in t.users && e.followerUsername in t.users)
    && (forall p :: p in t.posts ==> p.author in t.users)
  }

  lemma CreateUserPreserves(t: Tables, req: Request, scheme: PasswordScheme, salt: string)
    requires TablesInvariant(t)
    ensures TablesInvariant(CreateUserStep(t, req, scheme, salt).tables)
  {
  }

  lemma AddFollowerPreserves(t: Tables, req: Request)
    requires TablesInvariant(t)
    ensures TablesInvariant(AddFollowerStep(t, req).tables)
  {
  }

  lemma RemoveFollowerPreserves(t: Tables, req: Request)
    requires TablesInvariant(t)
    ensures TablesInvariant(RemoveFollowerStep(t, req).tables)
  {
  }

  lemma PostTweetPreserves(t: Tables, req: Request, now: int)
    requires TablesInvariant(t)
    ensures TablesInvariant(PostTweetStep(t, req, now).tables)
  {
  }

  // ---------------------------------------------------------------------------
  // Registration and sign-in

  /** Registering a username a second time is a conflict, whatever the salt. */
  lemma RegisterTwiceConflicts(t: Tables, req: Request, scheme: PasswordScheme, salt: string, salt2: string)
    requires SignupAccepted(t, req)
    ensures CreateUserStep(CreateUserStep(t, req, scheme, salt).tables, req, scheme, salt2)
            == Reject(CreateUserStep(t, req, scheme, salt).tables, 409, USER_EXISTS_MSG)
  {
  }

  /** The password just registered signs in: the stored hash checks against it. */
  lemma RegisterThenAuthenticate(t: Tables, signup: Request, login: Request, scheme: PasswordScheme, salt: string)
    requires Sound(scheme)
    requires SignupAccepted(t, signup)
    requires login.contentType == JSON_CONTENT_TYPE
    requires Get(login, "username") == Get(signup, "username") && Get(login, "password") == Get(signup, "password")
    ensures AuthenticateUser(CreateUserStep(t, signup, scheme, salt).tables, login, scheme) == JsonResponse(200, Verdict(true))
  {
  }

  /** Any other password is answered with a 200 carrying false, not with an error. */
  lemma RegisterThenWrongPassword(t: Tables, signup: Request, login: Request, scheme: PasswordScheme, salt: string)
    requires Exact(scheme)
    requires SignupAccepted(t, signup)
    requires login.contentType == JSON_CONTENT_TYPE
    requires Get(login, "username") == Get(signup, "username")
    requires Present(login, "password") && Get(login, "password") != Get(signup, "password")
    ensures AuthenticateUser(CreateUserStep(t, signup, scheme, salt).tables, login, scheme) == JsonResponse(200, Verdict(false))
  {
  }

  // ---------------------------------------------------------------------------
  // Following and the home timeline

  lemma PositiveProduct(a: int, b: int)
    requires a >= 1 && b >= 1
    ensures a * b >= 1
  {
  }

  /**
   * Once `username` follows `target`, every post by `target` is on the home
   * timeline of `username`, unless 25 rows no older than it fill the timeline.
   */
  lemma FollowShowsPosts(t: Tables, req: Request, p: Post)
    requires AddFollowerStep(t, req).response.statusCode == 200
    requires p in t.posts && p.author == Get(req, "usernameToFollow").value
    ensures var rows := HomeTimelineRows(AddFollowerStep(t, req).tables, Get(req, "username"));
            || HomeRow(p, RequestedEdge(req, "usernameToFollow")) in rows
            || (|rows| == TIMELINE_LIMIT && forall i :: 0 <= i < |rows| ==> p.postTimestamp <= rows[i].post.postTimestamp)
  {
    var after := AddFollowerStep(t, req).tables;
    var username, e := Get(req, "username"), RequestedEdge(req, "usernameToFollow");
    var joined := Join(after.posts, after.followers, username);
    assert e in after.followers;
    assert multiset(after.posts)[p] >= 1 && multiset(after.followers)[e] >= 1;
    JoinCount(after.posts, after.followers, username, p, e);
    PositiveProduct(multiset(after.posts)[p], multiset(after.followers)[e]);
    assert HomeRow(p, e) in multiset(joined);
    NewestCovers(HomeTimelineRows(after, username), joined, RowTime, TIMELINE_LIMIT, HomeRow(p, e));
  }

  /**
   * Following twice stores the edge twice, and the join then holds every post of
   * the target once per copy of the edge.
   */
  lemma FollowTwiceDuplicates(t: Tables, req: Request)
    requires AddFollowerStep(t, req).response.statusCode == 200
    ensures var twice := AddFollowerStep(AddFollowerStep(t, req).tables, req);
            var e := RequestedEdge(req, "usernameToFollow");
            && twice.response.statusCode == 200
            && multiset(twice.tables.followers)[e] == multiset(t.followers)[e] + 2
            && forall p: Post :: p.author == e.followerUsername ==>
                 multiset(Join(twice.tables.posts, twice.tables.followers, Get(req, "username")))[HomeRow(p, e)]
                 == multiset(t.posts)[p] * (multiset(t.followers)[e] + 2)
  {
    var once := AddFollowerStep(t, req).tables;
    var twice := AddFollowerStep(once, req).tables;
    var e := RequestedEdge(req, "usernameToFollow");
    assert twice.followers == t.followers + [e] + [e];
    assert multiset(twice.followers)[e] == multiset(t.followers)[e] + 2;
    forall p: Post | p.author == e.followerUsername
      ensures multiset(Join(twice.posts, twice.followers, Get(req, "username")))[HomeRow(p, e)]
              == multiset(t.posts)[p] * (multiset(t.followers)[e] + 2)
    {
      JoinCount(twice.posts, twice.followers, Get(req, "username"), p, e);
    }
  }

  /** After unfollowing `target`, no post by `target` is on the home timeline. */
  lemma UnfollowHidesPosts(t: Tables, req: Request)
    requires RemoveFollowerStep(t, req).response.statusCode == 200
    ensures forall row :: row in HomeTimelineRows(RemoveFollowerStep(t, req).tables, Get(req, "username"))
                          ==> row.post.author != Get(req, "usernameToRemove").value
  {
  }

  /** Unfollowing undoes a follow that created the only copy of its edge. */
  lemma UnfollowUndoesFollow(t: Tables, add: Request, remove: Request)
    requires AddFollowerStep(t, add).response.statusCode == 200
    requires RequestedEdge(add, "usernameToFollow") !in t.followers
    requires remove.contentType == JSON_CONTENT_TYPE
    requires Get(remove, "username") == Get(add, "username")
    requires Get(remove, "usernameToRemove") == Get(add, "usernameToFollow")
    ensures RemoveFollowerStep(AddFollowerStep(t, add).tables, remove)
            == Outcome(JsonResponse(200, Text(FOLLOWER_REMOVED_MSG)), t)
  {
    var e := RequestedEdge(add, "usernameToFollow");
    WithoutConcat(t.followers, [e], e);
    WithoutAbsent(t.followers, e);
    assert Without([e], e) == [];
  }

  // ---------------------------------------------------------------------------
  // Posting and the user timeline

  /**
   * A post newer than every stored post heads its author's timeline: the
   * timeline answer starts with its content.
   */
  lemma PostHeadsUserTimeline(t: Tables, req: Request, now: int)
    requires TweetAccepted(t, req)
    requires forall q :: q in t.posts ==> q.postTimestamp < now
    ensures var contents := GetUserTimeline(PostTweetStep(t, req, now).tables, Get(req, "username")).message.contents;
            |contents| > 0 && contents[0] == Get(req, "post").value
  {
  }

  /** An author without posts, or no author at all, has an empty timeline, answered as a 200. */
  lemma QuietAuthorEmptyTimeline(t: Tables, author: Option<string>)
    requires author.None? || forall q :: q in t.posts ==> q.author != author.value
    ensures GetUserTimeline(t, author) == JsonResponse(200, ContentList([]))
  {
  }
}
