# Microblogging backend: a Dafny model

This project models the request handlers of a small microblogging service.
app.py registers users, lists them, checks passwords, and adds and removes
follow edges. timelinesApi.py stores posts and serves three timelines. Every
handler is a short chain of checks followed by one read or one write of three
SQLite tables. Here those tables are in-memory state:

- `users`: a map from username to `Account(email, passwordHash)`;
- `followers`: a sequence of `Edge(username, followerUsername)` rows, where the first user follows the second; duplicates are allowed;
- `posts`: a sequence of `Post(author, postContent, postTimestamp)` rows.

Modules:

- `Wrappers`: `Option`.
- `Storage`: the row types, the `Tables` value and the `Database` class. The class holds the three tables, which the write statements change in place (`InsertUser`, `InsertFollower`, `DeleteFollowers`, `InsertPost`, which stand for the uses of `inserttodb`). The module also holds the helpers both source files define identically: `QueryDb` (query_db's row selection) and `JsonResponse` (the envelope); `inserttodb` is the four write methods. Beside them is `Get`, which stands for Flask's `request.json.get`: an absent key and a JSON `null` both give `None`.
- `Ranking`: `ORDER BY postTimestamp DESC LIMIT n`. `IsNewest` is its specification. `Newest` is one ordering that meets it.
- `Identity` (app.py) and `Timelines` (timelinesApi.py): each write handler has two forms. A specification function `...Step(t, req, ...)` maps the table state and the request to an `Outcome` (the envelope and the new tables). A method on the open `Database` follows the source's early-return guard chain, runs the query and the write, and is proved to behave like its `...Step` function. Read handlers are functions of the table state.
- `Scenarios`: properties that tie several requests together.

Where the system's documentation and the code disagree, the model follows the
code. The comments at timelinesApi.py:102, timelinesApi.py:114 and
timelinesApi.py:130 say an empty timeline is answered with a 400 "Not Found"
envelope, and so does the system's documentation. The code tests the result of `query_db(..., one=False)` for
`None`, but that call always returns a list. So every timeline read answers
200, and an empty timeline is an empty list (`GetUserTimeline`,
`GetPublicTimeline`, `GetHomeTimeline`, `QuietAuthorEmptyTimeline`).

## Model

| member | source | states |
|---|---|---|
| Storage.Get | app.py:78-80 | a field is present exactly when the body has the key with a string value; an absent key and an explicit null both give None |
| Storage.JsonResponse | app.py:61-63 | every envelope carries language "en-US" and content type "application/json" around the given status and message |
| Storage.QueryDb | app.py:29-33 | with one=True: the first fetched row when there is one, and None exactly when no row was fetched; with one=False: the whole list, never None, even when it is empty |
| Storage.SelectUser | app.py:87-88 | `where username = ?` on the key column yields at most one row; no row exactly when the username is not registered; the row carries that user's email and stored hash |
| Storage.Without | app.py:216-217 | the DELETE itself: every surviving row was stored before and differs from the deleted edge (its counts are stated by WithoutCount, its order by WithoutConcat) |
| Storage.WithoutCount | app.py:216-217 | the DELETE keeps no copy of the named edge and keeps every copy of every other edge; the table shrinks by the number of copies deleted |
| Storage.WithoutAbsent | app.py:216-219 | deleting an edge that is not stored leaves the table as it was (removeFollower still answers success) |
| Storage.WithoutConcat | app.py:216-217 | the deletion works row by row, keeping the surviving rows in their order: it distributes over concatenation |
| Storage.WithoutIdempotent | app.py:216-217 | deleting the same edge twice changes nothing more than deleting it once |
| Storage.Database.constructor | app.py:50-57 | a freshly initialised database has three empty tables |
| Storage.Database.InsertUser | app.py:96-97 | the new account is added under a username not yet stored; followers and posts are untouched |
| Storage.Database.InsertFollower | app.py:175-176 | exactly one edge is appended, with no uniqueness check; the other tables are untouched |
| Storage.Database.DeleteFollowers | app.py:216-217 | the followers table becomes the old one with every copy of the edge removed; the other tables are untouched |
| Storage.Database.InsertPost | timelinesApi.py:89-90 | exactly one post is appended; the other tables are untouched |
| Ranking.IsNewest | timelinesApi.py:112 | the specification of ORDER BY DESC LIMIT: min(limit, n) rows drawn from the selection, newest first, all of them when fewer than limit exist, no row left out newer than the last one returned, any tie order allowed |
| Ranking.InsertDesc | timelinesApi.py:112 | inserting a row into a newest-first sequence gives a newest-first sequence with exactly one more copy of that row |
| Ranking.SortDesc | timelinesApi.py:112 | the result is a permutation of the rows in non-increasing timestamp order |
| Ranking.PrefixIsNewest | timelinesApi.py:112 | the first min(limit, n) rows of a sorted permutation are a valid ORDER BY DESC LIMIT answer |
| Ranking.Newest | timelinesApi.py:112 | the answer has min(limit, n) rows drawn from the selection, newest first; it holds all of them when fewer than limit exist; any row left out is no newer than the last row returned |
| Ranking.NewestMembers | timelinesApi.py:100 | every row of the answer is one of the selected rows |
| Ranking.NewestCovers | timelinesApi.py:100 | a selected row is in the answer, unless the answer is full and every returned row is at least as new as it |
| Identity.CreateUserStep | app.py:70-98 | a wrong content type gives 400 before any field is read; a missing or null field gives 400; a registered username gives 409; each refusal leaves every table unchanged; success happens exactly when all checks pass and adds one account holding hash(salt, password), never the raw password; no existing account changes; followers and posts are never touched |
| Identity.CreateUser | app.py:70-98 | the handler (guard chain, one-row lookup, hash, insert) answers and updates the tables exactly as CreateUserStep says |
| Identity.GetUsers | app.py:103-106 | the answer is exactly the stored rows, password hashes included, as a bare list rather than an envelope |
| Identity.AuthenticateUser | app.py:113-139 | content type, then missing fields (400), then an unknown user (404); otherwise 200 with check(stored hash, password) as the message, so a wrong password is still a 200; it writes nothing |
| Identity.EdgeRefusal | app.py:149-172 | the shared guard order: content type, missing fields, self-reference before any lookup, acting user ("User not found") before the target; every check passes exactly when both users are registered and differ |
| Identity.AddFollowerStep | app.py:145-179 | every refusal answers as the guard chain says and leaves the tables unchanged; success (exactly when no guard fires) appends one (username, usernameToFollow) edge and changes nothing else |
| Identity.AddFollower | app.py:145-179 | the handler answers and updates the tables exactly as AddFollowerStep says |
| Identity.RemoveFollowerStep | app.py:186-219 | the same guard chain, with "User to remove not found"; success replaces followers by Without(followers, (username, usernameToRemove)), so every copy of that edge goes and every other edge stays, in order, and answers 200 even when no such edge existed (then the tables are unchanged) |
| Identity.RemoveFollower | app.py:186-219 | the handler answers and updates the tables exactly as RemoveFollowerStep says |
| Timelines.PostTweetStep | timelinesApi.py:66-91 | a wrong content type, then a missing username or post (400), then an unknown author, which is a 400 "User Not Found" and not a 404; refusals leave posts unchanged; success appends exactly one post (username, post, now); users and followers are never touched |
| Timelines.PostTweet | timelinesApi.py:66-91 | the handler answers and updates the tables exactly as PostTweetStep says |
| Timelines.ByAuthor | timelinesApi.py:100 | `where author = ?` keeps each post by that author as often as it occurs and nothing else; a missing author (SQL NULL) matches nothing |
| Timelines.UserTimelinePosts | timelinesApi.py:100 | at most 25 posts, all by the queried author, newest first; any of the author's posts left out is no newer than the last one returned |
| Timelines.Contents | timelinesApi.py:100 | the projection on postContent keeps length and order |
| Timelines.GetUserTimeline | timelinesApi.py:94-105 | always a 200 carrying the contents of the user-timeline posts, at most 25 of them; the "Not Found" branch is never taken |
| Timelines.GetPublicTimeline | timelinesApi.py:108-117 | always a 200 with min(25, number of posts) posts drawn from posts, newest first, no left-out post newer than the last one |
| Timelines.Follows | timelinesApi.py:128 | the join condition: the edge starts at the queried user and ends at the post's author; a missing username (SQL NULL) matches no edge |
| Timelines.PairWith | timelinesApi.py:128 | one post's joined rows: one row per matching edge (username, author), so every copy of the edge gives its own row |
| Timelines.Join | timelinesApi.py:128 | every joined row pairs a stored post with a stored edge (username, post author) |
| Timelines.JoinCount | timelinesApi.py:128 | the join holds each (post, edge) pair as often as the post occurs times as often as the edge occurs, and never for an edge that does not follow the post's author |
| Timelines.HomeTimelineRows | timelinesApi.py:128 | at most 25 joined rows, newest first; each pairs a stored post with an edge from the user to its author, so posts by authors the user does not follow never appear |
| Timelines.GetHomeTimeline | timelinesApi.py:121-133 | always a 200 carrying the home-timeline rows, at most 25; the "Not Found" branch is never taken |
| Scenarios.TablesInvariant | app.py:161-172 | the facts the guards keep: no edge joins a user to themselves, both ends of every edge are registered, every post's author is registered |
| Scenarios.CreateUserPreserves | app.py:87-98 | a registration keeps the table invariant: accounts are only added, never changed or removed |
| Scenarios.AddFollowerPreserves | app.py:161-176 | a follow keeps the table invariant: the self-reference and existence checks come before the insert |
| Scenarios.RemoveFollowerPreserves | app.py:215-217 | an unfollow keeps the table invariant: it only removes edges |
| Scenarios.PostTweetPreserves | timelinesApi.py:81-90 | a post keeps the table invariant: its author is looked up before the insert |
| Scenarios.RegisterTwiceConflicts | app.py:87-90 | registering an accepted username a second time answers 409 and changes nothing |
| Scenarios.RegisterThenAuthenticate | app.py:93-97 | if the hash library is sound, the password just registered authenticates: 200 with true |
| Scenarios.RegisterThenWrongPassword | app.py:129-139 | if the hash library is collision-free, any other password answers 200 with false, not an error |
| Scenarios.FollowShowsPosts | timelinesApi.py:128 | after a successful follow, every post by the target is on the follower's home timeline, unless 25 rows at least as new fill it |
| Scenarios.FollowTwiceDuplicates | app.py:175-179 | following twice stores two copies of the edge, and the join then holds each of the target's posts once per copy |
| Scenarios.UnfollowHidesPosts | app.py:215-219 | after a successful unfollow, no post by the removed user is on the home timeline, including posts made before the removal |
| Scenarios.UnfollowUndoesFollow | app.py:198-219 | removing the edge that a follow just created as its only copy restores the tables and answers 200 |
| Scenarios.PostHeadsUserTimeline | timelinesApi.py:89-100 | a post newer than every stored post comes first in its author's timeline |
| Scenarios.QuietAuthorEmptyTimeline | timelinesApi.py:100-105 | an author with no posts, or no author parameter at all, gets 200 with an empty list, not the 400 of the unreachable branch |

## Left out

- Flask plumbing is not modelled: routing, parsing the JSON body, `flask.jsonify` serialisation, and the HTTP status on the wire (always 200; only the envelope's StatusCode is modelled).
- A request with no Content-Type header makes Flask raise inside the handler. The model takes the header as a plain string that is always present.
- Request bodies that are not JSON objects, and field values other than strings or null (numbers, booleans), are not modelled: every field is a string or absent.
- SQLite connection lifecycle (`get_db`, `close_connection`) is replaced by a `Database` object that each handler receives. `init_db` is its constructor; the schema file is not part of this model.
- Database failures (unreachable database, other SQL errors) are not modelled. Neither is the primary-key failure of inserting a second row for a username: createUser checks for that user first, so `InsertUser` requires the username to be new.
- Password hashing is left uninterpreted (`PasswordScheme`): the random salt of `generate_password_hash` becomes an input. `Sound` and `Exact` are the only facts assumed about the library, and only as preconditions of two lemmas.
- The clock `datetime.datetime.now()` is the integer parameter `now`. How SQLite stores and compares timestamp strings is not modelled.
- `make_dicts` is never called and is not modelled.
- Concurrency is not modelled: check-then-insert races between requests. The source has no transactions and no shared in-process state.
- The order of rows with equal timestamps is not defined by the database. `Newest` fixes one order, but every contract about the timelines is stated through `IsNewest`, which allows any tie order.
- Identity.GetUsers: returns a set, because `Select * from users` has no ORDER BY; the order of rows in the list is not modelled.
