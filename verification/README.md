# Comment service store core, in Dafny

This project models the core of a small ASP.NET comment service backed by
Cassandra, and proves properties of that model:

- **Store bootstrap** (`CassandraContext`). The constructor reads the
  connection settings and opens a session without keyspace. It creates the
  keyspace if the cluster metadata lacks it, then connects to the keyspace
  with a bounded retry loop (`ConnectWithRetry`). Each attempt also runs
  `EnsureTablesExist`, which creates the `comments` table and its two
  secondary indexes with `IF NOT EXISTS`. Finally the constructor configures
  the `Map<Comment>` mapping. `Dispose` releases the session and then the
  cluster, once.
- **The comment endpoints** (`CommentController`). The `comments` table is a
  map from id to comment, and each handler is a transition of that map plus
  the response it sends. `FormatTimeAgo` is the age bucketing of the listing
  DTOs.
- **Request validation**. These are the data-annotation checks ASP.NET runs
  on the create and update request bodies before an action executes.

The Cassandra cluster is an oracle (`Cassandra.World`). Every `Connect` and
`Execute` takes the next answer from a list, and a `Throw` answer makes the
call raise. The schema is a set of keyspaces, tables and indexes. Every call
and every `Thread.Sleep` is appended to a log. That log is what the retry,
pause and keyspace-creation counts are stated over.

Files:

| file | module | contents |
|---|---|---|
| wrappers.dfy | `Wrappers` | `Option`, `Result` |
| strings.dfy | `Strings` | .NET white space, `IsNullOrEmpty`/`IsNullOrWhiteSpace`, UTF-16 length, `Split`/`Join` |
| comment.dfy | `Comments` | `Guid`, `Instant` (ticks), `Comment`, millisecond storage of a time |
| cassandra.dfy | `Cassandra` | schema, statements, the driver oracle, the event log |
| comment_mapping.dfy | `CommentMapping` | the `comments` table, `Map<Comment>`, row conversion |
| cassandra_context.dfy | `CassandraContext` | settings, keyspace and table creation, the retry loop, construction, disposal |
| dtos.dfy | `Dtos` | request bodies and their validation |
| time_ago.dfy | `TimeAgo` | `FormatTimeAgo` |
| comment_controller.dfy | `CommentController` | the handlers over a `map<Guid, Comment>` store |

The retry loop is written once, as `RetryLoop`, over any attempt function
`World -> Run<Session>`. `ConnectWithRetry` runs it with the real attempt,
`Connect(keyspace)` followed by `EnsureTablesExist`. `Retry` is the
loop's functional specification; the method's postcondition says the loop
computes it. The retry lemmas hold for every attempt that is `WellBehaved`:
one `Connect` per attempt, no pauses, no removed schema, and a session bound
to the keyspace on success. `AttemptOfWellBehaved` shows that the real
attempt is well behaved.

What the code does, stated plainly:

- Comment content is stored exactly as sent, never trimmed.
  White-space-only content is refused by `[Required]`.
- `UpdateComment` and `DeleteComment` act on any existing id. They do
  not compare the comment's author with anyone.
- Listings are neither ordered nor paged. They come back in the order the
  driver fetches rows.
- Comments are deleted one id at a time. There is no delete by user.
- `CREATE KEYSPACE` is issued without `IF NOT EXISTS`, so it raises if the
  keyspace already exists.
- The create action binds the request type that has a `UserId` property,
  which it reads at Controllers/CommentController.cs:110. That type has
  no length bound on its content. The type in DTOs/CreateCommentDto.cs,
  with the 1..500 bound, is modelled as its own validator.
- A `timestamp` column keeps whole milliseconds. A comment read back
  carries its creation time truncated to the millisecond, while the 201
  response of a create carries the full-precision time.

## Model

| member | source | states |
|---|---|---|
| Strings.AllWhiteSpace | DTOs/CreateCommentDto.cs:8 | true exactly when every character is .NET white space, which is what `[Required]` refuses besides null and empty |
| Strings.Utf16Length | DTOs/CreateCommentDto.cs:9 | the .NET length of a string lies between its character count and twice that, and equals the character count exactly when no character is outside the Basic Multilingual Plane |
| Strings.Split | Data/CassandraContext.cs:28 | a host list with k commas yields k + 1 contact points, none containing a comma |
| Strings.JoinSplit | Data/CassandraContext.cs:28 | joining the contact points with commas gives back the configured host list, so splitting loses nothing |
| Strings.SplitJoin | Data/CassandraContext.cs:28 | splitting the comma-join of comma-free pieces gives back those pieces |
| Cassandra.Apply | Data/CassandraContext.cs:129-140 | a successful schema statement never changes or removes an existing object; `CREATE KEYSPACE` succeeds exactly when the keyspace is absent; table creation succeeds exactly in a session bound to an existing keyspace, and index creation exactly when the session's keyspace has the table with that column; each success leaves its object in place |
| Cassandra.ClusterConnect | Data/CassandraContext.cs:104 | a connect is logged once and leaves the schema alone; it succeeds exactly when the driver answers and the keyspace asked for exists, and then yields a session bound to that keyspace |
| Cassandra.SessionExecute | Data/CassandraContext.cs:129-140 | an execute is logged once; it succeeds exactly when the driver answers and the cluster accepts the statement, and a failed statement leaves the schema unchanged |
| CassandraContext.SelectCredentials | Data/CassandraContext.cs:40-43 | credentials are attached exactly when user name and password are both present and non-empty, and then they are those two values |
| CassandraContext.BuildSettingsFacts | Data/CassandraContext.cs:28-43 | a missing host list raises first, then a missing keyspace; the settings are read exactly when both keys are present; the contact points are the comma-free pieces that join back to the host list; consistency is LOCAL_QUORUM and the reconnection bounds are 1000 and 60000 ms |
| CassandraContext.CheckAndCreateKeyspaceIfNeeded | Data/CassandraContext.cs:78-95 | when the keyspace exists nothing is issued and the world is untouched; otherwise exactly one `CREATE KEYSPACE` with replication factor 1 is issued, its success adds exactly that keyspace, and its failure raises with the schema unchanged |
| CassandraContext.ExecuteAllLog | Data/CassandraContext.cs:126-146 | statements run in order and stop at the first that raises: the calls made are a prefix of the statements, all of them on success and at least one on failure |
| CassandraContext.ExecuteAllEffect | Data/CassandraContext.cs:129-140 | running the statements never changes or removes an existing schema object, and on success every statement's object exists |
| CassandraContext.EnsureTablesExistFacts | Data/CassandraContext.cs:124-147 | afterwards the `comments` table and the indexes on `post_id` and `user_id` exist when it succeeded; no existing object is changed; the calls are a prefix of the three statements |
| CassandraContext.RerunIsNoOp | Data/CassandraContext.cs:129-140 | re-issuing `IF NOT EXISTS` statements whose objects exist leaves the schema unchanged, and succeeds when the driver answers |
| CassandraContext.EnsureTablesSucceed | Data/CassandraContext.cs:124-147 | in a session bound to an existing keyspace, with the driver answering, it succeeds unless a `comments` table already there lacks an indexed column |
| CassandraContext.EnsureTablesIdempotent | Data/CassandraContext.cs:124-147 | running `EnsureTablesExist` again on the schema a successful run left changes nothing, and succeeds when the driver answers |
| CassandraContext.AttemptFacts | Data/CassandraContext.cs:104-106 | one attempt connects once to the keyspace and then issues only table statements; it removes nothing; on success its session is bound to the keyspace and the table and indexes exist |
| CassandraContext.AttemptOfWellBehaved | Data/CassandraContext.cs:102-107 | the loop body of `ConnectWithRetry` meets every assumption the retry lemmas make about an attempt |
| CassandraContext.LeadingFailures | Data/CassandraContext.cs:99-121 | the number of failed attempts before the first success, capped at the bound: every earlier attempt fails, and the one it names succeeds when below the bound |
| CassandraContext.AttemptsMade | Data/CassandraContext.cs:99-121 | the retry loop makes between 1 and MAX_RETRIES = 5 attempts |
| CassandraContext.RetryLogShape | Data/CassandraContext.cs:108-118 | m attempts produce m connects and m - 1 pauses of 5000 ms, one between consecutive attempts and never at the end |
| CassandraContext.RetryStep | Data/CassandraContext.cs:100-119 | one loop pass keeps the loop state faithful to the specification: a success returns that attempt, the failure of the fifth attempt rethrows its fault, any other failure pauses and counts one more attempt |
| CassandraContext.RetryLoop | Data/CassandraContext.cs:97-122 | the loop computes exactly the bounded retry specification for any attempt function, so the fall-through `throw` after it is unreachable |
| CassandraContext.ConnectWithRetry | Data/CassandraContext.cs:97-122 | the result, final world and calls of `ConnectWithRetry` are those of the bounded retry specification applied to connect-then-ensure-tables |
| CassandraContext.RetryCounts | Data/CassandraContext.cs:99-121 | the loop succeeds exactly when one of the first five attempts does, returning the first success after k failures with k + 1 connects and k pauses; after five failures it has connected five times, paused four times, and rethrows the fifth fault |
| CassandraContext.RetryBounds | Data/CassandraContext.cs:108-118 | the loop connects between 1 and 5 times and pauses exactly one time fewer than it connects |
| CassandraContext.WorldBeforeExtends | Data/CassandraContext.cs:99-121 | no sequence of attempts removes or changes an existing schema object |
| CassandraContext.RetryEffect | Data/CassandraContext.cs:104-106 | the loop never removes schema, and a returned session is bound to the keyspace, whose table and indexes exist |
| CassandraContext.RetryCreatesNoKeyspace | Data/CassandraContext.cs:97-122 | the retry loop never issues `CREATE KEYSPACE` |
| CassandraContext.CreateStartsUnbound | Data/CassandraContext.cs:28-48 | a missing required key raises before any call; otherwise the first call is the connect without keyspace |
| CassandraContext.CreateSucceeds | Data/CassandraContext.cs:45-68 | a constructed context keeps the configured settings, a session bound to the keyspace, the `comments` mapping and both resources undisposed; keyspace, table and indexes exist; the temporary session was disposed |
| CassandraContext.CreateSucceedsIff | Data/CassandraContext.cs:28-68 | construction succeeds exactly when both required settings are present, the connection without keyspace and the keyspace step do not raise, and one of the first five keyspace connection attempts succeeds |
| CassandraContext.CreateSucceedsOnHealthyCluster | Data/CassandraContext.cs:28-68 | when the driver answers every call and both settings are present, construction succeeds, unless an existing `comments` table lacks an indexed column |
| CassandraContext.KeyspaceStepConnectsNone | Data/CassandraContext.cs:48-49 | the calls before the keyspace session never connect to the keyspace |
| CassandraContext.CreateDisposesBeforeReconnecting | Data/CassandraContext.cs:48-53 | in a successful construction the temporary session is disposed before any connection to the keyspace, immediately before the first one |
| CassandraContext.CreateExtends | Data/CassandraContext.cs:48-53 | construction, whether or not it succeeds, never changes or removes an existing schema object |
| CassandraContext.CreateConnects | Data/CassandraContext.cs:48-53 | construction connects to the keyspace at most MAX_RETRIES times |
| CassandraContext.CreateKeyspaceAtMostOnce | Data/CassandraContext.cs:48-53 | construction issues at most one `CREATE KEYSPACE`, and none when the keyspace exists |
| CassandraContext.DisposeCore | Data/CassandraContext.cs:158-170 | the first call marks the context disposed and, when disposing, releases the session and then the cluster; the finalizer path releases nothing; any later call releases nothing |
| CassandraContext.Dispose | Data/CassandraContext.cs:152-156 | afterwards the context is disposed and its finalizer suppressed, and a context already disposed releases nothing |
| CassandraContext.Finalize | Data/CassandraContext.cs:172-175 | the finalizer releases nothing, and marks the context disposed unless suppressed |
| CassandraContext.DisposeReleasesOnce | Data/CassandraContext.cs:152-170 | the first `Dispose` of a constructed context releases its session and then its cluster, once each |
| CassandraContext.DisposeIdempotent | Data/CassandraContext.cs:152-170 | a second `Dispose` changes nothing and releases nothing |
| CassandraContext.FinalizeThenDispose | Data/CassandraContext.cs:158-175 | after the finalizer path ran, `Dispose` releases nothing |
| CommentMapping.ColumnNames | Data/CassandraContext.cs:61-65 | each of the five properties is mapped to its column: `id`, `content`, `post_id`, `user_id`, `created_at` |
| CommentMapping.FieldNames | Data/CassandraContext.cs:61-65 | each of those five columns maps back to its property, and no other column is mapped |
| CommentMapping.MappingIsBijection | Data/CassandraContext.cs:58-66 | the mapping is a bijection between the properties of `Comment` and the five columns |
| CommentMapping.MappingMatchesTable | Data/CassandraContext.cs:58-66 | the mapping names the created table, lists its columns with their types in order, and its partition key is the table's primary key |
| CommentMapping.TableColumnNames | Data/CassandraContext.cs:130-136 | the created table has exactly the five columns |
| Comments.StoredInstant | Data/CassandraContext.cs:135 | a `timestamp` keeps the whole milliseconds of a time: at most the time and less than a millisecond below it, unchanged exactly for a time on a whole millisecond |
| Comments.Persisted | Data/CassandraContext.cs:131-135 | a stored comment keeps every field but its creation time, which drops below a millisecond; it is unchanged exactly when created on a whole millisecond |
| CommentMapping.ToRowFillsTable | Data/CassandraContext.cs:58-66 | an inserted row has every column of the table and no other, each holding the mapped property's value as the column keeps it, with the column's type |
| CommentMapping.RowRoundTrip | Data/CassandraContext.cs:58-66 | writing a comment and reading the row back gives the same comment with its creation time in whole milliseconds, and exactly the same comment when it was created on a whole millisecond |
| CommentMapping.FromRowInverse | Data/CassandraContext.cs:58-66 | a row that reads as a comment holds in every mapped column the value of the property mapped to it, which is what writing that comment puts there when it was created on a whole millisecond |
| Dtos.CreateErrors | DTOs/CreateCommentDto.cs:8-10 | `[Required]` fails exactly for null or white-space-only content, and `[StringLength]` fails exactly for a present content outside 1..500 UTF-16 units; both are reported |
| Dtos.CreateWithAuthorErrors | babbly-comment-service/DTOs/CreateCommentDto.cs:8-15 | content and author each fail `[Required]` exactly when null or white space only; there is no length check |
| Dtos.UpdateErrors | babbly-comment-service/DTOs/UpdateCommentDto.cs:7-8 | the content fails `[Required]` exactly when null or white space only, and nothing else is checked |
| Dtos.ValidCreateIff | DTOs/CreateCommentDto.cs:8-10 | a create request is accepted exactly when its content is present, has a visible character, and is 1 to 500 UTF-16 units long |
| Dtos.EmptyContentRejected | DTOs/CreateCommentDto.cs:8-9 | empty content fails both checks |
| Dtos.BindString | DTOs/CreateCommentDto.cs:10 | a string property initialised to the empty string binds to null exactly when the request sends `null`, to the empty string when the request leaves it out, and to the sent text otherwise |
| Dtos.AbsentContentRejected | DTOs/CreateCommentDto.cs:8-10 | content left out of the request binds to the empty string and fails both checks |
| Dtos.NullContentRejected | DTOs/CreateCommentDto.cs:8-9 | a null content fails `[Required]` only, since `[StringLength]` lets null through |
| Dtos.OverlongContentRejected | DTOs/CreateCommentDto.cs:9 | content longer than 500 UTF-16 units is rejected by the length check |
| Dtos.WhiteSpaceContentRejected | DTOs/CreateCommentDto.cs:8-10 | white-space-only content of an allowed length is rejected by `[Required]` alone |
| Dtos.PlainContentAccepted | DTOs/CreateCommentDto.cs:8-9 | any content of 1 to 500 Basic-Multilingual-Plane characters with a visible character is accepted |
| Dtos.AuthorRequestHasNoLengthBound | babbly-comment-service/DTOs/CreateCommentDto.cs:8-9 | a content over 500 units that the top-level request refuses is accepted by the author-carrying request |
| Dtos.ValidCreateWithAuthorIff | babbly-comment-service/DTOs/CreateCommentDto.cs:8-15 | the author-carrying request is accepted exactly when content and author both have a visible character |
| Dtos.ValidUpdateIff | babbly-comment-service/DTOs/UpdateCommentDto.cs:7-8 | the update request is accepted exactly when its content has a visible character |
| TimeAgo.Bucket | Controllers/CommentController.cs:188-211 | the buckets partition the time line by strict "more than" thresholds of 365 days, 30 days, a day, an hour and a minute; each count is at least 1 and is the floor of the elapsed time in its unit |
| TimeAgo.BucketRanges | Controllers/CommentController.cs:188-209 | months are 1..12, days 1..30, hours 1..24, minutes 1..60 and years at least 1 |
| TimeAgo.BucketEdges | Controllers/CommentController.cs:188-211 | exactly a minute is "Just now", exactly an hour is 60 minutes, exactly a day is 24 hours, exactly 30 days is 30 days, exactly 365 days is 12 months |
| TimeAgo.BucketMonotone | Controllers/CommentController.cs:188-211 | as time passes the phrase never moves to a smaller unit, nor within a unit to a smaller count |
| TimeAgo.ParseRender | Controllers/CommentController.cs:190-211 | the phrase can be read back to the bucket it was written from |
| TimeAgo.RenderInjective | Controllers/CommentController.cs:190-211 | two different buckets never give the same phrase |
| TimeAgo.FormatTimeAgoJustNow | Controllers/CommentController.cs:184-211 | the phrase is "Just now" exactly when at most one minute has elapsed, a creation time in the future included |
| CommentController.Select | Controllers/CommentController.cs:72 | a query selects exactly the fetched keys whose rows match its filter, and selects no key twice |
| CommentController.GetComments | Controllers/CommentController.cs:31-43 | 500 exactly when the store fails; otherwise the result holds exactly the stored comments |
| CommentController.GetComment | Controllers/CommentController.cs:47-63 | 404 exactly when the id is absent, otherwise the stored comment unchanged, and 500 exactly when the store fails |
| CommentController.MapCommentToDtoKeepsFields | Controllers/CommentController.cs:170-181 | the DTO copies all five stored fields unchanged and adds the comment's age phrase |
| CommentController.ListingExact | Controllers/CommentController.cs:72-90 | a listing holds the DTO of every stored comment the filter matches and nothing else |
| CommentController.ListingDistinct | Controllers/CommentController.cs:72-90 | no comment appears twice in a listing |
| CommentController.ByPostExact | Controllers/CommentController.cs:67-80 | listing by post gives exactly the DTOs of that post's comments |
| CommentController.ByUserExact | Controllers/CommentController.cs:84-97 | listing by user gives exactly the DTOs of that author's comments |
| CommentController.CreateComment | Controllers/CommentController.cs:101-122 | 400 with the failed checks exactly for an invalid request, 500 exactly when a valid request meets a failing store, 201 exactly when a valid request meets a working store; on 201 the comment copies content, post and author, carries the new id and the current time, is stored under that id with its post and author and its time in whole milliseconds, and every other row is untouched; otherwise the store is unchanged |
| CommentController.UpdateComment | Controllers/CommentController.cs:126-145 | 400 exactly for invalid content, then 500 for a failing store, then 404 exactly for an absent id, all with the store unchanged; 204 exactly for valid content of an existing id on a working store, and then only that comment's content changes, to the sent content |
| CommentController.DeleteComment | Controllers/CommentController.cs:149-167 | 404 exactly for an absent id and 500 exactly for a failing store, with the store unchanged; on 204 exactly that row is gone and every other row is untouched |
| CommentController.HandlersKeepWellKeyed | Controllers/CommentController.cs:101-167 | every handler keeps every row stored under its own id with its creation time in whole milliseconds |
| CommentController.CreateThenGet | Controllers/CommentController.cs:105-115 | reading the location a create names gives the created comment with its creation time truncated to the millisecond, less than a millisecond earlier than the response's, and identical when the clock stood on a whole millisecond |
| CommentController.CreateThenDelete | Controllers/CommentController.cs:101-167 | creating under a fresh id and deleting that id restores the store exactly |
| CommentController.UpdateThenGet | Controllers/CommentController.cs:130-138 | after an update, reading the comment gives the old comment with only its content replaced |
| CommentController.UpdateIdempotent | Controllers/CommentController.cs:130-138 | repeating an update changes nothing further and answers the same |
| CommentController.DeleteThenGone | Controllers/CommentController.cs:153-160 | after a delete, reading or deleting the id again answers 404 and changes nothing |
| CommentController.CreateStoresContentVerbatim | Controllers/CommentController.cs:108 | a valid request's content is stored exactly as sent, surrounding white space included |

## Left out

- The Cassandra driver itself is an oracle. Cluster building, CQL parsing,
  network I/O and the driver's own exception types are not modelled.
  Every raising call is a `Fault`.
- The exponential reconnection policy (1000 to 60000 ms) and the
  LOCAL_QUORUM consistency level are kept as settings data only. Their
  effect lies inside the driver.
- `Thread.Sleep` is a logged `Sleep(5000)` event. No clock advances.
- `Guid.NewGuid()` is the parameter `newId` of `CreateComment`.
  `CommentController.CreateComment` does not require the id to be fresh,
  because the insert is an upsert. Freshness is a precondition only of
  `CommentController.CreateThenDelete`.
- `DateTime.UtcNow` is a parameter `now`. `FormatTimeAgo` reads the clock
  once per comment, while the model reads it once per request.
- TimeAgo.Bucket: uses exact integer tick arithmetic where the source
  compares and truncates the floating-point `TotalDays`, `TotalHours` and
  `TotalMinutes`. Rounding very near a bucket edge is not modelled.
- Comments.StoredInstant: rounds down to the millisecond. How the driver
  rounds times before the Unix epoch is not modelled.
- Logging is not modelled, because it has no effect on results.
- CommentController.GetComments, CommentController.GetComment,
  CommentController.CreateComment, CommentController.UpdateComment,
  CommentController.DeleteComment: a store failure is modelled as a
  whole-store `online` flag. A failure of only the write after a
  successful read in update or delete is not modelled separately.
- ASP.NET routing, model binding and the `ProblemDetails` body of a 400
  are reduced to the `Response` datatype and a list of failed checks. For
  example, a `PostId` missing from the body binds to `Guid.Empty` and is
  not rejected. A `Content` or `UserId` missing from the body binds to the
  empty string, its initial value, and is then rejected by `[Required]`.
  Only the top-level create request's content goes through
  `Dtos.BindString`. The other request types take the bound value as given.
- Controllers/HealthController.cs is not part of this model. It is a
  single I/O probe with no logic.
- babbly-comment-service/Data/CommentRepository.cs is not part of this
  model. It passes query strings to a base class that is not available.
- Concurrency between requests and between service instances is not
  modelled. This includes a keyspace created by another instance between
  the metadata lookup and `CREATE KEYSPACE`.
- Resources leaked on failure appear only as the absence of a dispose
  event. These are the temporary session when keyspace creation raises,
  the session of a failed attempt whose table creation raised, and the
  cluster when construction raises.
- CassandraContext.CheckAndCreateKeyspaceIfNeeded: the metadata lookup is
  modelled as never raising. It uses the same name as the `CREATE KEYSPACE`
  it issues. In CQL an unquoted keyspace name is folded to lower case.
  With a configured name that has capitals, the exact-name lookup misses
  the keyspace the statement created, and a second construction's
  `CREATE KEYSPACE` raises. Names are not folded in this model.
- The `catch`/rethrow blocks only log and rethrow. They are modelled as
  the fault propagating unchanged.
