/** `CommentController`: the HTTP handlers of `api/comments` over the
    `comments` table. The table is a map from id to comment; a handler is a
    transition of that map together with the response it sends. The driver's
    fetch order, `Guid.NewGuid()` and `DateTime.UtcNow` are parameters. */
module CommentController {
  import opened Wrappers
  import opened Comments
  import opened Dtos
  import opened TimeAgo

  /** The rows of the `comments` table by primary key, and whether the
      cluster answers: when it does not, every driver call raises and the
      handler's catch-all answers 500. */
  datatype Store = Store(rows: map<Guid, Comment>, online: bool)

  /** Every row is stored under its own id, as the primary key column makes it. */
  ghost predicate WellKeyed(s: Store) {
    forall k :: k in s.rows ==> s.rows[k].id == k
  }

  /** Every row holds its creation time as the `timestamp` column keeps it. */
  ghost predicate WholeMilliseconds(s: Store) {
    forall k :: k in s.rows ==> s.rows[k].createdAt % TicksPerMillisecond == 0
  }

  /** The comment returned by the listing endpoints: the stored fields and a
      rendering of the comment's age. */
  datatype CommentDto = CommentDto(
    id: Guid,
    content: string,
    postId: Guid,
    userId: string,
    createdAt: Instant,
    timeAgo: string)

  /** The action results the handlers produce. `Created` is
      `CreatedAtAction(GetComment, id)`; `ServerError` is the 500 of every
      handler's catch-all. */
  datatype Response<T> =
    | Ok(value: T)
    | Created(location: Guid, value: T)
    | NoContent
    | NotFound
    | BadRequest(errors: seq<ValidationError>)
    | ServerError

  /** The store after a request and the response sent. */
  datatype Handled<T> = Handled(store: Store, response: Response<T>)

  // --------------------------------------------------------------- queries

  /** The row filters of the listing endpoints: none, `WHERE post_id = ?`,
      `WHERE user_id = ?`. */
  datatype Query = All | ByPost(postId: Guid) | ByUser(userId: string)

  predicate Matches(q: Query, c: Comment) {
    match q
    case All => true
    case ByPost(p) => c.postId == p
    case ByUser(u) => c.userId == u
  }

  predicate NoDuplicates(keys: seq<Guid>) {
    forall i, j :: 0 <= i < j < |keys| ==> keys[i] != keys[j]
  }

  /** `order` lists every key of `rows` once: the order the driver returns
      rows in, which the handlers pass on unchanged. */
  predicate Enumerates(order: seq<Guid>, rows: map<Guid, Comment>) {
    && NoDuplicates(order)
    && (forall k :: k in order ==> k in rows)
    && (forall k :: k in rows ==> k in order)
  }

  /** The keys, in fetch order, of the rows a query selects. */
  function Select(rows: map<Guid, Comment>, order: seq<Guid>, q: Query): (keys: seq<Guid>)
    requires forall k :: k in order ==> k in rows
    ensures forall k :: k in keys <==> k in order && Matches(q, rows[k])
    ensures NoDuplicates(order) ==> NoDuplicates(keys)
  {
    if |order| == 0 then []
    else
      var rest := Select(rows, order[1..], q);
      assert forall k :: k in order[1..] ==> k in order;
      assert forall k :: k in order ==> k == order[0] || k in order[1..];
      if Matches(q, rows[order[0]]) then
        assert NoDuplicates(order) ==> order[0] !in order[1..];
        [order[0]] + rest
      else rest
  }

  /** The stored comments under `keys`, in that order. */
  function RowsAt(rows: map<Guid, Comment>, keys: seq<Guid>): (cs: seq<Comment>)
    requires forall k :: k in keys ==> k in rows
    ensures |cs| == |keys| && forall i :: 0 <= i < |keys| ==> cs[i] == rows[keys[i]]
  {
    seq(|keys|, i requires 0 <= i < |keys| => rows[keys[i]])
  }

  /** `MapCommentToDto`, with the clock read at `now`. */
  function MapCommentToDto(c: Comment, now: Instant): CommentDto {
    CommentDto(c.id, c.content, c.postId, c.userId, c.createdAt, FormatTimeAgo(now, c.createdAt))
  }

  /** The stored comment a DTO shows. */
  function DtoComment(d: CommentDto): Comment {
    Comment(d.id, d.content, d.postId, d.userId, d.createdAt)
  }

  /** `MapCommentToDto` copies all five stored fields unchanged and adds the
      age of the comment. */
  lemma MapCommentToDtoKeepsFields(c: Comment, now: Instant)
    ensures DtoComment(MapCommentToDto(c, now)) == c
    ensures MapCommentToDto(c, now).timeAgo == FormatTimeAgo(now, c.createdAt)
  {
  }

  function ToDtos(cs: seq<Comment>, now: Instant): (ds: seq<CommentDto>)
    ensures |ds| == |cs| && forall i :: 0 <= i < |cs| ==> ds[i] == MapCommentToDto(cs[i], now)
  {
    seq(|cs|, i requires 0 <= i < |cs| => MapCommentToDto(cs[i], now))
  }

  // --------------------------------------------------------------- handlers

  /** `GET api/comments`: every stored comment, in fetch order. */
  function GetComments(s: Store, order: seq<Guid>): (r: Response<seq<Comment>>)
    requires Enumerates(order, s.rows)
    ensures !s.online <==> r == ServerError
    ensures s.online ==> r.Ok? && forall c :: c in r.value <==> exists k :: k in s.rows && s.rows[k] == c
  {
    if !s.online then ServerError
    else
      var cs := RowsAt(s.rows, Select(s.rows, order, All));
      assert forall k :: k in s.rows ==> s.rows[k] in cs by {
        forall k | k in s.rows ensures s.rows[k] in cs {
          var keys := Select(s.rows, order, All);
          var i :| 0 <= i < |keys| && keys[i] == k;
          assert cs[i] == s.rows[k];
        }
      }
      Ok(cs)
  }

  /** `GET api/comments/{id}`: the stored comment, or 404 when there is none. */
  function GetComment(s: Store, id: Guid): (r: Response<Comment>)
    ensures r == ServerError <==> !s.online
    ensures r == NotFound <==> s.online && id !in s.rows
    ensures r.Ok? <==> s.online && id in s.rows
    ensures r.Ok? ==> r.value == s.rows[id]
  {
    if !s.online then ServerError
    else if id !in s.rows then NotFound
    else Ok(s.rows[id])
  }

  /** The listing endpoints: the rows a query selects, in fetch order, each
      mapped to its DTO. */
  function Listing(s: Store, order: seq<Guid>, q: Query, now: Instant): (r: Response<seq<CommentDto>>)
    requires Enumerates(order, s.rows)
  {
    if !s.online then ServerError
    else Ok(ToDtos(RowsAt(s.rows, Select(s.rows, order, q)), now))
  }

  /** `GET api/comments/post/{postId}`. */
  function GetCommentsByPost(s: Store, order: seq<Guid>, postId: Guid, now: Instant): Response<seq<CommentDto>>
    requires Enumerates(order, s.rows)
  {
    Listing(s, order, ByPost(postId), now)
  }

  /** `GET api/comments/user/{userId}`. */
  function GetCommentsByUser(s: Store, order: seq<Guid>, userId: string, now: Instant): Response<seq<CommentDto>>
    requires Enumerates(order, s.rows)
  {
    Listing(s, order, ByUser(userId), now)
  }

  /** A listing holds exactly the DTOs of the stored comments the query
      selects: no stored match is missing and nothing else appears. */
  lemma ListingExact(s: Store, order: seq<Guid>, q: Query, now: Instant)
    requires Enumerates(order, s.rows) && s.online
    ensures var r := Listing(s, order, q, now);
      && r.Ok?
      && (forall d :: d in r.value <==>
            exists k :: k in s.rows && Matches(q, s.rows[k]) && d == MapCommentToDto(s.rows[k], now))
  {
    var keys := Select(s.rows, order, q);
    var ds := Listing(s, order, q, now).value;
    forall d ensures d in ds <==>
      exists k :: k in s.rows && Matches(q, s.rows[k]) && d == MapCommentToDto(s.rows[k], now)
    {
      if d in ds {
        var i :| 0 <= i < |ds| && ds[i] == d;
        assert d == MapCommentToDto(s.rows[keys[i]], now);
      }
      if exists k :: k in s.rows && Matches(q, s.rows[k]) && d == MapCommentToDto(s.rows[k], now) {
        var k :| k in s.rows && Matches(q, s.rows[k]) && d == MapCommentToDto(s.rows[k], now);
        var i :| 0 <= i < |keys| && keys[i] == k;
        assert ds[i] == d;
      }
    }
  }

  /** No comment appears twice in a listing. */
  lemma ListingDistinct(s: Store, order: seq<Guid>, q: Query, now: Instant)
    requires Enumerates(order, s.rows) && WellKeyed(s) && s.online
    ensures var r := Listing(s, order, q, now);
      r.Ok? && forall i, j :: 0 <= i < j < |r.value| ==> r.value[i].id != r.value[j].id
  {
    var keys := Select(s.rows, order, q);
    var ds := Listing(s, order, q, now).value;
    forall i, j | 0 <= i < j < |ds| ensures ds[i].id != ds[j].id {
      assert ds[i].id == keys[i] && ds[j].id == keys[j];
    }
  }

  /** `GET api/comments/post/{postId}` lists exactly the comments of that post. */
  lemma ByPostExact(s: Store, order: seq<Guid>, postId: Guid, now: Instant)
    requires Enumerates(order, s.rows) && s.online
    ensures var r := GetCommentsByPost(s, order, postId, now);
      && r.Ok?
      && forall d :: d in r.value <==> exists k :: k in s.rows && s.rows[k].postId == postId && d == MapCommentToDto(s.rows[k], now)
  {
    ListingExact(s, order, ByPost(postId), now);
  }

  /** `GET api/comments/user/{userId}` lists exactly the comments of that author. */
  lemma ByUserExact(s: Store, order: seq<Guid>, userId: string, now: Instant)
    requires Enumerates(order, s.rows) && s.online
    ensures var r := GetCommentsByUser(s, order, userId, now);
      && r.Ok?
      && forall d :: d in r.value <==> exists k :: k in s.rows && s.rows[k].userId == userId && d == MapCommentToDto(s.rows[k], now)
  {
    ListingExact(s, order, ByUser(userId), now);
  }

  /** `POST api/comments`. A request that fails validation is answered 400
      before the action runs. Otherwise a comment is built from the request
      under `newId` (what `Guid.NewGuid()` returned) at time `now`, and
      inserted; as a Cassandra insert is an upsert, an id already present
      would be overwritten. The row keeps the creation time in whole
      milliseconds, while the response carries the comment as built. */
  function CreateComment(s: Store, dto: CreateCommentWithAuthorDto, newId: Guid, now: Instant): (h: Handled<Comment>)
    ensures h.response.BadRequest? <==> !ValidCreateWithAuthor(dto)
    ensures h.response.BadRequest? ==> h.response.errors == CreateWithAuthorErrors(dto)
    ensures h.response == ServerError <==> ValidCreateWithAuthor(dto) && !s.online
    ensures h.response.Created? <==> ValidCreateWithAuthor(dto) && s.online
    ensures !h.response.Created? ==> h.store == s
    ensures h.response.Created? ==>
      var c := h.response.value;
      && h.response.location == newId == c.id
      && dto.content == Some(c.content) && c.postId == dto.postId && dto.userId == Some(c.userId)
      && c.createdAt == now
      && newId in h.store.rows && h.store.rows[newId] == Persisted(c)
      && h.store.rows[newId].postId == dto.postId && Some(h.store.rows[newId].userId) == dto.userId
      && h.store.online == s.online
      && (forall k :: k != newId ==> (k in h.store.rows <==> k in s.rows))
      && (forall k :: k != newId && k in s.rows ==> h.store.rows[k] == s.rows[k])
  {
    if !ValidCreateWithAuthor(dto) then Handled(s, BadRequest(CreateWithAuthorErrors(dto)))
    else if !s.online then Handled(s, ServerError)
    else
      var c := Comment(newId, dto.content.value, dto.postId, dto.userId.value, now);
      Handled(s.(rows := s.rows[newId := Persisted(c)]), Created(newId, c))
  }

  /** `PUT api/comments/{id}`: validation first, then 404 when the comment
      does not exist, otherwise its content is replaced and 204 sent. The
      row is written back as it was read, so its other columns keep their
      stored values. */
  function UpdateComment(s: Store, id: Guid, dto: UpdateCommentDto): (h: Handled<()>)
    ensures h.response.BadRequest? <==> !ValidUpdate(dto)
    ensures h.response == NotFound <==> ValidUpdate(dto) && s.online && id !in s.rows
    ensures h.response == ServerError <==> ValidUpdate(dto) && !s.online
    ensures h.response == NoContent <==> ValidUpdate(dto) && s.online && id in s.rows
    ensures h.response != NoContent ==> h.store == s
    ensures h.response == NoContent ==>
      && id in s.rows && id in h.store.rows
      && h.store.rows[id].content == dto.content.value
      && h.store.rows[id].id == s.rows[id].id
      && h.store.rows[id].postId == s.rows[id].postId
      && h.store.rows[id].userId == s.rows[id].userId
      && h.store.rows[id].createdAt == s.rows[id].createdAt
      && h.store.online == s.online
      && h.store.rows.Keys == s.rows.Keys
      && (forall k :: k in s.rows && k != id ==> h.store.rows[k] == s.rows[k])
  {
    if !ValidUpdate(dto) then Handled(s, BadRequest(UpdateErrors(dto)))
    else if !s.online then Handled(s, ServerError)
    else if id !in s.rows then Handled(s, NotFound)
    else Handled(s.(rows := s.rows[id := s.rows[id].(content := dto.content.value)]), NoContent)
  }

  /** `DELETE api/comments/{id}`: 404 when the comment does not exist,
      otherwise that one row is removed and 204 sent. */
  function DeleteComment(s: Store, id: Guid): (h: Handled<()>)
    ensures h.response == ServerError <==> !s.online
    ensures h.response == NotFound <==> s.online && id !in s.rows
    ensures h.response == NoContent <==> s.online && id in s.rows
    ensures h.response != NoContent ==> h.store == s
    ensures h.response == NoContent ==>
      && id !in h.store.rows
      && h.store.online == s.online
      && (forall k :: k != id ==> (k in h.store.rows <==> k in s.rows))
      && (forall k :: k in h.store.rows ==> h.store.rows[k] == s.rows[k])
  {
    if !s.online then Handled(s, ServerError)
    else if id !in s.rows then Handled(s, NotFound)
    else Handled(s.(rows := s.rows - {id}), NoContent)
  }

  // ------------------------------------------------------------- properties

  /** Every handler keeps every row under its own id, with its creation
      time in whole milliseconds. */
  lemma HandlersKeepWellKeyed(s: Store, dto: CreateCommentWithAuthorDto, update: UpdateCommentDto,
                              id: Guid, newId: Guid, now: Instant)
    requires WellKeyed(s) && WholeMilliseconds(s)
    ensures WellKeyed(CreateComment(s, dto, newId, now).store)
    ensures WellKeyed(UpdateComment(s, id, update).store)
    ensures WellKeyed(DeleteComment(s, id).store)
    ensures WholeMilliseconds(CreateComment(s, dto, newId, now).store)
    ensures WholeMilliseconds(UpdateComment(s, id, update).store)
    ensures WholeMilliseconds(DeleteComment(s, id).store)
  {
  }

  /** A created comment is found under the location the response names: the
      comment of the response, with its creation time read back in whole
      milliseconds, less than a millisecond earlier than the one the response
      carries, and equal to it when the clock stood on a whole millisecond. */
  lemma CreateThenGet(s: Store, dto: CreateCommentWithAuthorDto, newId: Guid, now: Instant)
    ensures var h := CreateComment(s, dto, newId, now);
      h.response.Created? ==>
        && GetComment(h.store, h.response.location) == Ok(h.response.value.(createdAt := StoredInstant(now)))
        && now - TicksPerMillisecond < StoredInstant(now) <= now
        && (now % TicksPerMillisecond == 0 ==> GetComment(h.store, h.response.location) == Ok(h.response.value))
  {
  }

  /** With a fresh id, creating and then deleting the new comment restores
      the store exactly: the comments that existed before are untouched. */
  lemma CreateThenDelete(s: Store, dto: CreateCommentWithAuthorDto, newId: Guid, now: Instant)
    requires newId !in s.rows
    ensures var h := CreateComment(s, dto, newId, now);
      h.response.Created? ==> DeleteComment(h.store, newId) == Handled(s, NoContent)
  {
    var h := CreateComment(s, dto, newId, now);
    if h.response.Created? {
      assert h.store.rows - {newId} == s.rows;
    }
  }

  /** After an update, reading the comment gives the stored comment with only
      its content replaced. */
  lemma UpdateThenGet(s: Store, id: Guid, dto: UpdateCommentDto)
    ensures var h := UpdateComment(s, id, dto);
      h.response == NoContent ==>
        GetComment(h.store, id) == Ok(s.rows[id].(content := dto.content.value))
  {
  }

  /** Repeating an update changes nothing more: PUT is idempotent. */
  lemma UpdateIdempotent(s: Store, id: Guid, dto: UpdateCommentDto)
    ensures var h := UpdateComment(s, id, dto);
      h.response == NoContent ==> UpdateComment(h.store, id, dto) == h
  {
  }

  /** A deleted comment is gone: reading it or deleting it again answers 404
      and changes nothing. */
  lemma DeleteThenGone(s: Store, id: Guid)
    ensures var h := DeleteComment(s, id);
      h.response == NoContent ==>
        && GetComment(h.store, id) == NotFound
        && DeleteComment(h.store, id) == Handled(h.store, NotFound)
  {
  }

  /** Content is stored exactly as sent: a valid request whose content has
      surrounding white space keeps it. */
  lemma CreateStoresContentVerbatim(s: Store, dto: CreateCommentWithAuthorDto, newId: Guid, now: Instant)
    requires ValidCreateWithAuthor(dto) && s.online
    ensures CreateComment(s, dto, newId, now).store.rows[newId].content == dto.content.value
  {
  }
}
