/** The request bodies of the comment endpoints and the data-annotation
    checks ASP.NET applies to them before an action runs. A string property
    is `None` when the request sets it to `null`; one the request leaves out
    keeps its initial value, the empty string. */
module Dtos {
  import opened Wrappers
  import opened Strings
  import opened Comments

  /** The bounds of `[StringLength(500, MinimumLength = 1)]` on `Content`. */
  const MaxContentLength: nat := 500
  const MinContentLength: nat := 1

  /** `[Required]` on a string: neither null, nor empty, nor white space only
      (empty strings are not allowed by default). */
  predicate Required(s: Option<string>) {
    !IsNullOrWhiteSpace(s)
  }

  /** `[StringLength(max, MinimumLength = min)]`: a null value passes; a
      string passes when its length in UTF-16 code units is within bounds. */
  predicate StringLength(s: Option<string>, max: nat, min: nat) {
    s.None? || min <= Utf16Length(s.value) <= max
  }

  /** A string property of a JSON request body as sent. */
  datatype JsonString = Absent | JsonNull | Present(text: string)

  /** The value a string property initialised to `string.Empty` holds after
      binding: the initial value when the request leaves it out, null when
      the request sends `null`, and the text otherwise. */
  function BindString(j: JsonString): (r: Option<string>)
    ensures r.None? <==> j.JsonNull?
    ensures j.Absent? ==> r == Some("")
    ensures j.Present? ==> r == Some(j.text)
  {
    match j
    case Absent => Some("")
    case JsonNull => None
    case Present(text) => Some(text)
  }

  /** The create request of the service's top-level `DTOs` folder. `PostId`
      is a `Guid`, a value type, so its `[Required]` always holds. */
  datatype CreateCommentDto = CreateCommentDto(content: Option<string>, postId: Guid)

  /** The create request the controller binds: it also carries the author,
      and its content has no length bound. */
  datatype CreateCommentWithAuthorDto = CreateCommentWithAuthorDto(
    content: Option<string>,
    postId: Guid,
    userId: Option<string>)

  datatype UpdateCommentDto = UpdateCommentDto(content: Option<string>)

  /** A failed data-annotation check, by property and attribute. */
  datatype ValidationError = ContentRequired | ContentLength | UserIdRequired

  /** The checks of `CreateCommentDto.Content`, each reported separately: an
      empty string fails both `[Required]` and the minimum length, a null
      fails only `[Required]`. */
  function CreateErrors(dto: CreateCommentDto): (errors: seq<ValidationError>)
    ensures ContentRequired in errors <==> IsNullOrWhiteSpace(dto.content)
    ensures ContentLength in errors <==>
      dto.content.Some? && !(MinContentLength <= Utf16Length(dto.content.value) <= MaxContentLength)
    ensures UserIdRequired !in errors
  {
    (if Required(dto.content) then [] else [ContentRequired])
    + (if StringLength(dto.content, MaxContentLength, MinContentLength) then [] else [ContentLength])
  }

  /** The checks of the author-carrying create request. */
  function CreateWithAuthorErrors(dto: CreateCommentWithAuthorDto): (errors: seq<ValidationError>)
    ensures ContentRequired in errors <==> IsNullOrWhiteSpace(dto.content)
    ensures UserIdRequired in errors <==> IsNullOrWhiteSpace(dto.userId)
    ensures ContentLength !in errors
  {
    (if Required(dto.content) then [] else [ContentRequired])
    + (if Required(dto.userId) then [] else [UserIdRequired])
  }

  /** The checks of the update request. */
  function UpdateErrors(dto: UpdateCommentDto): (errors: seq<ValidationError>)
    ensures ContentRequired in errors <==> IsNullOrWhiteSpace(dto.content)
    ensures ContentLength !in errors && UserIdRequired !in errors
  {
    if Required(dto.content) then [] else [ContentRequired]
  }

  /** A request is accepted when no check fails. */
  predicate ValidCreate(dto: CreateCommentDto) {
    |CreateErrors(dto)| == 0
  }

  predicate ValidCreateWithAuthor(dto: CreateCommentWithAuthorDto) {
    |CreateWithAuthorErrors(dto)| == 0
  }

  predicate ValidUpdate(dto: UpdateCommentDto) {
    |UpdateErrors(dto)| == 0
  }

  /** The text of a non-null string that is not white space only. */
  predicate HasVisibleChar(s: string) {
    exists i :: 0 <= i < |s| && !IsWhiteSpace(s[i])
  }

  /** A create request is accepted exactly when its content is present, has
      a character that is not white space, and is 1 to 500 UTF-16 code units
      long. */
  lemma ValidCreateIff(dto: CreateCommentDto)
    ensures ValidCreate(dto) <==>
      && dto.content.Some?
      && HasVisibleChar(dto.content.value)
      && 1 <= Utf16Length(dto.content.value) <= 500
  {
    if dto.content.Some? && !HasVisibleChar(dto.content.value) {
      assert AllWhiteSpace(dto.content.value);
      assert ContentRequired in CreateErrors(dto);
    }
    if ValidCreate(dto) {
      assert !IsNullOrWhiteSpace(dto.content);
    }
  }

  /** An empty content is rejected, by both checks. */
  lemma EmptyContentRejected(postId: Guid)
    ensures CreateErrors(CreateCommentDto(Some(""), postId)) == [ContentRequired, ContentLength]
  {
  }

  /** A content left out of the request binds to the empty string and is
      rejected by both checks. */
  lemma AbsentContentRejected(postId: Guid)
    ensures CreateErrors(CreateCommentDto(BindString(Absent), postId)) == [ContentRequired, ContentLength]
  {
    EmptyContentRejected(postId);
  }

  /** A null content is rejected by `[Required]` alone: `[StringLength]`
      lets null through. */
  lemma NullContentRejected(postId: Guid)
    ensures CreateErrors(CreateCommentDto(BindString(JsonNull), postId)) == [ContentRequired]
  {
  }

  /** A content longer than 500 code units is rejected, whatever it holds. */
  lemma OverlongContentRejected(dto: CreateCommentDto)
    requires dto.content.Some? && Utf16Length(dto.content.value) > 500
    ensures !ValidCreate(dto) && ContentLength in CreateErrors(dto)
  {
  }

  /** White space only content is rejected even when its length is within
      bounds: `[Required]` alone refuses it. */
  lemma WhiteSpaceContentRejected(dto: CreateCommentDto)
    requires dto.content.Some? && 1 <= Utf16Length(dto.content.value) <= 500
    requires forall i :: 0 <= i < |dto.content.value| ==> IsWhiteSpace(dto.content.value[i])
    ensures CreateErrors(dto) == [ContentRequired]
  {
  }

  /** Any content of 1 to 500 characters, none outside the Basic Multilingual
      Plane, with one character that is not white space, is accepted. */
  lemma PlainContentAccepted(dto: CreateCommentDto)
    requires dto.content.Some? && 1 <= |dto.content.value| <= 500
    requires forall i :: 0 <= i < |dto.content.value| ==> dto.content.value[i] as int <= 0xFFFF
    requires HasVisibleChar(dto.content.value)
    ensures ValidCreate(dto)
  {
    ValidCreateIff(dto);
  }

  /** The author-carrying request has no length bound: a 501-character
      content that the top-level request refuses is accepted. */
  lemma AuthorRequestHasNoLengthBound(content: string, postId: Guid, userId: string)
    requires Utf16Length(content) > 500 && HasVisibleChar(content)
    requires HasVisibleChar(userId)
    ensures ValidCreateWithAuthor(CreateCommentWithAuthorDto(Some(content), postId, Some(userId)))
    ensures !ValidCreate(CreateCommentDto(Some(content), postId))
  {
  }

  /** The author-carrying request is accepted exactly when both the content
      and the author have a character that is not white space. */
  lemma ValidCreateWithAuthorIff(dto: CreateCommentWithAuthorDto)
    ensures ValidCreateWithAuthor(dto) <==>
      && dto.content.Some? && HasVisibleChar(dto.content.value)
      && dto.userId.Some? && HasVisibleChar(dto.userId.value)
  {
  }

  /** The update request is accepted exactly when its content has a character
      that is not white space; it has no length bound. */
  lemma ValidUpdateIff(dto: UpdateCommentDto)
    ensures ValidUpdate(dto) <==> dto.content.Some? && HasVisibleChar(dto.content.value)
  {
  }
}
