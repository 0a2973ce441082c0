/** The three records of the content store (internal/models/models.go) and the
    values the model substitutes for Go's clock and identifier generator. */
module Models {

  /** A nullable reference, as Go's `*string` for a comment's parent. */
  datatype Option<+T> = None | Some(value: T)

  /** An instant; Go's `time.Time`, whose zero value marks "not set". */
  type Timestamp = nat

  const ZeroTime: Timestamp := 0

  predicate IsZero(t: Timestamp)
  {
    t == ZeroTime
  }

  /** What a call to `time.Now()` yields: some instant that is not the zero time. */
  type ClockReading = t: Timestamp | t != ZeroTime witness 1

  predicate IsLowerHexDigit(c: char)
  {
    ('0' <= c <= '9') || ('a' <= c <= 'f')
  }

  /** The textual form of a UUID: 36 characters, lower-case hexadecimal digits in
      groups of 8, 4, 4, 4 and 12 separated by dashes. */
  predicate IsUuidText(s: string)
  {
    && |s| == 36
    && forall i :: 0 <= i < |s| ==>
         if i == 8 || i == 13 || i == 18 || i == 23 then s[i] == '-' else IsLowerHexDigit(s[i])
  }

  /** What a call to `uuid.NewString()` yields. */
  type GeneratedId = s: string | IsUuidText(s) witness "00000000-0000-0000-0000-000000000000"

  datatype User = User(id: string, username: string)

  datatype Post = Post(
    id: string,
    title: string,
    content: string,
    authorId: string,
    commentsEnabled: bool,
    createdAt: Timestamp)

  /** A comment is a root when `parentId` is `None`, otherwise a reply. */
  datatype Comment = Comment(
    id: string,
    postId: string,
    parentId: Option<string>,
    authorId: string,
    text: string,
    createdAt: Timestamp)
}

/** The error kinds the store and the service report (internal/customerrors/errors.go).
    The human-readable detail attached to each error is not modelled. */
module CustomErrors {

  datatype ErrorKind =
    | NotFound
    | AlreadyExists
    | ParamOutOfRange
    | Validation
    | CommForbidden
    | Forbidden

  /** A value or the kind of error that prevented it. */
  datatype Result<+T> = Ok(value: T) | Err(error: ErrorKind)

  /** The outcome of an operation that returns only an error. */
  datatype Outcome = Pass | Fail(error: ErrorKind)
}
