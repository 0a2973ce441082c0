# OzonTest content store: a verified model of the service and the in-memory backend

OzonTest stores users, posts and threaded comments. Comments are either roots of a
post or replies to another comment on the same post. This project models two parts
of it in Dafny:

- the domain service (`internal/service/service.go`), which trims and validates
  input, fills in identifiers and timestamps, and enforces authorship, the
  same-post rule for replies, the comments-enabled flag and the pagination bounds;
- the in-memory storage backend it hands requests to
  (`internal/repository/inmemory/memory.go`).

Files:

- `models.dfy`: the records `User`, `Post` and `Comment`, and the error kinds
  (`NotFound`, `AlreadyExists`, `ParamOutOfRange`, `Validation`, `CommForbidden`,
  `Forbidden`) with `Result`/`Outcome` wrappers.
- `text.dfy`: Go's `strings.TrimSpace` and Go's `len` on a string.
  - `len` counts UTF-8 bytes; `Utf8Len` computes it.
  - `TrimSpace` uses the white-space set of `unicode.IsSpace`. It is characterised by three lemmas:
    - the result is blank exactly when the input is all white space;
    - the result is the middle piece, and it does not start or end with white space;
    - it is the unique such piece.
- `memory.dfy`: class `MemoryStorage`, with four maps (`usersByID`, `usersByName`,
  `posts`, `comments`) that its methods update in place.
  - The two listing methods loop over a map.
  - Go leaves map iteration order unspecified. The loop picks any remaining key, and the
    result is stated against a ghost `order` that visits every key once.
  - The page is `Window(snapshot, offset, limit)`. For comments, the snapshot is
    first filtered by `Thread`.
- `service.dfy`: class `Service`, holding the store and the two configuration values
  (`MinUsernameLen`, `MaxListLimit`) that it reads.
  - Each method is the source's sequence of guards. Its contract states which error
    each guard yields, in the order the guards are checked, and what the store
    holds afterwards.

The Go methods mutate the caller's record through a pointer: the identifier,
trimmed fields, parent reference and timestamps. The model returns the record as it
is after the call (`u`, `p`, `c`, `updated`). Two outside calls become parameters:

- `uuid.NewString()` becomes `freshId: GeneratedId`, a string in the 36-character textual form of a UUID;
- `time.Now()` becomes a `ClockReading`, a non-zero timestamp.

The service and the store each read the clock, so the service's create methods take
two readings: `now` and `storeNow`.

Both classes carry a `Valid()` invariant that every mutator keeps:

- The store files every record under its own key.
- The service adds thread integrity:
  - every comment is on a stored post;
  - a reply's parent is a stored comment on the same post.
- The service also keeps a ghost depth per comment: zero for a root, and one more
  than its parent for a reply. `AncestorsCloserToRoot` uses it to show that the
  replies form a forest, in which no comment is its own ancestor.

Points where the code behaves differently from what one might expect, which the
model follows as written:

- One might expect a post's author and identifier to be fixed once it is created.
  The code instead forwards the incoming record whole in `UpdatePost`
  (`internal/service/service.go:161`), and the store replaces the stored record
  with it (`internal/repository/inmemory/memory.go:114`). So author, flag and
  timestamp become whatever the caller sent.
- One might expect a post with comments disabled to reject every comment with
  `CommForbidden`. The code instead runs the text, post-identifier and parent
  guards first, and they report their own errors. What does hold is that no
  comment is ever added to such a post (`Service.CreateComment`'s comments-gate
  clause).
- The comment length limit is the constant 2000
  (`internal/service/service.go:18,177`), not a configured value. It counts bytes of
  the untrimmed text, and exceeding it gives `ParamOutOfRange`.
- `GetPostByID` and `GetCommentByID` validate the trimmed identifier but look up
  the raw one (`internal/service/service.go:114,223`), and so does the model.
  `CreateComment` also compares the parent's post with the untrimmed post
  identifier and looks the post up by it. `UpdatePost` looks up the untrimmed post
  identifier and compares the stored author with the untrimmed user identifier.
- `CreateComment` keeps a caller-supplied identifier untrimmed
  (`internal/service/service.go:169`). A comment whose identifier is only white
  space is therefore stored, but `GetCommentByID` rejects that identifier as
  blank. `CreateUser` and `CreatePost` state that the identifier they file under
  is not blank and is its own trimmed form, so the matching lookup finds the new
  record. `CreateComment` states the same for a generated identifier.
- The in-memory listings walk a Go map, whose iteration order changes from one
  `range` to the next (`internal/repository/inmemory/memory.go:77,151`). So the
  pages of two calls are cut from two possibly different orders. Paging over an
  unchanged store with consecutive offsets can return a record twice and miss
  another. Each listing is a window of its own snapshot, and `WindowsConcatenate`
  and `WindowCovers` hold within one snapshot only.

## Model

| member | source | states |
|---|---|---|
| Text.TrimSpaceBlank | internal/service/service.go:173-174 | the trimmed text is empty exactly when every character is white space, so a blank check rejects exactly the all-white-space inputs |
| Text.TrimSpaceEnds | internal/service/service.go:48 | the trimmed text neither starts nor ends with white space and is a contiguous piece of the input with only white space around it |
| Text.TrimSpaceUnique | internal/service/service.go:53 | any non-space-bounded text wrapped in white space trims back to itself, so trimming is determined by its specification |
| Text.TrimSpaceIdempotent | internal/service/service.go:75-81 | trimming an already trimmed field changes nothing |
| Text.TrimLeftSpec | internal/service/service.go:62 | left trimming drops exactly the leading white space and keeps a suffix starting at a non-space character |
| Text.TrimRightSpec | internal/service/service.go:62 | right trimming drops exactly the trailing white space and keeps a prefix ending at a non-space character |
| Text.TrimLeftSkipsSpace | internal/service/service.go:187 | leading white space added to a text does not change what left trimming leaves |
| Text.TrimRightSkipsSpace | internal/service/service.go:187 | trailing white space added to a text does not change what right trimming leaves |
| Text.RuneLen | internal/service/service.go:177 | one character takes one to four bytes, and exactly one when it is ASCII |
| Text.Utf8Len | internal/service/service.go:54 | a string's byte length lies between its character count and four times that |
| Text.Utf8LenAscii | internal/service/service.go:177 | the byte length equals the character count exactly when the text is ASCII |
| InMemory.EnumerationLength | internal/repository/inmemory/memory.go:76-79 | an enumeration of a map visits exactly as many keys as the map holds, so a snapshot is as long as the store |
| InMemory.ValuesAt | internal/repository/inmemory/memory.go:76-79 | the snapshot has one entry per visited key, holding that key's stored record |
| InMemory.SnapshotHoldsStoredValues | internal/repository/inmemory/memory.go:77-79 | a snapshot along an enumeration of the map holds exactly the stored records |
| InMemory.SnapshotDistinct | internal/repository/inmemory/memory.go:77-79 | when records under different keys differ, the snapshot lists no record twice |
| InMemory.Thread | internal/repository/inmemory/memory.go:150-160 | the filtered list keeps exactly the comments on the post whose parent reference equals the one asked for (none for roots) |
| InMemory.ThreadKeepsDistinct | internal/repository/inmemory/memory.go:151-160 | filtering a list without repeats yields a list without repeats |
| InMemory.Window | internal/repository/inmemory/memory.go:81-89 | a page is empty exactly when the offset is past the end, is at most `limit` long, is full when enough elements remain, and holds the elements from `offset` onwards in order |
| InMemory.WindowDistinct | internal/repository/inmemory/memory.go:162-170 | a page cut from a list without repeats has no repeats |
| InMemory.WindowsConcatenate | internal/repository/inmemory/memory.go:85-89 | within one snapshot, two consecutive pages joined are the page spanning both, so paging that one snapshot neither skips nor repeats |
| InMemory.WindowCovers | internal/repository/inmemory/memory.go:81-89 | within one snapshot, paging from offset 0 with a fixed limit reaches every element |
| InMemory.MemoryStorage.constructor | internal/repository/inmemory/memory.go:22-29 | a new store has four empty maps and satisfies the store invariant |
| InMemory.MemoryStorage.CreateUser | internal/repository/inmemory/memory.go:32-43 | AlreadyExists exactly when the username is taken, leaving both user maps unchanged; otherwise the user is filed under its identifier and its username and nothing else changes |
| InMemory.MemoryStorage.GetUserByID | internal/repository/inmemory/memory.go:45-54 | returns the stored user exactly when the identifier is a key, NotFound otherwise |
| InMemory.MemoryStorage.GetPostByID | internal/repository/inmemory/memory.go:56-65 | returns the stored post exactly when the identifier is a key, NotFound otherwise |
| InMemory.MemoryStorage.ListPosts | internal/repository/inmemory/memory.go:68-90 | ParamOutOfRange exactly when offset < 0 or limit <= 0; otherwise the page of a snapshot of all stored posts: empty exactly when offset >= the number n of stored posts, `limit` long when offset + limit <= n, n - offset long otherwise, every element stored, no post twice |
| InMemory.MemoryStorage.CreatePost | internal/repository/inmemory/memory.go:92-103 | AlreadyExists exactly when the identifier is a key, with no change; otherwise the post is stamped with the clock and added under its key, nothing else changing |
| InMemory.MemoryStorage.UpdatePost | internal/repository/inmemory/memory.go:106-116 | NotFound exactly when the identifier is not a key, with no change; otherwise the whole record at that key is replaced by the argument and the key set stays the same |
| InMemory.MemoryStorage.CreateComment | internal/repository/inmemory/memory.go:118-129 | AlreadyExists exactly when the identifier is a key, with no change; otherwise the comment is stamped with the clock and added under its key, nothing else changing |
| InMemory.MemoryStorage.GetCommentByID | internal/repository/inmemory/memory.go:131-140 | returns the stored comment exactly when the identifier is a key, NotFound otherwise |
| InMemory.MemoryStorage.ListCommentsByPost | internal/repository/inmemory/memory.go:142-171 | ParamOutOfRange exactly when offset < 0 or limit <= 0; otherwise the page of the thread-filtered snapshot: every element stored, on the post, with the requested parent, no comment twice |
| InMemory.MemoryStorage.Close | internal/repository/inmemory/memory.go:174-176 | always succeeds and changes nothing |
| DomainService.NormalizedParent | internal/service/service.go:198 | the passed-on parent reference is absent exactly when none was given |
| DomainService.GeneratedIdIsTrimmed | internal/service/service.go:49-51 | a generated identifier has no white space: trimming leaves it unchanged and it is never blank |
| DomainService.AncestorsCloserToRoot | internal/service/service.go:186-199 | under thread integrity, following parent references stays among stored comments on the same post and each step lowers the depth by one, so no comment is its own ancestor |
| DomainService.AddCommentKeepsIntegrity | internal/service/service.go:186-207 | adding a comment whose post is stored and whose parent is a stored comment on the same post keeps thread integrity |
| DomainService.AddCommentKeepsDepths | internal/service/service.go:186-199 | a new comment placed one level below its parent (or at level zero as a root) keeps the depth assignment consistent |
| DomainService.MorePostsKeepIntegrity | internal/service/service.go:105 | storing or replacing a post removes no post, so thread integrity is kept |
| DomainService.Service.constructor | internal/service/service.go:39-41 | the service holds the given store and configuration values and starts valid |
| DomainService.Service.CreateUser | internal/service/service.go:43-59 | the identifier is trimmed, or freshly generated when blank, and the username is trimmed; the identifier filed under is never blank and is its own trimmed form, so GetUserByID finds it; Validation exactly when the username's byte length is below the minimum, AlreadyExists exactly when it is long enough but taken, success otherwise; on failure the user maps are unchanged, on success both hold the user |
| DomainService.Service.GetUserByID | internal/service/service.go:61-68 | Validation exactly when the identifier is blank; otherwise the store's answer for the trimmed identifier |
| DomainService.Service.CreatePost | internal/service/service.go:71-106 | identifier trimmed or generated, never blank and its own trimmed form, so GetPostByID finds it; title and content trimmed; Validation exactly when title, content or author is blank, NotFound exactly when the author is not a stored user, AlreadyExists exactly when the identifier is taken, success exactly when none of these holds; posts unchanged on failure, extended by exactly the stamped post on success |
| DomainService.Service.GetPostByID | internal/service/service.go:108-123 | Validation exactly when the identifier is blank; otherwise the stored post under the raw identifier, NotFound when absent |
| DomainService.Service.ListPosts | internal/service/service.go:125-131 | ParamOutOfRange exactly when offset < 0, limit <= 0 or limit > MaxListLimit; otherwise the store's page: empty exactly when offset >= the number n of stored posts, `limit` long when offset + limit <= n, n - offset long otherwise |
| DomainService.Service.UpdatePost | internal/service/service.go:133-162 | Validation exactly when post identifier, user identifier, title or content is blank; NotFound exactly when the post is not stored; Forbidden exactly when the stored author differs from the user; on every failure posts are unchanged, on success the record is replaced by the incoming one |
| DomainService.Service.CreateComment | internal/service/service.go:165-214 | a missing identifier is generated, and a generated one is never blank; the guards in order: blank text Validation, more than 2000 bytes ParamOutOfRange, blank post Validation, parent errors, absent post NotFound, comments disabled CommForbidden, identifier taken AlreadyExists; no comment is ever added to a post with comments disabled; comments unchanged on failure, extended by exactly the comment with trimmed parent on success; thread integrity and depths kept |
| DomainService.Service.AddComment | internal/service/service.go:209-213 | storing a checked comment keeps thread integrity and the depth invariant, and adds exactly that comment |
| DomainService.Service.ResolveParent | internal/service/service.go:186-199 | an absent parent passes; otherwise Validation when the trimmed parent is blank or on another post, NotFound when it is not stored, and on success the trimmed reference |
| DomainService.Service.GetCommentByID | internal/service/service.go:216-224 | Validation exactly when the identifier is blank; otherwise the stored comment under the raw identifier, NotFound when absent |
| DomainService.Service.ListCommentsByPost | internal/service/service.go:226-259 | the guards in order: blank post Validation, bad pagination ParamOutOfRange, absent post NotFound, parent errors; success exactly when all pass, returning the page of the trimmed post's thread at the trimmed parent, every element stored, on that post, with that parent |

## Left out

- Locking: the `sync.RWMutex` of the in-memory store is not modelled. Each store method is one atomic step, so interleavings between concurrent calls are not modelled.
- Aliasing: the Go store keeps the caller's pointer, so later changes to the caller's record would show in the store. The model stores values.
- nil guards: the checks for a nil user, post or comment pointer (`internal/service/service.go:44,72,134,166`) are not modelled, because records here are values and always exist.
- Error text: the detail strings attached to errors are left out. Only the error kind is modelled.
- Wall-clock values: `time.Now().UTC()` and `uuid.NewString()` are parameters, so their actual values are not modelled.
- Map order: the Go runtime's map iteration order is not modelled. Listings are stated for every possible enumeration order, a fresh one on each call. Nothing is promised about the order of records across pages of separate calls, because the code promises nothing either.
- Invalid UTF-8: Go strings may hold invalid UTF-8, but the model's strings are sequences of Unicode scalar values, so `Utf8Len` assumes valid text.
- Other backend: the persistent (PostgreSQL) backend, the HTTP and GraphQL handlers, configuration loading, the process bootstrap and shutdown are not part of this model.
- Configuration: the configured maximum comment length is not modelled, because the service never reads it.
