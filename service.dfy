/** The domain service (internal/service/service.go): trims and validates input,
    fills in identifiers and timestamps, enforces authorship, the same-post rule for
    replies and the comments-enabled flag, checks pagination bounds, and then hands
    the request to the store. It holds the in-memory store directly. */
module DomainService {
  import opened Models
  import opened CustomErrors
  import opened Text
  import opened InMemory

  /** The fixed bound on a comment's length in bytes; the configured maximum is not
      consulted. */
  const MaxCommentLength: nat := 2000

  /** Blank after `strings.TrimSpace`. */
  predicate Blank(s: string)
  {
    TrimSpace(s) == []
  }

  /** The pagination bounds: offset >= 0 and 0 < limit <= the configured maximum. */
  predicate PageInRange(offset: int, limit: int, maxListLimit: int)
  {
    0 <= offset && 0 < limit <= maxListLimit
  }

  /** The parent reference with its identifier trimmed, as it is passed on. */
  function NormalizedParent(parentId: Option<string>): (r: Option<string>)
    ensures r.None? <==> parentId.None?
  {
    match parentId
    case None => None
    case Some(p) => Some(TrimSpace(p))
  }

  /** A parent reference is acceptable for a comment (or a listing) on `postId`:
      there is none, or its trimmed form names a stored comment on that post. */
  predicate ParentOnPost(parentId: Option<string>, postId: string, comments: map<string, Comment>)
  {
    match parentId
    case None => true
    case Some(p) =>
      var t := TrimSpace(p);
      t != [] && t in comments && comments[t].postId == postId
  }

  /** The error a rejected parent reference yields: NotFound when its trimmed form
      names no stored comment, Validation when it is blank or names a comment on
      another post. */
  function ParentError(parentId: Option<string>, comments: map<string, Comment>): ErrorKind
    requires parentId.Some?
  {
    var t := TrimSpace(parentId.value);
    if t != [] && t !in comments then NotFound else Validation
  }

  /** The comment text passes both text guards: not blank, and at most
      MaxCommentLength bytes. */
  predicate TextAccepted(text: string)
  {
    !Blank(text) && Utf8Len(text) <= MaxCommentLength
  }

  /** A generated identifier holds no white space, so trimming leaves it as it is
      and it is never blank. */
  lemma GeneratedIdIsTrimmed(id: GeneratedId)
    ensures TrimSpace(id) == id && !Blank(id)
  {
    assert !IsSpace(id[0]) && !IsSpace(id[|id| - 1]);
    assert [] + id + [] == id;
    TrimSpaceUnique([], id, []);
  }

  /** Every stored comment is on a stored post, and a reply's parent is a stored
      comment on the same post. */
  ghost predicate ThreadIntegrity(posts: map<string, Post>, comments: map<string, Comment>)
  {
    forall id :: id in comments ==>
      && comments[id].postId in posts
      && (comments[id].parentId.Some? ==>
            && comments[id].parentId.value in comments
            && comments[comments[id].parentId.value].postId == comments[id].postId)
  }

  /** `depth` gives every stored comment its distance from the root of its thread:
      zero for a root, one more than its parent's for a reply. */
  ghost predicate DepthsOf(comments: map<string, Comment>, depth: map<string, nat>)
  {
    && depth.Keys == comments.Keys
    && (forall id :: id in comments && comments[id].parentId.None? ==> depth[id] == 0)
    && (forall id :: id in comments && comments[id].parentId.Some? ==>
          && comments[id].parentId.value in depth
          && depth[id] == depth[comments[id].parentId.value] + 1)
  }

  /** The comment reached from `id` by following `n` parent references, if the chain
      of replies is that long. */
  function Ancestor(comments: map<string, Comment>, id: string, n: nat): Option<string>
    decreases n
  {
    if n == 0 then Some(id)
    else if id in comments && comments[id].parentId.Some? then
      Ancestor(comments, comments[id].parentId.value, n - 1)
    else None
  }

  /** The comments form a forest per post: following parent references from a stored
      comment stays among stored comments on the same post, each step brings it one
      level closer to a root, so no comment is its own ancestor. */
  lemma {:induction false} AncestorsCloserToRoot(
    posts: map<string, Post>, comments: map<string, Comment>, depth: map<string, nat>, id: string, n: nat)
    requires ThreadIntegrity(posts, comments) && DepthsOf(comments, depth)
    requires id in comments
    decreases n
    ensures Ancestor(comments, id, n).Some? ==>
      var a := Ancestor(comments, id, n).value;
      && a in comments
      && comments[a].postId == comments[id].postId
      && n <= depth[id] && depth[a] == depth[id] - n
    ensures 0 < n && Ancestor(comments, id, n).Some? ==> Ancestor(comments, id, n).value != id
  {
    if n > 0 && comments[id].parentId.Some? {
      var parent := comments[id].parentId.value;
      AncestorsCloserToRoot(posts, comments, depth, parent, n - 1);
    }
  }

  /** Adding a comment whose post is stored and whose parent, if any, is a stored
      comment on the same post keeps thread integrity. */
  lemma AddCommentKeepsIntegrity(posts: map<string, Post>, comments: map<string, Comment>, c: Comment)
    requires ThreadIntegrity(posts, comments)
    requires c.id !in comments && c.postId in posts
    requires c.parentId.Some? ==> c.parentId.value in comments && comments[c.parentId.value].postId == c.postId
    ensures ThreadIntegrity(posts, comments[c.id := c])
  {
    var after := comments[c.id := c];
    forall id | id in after
      ensures after[id].postId in posts
      ensures after[id].parentId.Some? ==>
        after[id].parentId.value in after && after[after[id].parentId.value].postId == after[id].postId
    {
      if id != c.id {
        assert after[id] == comments[id];
      }
    }
  }

  /** A new comment sits one level below its parent, or at level zero as a root. */
  lemma AddCommentKeepsDepths(comments: map<string, Comment>, depth: map<string, nat>, c: Comment)
    requires DepthsOf(comments, depth)
    requires c.id !in comments
    requires c.parentId.Some? ==> c.parentId.value in comments
    ensures DepthsOf(comments[c.id := c],
                     depth[c.id := match c.parentId case None => 0 case Some(p) => depth[p] + 1])
  {
    var after := comments[c.id := c];
    var depth' := depth[c.id := match c.parentId case None => 0 case Some(p) => depth[p] + 1];
    forall id | id in after && after[id].parentId.Some?
      ensures after[id].parentId.value in depth' && depth'[id] == depth'[after[id].parentId.value] + 1
    {
      if id != c.id {
        assert after[id] == comments[id];
      }
    }
  }

  /** Posts are never removed, so a store with at least the same post identifiers
      keeps thread integrity. */
  lemma MorePostsKeepIntegrity(posts: map<string, Post>, posts': map<string, Post>, comments: map<string, Comment>)
    requires ThreadIntegrity(posts, comments)
    requires posts.Keys <= posts'.Keys
    ensures ThreadIntegrity(posts', comments)
  {
  }

  class Service {
    const store: MemoryStorage
    const minUsernameLen: int
    const maxListLimit: int
    /** Each stored comment's depth in its thread. */
    ghost var depth: map<string, nat>

    ghost predicate Valid()
      reads this, store
    {
      store.Valid() && ThreadIntegrity(store.posts, store.comments) && DepthsOf(store.comments, depth)
    }

    /** NewService: the store and the two configuration values the service reads. */
    constructor (store: MemoryStorage, minUsernameLen: int, maxListLimit: int, ghost depth: map<string, nat>)
      requires store.Valid() && ThreadIntegrity(store.posts, store.comments)
      requires DepthsOf(store.comments, depth)
      ensures Valid()
      ensures this.store == store
      ensures this.minUsernameLen == minUsernameLen && this.maxListLimit == maxListLimit
    {
      this.store := store;
      this.depth := depth;
      this.minUsernameLen := minUsernameLen;
      this.maxListLimit := maxListLimit;
    }

    /** Trims the identifier (generating one when it is blank) and the username, fails
        with Validation when the username is shorter than the configured minimum, and
        otherwise stores the user. `u` is the caller's record after the call. */
    method CreateUser(user: User, freshId: GeneratedId) returns (u: User, res: Outcome)
      requires Valid()
      modifies store
      ensures Valid()
      ensures u.id == (if Blank(user.id) then freshId else TrimSpace(user.id))
      ensures u.id != [] && u.username == TrimSpace(user.username)
      // the user is filed under an identifier that GetUserByID accepts and looks up as is
      ensures TrimSpace(u.id) == u.id && !Blank(u.id)
      ensures res == Fail(Validation) <==> Utf8Len(u.username) < minUsernameLen
      ensures res == Fail(AlreadyExists) <==>
        Utf8Len(u.username) >= minUsernameLen && u.username in old(store.usersByName)
      ensures res.Pass? <==>
        Utf8Len(u.username) >= minUsernameLen && u.username !in old(store.usersByName)
      ensures res.Fail? ==> store.usersByID == old(store.usersByID) && store.usersByName == old(store.usersByName)
      ensures res.Pass? ==> store.usersByID == old(store.usersByID)[u.id := u]
      ensures res.Pass? ==> store.usersByName == old(store.usersByName)[u.username := u]
      ensures store.posts == old(store.posts) && store.comments == old(store.comments)
    {
      u := user.(id := TrimSpace(user.id));
      if u.id == [] {
        u := u.(id := freshId);
        GeneratedIdIsTrimmed(freshId);
      } else {
        TrimSpaceIdempotent(user.id);
      }
      u := u.(username := TrimSpace(u.username));
      if Utf8Len(u.username) < minUsernameLen {
        return u, Fail(Validation);
      }
      res := store.CreateUser(u);
    }

    /** Fails with Validation on a blank identifier; otherwise looks up the trimmed
        identifier. */
    method GetUserByID(id: string) returns (r: Result<User>)
      ensures Blank(id) ==> r == Err(Validation)
      ensures !Blank(id) ==> (r.Ok? <==> TrimSpace(id) in store.usersByID)
      ensures !Blank(id) && r.Ok? ==> r.value == store.usersByID[TrimSpace(id)]
      ensures !Blank(id) && r.Err? ==> r.error == NotFound
    {
      var trimmed := TrimSpace(id);
      if trimmed == [] {
        return Err(Validation);
      }
      r := store.GetUserByID(trimmed);
    }

    /** Trims identifier, title and content (generating an identifier when it is
        blank), requires a non-blank title, content and author, requires the author
        to exist, stamps the record when it has no creation time, and stores it.
        `p` is the caller's record after the call. */
    method CreatePost(post: Post, freshId: GeneratedId, now: ClockReading, storeNow: ClockReading)
      returns (p: Post, res: Outcome)
      requires Valid()
      modifies store
      ensures Valid()
      ensures p.id == (if Blank(post.id) then freshId else TrimSpace(post.id)) && p.id != []
      // the post is filed under an identifier that GetPostByID accepts and looks up as is
      ensures TrimSpace(p.id) == p.id && !Blank(p.id)
      ensures p.title == TrimSpace(post.title) && p.content == TrimSpace(post.content)
      ensures p.authorId == post.authorId && p.commentsEnabled == post.commentsEnabled
      ensures res == Fail(Validation) <==>
        Blank(post.title) || Blank(post.content) || Blank(post.authorId)
      ensures res == Fail(NotFound) <==>
        && !Blank(post.title) && !Blank(post.content) && !Blank(post.authorId)
        && TrimSpace(post.authorId) !in old(store.usersByID)
      ensures res == Fail(AlreadyExists) <==>
        && !Blank(post.title) && !Blank(post.content) && !Blank(post.authorId)
        && TrimSpace(post.authorId) in old(store.usersByID)
        && p.id in old(store.posts)
      ensures res.Pass? <==>
        && !Blank(post.title) && !Blank(post.content) && !Blank(post.authorId)
        && TrimSpace(post.authorId) in old(store.usersByID)
        && p.id !in old(store.posts)
      ensures res.Fail? ==> store.posts == old(store.posts)
      ensures res.Pass? ==> store.posts == old(store.posts)[p.id := p]
      ensures store.usersByID == old(store.usersByID) && store.usersByName == old(store.usersByName)
      ensures store.comments == old(store.comments)
      ensures res.Pass? ==> p.createdAt == storeNow
      ensures res == Fail(AlreadyExists) ==>
        p.createdAt == if IsZero(post.createdAt) then now else post.createdAt
      ensures res == Fail(Validation) || res == Fail(NotFound) ==> p.createdAt == post.createdAt
    {
      p := post.(id := TrimSpace(post.id));
      if p.id == [] {
        p := p.(id := freshId);
        GeneratedIdIsTrimmed(freshId);
      } else {
        TrimSpaceIdempotent(post.id);
      }
      p := p.(title := TrimSpace(p.title), content := TrimSpace(p.content));
      if p.title == [] {
        return p, Fail(Validation);
      }
      if p.content == [] {
        return p, Fail(Validation);
      }
      if p.authorId == [] {
        return p, Fail(Validation);
      }
      var author := GetUserByID(p.authorId);
      if author.Err? {
        // NotFound is passed on as NotFound; any other error (here the blank
        // identifier's Validation) is passed on unchanged.
        return p, Fail(author.error);
      }
      if IsZero(p.createdAt) {
        p := p.(createdAt := now);
      }
      ghost var posts := store.posts;
      p, res := store.CreatePost(p, storeNow);
      MorePostsKeepIntegrity(posts, store.posts, store.comments);
    }

    /** Fails with Validation on a blank identifier; otherwise looks up the identifier
        as given, untrimmed. */
    method GetPostByID(id: string) returns (r: Result<Post>)
      ensures Blank(id) ==> r == Err(Validation)
      ensures !Blank(id) ==> (r.Ok? <==> id in store.posts)
      ensures !Blank(id) && r.Ok? ==> r.value == store.posts[id]
      ensures !Blank(id) && r.Err? ==> r.error == NotFound
    {
      if Blank(id) {
        return Err(Validation);
      }
      r := store.GetPostByID(id);
      if r.Err? {
        r := Err(NotFound);
      }
    }

    /** Fails with ParamOutOfRange unless the pagination bounds hold; otherwise passes
        on the store's page. */
    method ListPosts(offset: int, limit: int) returns (r: Result<seq<Post>>, ghost order: seq<string>)
      ensures r.Err? <==> !PageInRange(offset, limit, maxListLimit)
      ensures r.Err? ==> r.error == ParamOutOfRange
      ensures r.Ok? ==> Enumerates(order, store.posts)
      ensures r.Ok? ==> r.value == Window(ValuesAt(order, store.posts), offset, limit)
      ensures r.Ok? ==> |r.value| <= limit <= maxListLimit
      ensures r.Ok? ==> (r.value == [] <==> offset >= |store.posts|)
      ensures r.Ok? && offset + limit <= |store.posts| ==> |r.value| == limit
      ensures r.Ok? && offset < |store.posts| < offset + limit ==> |r.value| == |store.posts| - offset
      ensures r.Ok? ==> forall p :: p in r.value ==> p in store.posts.Values
    {
      order := [];
      if !PageInRange(offset, limit, maxListLimit) {
        return Err(ParamOutOfRange), order;
      }
      r, order := store.ListPosts(offset, limit);
    }

    /** Requires non-blank identifiers, title and content, requires the post to exist
        (looked up by its untrimmed identifier) and the acting user to be its author,
        and then replaces the stored record with `post` as given. */
    method UpdatePost(post: Post, userId: string) returns (res: Outcome)
      requires Valid()
      modifies store
      ensures Valid()
      ensures res == Fail(Validation) <==>
        Blank(post.id) || Blank(userId) || Blank(post.title) || Blank(post.content)
      ensures res == Fail(NotFound) <==>
        && !Blank(post.id) && !Blank(userId) && !Blank(post.title) && !Blank(post.content)
        && post.id !in old(store.posts)
      ensures res == Fail(Forbidden) <==>
        && !Blank(post.id) && !Blank(userId) && !Blank(post.title) && !Blank(post.content)
        && post.id in old(store.posts) && old(store.posts)[post.id].authorId != userId
      ensures res.Pass? <==>
        && !Blank(post.id) && !Blank(userId) && !Blank(post.title) && !Blank(post.content)
        && post.id in old(store.posts) && old(store.posts)[post.id].authorId == userId
      ensures res.Fail? ==> store.posts == old(store.posts)
      ensures res.Pass? ==> store.posts == old(store.posts)[post.id := post]
      ensures store.usersByID == old(store.usersByID) && store.usersByName == old(store.usersByName)
      ensures store.comments == old(store.comments)
    {
      if Blank(post.id) || Blank(userId) {
        return Fail(Validation);
      }
      if Blank(post.title) || Blank(post.content) {
        return Fail(Validation);
      }
      var current := store.GetPostByID(post.id);
      if current.Err? {
        return Fail(NotFound);
      }
      if current.value.authorId != userId {
        return Fail(Forbidden);
      }
      ghost var posts := store.posts;
      res := store.UpdatePost(post);
      MorePostsKeepIntegrity(posts, store.posts, store.comments);
    }

    /** Generates an identifier when there is none, checks the text (not blank, at most
        MaxCommentLength bytes), the post identifier (not blank), the parent (trimmed,
        stored, on the same post), the post (stored, comments enabled), stamps the
        record when it has no creation time, and stores it. `c` is the caller's record
        after the call. */
    method CreateComment(comment: Comment, freshId: GeneratedId, now: ClockReading, storeNow: ClockReading)
      returns (c: Comment, res: Outcome)
      requires Valid()
      modifies this, store
      ensures Valid()
      ensures c.id == (if comment.id == [] then freshId else comment.id) && c.id != []
      // a generated identifier is one GetCommentByID accepts; a supplied one is kept untrimmed
      ensures comment.id == [] ==> TrimSpace(c.id) == c.id && !Blank(c.id)
      ensures c.postId == comment.postId && c.authorId == comment.authorId && c.text == comment.text
      // the guards, in the order they are checked
      ensures Blank(comment.text) ==> res == Fail(Validation)
      ensures !Blank(comment.text) && Utf8Len(comment.text) > MaxCommentLength ==>
        res == Fail(ParamOutOfRange)
      ensures TextAccepted(comment.text) && Blank(comment.postId) ==> res == Fail(Validation)
      ensures
        && TextAccepted(comment.text) && !Blank(comment.postId)
        && !ParentOnPost(comment.parentId, comment.postId, old(store.comments))
        ==> res == Fail(ParentError(comment.parentId, old(store.comments)))
      ensures
        && TextAccepted(comment.text) && !Blank(comment.postId)
        && ParentOnPost(comment.parentId, comment.postId, old(store.comments))
        ==> res == (if comment.postId !in old(store.posts) then Fail(NotFound)
                    else if !old(store.posts)[comment.postId].commentsEnabled then Fail(CommForbidden)
                    else if c.id in old(store.comments) then Fail(AlreadyExists)
                    else Pass)
      // comments-gate: no comment is ever added to a post with comments disabled
      ensures comment.postId in old(store.posts) && !old(store.posts)[comment.postId].commentsEnabled ==>
        res.Fail?
      ensures res.Fail? ==> store.comments == old(store.comments)
      ensures res.Pass? ==> store.comments == old(store.comments)[c.id := c]
      ensures res.Pass? ==> c.parentId == NormalizedParent(comment.parentId) && c.createdAt == storeNow
      ensures store.usersByID == old(store.usersByID) && store.usersByName == old(store.usersByName)
      ensures store.posts == old(store.posts)
    {
      c := comment;
      if c.id == [] {
        c := c.(id := freshId);
        GeneratedIdIsTrimmed(freshId);
      }
      if Blank(c.text) {
        return c, Fail(Validation);
      }
      if Utf8Len(c.text) > MaxCommentLength {
        return c, Fail(ParamOutOfRange);
      }
      if Blank(c.postId) {
        return c, Fail(Validation);
      }
      var parent := ResolveParent(c.parentId, c.postId);
      if parent.Err? {
        return c, Fail(parent.error);
      }
      c := c.(parentId := parent.value);
      var post := store.GetPostByID(c.postId);
      if post.Err? {
        return c, Fail(NotFound);
      }
      if !post.value.commentsEnabled {
        return c, Fail(CommForbidden);
      }
      if IsZero(c.createdAt) {
        c := c.(createdAt := now);
      }
      c, res := AddComment(c, storeNow);
    }

    /** The store write at the end of comment creation, for a comment whose post and
        parent have been checked; the ghost depth of the new comment is one more than
        its parent's, so the reply forest stays a forest. */
    method AddComment(comment: Comment, storeNow: ClockReading) returns (c: Comment, res: Outcome)
      requires Valid()
      requires comment.postId in store.posts
      requires comment.parentId.Some? ==>
        comment.parentId.value in store.comments && store.comments[comment.parentId.value].postId == comment.postId
      modifies this, store
      ensures Valid()
      ensures c == if res.Pass? then comment.(createdAt := storeNow) else comment
      ensures res == (if comment.id in old(store.comments) then Fail(AlreadyExists) else Pass)
      ensures res.Fail? ==> store.comments == old(store.comments)
      ensures res.Pass? ==> store.comments == old(store.comments)[c.id := c]
      ensures store.usersByID == old(store.usersByID) && store.usersByName == old(store.usersByName)
      ensures store.posts == old(store.posts)
    {
      ghost var posts, comments := store.posts, store.comments;
      c, res := store.CreateComment(comment, storeNow);
      if res.Pass? {
        AddCommentKeepsIntegrity(posts, comments, c);
        AddCommentKeepsDepths(comments, depth, c);
        depth := depth[c.id := match c.parentId case None => 0 case Some(p) => depth[p] + 1];
      }
    }

    /** The parent check shared by comment creation and thread listing: no parent is
        accepted as is; otherwise the trimmed identifier must not be blank
        (Validation), must name a stored comment (NotFound) and that comment must be
        on `postId` (Validation). On success yields the trimmed reference. */
    method ResolveParent(parentId: Option<string>, postId: string) returns (r: Result<Option<string>>)
      ensures r.Ok? <==> ParentOnPost(parentId, postId, store.comments)
      ensures r.Ok? ==> r.value == NormalizedParent(parentId)
      ensures r.Err? ==> r.error == ParentError(parentId, store.comments)
    {
      if parentId.None? {
        return Ok(None);
      }
      var trimmed := TrimSpace(parentId.value);
      if trimmed == [] {
        return Err(Validation);
      }
      var parent := store.GetCommentByID(trimmed);
      if parent.Err? {
        return Err(NotFound);
      }
      if parent.value.postId != postId {
        return Err(Validation);
      }
      r := Ok(Some(trimmed));
    }

    /** Fails with Validation on a blank identifier; otherwise looks up the identifier
        as given, untrimmed. */
    method GetCommentByID(id: string) returns (r: Result<Comment>)
      ensures Blank(id) ==> r == Err(Validation)
      ensures !Blank(id) ==> (r.Ok? <==> id in store.comments)
      ensures !Blank(id) && r.Ok? ==> r.value == store.comments[id]
      ensures !Blank(id) && r.Err? ==> r.error == NotFound
    {
      if Blank(id) {
        return Err(Validation);
      }
      r := store.GetCommentByID(id);
    }

    /** Trims the post identifier, checks it (not blank), the pagination bounds, that
        the post exists, and the parent (trimmed, stored, on that post), then passes
        on the store's page of roots (no parent) or of the parent's direct replies. */
    method ListCommentsByPost(postId: string, parentId: Option<string>, offset: int, limit: int)
      returns (r: Result<seq<Comment>>, ghost order: seq<string>)
      ensures Blank(postId) ==> r == Err(Validation)
      ensures !Blank(postId) && !PageInRange(offset, limit, maxListLimit) ==> r == Err(ParamOutOfRange)
      ensures !Blank(postId) && PageInRange(offset, limit, maxListLimit) && TrimSpace(postId) !in store.posts ==>
        r == Err(NotFound)
      ensures
        && !Blank(postId) && PageInRange(offset, limit, maxListLimit) && TrimSpace(postId) in store.posts
        && !ParentOnPost(parentId, TrimSpace(postId), store.comments)
        ==> r == Err(ParentError(parentId, store.comments))
      ensures r.Ok? <==>
        && !Blank(postId) && PageInRange(offset, limit, maxListLimit) && TrimSpace(postId) in store.posts
        && ParentOnPost(parentId, TrimSpace(postId), store.comments)
      ensures r.Ok? ==> Enumerates(order, store.comments)
      ensures r.Ok? ==>
        r.value == Window(Thread(ValuesAt(order, store.comments), TrimSpace(postId), NormalizedParent(parentId)),
                          offset, limit)
      ensures r.Ok? ==> |r.value| <= limit
      ensures r.Ok? ==> forall x :: x in r.value ==>
        x in store.comments.Values && x.postId == TrimSpace(postId) && x.parentId == NormalizedParent(parentId)
    {
      order := [];
      var trimmedPost := TrimSpace(postId);
      if trimmedPost == [] {
        return Err(Validation), order;
      }
      if !PageInRange(offset, limit, maxListLimit) {
        return Err(ParamOutOfRange), order;
      }
      var post := store.GetPostByID(trimmedPost);
      if post.Err? {
        return Err(NotFound), order;
      }
      var parent := ResolveParent(parentId, trimmedPost);
      if parent.Err? {
        return Err(parent.error), order;
      }
      r, order := store.ListCommentsByPost(trimmedPost, parent.value, offset, limit);
    }
  }
}
