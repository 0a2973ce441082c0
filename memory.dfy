/** The volatile storage backend (internal/repository/inmemory/memory.go): four maps
    keyed by identifier or username, raw create/read/update/list operations, no
    business validation. Each method is one atomic step; the reader/writer lock
    that makes it so in the source is not modelled. */
module InMemory {
  import opened Models
  import opened CustomErrors

  // ---------------------------------------------------------------------------
  // Listing: a snapshot of a map's values, filtered, then cut to one page.
  // ---------------------------------------------------------------------------

  ghost predicate Distinct<K>(ks: seq<K>)
  {
    forall i, j :: 0 <= i < j < |ks| ==> ks[i] != ks[j]
  }

  /** `order` visits every key of `m` exactly once: one possible iteration order
      of a Go map, which the language leaves unspecified. */
  ghost predicate Enumerates<V>(order: seq<string>, m: map<string, V>)
  {
    Distinct(order) && forall k :: k in m <==> k in order
  }

  /** An enumeration visits as many keys as the map holds. */
  lemma {:induction false} EnumerationLength<V>(order: seq<string>, m: map<string, V>)
    requires Enumerates(order, m)
    ensures |order| == |m|
  {
    if order == [] {
      assert m.Keys == {};
    } else {
      var k := order[|order| - 1];
      var init := order[..|order| - 1];
      var smaller := m - {k};
      assert k !in init;
      forall x ensures x in smaller <==> x in init {
        if x in init {
          var i :| 0 <= i < |init| && init[i] == x;
          assert order[i] == x;
        }
        if x in order && x != k {
          var i :| 0 <= i < |order| && order[i] == x;
          assert i < |order| - 1;
          assert init[i] == x;
        }
      }
      assert Enumerates(init, smaller);
      EnumerationLength(init, smaller);
      assert smaller.Keys == m.Keys - {k};
      assert |m.Keys| == |smaller.Keys| + 1;
    }
  }

  /** The values of `m` in the order the keys are visited. */
  function ValuesAt<K, V>(order: seq<K>, m: map<K, V>): (vs: seq<V>)
    requires forall k :: k in order ==> k in m
    ensures |vs| == |order|
    ensures forall i :: 0 <= i < |order| ==> vs[i] == m[order[i]]
  {
    if order == [] then []
    else ValuesAt(order[..|order| - 1], m) + [m[order[|order| - 1]]]
  }

  /** A snapshot taken along an enumeration holds exactly the stored values. */
  lemma SnapshotHoldsStoredValues<V>(order: seq<string>, m: map<string, V>)
    requires Enumerates(order, m)
    ensures forall v :: v in ValuesAt(order, m) <==> v in m.Values
  {
    var vs := ValuesAt(order, m);
    forall v | v in m.Values ensures v in vs {
      var k :| k in m && m[k] == v;
      var i :| 0 <= i < |order| && order[i] == k;
      assert vs[i] == v;
    }
  }

  /** Records under different keys differ, as when every record is filed under
      its own identifier. */
  ghost predicate Injective<V>(m: map<string, V>)
  {
    forall k1, k2 :: k1 in m && k2 in m && k1 != k2 ==> m[k1] != m[k2]
  }

  /** A snapshot taken along an enumeration lists no record twice. */
  lemma SnapshotDistinct<V>(order: seq<string>, m: map<string, V>)
    requires Enumerates(order, m) && Injective(m)
    ensures Distinct(ValuesAt(order, m))
  {
    var vs := ValuesAt(order, m);
    forall i, j | 0 <= i < j < |vs| ensures vs[i] != vs[j] {
      assert order[i] != order[j];
    }
  }

  /** A page cut from a list without repeats has no repeats. */
  lemma WindowDistinct<T>(s: seq<T>, offset: int, limit: int)
    requires 0 <= offset && 0 < limit && Distinct(s)
    ensures Distinct(Window(s, offset, limit))
  {
    var w := Window(s, offset, limit);
    forall i, j | 0 <= i < j < |w| ensures w[i] != w[j] {
      assert w[i] == s[offset + i] && w[j] == s[offset + j];
    }
  }

  /** A comment belongs to the thread level asked for: it is on `postId` and its
      parent reference is exactly `parentId` (no parent for the roots). */
  predicate InThread(c: Comment, postId: string, parentId: Option<string>)
  {
    c.postId == postId && c.parentId == parentId
  }

  /** The comments of `cs`, in order, that belong to the thread level. */
  function Thread(cs: seq<Comment>, postId: string, parentId: Option<string>): (r: seq<Comment>)
    ensures |r| <= |cs|
    ensures forall c :: c in r <==> c in cs && InThread(c, postId, parentId)
  {
    if cs == [] then []
    else
      var rest := Thread(cs[..|cs| - 1], postId, parentId);
      var c := cs[|cs| - 1];
      assert cs == cs[..|cs| - 1] + [c];
      if InThread(c, postId, parentId) then rest + [c] else rest
  }

  /** Filtering keeps elements apart that were apart. */
  lemma {:induction false} ThreadKeepsDistinct(cs: seq<Comment>, postId: string, parentId: Option<string>)
    requires Distinct(cs)
    ensures Distinct(Thread(cs, postId, parentId))
  {
    if cs != [] {
      var init := cs[..|cs| - 1];
      assert Distinct(init);
      ThreadKeepsDistinct(init, postId, parentId);
      var c := cs[|cs| - 1];
      assert c !in init;
    }
  }

  /** The page of a listing: nothing when `offset` lies past the end, otherwise the
      elements from `offset` up to `offset + limit`, clamped to the end. */
  function Window<T>(s: seq<T>, offset: int, limit: int): (w: seq<T>)
    requires 0 <= offset && 0 < limit
    ensures |w| <= limit
    ensures w == [] <==> offset >= |s|
    ensures offset + limit <= |s| ==> |w| == limit
    ensures offset < |s| < offset + limit ==> |w| == |s| - offset
    ensures forall i :: 0 <= i < |w| ==> offset + i < |s| && w[i] == s[offset + i]
  {
    if offset >= |s| then []
    else
      var end := if offset + limit > |s| then |s| else offset + limit;
      s[offset..end]
  }

  /** Two consecutive pages are the page that spans both. */
  lemma WindowsConcatenate<T>(s: seq<T>, offset: nat, a: nat, b: nat)
    requires 0 < a && 0 < b
    ensures Window(s, offset, a) + Window(s, offset + a, b) == Window(s, offset, a + b)
  {
    var w1, w2, w := Window(s, offset, a), Window(s, offset + a, b), Window(s, offset, a + b);
    assert |w1 + w2| == |w|;
    forall i | 0 <= i < |w| ensures (w1 + w2)[i] == w[i] {
      if i < |w1| {
      } else {
        assert (w1 + w2)[i] == w2[i - |w1|];
      }
    }
  }

  /** Paging with a fixed `limit` from offset 0 reaches every element: element `j`
      is on the page that starts at `(j / limit) * limit`. */
  lemma WindowCovers<T>(s: seq<T>, limit: nat, j: nat)
    requires 0 < limit && j < |s|
    ensures var offset := (j / limit) * limit;
            0 <= offset <= j &&
            j - offset < |Window(s, offset, limit)| &&
            Window(s, offset, limit)[j - offset] == s[j]
  {
    var offset := (j / limit) * limit;
    assert j == limit * (j / limit) + j % limit;
    assert offset + j % limit == j;
    var w := Window(s, offset, limit);
    assert |w| > j % limit;
  }

  // ---------------------------------------------------------------------------
  // The store.
  // ---------------------------------------------------------------------------

  class MemoryStorage {
    var usersByID: map<string, User>
    var usersByName: map<string, User>
    var posts: map<string, Post>
    var comments: map<string, Comment>

    /** Every record is filed under its own key. */
    ghost predicate Valid()
      reads this
    {
      && (forall id :: id in usersByID ==> usersByID[id].id == id)
      && (forall name :: name in usersByName ==> usersByName[name].username == name)
      && (forall id :: id in posts ==> posts[id].id == id)
      && (forall id :: id in comments ==> comments[id].id == id)
    }

    /** NewMemoryStorage: four empty maps. */
    constructor ()
      ensures Valid()
      ensures usersByID == map[] && usersByName == map[]
      ensures posts == map[] && comments == map[]
    {
      usersByID := map[];
      usersByName := map[];
      posts := map[];
      comments := map[];
    }

    /** Fails with AlreadyExists when the username is taken; otherwise files the user
        under both its identifier and its username. */
    method CreateUser(user: User) returns (res: Outcome)
      requires Valid()
      modifies this
      ensures Valid()
      ensures res == (if user.username in old(usersByName) then Fail(AlreadyExists) else Pass)
      ensures res.Fail? ==> usersByID == old(usersByID) && usersByName == old(usersByName)
      ensures res.Pass? ==> usersByID == old(usersByID)[user.id := user]
      ensures res.Pass? ==> usersByName == old(usersByName)[user.username := user]
      ensures posts == old(posts) && comments == old(comments)
    {
      if user.username in usersByName {
        return Fail(AlreadyExists);
      }
      usersByID := usersByID[user.id := user];
      usersByName := usersByName[user.username := user];
      res := Pass;
    }

    method GetUserByID(id: string) returns (r: Result<User>)
      ensures r.Ok? <==> id in usersByID
      ensures r.Ok? ==> r.value == usersByID[id]
      ensures r.Err? ==> r.error == NotFound
    {
      if id !in usersByID {
        return Err(NotFound);
      }
      r := Ok(usersByID[id]);
    }

    method GetPostByID(id: string) returns (r: Result<Post>)
      ensures r.Ok? <==> id in posts
      ensures r.Ok? ==> r.value == posts[id]
      ensures r.Err? ==> r.error == NotFound
    {
      if id !in posts {
        return Err(NotFound);
      }
      r := Ok(posts[id]);
    }

    /** Fails with ParamOutOfRange on a negative offset or a non-positive limit;
        otherwise collects every stored post, in the map's iteration order `order`,
        and returns the page [offset, min(offset + limit, n)). */
    method ListPosts(offset: int, limit: int) returns (r: Result<seq<Post>>, ghost order: seq<string>)
      ensures r.Err? <==> offset < 0 || limit <= 0
      ensures r.Err? ==> r.error == ParamOutOfRange
      ensures r.Ok? ==> Enumerates(order, posts) && r.value == Window(ValuesAt(order, posts), offset, limit)
      ensures r.Ok? ==> |r.value| <= limit
      // the page bounds in terms of the number of stored posts
      ensures r.Ok? ==> (r.value == [] <==> offset >= |posts|)
      ensures r.Ok? && offset + limit <= |posts| ==> |r.value| == limit
      ensures r.Ok? && offset < |posts| < offset + limit ==> |r.value| == |posts| - offset
      ensures r.Ok? ==> forall p :: p in r.value ==> p in posts.Values
      ensures r.Ok? && Valid() ==> Distinct(r.value)
    {
      order := [];
      if offset < 0 || limit <= 0 {
        return Err(ParamOutOfRange), order;
      }
      var all: seq<Post> := [];
      var rest := posts.Keys;
      while rest != {}
        invariant rest <= posts.Keys
        invariant Distinct(order)
        invariant forall k :: k in posts <==> k in order || k in rest
        invariant forall k :: k in order ==> k !in rest
        invariant all == ValuesAt(order, posts)
        decreases rest
      {
        var k :| k in rest;
        assert (order + [k])[..|order|] == order;
        all := all + [posts[k]];
        order := order + [k];
        rest := rest - {k};
      }
      SnapshotHoldsStoredValues(order, posts);
      EnumerationLength(order, posts);
      if Valid() {
        SnapshotDistinct(order, posts);
        WindowDistinct(all, offset, limit);
      }
      r := Ok(Window(all, offset, limit));
    }

    /** Fails with AlreadyExists when the identifier is taken; otherwise stamps the
        record with the current time and files it. `updated` is the caller's record
        after the call. */
    method CreatePost(post: Post, now: ClockReading) returns (updated: Post, res: Outcome)
      requires Valid()
      modifies this
      ensures Valid()
      ensures res == (if post.id in old(posts) then Fail(AlreadyExists) else Pass)
      ensures res.Fail? ==> updated == post && posts == old(posts)
      ensures res.Pass? ==> updated == post.(createdAt := now)
      ensures res.Pass? ==> posts == old(posts)[post.id := updated]
      ensures usersByID == old(usersByID) && usersByName == old(usersByName)
      ensures comments == old(comments)
    {
      updated := post;
      if post.id in posts {
        return updated, Fail(AlreadyExists);
      }
      updated := updated.(createdAt := now);
      posts := posts[post.id := updated];
      res := Pass;
    }

    /** Fails with NotFound when no post has the identifier; otherwise replaces the
        whole stored record with `post`. */
    method UpdatePost(post: Post) returns (res: Outcome)
      requires Valid()
      modifies this
      ensures Valid()
      ensures res == (if post.id in old(posts) then Pass else Fail(NotFound))
      ensures posts == if res.Pass? then old(posts)[post.id := post] else old(posts)
      ensures posts.Keys == old(posts.Keys)
      ensures usersByID == old(usersByID) && usersByName == old(usersByName)
      ensures comments == old(comments)
    {
      if post.id !in posts {
        return Fail(NotFound);
      }
      posts := posts[post.id := post];
      res := Pass;
    }

    /** Fails with AlreadyExists when the identifier is taken; otherwise stamps the
        record with the current time and files it. */
    method CreateComment(comment: Comment, now: ClockReading) returns (updated: Comment, res: Outcome)
      requires Valid()
      modifies this
      ensures Valid()
      ensures res == (if comment.id in old(comments) then Fail(AlreadyExists) else Pass)
      ensures res.Fail? ==> updated == comment && comments == old(comments)
      ensures res.Pass? ==> updated == comment.(createdAt := now)
      ensures res.Pass? ==> comments == old(comments)[comment.id := updated]
      ensures usersByID == old(usersByID) && usersByName == old(usersByName)
      ensures posts == old(posts)
    {
      updated := comment;
      if comment.id in comments {
        return updated, Fail(AlreadyExists);
      }
      updated := updated.(createdAt := now);
      comments := comments[comment.id := updated];
      res := Pass;
    }

    method GetCommentByID(id: string) returns (r: Result<Comment>)
      ensures r.Ok? <==> id in comments
      ensures r.Ok? ==> r.value == comments[id]
      ensures r.Err? ==> r.error == NotFound
    {
      if id !in comments {
        return Err(NotFound);
      }
      r := Ok(comments[id]);
    }

    /** Fails with ParamOutOfRange on a negative offset or a non-positive limit;
        otherwise collects, in the map's iteration order `order`, the comments on
        `postId` whose parent is `parentId` (the roots when it is `None`, the direct
        replies to that comment otherwise) and returns one page of them. */
    method ListCommentsByPost(postId: string, parentId: Option<string>, offset: int, limit: int)
      returns (r: Result<seq<Comment>>, ghost order: seq<string>)
      ensures r.Err? <==> offset < 0 || limit <= 0
      ensures r.Err? ==> r.error == ParamOutOfRange
      ensures r.Ok? ==> Enumerates(order, comments)
      ensures r.Ok? ==> r.value == Window(Thread(ValuesAt(order, comments), postId, parentId), offset, limit)
      ensures r.Ok? ==> |r.value| <= limit
      ensures r.Ok? ==> forall c :: c in r.value ==> c in comments.Values && InThread(c, postId, parentId)
      ensures r.Ok? && Valid() ==> Distinct(r.value)
    {
      order := [];
      if offset < 0 || limit <= 0 {
        return Err(ParamOutOfRange), order;
      }
      var result: seq<Comment> := [];
      var rest := comments.Keys;
      while rest != {}
        invariant rest <= comments.Keys
        invariant Distinct(order)
        invariant forall k :: k in comments <==> k in order || k in rest
        invariant forall k :: k in order ==> k !in rest
        invariant result == Thread(ValuesAt(order, comments), postId, parentId)
        decreases rest
      {
        var k :| k in rest;
        var c := comments[k];
        ghost var before := ValuesAt(order, comments);
        assert (order + [k])[..|order|] == order;
        assert ValuesAt(order + [k], comments) == before + [c];
        assert (before + [c])[..|before|] == before;
        if c.postId == postId && c.parentId == parentId {
          result := result + [c];
        }
        order := order + [k];
        rest := rest - {k};
      }
      SnapshotHoldsStoredValues(order, comments);
      if Valid() {
        SnapshotDistinct(order, comments);
        ThreadKeepsDistinct(ValuesAt(order, comments), postId, parentId);
        WindowDistinct(result, offset, limit);
      }
      r := Ok(Window(result, offset, limit));
    }

    /** Nothing to release; always succeeds. */
    method Close() returns (res: Outcome)
      ensures res == Pass
    {
      res := Pass;
    }
  }
}
