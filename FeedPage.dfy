/** The state of the feed page (src/app/page.tsx): the posts on show, the
    loading flag, the error message and the set of posts whose link was just
    copied. The search page (src/app/search/page.tsx:76-107) handles likes
    and shares with the same code, so this model covers both. */
module FeedPage {
  import opened Types

  /** The message shown when the feed could not be loaded. */
  const LoadFailed := "Failed to load posts"

  /** How the call to `getPosts` ended: it threw, or it returned a feed
      (`None` standing for `undefined`). */
  datatype FetchOutcome = FetchThrew | FetchReturned(data: Option<seq<DisplayPost>>)

  /** The list after a like on the post `postId`: that post gets one more
      like, the others stay as they are. */
  function WithLikeAdded(posts: seq<DisplayPost>, postId: int): (r: seq<DisplayPost>)
    ensures |r| == |posts|
    ensures forall i :: 0 <= i < |r| ==> r[i].id == posts[i].id && r[i].(likes := posts[i].likes) == posts[i]
    ensures forall i :: 0 <= i < |r| ==> r[i].likes == posts[i].likes + (if posts[i].id == postId then 1 else 0)
    ensures Ids(r) == Ids(posts)
  {
    var r := seq(|posts|, i requires 0 <= i < |posts| =>
      if posts[i].id == postId then posts[i].(likes := posts[i].likes + 1) else posts[i]);
    assert forall i :: 0 <= i < |r| ==> r[i].id == posts[i].id;
    assert forall p :: p in r ==> p.id in Ids(posts);
    assert forall p :: p in posts ==> p.id in Ids(r) by {
      forall p | p in posts
        ensures p.id in Ids(r)
      {
        var i :| 0 <= i < |posts| && posts[i] == p;
        assert r[i] in r;
      }
    }
    r
  }

  /** The sum of the likes of a list of posts. */
  function TotalLikes(posts: seq<DisplayPost>): int
    decreases |posts|
  {
    if posts == [] then 0 else TotalLikes(posts[..|posts| - 1]) + posts[|posts| - 1].likes
  }

  /** The number of posts with id `postId`. */
  function CountId(posts: seq<DisplayPost>, postId: int): (n: nat)
    ensures n == 0 <==> postId !in Ids(posts)
    decreases |posts|
  {
    if posts == [] then 0
    else
      var init := posts[..|posts| - 1];
      var last := posts[|posts| - 1];
      assert posts == init + [last];
      IdsAppend(init, last);
      CountId(init, postId) + if last.id == postId then 1 else 0
  }

  /** A like adds one to the total for each post carrying the id. */
  lemma {:induction false} LikesAddedTotal(posts: seq<DisplayPost>, postId: int)
    ensures TotalLikes(WithLikeAdded(posts, postId)) == TotalLikes(posts) + CountId(posts, postId)
    decreases |posts|
  {
    if posts != [] {
      var init := posts[..|posts| - 1];
      LikesAddedTotal(init, postId);
      assert WithLikeAdded(posts, postId)[..|posts| - 1] == WithLikeAdded(init, postId);
    }
  }

  /** An id occurs at most once in a list without repeated ids. */
  lemma {:induction false} DistinctCountId(posts: seq<DisplayPost>, postId: int)
    requires DistinctIds(posts)
    ensures CountId(posts, postId) <= 1
    decreases |posts|
  {
    if posts != [] {
      DistinctCountId(posts[..|posts| - 1], postId);
    }
  }

  /** On a feed where no id repeats (the search page de-duplicates its
      results), a like on a post on show raises the total by exactly one and
      keeps the ids distinct. */
  lemma LikeAddsOne(posts: seq<DisplayPost>, postId: int)
    requires DistinctIds(posts) && postId in Ids(posts)
    ensures TotalLikes(WithLikeAdded(posts, postId)) == TotalLikes(posts) + 1
    ensures DistinctIds(WithLikeAdded(posts, postId))
  {
    LikesAddedTotal(posts, postId);
    DistinctCountId(posts, postId);
  }

  /** A like on a post that is not on show changes nothing. */
  lemma LikeOnAbsentPost(posts: seq<DisplayPost>, postId: int)
    requires postId !in Ids(posts)
    ensures WithLikeAdded(posts, postId) == posts
  {
    var r := WithLikeAdded(posts, postId);
    forall i | 0 <= i < |posts|
      ensures r[i] == posts[i]
    {
      assert posts[i] in posts;
    }
  }

  /** The page's state. */
  class FeedPageState {
    var posts: seq<DisplayPost>
    var loading: bool
    var error: string
    var sharedPosts: set<int>

    /** No posts yet, loading, no error, nothing shared (lines 30-33). */
    constructor ()
      ensures posts == [] && loading && error == "" && sharedPosts == {}
    {
      posts := [];
      loading := true;
      error := "";
      sharedPosts := {};
    }

    /** fetchPosts (lines 37-49): `getPosts` either threw, returned
        `undefined` (the error is set, the posts stay as they were) or
        returned a feed (shown as is); in every case loading ends. */
    method FetchPosts(outcome: FetchOutcome)
      modifies this
      ensures !loading
      ensures sharedPosts == old(sharedPosts)
      ensures outcome == FetchReturned(None) ==> error == LoadFailed && posts == old(posts)
      ensures outcome.FetchReturned? && outcome.data.Some? ==> posts == outcome.data.value && error == old(error)
      ensures outcome.FetchThrew? ==> posts == old(posts) && error == old(error)
    {
      loading := true;
      if outcome.FetchReturned? {
        if outcome.data.None? {
          error := LoadFailed;
        } else {
          posts := outcome.data.value;
        }
      }
      loading := false;
    }

    /** increaseLikes (lines 53-68): once the store accepted the like, the
        post `postId` on show gets one more like; when the store refused it,
        nothing changes. */
    method IncreaseLikes(postId: int, stored: bool)
      modifies this
      ensures posts == if stored then WithLikeAdded(old(posts), postId) else old(posts)
      ensures loading == old(loading) && error == old(error) && sharedPosts == old(sharedPosts)
    {
      if stored {
        posts := WithLikeAdded(posts, postId);
      }
    }

    /** copyToClipboard (lines 71-85): a copied link marks its post as
        shared; a failed copy leaves the set alone. The marker is taken off
        later by `ExpireShare`. */
    method CopyToClipboard(postId: int, copied: bool)
      modifies this
      ensures sharedPosts == if copied then old(sharedPosts) + {postId} else old(sharedPosts)
      ensures posts == old(posts) && loading == old(loading) && error == old(error)
    {
      if copied {
        sharedPosts := sharedPosts + {postId};
      }
    }

    /** The timeout armed by a successful copy (lines 75-81): it removes
        `postId`, and only it, from the shared set. */
    method ExpireShare(postId: int)
      modifies this
      ensures sharedPosts == old(sharedPosts) - {postId}
      ensures posts == old(posts) && loading == old(loading) && error == old(error)
    {
      sharedPosts := sharedPosts - {postId};
    }

    /** A copy followed, when it succeeded, by the timeout it armed: the post
        is marked in between and unmarked afterwards, every other post's
        marker being as it was before. A failed copy arms no timeout and
        changes nothing. */
    method ShareAndExpire(postId: int, copied: bool)
      modifies this
      ensures copied ==> postId !in sharedPosts
      ensures sharedPosts == if copied then old(sharedPosts) - {postId} else old(sharedPosts)
      ensures posts == old(posts) && loading == old(loading) && error == old(error)
    {
      CopyToClipboard(postId, copied);
      if copied {
        assert postId in sharedPosts;
        ExpireShare(postId);
      }
    }
  }
}
