/** The feed's data access (src/lib/get-posts.ts): sampling the most recent
    posts, ordering them by popularity, and projecting rows to display posts
    of authors that can be looked up. */
module GetPosts {
  import opened Types
  import opened Seqs

  /** The avatar shown when an author has none. */
  const DefaultAvatar := "/shareacode.png"

  /** Outcome of looking an author up by id: an error, or the author's
      metadata, of which only the avatar URL is used here. */
  datatype AuthorLookup = LookupError | LookupOk(avatarUrl: Option<string>)

  /** The display post built for `p` with the given avatar
      (get-posts.ts:50-51). The only information added is the avatar; dropping
      it gives `p` back. */
  function ToDisplay(p: SocialPost, avatar: Option<string>): (d: DisplayPost)
    ensures ToSocial(d) == p
    ensures d.authorImageUrl == (if avatar.Some? then avatar.value else DefaultAvatar)
  {
    DisplayPost(p.id, p.createdAt, p.code, p.instructions, p.authorName,
                avatar.GetOr(DefaultAvatar), p.likes, p.shareLink, p.authorId, p.codeLanguage)
  }

  /** Forgets the avatar of a display post. */
  function ToSocial(d: DisplayPost): SocialPost {
    SocialPost(d.id, d.createdAt, d.code, d.instructions, d.authorName, d.authorId,
               d.likes, d.shareLink, d.codeLanguage)
  }

  /** What one post contributes to the display list: nothing when its author
      lookup fails, its display post otherwise. */
  function Displayed(p: SocialPost, lookup: string -> AuthorLookup): (r: Option<DisplayPost>)
    ensures r.Some? <==> lookup(p.authorId).LookupOk?
    ensures r.Some? ==> ToSocial(r.value) == p && r.value.authorImageUrl == lookup(p.authorId).avatarUrl.GetOr(DefaultAvatar)
  {
    match lookup(p.authorId)
    case LookupError => None
    case LookupOk(avatar) => Some(ToDisplay(p, avatar))
  }

  /** The display list of `posts`: the posts whose author lookup succeeds, in
      their order, each projected by `ToDisplay`. It is never longer than
      `posts`, and a display post is in it exactly when some post yields it. */
  function Project(posts: seq<SocialPost>, lookup: string -> AuthorLookup): (r: seq<DisplayPost>)
    ensures |r| <= |posts|
    ensures forall d :: d in r <==> exists p :: p in posts && Displayed(p, lookup) == Some(d)
    decreases |posts|
  {
    if posts == [] then []
    else
      var init := posts[..|posts| - 1];
      var last := posts[|posts| - 1];
      assert forall p :: p in posts <==> p in init || p == last;
      match Displayed(last, lookup)
      case None => Project(init, lookup)
      case Some(d) => Project(init, lookup) + [d]
  }

  /** Projection distributes over concatenation: the display list keeps the
      order of the input. */
  lemma {:induction false} ProjectAppend(a: seq<SocialPost>, b: seq<SocialPost>, lookup: string -> AuthorLookup)
    ensures Project(a + b, lookup) == Project(a, lookup) + Project(b, lookup)
    decreases |b|
  {
    if b == [] {
      assert a + b == a;
    } else {
      var b' := b[..|b| - 1];
      assert (a + b)[..|a + b| - 1] == a + b';
      assert (a + b)[|a + b| - 1] == b[|b| - 1];
      ProjectAppend(a, b', lookup);
    }
  }

  /** The posts whose author lookup succeeds, as an order-preserving
      subsequence, paired one to one with the display list. */
  lemma {:induction false} ProjectIsSubsequence(posts: seq<SocialPost>, lookup: string -> AuthorLookup)
    ensures IsSubsequence(Unproject(Project(posts, lookup)), posts)
    ensures forall d :: d in Project(posts, lookup) ==> lookup(d.authorId).LookupOk?
    decreases |posts|
  {
    if posts != [] {
      var init := posts[..|posts| - 1];
      var last := posts[|posts| - 1];
      ProjectIsSubsequence(init, lookup);
      assert posts == init + [last];
      match Displayed(last, lookup)
      case None =>
        SubsequenceDrop(Unproject(Project(init, lookup)), init, last);
      case Some(d) =>
        UnprojectAppend(Project(init, lookup), d);
        SubsequenceKeep(Unproject(Project(init, lookup)), init, last);
    }
  }

  /** `ToSocial` applied to every element. */
  function Unproject(ds: seq<DisplayPost>): (r: seq<SocialPost>)
    ensures |r| == |ds|
    ensures forall i :: 0 <= i < |ds| ==> r[i] == ToSocial(ds[i])
  {
    seq(|ds|, i requires 0 <= i < |ds| => ToSocial(ds[i]))
  }

  lemma UnprojectAppend(ds: seq<DisplayPost>, d: DisplayPost)
    ensures Unproject(ds + [d]) == Unproject(ds) + [ToSocial(d)]
  {
  }

  /** getDisplayPosts (get-posts.ts:42-54): walks the posts, skips those whose
      author lookup fails and pushes the display post of every other one. */
  method GetDisplayPosts(posts: seq<SocialPost>, lookup: string -> AuthorLookup)
    returns (displayPosts: seq<DisplayPost>)
    ensures displayPosts == Project(posts, lookup)
  {
    displayPosts := [];
    var i := 0;
    while i < |posts|
      invariant 0 <= i <= |posts|
      invariant displayPosts == Project(posts[..i], lookup)
    {
      var post := posts[i];
      assert posts[..i + 1][..i] == posts[..i];
      i := i + 1;
      match lookup(post.authorId)
      case LookupError =>
        continue;
      case LookupOk(avatar) =>
        displayPosts := displayPosts + [ToDisplay(post, avatar)];
    }
    assert posts[..i] == posts;
  }

  /** getPostById (get-posts.ts:30-40): undefined on a store error; otherwise
      the first display post of the selected rows, undefined when there is
      none. */
  function GetPostById(response: QueryResult<seq<SocialPost>>, lookup: string -> AuthorLookup)
    : (r: Option<DisplayPost>)
    ensures response.QueryError? ==> r.None?
    ensures response.QueryOk? ==>
      (r.None? <==> forall p :: p in response.data ==> Displayed(p, lookup).None?)
    ensures r.Some? ==> exists i :: FirstDisplayed(response.data, i, lookup) && Displayed(response.data[i], lookup) == r
  {
    match response
    case QueryError(_) => None
    case QueryOk(rows) =>
      var ds := Project(rows, lookup);
      if |ds| == 0 then None
      else
        ProjectFirst(rows, lookup);
        Some(ds[0])
  }

  /** Row `i` is the first row whose author lookup succeeds. */
  ghost predicate FirstDisplayed(posts: seq<SocialPost>, i: int, lookup: string -> AuthorLookup) {
    && 0 <= i < |posts|
    && Displayed(posts[i], lookup).Some?
    && forall j :: 0 <= j < i ==> Displayed(posts[j], lookup).None?
  }

  /** The display list starts with the display post of the first row whose
      author lookup succeeds. */
  lemma {:induction false} ProjectFirst(posts: seq<SocialPost>, lookup: string -> AuthorLookup)
    requires Project(posts, lookup) != []
    ensures exists i :: FirstDisplayed(posts, i, lookup) && Displayed(posts[i], lookup) == Some(Project(posts, lookup)[0])
    decreases |posts|
  {
    var init := posts[..|posts| - 1];
    var last := posts[|posts| - 1];
    if Project(init, lookup) != [] {
      ProjectFirst(init, lookup);
      var i :| FirstDisplayed(init, i, lookup) && Displayed(init[i], lookup) == Some(Project(init, lookup)[0]);
      assert forall j :: 0 <= j <= i ==> posts[j] == init[j];
      assert FirstDisplayed(posts, i, lookup);
    } else {
      forall j | 0 <= j < |posts| - 1
        ensures Displayed(posts[j], lookup).None?
      {
        assert posts[j] == init[j] && init[j] in init;
      }
      assert FirstDisplayed(posts, |posts| - 1, lookup);
    }
  }

  /** The selected rows all carry the requested id, so the post found does too. */
  lemma GetPostByIdHasId(postId: int, response: QueryResult<seq<SocialPost>>, lookup: string -> AuthorLookup)
    requires response.QueryOk? && forall p :: p in response.data ==> p.id == postId
    ensures GetPostById(response, lookup).Some? ==> GetPostById(response, lookup).value.id == postId
  {
  }

  /** The field a sort orders by. */
  datatype SortKey = ByCreatedAt | ByLikes

  function Key(k: SortKey, p: SocialPost): int {
    match k
    case ByCreatedAt => p.createdAt
    case ByLikes => p.likes
  }

  /** Ordered by `k`, largest first. */
  ghost predicate SortedDesc(s: seq<SocialPost>, k: SortKey) {
    forall i, j :: 0 <= i < j < |s| ==> Key(k, s[i]) >= Key(k, s[j])
  }

  /** Exchanges two neighbouring elements. */
  method SwapDown(a: array<SocialPost>, j: int)
    requires 0 < j < a.Length
    modifies a
    ensures a[..] == old(a[..])[j - 1 := old(a[j])][j := old(a[j - 1])]
    ensures multiset(a[..]) == old(multiset(a[..]))
  {
    ghost var s := a[..];
    a[j - 1], a[j] := a[j], a[j - 1];
    assert a[..] == s[..j - 1] + [s[j], s[j - 1]] + s[j + 1..];
    assert s == s[..j - 1] + [s[j - 1], s[j]] + s[j + 1..];
  }

  /** The state of the insertion of `s[i]`: it has moved to position `j`,
      is larger than everything after it up to `i`, and the rest of
      `s[..i + 1]` is ordered. */
  ghost predicate Inserting(s: seq<SocialPost>, i: int, j: int, k: SortKey) {
    && 0 <= j <= i < |s|
    && (forall x, y :: 0 <= x < y <= i && x != j && y != j ==> Key(k, s[x]) >= Key(k, s[y]))
    && (forall y :: j < y <= i ==> Key(k, s[j]) > Key(k, s[y]))
  }

  /** Swapping the moving element with a smaller left neighbour keeps it
      `Inserting`, one position further left. */
  lemma SwapKeepsInserting(s: seq<SocialPost>, i: int, j: int, k: SortKey)
    requires Inserting(s, i, j, k) && j > 0 && Key(k, s[j - 1]) < Key(k, s[j])
    ensures Inserting(s[j - 1 := s[j]][j := s[j - 1]], i, j - 1, k)
  {
  }

  /** Once the left neighbour is at least as large, the prefix is ordered. */
  lemma InsertingDone(s: seq<SocialPost>, i: int, j: int, k: SortKey)
    requires Inserting(s, i, j, k) && (j == 0 || Key(k, s[j - 1]) >= Key(k, s[j]))
    ensures SortedDesc(s[..i + 1], k)
  {
  }

  /** Moves `a[i]` left past every element with a smaller key, so that the
      sorted prefix `a[..i]` grows to `a[..i + 1]`. */
  method InsertAt(a: array<SocialPost>, i: int, k: SortKey)
    requires 0 <= i < a.Length
    requires SortedDesc(a[..i], k)
    modifies a
    ensures SortedDesc(a[..i + 1], k)
    ensures a[i + 1..] == old(a[i + 1..])
    ensures multiset(a[..]) == old(multiset(a[..]))
  {
    var j := i;
    assert Inserting(a[..], i, j, k);
    while j > 0 && Key(k, a[j - 1]) < Key(k, a[j])
      invariant Inserting(a[..], i, j, k)
      invariant a[i + 1..] == old(a[i + 1..])
      invariant multiset(a[..]) == old(multiset(a[..]))
    {
      SwapKeepsInserting(a[..], i, j, k);
      SwapDown(a, j);
      j := j - 1;
    }
    InsertingDone(a[..], i, j, k);
  }

  /** `posts.sort((a, b) => key(b) - key(a))`: sorts the array in place,
      largest key first, by insertion. */
  method SortDescending(a: array<SocialPost>, k: SortKey)
    modifies a
    ensures SortedDesc(a[..], k)
    ensures multiset(a[..]) == old(multiset(a[..]))
  {
    var i := 0;
    while i < a.Length
      invariant 0 <= i <= a.Length
      invariant SortedDesc(a[..i], k)
      invariant multiset(a[..]) == old(multiset(a[..]))
    {
      InsertAt(a, i, k);
      i := i + 1;
    }
    assert a[..a.Length] == a[..];
  }

  /** `Math.floor(Math.random() * 6) + 10` for a draw `u` in [0, 1). */
  function SampleCount(u: real): (k: int)
    requires 0.0 <= u < 1.0
    ensures 10 <= k <= 15
  {
    (u * 6.0).Floor + 10
  }

  function Min(a: int, b: int): int {
    if a <= b then a else b
  }

  /** `sample` is a feed sample of `posts` of size `count`: as long as the
      smaller of `count` and the number of posts, drawn from the posts, ordered
      by likes, and no post left out is more recent than a post taken. */
  ghost predicate FeedSample(posts: seq<SocialPost>, count: int, sample: seq<SocialPost>) {
    && |sample| == Min(count, |posts|)
    && multiset(sample) <= multiset(posts)
    && SortedDesc(sample, ByLikes)
    && forall p, q :: p in sample && q in multiset(posts) - multiset(sample) ==> q.createdAt <= p.createdAt
  }

  /** Taking a prefix of a list sorted by date, newest first, and reordering
      it leaves out no post more recent than one it keeps. */
  lemma NewestPrefix(sorted: seq<SocialPost>, m: int, sample: seq<SocialPost>)
    requires SortedDesc(sorted, ByCreatedAt) && 0 <= m <= |sorted|
    requires multiset(sample) == multiset(sorted[..m])
    ensures forall p, q :: p in sample && q in multiset(sorted) - multiset(sample) ==> q.createdAt <= p.createdAt
  {
    assert sorted == sorted[..m] + sorted[m..];
    assert multiset(sorted) - multiset(sample) == multiset(sorted[m..]);
    forall p, q | p in sample && q in multiset(sorted) - multiset(sample)
      ensures q.createdAt <= p.createdAt
    {
      assert p in multiset(sorted[..m]);
      PrefixBeforeSuffix(sorted, m, p, q);
    }
  }

  /** In a list sorted by date, newest first, a post of a prefix is no older
      than a post after it. */
  lemma PrefixBeforeSuffix(sorted: seq<SocialPost>, m: int, p: SocialPost, q: SocialPost)
    requires SortedDesc(sorted, ByCreatedAt) && 0 <= m <= |sorted|
    requires p in sorted[..m] && q in sorted[m..]
    ensures q.createdAt <= p.createdAt
  {
    var i :| 0 <= i < m && sorted[..m][i] == p;
    var j :| 0 <= j < |sorted| - m && sorted[m..][j] == q;
    assert Key(ByCreatedAt, sorted[i]) >= Key(ByCreatedAt, sorted[m + j]);
  }

  /** Copies a sequence into a fresh array. */
  method ToArray(s: seq<SocialPost>) returns (a: array<SocialPost>)
    ensures fresh(a) && a[..] == s
  {
    a := new SocialPost[|s|](i requires 0 <= i < |s| => s[i]);
  }

  /** getPosts steps 1-3 (get-posts.ts:15-25): sort the fetched rows by date,
      newest first, keep a prefix of random length 10..15, and sort that by
      likes, most liked first. The fetched array is fresh, so sorting it in
      place is modelled on a copy. */
  method SampleFeed(posts: seq<SocialPost>, u: real) returns (sample: seq<SocialPost>)
    requires 0.0 <= u < 1.0
    ensures FeedSample(posts, SampleCount(u), sample)
  {
    var sortedByDate := ToArray(posts);
    SortDescending(sortedByDate, ByCreatedAt);
    var randomCount := (u * 6.0).Floor + 10;
    var m := Min(randomCount, sortedByDate.Length);
    var topRecentPosts := ToArray(sortedByDate[..m]);
    SortDescending(topRecentPosts, ByLikes);
    sample := topRecentPosts[..];
    NewestPrefix(sortedByDate[..], m, sample);
    assert sortedByDate[..] == sortedByDate[..m] + sortedByDate[m..];
  }

  /** getPosts (get-posts.ts:8-27): undefined when the store reports an
      error; otherwise the display list of a feed sample. */
  method GetPosts(response: QueryResult<seq<SocialPost>>, u: real, lookup: string -> AuthorLookup)
    returns (r: Option<seq<DisplayPost>>)
    requires 0.0 <= u < 1.0
    ensures response.QueryError? <==> r.None?
    ensures r.Some? ==> exists sample ::
      FeedSample(response.data, SampleCount(u), sample) && r.value == Project(sample, lookup)
    ensures r.Some? ==> |r.value| <= 15 && |r.value| <= |response.data|
  {
    match response
    case QueryError(_) =>
      r := None;
    case QueryOk(posts) =>
      var sample := SampleFeed(posts, u);
      var displayPosts := GetDisplayPosts(sample, lookup);
      r := Some(displayPosts);
  }
}
