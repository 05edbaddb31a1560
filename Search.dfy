/** Search result composition (src/lib/search.ts): up to three filters
    (author, language, keywords) are resolved by independent backend queries;
    their results are intersected by id when more than one filter is active,
    de-duplicated by id and sorted newest first. */
module Search {
  import opened Types
  import opened Seqs
  import GetPosts

  // ---------------------------------------------------------------------------
  // The keyword query string (search.ts:32-33 and 48-49)
  // ---------------------------------------------------------------------------

  /** What one character becomes under the replacement. */
  function Replacement(c: char): string {
    if c == ' ' then " or " else [c]
  }

  /** `s.replaceAll(" ", " or ")`. */
  function ReplaceSpaces(s: string): string
    decreases |s|
  {
    if s == [] then [] else Replacement(s[0]) + ReplaceSpaces(s[1..])
  }

  /** The occurrences of `c` in the replacement of `x`. */
  lemma ReplacementCount(x: char, c: char)
    ensures multiset(Replacement(x))[c] ==
      (if c == x then 1 else 0) + (if x == ' ' && (c == ' ' || c == 'o' || c == 'r') then 1 else 0)
  {
    if x == ' ' {
      assert multiset(Replacement(x)) == multiset{' ', 'o', 'r', ' '};
    }
  }

  /** Each space adds three characters. */
  lemma {:induction false} ReplaceSpacesLength(s: string)
    ensures |ReplaceSpaces(s)| == |s| + 3 * multiset(s)[' ']
    decreases |s|
  {
    if s != [] {
      ReplaceSpacesLength(s[1..]);
      MultisetCons(s);
    }
  }

  /** The occurrences of `c` after the replacement: those in `s`, plus one
      per space when `c` is ' ', 'o' or 'r' (the text " or " holds two
      spaces, one 'o' and one 'r'). */
  lemma {:induction false} ReplaceSpacesCount(s: string, c: char)
    ensures multiset(ReplaceSpaces(s))[c] ==
      multiset(s)[c] + (if c == ' ' || c == 'o' || c == 'r' then multiset(s)[' '] else 0)
    decreases |s|
  {
    if s != [] {
      ReplaceSpacesCount(s[1..], c);
      ReplacementCount(s[0], c);
      MultisetCons(s);
      assert multiset(ReplaceSpaces(s)) == multiset(Replacement(s[0])) + multiset(ReplaceSpaces(s[1..]));
    }
  }

  /** Every space grows by three characters and becomes two spaces (those
      around "or"); every other character stays, so only 'o' and 'r' gain
      one occurrence per space. */
  lemma ReplaceSpacesCounts(s: string)
    ensures |ReplaceSpaces(s)| == |s| + 3 * multiset(s)[' ']
    ensures multiset(ReplaceSpaces(s))[' '] == 2 * multiset(s)[' ']
    ensures forall c :: c != ' ' ==>
      multiset(ReplaceSpaces(s))[c] == multiset(s)[c] + (if c == 'o' || c == 'r' then multiset(s)[' '] else 0)
  {
    ReplaceSpacesLength(s);
    ReplaceSpacesCount(s, ' ');
    forall c | c != ' '
      ensures multiset(ReplaceSpaces(s))[c] == multiset(s)[c] + (if c == 'o' || c == 'r' then multiset(s)[' '] else 0)
    {
      ReplaceSpacesCount(s, c);
    }
  }

  /** Reads a query string back, left to right: every space starts an
      inserted " or ", which becomes one space again. */
  function RestoreSpaces(q: string): string
    decreases |q|
  {
    if q == [] then []
    else if |q| >= 4 && q[..4] == " or " then " " + RestoreSpaces(q[4..])
    else [q[0]] + RestoreSpaces(q[1..])
  }

  /** Restoring after a prefix whose last inserted text is complete. */
  lemma {:induction false} RestoreAppend(s: string, tail: string)
    ensures RestoreSpaces(ReplaceSpaces(s) + tail) == s + RestoreSpaces(tail)
    decreases |s|
  {
    if s == [] {
      assert ReplaceSpaces(s) + tail == tail;
    } else {
      var c := s[0];
      var rest := s[1..];
      var x := ReplaceSpaces(rest) + tail;
      calc {
        RestoreSpaces(ReplaceSpaces(s) + tail);
      == { ConcatAssoc(Replacement(c), ReplaceSpaces(rest), tail); }
        RestoreSpaces(Replacement(c) + x);
      == { RestorePiece(c, x); }
        [c] + RestoreSpaces(x);
      == { RestoreAppend(rest, tail); }
        [c] + (rest + RestoreSpaces(tail));
      == { assert s == [c] + rest; }
        s + RestoreSpaces(tail);
      }
    }
  }

  /** The text one character turns into reads back as that character. */
  lemma RestorePiece(c: char, rest: string)
    ensures RestoreSpaces(Replacement(c) + rest) == [c] + RestoreSpaces(rest)
  {
    var q := Replacement(c) + rest;
    if c == ' ' {
      assert q[..4] == " or " && q[4..] == rest;
    } else {
      assert q[0] == c && q[1..] == rest;
      assert |q| >= 4 ==> q[..4][0] == c;
    }
  }

  /** Replacing the spaces loses nothing: the original keywords can be read
      back from the query, so different keywords give different queries. */
  lemma ReplaceSpacesRoundTrip(s: string)
    ensures RestoreSpaces(ReplaceSpaces(s)) == s
  {
    RestoreAppend(s, []);
    assert ReplaceSpaces(s) + [] == ReplaceSpaces(s);
  }

  /** The full-text query for keywords: the spaces replaced by " or " and the
      whole wrapped in single quotes. */
  function KeywordQuery(keywords: string): (q: string)
    ensures |q| >= 2 && q[0] == '\'' && q[|q| - 1] == '\''
    ensures q[1..|q| - 1] == ReplaceSpaces(keywords)
    ensures RestoreSpaces(q[1..|q| - 1]) == keywords
  {
    ReplaceSpacesRoundTrip(keywords);
    var q := "'" + ReplaceSpaces(keywords) + "'";
    assert q[1..|q| - 1] == ReplaceSpaces(keywords);
    q
  }

  /** The columns of the `social` table that `search` queries: "authorId",
      "codeLanguage", "code" and "instructions" (search.ts:9, 21, 35, 51). */
  datatype Column = AuthorId | CodeLanguage | Code | Instructions

  /** A query sent to the `social` table. */
  datatype StoreQuery =
    | Equals(column: Column, value: string)
    | TextSearch(column: Column, query: string)

  /** The author query, issued for a truthy author filter (search.ts:68-70). */
  function AuthorQueries(userId: Option<string>): (qs: seq<StoreQuery>)
    ensures Truthy(userId) <==> Equals(AuthorId, userId.GetOr("")) in qs
    ensures |qs| == if Truthy(userId) then 1 else 0
    ensures forall q :: q in qs ==> q.Equals? && q.column == AuthorId
  {
    if Truthy(userId) then [Equals(AuthorId, userId.value)] else []
  }

  /** The language query, issued for a truthy language (search.ts:72-74). */
  function LanguageQueries(language: Option<string>): (qs: seq<StoreQuery>)
    ensures Truthy(language) <==> Equals(CodeLanguage, language.GetOr("")) in qs
    ensures |qs| == if Truthy(language) then 1 else 0
    ensures forall q :: q in qs ==> q.Equals? && q.column == CodeLanguage
  {
    if Truthy(language) then [Equals(CodeLanguage, language.value)] else []
  }

  /** The two full-text searches, issued for truthy keywords with one query
      text (search.ts:76-79). */
  function KeywordQueries(keywords: Option<string>): (qs: seq<StoreQuery>)
    ensures Truthy(keywords) <==> TextSearch(Code, KeywordQuery(keywords.GetOr(""))) in qs
    ensures Truthy(keywords) <==> TextSearch(Instructions, KeywordQuery(keywords.GetOr(""))) in qs
    ensures |qs| == if Truthy(keywords) then 2 else 0
    ensures forall q :: q in qs ==> q.TextSearch?
  {
    var query := KeywordQuery(keywords.GetOr(""));
    if Truthy(keywords) then [TextSearch(Code, query), TextSearch(Instructions, query)] else []
  }

  /** The backend queries `search` issues (search.ts:68-84): one per active
      filter, and for keywords two full-text searches, on the code and on the
      description, with the same query text, and nothing else. */
  function IssuedQueries(userId: Option<string>, language: Option<string>, keywords: Option<string>)
    : (qs: seq<StoreQuery>)
    ensures Truthy(userId) <==> Equals(AuthorId, userId.GetOr("")) in qs
    ensures Truthy(language) <==> Equals(CodeLanguage, language.GetOr("")) in qs
    ensures Truthy(keywords) <==> TextSearch(Code, KeywordQuery(keywords.GetOr(""))) in qs
    ensures Truthy(keywords) <==> TextSearch(Instructions, KeywordQuery(keywords.GetOr(""))) in qs
    ensures |qs| == ActiveCount(userId, language, keywords) + (if Truthy(keywords) then 1 else 0)
  {
    var u := AuthorQueries(userId);
    var l := LanguageQueries(language);
    var k := KeywordQueries(keywords);
    assert forall q :: q in u + l + k <==> q in u || q in l || q in k;
    u + l + k
  }

  // ---------------------------------------------------------------------------
  // One sub-search (search.ts:6-61)
  // ---------------------------------------------------------------------------

  /** What one backend query returns: an error, the rows, or no data at all. */
  datatype SearchResponse = ResponseError | ResponseRows(rows: seq<SocialPost>) | ResponseNoData

  /** `x ?? []`. */
  function OrEmpty(x: Option<seq<DisplayPost>>): seq<DisplayPost> {
    x.GetOr([])
  }

  /** searchByUser, searchByLanguage, searchCodeByKeywords and
      searchDesByKeywords all end alike: undefined on an error or when there
      is no data, otherwise the display posts of the rows. Under `?? []` an
      error or missing data therefore contributes an empty list. */
  function SubSearch(response: SearchResponse, lookup: string -> GetPosts.AuthorLookup)
    : (r: Option<seq<DisplayPost>>)
    ensures r.None? <==> !response.ResponseRows?
    ensures OrEmpty(r) == (if response.ResponseRows? then GetPosts.Project(response.rows, lookup) else [])
  {
    match response
    case ResponseError => None
    case ResponseRows(rows) => Some(GetPosts.Project(rows, lookup))
    case ResponseNoData => None
  }

  // ---------------------------------------------------------------------------
  // Filtering, de-duplication and sorting
  // ---------------------------------------------------------------------------

  /** The posts of `s` whose id is in `ids` (`keep`) or not in `ids`
      (`!keep`), in their order. */
  function FilterById(s: seq<DisplayPost>, ids: set<int>, keep: bool): (r: seq<DisplayPost>)
    ensures forall p :: p in r <==> p in s && ((p.id in ids) == keep)
    ensures IsSubsequence(r, s)
    decreases |s|
  {
    if s == [] then []
    else
      var init := s[..|s| - 1];
      var last := s[|s| - 1];
      var r := FilterById(init, ids, keep);
      assert s == init + [last];
      if (last.id in ids) == keep then
        SubsequenceKeep(r, init, last);
        r + [last]
      else
        SubsequenceDrop(r, init, last);
        r
  }

  /** The filter keeps every copy of a kept post, and no copy of another. */
  lemma {:induction false} FilterByIdCount(s: seq<DisplayPost>, ids: set<int>, keep: bool, p: DisplayPost)
    ensures multiset(FilterById(s, ids, keep))[p] == if (p.id in ids) == keep then multiset(s)[p] else 0
    decreases |s|
  {
    if s != [] {
      var init := s[..|s| - 1];
      var last := s[|s| - 1];
      FilterByIdCount(init, ids, keep, p);
      assert s == init + [last];
      assert multiset(s) == multiset(init) + multiset{last};
    }
  }

  /** Position `i` holds the first occurrence of its id in `s`. */
  ghost predicate IsFirstOccurrence(s: seq<DisplayPost>, i: int) {
    0 <= i < |s| && s[i].id !in Ids(s[..i])
  }

  /** `s.filter((post, index, self) => index === self.findIndex(p => p.id === post.id))`:
      the first occurrence of every id, in order. The result has pairwise
      distinct ids, the same ids as `s`, and holds exactly the elements that
      are first occurrences of their id. */
  function Dedup(s: seq<DisplayPost>): (r: seq<DisplayPost>)
    ensures DistinctIds(r)
    ensures Ids(r) == Ids(s)
    ensures IsSubsequence(r, s)
    decreases |s|
  {
    if s == [] then []
    else
      var init := s[..|s| - 1];
      var last := s[|s| - 1];
      var r := Dedup(init);
      assert s == init + [last];
      IdsAppend(init, last);
      IdsAppend(r, last);
      if last.id in Ids(init) then
        SubsequenceDrop(r, init, last);
        r
      else
        SubsequenceKeep(r, init, last);
        DistinctAppend(r, last);
        r + [last]
  }

  /** Appending a post with a new id keeps the ids distinct. */
  lemma DistinctAppend(s: seq<DisplayPost>, x: DisplayPost)
    requires DistinctIds(s) && x.id !in Ids(s)
    ensures DistinctIds(s + [x])
  {
    forall i | 0 <= i < |s|
      ensures (s + [x])[i].id != x.id
    {
      assert s[i] in s;
    }
  }

  /** A first occurrence of an id in a prefix is one in the whole list. */
  lemma FirstOccurrenceInit(s: seq<DisplayPost>, i: int)
    requires s != [] && 0 <= i < |s| - 1
    ensures IsFirstOccurrence(s[..|s| - 1], i) <==> IsFirstOccurrence(s, i)
  {
    assert s[..|s| - 1][..i] == s[..i];
  }

  /** De-duplication keeps exactly the first occurrence of every id. */
  lemma DedupFirstOccurrences(s: seq<DisplayPost>)
    ensures forall p :: p in Dedup(s) <==> exists i :: IsFirstOccurrence(s, i) && s[i] == p
  {
    forall p
      ensures p in Dedup(s) <==> exists i :: IsFirstOccurrence(s, i) && s[i] == p
    {
      if p in Dedup(s) {
        DedupKeptIsFirst(s, p);
      }
      if exists i :: IsFirstOccurrence(s, i) && s[i] == p {
        var i :| IsFirstOccurrence(s, i) && s[i] == p;
        DedupKeepsFirst(s, i);
      }
    }
  }

  /** Every post de-duplication keeps is the first occurrence of its id. */
  lemma {:induction false} DedupKeptIsFirst(s: seq<DisplayPost>, p: DisplayPost)
    requires p in Dedup(s)
    ensures exists i :: IsFirstOccurrence(s, i) && s[i] == p
    decreases |s|
  {
    var init := s[..|s| - 1];
    if p in Dedup(init) {
      DedupKeptIsFirst(init, p);
      var i :| IsFirstOccurrence(init, i) && init[i] == p;
      FirstOccurrenceInit(s, i);
    } else {
      assert IsFirstOccurrence(s, |s| - 1);
    }
  }

  /** De-duplication keeps the first occurrence of every id. */
  lemma {:induction false} DedupKeepsFirst(s: seq<DisplayPost>, i: int)
    requires IsFirstOccurrence(s, i)
    ensures s[i] in Dedup(s)
    decreases |s|
  {
    var init := s[..|s| - 1];
    if i < |s| - 1 {
      FirstOccurrenceInit(s, i);
      DedupKeepsFirst(init, i);
      assert s[i] == init[i];
    } else {
      assert s[i] == s[|s| - 1];
    }
  }

  /** De-duplicating one more post extends the earlier result, by that post
      exactly when its id is new. */
  lemma DedupExtends(s: seq<DisplayPost>)
    requires s != []
    ensures var r := Dedup(s[..|s| - 1]);
      && |r| <= |Dedup(s)|
      && Dedup(s)[..|r|] == r
      && (s[|s| - 1].id !in Ids(s[..|s| - 1]) ==> Dedup(s) == r + [s[|s| - 1]])
  {
    var r := Dedup(s[..|s| - 1]);
    assert Dedup(s) == r || Dedup(s) == r + [s[|s| - 1]];
    assert (r + [s[|s| - 1]])[..|r|] == r;
  }

  /** De-duplication keeps the first occurrences in their order: of two
      first occurrences, the earlier one comes first in the result. */
  lemma {:induction false} DedupOrder(s: seq<DisplayPost>, i: int, j: int)
    requires IsFirstOccurrence(s, i) && IsFirstOccurrence(s, j) && i < j
    ensures exists a, b :: 0 <= a < b < |Dedup(s)| && Dedup(s)[a] == s[i] && Dedup(s)[b] == s[j]
    decreases |s|
  {
    var init := s[..|s| - 1];
    var r := Dedup(init);
    var d := Dedup(s);
    DedupExtends(s);
    FirstOccurrenceInit(s, i);
    assert s[i] == init[i];
    if j < |s| - 1 {
      FirstOccurrenceInit(s, j);
      DedupOrder(init, i, j);
      var a, b :| 0 <= a < b < |r| && r[a] == init[i] && r[b] == init[j];
      assert d[..|r|][a] == d[a] && d[..|r|][b] == d[b];
      assert d[a] == s[i] && d[b] == s[j];
    } else {
      assert d == r + [s[j]];
      DedupKeepsFirst(init, i);
      var a :| 0 <= a < |r| && r[a] == init[i];
      assert d[a] == s[i] && d[|r|] == s[j];
    }
  }

  /** De-duplicating a list whose ids are already distinct changes nothing. */
  lemma {:induction false} DedupDistinct(s: seq<DisplayPost>)
    requires DistinctIds(s)
    ensures Dedup(s) == s
    decreases |s|
  {
    if s != [] {
      var init := s[..|s| - 1];
      assert DistinctIds(init);
      DedupDistinct(init);
      assert s[|s| - 1].id !in Ids(init);
      assert s == init + [s[|s| - 1]];
    }
  }

  /** Ordered by `created_at`, newest first. */
  ghost predicate NewestFirst(s: seq<DisplayPost>) {
    forall i, j :: 0 <= i < j < |s| ==> s[i].createdAt >= s[j].createdAt
  }

  /** Inserts `x` into a list ordered newest first, after every element that
      is at least as new (so equal timestamps keep their order). */
  function Insert(t: seq<DisplayPost>, x: DisplayPost): (r: seq<DisplayPost>)
    requires NewestFirst(t)
    ensures NewestFirst(r)
    ensures multiset(r) == multiset(t) + multiset{x}
    decreases |t|
  {
    if t == [] then [x]
    else if t[|t| - 1].createdAt >= x.createdAt then t + [x]
    else
      var init := t[..|t| - 1];
      var last := t[|t| - 1];
      assert t == init + [last];
      var r := Insert(init, x);
      InsertStep(init, last, x, r);
      r + [last]
  }

  /** The recursive case of `Insert`: `last` is older than `x` and than
      everything before it, so it can go after the insertion into `init`. */
  lemma InsertStep(init: seq<DisplayPost>, last: DisplayPost, x: DisplayPost, r: seq<DisplayPost>)
    requires NewestFirst(init + [last]) && last.createdAt < x.createdAt
    requires NewestFirst(r) && multiset(r) == multiset(init) + multiset{x}
    ensures NewestFirst(r + [last])
    ensures multiset(r + [last]) == multiset(init + [last]) + multiset{x}
  {
    var t := init + [last];
    forall i | 0 <= i < |r|
      ensures r[i].createdAt >= last.createdAt
    {
      assert r[i] in multiset(r);
      if r[i] != x {
        assert r[i] in multiset(init);
        var k :| 0 <= k < |init| && init[k] == r[i];
        assert t[k] == r[i] && t[|t| - 1] == last;
      }
    }
  }

  /** Inserting a post with a new id keeps the ids distinct. */
  lemma {:induction false} InsertDistinct(t: seq<DisplayPost>, x: DisplayPost)
    requires NewestFirst(t) && DistinctIds(t) && x.id !in Ids(t)
    ensures DistinctIds(Insert(t, x))
    decreases |t|
  {
    if t != [] && t[|t| - 1].createdAt < x.createdAt {
      var init := t[..|t| - 1];
      var last := t[|t| - 1];
      assert t == init + [last];
      assert DistinctIds(init);
      InsertDistinct(init, x);
      assert last.id !in Ids(init);
      SameElements(init + [x], Insert(init, x));
      DistinctAppend(Insert(init, x), last);
    } else if t != [] {
      DistinctAppend(t, x);
    }
  }

  /** `s.sort((a, b) => b.created_at - a.created_at)`: a stable sort, newest
      first; the result is ordered and a permutation of `s`. */
  function SortNewestFirst(s: seq<DisplayPost>): (r: seq<DisplayPost>)
    ensures NewestFirst(r)
    ensures multiset(r) == multiset(s)
    decreases |s|
  {
    if s == [] then []
    else
      assert s == s[..|s| - 1] + [s[|s| - 1]];
      Insert(SortNewestFirst(s[..|s| - 1]), s[|s| - 1])
  }

  /** Two permutations of each other have the same elements and ids. */
  lemma SameElements(a: seq<DisplayPost>, b: seq<DisplayPost>)
    requires multiset(a) == multiset(b)
    ensures forall p :: p in a <==> p in b
    ensures Ids(a) == Ids(b)
  {
    assert forall p :: p in a <==> p in multiset(a);
    assert forall p :: p in b <==> p in multiset(b);
  }

  /** Sorting keeps the ids distinct. */
  lemma {:induction false} SortDistinct(s: seq<DisplayPost>)
    requires DistinctIds(s)
    ensures DistinctIds(SortNewestFirst(s))
    decreases |s|
  {
    if s != [] {
      var init := s[..|s| - 1];
      assert s == init + [s[|s| - 1]];
      assert DistinctIds(init);
      SortDistinct(init);
      assert s[|s| - 1].id !in Ids(init);
      SameElements(init, SortNewestFirst(init));
      InsertDistinct(SortNewestFirst(init), s[|s| - 1]);
    }
  }

  /** Sorting an ordered list changes nothing. */
  lemma {:induction false} SortSorted(s: seq<DisplayPost>)
    requires NewestFirst(s)
    ensures SortNewestFirst(s) == s
    decreases |s|
  {
    if s != [] {
      var init := s[..|s| - 1];
      var last := s[|s| - 1];
      assert NewestFirst(init) by {
        forall i, j | 0 <= i < j < |init|
          ensures init[i].createdAt >= init[j].createdAt
        {
          assert init[i] == s[i] && init[j] == s[j];
        }
      }
      SortSorted(init);
      assert init != [] ==> init[|init| - 1] == s[|s| - 2];
      assert Insert(init, last) == init + [last];
      assert s == init + [last];
    }
  }

  // ---------------------------------------------------------------------------
  // Composition (search.ts:63-126)
  // ---------------------------------------------------------------------------

  /** The keyword result (search.ts:80-83): the code hits that are not also
      description hits, followed by all description hits. */
  function KeywordPosts(codeHits: seq<DisplayPost>, desHits: seq<DisplayPost>): (r: seq<DisplayPost>)
    ensures |r| >= |desHits| && r[|r| - |desHits|..] == desHits
    ensures forall p :: p in r[..|r| - |desHits|] ==> p in codeHits && p.id !in Ids(desHits)
    ensures IsSubsequence(r[..|r| - |desHits|], codeHits)
    ensures forall p :: multiset(r[..|r| - |desHits|])[p] == if p.id in Ids(desHits) then 0 else multiset(codeHits)[p]
    ensures forall p :: p in r <==> p in desHits || (p in codeHits && p.id !in Ids(desHits))
    ensures Ids(r) == Ids(codeHits) + Ids(desHits)
  {
    var codeOnly := FilterById(codeHits, Ids(desHits), false);
    var r := codeOnly + desHits;
    assert r[..|codeOnly|] == codeOnly;
    forall p
      ensures multiset(codeOnly)[p] == if p.id in Ids(desHits) then 0 else multiset(codeHits)[p]
    {
      FilterByIdCount(codeHits, Ids(desHits), false, p);
    }
    r
  }

  /** Number of active (truthy) filters. */
  function ActiveCount(userId: Option<string>, language: Option<string>, keywords: Option<string>): nat {
    (if Truthy(userId) then 1 else 0) + (if Truthy(language) then 1 else 0) + (if Truthy(keywords) then 1 else 0)
  }

  /** The list the intersection starts from: that of the first active filter
      in the order author, language, keywords. */
  function FirstActive(userId: Option<string>, language: Option<string>, keywords: Option<string>,
                       userPosts: seq<DisplayPost>, languagePosts: seq<DisplayPost>, keywordPosts: seq<DisplayPost>)
    : seq<DisplayPost>
  {
    if Truthy(userId) then userPosts
    else if Truthy(language) then languagePosts
    else if Truthy(keywords) then keywordPosts
    else []
  }

  /** `finalPosts` before de-duplication (search.ts:86-115). */
  function Combine(userId: Option<string>, language: Option<string>, keywords: Option<string>,
                   userPosts: seq<DisplayPost>, languagePosts: seq<DisplayPost>, keywordPosts: seq<DisplayPost>)
    : seq<DisplayPost>
  {
    if ActiveCount(userId, language, keywords) > 1 then
      var first := FirstActive(userId, language, keywords, userPosts, languagePosts, keywordPosts);
      var byLanguage :=
        if Truthy(language) && Truthy(userId) then FilterById(first, Ids(languagePosts), true) else first;
      if Truthy(keywords) && (Truthy(userId) || Truthy(language))
      then FilterById(byLanguage, Ids(keywordPosts), true)
      else byLanguage
    else
      userPosts + languagePosts + keywordPosts
  }

  /** The list a filter contributes: its sub-search result (or [] under
      `?? []`) when it is active, [] otherwise. */
  function FilterPosts(filter: Option<string>, result: Option<seq<DisplayPost>>): seq<DisplayPost> {
    if Truthy(filter) then OrEmpty(result) else []
  }

  /** The keyword list of the keyword filter, both sub-searches read under `?? []`. */
  function KeywordFilterPosts(keywords: Option<string>, byCode: Option<seq<DisplayPost>>, byDes: Option<seq<DisplayPost>>)
    : seq<DisplayPost>
  {
    if Truthy(keywords) then KeywordPosts(OrEmpty(byCode), OrEmpty(byDes)) else []
  }

  /** The candidates of a search before de-duplication and sorting. */
  function Candidates(userId: Option<string>, language: Option<string>, keywords: Option<string>,
                      byUser: Option<seq<DisplayPost>>, byLanguage: Option<seq<DisplayPost>>,
                      byCode: Option<seq<DisplayPost>>, byDes: Option<seq<DisplayPost>>)
    : seq<DisplayPost>
  {
    Combine(userId, language, keywords,
            FilterPosts(userId, byUser), FilterPosts(language, byLanguage),
            KeywordFilterPosts(keywords, byCode, byDes))
  }

  /** `search(userId, language, keywords)`, given what each sub-search
      returned (a sub-search of an inactive filter is never issued and its
      argument is ignored). The result has distinct ids, is ordered newest
      first, and is a permutation of the de-duplicated candidates. */
  function Search(userId: Option<string>, language: Option<string>, keywords: Option<string>,
                  byUser: Option<seq<DisplayPost>>, byLanguage: Option<seq<DisplayPost>>,
                  byCode: Option<seq<DisplayPost>>, byDes: Option<seq<DisplayPost>>)
    : (r: seq<DisplayPost>)
    ensures DistinctIds(r)
    ensures NewestFirst(r)
    ensures multiset(r) == multiset(Dedup(Candidates(userId, language, keywords, byUser, byLanguage, byCode, byDes)))
    ensures Ids(r) == Ids(Candidates(userId, language, keywords, byUser, byLanguage, byCode, byDes))
  {
    var unique := Dedup(Candidates(userId, language, keywords, byUser, byLanguage, byCode, byDes));
    SortDistinct(unique);
    SameElements(unique, SortNewestFirst(unique));
    SortNewestFirst(unique)
  }

  // ---------------------------------------------------------------------------
  // Properties of the composition
  // ---------------------------------------------------------------------------

  /** With no active filter the search finds nothing. */
  lemma NoFilterEmpty(userId: Option<string>, language: Option<string>, keywords: Option<string>,
                      byUser: Option<seq<DisplayPost>>, byLanguage: Option<seq<DisplayPost>>,
                      byCode: Option<seq<DisplayPost>>, byDes: Option<seq<DisplayPost>>)
    requires ActiveCount(userId, language, keywords) == 0
    ensures Search(userId, language, keywords, byUser, byLanguage, byCode, byDes) == []
  {
    var r := Search(userId, language, keywords, byUser, byLanguage, byCode, byDes);
    assert Candidates(userId, language, keywords, byUser, byLanguage, byCode, byDes) == [];
    assert |multiset(r)| == 0;
  }

  /** With exactly one active filter the result is that filter's list,
      de-duplicated and sorted. */
  lemma SingleFilter(userId: Option<string>, language: Option<string>, keywords: Option<string>,
                     byUser: Option<seq<DisplayPost>>, byLanguage: Option<seq<DisplayPost>>,
                     byCode: Option<seq<DisplayPost>>, byDes: Option<seq<DisplayPost>>)
    requires ActiveCount(userId, language, keywords) == 1
    ensures Search(userId, language, keywords, byUser, byLanguage, byCode, byDes)
         == SortNewestFirst(Dedup(
              if Truthy(userId) then OrEmpty(byUser)
              else if Truthy(language) then OrEmpty(byLanguage)
              else KeywordPosts(OrEmpty(byCode), OrEmpty(byDes))))
  {
    SingleCandidates(userId, language, keywords, byUser, byLanguage, byCode, byDes);
  }

  /** With one active filter, `Combine` concatenates the three lists. */
  lemma CombineSingle(userId: Option<string>, language: Option<string>, keywords: Option<string>,
                      userPosts: seq<DisplayPost>, languagePosts: seq<DisplayPost>, keywordPosts: seq<DisplayPost>)
    requires ActiveCount(userId, language, keywords) == 1
    ensures Combine(userId, language, keywords, userPosts, languagePosts, keywordPosts)
         == userPosts + languagePosts + keywordPosts
  {
  }

  /** With exactly one active filter the candidates are that filter's list. */
  lemma SingleCandidates(userId: Option<string>, language: Option<string>, keywords: Option<string>,
                         byUser: Option<seq<DisplayPost>>, byLanguage: Option<seq<DisplayPost>>,
                         byCode: Option<seq<DisplayPost>>, byDes: Option<seq<DisplayPost>>)
    requires ActiveCount(userId, language, keywords) == 1
    ensures Candidates(userId, language, keywords, byUser, byLanguage, byCode, byDes)
         == if Truthy(userId) then OrEmpty(byUser)
            else if Truthy(language) then OrEmpty(byLanguage)
            else KeywordPosts(OrEmpty(byCode), OrEmpty(byDes))
  {
    var u := FilterPosts(userId, byUser);
    var l := FilterPosts(language, byLanguage);
    var k := KeywordFilterPosts(keywords, byCode, byDes);
    CombineSingle(userId, language, keywords, u, l, k);
    if Truthy(userId) {
      assert l == [] && k == [];
      assert u + l + k == u;
    } else if Truthy(language) {
      assert u == [] && k == [];
      assert u + l + k == l;
    } else {
      assert u == [] && l == [];
      assert u + l + k == k;
    }
  }

  /** With two or more active filters, a candidate is exactly an element of
      the first active list whose id occurs in every active list, and the
      candidates keep that list's order. */
  lemma {:induction false} Intersection(userId: Option<string>, language: Option<string>, keywords: Option<string>,
                       userPosts: seq<DisplayPost>, languagePosts: seq<DisplayPost>, keywordPosts: seq<DisplayPost>)
    requires ActiveCount(userId, language, keywords) >= 2
    ensures var first := FirstActive(userId, language, keywords, userPosts, languagePosts, keywordPosts);
      && IsSubsequence(Combine(userId, language, keywords, userPosts, languagePosts, keywordPosts), first)
      && forall p :: p in Combine(userId, language, keywords, userPosts, languagePosts, keywordPosts) <==>
           && p in first
           && (Truthy(userId) ==> p.id in Ids(userPosts))
           && (Truthy(language) ==> p.id in Ids(languagePosts))
           && (Truthy(keywords) ==> p.id in Ids(keywordPosts))
  {
    var first := FirstActive(userId, language, keywords, userPosts, languagePosts, keywordPosts);
    var byLanguage :=
      if Truthy(language) && Truthy(userId) then FilterById(first, Ids(languagePosts), true) else first;
    if !(Truthy(language) && Truthy(userId)) {
      SubsequenceRefl(first);
    }
    if Truthy(keywords) && (Truthy(userId) || Truthy(language)) {
      var r := FilterById(byLanguage, Ids(keywordPosts), true);
      SubsequenceTrans(r, byLanguage, first);
    }
  }

  /** What `Intersection` says, read off the search result. */
  lemma IntersectionResult(userId: Option<string>, language: Option<string>, keywords: Option<string>,
                           byUser: Option<seq<DisplayPost>>, byLanguage: Option<seq<DisplayPost>>,
                           byCode: Option<seq<DisplayPost>>, byDes: Option<seq<DisplayPost>>)
    requires ActiveCount(userId, language, keywords) >= 2
    ensures forall p :: p in Search(userId, language, keywords, byUser, byLanguage, byCode, byDes) ==>
      && p in FirstActive(userId, language, keywords, FilterPosts(userId, byUser), FilterPosts(language, byLanguage),
                          KeywordFilterPosts(keywords, byCode, byDes))
      && (Truthy(userId) ==> p.id in Ids(OrEmpty(byUser)))
      && (Truthy(language) ==> p.id in Ids(OrEmpty(byLanguage)))
      && (Truthy(keywords) ==> p.id in Ids(OrEmpty(byCode)) + Ids(OrEmpty(byDes)))
  {
    var u := FilterPosts(userId, byUser);
    var l := FilterPosts(language, byLanguage);
    var k := KeywordFilterPosts(keywords, byCode, byDes);
    Intersection(userId, language, keywords, u, l, k);
    var c := Combine(userId, language, keywords, u, l, k);
    var r := Search(userId, language, keywords, byUser, byLanguage, byCode, byDes);
    SubsequenceMembers(Dedup(c), c);
    SameElements(Dedup(c), r);
    forall p | p in r
      ensures p in c
    {
      assert p in multiset(Dedup(c));
    }
  }

  /** An author and a language filter with no post id in common give an empty
      result, whatever the keyword filter. */
  lemma DisjointFiltersEmpty(userId: Option<string>, language: Option<string>, keywords: Option<string>,
                             byUser: Option<seq<DisplayPost>>, byLanguage: Option<seq<DisplayPost>>,
                             byCode: Option<seq<DisplayPost>>, byDes: Option<seq<DisplayPost>>)
    requires Truthy(userId) && Truthy(language)
    requires Ids(OrEmpty(byUser)) !! Ids(OrEmpty(byLanguage))
    ensures Search(userId, language, keywords, byUser, byLanguage, byCode, byDes) == []
  {
    var r := Search(userId, language, keywords, byUser, byLanguage, byCode, byDes);
    IntersectionResult(userId, language, keywords, byUser, byLanguage, byCode, byDes);
    if r != [] {
      assert false;
    }
  }

  /** The result is a fixed point of both de-duplication and re-sorting. */
  lemma SearchIdempotent(userId: Option<string>, language: Option<string>, keywords: Option<string>,
                         byUser: Option<seq<DisplayPost>>, byLanguage: Option<seq<DisplayPost>>,
                         byCode: Option<seq<DisplayPost>>, byDes: Option<seq<DisplayPost>>)
    ensures var r := Search(userId, language, keywords, byUser, byLanguage, byCode, byDes);
      Dedup(r) == r && SortNewestFirst(r) == r
  {
    var r := Search(userId, language, keywords, byUser, byLanguage, byCode, byDes);
    DedupDistinct(r);
    SortSorted(r);
  }
}
