# share-a-code-learn, modelled in Dafny

share-a-code-learn is a small web application where authors share code
snippets ("posts") with instructions. Readers can like a post, copy its
link, browse a feed, search by author, language or keywords, and open an
author's profile. This project models the application's own logic. Every
backend query, identity lookup and browser API it calls becomes an input.

- `Types.dfy`: the records of `src/lib/types.ts`, plus `Option`, `Result` and
  `QueryResult` for `undefined`/`null`, thrown errors and backend
  responses. `Truthy` is JavaScript truthiness of a `string | null`.
- `Seqs.dfy`: order-preserving subsequences. These state that a filter keeps
  the order of what it keeps.
- `GetPosts.dfy` covers `src/lib/get-posts.ts`:
  - the feed sample: an in-place sort by date, a prefix of random length
    10 to 15, then an in-place sort by likes;
  - the display projection, which skips posts whose author lookup fails;
  - `getPostById`.
- `Search.dfy` covers `src/lib/search.ts`:
  - the full-text query string;
  - how one sub-search ends;
  - the composition: the keyword merge, intersection by id, de-duplication
    and the newest-first sort.
- `GetUsers.dfy` covers `src/lib/get-users.ts`:
  - `mostFrequent`, with its frequency map, running maximum and tie rule;
  - the author summary built around it.
- `SearchBar.dfy` covers `src/components/custom/SearchBar.tsx`:
  - the rule that turns the selected language and typed keywords into the
    search page's parameters, or refuses them;
  - the component's error/clear state.
- `FeedPage.dfy` covers the state of the feed page (`src/app/page.tsx`):
  loading the feed, likes and link sharing. The search page handles likes
  and shares with the same code.
- `UsersPage.dfy` covers the profile page (`src/app/users/page.tsx`):
  - the `@` handle, the profile card and its defaults;
  - the reaction to the `userId` parameter and to the request's outcome.

Code that changes state step by step is written as methods:
- the in-place sorts on arrays;
- the `getDisplayPosts`, `mostFrequent` and language-collection loops;
- the search bar and feed page components, as classes whose methods update
  fields.

Each such method is proved against predicates and functions whose
properties are lemmas. The expression-level code is written as functions
and lemmas: search composition, the projection and the profile helpers.

With a single active filter the list is still de-duplicated
(`search.ts:119-121`), and the model does so too: a sub-search's rows, and
so the keyword list, can repeat an id.

## Model

| member | source | states |
|---|---|---|
| Search.ReplaceSpaces | src/lib/search.ts:32 | `replaceAll(" ", " or ")`, replacing character by character; what it does is stated by ReplaceSpacesRoundTrip and ReplaceSpacesCounts |
| Search.ReplaceSpacesRoundTrip | src/lib/search.ts:32 | replacing every space by " or " loses nothing: reading " or " back as a space gives the keywords again |
| Search.ReplaceSpacesCounts | src/lib/search.ts:32 | the replacement adds three characters per space; the result has two spaces per original space, one extra 'o' and one extra 'r' per space, and every other character as often as before |
| Search.KeywordQuery | src/lib/search.ts:32-33 | the query starts and ends with a single quote, and between them is exactly the keyword text with every space replaced by " or ", from which the keywords can be read back |
| Search.IssuedQueries | src/lib/search.ts:68-84 | an author query on authorId is issued exactly when the author filter is truthy, and a language query on codeLanguage exactly when the language is truthy, each carrying its filter value. Full-text searches on code and on instructions, with the same query text, are issued exactly when the keywords are truthy (lines 48-49 build that text like lines 32-33). No other query on the `social` table is issued: the count is the number of truthy filters, plus one for keywords |
| Search.SubSearch | src/lib/search.ts:7-17 | a sub-search gives undefined exactly when the store errs or returns no data, so under `?? []` it contributes the empty list; otherwise it gives the display list of the rows |
| Search.FilterById | src/lib/search.ts:80-82 | an element is kept exactly when it is in the input and its id's membership in the id set is as asked; the kept elements keep their order |
| Search.FilterByIdCount | src/lib/search.ts:80-82 | the filter keeps every copy of a post that passes and no copy of one that does not |
| Search.KeywordPosts | src/lib/search.ts:80-83 | the keyword list ends with all description hits. Before them come the code hits whose id is not a description hit: in their order, every copy of each, and nothing else. Its elements are exactly those; its ids are the union of both hit lists' ids |
| Search.Dedup | src/lib/search.ts:119-121 | the result has pairwise distinct ids, has the same ids as the input, and is an order-preserving subsequence of it |
| Search.DedupFirstOccurrences | src/lib/search.ts:119-121 | a post is kept exactly when it is the first occurrence of its id |
| Search.DedupOrder | src/lib/search.ts:119-121 | of two first occurrences, the earlier comes first in the result, so the kept posts are in input order |
| Search.DedupDistinct | src/lib/search.ts:119-121 | a list whose ids are already distinct is left unchanged |
| Search.SortNewestFirst | src/lib/search.ts:123-125 | the sorted list is ordered by created_at, newest first, and is a permutation of the input |
| Search.SortDistinct | src/lib/search.ts:123-125 | sorting keeps the ids distinct |
| Search.SortSorted | src/lib/search.ts:123-125 | sorting a list already ordered newest first changes nothing |
| Search.Search | src/lib/search.ts:63-126 | the result has distinct ids, is ordered newest first, is a permutation of the de-duplicated candidate list, and has the same ids as the candidates |
| Search.NoFilterEmpty | src/lib/search.ts:68-116 | with no truthy filter the search returns the empty list |
| Search.SingleFilter | src/lib/search.ts:113-125 | with exactly one truthy filter the result is that filter's list, with `?? []` applied, de-duplicated and sorted newest first |
| Search.Combine | src/lib/search.ts:86-116 | `finalPosts`: with two or more truthy filters, the first active list filtered by the later ones (characterised by Intersection); otherwise the three lists concatenated (CombineSingle) |
| Search.CombineSingle | src/lib/search.ts:113-116 | with exactly one truthy filter, `finalPosts` is the concatenation of the three lists |
| Search.Intersection | src/lib/search.ts:90-112 | with two or more truthy filters, a candidate is exactly an element of the first active list (author, then language, then keywords) whose id occurs in every active list, and the candidates keep that list's order |
| Search.IntersectionResult | src/lib/search.ts:90-125 | with two or more truthy filters, every result is drawn from the first active list, and its id occurs in each active filter's sub-search results |
| Search.DisjointFiltersEmpty | src/lib/search.ts:101-105 | an author filter and a language filter with no id in common give an empty result, whatever the keywords |
| Search.SearchIdempotent | src/lib/search.ts:118-125 | the result is unchanged by de-duplicating it again and by sorting it again |
| GetPosts.ToDisplay | src/lib/get-posts.ts:50-51 | a display post copies every field of the post (dropping the avatar gives the post back); its image is the author's avatar, or "/shareacode.png" when there is none |
| GetPosts.Displayed | src/lib/get-posts.ts:46-51 | a post is displayed exactly when its author lookup succeeds; its display post drops back to the post, with the avatar from the lookup or "/shareacode.png" |
| GetPosts.Project | src/lib/get-posts.ts:45-53 | the display list is no longer than the posts, and a display post is in it exactly when some post whose author lookup succeeds yields it |
| GetPosts.ProjectAppend | src/lib/get-posts.ts:45-53 | the projection of a concatenation is the concatenation of the projections (the input order is kept) |
| GetPosts.ProjectIsSubsequence | src/lib/get-posts.ts:45-53 | with the avatars dropped, the display list is an order-preserving subsequence of the posts, and every post in it had a successful author lookup |
| GetPosts.GetDisplayPosts | src/lib/get-posts.ts:42-54 | the loop that skips failed lookups and pushes the other posts builds exactly the display list |
| GetPosts.GetPostById | src/lib/get-posts.ts:30-40 | undefined on a store error. With rows, undefined exactly when no row's author can be looked up; otherwise the display post of the first row whose author lookup succeeds (`[0]` of the display list) |
| GetPosts.ProjectFirst | src/lib/get-posts.ts:39-53 | a non-empty display list starts with the display post of the first row whose author lookup succeeds; every row before it fails its lookup |
| GetPosts.GetPostByIdHasId | src/lib/get-posts.ts:32-39 | when every selected row has the requested id, the post returned has it too |
| GetPosts.InsertAt | src/lib/get-posts.ts:16-18 | one insertion step of the in-place sort: a sorted prefix grows by one element, later elements are untouched, and the array keeps the same posts |
| GetPosts.SortDescending | src/lib/get-posts.ts:16-18 | after the in-place sort the array is ordered by the key, largest first, and holds the same posts (used for created_at here and for likes at line 25) |
| GetPosts.SampleCount | src/lib/get-posts.ts:21 | `Math.floor(Math.random() * 6) + 10` lies in 10..15 |
| GetPosts.NewestPrefix | src/lib/get-posts.ts:16-22 | a reordered prefix of the date-sorted list leaves out no post newer than one it keeps |
| GetPosts.SampleFeed | src/lib/get-posts.ts:15-25 | the sample has length min(k, number of posts), is drawn from the posts, is ordered by likes (most first), and no post left out is newer than one taken |
| GetPosts.GetPosts | src/lib/get-posts.ts:6-27 | undefined exactly on a store error; otherwise the display list of a feed sample, at most 15 posts and never more than were fetched |
| GetUsers.MaxCount | src/lib/get-users.ts:13-21 | the value maxCount tracks: no value occurs more often, and in a non-empty list some value occurs that often |
| GetUsers.FrequencyStep | src/lib/get-users.ts:14-15 | counting one more element keeps the map equal to the exact occurrence counts of the processed prefix |
| GetUsers.CountStep | src/lib/get-users.ts:17-20 | a strictly larger count makes the current element the first to reach the new maximum; otherwise the maximum and its first holder stay |
| GetUsers.CountingStep | src/lib/get-users.ts:13-21 | one iteration keeps the loop invariant: exact counts, maxCount the maximum count of the prefix, and the kept element the first to reach it |
| GetUsers.FirstToReachIsMaximal | src/lib/get-users.ts:13-23 | the element that first reached the maximal count occurs in the input and at least as often as any element |
| GetUsers.MostFrequentUnique | src/lib/get-users.ts:17-20 | under the strict `>` tie rule the answer is unique: two elements cannot both be the first to reach the maximal count |
| GetUsers.MostFrequent | src/lib/get-users.ts:6-24 | undefined exactly for the empty input; otherwise an element of the input whose count is at least every element's count, and the one that first reached that count |
| GetUsers.GetUserDetailsById | src/lib/get-users.ts:26-62 | a failed user lookup throws "Failed to get user: " plus the message, or "Unknown error" when it is empty. Otherwise: name and avatar are copied; userName defaults to ""; hasGithub holds exactly when iss is "https://api.github.com"; a failed post query gives 0 posts and "No Coding Data"; otherwise postsNumber is the number of posts, "No Coding Data" comes when there are none, and otherwise the most frequent post language |
| GetUsers.UserErrorMessage | src/lib/get-users.ts:36 | the thrown text: "Failed to get user: " followed by the message, or by "Unknown error" when it is empty; see UserErrorMessageNames |
| GetUsers.UserErrorMessageNames | src/lib/get-users.ts:36 | two lookup messages give the same text only when they are equal, or are "" and "Unknown error" |
| SearchBar.TrimStart | src/components/custom/SearchBar.tsx:34 | the result is a suffix of the input, everything dropped is whitespace, and it does not start with whitespace |
| SearchBar.TrimEnd | src/components/custom/SearchBar.tsx:34 | the result is a prefix of the input, everything dropped is whitespace, and it does not end with whitespace |
| SearchBar.Trim | src/components/custom/SearchBar.tsx:34-44 | `trim()`: the result stands in the input with only whitespace before and after it, and neither starts nor ends with whitespace |
| SearchBar.TrimEmpty | src/components/custom/SearchBar.tsx:34 | `trim()` gives the empty string exactly when every character is ECMAScript whitespace |
| SearchBar.SearchLanguage | src/components/custom/SearchBar.tsx:39-41 | searchLanguage is set exactly when a language other than "no-language" was selected, and then it is that language |
| SearchBar.SearchKeywords | src/components/custom/SearchBar.tsx:42-44 | searchKeywords is set exactly when the keywords are present and not only whitespace, and then it is the untrimmed text |
| SearchBar.ParamsForFits | src/components/custom/SearchBar.tsx:46-53 | appending the language pair (when set) and then the keywords pair (when set) meets the parameter description |
| SearchBar.BuildSearchParams | src/components/custom/SearchBar.tsx:30-53 | refused exactly when the language is absent or "no-language" and the keywords are absent or only whitespace. Otherwise the parameters use only the language and keywords keys, each at most once, language first. The language key is present exactly when searchLanguage is set, and the keywords key exactly when searchKeywords is set, each carrying that value |
| SearchBar.SearchParamsShape | src/components/custom/SearchBar.tsx:39-53 | any parameter list that meets that description is the language pair (when chosen) followed by the keywords pair (when given) |
| SearchBar.SearchParamsUnique | src/components/custom/SearchBar.tsx:39-53 | at most one parameter list meets the description for a given input |
| SearchBar.SearchParamsBounds | src/components/custom/SearchBar.tsx:34-53 | an accepted input yields one or two parameters |
| SearchBar.SearchBarState.constructor | src/components/custom/SearchBar.tsx:16-18 | nothing selected, nothing typed, no error |
| SearchBar.SearchBarState.Disabled | src/components/custom/SearchBar.tsx:123 | `disabled={!!error}`: the button is disabled exactly when the error is a non-empty string; what a disabled button then does is stated by ClickSearch, and HandleLanguage and HandleKeywords prove that either input re-enables it |
| SearchBar.SearchBarState.HandleLanguage | src/components/custom/SearchBar.tsx:20-23 | the selection is recorded, a shown error is cleared, the keywords stay; the button is enabled afterwards |
| SearchBar.SearchBarState.HandleKeywords | src/components/custom/SearchBar.tsx:25-28 | the typed text is recorded, a shown error is cleared, the language stays; the button is enabled afterwards |
| SearchBar.SearchBarState.HandleSearch | src/components/custom/SearchBar.tsx:30-57 | a refused input sets "Pass an input before searching" and leads nowhere; an accepted one yields the parameter list and leaves the state alone |
| SearchBar.SearchBarState.ClickSearch | src/components/custom/SearchBar.tsx:119-124 | while an error is shown the button does nothing; otherwise the search runs on the current language and keywords, a refusal sets the error to "Pass an input before searching" (line 35) and so disables the button, and an accepted search leaves the error as it was |
| FeedPage.WithLikeAdded | src/app/page.tsx:57-63 | the list keeps its length, order and ids; the posts with the liked id gain exactly one like and nothing else changes; every other post is unchanged |
| FeedPage.LikesAddedTotal | src/app/page.tsx:57-63 | the total number of likes grows by the number of posts carrying the liked id |
| FeedPage.LikeAddsOne | src/app/page.tsx:57-63 | on a list whose ids are distinct and which shows the liked post, the total grows by exactly one and the ids stay distinct |
| FeedPage.LikeOnAbsentPost | src/app/page.tsx:58-62 | a like on a post that is not on show leaves the list unchanged |
| FeedPage.FeedPageState.constructor | src/app/page.tsx:30-33 | no posts, loading, no error, nothing shared |
| FeedPage.FeedPageState.FetchPosts | src/app/page.tsx:37-49 | loading is false once the fetch ends. An undefined feed sets "Failed to load posts" and keeps the posts; a returned feed is shown as is; a throw changes neither |
| FeedPage.FeedPageState.IncreaseLikes | src/app/page.tsx:53-68 | after a stored like the posts are the list with the like added; after a failed store call nothing changes |
| FeedPage.FeedPageState.CopyToClipboard | src/app/page.tsx:71-85 | a successful copy adds the post id to the shared set; a failed copy leaves it alone; nothing else changes |
| FeedPage.FeedPageState.ExpireShare | src/app/page.tsx:75-81 | the timeout removes exactly the post id from the shared set |
| FeedPage.FeedPageState.ShareAndExpire | src/app/page.tsx:72-84 | a successful copy followed by the timeout it armed leaves the post unmarked and every other marker as it was; a failed copy arms no timeout and changes nothing |
| UsersPage.GetUserUserName | src/app/users/page.tsx:31-37 | the empty name stays empty; any other name gets "@" prepended: the handle starts with '@', is one longer, and has the name after it |
| UsersPage.UserNameInjective | src/app/users/page.tsx:31-37 | different names give different handles |
| UsersPage.Initial | src/app/users/page.tsx:118 | one character: the first character of the name, or "U" when the name is missing, empty or starts with a space |
| UsersPage.Card | src/app/users/page.tsx:109-132 | the link is "#" exactly when the author has no GitHub, and otherwise the author's GitHub address (a null name shown as "null"). The handle is built from the name or "". The avatar defaults to "/shareacode.png", the post count to 0 and the language to "No Language" |
| UsersPage.CardOfLoadedUser | src/app/users/page.tsx:112-132 | for an author produced by getUserDetailsById no default is shown: the real user name, post count and language appear |
| UsersPage.InitialProfile | src/app/users/page.tsx:46-48 | the first state: before the effect runs, the page shows "User not found" for any truthy id and asks for an id otherwise |
| UsersPage.OnUserId | src/app/users/page.tsx:50-75 | a fetch is issued exactly for a truthy, valid id, which starts loading and clears the error; an invalid id sets "Invalid user ID" and fetches nothing; a missing id changes nothing |
| UsersPage.OnDetails | src/app/users/page.tsx:63-73 | the request's end stops loading and shows the author, or sets "Failed to load user details: " plus the error's message |
| UsersPage.Render | src/app/users/page.tsx:77-102 | the first matching branch, in both directions: the prompt exactly without an id; the loader exactly while loading; the error view, with the error message, exactly when an error is set; "not found" exactly when no author is known; otherwise the author's card |
| UsersPage.InvalidIdShowsError | src/app/users/page.tsx:55-58 | opening the page with an invalid id shows "Invalid user ID" and fetches nothing; without an id the page asks for one |
| UsersPage.ValidIdShowsOutcome | src/app/users/page.tsx:60-73 | opening the page with a valid id fetches that id and shows the loader; afterwards it shows the author's card or the failure message |

## Left out

- Backend I/O is not modelled. The model takes each result as an input:
  - store queries (`select`, `eq`, `textSearch`) as `QueryResult` or `SearchResponse` values;
  - identity lookups as a total function from author id to `AuthorLookup`;
  - `updateLikes` and the clipboard write as success flags;
  - the outcome of `getPosts` as a `FetchOutcome`.
- Full-text ranking and the `websearch` query syntax are not modelled. Only the query string sent is.
- GetPosts.SampleCount: `Math.random` is a real draw `u` in [0, 1), and `u * 6` is exact real arithmetic, not IEEE double arithmetic.
- `new Date(...).getTime()` is not modelled. `created_at` is an integer timestamp, so sorting by date compares integers.
- GetPosts.SortDescending: states ordering and permutation only, not stability. JavaScript's `Array.prototype.sort` is stable, but the feed's properties do not depend on it.
- GetPosts.SampleFeed: sorts a copy of the fetched array. In the source, `posts` and `sortedByDate` are the same array, which nothing else reads.
- Search.SortNewestFirst: a stable insertion sort, standing for JavaScript's stable sort. Its contract states ordering and permutation.
- Search.Search: a sub-search of an inactive filter is never issued. Its argument is then ignored.
- SearchBar.BuildSearchParams: `URLSearchParams` percent-encoding and the navigation through `window.location.href` are not modelled.
  - The parameters are an ordered key/value list.
  - Keys are a two-value type. The `userId` key, which the search page also reads, can therefore never be emitted.
- SearchBar.Trim: JavaScript strings are UTF-16, Dafny characters are Unicode scalar values. The whitespace set is that of the ECMAScript WhiteSpace and LineTerminator productions.
- UsersPage.Initial: for the same reason, `[0]` of a name that starts with a character outside the Basic Multilingual Plane yields the whole character here, not the lone UTF-16 surrogate the page would show.
- `setTimeout` timing is not modelled. The timeout callback is the separate operation `ExpireShare`. `alert` and `console` output are left out.
- `uuid.validate` is not modelled. The UUID check is a function parameter of `OnUserId`.
- React's batching and asynchrony are not modelled:
  - each handler is one atomic step, and state updaters apply at once;
  - stale requests racing each other are not modelled.
- FeedPage.FeedPageState.FetchPosts: a throw from `getPosts` escapes the effect after `finally`. Only its effect on the state is modelled.
- GetUsers.GetUserDetailsById: assumes the post query returns rows whenever it reports no error. A null `data` without an error is not modelled.
- Rendering is not modelled beyond the profile card and the branch order of the profile page: the feed page's JSX, post cards, the Select options.
- The rest of `src/app/search/page.tsx` is not modelled: reading its parameters and calling `search`. Its like and share handlers are those of `FeedPage`.
- These files are not part of this model:
  - `src/app/posts/page.tsx`, `src/app/login/page.tsx`, `src/app/signup/page.tsx` and `src/app/signup/actions.ts`;
  - `src/app/error/page.tsx`, `src/lib/likes.ts` and the static components.

  They are single backend calls, redirects or static markup. The only logic in them is the signup password check and the `currentLikes + 1` store write.
