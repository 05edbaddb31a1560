/** The author profile (src/lib/get-users.ts): the most used language of an
    author's posts, found by a counting loop, and the summary built around it. */
module GetUsers {
  import opened Types

  /** The largest number of occurrences of any value in `s` (0 when empty). */
  ghost function MaxCount<T>(s: seq<T>): (m: nat)
    ensures forall x :: x in s ==> multiset(s)[x] <= m
    ensures s != [] ==> exists x :: x in s && multiset(s)[x] == m
    decreases |s|
  {
    if s == [] then 0
    else
      var init := s[..|s| - 1];
      var last := s[|s| - 1];
      assert s == init + [last];
      var m0 := MaxCount(init);
      var c := multiset(s)[last];
      assert c == multiset(init)[last] + 1;
      assert forall x :: x in s && x != last ==> multiset(s)[x] == multiset(init)[x];
      if m0 >= c then m0 else c
  }

  /** `MaxCount` of a list extended by one value. */
  lemma MaxCountStep<T>(s: seq<T>, x: T)
    ensures MaxCount(s + [x]) == if MaxCount(s) >= multiset(s + [x])[x] then MaxCount(s) else multiset(s + [x])[x]
  {
    assert (s + [x])[..|s|] == s;
  }

  /** `e`, at some position `j < n` of `s`, is the first value whose count
      reaches `m`: its count in `s[..j + 1]` is `m`, and no value reached `m`
      in `s[..j]`. */
  ghost predicate FirstToReach<T>(s: seq<T>, n: int, e: T, m: int)
    requires 0 <= n <= |s|
  {
    exists j :: ReachesAt(s, j, n, e, m)
  }

  /** The witness of `FirstToReach`. */
  ghost predicate ReachesAt<T>(s: seq<T>, j: int, n: int, e: T, m: int) {
    0 <= j < n <= |s| && s[j] == e && multiset(s[..j + 1])[e] == m && MaxCount(s[..j]) < m
  }

  /** What `mostFrequent` promises of its result: an element of `s` that
      occurs at least as often as any value, and among those the one whose
      count reached the maximum first. */
  ghost predicate IsMostFrequent<T>(s: seq<T>, e: T) {
    && e in s
    && (forall x :: x in s ==> multiset(s)[x] <= multiset(s)[e])
    && FirstToReach(s, |s|, e, MaxCount(s))
  }

  /** Counts only grow along prefixes. */
  lemma PrefixCount<T>(s: seq<T>, i: int, j: int, x: T)
    requires 0 <= i <= j <= |s|
    ensures multiset(s[..i])[x] <= multiset(s[..j])[x]
  {
    assert s[..j] == s[..i] + s[i..j];
  }

  /** The value that first reaches the maximal count occurs that often. */
  lemma FirstToReachIsMaximal<T>(s: seq<T>, e: T)
    requires FirstToReach(s, |s|, e, MaxCount(s))
    ensures IsMostFrequent(s, e)
  {
    var j :| ReachesAt(s, j, |s|, e, MaxCount(s));
    PrefixCount(s, j + 1, |s|, e);
    assert s[..|s|] == s;
    assert multiset(s)[e] >= MaxCount(s);
  }

  /** Once `x` has reached count `m` at position `i`, every longer prefix
      has a value occurring `m` times. */
  lemma ReachedBefore<T>(s: seq<T>, i: int, j: int, x: T, m: int)
    requires 0 <= i < j <= |s| && s[i] == x && multiset(s[..i + 1])[x] == m
    ensures MaxCount(s[..j]) >= m
  {
    PrefixCount(s, i + 1, j, x);
    assert s[..j][i] == x;
  }

  /** The tie rule makes the answer unique: two values cannot both be the
      first to reach the maximal count. */
  lemma MostFrequentUnique<T>(s: seq<T>, a: T, b: T)
    requires IsMostFrequent(s, a) && IsMostFrequent(s, b)
    ensures a == b
  {
    var m := MaxCount(s);
    var ja :| ReachesAt(s, ja, |s|, a, m);
    var jb :| ReachesAt(s, jb, |s|, b, m);
    if ja < jb {
      ReachedBefore(s, ja, jb, a, m);
    } else if jb < ja {
      ReachedBefore(s, jb, ja, b, m);
    }
  }

  /** One step of the counting loop: either the new value is the first to
      reach a new maximum, or the earlier witness still stands. */
  lemma CountStep<T>(arr: seq<T>, i: int, best: T, maxCount: int)
    requires 0 <= i < |arr| && maxCount == MaxCount(arr[..i])
    requires i > 0 ==> FirstToReach(arr, i, best, maxCount)
    ensures var count := multiset(arr[..i + 1])[arr[i]];
      if count > maxCount then
        MaxCount(arr[..i + 1]) == count && FirstToReach(arr, i + 1, arr[i], count)
      else
        MaxCount(arr[..i + 1]) == maxCount && FirstToReach(arr, i + 1, best, maxCount)
  {
    assert arr[..i + 1] == arr[..i] + [arr[i]];
    MaxCountStep(arr[..i], arr[i]);
    var count := multiset(arr[..i + 1])[arr[i]];
    if count > maxCount {
      assert ReachesAt(arr, i, i + 1, arr[i], count);
    } else {
      assert count >= 1;
      assert i > 0;
      var j :| ReachesAt(arr, j, i, best, maxCount);
      assert ReachesAt(arr, j, i + 1, best, maxCount);
    }
  }

  /** `f` maps exactly the values of `s` to their number of occurrences. */
  ghost predicate IsFrequencyMap<T>(f: map<T, int>, s: seq<T>) {
    && f.Keys == (set x | x in s)
    && forall x :: x in f ==> f[x] == multiset(s)[x]
  }

  /** `frequency.get(x) || 0`. */
  function CountOf<T>(f: map<T, int>, x: T): int {
    if x in f then f[x] else 0
  }

  /** The invariant of the counting loop after `i` values: the map holds the
      exact counts of `arr[..i]`, `maxCount` is their maximum, and `best` is
      the value that reached it first. */
  ghost predicate CountingState<T>(arr: seq<T>, i: int, f: map<T, int>, maxCount: int, best: T) {
    && 0 <= i <= |arr|
    && IsFrequencyMap(f, arr[..i])
    && maxCount == MaxCount(arr[..i])
    && (i > 0 ==> FirstToReach(arr, i, best, maxCount))
  }

  /** Counting one more value keeps the frequency map exact. */
  lemma FrequencyStep<T>(arr: seq<T>, i: int, f: map<T, int>)
    requires 0 <= i < |arr| && IsFrequencyMap(f, arr[..i])
    ensures CountOf(f, arr[i]) + 1 == multiset(arr[..i + 1])[arr[i]]
    ensures IsFrequencyMap(f[arr[i] := CountOf(f, arr[i]) + 1], arr[..i + 1])
  {
    var x := arr[i];
    var s := arr[..i];
    assert arr[..i + 1] == s + [x];
    assert x !in f ==> multiset(s)[x] == 0;
    assert forall y :: y in s + [x] <==> y in s || y == x;
  }

  /** One iteration of the loop keeps `CountingState`. */
  lemma CountingStep<T>(arr: seq<T>, i: int, f: map<T, int>, maxCount: int, best: T)
    requires CountingState(arr, i, f, maxCount, best) && i < |arr|
    ensures var count := CountOf(f, arr[i]) + 1;
      CountingState(arr, i + 1, f[arr[i] := count],
                    if count > maxCount then count else maxCount,
                    if count > maxCount then arr[i] else best)
  {
    FrequencyStep(arr, i, f);
    CountStep(arr, i, best, maxCount);
  }

  /** mostFrequent (get-users.ts:6-24): undefined for an empty list;
      otherwise one pass that keeps a frequency map, the largest count so far
      and the value that reached it, replaced only on a strictly larger count. */
  method MostFrequent<T(==)>(arr: seq<T>) returns (r: Option<T>)
    ensures arr == [] <==> r.None?
    ensures r.Some? ==> r.value in arr && forall x :: x in arr ==> multiset(arr)[x] <= multiset(arr)[r.value]
    ensures r.Some? ==> FirstToReach(arr, |arr|, r.value, MaxCount(arr))
  {
    if |arr| == 0 {
      return None;
    }
    var frequency: map<T, int> := map[];
    var maxCount := 0;
    var mostFrequentElement := arr[0];
    for i := 0 to |arr|
      invariant CountingState(arr, i, frequency, maxCount, mostFrequentElement)
    {
      var element := arr[i];
      var count := CountOf(frequency, element) + 1;
      CountingStep(arr, i, frequency, maxCount, mostFrequentElement);
      frequency := frequency[element := count];
      if count > maxCount {
        maxCount := count;
        mostFrequentElement := element;
      }
    }
    assert arr[..|arr|] == arr;
    FirstToReachIsMaximal(arr, mostFrequentElement);
    r := Some(mostFrequentElement);
  }

  /** Shown when an author's languages cannot be determined. */
  const NoCodingData := "No Coding Data"

  /** The `iss` of accounts signed in through GitHub. */
  const GithubIssuer := "https://api.github.com"

  /** The author metadata kept by the identity provider. */
  datatype UserMetadata = UserMetadata(
    name: Option<string>,
    userName: Option<string>,
    avatarUrl: Option<string>,
    iss: Option<string>)

  /** The message of the error thrown when the author lookup fails. */
  function UserErrorMessage(message: string): string {
    "Failed to get user: " + (if message != "" then message else "Unknown error")
  }

  /** The message of the thrown error names the lookup's message: two
      messages give the same text only when they are equal, or are the empty
      message and "Unknown error", which `||` cannot tell apart. */
  lemma UserErrorMessageNames(a: string, b: string)
    requires UserErrorMessage(a) == UserErrorMessage(b)
    ensures a == b || (a == "" && b == "Unknown error") || (a == "Unknown error" && b == "")
  {
    var prefix := "Failed to get user: ";
    var ra := if a != "" then a else "Unknown error";
    var rb := if b != "" then b else "Unknown error";
    assert UserErrorMessage(a)[|prefix|..] == ra;
    assert UserErrorMessage(b)[|prefix|..] == rb;
  }

  /** The languages of the given posts, in order. */
  function Languages(posts: seq<SocialPost>): seq<string> {
    seq(|posts|, i requires 0 <= i < |posts| => posts[i].codeLanguage)
  }

  /** getUserDetailsById (get-users.ts:26-62), given the outcome of the
      author lookup and of the query for the author's posts (issued only
      when the lookup succeeds). A failed lookup throws; otherwise the post
      count and most used language come from the posts, "No Coding Data"
      standing in when the query fails or finds nothing. */
  method GetUserDetailsById(userLookup: QueryResult<UserMetadata>, postQuery: QueryResult<seq<SocialPost>>)
    returns (r: Result<DisplayUser>)
    ensures userLookup.QueryError? <==> r.Err?
    ensures r.Err? ==> r.message == UserErrorMessage(userLookup.message)
    ensures r.Ok? ==>
      && r.value.name == userLookup.data.name
      && r.value.userName == Some(userLookup.data.userName.GetOr(""))
      && r.value.avatarUrl == userLookup.data.avatarUrl
      && (r.value.hasGithub <==> userLookup.data.iss == Some(GithubIssuer))
    ensures r.Ok? && postQuery.QueryError? ==>
      r.value.postsNumber == Some(0) && r.value.mostUsedLanguage == Some(NoCodingData)
    ensures r.Ok? && postQuery.QueryOk? ==> r.value.postsNumber == Some(|postQuery.data|)
    ensures r.Ok? && postQuery.QueryOk? && postQuery.data == [] ==> r.value.mostUsedLanguage == Some(NoCodingData)
    ensures r.Ok? && postQuery.QueryOk? && postQuery.data != [] ==>
      r.value.mostUsedLanguage.Some? && IsMostFrequent(Languages(postQuery.data), r.value.mostUsedLanguage.value)
  {
    match userLookup {
      case QueryError(message) =>
        return Err(UserErrorMessage(message));
      case QueryOk(meta) =>
        var postNumber := 0;
        var mostUsedLanguage: Option<string>;
        match postQuery {
          case QueryError(_) =>
            postNumber := 0;
            mostUsedLanguage := Some(NoCodingData);
          case QueryOk(postData) =>
            postNumber := |postData|;
            var languages: seq<string> := [];
            for i := 0 to |postData|
              invariant languages == Languages(postData[..i])
            {
              languages := languages + [postData[i].codeLanguage];
            }
            assert postData[..|postData|] == postData;
            mostUsedLanguage := MostFrequent(languages);
            if mostUsedLanguage.None? {
              mostUsedLanguage := Some(NoCodingData);
            } else {
              FirstToReachIsMaximal(languages, mostUsedLanguage.value);
            }
        }
        r := Ok(DisplayUser(
          meta.name,
          Some(meta.userName.GetOr("")),
          meta.avatarUrl,
          Some(postNumber),
          mostUsedLanguage,
          meta.iss == Some(GithubIssuer)));
    }
  }
}
