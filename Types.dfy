/** Records shared by the data-access functions and the pages (src/lib/types.ts),
    together with the small wrappers the model uses for `undefined`, `null`,
    thrown errors and backend responses. */
module Types {

  /** `T | undefined` (or `T | null`). */
  datatype Option<T> = None | Some(value: T) {
    /** The `??` operator: the value, or `default` when there is none. */
    function GetOr(default: T): T {
      match this
      case Some(v) => v
      case None => default
    }
  }

  /** A function that either returns a value or throws an `Error` with a message. */
  datatype Result<T> = Ok(value: T) | Err(message: string)

  /** What a backend query hands back: an error object, or the selected rows. */
  datatype QueryResult<T> = QueryError(message: string) | QueryOk(data: T)

  /** JavaScript truthiness of a `string | null | undefined` value:
      present and not the empty string. */
  predicate Truthy(s: Option<string>) {
    s.Some? && s.value != ""
  }

  /** A row of the `social` table; `created_at` is kept as a timestamp. */
  datatype SocialPost = SocialPost(
    id: int,
    createdAt: int,
    code: string,
    instructions: string,
    authorName: string,
    authorId: string,
    likes: int,
    shareLink: string,
    codeLanguage: string)

  /** A post ready for display: a `SocialPost` plus its author's avatar. */
  datatype DisplayPost = DisplayPost(
    id: int,
    createdAt: int,
    code: string,
    instructions: string,
    authorName: string,
    authorImageUrl: string,
    likes: int,
    shareLink: string,
    authorId: string,
    codeLanguage: string)

  /** The derived profile of an author. */
  datatype DisplayUser = DisplayUser(
    name: Option<string>,
    userName: Option<string>,
    avatarUrl: Option<string>,
    postsNumber: Option<int>,
    mostUsedLanguage: Option<string>,
    hasGithub: bool)

  /** The ids occurring in a list of display posts. */
  function Ids(s: seq<DisplayPost>): set<int> {
    set p | p in s :: p.id
  }

  /** The ids of a list grow by the id of each appended post. */
  lemma IdsAppend(s: seq<DisplayPost>, x: DisplayPost)
    ensures Ids(s + [x]) == Ids(s) + {x.id}
  {
    assert forall p :: p in s + [x] <==> p in s || p == x;
  }

  /** No id occurs twice. */
  ghost predicate DistinctIds(s: seq<DisplayPost>) {
    forall i, j :: 0 <= i < j < |s| ==> s[i].id != s[j].id
  }
}
