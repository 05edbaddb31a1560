/** The author profile page (src/app/users/page.tsx): the `@` handle, the
    defaults used when a field is missing, and how the page reacts to its
    `userId` parameter and to the outcome of getUserDetailsById. */
module UsersPage {
  import opened Types
  import GetPosts

  /** Shown for a `userId` that is not a UUID. */
  const InvalidUserId := "Invalid user ID"

  /** Prefix of the message shown when the profile cannot be loaded. */
  const LoadDetailsFailed := "Failed to load user details: "

  /** Prefix of an author's GitHub profile address. */
  const GithubProfile := "https://github.com/"

  /** Shown when an author has no most used language. */
  const NoLanguageBadge := "No Language"

  /** Shown instead of an author's initial when there is none. */
  const NoInitial := "U"

  /** getUserUserName (users/page.tsx:31-37): the handle `@name`, or nothing
      for an empty name. */
  function GetUserUserName(userName: string): (r: string)
    ensures userName == "" ==> r == ""
    ensures userName != "" ==> |r| == |userName| + 1 && r[0] == '@' && r[1..] == userName
  {
    if userName == "" then userName else "@" + userName
  }

  /** Different names get different handles. */
  lemma UserNameInjective(a: string, b: string)
    requires GetUserUserName(a) == GetUserUserName(b)
    ensures a == b
  {
    if a != "" && b != "" {
      assert a == GetUserUserName(a)[1..];
    }
  }

  /** A template literal's rendering of a `string | null` value. */
  function TemplateText(s: Option<string>): string {
    match s
    case Some(v) => v
    case None => "null"
  }

  /** `name?.split(" ")[0][0] ?? "U"`: the first character of the first
      space-separated word of the name, or "U" when the name is missing or
      starts with a space (the word is then empty). */
  function Initial(name: Option<string>): (r: string)
    ensures |r| == 1
    ensures r == NoInitial <==> name.None? || name.value == "" || name.value[0] == ' ' || name.value[0] == 'U'
    ensures r != NoInitial ==> r[0] == name.value[0] && r[0] != ' '
  {
    if name.Some? && name.value != "" && name.value[0] != ' ' then [name.value[0]] else NoInitial
  }

  /** What the profile card shows. */
  datatype ProfileCard = ProfileCard(
    title: Option<string>,
    handle: string,
    link: string,
    githubIcon: bool,
    avatar: string,
    initial: string,
    posts: int,
    language: string)

  /** The card of an author (users/page.tsx:104-135). */
  function Card(u: DisplayUser): (c: ProfileCard)
    ensures c.title == u.name
    ensures c.handle == GetUserUserName(u.userName.GetOr(""))
    ensures c.link == "#" <==> !u.hasGithub
    ensures u.hasGithub ==> c.link == GithubProfile + TemplateText(u.userName)
    ensures c.githubIcon <==> u.hasGithub
    ensures u.avatarUrl.Some? ==> c.avatar == u.avatarUrl.value
    ensures u.avatarUrl.None? ==> c.avatar == GetPosts.DefaultAvatar
    ensures c.initial == Initial(u.name)
    ensures c.posts == if u.postsNumber.Some? then u.postsNumber.value else 0
    ensures c.language == if u.mostUsedLanguage.Some? then u.mostUsedLanguage.value else NoLanguageBadge
  {
    var link := if u.hasGithub then GithubProfile + TemplateText(u.userName) else "#";
    assert u.hasGithub ==> link[0] == 'h';
    ProfileCard(
      u.name,
      GetUserUserName(u.userName.GetOr("")),
      link,
      u.hasGithub,
      u.avatarUrl.GetOr(GetPosts.DefaultAvatar),
      Initial(u.name),
      u.postsNumber.GetOr(0),
      u.mostUsedLanguage.GetOr(NoLanguageBadge))
  }

  /** For an author built by getUserDetailsById, which always fills in the
      user name, the post count and the language, no default is used: the
      link names the author's GitHub account (never "null"), and the card
      shows the real count and language. */
  lemma CardOfLoadedUser(u: DisplayUser)
    requires u.userName.Some? && u.postsNumber.Some? && u.mostUsedLanguage.Some?
    ensures u.hasGithub ==> Card(u).link == GithubProfile + u.userName.value
    ensures Card(u).handle == GetUserUserName(u.userName.value)
    ensures Card(u).posts == u.postsNumber.value
    ensures Card(u).language == u.mostUsedLanguage.value
  {
  }

  /** The page's state (lines 46-48). */
  datatype ProfileState = ProfileState(user: Option<DisplayUser>, loading: bool, error: Option<string>)

  /** No author, not loading, no error. */
  function InitialProfile(): (r: ProfileState)
    ensures forall userIdParam :: Render(userIdParam, r) == if Truthy(userIdParam) then NotFound else AskForUserId
  {
    ProfileState(None, false, None)
  }

  /** The state after the effect on `userId`, and the id it fetches, if any. */
  datatype EffectResult = EffectResult(state: ProfileState, fetchFor: Option<string>)

  /** The effect run when the `userId` parameter changes (lines 50-75),
      `isValidUuid` standing for the UUID check: nothing happens for a
      missing or empty parameter; an invalid id shows "Invalid user ID" and
      fetches nothing; otherwise loading starts, the error is cleared and the
      profile of that id is requested. */
  function OnUserId(s: ProfileState, userIdParam: Option<string>, isValidUuid: string -> bool): (r: EffectResult)
    ensures r.fetchFor.Some? <==> Truthy(userIdParam) && isValidUuid(userIdParam.value)
    ensures r.fetchFor.Some? ==>
      r.fetchFor.value == userIdParam.value && r.state == s.(loading := true, error := None)
    ensures Truthy(userIdParam) && !isValidUuid(userIdParam.value) ==>
      r.state == s.(error := Some(InvalidUserId))
    ensures !Truthy(userIdParam) ==> r.state == s
  {
    if Truthy(userIdParam) then
      var userId := userIdParam.value;
      if userId == "" || !isValidUuid(userId) then
        EffectResult(s.(error := Some(InvalidUserId)), None)
      else
        EffectResult(s.(loading := true, error := None), Some(userId))
    else
      EffectResult(s, None)
  }

  /** The end of the request (lines 63-73): the author is shown, or the
      error message is set; loading stops either way. */
  function OnDetails(s: ProfileState, outcome: Result<DisplayUser>): (r: ProfileState)
    ensures !r.loading
    ensures outcome.Ok? ==> r.user == Some(outcome.value) && r.error == s.error
    ensures outcome.Err? ==> r.error == Some(LoadDetailsFailed + outcome.message) && r.user == s.user
  {
    match outcome
    case Ok(u) => s.(user := Some(u), loading := false)
    case Err(message) => s.(error := Some(LoadDetailsFailed + message), loading := false)
  }

  /** What the page renders (lines 77-102 and the card below them). */
  datatype View = AskForUserId | LoadingView | ErrorView(message: string) | NotFound | CardView(card: ProfileCard)

  /** The first matching branch of the page's render. */
  function Render(userIdParam: Option<string>, s: ProfileState): (v: View)
    ensures v.CardView? ==> Truthy(userIdParam) && !s.loading && !Truthy(s.error) && s.user.Some? && v.card == Card(s.user.value)
    ensures v.ErrorView? ==> Truthy(userIdParam) && !s.loading && Truthy(s.error) && v.message == s.error.value
    ensures Truthy(userIdParam) && !s.loading && !Truthy(s.error) && s.user.Some? ==> v == CardView(Card(s.user.value))
    ensures Truthy(userIdParam) && !s.loading && Truthy(s.error) ==> v == ErrorView(s.error.value)
    ensures v == AskForUserId <==> !Truthy(userIdParam)
    ensures v == LoadingView <==> Truthy(userIdParam) && s.loading
    ensures v == NotFound <==> Truthy(userIdParam) && !s.loading && !Truthy(s.error) && s.user.None?
  {
    if !Truthy(userIdParam) then AskForUserId
    else if s.loading then LoadingView
    else if Truthy(s.error) then ErrorView(s.error.value)
    else if s.user.None? then NotFound
    else CardView(Card(s.user.value))
  }

  /** Opening the page with an id that is not a UUID shows "Invalid user ID"
      and fetches nothing; opening it without an id asks for one. */
  lemma InvalidIdShowsError(userIdParam: Option<string>, isValidUuid: string -> bool)
    ensures var e := OnUserId(InitialProfile(), userIdParam, isValidUuid);
      && (Truthy(userIdParam) && !isValidUuid(userIdParam.value) ==>
            e.fetchFor.None? && Render(userIdParam, e.state) == ErrorView(InvalidUserId))
      && (!Truthy(userIdParam) ==> e.fetchFor.None? && Render(userIdParam, e.state) == AskForUserId)
  {
  }

  /** Opening the page with a valid id and getting the author back shows the
      author's card; a failed request shows the failure message. */
  lemma ValidIdShowsOutcome(userIdParam: Option<string>, isValidUuid: string -> bool, outcome: Result<DisplayUser>)
    requires Truthy(userIdParam) && isValidUuid(userIdParam.value)
    ensures var e := OnUserId(InitialProfile(), userIdParam, isValidUuid);
      && e.fetchFor == Some(userIdParam.value)
      && Render(userIdParam, e.state) == LoadingView
      && Render(userIdParam, OnDetails(e.state, outcome)) ==
           match outcome
           case Ok(u) => CardView(Card(u))
           case Err(m) => ErrorView(LoadDetailsFailed + m)
  {
  }
}
