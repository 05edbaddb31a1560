/** The search bar of the feed (src/components/custom/SearchBar.tsx): the
    selected language, the typed keywords and an error message, and the rule
    that turns the first two into the query parameters of the search page or
    rejects them. */
module SearchBar {
  import opened Types

  /** The keys handleSearch can append, written "language" and "keywords"
      in the query string; the search page also reads a `userId` key, which
      the search bar never sends. */
  datatype Key = LanguageKey | KeywordsKey

  /** One `key=value` pair appended to the query string. */
  datatype Param = Param(key: Key, value: string)

  /** The option of the language select that stands for "no filter". */
  const NoLanguage := "no-language"

  /** The message shown when neither a language nor keywords were given. */
  const MissingInput := "Pass an input before searching"

  /** The characters `String.prototype.trim` removes: the ECMAScript
      WhiteSpace and LineTerminator code points. */
  predicate IsWhitespace(c: char) {
    || c == '\t' || c == '\n' || c == '\U{000B}' || c == '\U{000C}' || c == '\r' || c == ' '
    || c == '\U{00A0}' || c == '\U{1680}' || ('\U{2000}' <= c <= '\U{200A}')
    || c == '\U{2028}' || c == '\U{2029}' || c == '\U{202F}' || c == '\U{205F}'
    || c == '\U{3000}' || c == '\U{FEFF}'
  }

  /** `s` with its leading whitespace removed. */
  function TrimStart(s: string): (r: string)
    ensures |r| <= |s| && r == s[|s| - |r|..]
    ensures forall i :: 0 <= i < |s| - |r| ==> IsWhitespace(s[i])
    ensures r != [] ==> !IsWhitespace(r[0])
  {
    if s != [] && IsWhitespace(s[0]) then TrimStart(s[1..]) else s
  }

  /** `s` with its trailing whitespace removed. */
  function TrimEnd(s: string): (r: string)
    ensures |r| <= |s| && r == s[..|r|]
    ensures forall i :: |r| <= i < |s| ==> IsWhitespace(s[i])
    ensures r != [] ==> !IsWhitespace(r[|r| - 1])
  {
    if s != [] && IsWhitespace(s[|s| - 1]) then TrimEnd(s[..|s| - 1]) else s
  }

  /** `s.trim()`. */
  function Trim(s: string): (r: string)
    ensures exists k :: TrimmedAt(s, k, r)
    ensures r != [] ==> !IsWhitespace(r[0]) && !IsWhitespace(r[|r| - 1])
  {
    var t := TrimStart(s);
    var r := TrimEnd(t);
    assert TrimmedAt(s, |s| - |t|, r);
    r
  }

  /** `r` stands at position `k` of `s`, with only whitespace around it. */
  predicate TrimmedAt(s: string, k: int, r: string) {
    && 0 <= k <= |s| - |r|
    && s[k..k + |r|] == r
    && (forall i :: 0 <= i < k ==> IsWhitespace(s[i]))
    && (forall i :: k + |r| <= i < |s| ==> IsWhitespace(s[i]))
  }

  /** Every character of `s` is whitespace. */
  predicate Blank(s: string) {
    forall i :: 0 <= i < |s| ==> IsWhitespace(s[i])
  }

  /** A string trims to nothing exactly when it is all whitespace. */
  lemma TrimEmpty(s: string)
    ensures Trim(s) == "" <==> Blank(s)
  {
    var t := TrimStart(s);
    if t != [] {
      assert t[0] == s[|s| - |t|];
    }
  }

  /** A language filter was chosen (handleSearch, lines 39-41). */
  predicate LanguageChosen(language: Option<string>) {
    language.Some? && language.value != NoLanguage
  }

  /** Keywords were typed that are not only whitespace (lines 42-44). */
  predicate KeywordsGiven(keywords: Option<string>) {
    keywords.Some? && !Blank(keywords.value)
  }

  /** The search is refused (lines 34-37). */
  predicate Rejects(language: Option<string>, keywords: Option<string>) {
    !LanguageChosen(language) && !KeywordsGiven(keywords)
  }

  /** `searchLanguage` (lines 39-41): the language, unless it is missing
      or "no-language". */
  function SearchLanguage(language: Option<string>): (r: Option<string>)
    ensures r.Some? <==> LanguageChosen(language)
    ensures r.Some? ==> r == language
  {
    if LanguageChosen(language) then language else None
  }

  /** `searchKeywords` (lines 42-44): the keywords as typed, unless they are
      missing or only whitespace. */
  function SearchKeywords(keywords: Option<string>): (r: Option<string>)
    ensures r.Some? <==> KeywordsGiven(keywords)
    ensures r.Some? ==> r == keywords
  {
    if KeywordsGiven(keywords) then keywords else None
  }

  /** Some parameter of `params` has key `key`. */
  predicate HasKey(params: seq<Param>, key: Key) {
    exists i :: 0 <= i < |params| && params[i].key == key
  }

  /** What the search page is sent for the chosen `searchLanguage` and
      `searchKeywords`: only `language` and `keywords` keys, each at most once
      and `language` first; `language` present exactly when a language was
      chosen and `keywords` exactly when keywords were, each carrying that
      value. */
  ghost predicate IsSearchParams(searchLanguage: Option<string>, searchKeywords: Option<string>, params: seq<Param>) {
    && (forall i, j :: 0 <= i < j < |params| ==> params[i].key != params[j].key)
    && (forall i, j :: 0 <= i < |params| && 0 <= j < |params| && params[i].key == LanguageKey && params[j].key == KeywordsKey ==> i < j)
    && (HasKey(params, LanguageKey) <==> searchLanguage.Some?)
    && (HasKey(params, KeywordsKey) <==> searchKeywords.Some?)
    && (forall i :: 0 <= i < |params| && params[i].key == LanguageKey ==> params[i].value == searchLanguage.value)
    && (forall i :: 0 <= i < |params| && params[i].key == KeywordsKey ==> params[i].value == searchKeywords.value)
  }

  /** The language parameter followed by the keywords parameter, each only
      when chosen. */
  function ParamsFor(searchLanguage: Option<string>, searchKeywords: Option<string>): seq<Param> {
    (if searchLanguage.Some? then [Param(LanguageKey, searchLanguage.value)] else [])
    + (if searchKeywords.Some? then [Param(KeywordsKey, searchKeywords.value)] else [])
  }

  /** `ParamsFor` fits the description. */
  lemma ParamsForFits(searchLanguage: Option<string>, searchKeywords: Option<string>)
    ensures IsSearchParams(searchLanguage, searchKeywords, ParamsFor(searchLanguage, searchKeywords))
  {
    var p := ParamsFor(searchLanguage, searchKeywords);
    if searchLanguage.Some? && searchKeywords.Some? {
      assert p[0].key == LanguageKey && p[1].key == KeywordsKey;
    } else if searchLanguage.Some? {
      assert p[0].key == LanguageKey;
    } else if searchKeywords.Some? {
      assert p[0].key == KeywordsKey;
    }
  }

  /** The description above leaves no choice: at most one parameter list fits
      a given choice. */
  lemma SearchParamsUnique(searchLanguage: Option<string>, searchKeywords: Option<string>, p: seq<Param>, q: seq<Param>)
    requires IsSearchParams(searchLanguage, searchKeywords, p) && IsSearchParams(searchLanguage, searchKeywords, q)
    ensures p == q
  {
    SearchParamsShape(searchLanguage, searchKeywords, p);
    SearchParamsShape(searchLanguage, searchKeywords, q);
  }

  /** The one parameter list that fits a choice. */
  lemma SearchParamsShape(searchLanguage: Option<string>, searchKeywords: Option<string>, p: seq<Param>)
    requires IsSearchParams(searchLanguage, searchKeywords, p)
    ensures p == ParamsFor(searchLanguage, searchKeywords)
  {
    if |p| >= 3 {
      RepeatedKey(p);
      assert false;
    } else if |p| == 2 {
      assert p[0].key != p[1].key;
      assert p[0].key == LanguageKey && p[1].key == KeywordsKey;
    } else if |p| == 1 {
      assert p[0].key == LanguageKey ==> !HasKey(p, KeywordsKey);
      assert p[0].key == KeywordsKey ==> !HasKey(p, LanguageKey);
    } else {
      assert !HasKey(p, LanguageKey) && !HasKey(p, KeywordsKey);
    }
  }

  /** Among three parameters two share a key, there being only two keys. */
  lemma RepeatedKey(p: seq<Param>)
    requires |p| >= 3
    ensures p[0].key == p[1].key || p[0].key == p[2].key || p[1].key == p[2].key
  {
  }

  /** An accepted input yields one or two parameters. */
  lemma SearchParamsBounds(language: Option<string>, keywords: Option<string>, p: seq<Param>)
    requires IsSearchParams(SearchLanguage(language), SearchKeywords(keywords), p) && !Rejects(language, keywords)
    ensures 1 <= |p| <= 2
  {
    SearchParamsShape(SearchLanguage(language), SearchKeywords(keywords), p);
  }

  /** The parameter derivation of handleSearch (SearchBar.tsx:30-53): refuse
      when neither filter is given, otherwise keep the language unless it is
      "no-language", keep the keywords unless they trim to nothing, and
      append them in that order. */
  method BuildSearchParams(language: Option<string>, keywords: Option<string>) returns (params: Option<seq<Param>>)
    ensures params.None? <==> Rejects(language, keywords)
    ensures params.Some? ==> IsSearchParams(SearchLanguage(language), SearchKeywords(keywords), params.value)
  {
    var searchLanguage: Option<string> := None;
    var searchKeywords: Option<string> := None;
    if keywords.Some? {
      TrimEmpty(keywords.value);
    }
    if (language.None? || language.value == NoLanguage) && (keywords.None? || Trim(keywords.value) == "") {
      return None;
    }
    if language.Some? && language.value != NoLanguage {
      searchLanguage := language;
    }
    if keywords.Some? && Trim(keywords.value) != "" {
      searchKeywords := keywords;
    }
    assert searchLanguage == SearchLanguage(language) && searchKeywords == SearchKeywords(keywords);
    var ps: seq<Param> := [];
    if searchLanguage.Some? {
      ps := ps + [Param(LanguageKey, searchLanguage.value)];
    }
    if searchKeywords.Some? {
      ps := ps + [Param(KeywordsKey, searchKeywords.value)];
    }
    assert ps == ParamsFor(SearchLanguage(language), SearchKeywords(keywords));
    ParamsForFits(SearchLanguage(language), SearchKeywords(keywords));
    params := Some(ps);
  }

  /** The component's state. */
  class SearchBarState {
    var language: Option<string>
    var keywords: Option<string>
    var error: Option<string>

    /** Nothing selected, nothing typed, no error (lines 16-18). */
    constructor ()
      ensures language == None && keywords == None && error == None
    {
      language := None;
      keywords := None;
      error := None;
    }

    /** The Search button is disabled while an error is shown (line 123). */
    predicate Disabled()
      reads this
      ensures Disabled() <==> error.Some? && error.value != ""
    {
      Truthy(error)
    }

    /** handleLanguage (lines 20-23): record the selection and clear a shown
        error. */
    method HandleLanguage(value: string)
      modifies this
      ensures language == Some(value) && keywords == old(keywords)
      ensures error == if Truthy(old(error)) then None else old(error)
      ensures !Disabled()
    {
      language := Some(value);
      if Truthy(error) {
        error := None;
      }
    }

    /** handleKeywords (lines 25-28): record the typed text and clear a shown
        error. */
    method HandleKeywords(value: string)
      modifies this
      ensures keywords == Some(value) && language == old(language)
      ensures error == if Truthy(old(error)) then None else old(error)
      ensures !Disabled()
    {
      keywords := Some(value);
      if Truthy(error) {
        error := None;
      }
    }

    /** handleSearch (lines 30-57). A refused input shows the message and
        stays on the page; otherwise the result is the parameter list the
        search page is opened with, and the state is left alone. */
    method HandleSearch(language: Option<string>, keywords: Option<string>) returns (target: Option<seq<Param>>)
      modifies this
      ensures target.None? <==> Rejects(language, keywords)
      ensures target.Some? ==> IsSearchParams(SearchLanguage(language), SearchKeywords(keywords), target.value)
      ensures this.language == old(this.language) && this.keywords == old(this.keywords)
      ensures error == if target.None? then Some(MissingInput) else old(error)
    {
      target := BuildSearchParams(language, keywords);
      if target.None? {
        error := Some(MissingInput);
      }
    }

    /** A click on the Search button (line 122): nothing happens while the
        button is disabled; otherwise the search runs on the current state,
        a refusal shows the missing-input message and so disables the button,
        and an accepted search leaves the error as it was. */
    method ClickSearch() returns (target: Option<seq<Param>>)
      modifies this
      ensures old(Disabled()) ==> target.None? && unchanged(this)
      ensures !old(Disabled()) ==>
        && (target.None? <==> Rejects(old(language), old(keywords)))
        && (target.Some? ==> IsSearchParams(SearchLanguage(old(language)), SearchKeywords(old(keywords)), target.value))
        && (target.None? ==> Disabled())
      ensures error == if !old(Disabled()) && target.None? then Some(MissingInput) else old(error)
      ensures language == old(language) && keywords == old(keywords)
    {
      if Disabled() {
        return None;
      }
      target := HandleSearch(language, keywords);
    }
  }
}
